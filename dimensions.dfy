/** Grid dimensions of the plane generator: a segment count becomes an odd
    vertex count per axis, computed with 32-bit two's-complement integers,
    and the regeneration path checks that the result is odd with the C#
    remainder operator. */
module Dimensions {

  const TwoTo31: int := 0x8000_0000
  const TwoTo32: int := 0x1_0000_0000

  predicate IsInt32(x: int) {
    -TwoTo31 <= x < TwoTo31
  }

  /** The value a C# `int` holds after an arithmetic result `x` wraps around. */
  function Wrap32(x: int): (r: int)
    ensures IsInt32(r)
    ensures (r - x) % TwoTo32 == 0
    ensures IsInt32(x) ==> r == x
  {
    (x + TwoTo31) % TwoTo32 - TwoTo31
  }

  /** Wrapping around an even modulus keeps the parity of a value. */
  lemma WrapKeepsParity(x: int)
    ensures Wrap32(x) % 2 == x % 2
  {
    var k := (x - Wrap32(x)) / TwoTo32;
    assert x == Wrap32(x) + k * TwoTo32;
    assert k * TwoTo32 == 2 * (k * TwoTo31);
  }

  /** `(seg - 1) + seg` on C# ints: the vertex count of one axis for a segment
      count. It is odd for every segment count, including zero, negative
      counts and counts whose double overflows. */
  function DerivedDim(seg: int): (d: int)
    ensures IsInt32(d)
    ensures d % 2 == 1
    ensures -0x3FFF_FFFF <= seg <= 0x4000_0000 ==> d == 2 * seg - 1
  {
    WrapKeepsParity((seg - 1) + seg);
    Wrap32((seg - 1) + seg)
  }

  /** The C# quotient `a / b`, which truncates toward zero. */
  function CsQuot(a: int, b: int): int
    requires b > 0
  {
    if a >= 0 then a / b else -((-a) / b)
  }

  /** The C# remainder `a % b`, which truncates toward zero, so its sign is the
      sign of the dividend. With the quotient it rebuilds the dividend, and
      the range then fixes its value. */
  function CsRem(a: int, b: int): (r: int)
    requires b > 0
    ensures a == b * CsQuot(a, b) + r
    ensures a >= 0 ==> 0 <= r < b
    ensures a < 0 ==> -b < r <= 0
  {
    if a >= 0 then a % b
    else
      var q := (-a) / b;
      assert -a == b * q + (-a) % b;
      assert b * -q == -(b * q);
      -((-a) % b)
  }

  /** The guard of the diagnostic branch in `Update`: either stored dimension
      has C# remainder zero modulo two. */
  predicate OddCheckFails(x: int, y: int) {
    CsRem(x, 2) == 0 || CsRem(y, 2) == 0
  }

  /** The diagnostic branch fires exactly when one dimension is even, for
      negative dimensions too. */
  lemma OddCheckFailsIffEven(x: int, y: int)
    ensures OddCheckFails(x, y) <==> (x % 2 == 0 || y % 2 == 0)
  {
    CsRemTwoIsZeroIffEven(x);
    CsRemTwoIsZeroIffEven(y);
  }

  lemma CsRemTwoIsZeroIffEven(a: int)
    ensures CsRem(a, 2) == 0 <==> a % 2 == 0
  {
    if a < 0 {
      assert (-a) % 2 == 0 <==> a % 2 == 0 by {
        assert a == -(-a);
        var q := (-a) / 2;
        assert -a == 2 * q + (-a) % 2;
        assert a == 2 * (-q) - (-a) % 2;
      }
    }
  }

  /** Dimensions derived from any two segment counts never take the
      diagnostic branch: the even-dimension path of `Update` is dead. */
  lemma DerivedDimsPassOddCheck(segX: int, segY: int)
    ensures !OddCheckFails(DerivedDim(segX), DerivedDim(segY))
  {
    OddCheckFailsIffEven(DerivedDim(segX), DerivedDim(segY));
  }
}
