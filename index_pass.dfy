/** The second pass of `GenerateGeometry`: two triangles per quad cell, cells
    visited column by column (`i` outside, `j` inside), each cell split along
    one of its two diagonals according to its quadrant group and the
    hemisphere flag. */
module IndexPass {
  import opened VertexPass

  /** The corner vertex numbers of one cell: `a` bottom-left, `b`
      bottom-right, `c` top-right, `d` top-left. */
  datatype Quad = Quad(a: int, b: int, c: int, d: int)

  function Corners(i: int, j: int, storedX: int): (q: Quad)
    ensures q.a == VertexIndex(i, j, storedX)
    ensures q.b == q.a + 1 && q.d == q.a + storedX && q.c == q.a + storedX + 1
  {
    Quad(i + j * storedX, i + 1 + j * storedX, i + 1 + (j + 1) * storedX, i + (j + 1) * storedX)
  }

  /** Triangles (a, c, b) and (a, d, c): the cell cut along diagonal a-c. */
  function ACSplit(q: Quad): seq<int> {
    [q.a, q.c, q.b, q.a, q.d, q.c]
  }

  /** Triangles (a, d, b) and (b, d, c): the cell cut along diagonal b-d. */
  function BDSplit(q: Quad): seq<int> {
    [q.a, q.d, q.b, q.b, q.d, q.c]
  }

  /** The quadrant test: cell (i, j) lies in the lower half on both axes or in
      the upper half on both. The source compares `i < numQuadsX * 0.5f`,
      which over exact numbers is `2 * i < numQuadsX`. */
  predicate SameHalf(i: int, j: int, numQuadsX: int, numQuadsY: int) {
    (2 * i < numQuadsX && 2 * j < numQuadsY) || (2 * i >= numQuadsX && 2 * j >= numQuadsY)
  }

  /** The six indices the source appends for cell (i, j). */
  function CellIndices(i: int, j: int, storedX: int, storedY: int, hemisphere: bool): (r: seq<int>)
    ensures |r| == 6
  {
    var q := Corners(i, j, storedX);
    if SameHalf(i, j, storedX - 1, storedY - 1) then
      (if hemisphere then ACSplit(q) else BDSplit(q))
    else
      (if hemisphere then BDSplit(q) else ACSplit(q))
  }

  /** The indices of cells (i, 0), ..., (i, n - 1). */
  function IndicesOfColumn(i: int, n: nat, storedX: int, storedY: int, hemisphere: bool): (r: seq<int>)
    ensures |r| == 6 * n
  {
    if n == 0 then []
    else IndicesOfColumn(i, n - 1, storedX, storedY, hemisphere) + CellIndices(i, n - 1, storedX, storedY, hemisphere)
  }

  /** The indices of the first `m` columns of cells. */
  function IndicesUpToColumn(m: nat, storedX: int, storedY: int, hemisphere: bool): (r: seq<int>)
    ensures |r| == 6 * m * Count(storedY - 1)
  {
    if m == 0 then []
    else
      IndicesUpToColumn(m - 1, storedX, storedY, hemisphere) +
      IndicesOfColumn(m - 1, Count(storedY - 1), storedX, storedY, hemisphere)
  }

  /** The index list of the second pass: two triangles, six indices, for each
      of the (storedX - 1) * (storedY - 1) cells, and none when either
      dimension is below two. */
  function IndexList(storedX: int, storedY: int, hemisphere: bool): (r: seq<int>)
    ensures |r| == 6 * Count(storedX - 1) * Count(storedY - 1)
  {
    IndicesUpToColumn(Count(storedX - 1), storedX, storedY, hemisphere)
  }

  /** The index pass, loop for loop. */
  method BuildIndices(storedX: int, storedY: int, hemisphere: bool) returns (indices: seq<int>)
    ensures indices == IndexList(storedX, storedY, hemisphere)
  {
    var numQuadsX := storedX - 1;
    var numQuadsY := storedY - 1;
    indices := [];
    var i := 0;
    while i < numQuadsX
      invariant 0 <= i && (numQuadsX > 0 ==> i <= numQuadsX)
      invariant numQuadsX <= 0 ==> i == 0
      invariant indices == IndicesUpToColumn(i, storedX, storedY, hemisphere)
    {
      var j := 0;
      while j < numQuadsY
        invariant 0 <= j && (numQuadsY > 0 ==> j <= numQuadsY)
        invariant numQuadsY <= 0 ==> j == 0
        invariant indices == IndicesUpToColumn(i, storedX, storedY, hemisphere) +
          IndicesOfColumn(i, j, storedX, storedY, hemisphere)
      {
        var a := i + j * storedX;
        var b := i + 1 + j * storedX;
        var c := i + 1 + (j + 1) * storedX;
        var d := i + (j + 1) * storedX;
        ghost var cell := CellIndices(i, j, storedX, storedY, hemisphere);
        assert Corners(i, j, storedX) == Quad(a, b, c, d);
        if (2 * i < numQuadsX && 2 * j < numQuadsY) || (2 * i >= numQuadsX && 2 * j >= numQuadsY) {
          if hemisphere {
            indices := indices + [a, c, b, a, d, c];
          } else {
            indices := indices + [a, d, b, b, d, c];
          }
        } else {
          if hemisphere {
            indices := indices + [a, d, b, b, d, c];
          } else {
            indices := indices + [a, c, b, a, d, c];
          }
        }
        assert IndicesOfColumn(i, j + 1, storedX, storedY, hemisphere) ==
          IndicesOfColumn(i, j, storedX, storedY, hemisphere) + cell;
        AppendAssoc(IndicesUpToColumn(i, storedX, storedY, hemisphere),
          IndicesOfColumn(i, j, storedX, storedY, hemisphere), cell);
        j := j + 1;
      }
      i := i + 1;
    }
  }

  lemma SliceOfAppendLeft(x: seq<int>, y: seq<int>, lo: int, hi: int)
    requires 0 <= lo <= hi <= |x|
    ensures (x + y)[lo .. hi] == x[lo .. hi]
  {
  }

  lemma SliceOfAppendRight(x: seq<int>, y: seq<int>, lo: int, hi: int)
    requires |x| <= lo <= hi <= |x| + |y|
    ensures (x + y)[lo .. hi] == y[lo - |x| .. hi - |x|]
  {
  }

  /** Offset of cell (i, j) in the index list: cells are laid out column by
      column, `numQuadsY` cells per column, six indices per cell. */
  function CellOffset(i: int, j: int, numQuadsY: int): int {
    6 * (i * numQuadsY + j)
  }

  lemma {:induction false} IndicesOfColumnAt(i: int, n: nat, j: int, storedX: int, storedY: int, hemisphere: bool)
    requires 0 <= j < n
    ensures IndicesOfColumn(i, n, storedX, storedY, hemisphere)[6 * j .. 6 * j + 6] ==
      CellIndices(i, j, storedX, storedY, hemisphere)
  {
    var prefix := IndicesOfColumn(i, n - 1, storedX, storedY, hemisphere);
    var cell := CellIndices(i, n - 1, storedX, storedY, hemisphere);
    if j < n - 1 {
      IndicesOfColumnAt(i, n - 1, j, storedX, storedY, hemisphere);
      SliceOfAppendLeft(prefix, cell, 6 * j, 6 * j + 6);
    } else {
      SliceOfAppendRight(prefix, cell, 6 * j, 6 * j + 6);
    }
  }

  lemma {:induction false} IndicesUpToColumnAt(m: nat, i: int, j: int, storedX: int, storedY: int, hemisphere: bool)
    requires 0 <= i < m && 0 <= j < storedY - 1
    ensures 0 <= CellOffset(i, j, storedY - 1) && CellOffset(i, j, storedY - 1) + 6 <= 6 * m * (storedY - 1)
    ensures IndicesUpToColumn(m, storedX, storedY, hemisphere)[CellOffset(i, j, storedY - 1) .. CellOffset(i, j, storedY - 1) + 6] ==
      CellIndices(i, j, storedX, storedY, hemisphere)
  {
    OffsetBounds(m, storedY - 1, i, j);
    if i < m - 1 {
      IndicesUpToColumnAt(m - 1, i, j, storedX, storedY, hemisphere);
      SliceOfAppendLeft(IndicesUpToColumn(m - 1, storedX, storedY, hemisphere),
        IndicesOfColumn(m - 1, storedY - 1, storedX, storedY, hemisphere),
        CellOffset(i, j, storedY - 1), CellOffset(i, j, storedY - 1) + 6);
    } else {
      LastColumnAt(m, i, j, storedX, storedY, hemisphere);
    }
  }

  /** A cell of the last of the first `m` columns. */
  lemma LastColumnAt(m: nat, i: int, j: int, storedX: int, storedY: int, hemisphere: bool)
    requires i == m - 1 && 0 <= i && 0 <= j < storedY - 1
    ensures CellOffset(i, j, storedY - 1) + 6 <= |IndicesUpToColumn(m, storedX, storedY, hemisphere)|
    ensures IndicesUpToColumn(m, storedX, storedY, hemisphere)[CellOffset(i, j, storedY - 1) .. CellOffset(i, j, storedY - 1) + 6] ==
      CellIndices(i, j, storedX, storedY, hemisphere)
  {
    var prefix := IndicesUpToColumn(i, storedX, storedY, hemisphere);
    var column := IndicesOfColumn(i, storedY - 1, storedX, storedY, hemisphere);
    assert IndicesUpToColumn(m, storedX, storedY, hemisphere) == prefix + column;
    OffsetBounds(m, storedY - 1, i, j);
    IndicesOfColumnAt(i, storedY - 1, j, storedX, storedY, hemisphere);
    SliceOfAppendRight(prefix, column, CellOffset(i, j, storedY - 1), CellOffset(i, j, storedY - 1) + 6);
  }

  /** Arithmetic behind the cell layout: the cell lies inside the first `m`
      columns, and inside the first `m - 1` unless it is in column `m - 1`. */
  lemma OffsetBounds(m: int, n: int, i: int, j: int)
    requires 0 <= i < m && 0 <= j < n
    ensures 0 <= CellOffset(i, j, n) && CellOffset(i, j, n) + 6 <= 6 * m * n
    ensures 6 * m * n == 6 * (m - 1) * n + 6 * n
    ensures i < m - 1 ==> CellOffset(i, j, n) + 6 <= 6 * (m - 1) * n
    ensures i == m - 1 ==> CellOffset(i, j, n) == 6 * (m - 1) * n + 6 * j
  {
    assert i * n + j + 1 <= (i + 1) * n;
    if i < m - 1 {
      assert (i + 1) * n <= (m - 1) * n;
    }
  }

  /** The six entries of the index list at slots `6 * (i * numQuadsY + j)`
      to `+ 5`, where the column-by-column scan puts cell (i, j). */
  function CellSlice(storedX: int, storedY: int, hemisphere: bool, i: int, j: int): (s: seq<int>)
    requires 0 <= i < storedX - 1 && 0 <= j < storedY - 1
    ensures |s| == 6
  {
    IndicesUpToColumnAt(Count(storedX - 1), i, j, storedX, storedY, hemisphere);
    IndexList(storedX, storedY, hemisphere)[CellOffset(i, j, storedY - 1) .. CellOffset(i, j, storedY - 1) + 6]
  }

  /** A cell whose two coordinates fall in the same half takes the a-c
      diagonal when the hemisphere flag is set and the b-d diagonal when it is
      clear; any other cell takes the opposite one. */
  lemma IndexListCell(storedX: int, storedY: int, hemisphere: bool, i: int, j: int)
    requires 0 <= i < storedX - 1 && 0 <= j < storedY - 1
    ensures CellSlice(storedX, storedY, hemisphere, i, j) ==
      if SameHalf(i, j, storedX - 1, storedY - 1) == hemisphere
      then ACSplit(Corners(i, j, storedX))
      else BDSplit(Corners(i, j, storedX))
  {
    IndicesUpToColumnAt(Count(storedX - 1), i, j, storedX, storedY, hemisphere);
  }

  /** The corners of every cell are vertex numbers of the grid. */
  lemma CellCornersInGrid(storedX: int, storedY: int, i: int, j: int)
    requires 0 <= i < storedX - 1 && 0 <= j < storedY - 1
    ensures var q := Corners(i, j, storedX);
      0 <= q.a && q.a < q.b && q.b < q.d && q.d < q.c && q.c < storedX * storedY
  {
    var q := Corners(i, j, storedX);
    assert (j + 1) * storedX <= (storedY - 1) * storedX;
    assert q.c == i + 1 + (j + 1) * storedX;
  }

  lemma {:induction false} IndicesOfColumnInRange(i: int, n: nat, storedX: int, storedY: int, hemisphere: bool, k: int)
    requires 0 <= i < storedX - 1 && n <= storedY - 1
    requires 0 <= k < 6 * n
    ensures 0 <= IndicesOfColumn(i, n, storedX, storedY, hemisphere)[k] < storedX * storedY
  {
    if k < 6 * (n - 1) {
      IndicesOfColumnInRange(i, n - 1, storedX, storedY, hemisphere, k);
    } else {
      CellCornersInGrid(storedX, storedY, i, n - 1);
    }
  }

  lemma {:induction false} IndicesUpToColumnInRange(m: nat, storedX: int, storedY: int, hemisphere: bool, k: int)
    requires m <= storedX - 1
    requires 0 <= k < |IndicesUpToColumn(m, storedX, storedY, hemisphere)|
    ensures 0 <= IndicesUpToColumn(m, storedX, storedY, hemisphere)[k] < storedX * storedY
  {
    var prefix := IndicesUpToColumn(m - 1, storedX, storedY, hemisphere);
    if k < |prefix| {
      IndicesUpToColumnInRange(m - 1, storedX, storedY, hemisphere, k);
    } else {
      IndicesOfColumnInRange(m - 1, Count(storedY - 1), storedX, storedY, hemisphere, k - |prefix|);
    }
  }

  /** Every emitted index names a vertex of the storedX * storedY grid. */
  lemma IndexListInRange(storedX: int, storedY: int, hemisphere: bool, k: int)
    requires 0 <= k < |IndexList(storedX, storedY, hemisphere)|
    ensures 0 <= IndexList(storedX, storedY, hemisphere)[k] < storedX * storedY
  {
    IndicesUpToColumnInRange(Count(storedX - 1), storedX, storedY, hemisphere, k);
  }

  /** The corners of cell (i, j), looked up in the row-major grid of the
      vertex pass, are the points (i, j), (i + 1, j), (i + 1, j + 1) and
      (i, j + 1). */
  lemma CornerPoints(storedX: int, storedY: int, i: int, j: int)
    requires 0 <= i < storedX - 1 && 0 <= j < storedY - 1
    ensures var q, pts := Corners(i, j, storedX), GridPoints(storedY, storedX);
      0 <= q.a < |pts| && 0 <= q.b < |pts| && 0 <= q.c < |pts| && 0 <= q.d < |pts| &&
      pts[q.a] == GridPoint(i, j) && pts[q.b] == GridPoint(i + 1, j) &&
      pts[q.c] == GridPoint(i + 1, j + 1) && pts[q.d] == GridPoint(i, j + 1)
  {
    var q := Corners(i, j, storedX);
    assert q.b == VertexIndex(i + 1, j, storedX);
    assert q.d == VertexIndex(i, j + 1, storedX);
    assert q.c == VertexIndex(i + 1, j + 1, storedX);
    GridPointAt(storedY, storedX, i, j);
    GridPointAt(storedY, storedX, i + 1, j);
    GridPointAt(storedY, storedX, i, j + 1);
    GridPointAt(storedY, storedX, i + 1, j + 1);
  }

  /** The two triangles of every cell cover exactly its four (distinct)
      corners and share one diagonal: a-c or b-d, as the quadrant group and
      the flag choose. */
  lemma CellCoversCorners(storedX: int, storedY: int, hemisphere: bool, i: int, j: int)
    requires 0 <= i < storedX - 1 && 0 <= j < storedY - 1
    ensures var s, q := CellSlice(storedX, storedY, hemisphere, i, j), Corners(i, j, storedX);
      |{q.a, q.b, q.c, q.d}| == 4 &&
      {s[0], s[1], s[2], s[3], s[4], s[5]} == {q.a, q.b, q.c, q.d} &&
      {s[0], s[1], s[2]} * {s[3], s[4], s[5]} ==
        (if SameHalf(i, j, storedX - 1, storedY - 1) == hemisphere then {q.a, q.c} else {q.b, q.d})
  {
    IndexListCell(storedX, storedY, hemisphere, i, j);
    CellCornersInGrid(storedX, storedY, i, j);
    var q := Corners(i, j, storedX);
    assert |{q.a, q.b, q.c, q.d}| == 4 by {
      assert {q.a, q.b, q.c, q.d} == {q.a} + {q.b} + {q.d} + {q.c};
    }
  }

  /** Twice the signed area of triangle (p, q, r) in (column, row) coordinates;
      negative when the triangle turns clockwise. */
  function Cross(p: GridPoint, q: GridPoint, r: GridPoint): int {
    (q.i - p.i) * (r.j - p.j) - (q.j - p.j) * (r.i - p.i)
  }

  /** Vertices x, y, z of the grid `pts` form a clockwise triangle of area
      one half. */
  predicate ClockwiseUnitTriangle(pts: seq<GridPoint>, x: int, y: int, z: int) {
    0 <= x < |pts| && 0 <= y < |pts| && 0 <= z < |pts| && Cross(pts[x], pts[y], pts[z]) == -1
  }

  /** Both triangles of every cell, their vertex numbers looked up in the
      row-major grid of the vertex pass, turn clockwise with area one half:
      the whole mesh has one consistent winding. */
  lemma CellWinding(storedX: int, storedY: int, hemisphere: bool, i: int, j: int)
    requires 0 <= i < storedX - 1 && 0 <= j < storedY - 1
    ensures var s, pts := CellSlice(storedX, storedY, hemisphere, i, j), GridPoints(storedY, storedX);
      ClockwiseUnitTriangle(pts, s[0], s[1], s[2]) && ClockwiseUnitTriangle(pts, s[3], s[4], s[5])
  {
    IndexListCell(storedX, storedY, hemisphere, i, j);
    CornerPoints(storedX, storedY, i, j);
  }

  /** Toggling the hemisphere flag keeps the length of the index list and, in
      every cell, swaps the a-c split for the b-d split and back. */
  lemma ToggleHemisphere(storedX: int, storedY: int, hemisphere: bool, i: int, j: int)
    requires 0 <= i < storedX - 1 && 0 <= j < storedY - 1
    ensures |IndexList(storedX, storedY, hemisphere)| == |IndexList(storedX, storedY, !hemisphere)|
    ensures var q := Corners(i, j, storedX);
      var before, after := CellSlice(storedX, storedY, hemisphere, i, j), CellSlice(storedX, storedY, !hemisphere, i, j);
      (before == ACSplit(q) && after == BDSplit(q)) || (before == BDSplit(q) && after == ACSplit(q))
    ensures CellSlice(storedX, storedY, hemisphere, i, j) != CellSlice(storedX, storedY, !hemisphere, i, j)
  {
    IndexListCell(storedX, storedY, hemisphere, i, j);
    IndexListCell(storedX, storedY, !hemisphere, i, j);
    CellCornersInGrid(storedX, storedY, i, j);
    var q := Corners(i, j, storedX);
    assert ACSplit(q)[1] != BDSplit(q)[1];
  }

  /** The 3 x 3 grid without the hemisphere flag: cell (0, 0), in the same
      half on both axes, is cut along b-d into (0, 3, 1) and (1, 3, 4). */
  lemma ThreeByThreeOctahedron()
    ensures IndexList(3, 3, false) ==
      [0, 3, 1, 1, 3, 4,  3, 7, 4, 3, 6, 7,  1, 5, 2, 1, 4, 5,  4, 7, 5, 5, 7, 8]
  {
    assert IndicesOfColumn(0, 2, 3, 3, false) == [0, 3, 1, 1, 3, 4,  3, 7, 4, 3, 6, 7];
    assert IndicesOfColumn(1, 2, 3, 3, false) == [1, 5, 2, 1, 4, 5,  4, 7, 5, 5, 7, 8];
    assert IndicesUpToColumn(1, 3, 3, false) == IndicesOfColumn(0, 2, 3, 3, false);
  }

  /** The 3 x 3 grid with the hemisphere flag: cell (0, 0) is cut along a-c
      into (0, 4, 1) and (0, 3, 4). */
  lemma ThreeByThreeHemisphere()
    ensures IndexList(3, 3, true) ==
      [0, 4, 1, 0, 3, 4,  3, 6, 4, 4, 6, 7,  1, 4, 2, 2, 4, 5,  4, 8, 5, 4, 7, 8]
  {
    assert IndicesOfColumn(0, 2, 3, 3, true) == [0, 4, 1, 0, 3, 4,  3, 6, 4, 4, 6, 7];
    assert IndicesOfColumn(1, 2, 3, 3, true) == [1, 4, 2, 2, 4, 5,  4, 8, 5, 4, 7, 8];
    assert IndicesUpToColumn(1, 3, 3, true) == IndicesOfColumn(0, 2, 3, 3, true);
  }
}
