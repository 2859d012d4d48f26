/** The first pass of `GenerateGeometry`: one vertex and one texture
    coordinate per grid point, in row-major order. Coordinates are exact
    reals here; the source computes them in single precision. */
module VertexPass {

  datatype Vec3 = Vec3(x: real, y: real, z: real)
  datatype Vec2 = Vec2(u: real, v: real)

  /** A grid point by column `i` and row `j`. */
  datatype GridPoint = GridPoint(i: int, j: int)

  /** Number of iterations of a loop `for (k = 0; k < n; ++k)`. */
  function Count(n: int): (c: nat)
    ensures n > 0 ==> c == n
    ensures n <= 0 ==> c == 0
  {
    if n > 0 then n else 0
  }

  /** Row-major vertex number of grid point (i, j) in a grid `cols` wide. */
  function VertexIndex(i: int, j: int, cols: int): int {
    i + j * cols
  }

  /** The points (0, j), ..., (n - 1, j) of row `j`, in order. */
  function RowPoints(n: nat, j: int): (r: seq<GridPoint>)
    ensures |r| == n
    ensures forall i :: 0 <= i < n ==> r[i] == GridPoint(i, j)
  {
    if n == 0 then [] else RowPoints(n - 1, j) + [GridPoint(n - 1, j)]
  }

  /** Rows 0, ..., rows - 1 of a grid `cols` wide, one row after the other. */
  function GridPoints(rows: nat, cols: nat): (r: seq<GridPoint>)
    ensures |r| == rows * cols
  {
    if rows == 0 then [] else GridPoints(rows - 1, cols) + RowPoints(cols, rows - 1)
  }

  /** Point (i, j) sits at row-major position `i + j * cols`. */
  lemma {:induction false} GridPointAt(rows: nat, cols: nat, i: int, j: int)
    requires 0 <= i < cols && 0 <= j < rows
    ensures 0 <= VertexIndex(i, j, cols) < |GridPoints(rows, cols)|
    ensures GridPoints(rows, cols)[VertexIndex(i, j, cols)] == GridPoint(i, j)
  {
    var prefix := GridPoints(rows - 1, cols);
    assert |prefix| == (rows - 1) * cols;
    if j < rows - 1 {
      GridPointAt(rows - 1, cols, i, j);
      assert VertexIndex(i, j, cols) < |prefix|;
    } else {
      assert VertexIndex(i, j, cols) == |prefix| + i;
    }
  }

  /** The source divides by zero (a NaN result) when a dimension is one and the
      loops run; they run only when both dimensions are positive. */
  predicate VertexPassDefined(storedX: int, storedY: int) {
    storedX <= 0 || storedY <= 0 || (storedX >= 2 && storedY >= 2)
  }

  /** `k / (n - 1)`: the normalised coordinate of column or row `k`. */
  function Frac(k: int, n: int): real
    requires n >= 2
  {
    k as real / (n as real - 1.0)
  }

  /** Texture coordinate of grid point `p`. */
  function UVOf(p: GridPoint, storedX: int, storedY: int): Vec2
    requires storedX >= 2 && storedY >= 2
  {
    Vec2(Frac(p.i, storedX), Frac(p.j, storedY))
  }

  /** A normalised coordinate `t` scaled to a plane of side `size`. */
  function Scale(t: real, size: real): real {
    t * size
  }

  /** Position of grid point `p` on the plane y = 0. */
  function PositionOf(p: GridPoint, storedX: int, storedY: int, size: real): Vec3
    requires storedX >= 2 && storedY >= 2
  {
    Vec3(Scale(Frac(p.i, storedX), size), 0.0, Scale(Frac(p.j, storedY), size))
  }

  /** Positions of the first `n` points of row `j`. */
  function RowVertices(n: nat, j: int, storedX: int, storedY: int, size: real): (r: seq<Vec3>)
    requires storedX >= 2 && storedY >= 2
    ensures |r| == n
  {
    if n == 0 then [] else RowVertices(n - 1, j, storedX, storedY, size) + [PositionOf(GridPoint(n - 1, j), storedX, storedY, size)]
  }

  /** Texture coordinates of the first `n` points of row `j`. */
  function RowUVs(n: nat, j: int, storedX: int, storedY: int): (r: seq<Vec2>)
    requires storedX >= 2 && storedY >= 2
    ensures |r| == n
  {
    if n == 0 then [] else RowUVs(n - 1, j, storedX, storedY) + [UVOf(GridPoint(n - 1, j), storedX, storedY)]
  }

  /** Positions of the first `rows` full rows. */
  function GridVertices(rows: nat, storedX: int, storedY: int, size: real): (r: seq<Vec3>)
    requires storedX >= 2 && storedY >= 2
    ensures |r| == rows * storedX
  {
    if rows == 0 then [] else GridVertices(rows - 1, storedX, storedY, size) + RowVertices(storedX, rows - 1, storedX, storedY, size)
  }

  /** Texture coordinates of the first `rows` full rows. */
  function GridUVs(rows: nat, storedX: int, storedY: int): (r: seq<Vec2>)
    requires storedX >= 2 && storedY >= 2
    ensures |r| == rows * storedX
  {
    if rows == 0 then [] else GridUVs(rows - 1, storedX, storedY) + RowUVs(storedX, rows - 1, storedX, storedY)
  }

  /** Entry `i` of a row holds the position and texture coordinate of point (i, j). */
  lemma {:induction false} RowAt(n: nat, j: int, storedX: int, storedY: int, size: real, i: int)
    requires storedX >= 2 && storedY >= 2 && 0 <= i < n
    ensures RowVertices(n, j, storedX, storedY, size)[i] == PositionOf(GridPoint(i, j), storedX, storedY, size)
    ensures RowUVs(n, j, storedX, storedY)[i] == UVOf(GridPoint(i, j), storedX, storedY)
  {
    if i < n - 1 {
      RowAt(n - 1, j, storedX, storedY, size, i);
    }
  }

  /** Entry `i + j * storedX` of the grid holds the position and texture
      coordinate of point (i, j). */
  lemma {:induction false} GridAt(rows: nat, storedX: int, storedY: int, size: real, i: int, j: int)
    requires storedX >= 2 && storedY >= 2
    requires 0 <= i < storedX && 0 <= j < rows
    ensures 0 <= VertexIndex(i, j, storedX) < rows * storedX
    ensures GridVertices(rows, storedX, storedY, size)[VertexIndex(i, j, storedX)] ==
      PositionOf(GridPoint(i, j), storedX, storedY, size)
    ensures GridUVs(rows, storedX, storedY)[VertexIndex(i, j, storedX)] == UVOf(GridPoint(i, j), storedX, storedY)
  {
    assert (rows - 1) * storedX + storedX == rows * storedX;
    if j < rows - 1 {
      GridAt(rows - 1, storedX, storedY, size, i, j);
      assert VertexIndex(i, j, storedX) < (rows - 1) * storedX;
    } else {
      assert VertexIndex(i, j, storedX) == (rows - 1) * storedX + i;
      RowAt(storedX, j, storedX, storedY, size, i);
    }
  }

  /** The vertex list the first pass produces. */
  function MeshVertices(storedX: int, storedY: int, size: real): (r: seq<Vec3>)
    requires VertexPassDefined(storedX, storedY)
    ensures |r| == Count(storedX) * Count(storedY)
  {
    if storedX <= 0 || storedY <= 0 then [] else GridVertices(storedY, storedX, storedY, size)
  }

  /** The texture-coordinate list the first pass produces. */
  function MeshUVs(storedX: int, storedY: int): (r: seq<Vec2>)
    requires VertexPassDefined(storedX, storedY)
    ensures |r| == Count(storedX) * Count(storedY)
  {
    if storedX <= 0 || storedY <= 0 then [] else GridUVs(storedY, storedX, storedY)
  }

  /** One step of the inner loop of the vertex pass: point (i, j) comes next,
      with the coordinates the source computes for it. */
  lemma RowStep(i: nat, j: nat, storedX: int, storedY: int, size: real)
    requires storedX >= 2 && storedY >= 2
    ensures GridVertices(j, storedX, storedY, size) + RowVertices(i + 1, j, storedX, storedY, size) ==
      (GridVertices(j, storedX, storedY, size) + RowVertices(i, j, storedX, storedY, size)) +
      [PositionOf(GridPoint(i, j), storedX, storedY, size)]
    ensures GridUVs(j, storedX, storedY) + RowUVs(i + 1, j, storedX, storedY) ==
      (GridUVs(j, storedX, storedY) + RowUVs(i, j, storedX, storedY)) +
      [UVOf(GridPoint(i, j), storedX, storedY)]
  {
    AppendAssoc(GridVertices(j, storedX, storedY, size), RowVertices(i, j, storedX, storedY, size),
      [PositionOf(GridPoint(i, j), storedX, storedY, size)]);
    AppendAssoc(GridUVs(j, storedX, storedY), RowUVs(i, j, storedX, storedY), [UVOf(GridPoint(i, j), storedX, storedY)]);
  }

  /** The coordinates of point (i, j) as the source computes them. */
  lemma PointFormula(i: int, j: int, storedX: int, storedY: int, size: real)
    requires storedX >= 2 && storedY >= 2
    ensures PositionOf(GridPoint(i, j), storedX, storedY, size) ==
      Vec3(Scale(i as real / (storedX as real - 1.0), size), 0.0, Scale(j as real / (storedY as real - 1.0), size))
    ensures UVOf(GridPoint(i, j), storedX, storedY) ==
      Vec2(i as real / (storedX as real - 1.0), j as real / (storedY as real - 1.0))
  {
  }

  lemma AppendAssoc<T>(x: seq<T>, y: seq<T>, z: seq<T>)
    ensures (x + y) + z == x + (y + z)
  {
  }

  /** The vertex pass: rows `j` outside, columns `i` inside, appending one
      vertex and one texture coordinate per step. */
  method BuildVertices(storedX: int, storedY: int, size: real) returns (verts: seq<Vec3>, uvs: seq<Vec2>)
    requires VertexPassDefined(storedX, storedY)
    ensures verts == MeshVertices(storedX, storedY, size)
    ensures uvs == MeshUVs(storedX, storedY)
  {
    var wide := storedX >= 2 && storedY >= 2;
    verts, uvs := [], [];
    var j := 0;
    while j < storedY
      invariant 0 <= j && (storedY > 0 ==> j <= storedY)
      invariant wide ==> verts == GridVertices(j, storedX, storedY, size)
      invariant wide ==> uvs == GridUVs(j, storedX, storedY)
      invariant !wide ==> verts == [] && uvs == []
    {
      var i := 0;
      while i < storedX
        invariant 0 <= i && (storedX > 0 ==> i <= storedX)
        invariant wide ==> verts == GridVertices(j, storedX, storedY, size) + RowVertices(i, j, storedX, storedY, size)
        invariant wide ==> uvs == GridUVs(j, storedX, storedY) + RowUVs(i, j, storedX, storedY)
        invariant !wide ==> verts == [] && uvs == [] && i == 0
      {
        var dx := i as real / (storedX as real - 1.0);
        var dy := j as real / (storedY as real - 1.0);
        assert wide;
        RowStep(i, j, storedX, storedY, size);
        PointFormula(i, j, storedX, storedY, size);
        verts := verts + [Vec3(Scale(dx, size), 0.0, Scale(dy, size))];
        uvs := uvs + [Vec2(dx, dy)];
        i := i + 1;
      }
      j := j + 1;
    }
  }

  /** Vertex `i + j * storedX` is at (i / (storedX - 1) * size, 0, j / (storedY - 1) * size)
      and has texture coordinate (i / (storedX - 1), j / (storedY - 1)). */
  lemma VertexAt(storedX: int, storedY: int, size: real, i: int, j: int)
    requires storedX >= 2 && storedY >= 2
    requires 0 <= i < storedX && 0 <= j < storedY
    ensures |MeshVertices(storedX, storedY, size)| == |MeshUVs(storedX, storedY)| == storedX * storedY
    ensures 0 <= VertexIndex(i, j, storedX) < storedX * storedY
    ensures MeshVertices(storedX, storedY, size)[VertexIndex(i, j, storedX)] ==
      Vec3(Scale(Frac(i, storedX), size), 0.0, Scale(Frac(j, storedY), size))
    ensures MeshUVs(storedX, storedY)[VertexIndex(i, j, storedX)] == Vec2(Frac(i, storedX), Frac(j, storedY))
  {
    GridAt(storedY, storedX, storedY, size, i, j);
  }

  /** Vertex `p` lies on the plane y = 0 at texture coordinate `t` scaled by
      `size`, and `t` lies in the unit square. */
  predicate Follows(p: Vec3, t: Vec2, size: real) {
    p == Vec3(Scale(t.u, size), 0.0, Scale(t.v, size)) && 0.0 <= t.u <= 1.0 && 0.0 <= t.v <= 1.0
  }

  lemma PointFollows(g: GridPoint, storedX: int, storedY: int, size: real)
    requires storedX >= 2 && storedY >= 2
    requires 0 <= g.i < storedX && 0 <= g.j < storedY
    ensures Follows(PositionOf(g, storedX, storedY, size), UVOf(g, storedX, storedY), size)
  {
    FracInUnit(g.i, storedX);
    FracInUnit(g.j, storedY);
  }

  lemma RowFollowsUVs(j: int, storedX: int, storedY: int, size: real, i: int)
    requires storedX >= 2 && storedY >= 2 && 0 <= j < storedY && 0 <= i < storedX
    ensures Follows(RowVertices(storedX, j, storedX, storedY, size)[i], RowUVs(storedX, j, storedX, storedY)[i], size)
  {
    RowAt(storedX, j, storedX, storedY, size, i);
    PointFollows(GridPoint(i, j), storedX, storedY, size);
  }

  /** Every vertex of the first `rows` rows follows its texture coordinate. */
  lemma {:induction false} GridFollowsUVs(rows: nat, storedX: int, storedY: int, size: real, k: int)
    requires storedX >= 2 && storedY >= 2 && rows <= storedY
    requires 0 <= k < |GridVertices(rows, storedX, storedY, size)|
    ensures Follows(GridVertices(rows, storedX, storedY, size)[k], GridUVs(rows, storedX, storedY)[k], size)
  {
    var before := |GridVertices(rows - 1, storedX, storedY, size)|;
    if k < before {
      GridFollowsUVs(rows - 1, storedX, storedY, size, k);
    } else {
      RowFollowsUVs(rows - 1, storedX, storedY, size, k - before);
      assert GridVertices(rows, storedX, storedY, size)[k] == RowVertices(storedX, rows - 1, storedX, storedY, size)[k - before];
      assert GridUVs(rows, storedX, storedY)[k] == RowUVs(storedX, rows - 1, storedX, storedY)[k - before];
    }
  }

  /** Every vertex lies on the plane y = 0 at its texture coordinate scaled by
      `size`, and every texture coordinate lies in the unit square. */
  lemma VerticesFollowUVs(storedX: int, storedY: int, size: real, k: int)
    requires VertexPassDefined(storedX, storedY)
    requires 0 <= k < |MeshVertices(storedX, storedY, size)|
    ensures |MeshUVs(storedX, storedY)| == |MeshVertices(storedX, storedY, size)|
    ensures var p, t := MeshVertices(storedX, storedY, size)[k], MeshUVs(storedX, storedY)[k];
      p == Vec3(t.u * size, 0.0, t.v * size) &&
      0.0 <= t.u <= 1.0 && 0.0 <= t.v <= 1.0
  {
    GridFollowsUVs(storedY, storedX, storedY, size, k);
  }

  lemma FracEnds(n: int)
    requires n >= 2
    ensures Frac(0, n) == 0.0 && Frac(n - 1, n) == 1.0
  {
    var d := n as real - 1.0;
    assert d > 0.0;
    assert Frac(n - 1, n) == d / d;
  }

  lemma FracInUnit(k: int, n: int)
    requires n >= 2 && 0 <= k < n
    ensures 0.0 <= Frac(k, n) <= 1.0
  {
    var d := n as real - 1.0;
    assert k as real <= d;
    assert Frac(k, n) * d == k as real;
  }

  /** The four corners of the grid: index 0 is the origin, index storedX - 1
      is (size, 0, 0), index (storedY - 1) * storedX is (0, 0, size) and the
      last index is (size, 0, size), with texture coordinates (0, 0), (1, 0),
      (0, 1) and (1, 1). */
  lemma CornerVertices(storedX: int, storedY: int, size: real)
    requires storedX >= 2 && storedY >= 2
    ensures |MeshVertices(storedX, storedY, size)| == |MeshUVs(storedX, storedY)| == storedX * storedY
    ensures MeshVertices(storedX, storedY, size)[0] == Vec3(0.0, 0.0, 0.0)
    ensures MeshUVs(storedX, storedY)[0] == Vec2(0.0, 0.0)
    ensures MeshVertices(storedX, storedY, size)[storedX - 1] == Vec3(size, 0.0, 0.0)
    ensures MeshUVs(storedX, storedY)[storedX - 1] == Vec2(1.0, 0.0)
    ensures MeshVertices(storedX, storedY, size)[(storedY - 1) * storedX] == Vec3(0.0, 0.0, size)
    ensures MeshUVs(storedX, storedY)[(storedY - 1) * storedX] == Vec2(0.0, 1.0)
    ensures MeshVertices(storedX, storedY, size)[storedX * storedY - 1] == Vec3(size, 0.0, size)
    ensures MeshUVs(storedX, storedY)[storedX * storedY - 1] == Vec2(1.0, 1.0)
  {
    VertexAt(storedX, storedY, size, 0, 0);
    VertexAt(storedX, storedY, size, storedX - 1, 0);
    VertexAt(storedX, storedY, size, 0, storedY - 1);
    VertexAt(storedX, storedY, size, storedX - 1, storedY - 1);
    assert (storedY - 1) * storedX == storedX * storedY - storedX;
    assert VertexIndex(storedX - 1, storedY - 1, storedX) == storedX * storedY - 1;
    assert VertexIndex(0, storedY - 1, storedX) == (storedY - 1) * storedX;
    FracEnds(storedX);
    FracEnds(storedY);
  }
}
