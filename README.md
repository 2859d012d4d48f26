# Plane generator, modelled in Dafny

`PlaneGenerator` is a Unity component that builds a flat, square grid mesh.
Each frame it does three things:

- It derives a vertex count per axis from the segment counts `segX` and `segY`.
- It compares those counts, the side length `size` and the `Hemisphere` flag with the values the current mesh was built from.
- When anything differs, it rebuilds the mesh.

A rebuild has two passes.

1. The vertex pass emits one vertex and one texture coordinate per grid point, row by row.
2. The index pass emits two triangles per grid cell, column by column.

The index pass cuts each cell along one of its two diagonals. The choice depends on:

- which quadrant group the cell falls in;
- the hemisphere flag.

On every frame the component also hands the material a sign that follows the flag.

The model has four modules, one file each:

- `Dimensions` (`dimensions.dfy`): the vertex count per axis, computed on 32-bit C# integers with wrap-around. It also has the C# remainder used by the odd-count check.
- `VertexPass` (`vertex_pass.dfy`): the vertex pass as a method with loop invariants. The method is proved equal to a recursive specification, and lemmas give every vertex's position and texture coordinate.
- `IndexPass` (`index_pass.dfy`): the index pass as a method with loop invariants. The method is proved equal to a recursive specification. Lemmas cover:
  - the triangles of every cell;
  - the index range;
  - the winding;
  - the effect of the hemisphere flag.
- `PlaneGenerators` (`plane_generator.dfy`): the component as a class. It has:
  - fields for the inputs, the cached parameters, the mesh and the material parameter;
  - `GenerateGeometry`;
  - the per-frame `Update`, with the caching contract.

The direction of the diagonal choice is easy to get backwards:

- A cell in the same half on both axes is cut along the a-c diagonal when the flag is set.
- With the flag clear, such a cell is cut along b-d.

So in the 3×3 grid without the flag, cell (0, 0) yields the triangles (0, 3, 1) and (1, 3, 4). `IndexListCell` and `ThreeByThreeOctahedron` state this.

## Model

| member | source | states |
|---|---|---|
| `Dimensions.Wrap32` | Assets/PlaneGenerator.cs:43-44 | the value a C# `int` holds after an arithmetic result wraps: it lies in the int32 range, is congruent to the exact result modulo 2^32, and equals it when no overflow happens |
| `Dimensions.DerivedDim` | Assets/PlaneGenerator.cs:43-44 | `(seg - 1) + seg` on C# ints is an int32, is odd for every segment count (including zero, negative counts and overflowing ones), and is `2 * seg - 1` whenever that fits |
| `Dimensions.CsRem` | Assets/PlaneGenerator.cs:52 | C# `%` truncates toward zero: the dividend is `b` times the truncated quotient plus the remainder, and the remainder is in `[0, b)` for a non-negative dividend and in `(-b, 0]` for a negative one, which fixes its value |
| `Dimensions.OddCheckFails` | Assets/PlaneGenerator.cs:52 | the guard of the diagnostic branch: either stored count has C# remainder 0 modulo 2 (its meaning is stated by `OddCheckFailsIffEven`) |
| `Dimensions.OddCheckFailsIffEven` | Assets/PlaneGenerator.cs:52-56 | the diagnostic branch fires exactly when one stored count is even, negative counts included |
| `Dimensions.DerivedDimsPassOddCheck` | Assets/PlaneGenerator.cs:43-56 | counts derived from any two segment counts never take the diagnostic branch |
| `VertexPass.Frac` | Assets/PlaneGenerator.cs:73-74 | the normalised coordinate `k / (n - 1)` of column or row `k` (its range and end points are stated by `FracInUnit` and `FracEnds`) |
| `VertexPass.UVOf` | Assets/PlaneGenerator.cs:76 | the texture coordinate of a grid point: its column and row coordinates |
| `VertexPass.PositionOf` | Assets/PlaneGenerator.cs:75 | the position of a grid point: its coordinates scaled by `size`, on the plane y = 0 |
| `VertexPass.RowVertices` | Assets/PlaneGenerator.cs:71-77 | the inner loop's positions for the first `n` points of row `j`: exactly `n` of them (their contents are stated by `RowAt`) |
| `VertexPass.RowUVs` | Assets/PlaneGenerator.cs:71-77 | the inner loop's texture coordinates for the first `n` points of row `j`: exactly `n` of them |
| `VertexPass.GridVertices` | Assets/PlaneGenerator.cs:69-78 | the positions of the first `rows` full rows: `rows * storedX` of them (their placement is stated by `GridAt`) |
| `VertexPass.GridUVs` | Assets/PlaneGenerator.cs:69-78 | the texture coordinates of the first `rows` full rows: `rows * storedX` of them |
| `VertexPass.RowAt` | Assets/PlaneGenerator.cs:71-77 | entry `i` of row `j` holds the position and texture coordinate of grid point (i, j) |
| `VertexPass.GridAt` | Assets/PlaneGenerator.cs:69-78 | the vertex of point (i, j) sits at row-major index `i + j * storedX`, with that point's position and texture coordinate |
| `VertexPass.MeshVertices` | Assets/PlaneGenerator.cs:69-78 | the vertex pass emits `storedX * storedY` vertices when both counts are positive and none otherwise |
| `VertexPass.MeshUVs` | Assets/PlaneGenerator.cs:69-78 | one texture coordinate per vertex, same count |
| `VertexPass.BuildVertices` | Assets/PlaneGenerator.cs:66-78 | the two nested loops (rows outside, columns inside) produce exactly the specified vertex and texture-coordinate lists, for every pair of counts the source can handle |
| `VertexPass.VertexAt` | Assets/PlaneGenerator.cs:73-76 | vertex `i + j * storedX` is `(i/(storedX-1) * size, 0, j/(storedY-1) * size)` and has texture coordinate `(i/(storedX-1), j/(storedY-1))` |
| `VertexPass.GridFollowsUVs` | Assets/PlaneGenerator.cs:73-76 | in every prefix of full rows, each vertex is its texture coordinate scaled by `size` on the plane y = 0, and the coordinate lies in the unit square |
| `VertexPass.VerticesFollowUVs` | Assets/PlaneGenerator.cs:73-76 | every vertex of the mesh is its texture coordinate scaled by `size` on the plane y = 0, and every texture coordinate lies in the unit square |
| `VertexPass.FracEnds` | Assets/PlaneGenerator.cs:73-74 | the first column or row has coordinate 0 and the last has coordinate 1 |
| `VertexPass.FracInUnit` | Assets/PlaneGenerator.cs:73-74 | every column or row coordinate lies in [0, 1] |
| `VertexPass.CornerVertices` | Assets/PlaneGenerator.cs:69-78 | the four corners of the grid are at (0,0,0), (size,0,0), (0,0,size) and (size,0,size), with texture coordinates (0,0), (1,0), (0,1) and (1,1) |
| `IndexPass.Corners` | Assets/PlaneGenerator.cs:89-92 | corner `a` is the vertex of point (i, j); `b` is next to it in the row, `d` is one row up, and `c` is diagonally opposite |
| `IndexPass.ACSplit` | Assets/PlaneGenerator.cs:102-103 | triangles (a, c, b) and (a, d, c): the cell cut along diagonal a-c |
| `IndexPass.BDSplit` | Assets/PlaneGenerator.cs:107-108 | triangles (a, d, b) and (b, d, c): the cell cut along diagonal b-d |
| `IndexPass.SameHalf` | Assets/PlaneGenerator.cs:95-98 | the quadrant test: the cell is in the lower half on both axes or in the upper half on both, with `i < numQuadsX * 0.5` read as `2 * i < numQuadsX` |
| `IndexPass.CellIndices` | Assets/PlaneGenerator.cs:95-122 | every cell contributes six indices |
| `IndexPass.IndicesOfColumn` | Assets/PlaneGenerator.cs:87-123 | the inner loop's indices for cells (i, 0) to (i, n - 1): six per cell (their placement is stated by `IndicesOfColumnAt`) |
| `IndexPass.IndicesUpToColumn` | Assets/PlaneGenerator.cs:85-125 | the indices of the first `m` columns of cells: six per cell, `6 * m * numQuadsY` in all (their placement is stated by `IndicesUpToColumnAt`) |
| `IndexPass.IndexList` | Assets/PlaneGenerator.cs:81-125 | the index pass emits `6 * (storedX - 1) * (storedY - 1)` indices, and none when either count is below two |
| `IndexPass.BuildIndices` | Assets/PlaneGenerator.cs:66-125 | the two nested loops (columns outside, rows inside) produce exactly the specified index list, for every pair of counts |
| `IndexPass.IndicesOfColumnAt` | Assets/PlaneGenerator.cs:87-123 | within one column of cells, cell `j` occupies entries `6j` to `6j + 5` |
| `IndexPass.IndicesUpToColumnAt` | Assets/PlaneGenerator.cs:85-125 | the scan puts cell (i, j) at entries `6 * (i * numQuadsY + j)` to `+ 5` |
| `IndexPass.LastColumnAt` | Assets/PlaneGenerator.cs:85-125 | the same placement for a cell of the last column scanned so far |
| `IndexPass.OffsetBounds` | Assets/PlaneGenerator.cs:85-87 | the slot of every cell scanned so far lies inside the list built so far |
| `IndexPass.CellSlice` | Assets/PlaneGenerator.cs:85-125 | the six entries of cell (i, j) form a well-defined slice of the index list |
| `IndexPass.IndexListCell` | Assets/PlaneGenerator.cs:95-122 | a cell in the same half on both axes is cut along a-c (triangles a-c-b and a-d-c) when the flag is set and along b-d (a-d-b, b-d-c) when it is clear; every other cell takes the opposite cut |
| `IndexPass.CellCornersInGrid` | Assets/PlaneGenerator.cs:89-92 | the corners of every cell are distinct vertex numbers of the grid, ordered `a < b < d < c < storedX * storedY` |
| `IndexPass.IndicesOfColumnInRange` | Assets/PlaneGenerator.cs:87-123 | every index of a column of cells names a grid vertex |
| `IndexPass.IndicesUpToColumnInRange` | Assets/PlaneGenerator.cs:85-125 | every index of the first `m` columns names a grid vertex |
| `IndexPass.IndexListInRange` | Assets/PlaneGenerator.cs:81-125 | every emitted index names one of the `storedX * storedY` vertices |
| `IndexPass.CornerPoints` | Assets/PlaneGenerator.cs:89-92 | looked up in the vertex pass's row-major grid, corners a, b, c and d are the points (i, j), (i+1, j), (i+1, j+1) and (i, j+1) |
| `IndexPass.CellCoversCorners` | Assets/PlaneGenerator.cs:100-122 | the two triangles of a cell use exactly its four distinct corners, and share the a-c or the b-d edge as the group and flag choose |
| `IndexPass.CellWinding` | Assets/PlaneGenerator.cs:100-122 | both triangles of every cell, in either mode, turn clockwise with area one half in (column, row) coordinates: the mesh has one consistent winding |
| `IndexPass.ToggleHemisphere` | Assets/PlaneGenerator.cs:100-122 | flipping the flag keeps the list length and swaps the a-c and b-d cuts in every cell, so every cell changes |
| `IndexPass.ThreeByThreeOctahedron` | Assets/PlaneGenerator.cs:81-125 | the full index list of the 3×3 grid without the flag |
| `IndexPass.ThreeByThreeHemisphere` | Assets/PlaneGenerator.cs:81-125 | the full index list of the 3×3 grid with the flag |
| `PlaneGenerators.ShaderSign` | Assets/PlaneGenerator.cs:61 | the material's `_Params.x` is 1 with the flag and -1 without it |
| `PlaneGenerators.MeshOf` | Assets/PlaneGenerator.cs:64-133 | a rebuilt mesh has one texture coordinate per vertex, `storedX * storedY` vertices and six indices per cell |
| `PlaneGenerators.PlaneGenerator.Current` | Assets/PlaneGenerator.cs:43-45 | the parameters the inputs ask for have odd vertex counts and carry the current size and flag |
| `PlaneGenerators.PlaneGenerator.constructor` | Assets/PlaneGenerator.cs:7-24 | a fresh component caches (-1, -1, -1, false) and has an empty mesh, which is the mesh those values ask for |
| `PlaneGenerators.PlaneGenerator.GenerateGeometry` | Assets/PlaneGenerator.cs:64-133 | the mesh becomes the one both passes give for the stored counts, the current `size` and the current flag |
| `PlaneGenerators.PlaneGenerator.Update` | Assets/PlaneGenerator.cs:41-62 | rebuilds exactly when an input differs from the cache. Afterwards the cache holds the inputs and the mesh is the one they ask for. Without a rebuild the mesh is untouched. The pause is never requested, and the material parameter follows the flag |
| `PlaneGenerators.TwoFrames` | Assets/PlaneGenerator.cs:45-59 | a second frame with unchanged inputs does not rebuild |

## Left out

- `Start` (Assets/PlaneGenerator.cs:26-38) is not modelled. It adds the renderer and filter components, chooses or instantiates the material and creates the empty mesh. The model starts from an empty mesh and a material parameter of 0.
- The mesh upload (Assets/PlaneGenerator.cs:128-132) is modelled as replacing the `mesh` field with the three new lists. Unity's own checks on the arrays are not modelled, including its 65535-vertex limit for 16-bit index buffers.
- The text of the `Debug.Log` message is left out. `Debug.Break`, which pauses the editor at the end of the frame, is modelled as the returned `breakRequested` flag.
- Only the x component of the `_Params` vector is modelled. The other three components are always 0.
- Single-precision floating point is not modelled.
  - Coordinates are exact reals.
  - The quadrant test `i < numQuadsX * 0.5f` is modelled as `2 * i < numQuadsX`. This matches the float comparison while the counts are exactly representable in a float (below 2^24).
  - Rounding of `i / (storedX - 1.0f)` and of the products with `size` is not modelled.
- `PlaneGenerators.PlaneGenerator.Update` requires that a rebuild never sees a count of exactly 1 while the other count is positive. This happens when a segment count is 1, or -2147483647 through the 32-bit wrap-around. In that case the source divides 0 by 0 and fills the mesh with NaN coordinates; the model has no NaN. Counts of 0 or below are handled: the loops do not run and the mesh is empty.
- `PlaneGenerators.PlaneGenerator.Update` compares `size` with exact equality. A NaN `size`, which never equals itself and so would rebuild on every frame, is not modelled.
- `IndexPass.BuildIndices` uses unbounded integers for the corner numbers `i + j * storedX`. The source computes them on 32-bit ints, which wrap only for grids far beyond what a mesh can hold.
- `VertexPass.BuildVertices` and `IndexPass.BuildIndices` build sequences rather than filling Unity `List` objects. The lists are local to one rebuild, so no aliasing is lost.
