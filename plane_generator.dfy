/** The `PlaneGenerator` component: public inputs edited from outside, a cache
    of the values the current mesh was built from, the mesh itself, and the
    per-frame `Update` that rebuilds the mesh only when an input changed. */
module PlaneGenerators {
  import opened Dimensions
  import opened VertexPass
  import opened IndexPass

  /** The four values the cache in `Update` compares: the two vertex counts,
      the side length and the hemisphere flag. */
  datatype Params = Params(x: int, y: int, size: real, hemisphere: bool)

  /** The x component of the `_Params` vector `Update` hands to the material. */
  function ShaderSign(hemisphere: bool): (s: int)
    ensures s == 1 || s == -1
    ensures s == 1 <==> hemisphere
  {
    if hemisphere then 1 else -1
  }

  /** The mesh the component owns: vertex positions, texture coordinates and
      the index list, each replaced as a whole when the mesh is rebuilt. */
  datatype Mesh = Mesh(vertices: seq<Vec3>, uv: seq<Vec2>, triangles: seq<int>)

  /** The mesh both passes produce for `p`. */
  function MeshOf(p: Params): (m: Mesh)
    requires VertexPassDefined(p.x, p.y)
    ensures |m.vertices| == |m.uv| == Count(p.x) * Count(p.y)
    ensures |m.triangles| == 6 * Count(p.x - 1) * Count(p.y - 1)
  {
    Mesh(MeshVertices(p.x, p.y, p.size), MeshUVs(p.x, p.y), IndexList(p.x, p.y, p.hemisphere))
  }

  class PlaneGenerator {
    // Inputs, set from outside between frames.
    var segX: int
    var segY: int
    var size: real
    var hemisphere: bool

    /** The values the current mesh was built from. */
    var stored: Params

    var mesh: Mesh

    /** The x component of the material's `_Params` vector; 0 until the
        first `Update`. */
    var paramsX: int

    /** What the inputs ask for: the vertex counts derived from the segment
        counts, with the side length and the flag. */
    function Current(): (p: Params)
      reads this`segX, this`segY, this`size, this`hemisphere
      ensures p.x % 2 == 1 && p.y % 2 == 1
      ensures p.size == size && p.hemisphere == hemisphere
    {
      Params(DerivedDim(segX), DerivedDim(segY), size, hemisphere)
    }

    /** The mesh is the one the stored values ask for. */
    ghost predicate Valid()
      reads this`stored, this`mesh
    {
      VertexPassDefined(stored.x, stored.y) && mesh == MeshOf(stored)
    }

    /** The component as it is before its first frame. The cache holds
        (-1, -1, -1, false), so the first `Update` builds a mesh unless the
        inputs ask for exactly those values (segment counts 0, size -1, flag
        clear); then the empty mesh is already the one they ask for. */
    constructor (segX: int, segY: int, size: real, hemisphere: bool)
      ensures this.segX == segX && this.segY == segY && this.size == size && this.hemisphere == hemisphere
      ensures stored == Params(-1, -1, -1.0, false)
      ensures mesh == Mesh([], [], [])
      ensures Valid()
      ensures paramsX == 0
    {
      this.segX, this.segY, this.size, this.hemisphere := segX, segY, size, hemisphere;
      stored := Params(-1, -1, -1.0, false);
      mesh := Mesh([], [], []);
      paramsX := 0;
      assert |IndexList(-1, -1, false)| == 0;
    }

    /** Rebuilds the mesh from the stored vertex counts and the current side
        length and flag. */
    method GenerateGeometry()
      requires VertexPassDefined(stored.x, stored.y)
      modifies this`mesh
      ensures mesh == MeshOf(Params(stored.x, stored.y, size, hemisphere))
    {
      var verts, uvs := BuildVertices(stored.x, stored.y, size);
      var indices := BuildIndices(stored.x, stored.y, hemisphere);
      mesh := Mesh(verts, uvs, indices);
    }

    /** One frame. The mesh is rebuilt exactly when an input differs from the
        cache; afterwards the cache holds the inputs and the mesh is the one
        they ask for. The diagnostic pause never fires, and the material's
        parameter follows the flag on every frame. */
    method Update() returns (regenerated: bool, breakRequested: bool)
      requires Valid()
      requires Current() == stored || VertexPassDefined(Current().x, Current().y)
      modifies this`stored, this`mesh, this`paramsX
      ensures regenerated <==> old(Current()) != old(stored)
      ensures stored == Current() == old(Current())
      ensures Valid()
      ensures !regenerated ==> mesh == old(mesh)
      ensures !breakRequested
      ensures paramsX == ShaderSign(hemisphere)
    {
      var calcX := DerivedDim(segX);
      var calcY := DerivedDim(segY);
      regenerated := calcX != stored.x || calcY != stored.y || size != stored.size || stored.hemisphere != hemisphere;
      breakRequested := false;
      if regenerated {
        stored := Params(calcX, calcY, size, hemisphere);
        DerivedDimsPassOddCheck(segX, segY);
        if CsRem(stored.x, 2) == 0 || CsRem(stored.y, 2) == 0 {
          breakRequested := true;
        }
        GenerateGeometry();
      }
      paramsX := if hemisphere then 1 else -1;
    }
  }

  /** Two frames with no input edited in between: the second one keeps the
      mesh the first one built. */
  method TwoFrames(g: PlaneGenerator) returns (first: bool, second: bool)
    requires g.Valid()
    requires g.Current() == g.stored || VertexPassDefined(g.Current().x, g.Current().y)
    modifies g
    ensures !second
    ensures g.Valid() && g.stored == g.Current()
  {
    var pause: bool;
    first, pause := g.Update();
    second, pause := g.Update();
  }
}
