/** The cursors over the three entity arrays of a mesh: each starts at slot 0,
    advances one slot at a time, is done when it reaches the slot count, and
    yields the slot it stands on (a removed entity yields none). The `Const`
    cursors read a mesh they may not change; they have the same behaviour and can
    be made from a mutable cursor, keeping its position. */
module MeshIterators {
  import opened MeshTypes
  import opened MeshInvariants
  import opened HalfEdgeMesh

  class VertexIterator {
    const mesh: Mesh
    var current: nat

    constructor (mesh: Mesh)
      ensures this.mesh == mesh && current == 0
    {
      this.mesh, current := mesh, 0;
    }

    method Advance()
      modifies this`current
      ensures current == old(current) + 1
    {
      current := current + 1;
    }

    /** The cursor has passed the last slot. */
    function IsDone(): (r: bool)
      reads this, mesh
      ensures r <==> current == |mesh.vertexArray|
    {
      current == mesh.VertexCount()
    }

    /** The slot under the cursor. */
    function Current(): (r: Option<Vertex>)
      reads this, mesh
      requires current < mesh.VertexCount()
      ensures r == mesh.vertexArray[current] && (r.Some? <==> IsLive(mesh.vertexArray, current))
    {
      mesh.VertexAt(current)
    }
  }

  class ConstVertexIterator {
    const mesh: Mesh
    var current: nat

    constructor (mesh: Mesh)
      ensures this.mesh == mesh && current == 0
    {
      this.mesh, current := mesh, 0;
    }

    /** Converts a mutable cursor into a read-only one at the same position. */
    constructor FromMutable(it: VertexIterator)
      ensures mesh == it.mesh && current == it.current
    {
      mesh, current := it.mesh, it.current;
    }

    method Advance()
      modifies this`current
      ensures current == old(current) + 1
    {
      current := current + 1;
    }

    /** The cursor has passed the last slot. */
    function IsDone(): (r: bool)
      reads this, mesh
      ensures r <==> current == |mesh.vertexArray|
    {
      current == mesh.VertexCount()
    }

    /** The slot under the cursor. */
    function Current(): (r: Option<Vertex>)
      reads this, mesh
      requires current < mesh.VertexCount()
      ensures r == mesh.vertexArray[current] && (r.Some? <==> IsLive(mesh.vertexArray, current))
    {
      mesh.VertexAt(current)
    }
  }

  class FaceIterator {
    const mesh: Mesh
    var current: nat

    constructor (mesh: Mesh)
      ensures this.mesh == mesh && current == 0
    {
      this.mesh, current := mesh, 0;
    }

    method Advance()
      modifies this`current
      ensures current == old(current) + 1
    {
      current := current + 1;
    }

    /** The cursor has passed the last slot. */
    function IsDone(): (r: bool)
      reads this, mesh
      ensures r <==> current == |mesh.faceArray|
    {
      current == mesh.FaceCount()
    }

    /** The slot under the cursor. */
    function Current(): (r: Option<Face>)
      reads this, mesh
      requires current < mesh.FaceCount()
      ensures r == mesh.faceArray[current] && (r.Some? <==> IsLive(mesh.faceArray, current))
    {
      mesh.FaceAt(current)
    }
  }

  class ConstFaceIterator {
    const mesh: Mesh
    var current: nat

    constructor (mesh: Mesh)
      ensures this.mesh == mesh && current == 0
    {
      this.mesh, current := mesh, 0;
    }

    /** Converts a mutable cursor into a read-only one at the same position. */
    constructor FromMutable(it: FaceIterator)
      ensures mesh == it.mesh && current == it.current
    {
      mesh, current := it.mesh, it.current;
    }

    method Advance()
      modifies this`current
      ensures current == old(current) + 1
    {
      current := current + 1;
    }

    /** The cursor has passed the last slot. */
    function IsDone(): (r: bool)
      reads this, mesh
      ensures r <==> current == |mesh.faceArray|
    {
      current == mesh.FaceCount()
    }

    /** The slot under the cursor. */
    function Current(): (r: Option<Face>)
      reads this, mesh
      requires current < mesh.FaceCount()
      ensures r == mesh.faceArray[current] && (r.Some? <==> IsLive(mesh.faceArray, current))
    {
      mesh.FaceAt(current)
    }
  }

  class EdgeIterator {
    const mesh: Mesh
    var current: nat

    constructor (mesh: Mesh)
      ensures this.mesh == mesh && current == 0
    {
      this.mesh, current := mesh, 0;
    }

    method Advance()
      modifies this`current
      ensures current == old(current) + 1
    {
      current := current + 1;
    }

    /** The cursor has passed the last slot. */
    function IsDone(): (r: bool)
      reads this, mesh
      ensures r <==> current == |mesh.edgeArray|
    {
      current == mesh.EdgeCount()
    }

    /** The slot under the cursor. */
    function Current(): (r: Option<Edge>)
      reads this, mesh
      requires current < mesh.EdgeCount()
      ensures r == mesh.edgeArray[current] && (r.Some? <==> IsLive(mesh.edgeArray, current))
    {
      mesh.EdgeAt(current)
    }
  }

  class ConstEdgeIterator {
    const mesh: Mesh
    var current: nat

    constructor (mesh: Mesh)
      ensures this.mesh == mesh && current == 0
    {
      this.mesh, current := mesh, 0;
    }

    /** Converts a mutable cursor into a read-only one at the same position. */
    constructor FromMutable(it: EdgeIterator)
      ensures mesh == it.mesh && current == it.current
    {
      mesh, current := it.mesh, it.current;
    }

    method Advance()
      modifies this`current
      ensures current == old(current) + 1
    {
      current := current + 1;
    }

    /** The cursor has passed the last slot. */
    function IsDone(): (r: bool)
      reads this, mesh
      ensures r <==> current == |mesh.edgeArray|
    {
      current == mesh.EdgeCount()
    }

    /** The slot under the cursor. */
    function Current(): (r: Option<Edge>)
      reads this, mesh
      requires current < mesh.EdgeCount()
      ensures r == mesh.edgeArray[current] && (r.Some? <==> IsLive(mesh.edgeArray, current))
    {
      mesh.EdgeAt(current)
    }
  }

  /** Iterating the vertices from a fresh cursor until it is done yields every slot
      once, in id order. */
  method VisitVertices(mesh: Mesh) returns (seen: seq<Option<Vertex>>)
    ensures seen == mesh.vertexArray
  {
    var it := new VertexIterator(mesh);
    seen := [];
    while !it.IsDone()
      invariant it.mesh == mesh && it.current <= |mesh.vertexArray|
      invariant seen == mesh.vertexArray[..it.current]
      decreases |mesh.vertexArray| - it.current
    {
      seen := seen + [it.Current()];
      it.Advance();
    }
  }

  /** A read-only cursor made from a mutable one goes on from the same slot and
      yields the rest of the vertices. */
  method ResumeVertices(it: VertexIterator) returns (rest: seq<Option<Vertex>>)
    requires it.current <= |it.mesh.vertexArray|
    ensures rest == it.mesh.vertexArray[it.current..]
  {
    var c := new ConstVertexIterator.FromMutable(it);
    rest := [];
    while !c.IsDone()
      invariant c.mesh == it.mesh && it.current <= c.current <= |it.mesh.vertexArray|
      invariant rest == it.mesh.vertexArray[it.current..c.current]
      decreases |it.mesh.vertexArray| - c.current
    {
      rest := rest + [c.Current()];
      c.Advance();
    }
  }

  /** Iterating the faces from a fresh cursor until it is done yields every slot
      once, in id order. */
  method VisitFaces(mesh: Mesh) returns (seen: seq<Option<Face>>)
    ensures seen == mesh.faceArray
  {
    var it := new FaceIterator(mesh);
    seen := [];
    while !it.IsDone()
      invariant it.mesh == mesh && it.current <= |mesh.faceArray|
      invariant seen == mesh.faceArray[..it.current]
      decreases |mesh.faceArray| - it.current
    {
      seen := seen + [it.Current()];
      it.Advance();
    }
  }

  /** A read-only cursor made from a mutable one goes on from the same slot and
      yields the rest of the faces. */
  method ResumeFaces(it: FaceIterator) returns (rest: seq<Option<Face>>)
    requires it.current <= |it.mesh.faceArray|
    ensures rest == it.mesh.faceArray[it.current..]
  {
    var c := new ConstFaceIterator.FromMutable(it);
    rest := [];
    while !c.IsDone()
      invariant c.mesh == it.mesh && it.current <= c.current <= |it.mesh.faceArray|
      invariant rest == it.mesh.faceArray[it.current..c.current]
      decreases |it.mesh.faceArray| - c.current
    {
      rest := rest + [c.Current()];
      c.Advance();
    }
  }

  /** Iterating the edges from a fresh cursor until it is done yields every slot
      once, in id order. */
  method VisitEdges(mesh: Mesh) returns (seen: seq<Option<Edge>>)
    ensures seen == mesh.edgeArray
  {
    var it := new EdgeIterator(mesh);
    seen := [];
    while !it.IsDone()
      invariant it.mesh == mesh && it.current <= |mesh.edgeArray|
      invariant seen == mesh.edgeArray[..it.current]
      decreases |mesh.edgeArray| - it.current
    {
      seen := seen + [it.Current()];
      it.Advance();
    }
  }

  /** A read-only cursor made from a mutable one goes on from the same slot and
      yields the rest of the edges. */
  method ResumeEdges(it: EdgeIterator) returns (rest: seq<Option<Edge>>)
    requires it.current <= |it.mesh.edgeArray|
    ensures rest == it.mesh.edgeArray[it.current..]
  {
    var c := new ConstEdgeIterator.FromMutable(it);
    rest := [];
    while !c.IsDone()
      invariant c.mesh == it.mesh && it.current <= c.current <= |it.mesh.edgeArray|
      invariant rest == it.mesh.edgeArray[it.current..c.current]
      decreases |it.mesh.edgeArray| - c.current
    {
      rest := rest + [c.Current()];
      c.Advance();
    }
  }
}
