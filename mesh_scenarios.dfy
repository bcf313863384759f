/** Small mesh-building sequences, proved from the contracts of the Mesh operations. */
module MeshScenarios {
  import opened MeshTypes
  import opened MeshInvariants
  import opened MeshUpdates
  import opened HalfEdgeMesh

  /** A new mesh with `n` vertices and nothing else. */
  method Vertices(n: nat) returns (mesh: Mesh)
    ensures fresh(mesh) && mesh.Valid()
    ensures |mesh.vertexArray| == n && forall v | 0 <= v < n :: IsLive(mesh.vertexArray, v)
    ensures mesh.edgeArray == [] && mesh.faceArray == [] && mesh.edgeMap == map[]
    ensures mesh.errorCount == 0
  {
    mesh := new Mesh();
    var k := 0;
    while k < n
      invariant 0 <= k <= n && mesh.Valid()
      invariant |mesh.vertexArray| == k && forall v | 0 <= v < k :: IsLive(mesh.vertexArray, v)
      invariant mesh.edgeArray == [] && mesh.faceArray == [] && mesh.edgeMap == map[]
      invariant mesh.errorCount == 0
    {
      ghost var vs := mesh.vertexArray;
      var v := mesh.AddVertex();
      forall u | 0 <= u < k + 1 ensures IsLive(mesh.vertexArray, u) {
        if u < k {
          assert mesh.vertexArray[u] == vs[u] && IsLive(vs, u);
        }
      }
      k := k + 1;
    }
  }

  /** The triangle 0 1 2 on a mesh of `n` vertices: face 0, and only its sides are in
      the lookup. */
  method Triangle(n: nat) returns (mesh: Mesh)
    requires 3 <= n
    ensures fresh(mesh) && mesh.Valid()
    ensures |mesh.vertexArray| == n && forall v | 0 <= v < n :: IsLive(mesh.vertexArray, v)
    ensures |mesh.faceArray| == 1 && IsFaceCycle(mesh.edgeArray, mesh.faceArray, 0, [0, 1, 2])
    ensures forall k | !IsSide([0, 1, 2], k) :: k !in mesh.edgeMap
    ensures Key(2, 0) in mesh.edgeMap
    ensures |mesh.edgeArray| == 3 && forall d | 0 <= d < 3 :: InFace(mesh.edgeArray, d, 0)
    ensures mesh.errorCount == 0
  {
    mesh := Vertices(n);
    ghost var vs0 := mesh.vertexArray;
    assert mesh.FaceAddable([0, 1, 2]) by {
      assert forall k | 0 <= k < 3 :: Side([0, 1, 2], k) == [Key(0, 1), Key(1, 2), Key(2, 0)][k];
    }
    var f := mesh.AddTriangle(0, 1, 2);
    forall v | 0 <= v < n ensures IsLive(mesh.vertexArray, v) {
      assert IsLive(vs0, v);
    }
    var e := mesh.faceArray[0].value.edge.value;
    assert Walk(mesh.edgeArray, e, 2).Some? && Side([0, 1, 2], 2) == Key(2, 0);
    PairOfSide(mesh, Walk(mesh.edgeArray, e, 2).value);
    AllSidesNew([0, 1, 2], 3);
  }

  /** The lone triangle 0 1 2 after `linkBoundary()`: each reversed side is a
      boundary half-edge, and every boundary half-edge has gained both a `next` and
      a `prev`, closing the boundary loop. */
  method TriangleBoundary() returns (mesh: Mesh)
    ensures fresh(mesh) && mesh.Valid()
    ensures forall t | 0 <= t < 3 ::
              Reverse(Side([0, 1, 2], t)) in mesh.edgeMap &&
              IsBoundary(mesh.edgeArray, mesh.edgeMap, mesh.edgeMap[Reverse(Side([0, 1, 2], t))])
    ensures forall b: nat | IsBoundary(mesh.edgeArray, mesh.edgeMap, b) ::
              mesh.edgeArray[b].value.next.Some? && mesh.edgeArray[b].value.prev.Some?
  {
    mesh := Triangle(3);
    ghost var es0, m0 := mesh.edgeArray, mesh.edgeMap;
    TriangleOpen(mesh.vertexArray, es0, mesh.faceArray, m0);
    mesh.LinkBoundary();
    TriangleTwinsAppended(es0, m0, mesh.edgeArray, mesh.edgeMap);
    TriangleTwins(m0, mesh.edgeArray, mesh.edgeMap);
  }

  /** The sides of the triangle 0 1 2, in order. */
  const TriangleSides: seq<Key> := [Key(0, 1), Key(1, 2), Key(2, 0)]

  /** `TriangleSides` lists the sides of the polygon 0 1 2. */
  lemma TriangleSidesListed()
    ensures forall t | 0 <= t < 3 :: Side([0, 1, 2], t) == TriangleSides[t]
    ensures forall k :: IsSide([0, 1, 2], k) <==> k in TriangleSides
  {
    assert Side([0, 1, 2], 0) == TriangleSides[0];
    assert Side([0, 1, 2], 1) == TriangleSides[1];
    assert Side([0, 1, 2], 2) == TriangleSides[2];
  }

  /** In the lone triangle 0 1 2 every half-edge is open and keyed by a side, each
      side is registered to one of the three half-edges, and no boundary half-edge
      exists yet. */
  lemma TriangleOpen(vs: Vertices, es: Edges, fs: Faces, m: EdgeMap)
    requires Wf(vs, es, fs, m) && |es| == 3 && forall d: nat | d < 3 :: InFace(es, d, 0)
    requires IsFaceCycle(es, fs, 0, [0, 1, 2])
    requires forall k | !IsSide([0, 1, 2], k) :: k !in m
    ensures forall d: nat | d < 3 :: IsOpen(es, d) && KeyOf(es[d].value) in TriangleSides
    ensures forall t | 0 <= t < 3 ::
              TriangleSides[t] in m && m[TriangleSides[t]] < 3 && IsOpen(es, m[TriangleSides[t]]) &&
              KeyOf(es[m[TriangleSides[t]]].value) == TriangleSides[t]
    ensures BoundaryLinksMeet(es, m)
  {
    TriangleSidesListed();
    forall q: nat | Has(es, q) ensures KeyOf(es[q].value) in m {
      assert InFace(es, q, 0) && RegAt(es, m, q);
    }
    forall d: nat | d < 3 ensures IsOpen(es, d) && KeyOf(es[d].value) in TriangleSides {
      assert InFace(es, d, 0) && RegAt(es, m, d) && PairAt(es, d);
      assert Reverse(KeyOf(es[d].value)) !in m;
      if es[d].value.pair.Some? {
        assert false;
      }
    }
    var e := fs[0].value.edge.value;
    forall t | 0 <= t < 3 ensures TriangleSides[t] in m && m[TriangleSides[t]] < 3 && IsOpen(es, m[TriangleSides[t]]) {
      var p := Walk(es, e, t).value;
      assert KeyOf(es[p].value) == TriangleSides[t] && RegAt(es, m, p);
    }
    forall b: nat | IsBoundary(es, m, b) ensures false {
    }
  }

  /** What `linkBoundary()` promises about the twins it appends, read for the lone
      triangle: the half-edge of each side has gained a boundary pair, and every
      boundary half-edge is new and paired with a half-edge whose key is a side. */
  lemma TriangleTwinsAppended(es0: Edges, m0: EdgeMap, es: Edges, m: EdgeMap)
    requires |es0| == 3 && forall d: nat | d < 3 :: IsOpen(es0, d) && KeyOf(es0[d].value) in TriangleSides
    requires forall t | 0 <= t < 3 ::
               TriangleSides[t] in m0 && m0[TriangleSides[t]] < 3 && IsOpen(es0, m0[TriangleSides[t]]) &&
               KeyOf(es0[m0[TriangleSides[t]]].value) == TriangleSides[t]
    requires TwinsAppended(es0, m0, es, m)
    ensures forall t | 0 <= t < 3 ::
              IsLive(es, m0[TriangleSides[t]]) && KeyOf(es[m0[TriangleSides[t]]].value) == TriangleSides[t] &&
              es[m0[TriangleSides[t]]].value.pair.Some? &&
              IsBoundary(es, m, es[m0[TriangleSides[t]]].value.pair.value)
    ensures forall b: nat | IsBoundary(es, m, b) ::
              3 <= b && es[b].value.pair.Some? && es[b].value.pair.value < 3 &&
              IsLive(es, es[b].value.pair.value) && KeyOf(es[es[b].value.pair.value].value) in TriangleSides
  {
    forall b: nat | IsBoundary(es, m, b)
      ensures 3 <= b && es[b].value.pair.Some? && es[b].value.pair.value < 3 &&
              IsLive(es, es[b].value.pair.value) && KeyOf(es[es[b].value.pair.value].value) in TriangleSides
    {
      if b < 3 {
        assert IsOpen(es0, b) && IsLive(es0, b);
        assert false;
      }
      assert IsOpen(es0, es[b].value.pair.value);
    }
  }

  /** After `linkBoundary()` on the lone triangle, the boundary half-edges are
      exactly one twin per side, each registered under the reversed side; so they
      form a simple loop. */
  lemma TriangleTwins(m0: EdgeMap, es: Edges, m: EdgeMap)
    requires forall t | 0 <= t < 3 ::
               TriangleSides[t] in m0 &&
               IsLive(es, m0[TriangleSides[t]]) && KeyOf(es[m0[TriangleSides[t]]].value) == TriangleSides[t] &&
               es[m0[TriangleSides[t]]].value.pair.Some? &&
               IsBoundary(es, m, es[m0[TriangleSides[t]]].value.pair.value)
    requires forall b: nat | IsBoundary(es, m, b) ::
               es[b].value.pair.Some? && IsLive(es, es[b].value.pair.value) &&
               KeyOf(es[es[b].value.pair.value].value) in TriangleSides
    requires forall d: nat | IsLive(es, d) :: PairAt(es, d)
    ensures forall t | 0 <= t < 3 ::
              Reverse(Side([0, 1, 2], t)) in m && IsBoundary(es, m, m[Reverse(Side([0, 1, 2], t))])
    ensures SimpleBoundary(es, m)
  {
    forall t | 0 <= t < 3
      ensures Reverse(TriangleSides[t]) in m && IsBoundary(es, m, m[Reverse(TriangleSides[t])]) &&
              KeyOf(es[m[Reverse(TriangleSides[t])]].value) == Reverse(TriangleSides[t])
    {
      var p := m0[TriangleSides[t]];
      assert PairAt(es, p) && IsBoundary(es, m, es[p].value.pair.value);
    }
    forall b: nat | IsBoundary(es, m, b)
      ensures exists t | 0 <= t < 3 :: Reverse(TriangleSides[t]) in m && m[Reverse(TriangleSides[t])] == b
    {
      var q := es[b].value.pair.value;
      assert PairAt(es, b);
      var key := KeyOf(es[q].value);
      var s := if key == TriangleSides[0] then 0 else if key == TriangleSides[1] then 1 else 2;
      assert KeyOf(es[b].value) == Reverse(TriangleSides[s]);
    }
    TriangleLoop(es, m);
  }

  /** Boundary half-edges that are exactly the reversed sides of the triangle, one
      each, form a simple loop. */
  lemma TriangleLoop(es: Edges, m: EdgeMap)
    requires forall t | 0 <= t < 3 ::
               Reverse(TriangleSides[t]) in m && IsBoundary(es, m, m[Reverse(TriangleSides[t])]) &&
               KeyOf(es[m[Reverse(TriangleSides[t])]].value) == Reverse(TriangleSides[t])
    requires forall b: nat | IsBoundary(es, m, b) ::
               exists t | 0 <= t < 3 :: Reverse(TriangleSides[t]) in m && m[Reverse(TriangleSides[t])] == b
    ensures forall t | 0 <= t < 3 ::
              Reverse(Side([0, 1, 2], t)) in m && IsBoundary(es, m, m[Reverse(Side([0, 1, 2], t))])
    ensures SimpleBoundary(es, m)
  {
    var twins := [m[Reverse(TriangleSides[0])], m[Reverse(TriangleSides[1])], m[Reverse(TriangleSides[2])]];
    TriangleSidesListed();
    forall t | 0 <= t < 3
      ensures IsBoundary(es, m, twins[t]) && KeyOf(es[twins[t]].value) == Reverse(Side([0, 1, 2], t))
    {
      assert twins[t] == m[Reverse(TriangleSides[t])];
    }
    forall b: nat | IsBoundary(es, m, b) ensures exists t | 0 <= t < 3 :: twins[t] == b {
      var t :| 0 <= t < 3 && Reverse(TriangleSides[t]) in m && m[Reverse(TriangleSides[t])] == b;
      assert twins[t] == b;
    }
    PolygonBoundarySimple(es, m, [0, 1, 2], twins);
  }

  /** The same triangle a second time is rejected, because its first side already
      belongs to a face: the rejection counts one error and the face count stays 1. */
  method TriangleTwice() returns (second: Option<nat>, errors: nat, faces: nat)
    ensures second.None? && errors == 1 && faces == 1
  {
    var mesh := Triangle(3);
    var e := mesh.faceArray[0].value.edge.value;
    assert Walk(mesh.edgeArray, e, 0) == Some(e);
    assert IsLive(mesh.edgeArray, e) && KeyOf(mesh.edgeArray[e].value) == Key(0, 1);
    assert !mesh.CanAddEdge(0, 1);
    second := mesh.AddTriangle(0, 1, 2);
    errors := mesh.errorCount;
    faces := mesh.FaceCount();
  }

  /** The triangles 0 1 2 and 0 2 3, which share the side 0-2 in opposite directions. */
  method TwoTriangles() returns (mesh: Mesh)
    ensures fresh(mesh) && mesh.Valid()
    ensures Key(2, 0) in mesh.edgeMap && Key(0, 2) in mesh.edgeMap
  {
    mesh := Triangle(4);
    SecondTriangleAddable(mesh);
    ghost var m0 := mesh.edgeMap;
    var f := mesh.AddTriangle(0, 2, 3);
    SecondTriangleSides(mesh, f.value, m0);
  }

  /** Once the triangle 0 2 3 is face `f`, both directions of its side 0-2 are in
      the lookup. */
  lemma SecondTriangleSides(mesh: Mesh, f: nat, m0: EdgeMap)
    requires mesh.Valid() && IsFaceCycle(mesh.edgeArray, mesh.faceArray, f, [0, 2, 3])
    requires Key(2, 0) in m0
    requires forall k | !IsSide([0, 2, 3], k) :: (k in mesh.edgeMap <==> k in m0)
    ensures Key(2, 0) in mesh.edgeMap && Key(0, 2) in mesh.edgeMap
  {
    assert !IsSide([0, 2, 3], Key(2, 0)) by {
      assert forall k | 0 <= k < 3 :: Side([0, 2, 3], k) == [Key(0, 2), Key(2, 3), Key(3, 0)][k];
    }
    var e := mesh.faceArray[f].value.edge.value;
    assert Walk(mesh.edgeArray, e, 0) == Some(e) && Side([0, 2, 3], 0) == Key(0, 2);
    PairOfSide(mesh, e);
  }

  /** After the triangle 0 1 2, the triangle 0 2 3 may be added: none of its sides
      is in the lookup. */
  lemma SecondTriangleAddable(mesh: Mesh)
    requires mesh.Valid() && |mesh.vertexArray| == 4 && forall v | 0 <= v < 4 :: IsLive(mesh.vertexArray, v)
    requires forall k | !IsSide([0, 1, 2], k) :: k !in mesh.edgeMap
    ensures mesh.FaceAddable([0, 2, 3])
  {
    assert forall k | 0 <= k < 3 :: Side([0, 2, 3], k) == [Key(0, 2), Key(2, 3), Key(3, 0)][k];
    assert forall k | 0 <= k < 3 :: Side([0, 1, 2], k) == [Key(0, 1), Key(1, 2), Key(2, 0)][k];
    assert !IsSide([0, 1, 2], Key(0, 2)) && !IsSide([0, 1, 2], Key(2, 3)) && !IsSide([0, 1, 2], Key(3, 0));
  }

  /** In two triangles sharing a side in opposite directions, the two half-edges of
      that side are paired with each other. */
  method SharedSide() returns (paired: bool)
    ensures paired
  {
    var mesh := TwoTriangles();
    var a := mesh.FindEdge(2, 0);
    var b := mesh.FindEdge(0, 2);
    assert IsLive(mesh.edgeArray, a.value) && RegAt(mesh.edgeArray, mesh.edgeMap, a.value);
    paired := a.Some? && b.Some? && mesh.edgeArray[a.value].value.pair == b;
  }

  /** A face half-edge is registered under its key. */
  lemma PairOfSide(mesh: Mesh, e: nat)
    requires mesh.Valid() && IsLive(mesh.edgeArray, e) && mesh.edgeArray[e].value.face.Some?
    ensures KeyOf(mesh.edgeArray[e].value) in mesh.edgeMap
  {
    assert RegAt(mesh.edgeArray, mesh.edgeMap, e);
  }

  /** Four vertices and the quadrilateral 0 1 2 3 on them: one face, four vertices,
      four half-edges and no error. */
  method UnitSquare() returns (faces: nat, vertices: nat, edges: nat, errors: nat)
    ensures faces == 1 && vertices == 4 && edges == 4 && errors == 0
  {
    var mesh := Vertices(4);
    QuadAddable(mesh);
    var f := mesh.AddQuad(0, 1, 2, 3);
    AllSidesNew([0, 1, 2, 3], 4);
    faces, vertices, edges, errors := mesh.FaceCount(), mesh.VertexCount(), mesh.EdgeCount(), mesh.errorCount;
  }

  /** On four vertices and nothing else, the quadrilateral 0 1 2 3 may be added. */
  lemma QuadAddable(mesh: Mesh)
    requires mesh.Valid() && |mesh.vertexArray| == 4 && forall v | 0 <= v < 4 :: IsLive(mesh.vertexArray, v)
    requires mesh.edgeMap == map[]
    ensures mesh.FaceAddable([0, 1, 2, 3])
  {
    assert forall k | 0 <= k < 4 :: Side([0, 1, 2, 3], k) == [Key(0, 1), Key(1, 2), Key(2, 3), Key(3, 0)][k];
  }

  /** With an empty lookup, every side of a polygon is new. */
  lemma {:induction false} AllSidesNew(w: seq<nat>, k: nat)
    requires k <= |w|
    ensures NewSides(w, map[], k) == k
  {
    if k > 0 {
      AllSidesNew(w, k - 1);
    }
  }
}
