/** Value-level kernels of `disconnect` and `remove`: what the arrays and the
    edge lookup become, and the lemmas that the structural invariant survives. */
module MeshRemoval {
  import opened MeshTypes
  import opened MeshInvariants

  /** Slot `d` once half-edge `e` is disconnected: `e` loses its pair, its links and
      its face; every other half-edge loses its pair and links to `e`. */
  function DetachAt(es: Edges, e: nat, d: nat): Option<Edge>
    requires d < |es|
  {
    match es[d]
    case None => None
    case Some(y) =>
      if d == e then Some(y.(pair := None, next := None, prev := None, face := None))
      else Some(y.(pair := if y.pair == Some(e) then None else y.pair,
                   next := if y.next == Some(e) then None else y.next,
                   prev := if y.prev == Some(e) then None else y.prev))
  }

  function DetachEdges(es: Edges, e: nat): (r: Edges)
    ensures |r| == |es|
    ensures forall d: nat | d < |es| :: r[d] == DetachAt(es, e, d)
  {
    seq(|es|, d requires 0 <= d < |es| => DetachAt(es, e, d))
  }

  /** The lookup without the entry of `e`, if `e` is the half-edge registered under its key. */
  function DetachMap(es: Edges, m: EdgeMap, e: nat): EdgeMap
  {
    if Has(es, e) && Registered(es, m, e) then m - {KeyOf(es[e].value)} else m
  }

  /** The face of `e`, if it names `e` as its half-edge, moves on to `e`'s successor,
      or has no half-edge when `e` has no other successor. */
  function DetachFaces(es: Edges, fs: Faces, e: nat): Faces
  {
    if Has(es, e) && es[e].value.face.Some? && Has(fs, es[e].value.face.value) &&
       fs[es[e].value.face.value].value.edge == Some(e)
    then
      var x := es[e].value;
      fs[x.face.value := Some(Face(if x.next.Some? && x.next != Some(e) then x.next else None))]
    else fs
  }

  /** The origin of `e`, if it names `e` as its half-edge, has no half-edge. */
  function DetachVertices(vs: Vertices, es: Edges, e: nat): Vertices
  {
    if Has(es, e) && Has(vs, es[e].value.origin) && vs[es[e].value.origin].value.edge == Some(e)
    then vs[es[e].value.origin := Some(vs[es[e].value.origin].value.(edge := None))]
    else vs
  }

  /** Disconnecting a half-edge keeps the invariant and leaves nothing referring to it. */
  lemma DetachWf(vs: Vertices, es: Edges, fs: Faces, m: EdgeMap, e: nat)
    requires Wf(vs, es, fs, m) && IsLive(es, e)
    ensures var vs2, es2, fs2, m2 := DetachVertices(vs, es, e), DetachEdges(es, e), DetachFaces(es, fs, e), DetachMap(es, m, e);
      Wf(vs2, es2, fs2, m2) && EdgeIsolated(vs2, es2, fs2, m2, e)
  {
    var vs2, es2, fs2, m2 := DetachVertices(vs, es, e), DetachEdges(es, e), DetachFaces(es, fs, e), DetachMap(es, m, e);
    var x := es[e].value;
    assert LinksAt(es, e) && RegAt(es, m, e) && PairAt(es, e);
    forall v: nat | IsLive(vs2, v) ensures VertexEdgeAt(vs2, es2, v) && RingAt(vs2, v) {
      assert IsLive(vs, v) && VertexEdgeAt(vs, es, v) && RingAt(vs, v);
    }
    forall g: nat | IsLive(fs2, g) ensures FaceAt(es2, fs2, g) {
      assert IsLive(fs, g) && FaceAt(es, fs, g);
      if x.next.Some? {
        assert IsLive(es, x.next.value);
      }
    }
    forall d: nat | IsLive(es2, d)
      ensures EndsAt(vs2, es2, fs2, d) && PairAt(es2, d) && LinksAt(es2, d) && RegAt(es2, m2, d)
    {
      assert IsLive(es, d) && EndsAt(vs, es, fs, d) && PairAt(es, d) && LinksAt(es, d) && RegAt(es, m, d);
      var y := es[d].value;
      if d != e {
        if y.pair.Some? && y.pair != Some(e) {
          assert IsLive(es, y.pair.value);
        }
        if y.next.Some? && y.next != Some(e) {
          assert IsLive(es, y.next.value);
        }
        if y.prev.Some? && y.prev != Some(e) {
          assert IsLive(es, y.prev.value);
        }
        if y.pair == Some(e) && Reverse(KeyOf(y)) in m {
          assert KeyOf(es[m[Reverse(KeyOf(y))]].value) == Reverse(KeyOf(y));
        }
      }
    }
    forall k | k in m2 ensures Has(es2, m2[k]) && KeyOf(es2[m2[k]].value) == k {
      assert KeyOf(es[m[k]].value) == k;
    }
    forall v: nat | IsLive(vs2, v) ensures vs2[v].value.edge != Some(e) {
      assert IsLive(vs, v) && VertexEdgeAt(vs, es, v);
    }
    forall g: nat | IsLive(fs2, g) ensures fs2[g].value.edge != Some(e) {
      assert IsLive(fs, g) && FaceAt(es, fs, g);
    }
    forall k | k in m2 ensures m2[k] != e {
      assert KeyOf(es[m[k]].value) == k;
    }
  }

  /** Freeing the slot of an isolated half-edge keeps the invariant. */
  lemma FreeEdgeWf(vs: Vertices, es: Edges, fs: Faces, m: EdgeMap, e: nat)
    requires Wf(vs, es, fs, m) && IsLive(es, e) && EdgeIsolated(vs, es, fs, m, e)
    ensures Wf(vs, es[e := None], fs, m)
  {
    var r := es[e := None];
    forall v: nat | IsLive(vs, v) ensures VertexEdgeAt(vs, r, v) && RingAt(vs, v) {
      assert VertexEdgeAt(vs, es, v) && vs[v].value.edge != Some(e);
    }
    forall g: nat | IsLive(fs, g) ensures FaceAt(r, fs, g) {
      assert FaceAt(es, fs, g) && fs[g].value.edge != Some(e);
    }
    forall d: nat | IsLive(r, d)
      ensures EndsAt(vs, r, fs, d) && PairAt(r, d) && LinksAt(r, d) && RegAt(r, m, d)
    {
      assert IsLive(es, d) && EndsAt(vs, es, fs, d) && PairAt(es, d) && LinksAt(es, d) && RegAt(es, m, d);
      var y := es[d].value;
      if y.pair.Some? {
        assert IsLive(es, y.pair.value);
      }
      if y.next.Some? {
        assert IsLive(es, y.next.value);
      }
      if y.prev.Some? {
        assert IsLive(es, y.prev.value);
      }
      if Reverse(KeyOf(y)) in m {
        assert m[Reverse(KeyOf(y))] != e;
      }
    }
    forall k | k in m ensures Has(r, m[k]) && KeyOf(r[m[k]].value) == k {
      assert m[k] != e;
    }
  }

  /** The colocal ring with vertex `v` taken out: its neighbours link to each other. */
  function SpliceOut(vs: Vertices, v: nat): Vertices
    requires Has(vs, v) && Has(vs, vs[v].value.colocalPrev) && Has(vs, vs[v].value.colocalNext)
  {
    var n, p := vs[v].value.colocalNext, vs[v].value.colocalPrev;
    var vs1 := vs[p := Some(vs[p].value.(colocalNext := n))];
    vs1[n := Some(vs1[n].value.(colocalPrev := p))]
  }

  /** Removing a vertex that no half-edge touches, after splicing it out of its
      colocal ring, keeps the invariant. */
  lemma RemoveVertexWf(vs: Vertices, es: Edges, fs: Faces, m: EdgeMap, v: nat)
    requires Wf(vs, es, fs, m) && IsLive(vs, v) && VertexIsolated(es, v)
    ensures RingAt(vs, v)
    ensures Wf(SpliceOut(vs, v)[v := None], es, fs, m)
  {
    assert RingAt(vs, v);
    var n, p := vs[v].value.colocalNext, vs[v].value.colocalPrev;
    var r := SpliceOut(vs, v)[v := None];
    forall u: nat | IsLive(r, u) ensures VertexEdgeAt(r, es, u) && RingAt(r, u) {
      assert IsLive(vs, u) && VertexEdgeAt(vs, es, u) && RingAt(vs, u);
      var y := vs[u].value;
      assert IsLive(vs, y.colocalNext) && RingAt(vs, y.colocalNext);
      assert IsLive(vs, y.colocalPrev) && RingAt(vs, y.colocalPrev);
      if y.edge.Some? {
        assert IsLive(es, y.edge.value);
      }
    }
    forall d: nat | IsLive(es, d)
      ensures EndsAt(r, es, fs, d) && PairAt(es, d) && LinksAt(es, d) && RegAt(es, m, d)
    {
      assert EndsAt(vs, es, fs, d);
    }
  }

  /** Freeing the slot of a face that no half-edge belongs to keeps the invariant. */
  lemma RemoveFaceWf(vs: Vertices, es: Edges, fs: Faces, m: EdgeMap, f: nat)
    requires Wf(vs, es, fs, m) && IsLive(fs, f) && FaceIsolated(es, f)
    ensures Wf(vs, es, fs[f := None], m)
  {
    var r := fs[f := None];
    forall g: nat | IsLive(r, g) ensures FaceAt(es, r, g) {
      assert IsLive(fs, g) && FaceAt(es, fs, g);
    }
    forall d: nat | IsLive(es, d)
      ensures EndsAt(vs, es, r, d) && PairAt(es, d) && LinksAt(es, d) && RegAt(es, m, d)
    {
      assert EndsAt(vs, es, fs, d);
    }
  }
}
