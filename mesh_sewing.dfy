/** Value-level kernel of one step of `sewBoundary`. Boundary half-edge `a` and
    its predecessor `b` on the boundary loop meet at the origin of `a`; when the
    far ends of the two are colocal, the seam between them is closed: the twins
    of `a` and `b` become each other's pair, `a` and `b` leave the boundary loop
    (their neighbours are linked to each other) and are freed. As the end of a
    half-edge is the origin of its pair, the twin of `b` now ends where `a` ended
    and is registered under that key. */
module MeshSewing {
  import opened MeshTypes
  import opened MeshInvariants
  import opened MeshCompaction

  /** `a` has a predecessor `b`, and both have a twin. */
  predicate SewLinks(es: Edges, a: nat)
  {
    Has(es, a) && es[a].value.prev.Some? && Has(es, es[a].value.prev.value) &&
    es[a].value.pair.Some? && Has(es, es[a].value.pair.value) &&
    es[es[a].value.prev.value].value.pair.Some? && Has(es, es[es[a].value.prev.value].value.pair.value)
  }

  /** The shape in which `a` can be sewn with its predecessor `b`: two distinct
      boundary half-edges, `b` ending where `a` starts, whose twins are not each other. */
  predicate SewShape(es: Edges, m: EdgeMap, a: nat)
  {
    SewLinks(es, a) &&
    var b := es[a].value.prev.value;
    b != a && IsBoundary(es, m, a) && IsBoundary(es, m, b) &&
    es[b].value.to == es[a].value.origin && es[a].value.pair != Some(b)
  }

  /** Slot `d` after sewing `a` with its predecessor. */
  function SewEdgeAt(es: Edges, a: nat, d: nat): Option<Edge>
    requires SewLinks(es, a) && d < |es|
  {
    var x := es[a].value;
    var b := x.prev.value;
    var y := es[b].value;
    var pa, pb := x.pair.value, y.pair.value;
    if d == a || d == b || es[d].None? then None
    else
      var z := es[d].value;
      var z1 := if d == pa then z.(pair := Some(pb)) else if d == pb then z.(pair := Some(pa), to := x.to) else z;
      var z2 := if x.next.Some? && x.next != Some(b) && d == x.next.value then z1.(prev := y.prev) else z1;
      var z3 := if y.prev.Some? && y.prev != Some(a) && d == y.prev.value then z2.(next := x.next) else z2;
      Some(z3)
  }

  function SewEdges(es: Edges, a: nat): (r: Edges)
    requires SewLinks(es, a)
    ensures |r| == |es|
    ensures forall d | 0 <= d < |es| :: r[d] == SewEdgeAt(es, a, d)
  {
    seq(|es|, d requires 0 <= d < |es| => SewEdgeAt(es, a, d))
  }

  /** The lookup after sewing: `b` and the old key of its twin are gone, and the key
      of `a` now names the twin of `b`. */
  function SewMap(es: Edges, m: EdgeMap, a: nat): EdgeMap
    requires SewLinks(es, a)
  {
    var x := es[a].value;
    var b := x.prev.value;
    var pb := es[b].value.pair.value;
    (m - {KeyOf(es[b].value), KeyOf(es[pb].value)})[KeyOf(x) := pb]
  }

  /** The vertices after sewing: the origin of `a` moves on to the twin of `b`, and
      the origin of `b` loses `b`. */
  function SewVertices(vs: Vertices, es: Edges, a: nat): Vertices
    requires SewLinks(es, a)
  {
    var x := es[a].value;
    var b := x.prev.value;
    var y := es[b].value;
    var vs1 := if Has(vs, x.origin) && vs[x.origin].value.edge == Some(a)
               then vs[x.origin := Some(vs[x.origin].value.(edge := y.pair))] else vs;
    if Has(vs1, y.origin) && vs1[y.origin].value.edge == Some(b)
    then vs1[y.origin := Some(vs1[y.origin].value.(edge := None))] else vs1
  }

  /** What a mesh must satisfy around `a` for the sewing proof; all of it follows
      from the structural invariant. */
  ghost predicate SewNeighbourhood(vs: Vertices, es: Edges, fs: Faces, m: EdgeMap, a: nat)
    requires SewLinks(es, a)
  {
    var x := es[a].value;
    var b := x.prev.value;
    var y := es[b].value;
    var pa, pb := x.pair.value, y.pair.value;
    pa != a && pa != b && pb != a && pb != b && pa != pb &&
    es[pa].value.pair == Some(a) && es[pb].value.pair == Some(b) &&
    KeyOf(es[pa].value) == Reverse(KeyOf(x)) && KeyOf(es[pb].value) == Reverse(KeyOf(y)) &&
    x.origin != x.to && y.origin != x.to && y.origin != x.origin &&
    y.next == Some(a) && x.face.None? && y.face.None? &&
    KeyOf(x) in m && m[KeyOf(x)] == a && KeyOf(y) in m && m[KeyOf(y)] == b &&
    Reverse(KeyOf(x)) in m && m[Reverse(KeyOf(x))] == pa &&
    Reverse(KeyOf(y)) in m && m[Reverse(KeyOf(y))] == pb &&
    (x.next.Some? ==>
       Has(es, x.next.value) && x.next != Some(a) &&
       es[x.next.value].value.prev == Some(a) && es[x.next.value].value.face.None?) &&
    (y.prev.Some? ==>
       Has(es, y.prev.value) && y.prev != Some(b) &&
       es[y.prev.value].value.next == Some(b) && es[y.prev.value].value.face.None?) &&
    (x.next == Some(b) <==> y.prev == Some(a))
  }

  lemma SewNeighbourhoodHolds(vs: Vertices, es: Edges, fs: Faces, m: EdgeMap, a: nat)
    requires Wf(vs, es, fs, m) && SewShape(es, m, a)
    ensures SewNeighbourhood(vs, es, fs, m, a)
  {
    var x := es[a].value;
    var b := x.prev.value;
    var y := es[b].value;
    var pa, pb := x.pair.value, y.pair.value;
    assert IsLive(es, a) && EndsAt(vs, es, fs, a) && PairAt(es, a) && LinksAt(es, a) && RegAt(es, m, a);
    assert IsLive(es, b) && EndsAt(vs, es, fs, b) && PairAt(es, b) && LinksAt(es, b) && RegAt(es, m, b);
    assert IsLive(es, pa) && RegAt(es, m, pa) && Connected(es[pa].value);
    assert IsLive(es, pb) && RegAt(es, m, pb) && Connected(es[pb].value);
    if x.next.Some? {
      assert IsLive(es, x.next.value);
    }
    if y.prev.Some? {
      assert IsLive(es, y.prev.value) && LinksAt(es, y.prev.value);
    }
  }

  /** Sewing keeps the structural invariant. */
  lemma SewWf(vs: Vertices, es: Edges, fs: Faces, m: EdgeMap, a: nat)
    requires Wf(vs, es, fs, m) && SewShape(es, m, a)
    ensures var vs2, es2, m2 := SewVertices(vs, es, a), SewEdges(es, a), SewMap(es, m, a);
      Wf(vs2, es2, fs, m2)
  {
    SewNeighbourhoodHolds(vs, es, fs, m, a);
    var vs2, es2, m2 := SewVertices(vs, es, a), SewEdges(es, a), SewMap(es, m, a);
    SewVerticesOk(vs, es, fs, m, a);
    forall d: nat | IsLive(es2, d)
      ensures EndsAt(vs2, es2, fs, d) && PairAt(es2, d) && LinksAt(es2, d) && RegAt(es2, m2, d)
    {
      SewEdgeOk(vs, es, fs, m, a, d);
    }
    forall g: nat | IsLive(fs, g) ensures FaceAt(es2, fs, g) {
      assert FaceAt(es, fs, g);
    }
    SewMapOk(vs, es, fs, m, a);
  }

  lemma SewVerticesOk(vs: Vertices, es: Edges, fs: Faces, m: EdgeMap, a: nat)
    requires Wf(vs, es, fs, m) && SewShape(es, m, a) && SewNeighbourhood(vs, es, fs, m, a)
    ensures VerticesOk(SewVertices(vs, es, a), SewEdges(es, a))
  {
    var vs2, es2 := SewVertices(vs, es, a), SewEdges(es, a);
    var x := es[a].value;
    var b := x.prev.value;
    forall v: nat | IsLive(vs2, v) ensures VertexEdgeAt(vs2, es2, v) && RingAt(vs2, v) {
      assert IsLive(vs, v) && VertexEdgeAt(vs, es, v) && RingAt(vs, v);
      var w := vs[v].value;
      assert IsLive(vs, w.colocalNext) && IsLive(vs, w.colocalPrev);
      if w.edge.Some? {
        assert IsLive(es, w.edge.value);
      }
    }
  }

  lemma SewEdgeOk(vs: Vertices, es: Edges, fs: Faces, m: EdgeMap, a: nat, d: nat)
    requires Wf(vs, es, fs, m) && SewShape(es, m, a) && SewNeighbourhood(vs, es, fs, m, a)
    requires IsLive(SewEdges(es, a), d)
    ensures var vs2, es2, m2 := SewVertices(vs, es, a), SewEdges(es, a), SewMap(es, m, a);
      EndsAt(vs2, es2, fs, d) && PairAt(es2, d) && LinksAt(es2, d) && RegAt(es2, m2, d)
  {
    assert IsLive(es, d) && EndsAt(vs, es, fs, d) && PairAt(es, d) && LinksAt(es, d) && RegAt(es, m, d);
    assert IsLive(es, a) && EndsAt(vs, es, fs, a);
    SewPairOk(vs, es, fs, m, a, d);
    SewLinksOk(vs, es, fs, m, a, d);
    SewRegOk(vs, es, fs, m, a, d);
  }

  lemma SewPairOk(vs: Vertices, es: Edges, fs: Faces, m: EdgeMap, a: nat, d: nat)
    requires Wf(vs, es, fs, m) && SewShape(es, m, a) && SewNeighbourhood(vs, es, fs, m, a)
    requires IsLive(SewEdges(es, a), d)
    ensures PairAt(SewEdges(es, a), d)
  {
    var es2 := SewEdges(es, a);
    var x := es[a].value;
    var b := x.prev.value;
    var pa, pb := x.pair.value, es[b].value.pair.value;
    assert IsLive(es, d) && PairAt(es, d);
    var z := es[d].value;
    if d != pa && d != pb && z.pair.Some? {
      var q := z.pair.value;
      assert IsLive(es, q) && PairAt(es, q);
    }
  }

  lemma SewLinksOk(vs: Vertices, es: Edges, fs: Faces, m: EdgeMap, a: nat, d: nat)
    requires Wf(vs, es, fs, m) && SewShape(es, m, a) && SewNeighbourhood(vs, es, fs, m, a)
    requires IsLive(SewEdges(es, a), d)
    ensures LinksAt(SewEdges(es, a), d)
  {
    var es2 := SewEdges(es, a);
    var x := es[a].value;
    var b := x.prev.value;
    var y := es[b].value;
    assert IsLive(es, d) && LinksAt(es, d);
    var z := es[d].value;
    var z2 := es2[d].value;
    if z2.next.Some? {
      var q := z2.next.value;
      if z.next == Some(b) {
        assert d == y.prev.value;
        assert IsLive(es, q) && LinksAt(es, q);
      } else {
        assert z.next == Some(q);
        assert IsLive(es, q) && LinksAt(es, q);
      }
    }
    if z2.prev.Some? {
      var q := z2.prev.value;
      if z.prev == Some(a) {
        assert d == x.next.value;
        assert IsLive(es, q) && LinksAt(es, q);
      } else {
        assert z.prev == Some(q);
        assert IsLive(es, q) && LinksAt(es, q);
      }
    }
  }

  lemma SewRegOk(vs: Vertices, es: Edges, fs: Faces, m: EdgeMap, a: nat, d: nat)
    requires Wf(vs, es, fs, m) && SewShape(es, m, a) && SewNeighbourhood(vs, es, fs, m, a)
    requires IsLive(SewEdges(es, a), d)
    ensures RegAt(SewEdges(es, a), SewMap(es, m, a), d)
  {
    var es2, m2 := SewEdges(es, a), SewMap(es, m, a);
    var x := es[a].value;
    var b := x.prev.value;
    var pb := es[b].value.pair.value;
    assert IsLive(es, d) && RegAt(es, m, d);
    var z := es[d].value;
    var k := KeyOf(z);
    if k in m {
      assert Has(es, m[k]);
    }
    if Reverse(k) in m {
      assert Has(es, m[Reverse(k)]);
    }
    if Connected(es2[d].value) {
      assert Connected(z);
    }
  }

  lemma SewMapOk(vs: Vertices, es: Edges, fs: Faces, m: EdgeMap, a: nat)
    requires Wf(vs, es, fs, m) && SewShape(es, m, a) && SewNeighbourhood(vs, es, fs, m, a)
    ensures MapOk(SewEdges(es, a), SewMap(es, m, a))
  {
    var es2, m2 := SewEdges(es, a), SewMap(es, m, a);
    forall k | k in m2 ensures Has(es2, m2[k]) && KeyOf(es2[m2[k]].value) == k {
      if k in m && k != KeyOf(es[a].value) {
        assert Has(es, m[k]) && KeyOf(es[m[k]].value) == k;
      }
    }
  }

  /** Every live half-edge of `es2` was live in `es` with the same origin and face,
      and every face half-edge of `es` is still live: only boundary half-edges go. */
  ghost predicate KeepsFaceEdges(es: Edges, es2: Edges)
  {
    |es2| == |es| &&
    (forall d: nat | IsLive(es2, d) ::
       IsLive(es, d) && es2[d].value.origin == es[d].value.origin && es2[d].value.face == es[d].value.face) &&
    (forall d: nat | IsLive(es, d) && es[d].value.face.Some? :: IsLive(es2, d))
  }

  lemma KeepsFaceEdgesTransitive(es0: Edges, es1: Edges, es2: Edges)
    requires KeepsFaceEdges(es0, es1) && KeepsFaceEdges(es1, es2)
    ensures KeepsFaceEdges(es0, es2)
  {
    forall d: nat | IsLive(es2, d)
      ensures IsLive(es0, d) && es2[d].value.origin == es0[d].value.origin && es2[d].value.face == es0[d].value.face
    {
      assert IsLive(es1, d);
    }
    forall d: nat | IsLive(es0, d) && es0[d].value.face.Some? ensures IsLive(es2, d) {
      assert IsLive(es1, d);
    }
  }

  /** What one sewing step does: the twins of `a` and `b` are each other's pair, the
      twin of `b` ends where `a` ended, `a` and `b` are freed, no face half-edge goes,
      every other boundary half-edge stays on the boundary, and fewer slots are live. */
  lemma SewEffect(vs: Vertices, es: Edges, fs: Faces, m: EdgeMap, a: nat)
    requires Wf(vs, es, fs, m) && SewShape(es, m, a)
    ensures var x := es[a].value;
      var b := x.prev.value;
      var pa, pb := x.pair.value, es[b].value.pair.value;
      var es2, m2 := SewEdges(es, a), SewMap(es, m, a);
      Has(es2, pa) && Has(es2, pb) &&
      es2[pa].value.pair == Some(pb) && es2[pb].value.pair == Some(pa) &&
      es2[pb].value.to == x.to && es2[pb].value.origin == x.origin &&
      es2[a].None? && es2[b].None? &&
      KeepsFaceEdges(es, es2) &&
      (forall d: nat | IsBoundary(es, m, d) && d != a && d != b :: IsBoundary(es2, m2, d)) &&
      |Squeeze(es2)| < |Squeeze(es)|
  {
    SewNeighbourhoodHolds(vs, es, fs, m, a);
    var x := es[a].value;
    var b := x.prev.value;
    var pb := es[b].value.pair.value;
    var es2, m2 := SewEdges(es, a), SewMap(es, m, a);
    assert IsLive(es, b) && PairAt(es, b);
    forall d: nat | IsBoundary(es, m, d) && d != a && d != b ensures IsBoundary(es2, m2, d) {
      if d != pb {
        assert KeyOf(es[d].value) != KeyOf(es[b].value) && KeyOf(es[d].value) != KeyOf(es[pb].value);
      }
    }
    SqueezeShrinks(es, es2, a);
  }

  /** Freeing a live slot, and nothing else, leaves fewer live slots. */
  lemma SqueezeShrinks<T>(s: seq<Option<T>>, t: seq<Option<T>>, a: nat)
    requires |s| == |t| && forall i | 0 <= i < |s| :: t[i].Some? ==> s[i].Some?
    requires IsLive(s, a) && t[a].None?
    ensures |Squeeze(t)| < |Squeeze(s)|
  {
    RankShrinks(s, t, a, |s|);
    assert s[..|s|] == s && t[..|t|] == t;
  }

  lemma {:induction false} RankShrinks<T>(s: seq<Option<T>>, t: seq<Option<T>>, a: nat, j: nat)
    requires |s| == |t| && forall i | 0 <= i < |s| :: t[i].Some? ==> s[i].Some?
    requires IsLive(s, a) && t[a].None? && j <= |s|
    ensures Rank(t, j) <= Rank(s, j) && (a < j ==> Rank(t, j) < Rank(s, j))
    decreases j
  {
    if j > 0 {
      RankShrinks(s, t, a, j - 1);
      RankStep(s, j - 1);
      RankStep(t, j - 1);
    }
  }
}
