/** Value-level kernels of `compactVertices`, `compactEdges` and `compactFaces`:
    the live slots of an array are packed in their original order, slot `i`
    moves to `Rank(s, i)` (the number of live slots before it), and every
    reference to an entity of that kind is rewritten through the table `Ids(s)`. */
module MeshCompaction {
  import opened MeshTypes
  import opened MeshInvariants

  // ---------------------------------------------------------------- packing

  /** The live slots of `s`, in order. */
  function Squeeze<T>(s: seq<Option<T>>): (r: seq<Option<T>>)
    ensures |r| <= |s|
    ensures forall j | 0 <= j < |r| :: r[j].Some?
  {
    if |s| == 0 then [] else Squeeze(s[..|s| - 1]) + (if s[|s| - 1].Some? then [s[|s| - 1]] else [])
  }

  /** The new id of slot `i`: the number of live slots before it. */
  function Rank<T>(s: seq<Option<T>>, i: nat): nat
    requires i <= |s|
  {
    |Squeeze(s[..i])|
  }

  /** The old-id to new-id table. */
  function Ids<T>(s: seq<Option<T>>): (r: seq<nat>)
    ensures |r| == |s|
    ensures forall i | 0 <= i < |s| :: r[i] == Rank(s, i)
  {
    seq(|s|, i requires 0 <= i < |s| => Rank(s, i))
  }

  /** A reference rewritten through the table; one outside it is kept. */
  function Renumber(id: seq<nat>, j: nat): nat
  {
    if j < |id| then id[j] else j
  }

  function RenumberOpt(id: seq<nat>, o: Option<nat>): Option<nat>
  {
    match o
    case None => None
    case Some(j) => Some(Renumber(id, j))
  }

  lemma RankStep<T>(s: seq<Option<T>>, i: nat)
    requires i < |s|
    ensures Squeeze(s[..i + 1]) == Squeeze(s[..i]) + (if s[i].Some? then [s[i]] else [])
    ensures Rank(s, i + 1) == Rank(s, i) + (if s[i].Some? then 1 else 0)
  {
    assert s[..i + 1][..i] == s[..i];
  }

  lemma {:induction false} RankMonotone<T>(s: seq<Option<T>>, i: nat, j: nat)
    requires i <= j <= |s|
    ensures Rank(s, i) <= Rank(s, j)
    decreases j - i
  {
    if i < j {
      RankStep(s, i);
      RankMonotone(s, i + 1, j);
    }
  }

  lemma RankBound<T>(s: seq<Option<T>>, j: nat)
    requires j <= |s|
    ensures Rank(s, j) <= |Squeeze(s)|
  {
    assert s[..|s|] == s;
    RankMonotone(s, j, |s|);
  }

  /** Packing keeps the relative order of the live slots (so distinct live slots
      get distinct ids), and every live slot lands at its rank. */
  lemma RankOrder<T>(s: seq<Option<T>>, i: nat, j: nat)
    requires IsLive(s, i) && IsLive(s, j) && i < j
    ensures Rank(s, i) < Rank(s, j)
  {
    RankStep(s, i);
    RankMonotone(s, i + 1, j);
  }

  lemma {:induction false} SqueezeAt<T>(s: seq<Option<T>>, i: nat)
    requires IsLive(s, i)
    ensures Rank(s, i) < |Squeeze(s)| && Squeeze(s)[Rank(s, i)] == s[i]
    decreases |s|
  {
    var n := |s| - 1;
    assert s[..n + 1] == s;
    RankStep(s, n);
    if i < n {
      var t := s[..n];
      assert t[..i] == s[..i];
      SqueezeAt(t, i);
    }
  }

  /** Every packed slot comes from a live slot. */
  lemma {:induction false} Preimage<T>(s: seq<Option<T>>, j: nat) returns (i: nat)
    requires j < |Squeeze(s)|
    ensures IsLive(s, i) && Rank(s, i) == j
    decreases |s|
  {
    var n := |s| - 1;
    var t := s[..n];
    assert s[..n + 1] == s;
    RankStep(s, n);
    if j < |Squeeze(t)| {
      i := Preimage(t, j);
      assert t[..i] == s[..i];
    } else {
      i := n;
    }
  }

  /** Live slots with the same rank are the same slot. */
  lemma RankInjective<T>(s: seq<Option<T>>, i: nat, j: nat)
    requires IsLive(s, i) && IsLive(s, j) && Rank(s, i) == Rank(s, j)
    ensures i == j
  {
    if i < j {
      RankOrder(s, i, j);
    } else if j < i {
      RankOrder(s, j, i);
    }
  }

  /** An array without holes is its own packing and its table is the identity. */
  lemma {:induction false} NoHoles<T>(s: seq<Option<T>>)
    requires forall i | 0 <= i < |s| :: s[i].Some?
    ensures Squeeze(s) == s
    ensures forall i | 0 <= i < |s| :: Ids(s)[i] == i
    decreases |s|
  {
    if |s| > 0 {
      var n := |s| - 1;
      var t := s[..n];
      NoHoles(t);
      assert s[..n + 1] == s;
      RankStep(s, n);
      assert Squeeze(s) == t + [s[n]] == s;
      forall i | 0 <= i < |s| ensures Ids(s)[i] == i {
        if i < n {
          assert t[..i] == s[..i];
          assert Ids(t)[i] == i;
        } else {
          assert s[..i] == t;
        }
      }
    }
  }

  lemma RenumberIdentity(id: seq<nat>, j: nat)
    requires forall i | 0 <= i < |id| :: id[i] == i
    ensures Renumber(id, j) == j
  {
  }

  // ---------------------------------------------------------------- faces

  function EdgeFaceAt(es: Edges, id: seq<nat>, d: nat): Option<Edge>
    requires d < |es|
  {
    match es[d]
    case None => None
    case Some(x) => Some(x.(face := RenumberOpt(id, x.face)))
  }

  /** The half-edges with their faces renumbered. */
  function EdgeFaces(es: Edges, id: seq<nat>): (r: Edges)
    ensures |r| == |es|
    ensures forall d | 0 <= d < |es| :: r[d] == EdgeFaceAt(es, id, d)
  {
    seq(|es|, d requires 0 <= d < |es| => EdgeFaceAt(es, id, d))
  }

  /** `compactFaces` keeps the structural invariant. */
  lemma CompactFacesWf(vs: Vertices, es: Edges, fs: Faces, m: EdgeMap)
    requires Wf(vs, es, fs, m)
    ensures Wf(vs, EdgeFaces(es, Ids(fs)), Squeeze(fs), m)
  {
    var id := Ids(fs);
    var es2, fs2 := EdgeFaces(es, id), Squeeze(fs);
    forall v: nat | IsLive(vs, v) ensures VertexEdgeAt(vs, es2, v) && RingAt(vs, v) {
      assert VertexEdgeAt(vs, es, v) && RingAt(vs, v);
    }
    forall d: nat | IsLive(es2, d)
      ensures EndsAt(vs, es2, fs2, d) && PairAt(es2, d) && LinksAt(es2, d) && RegAt(es2, m, d)
    {
      assert IsLive(es, d) && EndsAt(vs, es, fs, d) && PairAt(es, d) && LinksAt(es, d) && RegAt(es, m, d);
      var x := es[d].value;
      if x.face.Some? {
        SqueezeAt(fs, x.face.value);
      }
      if x.pair.Some? {
        assert IsLive(es, x.pair.value);
      }
      if x.next.Some? {
        assert IsLive(es, x.next.value);
      }
      if x.prev.Some? {
        assert IsLive(es, x.prev.value);
      }
      if Reverse(KeyOf(x)) in m {
        assert KeyOf(es[m[Reverse(KeyOf(x))]].value) == Reverse(KeyOf(x));
      }
    }
    forall g: nat | IsLive(fs2, g) ensures FaceAt(es2, fs2, g) {
      var f := Preimage(fs, g);
      assert IsLive(fs, f) && FaceAt(es, fs, f);
      SqueezeAt(fs, f);
    }
    forall k | k in m ensures Has(es2, m[k]) && KeyOf(es2[m[k]].value) == k {
      assert KeyOf(es[m[k]].value) == k;
    }
  }

  /** Compacting the faces of a compacted mesh changes nothing. */
  lemma CompactFacesIdempotent(es: Edges, fs: Faces)
    ensures var es1, fs1 := EdgeFaces(es, Ids(fs)), Squeeze(fs);
      Squeeze(fs1) == fs1 && EdgeFaces(es1, Ids(fs1)) == es1
  {
    var es1, fs1 := EdgeFaces(es, Ids(fs)), Squeeze(fs);
    NoHoles(fs1);
    forall d | 0 <= d < |es1| ensures EdgeFaceAt(es1, Ids(fs1), d) == es1[d] {
      if es1[d].Some? && es1[d].value.face.Some? {
        RenumberIdentity(Ids(fs1), es1[d].value.face.value);
      }
    }
  }

  // ---------------------------------------------------------------- edges

  function VertexEdgeRefAt(vs: Vertices, id: seq<nat>, v: nat): Option<Vertex>
    requires v < |vs|
  {
    match vs[v]
    case None => None
    case Some(x) => Some(x.(edge := RenumberOpt(id, x.edge)))
  }

  /** The vertices with their incident half-edges renumbered. */
  function VertexEdgeRefs(vs: Vertices, id: seq<nat>): (r: Vertices)
    ensures |r| == |vs|
    ensures forall v | 0 <= v < |vs| :: r[v] == VertexEdgeRefAt(vs, id, v)
  {
    seq(|vs|, v requires 0 <= v < |vs| => VertexEdgeRefAt(vs, id, v))
  }

  function EdgeLinkAt(es: Edges, id: seq<nat>, d: nat): Option<Edge>
    requires d < |es|
  {
    match es[d]
    case None => None
    case Some(x) =>
      Some(x.(pair := RenumberOpt(id, x.pair), next := RenumberOpt(id, x.next), prev := RenumberOpt(id, x.prev)))
  }

  /** The half-edges with their pair and neighbours renumbered. */
  function EdgeLinks(es: Edges, id: seq<nat>): (r: Edges)
    ensures |r| == |es|
    ensures forall d | 0 <= d < |es| :: r[d] == EdgeLinkAt(es, id, d)
  {
    seq(|es|, d requires 0 <= d < |es| => EdgeLinkAt(es, id, d))
  }

  function FaceEdgeAt(fs: Faces, id: seq<nat>, f: nat): Option<Face>
    requires f < |fs|
  {
    match fs[f]
    case None => None
    case Some(x) => Some(Face(RenumberOpt(id, x.edge)))
  }

  /** The faces with their half-edges renumbered. */
  function FaceEdges(fs: Faces, id: seq<nat>): (r: Faces)
    ensures |r| == |fs|
    ensures forall f | 0 <= f < |fs| :: r[f] == FaceEdgeAt(fs, id, f)
  {
    seq(|fs|, f requires 0 <= f < |fs| => FaceEdgeAt(fs, id, f))
  }

  /** The edge lookup with its half-edges renumbered. */
  function MapEdges(m: EdgeMap, id: seq<nat>): (r: EdgeMap)
    ensures r.Keys == m.Keys
    ensures forall k | k in m :: r[k] == Renumber(id, m[k])
  {
    map k | k in m :: Renumber(id, m[k])
  }

  /** `compactEdges` keeps the structural invariant. */
  lemma CompactEdgesWf(vs: Vertices, es: Edges, fs: Faces, m: EdgeMap)
    requires Wf(vs, es, fs, m)
    ensures var id := Ids(es);
      Wf(VertexEdgeRefs(vs, id), EdgeLinks(Squeeze(es), id), FaceEdges(fs, id), MapEdges(m, id))
  {
    var id := Ids(es);
    var vs2, es2, fs2, m2 := VertexEdgeRefs(vs, id), EdgeLinks(Squeeze(es), id), FaceEdges(fs, id), MapEdges(m, id);
    forall v: nat | IsLive(vs2, v) ensures VertexEdgeAt(vs2, es2, v) && RingAt(vs2, v) {
      assert IsLive(vs, v) && VertexEdgeAt(vs, es, v) && RingAt(vs, v);
      var x := vs[v].value;
      assert IsLive(vs, x.colocalNext) && IsLive(vs, x.colocalPrev);
      if x.edge.Some? {
        SqueezeAt(es, x.edge.value);
      }
    }
    forall j: nat | IsLive(es2, j)
      ensures EndsAt(vs2, es2, fs2, j) && PairAt(es2, j) && LinksAt(es2, j) && RegAt(es2, m2, j)
    {
      var i := Preimage(es, j);
      SqueezeAt(es, i);
      CompactEdgeAt(vs, es, fs, m, i);
    }
    forall g: nat | IsLive(fs2, g) ensures FaceAt(es2, fs2, g) {
      assert IsLive(fs, g) && FaceAt(es, fs, g);
      if fs[g].value.edge.Some? {
        SqueezeAt(es, fs[g].value.edge.value);
      }
    }
    forall k | k in m2 ensures Has(es2, m2[k]) && KeyOf(es2[m2[k]].value) == k {
      assert KeyOf(es[m[k]].value) == k;
      SqueezeAt(es, m[k]);
    }
  }

  /** One half-edge of `compactEdges`: live slot `i` moves to its rank with its
      references renumbered, and keeps its local invariant there. */
  lemma CompactEdgeAt(vs: Vertices, es: Edges, fs: Faces, m: EdgeMap, i: nat)
    requires Wf(vs, es, fs, m) && IsLive(es, i)
    ensures var id := Ids(es);
      var vs2, es2, fs2, m2 := VertexEdgeRefs(vs, id), EdgeLinks(Squeeze(es), id), FaceEdges(fs, id), MapEdges(m, id);
      Rank(es, i) < |es2| && es2[Rank(es, i)].Some? &&
      EndsAt(vs2, es2, fs2, Rank(es, i)) && PairAt(es2, Rank(es, i)) &&
      LinksAt(es2, Rank(es, i)) && RegAt(es2, m2, Rank(es, i))
  {
    var id := Ids(es);
    var vs2, es2, fs2, m2 := VertexEdgeRefs(vs, id), EdgeLinks(Squeeze(es), id), FaceEdges(fs, id), MapEdges(m, id);
    SqueezeAt(es, i);
    var j := Rank(es, i);
    assert IsLive(es, i) && EndsAt(vs, es, fs, i) && PairAt(es, i) && LinksAt(es, i) && RegAt(es, m, i);
    var x := es[i].value;
    assert es2[j] == Some(x.(pair := RenumberOpt(id, x.pair), next := RenumberOpt(id, x.next), prev := RenumberOpt(id, x.prev)));
    if x.pair.Some? {
      SqueezeAt(es, x.pair.value);
    }
    if x.next.Some? {
      SqueezeAt(es, x.next.value);
    }
    if x.prev.Some? {
      SqueezeAt(es, x.prev.value);
    }
    var k := KeyOf(x);
    if k in m {
      assert Has(es, m[k]);
      if m2[k] == j {
        RankInjective(es, m[k], i);
      }
    }
    if Registered(es, m, i) && Reverse(k) in m {
      assert Has(es, m[Reverse(k)]);
    }
  }

  /** Renumbering through the identity table changes nothing. */
  lemma EdgeRefsIdentity(vs: Vertices, es: Edges, fs: Faces, m: EdgeMap, id: seq<nat>)
    requires forall i | 0 <= i < |id| :: id[i] == i
    ensures VertexEdgeRefs(vs, id) == vs && EdgeLinks(es, id) == es
    ensures FaceEdges(fs, id) == fs && MapEdges(m, id) == m
  {
    forall v | 0 <= v < |vs| ensures VertexEdgeRefAt(vs, id, v) == vs[v] {
      if vs[v].Some? && vs[v].value.edge.Some? {
        RenumberIdentity(id, vs[v].value.edge.value);
      }
    }
    forall d | 0 <= d < |es| ensures EdgeLinkAt(es, id, d) == es[d] {
      if es[d].Some? {
        var x := es[d].value;
        if x.pair.Some? {
          RenumberIdentity(id, x.pair.value);
        }
        if x.next.Some? {
          RenumberIdentity(id, x.next.value);
        }
        if x.prev.Some? {
          RenumberIdentity(id, x.prev.value);
        }
      }
    }
    forall f | 0 <= f < |fs| ensures FaceEdgeAt(fs, id, f) == fs[f] {
      if fs[f].Some? && fs[f].value.edge.Some? {
        RenumberIdentity(id, fs[f].value.edge.value);
      }
    }
    forall k | k in m ensures Renumber(id, m[k]) == m[k] {
      RenumberIdentity(id, m[k]);
    }
  }

  /** Compacting the half-edges of a compacted mesh changes nothing. */
  lemma CompactEdgesIdempotent(vs: Vertices, es: Edges, fs: Faces, m: EdgeMap)
    ensures var id := Ids(es);
      var vs1, es1, fs1, m1 := VertexEdgeRefs(vs, id), EdgeLinks(Squeeze(es), id), FaceEdges(fs, id), MapEdges(m, id);
      var id1 := Ids(es1);
      VertexEdgeRefs(vs1, id1) == vs1 && EdgeLinks(Squeeze(es1), id1) == es1 &&
      FaceEdges(fs1, id1) == fs1 && MapEdges(m1, id1) == m1
  {
    var id := Ids(es);
    var vs1, es1, fs1, m1 := VertexEdgeRefs(vs, id), EdgeLinks(Squeeze(es), id), FaceEdges(fs, id), MapEdges(m, id);
    NoHoles(es1);
    EdgeRefsIdentity(vs1, es1, fs1, m1, Ids(es1));
  }

  // ---------------------------------------------------------------- vertices

  function VertexRingAt(vs: Vertices, id: seq<nat>, v: nat): Option<Vertex>
    requires v < |vs|
  {
    match vs[v]
    case None => None
    case Some(x) => Some(x.(colocalNext := Renumber(id, x.colocalNext), colocalPrev := Renumber(id, x.colocalPrev)))
  }

  /** The vertices with their colocal links renumbered. */
  function VertexRings(vs: Vertices, id: seq<nat>): (r: Vertices)
    ensures |r| == |vs|
    ensures forall v | 0 <= v < |vs| :: r[v] == VertexRingAt(vs, id, v)
  {
    seq(|vs|, v requires 0 <= v < |vs| => VertexRingAt(vs, id, v))
  }

  function EdgeEndAt(es: Edges, id: seq<nat>, d: nat): Option<Edge>
    requires d < |es|
  {
    match es[d]
    case None => None
    case Some(x) => Some(x.(origin := Renumber(id, x.origin), to := Renumber(id, x.to)))
  }

  /** The half-edges with their end vertices renumbered. */
  function EdgeEnds(es: Edges, id: seq<nat>): (r: Edges)
    ensures |r| == |es|
    ensures forall d | 0 <= d < |es| :: r[d] == EdgeEndAt(es, id, d)
  {
    seq(|es|, d requires 0 <= d < |es| => EdgeEndAt(es, id, d))
  }

  function RenumberKey(id: seq<nat>, k: Key): Key
  {
    Key(Renumber(id, k.p0), Renumber(id, k.p1))
  }

  /** Renumbering keeps the keys of the lookup apart. */
  ghost predicate KeysApart(m: EdgeMap, id: seq<nat>)
  {
    forall k1, k2 | k1 in m && k2 in m && RenumberKey(id, k1) == RenumberKey(id, k2) :: k1 == k2
  }

  /** The edge lookup with its keys renumbered. */
  function MapKeys(m: EdgeMap, id: seq<nat>): (r: EdgeMap)
    requires KeysApart(m, id)
    ensures forall k | k in m :: RenumberKey(id, k) in r && r[RenumberKey(id, k)] == m[k]
    ensures forall k | k in r :: exists k0 | k0 in m :: RenumberKey(id, k0) == k
  {
    map k | k in m :: RenumberKey(id, k) := m[k]
  }

  /** Both ends of every key of the lookup are live vertices. */
  ghost predicate KeysLive(vs: Vertices, m: EdgeMap)
  {
    forall k | k in m :: IsLive(vs, k.p0) && IsLive(vs, k.p1)
  }

  lemma MapKeysLive(vs: Vertices, es: Edges, fs: Faces, m: EdgeMap)
    requires Wf(vs, es, fs, m)
    ensures KeysLive(vs, m) && KeysApart(m, Ids(vs))
  {
    forall k | k in m ensures IsLive(vs, k.p0) && IsLive(vs, k.p1) {
      assert IsLive(es, m[k]) && EndsAt(vs, es, fs, m[k]);
    }
    forall k1, k2 | k1 in m && k2 in m && RenumberKey(Ids(vs), k1) == RenumberKey(Ids(vs), k2)
      ensures k1 == k2
    {
      RankInjective(vs, k1.p0, k2.p0);
      RankInjective(vs, k1.p1, k2.p1);
    }
  }

  /** A key with live ends is in the renumbered lookup exactly when it was in the
      lookup, with the same half-edge. */
  lemma KeyRenumbered(vs: Vertices, m: EdgeMap, k: Key)
    requires KeysLive(vs, m) && KeysApart(m, Ids(vs)) && IsLive(vs, k.p0) && IsLive(vs, k.p1)
    ensures RenumberKey(Ids(vs), k) in MapKeys(m, Ids(vs)) <==> k in m
    ensures k in m ==> MapKeys(m, Ids(vs))[RenumberKey(Ids(vs), k)] == m[k]
  {
    var id := Ids(vs);
    if RenumberKey(id, k) in MapKeys(m, id) {
      var k0 :| k0 in m && RenumberKey(id, k0) == RenumberKey(id, k);
      RankInjective(vs, k0.p0, k.p0);
      RankInjective(vs, k0.p1, k.p1);
    }
  }

  /** One half-edge of `compactVertices`: with its ends renumbered it keeps its
      local invariant. */
  lemma CompactVertexEdgeAt(vs: Vertices, es: Edges, fs: Faces, m: EdgeMap, d: nat)
    requires Wf(vs, es, fs, m) && IsLive(es, d) && KeysApart(m, Ids(vs)) && KeysLive(vs, m)
    ensures var id := Ids(vs);
      var vs2, es2, m2 := VertexRings(Squeeze(vs), id), EdgeEnds(es, id), MapKeys(m, id);
      EndsAt(vs2, es2, fs, d) && PairAt(es2, d) && LinksAt(es2, d) && RegAt(es2, m2, d)
  {
    var id := Ids(vs);
    var vs2, es2, m2 := VertexRings(Squeeze(vs), id), EdgeEnds(es, id), MapKeys(m, id);
    assert IsLive(es, d) && EndsAt(vs, es, fs, d) && PairAt(es, d) && LinksAt(es, d) && RegAt(es, m, d);
    var x := es[d].value;
    SqueezeAt(vs, x.origin);
    SqueezeAt(vs, x.to);
    if Rank(vs, x.origin) == Rank(vs, x.to) {
      RankInjective(vs, x.origin, x.to);
    }
    if x.pair.Some? {
      assert IsLive(es, x.pair.value);
    }
    if x.next.Some? {
      assert IsLive(es, x.next.value);
    }
    if x.prev.Some? {
      assert IsLive(es, x.prev.value);
    }
    assert KeyOf(es2[d].value) == RenumberKey(id, KeyOf(x));
    assert Reverse(KeyOf(es2[d].value)) == RenumberKey(id, Reverse(KeyOf(x)));
    KeyRenumbered(vs, m, KeyOf(x));
    KeyRenumbered(vs, m, Reverse(KeyOf(x)));
  }

  /** `compactVertices` keeps the structural invariant. */
  lemma CompactVerticesWf(vs: Vertices, es: Edges, fs: Faces, m: EdgeMap)
    requires Wf(vs, es, fs, m)
    ensures KeysApart(m, Ids(vs))
    ensures var id := Ids(vs);
      Wf(VertexRings(Squeeze(vs), id), EdgeEnds(es, id), fs, MapKeys(m, id))
  {
    MapKeysLive(vs, es, fs, m);
    var id := Ids(vs);
    var vs2, es2, m2 := VertexRings(Squeeze(vs), id), EdgeEnds(es, id), MapKeys(m, id);
    forall j: nat | IsLive(vs2, j) ensures VertexEdgeAt(vs2, es2, j) && RingAt(vs2, j) {
      var v := Preimage(vs, j);
      SqueezeAt(vs, v);
      assert IsLive(vs, v) && VertexEdgeAt(vs, es, v) && RingAt(vs, v);
      var x := vs[v].value;
      SqueezeAt(vs, x.colocalNext);
      SqueezeAt(vs, x.colocalPrev);
    }
    forall d: nat | IsLive(es2, d)
      ensures EndsAt(vs2, es2, fs, d) && PairAt(es2, d) && LinksAt(es2, d) && RegAt(es2, m2, d)
    {
      CompactVertexEdgeAt(vs, es, fs, m, d);
    }
    forall g: nat | IsLive(fs, g) ensures FaceAt(es2, fs, g) {
      assert FaceAt(es, fs, g);
    }
    forall k | k in m2 ensures Has(es2, m2[k]) && KeyOf(es2[m2[k]].value) == k {
      var k0 :| k0 in m && RenumberKey(id, k0) == k;
      assert KeyOf(es[m[k0]].value) == k0;
    }
  }

  /** Renumbering vertices through the identity table changes nothing. */
  lemma VertexRefsIdentity(vs: Vertices, es: Edges, m: EdgeMap, id: seq<nat>)
    requires forall i | 0 <= i < |id| :: id[i] == i
    ensures VertexRings(vs, id) == vs && EdgeEnds(es, id) == es
    ensures KeysApart(m, id) && MapKeys(m, id) == m
  {
    forall v | 0 <= v < |vs| ensures VertexRingAt(vs, id, v) == vs[v] {
      if vs[v].Some? {
        RenumberIdentity(id, vs[v].value.colocalNext);
        RenumberIdentity(id, vs[v].value.colocalPrev);
      }
    }
    forall d | 0 <= d < |es| ensures EdgeEndAt(es, id, d) == es[d] {
      if es[d].Some? {
        RenumberIdentity(id, es[d].value.origin);
        RenumberIdentity(id, es[d].value.to);
      }
    }
    forall k ensures RenumberKey(id, k) == k {
      RenumberIdentity(id, k.p0);
      RenumberIdentity(id, k.p1);
    }
    var r := MapKeys(m, id);
    forall k | k in r ensures k in m {
      var k0 :| k0 in m && RenumberKey(id, k0) == k;
    }
  }

  /** Compacting the vertices of a compacted mesh changes nothing. */
  lemma CompactVerticesIdempotent(vs: Vertices, es: Edges, fs: Faces, m: EdgeMap)
    requires Wf(vs, es, fs, m)
    ensures KeysApart(m, Ids(vs))
    ensures var id := Ids(vs);
      var vs1, es1, m1 := VertexRings(Squeeze(vs), id), EdgeEnds(es, id), MapKeys(m, id);
      var id1 := Ids(vs1);
      KeysApart(m1, id1) &&
      VertexRings(Squeeze(vs1), id1) == vs1 && EdgeEnds(es1, id1) == es1 && MapKeys(m1, id1) == m1
  {
    MapKeysLive(vs, es, fs, m);
    var id := Ids(vs);
    var vs1, es1, m1 := VertexRings(Squeeze(vs), id), EdgeEnds(es, id), MapKeys(m, id);
    NoHoles(vs1);
    VertexRefsIdentity(vs1, es1, m1, Ids(vs1));
  }
}
