/** Value-level kernels of the mesh's link surgery, each with the lemma that
    it keeps the structural invariant. The Mesh methods perform the same updates
    in place and rely on these lemmas. */
module MeshUpdates {
  import opened MeshTypes
  import opened MeshInvariants

  /** Changing only links keeps every conjunct of the invariant that does not mention them. */
  lemma SameCoreFrame(vs: Vertices, es: Edges, es2: Edges, fs: Faces, m: EdgeMap)
    requires Wf(vs, es, fs, m) && SameCore(es, es2)
    ensures VerticesOk(vs, es2) && FacesOk(es2, fs) && MapOk(es2, m)
    ensures forall e: nat | IsLive(es2, e) ::
              EndsAt(vs, es2, fs, e) && PairAt(es2, e) && Registered(es2, m, e) == Registered(es, m, e) &&
              (Registered(es2, m, e) && Reverse(KeyOf(es2[e].value)) in m ==>
                 es2[e].value.pair == Some(m[Reverse(KeyOf(es2[e].value))]))
  {
    forall v: nat | IsLive(vs, v) ensures VertexEdgeAt(vs, es2, v) && RingAt(vs, v) {
      assert VertexEdgeAt(vs, es, v);
    }
    forall f: nat | IsLive(fs, f) ensures FaceAt(es2, fs, f) {
      assert FaceAt(es, fs, f);
    }
    forall e: nat | IsLive(es2, e)
      ensures EndsAt(vs, es2, fs, e) && PairAt(es2, e) && Registered(es2, m, e) == Registered(es, m, e) &&
              (Registered(es2, m, e) && Reverse(KeyOf(es2[e].value)) in m ==>
                 es2[e].value.pair == Some(m[Reverse(KeyOf(es2[e].value))]))
    {
      assert IsLive(es, e);
      assert EndsAt(vs, es, fs, e) && PairAt(es, e) && RegAt(es, m, e);
    }
  }

  /** Slot `d` after every `next`/`prev` link to `e` is cleared, and `e`'s own. */
  function CutAt(es: Edges, e: nat, d: nat): Option<Edge>
    requires d < |es|
  {
    match es[d]
    case None => None
    case Some(y) =>
      if d == e then Some(y.(next := None, prev := None))
      else Some(y.(next := if y.next == Some(e) then None else y.next,
                   prev := if y.prev == Some(e) then None else y.prev))
  }

  /** Half-edge `e` cut out of its cycle: neither it nor anything else links to it. */
  function CutLinks(es: Edges, e: nat): (r: Edges)
    ensures |r| == |es|
    ensures forall d: nat | d < |es| :: r[d] == CutAt(es, e, d)
  {
    seq(|es|, d requires 0 <= d < |es| => CutAt(es, e, d))
  }

  lemma CutLinksWf(vs: Vertices, es: Edges, fs: Faces, m: EdgeMap, e: nat)
    requires Wf(vs, es, fs, m) && IsLive(es, e)
    ensures Wf(vs, CutLinks(es, e), fs, m) && SameCore(es, CutLinks(es, e))
  {
    var r := CutLinks(es, e);
    assert SameCore(es, r);
    SameCoreFrame(vs, es, r, fs, m);
    forall d: nat | IsLive(r, d)
      ensures EndsAt(vs, r, fs, d) && PairAt(r, d) && LinksAt(r, d) && RegAt(r, m, d)
    {
      assert IsLive(es, d) && LinksAt(es, d) && RegAt(es, m, d);
      var y := es[d].value;
      if r[d].value.next.Some? {
        var t := r[d].value.next.value;
        assert y.next == Some(t);
        assert IsLive(es, t) && LinksAt(es, t);
      }
      if r[d].value.prev.Some? {
        var t := r[d].value.prev.value;
        assert y.prev == Some(t);
        assert IsLive(es, t) && LinksAt(es, t);
      }
    }
  }

  /** The half-edge registered under `k`, if any. */
  function Lookup(m: EdgeMap, k: Key): Option<nat>
  {
    if k in m then Some(m[k]) else None
  }

  /** Slot `d` after appending the half-edge `i -> j` at index |es|, paired with
      the half-edge registered from `j` to `i` if there is one. */
  function AppendAt(es: Edges, m: EdgeMap, i: nat, j: nat, d: nat): Option<Edge>
    requires d <= |es|
  {
    var rev := Lookup(m, Key(j, i));
    if d == |es| then Some(Edge(i, j, rev, None, None, None))
    else if rev == Some(d) && es[d].Some? then Some(es[d].value.(pair := Some(|es|)))
    else es[d]
  }

  function AppendEdges(es: Edges, m: EdgeMap, i: nat, j: nat): (r: Edges)
    ensures |r| == |es| + 1
    ensures forall d: nat | d <= |es| :: r[d] == AppendAt(es, m, i, j, d)
  {
    seq(|es| + 1, d requires 0 <= d <= |es| => AppendAt(es, m, i, j, d))
  }

  /** The pair of a half-edge is what the lookup holds under the reverse key. */
  lemma PairIsRegistered(vs: Vertices, es: Edges, fs: Faces, m: EdgeMap, r: nat)
    requires Wf(vs, es, fs, m) && IsLive(es, r)
    ensures es[r].value.pair.Some? ==>
              Reverse(KeyOf(es[r].value)) in m && m[Reverse(KeyOf(es[r].value))] == es[r].value.pair.value
  {
    assert PairAt(es, r);
    if es[r].value.pair.Some? {
      var p := es[r].value.pair.value;
      assert IsLive(es, p) && RegAt(es, m, p);
    }
  }

  /** Appending a new half-edge `i -> j` keeps the invariant, gives pairs only to
      the reverse half-edge, and changes no face or link. */
  lemma AppendEdgeWf(vs: Vertices, es: Edges, fs: Faces, m: EdgeMap, i: nat, j: nat)
    requires Wf(vs, es, fs, m)
    requires i != j && IsLive(vs, i) && IsLive(vs, j) && Key(i, j) !in m
    ensures var r := AppendEdges(es, m, i, j);
      Wf(vs, r, fs, m[Key(i, j) := |es|]) &&
      (forall d: nat | d < |es| && es[d].Some? ::
         r[d].Some? && r[d].value == es[d].value.(pair := r[d].value.pair) &&
         (es[d].value.pair.Some? ==> r[d].value.pair == es[d].value.pair)) &&
      (forall d: nat | d < |es| && es[d].None? :: r[d].None?)
  {
    var r := AppendEdges(es, m, i, j);
    var m2 := m[Key(i, j) := |es|];
    var e := |es|;
    var rev := Lookup(m, Key(j, i));
    if rev.Some? {
      var q := rev.value;
      assert IsLive(es, q);
      PairIsRegistered(vs, es, fs, m, q);
    }
    forall d: nat | d < |es| && es[d].Some?
      ensures r[d].Some? && r[d].value == es[d].value.(pair := r[d].value.pair) &&
              (es[d].value.pair.Some? ==> r[d].value.pair == es[d].value.pair)
    {
    }
    forall v: nat | IsLive(vs, v) ensures VertexEdgeAt(vs, r, v) && RingAt(vs, v) {
      assert VertexEdgeAt(vs, es, v);
    }
    forall f: nat | IsLive(fs, f) ensures FaceAt(r, fs, f) {
      assert FaceAt(es, fs, f);
    }
    forall k | k in m2 ensures Has(r, m2[k]) && KeyOf(r[m2[k]].value) == k {
    }
    forall d: nat | IsLive(r, d)
      ensures EndsAt(vs, r, fs, d) && PairAt(r, d) && LinksAt(r, d) && RegAt(r, m2, d)
    {
      if d < e {
        assert IsLive(es, d) && EndsAt(vs, es, fs, d) && PairAt(es, d) && LinksAt(es, d) && RegAt(es, m, d);
        var y := es[d].value;
        if y.pair.Some? {
          assert IsLive(es, y.pair.value);
        }
        if y.next.Some? {
          assert IsLive(es, y.next.value);
        }
        if y.prev.Some? {
          assert IsLive(es, y.prev.value);
        }
      }
    }
  }

  /** Giving face `f` to a registered half-edge that has no face and no links yet. */
  lemma SetFaceWf(vs: Vertices, es: Edges, fs: Faces, m: EdgeMap, e: nat, f: nat)
    requires Wf(vs, es, fs, m) && IsLive(es, e) && IsLive(fs, f) && Registered(es, m, e)
    requires es[e].value.face.None? && es[e].value.next.None? && es[e].value.prev.None?
    ensures Wf(vs, es[e := Some(es[e].value.(face := Some(f)))], fs, m)
  {
    var r := es[e := Some(es[e].value.(face := Some(f)))];
    forall v: nat | IsLive(vs, v) ensures VertexEdgeAt(vs, r, v) && RingAt(vs, v) {
      assert VertexEdgeAt(vs, es, v);
    }
    forall g: nat | IsLive(fs, g) ensures FaceAt(r, fs, g) {
      assert FaceAt(es, fs, g);
    }
    forall d: nat | IsLive(r, d)
      ensures EndsAt(vs, r, fs, d) && PairAt(r, d) && LinksAt(r, d) && RegAt(r, m, d)
    {
      assert IsLive(es, d) && EndsAt(vs, es, fs, d) && PairAt(es, d) && LinksAt(es, d) && RegAt(es, m, d);
      var y := es[d].value;
      if y.pair.Some? {
        assert IsLive(es, y.pair.value);
      }
      if y.next.Some? {
        assert IsLive(es, y.next.value) && LinksAt(es, y.next.value);
      }
      if y.prev.Some? {
        assert IsLive(es, y.prev.value) && LinksAt(es, y.prev.value);
      }
    }
  }

  /** Linking `a -> b` where `a` has no successor and `b` no predecessor yet. */
  lemma LinkWf(vs: Vertices, es: Edges, fs: Faces, m: EdgeMap, a: nat, b: nat)
    requires Wf(vs, es, fs, m) && IsLive(es, a) && IsLive(es, b) && a != b
    requires Registered(es, m, a) && Registered(es, m, b)
    requires es[a].value.next.None? && es[b].value.prev.None? && es[a].value.face == es[b].value.face
    ensures Wf(vs, es[a := Some(es[a].value.(next := Some(b)))][b := Some(es[b].value.(prev := Some(a)))], fs, m)
  {
    var r := es[a := Some(es[a].value.(next := Some(b)))][b := Some(es[b].value.(prev := Some(a)))];
    forall v: nat | IsLive(vs, v) ensures VertexEdgeAt(vs, r, v) && RingAt(vs, v) {
      assert VertexEdgeAt(vs, es, v);
    }
    forall g: nat | IsLive(fs, g) ensures FaceAt(r, fs, g) {
      assert FaceAt(es, fs, g);
    }
    forall d: nat | IsLive(r, d)
      ensures EndsAt(vs, r, fs, d) && PairAt(r, d) && LinksAt(r, d) && RegAt(r, m, d)
    {
      assert IsLive(es, d) && EndsAt(vs, es, fs, d) && PairAt(es, d) && LinksAt(es, d) && RegAt(es, m, d);
      var y := r[d].value;
      if y.pair.Some? {
        assert IsLive(es, y.pair.value);
      }
      if y.next.Some? && d != a {
        assert IsLive(es, y.next.value) && LinksAt(es, y.next.value);
      }
      if y.prev.Some? && d != b {
        assert IsLive(es, y.prev.value) && LinksAt(es, y.prev.value);
      }
    }
  }

  /** Pointing vertex `v` at a half-edge that leaves it. */
  lemma SetVertexEdgeWf(vs: Vertices, es: Edges, fs: Faces, m: EdgeMap, v: nat, e: nat)
    requires Wf(vs, es, fs, m) && IsLive(vs, v) && IsLive(es, e) && es[e].value.origin == v
    ensures Wf(vs[v := Some(vs[v].value.(edge := Some(e)))], es, fs, m)
  {
    var r := vs[v := Some(vs[v].value.(edge := Some(e)))];
    forall u: nat | IsLive(r, u) ensures VertexEdgeAt(r, es, u) && RingAt(r, u) {
      assert IsLive(vs, u) && VertexEdgeAt(vs, es, u) && RingAt(vs, u);
    }
    forall d: nat | IsLive(es, d)
      ensures EndsAt(r, es, fs, d) && PairAt(es, d) && LinksAt(es, d) && RegAt(es, m, d)
    {
      assert EndsAt(vs, es, fs, d);
    }
  }

  /** Appending a face with no half-edge. */
  lemma AppendFaceWf(vs: Vertices, es: Edges, fs: Faces, m: EdgeMap)
    requires Wf(vs, es, fs, m)
    ensures Wf(vs, es, fs + [Some(Face(None))], m)
  {
    var r := fs + [Some(Face(None))];
    forall g: nat | IsLive(r, g) ensures FaceAt(es, r, g) {
      if g < |fs| {
        assert IsLive(fs, g) && FaceAt(es, fs, g);
      }
    }
    forall d: nat | IsLive(es, d)
      ensures EndsAt(vs, es, r, d) && PairAt(es, d) && LinksAt(es, d) && RegAt(es, m, d)
    {
      assert EndsAt(vs, es, fs, d);
    }
  }

  /** Pointing face `f` at one of its half-edges. */
  lemma SetFaceEdgeWf(vs: Vertices, es: Edges, fs: Faces, m: EdgeMap, f: nat, e: nat)
    requires Wf(vs, es, fs, m) && IsLive(fs, f) && IsLive(es, e) && es[e].value.face == Some(f)
    ensures Wf(vs, es, fs[f := Some(Face(Some(e)))], m)
  {
    var r := fs[f := Some(Face(Some(e)))];
    forall g: nat | IsLive(r, g) ensures FaceAt(es, r, g) {
      assert IsLive(fs, g) && FaceAt(es, fs, g);
    }
    forall d: nat | IsLive(es, d)
      ensures EndsAt(vs, es, r, d) && PairAt(es, d) && LinksAt(es, d) && RegAt(es, m, d)
    {
      assert EndsAt(vs, es, fs, d);
    }
  }

  /** Cutting out a face-less half-edge leaves every face cycle as it was. */
  lemma CutUnfacedExtends(vs: Vertices, es: Edges, fs: Faces, m: EdgeMap, e: nat)
    requires Wf(vs, es, fs, m) && IsLive(es, e) && es[e].value.face.None?
    ensures Extends(es, CutLinks(es, e)) && SameFaces(es, CutLinks(es, e))
  {
    var r := CutLinks(es, e);
    assert LinksAt(es, e);
    forall d: nat | IsLive(es, d)
      ensures Has(r, d) && KeyOf(r[d].value) == KeyOf(es[d].value) &&
        (es[d].value.pair.Some? ==> r[d].value.pair == es[d].value.pair) &&
        (es[d].value.face.Some? ==>
           r[d].value.face == es[d].value.face &&
           r[d].value.next == es[d].value.next && r[d].value.prev == es[d].value.prev)
    {
      assert LinksAt(es, d);
    }
  }

  /** Appending a half-edge leaves every face cycle as it was. */
  lemma AppendExtends(vs: Vertices, es: Edges, fs: Faces, m: EdgeMap, i: nat, j: nat)
    requires Wf(vs, es, fs, m)
    requires i != j && IsLive(vs, i) && IsLive(vs, j) && Key(i, j) !in m
    ensures Extends(es, AppendEdges(es, m, i, j)) && SameFaces(es, AppendEdges(es, m, i, j))
  {
    AppendEdgeWf(vs, es, fs, m, i, j);
  }

  /** Every connected half-edge is the one its key maps to. */
  lemma LookupCovers(vs: Vertices, es: Edges, fs: Faces, m: EdgeMap, k: Key)
    requires Wf(vs, es, fs, m)
    ensures forall e: nat | IsLive(es, e) && KeyOf(es[e].value) == k && Connected(es[e].value) ::
              k in m && m[k] == e
  {
    forall e: nat | IsLive(es, e) && KeyOf(es[e].value) == k && Connected(es[e].value)
      ensures k in m && m[k] == e
    {
      assert RegAt(es, m, e);
    }
  }

  /** Half-edges chained by `next` are what a walk from the first one visits. */
  lemma {:induction false} WalkChain(es: Edges, c: seq<nat>, k: nat)
    requires k < |c|
    requires forall t | 0 <= t < |c| - 1 :: Has(es, c[t]) && es[c[t]].value.next == Some(c[t + 1])
    ensures Walk(es, c[0], k) == Some(c[k])
  {
    if k > 0 {
      WalkChain(es, c, k - 1);
      assert Has(es, c[k - 1]) && es[c[k - 1]].value.next == Some(c[k]);
    }
  }

  /** A chain whose last half-edge leads back to the first is a cycle of length |c|. */
  lemma WalkCycle(es: Edges, c: seq<nat>)
    requires |c| > 0
    requires forall t | 0 <= t < |c| - 1 :: Has(es, c[t]) && es[c[t]].value.next == Some(c[t + 1])
    requires Has(es, c[|c| - 1]) && es[c[|c| - 1]].value.next == Some(c[0])
    ensures forall k | 0 <= k < |c| :: Walk(es, c[0], k) == Some(c[k])
    ensures Walk(es, c[0], |c|) == Some(c[0])
  {
    forall k | 0 <= k < |c| ensures Walk(es, c[0], k) == Some(c[k]) {
      WalkChain(es, c, k);
    }
    WalkChain(es, c, |c| - 1);
  }

  lemma ExtendsTransitive(es0: Edges, es1: Edges, es2: Edges)
    requires Extends(es0, es1) && Extends(es1, es2)
    ensures Extends(es0, es2)
  {
    forall d: nat | IsLive(es0, d)
      ensures Has(es2, d) && KeyOf(es2[d].value) == KeyOf(es0[d].value) &&
        (es0[d].value.pair.Some? ==> es2[d].value.pair == es0[d].value.pair) &&
        (es0[d].value.face.Some? ==>
           es2[d].value.face == es0[d].value.face &&
           es2[d].value.next == es0[d].value.next && es2[d].value.prev == es0[d].value.prev)
    {
      assert IsLive(es1, d);
    }
  }

  /** Giving a face to a half-edge that has none still extends the original array. */
  lemma ExtendsSetFace(es0: Edges, es: Edges, e: nat, f: nat)
    requires Extends(es0, es) && IsLive(es, e) && es[e].value.face.None?
    ensures Extends(es0, es[e := Some(es[e].value.(face := Some(f)))])
  {
  }

  /** Relinking half-edges that had no face in `es0` keeps `Extends(es0, _)`. */
  lemma ExtendsRelink(es0: Edges, es1: Edges, es2: Edges, c: seq<nat>)
    requires Extends(es0, es1) && |es2| == |es1|
    requires forall d | 0 <= d < |es1| && d !in c :: es2[d] == es1[d]
    requires forall t | 0 <= t < |c| ::
               Has(es1, c[t]) && Has(es2, c[t]) && es2[c[t]].value.(next := None, prev := None) == es1[c[t]].value
    requires forall t | 0 <= t < |c| :: !IsLive(es0, c[t]) || es0[c[t]].value.face.None?
    ensures Extends(es0, es2)
  {
    forall d: nat | IsLive(es0, d)
      ensures Has(es2, d) && KeyOf(es2[d].value) == KeyOf(es0[d].value) &&
        (es0[d].value.pair.Some? ==> es2[d].value.pair == es0[d].value.pair) &&
        (es0[d].value.face.Some? ==>
           es2[d].value.face == es0[d].value.face &&
           es2[d].value.next == es0[d].value.next && es2[d].value.prev == es0[d].value.prev)
    {
      assert IsLive(es0, d);
      if d in c {
        var t :| 0 <= t < |c| && c[t] == d;
      }
    }
  }

  /** A closed chain of half-edges of face `f` whose keys are the sides of `w` is a cycle of `w`. */
  lemma CycleFromChain(es: Edges, c: seq<nat>, f: nat, w: seq<nat>)
    requires 1 <= |c| == |w|
    requires forall t | 0 <= t < |c| :: Walk(es, c[0], t) == Some(c[t])
    requires Walk(es, c[0], |c|) == Some(c[0])
    requires forall t | 0 <= t < |c| ::
               Has(es, c[t]) && KeyOf(es[c[t]].value) == Side(w, t) && es[c[t]].value.face == Some(f)
    ensures CycleFrom(es, c[0], f, w)
  {
    forall k: nat | k < |w|
      ensures var x := Walk(es, c[0], k);
              x.Some? && Has(es, x.value) && KeyOf(es[x.value].value) == Side(w, k) &&
              es[x.value].value.face == Some(f)
    {
      assert Walk(es, c[0], k) == Some(c[k]);
    }
  }

  /** The neighbours of a boundary half-edge are boundary half-edges that link back to it. */
  lemma BoundaryNeighbours(vs: Vertices, es: Edges, fs: Faces, m: EdgeMap, e: nat)
    requires Wf(vs, es, fs, m) && IsBoundary(es, m, e)
    ensures es[e].value.next.Some? ==>
              IsBoundary(es, m, es[e].value.next.value) && es[es[e].value.next.value].value.prev == Some(e)
    ensures es[e].value.prev.Some? ==>
              IsBoundary(es, m, es[e].value.prev.value) && es[es[e].value.prev.value].value.next == Some(e)
  {
    assert IsLive(es, e) && LinksAt(es, e);
    var x := es[e].value;
    if x.next.Some? {
      assert IsLive(es, x.next.value) && RegAt(es, m, x.next.value);
    }
    if x.prev.Some? {
      assert IsLive(es, x.prev.value) && RegAt(es, m, x.prev.value) && LinksAt(es, x.prev.value);
    }
  }

  /** Relinking face-less half-edges and pointing the origin of boundary half-edge `b`
      at `b` keeps which half-edges are boundary or open, keeps every face cycle, and
      keeps every vertex that referenced a boundary half-edge on the boundary. */
  lemma BoundaryStep(vs1: Vertices, vs2: Vertices, es1: Edges, es2: Edges, m: EdgeMap, b: nat)
    requires SameCore(es1, es2) && IsBoundary(es1, m, b) && Has(vs1, es1[b].value.origin)
    requires forall d: nat | IsLive(es1, d) && es1[d].value.face.Some? :: es2[d] == es1[d]
    requires vs2 == vs1[es1[b].value.origin := Some(vs1[es1[b].value.origin].value.(edge := Some(b)))]
    ensures forall d: nat :: IsBoundary(es2, m, d) == IsBoundary(es1, m, d)
    ensures forall d: nat :: IsOpen(es2, d) == IsOpen(es1, d)
    ensures Extends(es1, es2)
    ensures forall v: nat | OnBoundary(vs1, es1, m, v) :: OnBoundary(vs2, es2, m, v)
    ensures OnBoundary(vs2, es2, m, es1[b].value.origin)
  {
    forall d: nat ensures IsBoundary(es2, m, d) == IsBoundary(es1, m, d) && IsOpen(es2, d) == IsOpen(es1, d) {
      if d < |es1| && es1[d].Some? {
        assert es2[d].Some?;
      }
    }
    forall d: nat | IsLive(es1, d)
      ensures Has(es2, d) && KeyOf(es2[d].value) == KeyOf(es1[d].value) &&
        (es1[d].value.pair.Some? ==> es2[d].value.pair == es1[d].value.pair) &&
        (es1[d].value.face.Some? ==>
           es2[d].value.face == es1[d].value.face &&
           es2[d].value.next == es1[d].value.next && es2[d].value.prev == es1[d].value.prev)
    {
      assert IsLive(es1, d);
    }
    forall v: nat | OnBoundary(vs1, es1, m, v) ensures OnBoundary(vs2, es2, m, v) {
      assert IsBoundary(es1, m, vs1[v].value.edge.value);
    }
    assert IsBoundary(es2, m, b);
  }

  // ---------------------------------------------------------------- adding a face

  /** Reusing the face-less half-edge `e` for face `f` (cut out of its loop, then
      given the face) changes nothing beside face `f`. */
  lemma ReuseForFace(vs: Vertices, es: Edges, fs: Faces, m: EdgeMap, e: nat, f: nat)
    requires Wf(vs, es, fs, m) && IsLive(es, e) && es[e].value.face.None?
    ensures var r := CutLinks(es, e);
      FaceAddedOnly(es, r[e := Some(r[e].value.(face := Some(f)))], f) &&
      KeepsFace(es, r[e := Some(r[e].value.(face := Some(f)))], f)
  {
    var r := CutLinks(es, e);
    var r2 := r[e := Some(r[e].value.(face := Some(f)))];
    forall d: nat | IsLive(es, d)
      ensures Has(r2, d) && (r2[d].value.face != Some(f) ==> KeptBesideFace(es[d].value, r2[d].value, r2, f))
    {
      assert r[d] == CutAt(es, e, d);
    }
    forall d: nat | d < |es| && es[d].None? ensures r2[d].None? {
      assert r[d] == CutAt(es, e, d);
    }
    forall d: nat | InFace(es, d, f) ensures InFace(r2, d, f) {
      assert r[d] == CutAt(es, e, d);
    }
  }

  /** Appending the half-edge `i -> j` for face `f` (paired with the registered
      half-edge `j -> i`, if any) changes nothing beside face `f`. */
  lemma AppendForFace(vs: Vertices, es: Edges, fs: Faces, m: EdgeMap, i: nat, j: nat, f: nat)
    requires Wf(vs, es, fs, m)
    requires i != j && IsLive(vs, i) && IsLive(vs, j) && Key(i, j) !in m
    ensures var r := AppendEdges(es, m, i, j);
      FaceAddedOnly(es, r[|es| := Some(r[|es|].value.(face := Some(f)))], f) &&
      KeepsFace(es, r[|es| := Some(r[|es|].value.(face := Some(f)))], f)
  {
    var r := AppendEdges(es, m, i, j);
    var e := |es|;
    var r2 := r[e := Some(r[e].value.(face := Some(f)))];
    assert InFace(r2, e, f);
    forall d: nat | IsLive(es, d)
      ensures Has(r2, d) && (r2[d].value.face != Some(f) ==> KeptBesideFace(es[d].value, r2[d].value, r2, f))
    {
      assert r[d] == AppendAt(es, m, i, j, d);
      if Lookup(m, Key(j, i)) == Some(d) {
        PairIsRegistered(vs, es, fs, m, d);
      }
    }
    forall d: nat | d < |es| && es[d].None? ensures r2[d].None? {
      assert r[d] == AppendAt(es, m, i, j, d);
    }
    forall d: nat | InFace(es, d, f) ensures InFace(r2, d, f) {
      assert r[d] == AppendAt(es, m, i, j, d);
    }
  }

  /** Changing nothing beside face `f` composes, as long as the half-edges of `f` stay in it. */
  lemma FaceAddedOnlyTransitive(es0: Edges, es1: Edges, es2: Edges, f: nat)
    requires FaceAddedOnly(es0, es1, f) && FaceAddedOnly(es1, es2, f) && KeepsFace(es1, es2, f)
    ensures FaceAddedOnly(es0, es2, f)
  {
    forall d: nat | |es0| <= d < |es2| ensures InFace(es2, d, f) {
      if d < |es1| {
        assert InFace(es1, d, f);
      }
    }
    forall d: nat | IsLive(es0, d)
      ensures Has(es2, d) && (es2[d].value.face != Some(f) ==> KeptBesideFace(es0[d].value, es2[d].value, es2, f))
    {
      assert Has(es1, d) && IsLive(es1, d);
      if es2[d].value.face != Some(f) {
        assert !InFace(es1, d, f);
        var x0, x1, x2 := es0[d].value, es1[d].value, es2[d].value;
        assert KeptBesideFace(x0, x1, es1, f) && KeptBesideFace(x1, x2, es2, f);
        if x1.pair != x0.pair {
          assert InFace(es1, x1.pair.value, f);
        }
        if x1.next != x0.next {
          assert InFace(es1, x0.next.value, f);
        }
        if x1.prev != x0.prev {
          assert InFace(es1, x0.prev.value, f);
        }
      }
    }
  }

  /** Relinking half-edges of face `f` among themselves changes nothing beside it. */
  lemma RelinkForFace(es1: Edges, es2: Edges, c: seq<nat>, f: nat)
    requires |es2| == |es1|
    requires forall d | 0 <= d < |es1| && d !in c :: es2[d] == es1[d]
    requires forall t | 0 <= t < |c| ::
               InFace(es1, c[t], f) && Has(es2, c[t]) && es2[c[t]].value.(next := None, prev := None) == es1[c[t]].value.(next := None, prev := None)
    ensures FaceAddedOnly(es1, es2, f) && KeepsFace(es1, es2, f)
  {
    forall d: nat | IsLive(es1, d)
      ensures Has(es2, d) && (es2[d].value.face != Some(f) ==> KeptBesideFace(es1[d].value, es2[d].value, es2, f))
    {
      if d in c {
        var t :| 0 <= t < |c| && c[t] == d;
        assert InFace(es1, c[t], f);
      }
    }
    forall d: nat | d < |es1| && es1[d].None? ensures es2[d].None? {
      assert forall t | 0 <= t < |c| :: c[t] != d;
    }
    forall d: nat | InFace(es1, d, f) ensures InFace(es2, d, f) {
      if d in c {
        var t :| 0 <= t < |c| && c[t] == d;
      }
    }
  }

  // ---------------------------------------------------------------- linking the boundary

  /** The step of `linkBoundary` at boundary half-edge `b`: if `b` had no successor,
      it now has the one it was given, or none could follow it. Then no boundary
      half-edge up to `b` is left linkable, and linked half-edges still meet. */
  lemma LinkedStep(es1: Edges, es2: Edges, m: EdgeMap, b: nat, r: Option<nat>)
    requires SameCore(es1, es2) && IsBoundary(es1, m, b)
    requires forall d: nat, c: nat | d < b :: !Linkable(es1, m, d, c)
    requires r.None? ==> es2 == es1
    requires r.None? && es1[b].value.next.None? ==> forall c: nat | c < |es1| :: !FollowsOnBoundary(es1, m, b, c)
    requires r.Some? ==>
               es1[b].value.next.None? && FollowsOnBoundary(es1, m, b, r.value) &&
               es2 == es1[b := Some(es1[b].value.(next := r))][r.value := Some(es1[r.value].value.(prev := Some(b)))]
    ensures forall d: nat, c: nat | d <= b :: !Linkable(es2, m, d, c)
    ensures BoundaryLinksMeet(es1, m) ==> BoundaryLinksMeet(es2, m)
  {
    forall d: nat ensures IsBoundary(es2, m, d) == IsBoundary(es1, m, d) {
      if d < |es1| && es1[d].Some? {
        assert es2[d].Some?;
      }
    }
    forall d: nat, c: nat | d <= b ensures !Linkable(es2, m, d, c) {
      if Linkable(es2, m, d, c) {
        if r.Some? {
          assert d != b;
          assert c != r.value;
          assert Linkable(es1, m, d, c);
        }
        assert false;
      }
    }
    if BoundaryLinksMeet(es1, m) {
      forall d: nat | IsBoundary(es2, m, d) && es2[d].value.next.Some?
        ensures Has(es2, es2[d].value.next.value) && es2[es2[d].value.next.value].value.origin == es2[d].value.to
      {
        if r.None? || d != b {
          assert IsBoundary(es1, m, d) && es1[d].value.next == es2[d].value.next;
        }
      }
    }
  }

  /** One iteration of the second `linkBoundary()` pass on boundary half-edge `b`:
      everything the pass has established for the half-edges before `b` now holds
      up to and including `b`. */
  lemma BoundaryPassStep(vs0: Vertices, es0: Edges, vs1: Vertices, vs2: Vertices, es1: Edges, es2: Edges,
                         m: EdgeMap, b: nat, r: Option<nat>)
    requires BoundaryRelinked(es0, es1) && BoundaryRepointed(vs0, vs1, es1, m)
    requires forall d: nat | d < b && IsBoundary(es1, m, d) :: OnBoundary(vs1, es1, m, es1[d].value.origin)
    requires SameCore(es1, es2) && IsBoundary(es1, m, b) && Has(vs1, es1[b].value.origin)
    requires forall d: nat | IsLive(es1, d) && es1[d].value.face.Some? :: es2[d] == es1[d]
    requires vs2 == vs1[es1[b].value.origin := Some(vs1[es1[b].value.origin].value.(edge := Some(b)))]
    requires forall d: nat, c: nat | d < b :: !Linkable(es1, m, d, c)
    requires r.None? ==> es2 == es1
    requires r.None? && es1[b].value.next.None? ==> forall c: nat | c < |es1| :: !FollowsOnBoundary(es1, m, b, c)
    requires r.Some? ==>
               es1[b].value.next.None? && FollowsOnBoundary(es1, m, b, r.value) &&
               es2 == es1[b := Some(es1[b].value.(next := r))][r.value := Some(es1[r.value].value.(prev := Some(b)))]
    ensures BoundaryRelinked(es0, es2) && BoundaryRepointed(vs0, vs2, es2, m)
    ensures forall d: nat | d <= b && IsBoundary(es2, m, d) :: OnBoundary(vs2, es2, m, es2[d].value.origin)
    ensures forall d: nat, c: nat | d <= b :: !Linkable(es2, m, d, c)
    ensures BoundaryLinksMeet(es1, m) ==> BoundaryLinksMeet(es2, m)
  {
    LinkedStep(es1, es2, m, b, r);
    BoundaryStep(vs1, vs2, es1, es2, m, b);
    RepointStep(vs0, vs1, vs2, es0, es1, es2, m, b);
  }

  /** Relinking face-less half-edges extends the array and opens or closes no
      half-edge. */
  lemma RelinkedExtends(es0: Edges, es: Edges)
    requires BoundaryRelinked(es0, es)
    ensures Extends(es0, es) && forall d: nat :: IsOpen(es, d) == IsOpen(es0, d)
  {
    forall d: nat ensures IsOpen(es, d) == IsOpen(es0, d) {
      if d < |es0| && es0[d].Some? {
        assert es[d].Some?;
      }
    }
  }

  /** An iteration of the second pass that meets no boundary half-edge keeps what
      the pass has established, now up to and including `b`. */
  lemma BoundaryPassSkip(es: Edges, m: EdgeMap, b: nat)
    requires !IsBoundary(es, m, b)
    requires forall d: nat, c: nat | d < b :: !Linkable(es, m, d, c)
    ensures forall d: nat, c: nat | d <= b :: !Linkable(es, m, d, c)
  {
  }

  /** Giving the open half-edge `i` its boundary twin advances the first pass of
      `linkBoundary()` past `i`. */
  lemma TwinAddedStep(es0: Edges, m0: EdgeMap, es1: Edges, m1: EdgeMap, es2: Edges, m2: EdgeMap, i: nat)
    requires TwinsAdded(es0, m0, es1, m1, i) && i < |es0| && IsOpen(es1, i)
    requires Lookup(m1, Key(es1[i].value.origin, es1[i].value.to)) == Some(i)
    requires Key(es1[i].value.to, es1[i].value.origin) !in m1
    requires es2 == AppendEdges(es1, m1, es1[i].value.to, es1[i].value.origin)
    requires m2 == m1[Key(es1[i].value.to, es1[i].value.origin) := |es1|]
    ensures TwinsAdded(es0, m0, es2, m2, i + 1)
  {
    var x := es1[i].value;
    var n := |es1|;
    assert es1[i] == es0[i];
    forall d: nat | d < |es0|
      ensures es2[d] == es0[d] ||
              (d < i + 1 && IsOpen(es0, d) && es2[d].Some? && es2[d].value == es0[d].value.(pair := es2[d].value.pair))
    {
      assert es2[d] == AppendAt(es1, m1, x.to, x.origin, d);
    }
    forall d: nat | d < i + 1 && IsOpen(es0, d)
      ensures es2[d].Some? && es2[d].value.pair.Some? && |es0| <= es2[d].value.pair.value < |es2|
    {
      assert es2[d] == AppendAt(es1, m1, x.to, x.origin, d);
    }
    forall d: nat | |es0| <= d < |es2|
      ensures IsBoundary(es2, m2, d) && es2[d].value.next.None? && es2[d].value.prev.None? &&
              es2[d].value.pair.Some? && es2[d].value.pair.value < i + 1 && IsOpen(es0, es2[d].value.pair.value)
    {
      assert es2[d] == AppendAt(es1, m1, x.to, x.origin, d);
      if d < n {
        assert IsBoundary(es1, m1, d);
      }
    }
  }

  /** Once the first pass of `linkBoundary()` has run over every old half-edge, the
      array extends the old one and no half-edge is open. */
  lemma TwinsAddedDone(es0: Edges, m0: EdgeMap, es: Edges, m: EdgeMap)
    requires TwinsAdded(es0, m0, es, m, |es0|)
    ensures Extends(es0, es) && forall d: nat :: !IsOpen(es, d)
  {
    forall d: nat ensures !IsOpen(es, d) {
      if |es0| <= d < |es| {
        assert IsBoundary(es, m, d);
      }
    }
  }

  /** Passing over a half-edge that is not open advances the first pass of
      `linkBoundary()` without changing anything. */
  lemma TwinSkipStep(es0: Edges, m0: EdgeMap, es: Edges, m: EdgeMap, i: nat)
    requires TwinsAdded(es0, m0, es, m, i) && i < |es0| && !IsOpen(es, i)
    ensures TwinsAdded(es0, m0, es, m, i + 1)
  {
    assert es[i] == es0[i];
  }

  /** The first pass of `linkBoundary()` followed by relinking face-less half-edges
      leaves every open half-edge paired with an appended boundary half-edge. */
  lemma TwinsSurviveRelink(es0: Edges, m0: EdgeMap, es1: Edges, es2: Edges, m: EdgeMap)
    requires TwinsAdded(es0, m0, es1, m, |es0|) && BoundaryRelinked(es1, es2)
    ensures TwinsAppended(es0, m0, es2, m)
  {
    forall d: nat | |es0| <= d < |es2|
      ensures IsBoundary(es2, m, d) && es2[d].value.pair.Some? && es2[d].value.pair.value < |es0| &&
              IsOpen(es0, es2[d].value.pair.value)
    {
      assert IsBoundary(es1, m, d);
    }
    forall d: nat | IsOpen(es0, d)
      ensures es2[d].Some? && es2[d].value.pair.Some? && |es0| <= es2[d].value.pair.value &&
              IsBoundary(es2, m, es2[d].value.pair.value)
    {
      var p := es1[d].value.pair.value;
      assert IsBoundary(es1, m, p);
    }
  }

  /** One call of `linkBoundaryEdge` in the second pass only relinks face-less
      half-edges and points one vertex at a boundary half-edge. */
  lemma RepointStep(vs0: Vertices, vs1: Vertices, vs2: Vertices, es0: Edges, es1: Edges, es2: Edges,
                    m: EdgeMap, b: nat)
    requires BoundaryRelinked(es0, es1) && BoundaryRepointed(vs0, vs1, es1, m)
    requires SameCore(es1, es2) && IsBoundary(es1, m, b) && Has(vs1, es1[b].value.origin)
    requires forall d: nat | IsLive(es1, d) && es1[d].value.face.Some? :: es2[d] == es1[d]
    requires vs2 == vs1[es1[b].value.origin := Some(vs1[es1[b].value.origin].value.(edge := Some(b)))]
    ensures BoundaryRelinked(es0, es2) && BoundaryRepointed(vs0, vs2, es2, m)
  {
    BoundaryStep(vs1, vs2, es1, es2, m, b);
    forall d: nat | IsLive(es0, d) && es0[d].value.face.Some? ensures es2[d] == es0[d] {
      assert IsLive(es1, d);
    }
    var o := es1[b].value.origin;
    forall v: nat | v < |vs2|
      ensures vs2[v] == vs0[v] ||
              (vs0[v].Some? && vs2[v].Some? && vs2[v].value == vs0[v].value.(edge := vs2[v].value.edge) &&
               OnBoundary(vs2, es2, m, v))
    {
      if v != o && vs1[v] != vs0[v] {
        assert OnBoundary(vs1, es1, m, v);
      }
    }
  }

  /** The side of `w` after side `t` starts where side `t` ends, and the side before
      it ends where side `t` starts. */
  lemma SideNeighbours(w: seq<nat>, t: nat)
    requires t < |w|
    ensures Side(w, t).p1 == Side(w, if t + 1 == |w| then 0 else t + 1).p0
    ensures Side(w, t).p0 == Side(w, if t == 0 then |w| - 1 else t - 1).p1
  {
    var n := |w|;
    WrapNext(t, n);
    WrapNext(if t == 0 then n - 1 else t - 1, n);
  }

  /** Stepping forward around `n` positions wraps from the last to the first. */
  lemma WrapNext(t: nat, n: nat)
    requires t < n
    ensures (t + 1) % n == if t + 1 == n then 0 else t + 1
  {
  }

  /** Around a polygon with distinct corners, distinct sides start at distinct
      corners and end at distinct corners. */
  lemma SidesApart(w: seq<nat>, s: nat, t: nat)
    requires forall a, b | 0 <= a < b < |w| :: w[a] != w[b]
    requires s < |w| && t < |w| && s != t
    ensures Side(w, s).p0 != Side(w, t).p0 && Side(w, s).p1 != Side(w, t).p1
  {
    var n := |w|;
    var s1, t1 := if s + 1 == n then 0 else s + 1, if t + 1 == n then 0 else t + 1;
    assert (s + 1) % n == s1 && (t + 1) % n == t1;
  }

  /** On the boundary of a polygon, a boundary half-edge leaves the end of every
      boundary half-edge and one enters the origin of every boundary half-edge.
      `twins[t]` is the boundary half-edge running along side `t` of `w` backwards,
      and there are no other boundary half-edges. */
  lemma PolygonBoundaryContinues(es: Edges, m: EdgeMap, w: seq<nat>, twins: seq<nat>)
    requires 2 <= |w| == |twins|
    requires forall t | 0 <= t < |w| ::
               IsBoundary(es, m, twins[t]) && KeyOf(es[twins[t]].value) == Reverse(Side(w, t))
    requires forall b: nat | IsBoundary(es, m, b) :: exists t | 0 <= t < |w| :: twins[t] == b
    ensures BoundaryContinues(es, m)
  {
    var n := |w|;
    forall b: nat | IsBoundary(es, m, b) ensures exists c: nat :: LeavesEndOf(es, m, b, c) {
      var s :| 0 <= s < n && twins[s] == b;
      SideNeighbours(w, s);
      assert LeavesEndOf(es, m, b, twins[if s == 0 then n - 1 else s - 1]);
    }
    forall c: nat | IsBoundary(es, m, c) ensures exists b: nat :: LeavesEndOf(es, m, b, c) {
      var s :| 0 <= s < n && twins[s] == c;
      SideNeighbours(w, s);
      assert LeavesEndOf(es, m, twins[if s + 1 == n then 0 else s + 1], c);
    }
  }

  /** On the boundary of a polygon with distinct corners, no two boundary
      half-edges start or end at the same vertex. */
  lemma PolygonBoundaryUnbranched(es: Edges, m: EdgeMap, w: seq<nat>, twins: seq<nat>)
    requires forall s, t | 0 <= s < t < |w| :: w[s] != w[t]
    requires |w| == |twins|
    requires forall t | 0 <= t < |w| ::
               IsBoundary(es, m, twins[t]) && KeyOf(es[twins[t]].value) == Reverse(Side(w, t))
    requires forall b: nat | IsBoundary(es, m, b) :: exists t | 0 <= t < |w| :: twins[t] == b
    ensures NoBoundaryBranch(es, m)
  {
    forall a: nat, b: nat | IsBoundary(es, m, a) && IsBoundary(es, m, b) && a != b
      ensures es[a].value.to != es[b].value.to && es[a].value.origin != es[b].value.origin
    {
      var s :| 0 <= s < |w| && twins[s] == a;
      var t :| 0 <= t < |w| && twins[t] == b;
      SidesApart(w, s, t);
    }
  }

  /** The boundary of a single polygon with distinct corners is simple: when the
      boundary half-edges are exactly the sides of `w` run backwards, one of them
      leaves and one enters every corner, and no two share an end. */
  lemma PolygonBoundarySimple(es: Edges, m: EdgeMap, w: seq<nat>, twins: seq<nat>)
    requires 2 <= |w| == |twins| && forall s, t | 0 <= s < t < |w| :: w[s] != w[t]
    requires forall t | 0 <= t < |w| ::
               IsBoundary(es, m, twins[t]) && KeyOf(es[twins[t]].value) == Reverse(Side(w, t))
    requires forall b: nat | IsBoundary(es, m, b) :: exists t | 0 <= t < |w| :: twins[t] == b
    ensures SimpleBoundary(es, m)
  {
    PolygonBoundaryContinues(es, m, w, twins);
    PolygonBoundaryUnbranched(es, m, w, twins);
  }

  /** Appending a twin with no links keeps consecutive boundary half-edges meeting. */
  lemma AppendKeepsMeet(es: Edges, m: EdgeMap, i: nat, j: nat)
    requires Key(i, j) !in m && BoundaryLinksMeet(es, m)
    ensures BoundaryLinksMeet(AppendEdges(es, m, i, j), m[Key(i, j) := |es|])
  {
    var r := AppendEdges(es, m, i, j);
    var m2 := m[Key(i, j) := |es|];
    forall d: nat | IsBoundary(r, m2, d) && r[d].value.next.Some?
      ensures Has(r, r[d].value.next.value) && r[r[d].value.next.value].value.origin == r[d].value.to
    {
      assert r[d] == AppendAt(es, m, i, j, d);
      assert d < |es|;
      assert KeyOf(r[d].value) == KeyOf(es[d].value);
      assert IsBoundary(es, m, d);
      var n := es[d].value.next.value;
      assert r[n] == AppendAt(es, m, i, j, n);
    }
  }

  /** Where one boundary half-edge enters each vertex, a boundary half-edge that
      no boundary half-edge could follow has a successor. */
  lemma HasSuccessor(vs: Vertices, es: Edges, fs: Faces, m: EdgeMap, b: nat)
    requires Wf(vs, es, fs, m) && BoundaryLinked(es, m) && BoundaryLinksMeet(es, m)
    requires NoBoundaryBranch(es, m) && IsBoundary(es, m, b)
    requires exists c: nat :: LeavesEndOf(es, m, b, c)
    ensures es[b].value.next.Some?
  {
    if es[b].value.next.None? {
      var c: nat :| LeavesEndOf(es, m, b, c);
      assert IsLive(es, b) && EndsAt(vs, es, fs, b);
      assert !Linkable(es, m, b, c);
      var a := es[c].value.prev.value;
      BoundaryNeighbours(vs, es, fs, m, c);
      assert false;
    }
  }

  /** Where one boundary half-edge leaves each vertex, a boundary half-edge that
      follows some boundary half-edge has a predecessor. */
  lemma HasPredecessor(vs: Vertices, es: Edges, fs: Faces, m: EdgeMap, b: nat)
    requires Wf(vs, es, fs, m) && BoundaryLinked(es, m) && BoundaryLinksMeet(es, m)
    requires NoBoundaryBranch(es, m) && IsBoundary(es, m, b)
    requires exists a: nat :: LeavesEndOf(es, m, a, b)
    ensures es[b].value.prev.Some?
  {
    if es[b].value.prev.None? {
      var a: nat :| LeavesEndOf(es, m, a, b);
      assert IsLive(es, a) && EndsAt(vs, es, fs, a);
      assert !Linkable(es, m, a, b);
      var c := es[a].value.next.value;
      BoundaryNeighbours(vs, es, fs, m, a);
      assert false;
    }
  }

  /** Once no boundary half-edge is linkable and linked ones meet, a boundary in
      which every vertex has one boundary half-edge leaving and one entering it is
      closed into loops: every boundary half-edge has a successor and a predecessor. */
  lemma BoundaryLoopsClosed(vs: Vertices, es: Edges, fs: Faces, m: EdgeMap)
    requires Wf(vs, es, fs, m) && BoundaryLinked(es, m) && BoundaryLinksMeet(es, m) && SimpleBoundary(es, m)
    ensures forall b: nat | IsBoundary(es, m, b) :: es[b].value.next.Some? && es[b].value.prev.Some?
  {
    forall b: nat | IsBoundary(es, m, b) ensures es[b].value.next.Some? && es[b].value.prev.Some? {
      HasSuccessor(vs, es, fs, m, b);
      HasPredecessor(vs, es, fs, m, b);
    }
  }
}
