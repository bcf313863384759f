/** The structural invariant every mesh operation keeps, and the stronger
    properties that `isValid` audits. All predicates are on the four arrays of
    the mesh as values, so that the operations' proofs can be stated as lemmas.

    Quantifiers range over `IsLive(s, i)`; the per-entity predicates they hold
    use `Has` instead, so that instantiating one quantifier never produces a
    term that instantiates it again. */
module MeshInvariants {
  import opened MeshTypes

  type Vertices = seq<Option<Vertex>>
  type Edges = seq<Option<Edge>>
  type Faces = seq<Option<Face>>
  type EdgeMap = map<Key, nat>

  /** Same as `IsLive`, for use inside quantified bodies. */
  predicate Has<T>(s: seq<Option<T>>, i: nat)
  {
    i < |s| && s[i].Some?
  }

  /** The edge lookup maps the key of half-edge `e` to `e`. */
  predicate Registered(es: Edges, m: EdgeMap, e: nat)
    requires Has(es, e)
  {
    KeyOf(es[e].value) in m && m[KeyOf(es[e].value)] == e
  }

  /** The half-edge refers to some other entity. */
  predicate Connected(x: Edge)
  {
    x.face.Some? || x.pair.Some? || x.next.Some? || x.prev.Some?
  }

  // ---------------------------------------------------------------- per entity

  /** A vertex's incident half-edge is live and leaves it. */
  predicate VertexEdgeAt(vs: Vertices, es: Edges, v: nat)
    requires Has(vs, v)
  {
    var x := vs[v].value;
    x.edge.Some? ==> Has(es, x.edge.value) && es[x.edge.value].value.origin == v
  }

  /** The colocal links of a vertex are live and mutual. */
  predicate RingAt(vs: Vertices, v: nat)
    requires Has(vs, v)
  {
    var x := vs[v].value;
    Has(vs, x.colocalNext) && vs[x.colocalNext].value.colocalPrev == v &&
    Has(vs, x.colocalPrev) && vs[x.colocalPrev].value.colocalNext == v
  }

  /** A half-edge joins two distinct live vertices and its face is live. */
  predicate EndsAt(vs: Vertices, es: Edges, fs: Faces, e: nat)
    requires Has(es, e)
  {
    var x := es[e].value;
    Has(vs, x.origin) && Has(vs, x.to) && x.origin != x.to &&
    (x.face.Some? ==> Has(fs, x.face.value))
  }

  /** `pair` is an involution and the pair runs the opposite way. */
  predicate PairAt(es: Edges, e: nat)
    requires Has(es, e)
  {
    var x := es[e].value;
    x.pair.Some? ==>
      Has(es, x.pair.value) && es[x.pair.value].value.pair == Some(e) &&
      es[x.pair.value].value.origin == x.to && es[x.pair.value].value.to == x.origin
  }

  /** `next` and `prev` are mutual inverses and `next` stays within the same face. */
  predicate LinksAt(es: Edges, e: nat)
    requires Has(es, e)
  {
    var x := es[e].value;
    (x.next.Some? ==>
       Has(es, x.next.value) && es[x.next.value].value.prev == Some(e) &&
       es[x.next.value].value.face == x.face) &&
    (x.prev.Some? ==>
       Has(es, x.prev.value) && es[x.prev.value].value.next == Some(e))
  }

  /** A half-edge linked to anything is registered, and a registered half-edge
      whose reverse key is registered is paired with the half-edge found there. */
  predicate RegAt(es: Edges, m: EdgeMap, e: nat)
    requires Has(es, e)
  {
    var x := es[e].value;
    (Connected(x) ==> Registered(es, m, e)) &&
    (Registered(es, m, e) && Reverse(KeyOf(x)) in m ==> x.pair == Some(m[Reverse(KeyOf(x))]))
  }

  /** A face's half-edge belongs to it. */
  predicate FaceAt(es: Edges, fs: Faces, f: nat)
    requires Has(fs, f)
  {
    var x := fs[f].value;
    x.edge.Some? ==> Has(es, x.edge.value) && es[x.edge.value].value.face == Some(f)
  }

  // ---------------------------------------------------------------- whole mesh

  ghost predicate VerticesOk(vs: Vertices, es: Edges)
  {
    forall v: nat | IsLive(vs, v) :: VertexEdgeAt(vs, es, v) && RingAt(vs, v)
  }

  ghost predicate EdgesOk(vs: Vertices, es: Edges, fs: Faces, m: EdgeMap)
  {
    forall e: nat | IsLive(es, e) ::
      EndsAt(vs, es, fs, e) && PairAt(es, e) && LinksAt(es, e) && RegAt(es, m, e)
  }

  ghost predicate FacesOk(es: Edges, fs: Faces)
  {
    forall f: nat | IsLive(fs, f) :: FaceAt(es, fs, f)
  }

  /** Every entry of the edge lookup is a live half-edge with that key,
      so the lookup holds at most one half-edge per ordered vertex pair. */
  ghost predicate MapOk(es: Edges, m: EdgeMap)
  {
    forall k | k in m :: Has(es, m[k]) && KeyOf(es[m[k]].value) == k
  }

  /** The structural invariant of a mesh. */
  ghost predicate Wf(vs: Vertices, es: Edges, fs: Faces, m: EdgeMap)
  {
    VerticesOk(vs, es) && EdgesOk(vs, es, fs, m) && FacesOk(es, fs) && MapOk(es, m)
  }

  // ---------------------------------------------------------------- boundary and audit

  /** A boundary half-edge: connected (registered) but owned by no face. */
  predicate IsBoundary(es: Edges, m: EdgeMap, e: nat)
  {
    Has(es, e) && es[e].value.face.None? && Registered(es, m, e)
  }

  /** A face half-edge with no pair: it lies on the boundary but has no boundary twin yet. */
  predicate IsOpen(es: Edges, e: nat)
  {
    Has(es, e) && es[e].value.face.Some? && es[e].value.pair.None?
  }

  /** Vertex `v` references a boundary half-edge. */
  predicate OnBoundary(vs: Vertices, es: Edges, m: EdgeMap, v: nat)
  {
    Has(vs, v) && vs[v].value.edge.Some? && IsBoundary(es, m, vs[v].value.edge.value)
  }

  /** No other boundary half-edge leaves the origin of `e` or enters its end:
      `e`'s endpoints are not branch points of the boundary. */
  predicate BranchFree(es: Edges, m: EdgeMap, e: nat)
    requires Has(es, e)
  {
    forall d: nat | d < |es| && d != e && IsBoundary(es, m, d) ::
      es[d].value.origin != es[e].value.origin && es[d].value.to != es[e].value.to
  }

  /** What `isValid` audits for one half-edge beyond the structural invariant:
      it has both neighbours and a pair, and if it is a boundary half-edge, its
      origin vertex references a boundary half-edge and neither of its endpoints
      is a branch point of the boundary. */
  predicate EdgeAudited(vs: Vertices, es: Edges, m: EdgeMap, e: nat)
    requires Has(es, e)
  {
    var x := es[e].value;
    x.next.Some? && x.prev.Some? && x.pair.Some? &&
    (IsBoundary(es, m, e) ==> OnBoundary(vs, es, m, x.origin) && BranchFree(es, m, e))
  }

  /** Boundary half-edge `c` may follow boundary half-edge `b`: it leaves the end
      of `b` and has no predecessor yet. */
  predicate FollowsOnBoundary(es: Edges, m: EdgeMap, b: nat, c: nat)
    requires Has(es, b)
  {
    IsBoundary(es, m, c) && c != b &&
    es[c].value.origin == es[b].value.to && es[c].value.prev.None?
  }

  /** Boundary half-edge `b` has no successor although `c` could follow it. */
  predicate Linkable(es: Edges, m: EdgeMap, b: nat, c: nat)
  {
    IsBoundary(es, m, b) && es[b].value.next.None? && FollowsOnBoundary(es, m, b, c)
  }

  /** No boundary half-edge is left without a successor that it could be given. */
  ghost predicate BoundaryLinked(es: Edges, m: EdgeMap)
  {
    forall b: nat, c: nat :: !Linkable(es, m, b, c)
  }

  /** Consecutive boundary half-edges meet: a successor starts where its
      predecessor ends. */
  ghost predicate BoundaryLinksMeet(es: Edges, m: EdgeMap)
  {
    forall b: nat | IsBoundary(es, m, b) && es[b].value.next.Some? ::
      Has(es, es[b].value.next.value) && es[es[b].value.next.value].value.origin == es[b].value.to
  }

  /** A boundary half-edge leaves the end of every boundary half-edge, and one
      enters the origin of every boundary half-edge: the boundary has no dead end. */
  ghost predicate BoundaryContinues(es: Edges, m: EdgeMap)
  {
    (forall b: nat | IsBoundary(es, m, b) :: exists c: nat :: LeavesEndOf(es, m, b, c)) &&
    (forall c: nat | IsBoundary(es, m, c) :: exists b: nat :: LeavesEndOf(es, m, b, c))
  }

  /** `c` is a boundary half-edge that leaves the end of boundary half-edge `b`. */
  predicate LeavesEndOf(es: Edges, m: EdgeMap, b: nat, c: nat)
  {
    IsBoundary(es, m, b) && IsBoundary(es, m, c) && es[c].value.origin == es[b].value.to
  }

  /** At most one boundary half-edge leaves, and at most one enters, any vertex. */
  ghost predicate NoBoundaryBranch(es: Edges, m: EdgeMap)
  {
    forall a: nat, b: nat | IsBoundary(es, m, a) && IsBoundary(es, m, b) && a != b ::
      es[a].value.to != es[b].value.to && es[a].value.origin != es[b].value.origin
  }

  /** Every boundary vertex has exactly one boundary half-edge leaving it and one
      entering it. */
  ghost predicate SimpleBoundary(es: Edges, m: EdgeMap)
  {
    BoundaryContinues(es, m) && NoBoundaryBranch(es, m)
  }

  /** The first pass of `linkBoundary()` has run over the half-edges of `es0` below
      `i`: each open one among them has gained a pair, a new boundary half-edge
      appended after the old slots with no links yet; no other old half-edge has
      changed, and the lookup has only gained the keys of the new half-edges. */
  ghost predicate TwinsAdded(es0: Edges, m0: EdgeMap, es: Edges, m: EdgeMap, i: nat)
  {
    |es0| <= |es| &&
    (forall d: nat | d < |es0| ::
       es[d] == es0[d] ||
       (d < i && IsOpen(es0, d) && es[d].Some? && es[d].value == es0[d].value.(pair := es[d].value.pair))) &&
    (forall d: nat | d < i && IsOpen(es0, d) ::
       es[d].Some? && es[d].value.pair.Some? && |es0| <= es[d].value.pair.value < |es|) &&
    (forall d: nat | |es0| <= d < |es| ::
       IsBoundary(es, m, d) && es[d].value.next.None? && es[d].value.prev.None? &&
       es[d].value.pair.Some? && es[d].value.pair.value < i && IsOpen(es0, es[d].value.pair.value)) &&
    (forall k | k in m0 :: k in m && m[k] == m0[k]) &&
    (forall k | k in m && k !in m0 :: |es0| <= m[k])
  }

  /** `es` is `es0` with a boundary twin for every open half-edge: old slots keep their
      ends and faces, and their pairs unless they were open; every open half-edge is
      paired with a new boundary half-edge (spelled out, so that the solver does not
      chase twin to twin); every new half-edge is a boundary
      half-edge paired with a formerly open one; the lookup keeps its entries and
      gains only keys of new half-edges. */
  ghost predicate TwinsAppended(es0: Edges, m0: EdgeMap, es: Edges, m: EdgeMap)
  {
    |es0| <= |es| &&
    (forall d: nat | d < |es0| :: es[d].Some? == es0[d].Some?) &&
    (forall d: nat | IsLive(es0, d) ::
       es[d].Some? && es[d].value.origin == es0[d].value.origin && es[d].value.to == es0[d].value.to &&
       es[d].value.face == es0[d].value.face && (es[d].value.pair == es0[d].value.pair || IsOpen(es0, d))) &&
    (forall d: nat {:trigger IsOpen(es0, d)} | IsOpen(es0, d) ::
       es[d].Some? && es[d].value.pair.Some? && |es0| <= es[d].value.pair.value &&
       var t := es[d].value.pair.value; Has(es, t) && es[t].value.face.None? && Registered(es, m, t)) &&
    (forall d: nat {:trigger IsBoundary(es, m, d)} | |es0| <= d < |es| ::
       IsBoundary(es, m, d) && es[d].value.pair.Some? && es[d].value.pair.value < |es0| &&
       IsOpen(es0, es[d].value.pair.value)) &&
    (forall k | k in m0 :: k in m && m[k] == m0[k]) &&
    (forall k | k in m && k !in m0 :: |es0| <= m[k])
  }

  /** Only the `next` and `prev` links of face-less half-edges differ between `es0`
      and `es`. */
  ghost predicate BoundaryRelinked(es0: Edges, es: Edges)
  {
    SameCore(es0, es) &&
    forall d: nat | IsLive(es0, d) && es0[d].value.face.Some? :: es[d] == es0[d]
  }

  /** `vs` is `vs0` except that some vertices now reference a boundary half-edge. */
  ghost predicate BoundaryRepointed(vs0: Vertices, vs: Vertices, es: Edges, m: EdgeMap)
  {
    |vs| == |vs0| &&
    forall v: nat | v < |vs| ::
      vs[v] == vs0[v] ||
      (vs0[v].Some? && vs[v].Some? && vs[v].value == vs0[v].value.(edge := vs[v].value.edge) &&
       OnBoundary(vs, es, m, v))
  }

  ghost predicate Audited(vs: Vertices, es: Edges, m: EdgeMap)
  {
    forall e: nat | IsLive(es, e) :: EdgeAudited(vs, es, m, e)
  }

  // ---------------------------------------------------------------- isolation

  /** Nothing refers to half-edge `e`: the precondition of freeing its slot. */
  ghost predicate EdgeIsolated(vs: Vertices, es: Edges, fs: Faces, m: EdgeMap, e: nat)
  {
    (forall v: nat | IsLive(vs, v) :: vs[v].value.edge != Some(e)) &&
    (forall d: nat | IsLive(es, d) ::
       es[d].value.pair != Some(e) && es[d].value.next != Some(e) && es[d].value.prev != Some(e)) &&
    (forall f: nat | IsLive(fs, f) :: fs[f].value.edge != Some(e)) &&
    (forall k | k in m :: m[k] != e)
  }

  /** No half-edge starts or ends at vertex `v`. */
  ghost predicate VertexIsolated(es: Edges, v: nat)
  {
    forall e: nat | IsLive(es, e) :: es[e].value.origin != v && es[e].value.to != v
  }

  /** No half-edge belongs to face `f`. */
  ghost predicate FaceIsolated(es: Edges, f: nat)
  {
    forall e: nat | IsLive(es, e) :: es[e].value.face != Some(f)
  }

  // ---------------------------------------------------------------- frames

  /** `es2` differs from `es` at most in the `next`/`prev` links. */
  ghost predicate SameCore(es: Edges, es2: Edges)
  {
    |es2| == |es| &&
    (forall d: nat | d < |es| :: es2[d].Some? == es[d].Some?) &&
    (forall d: nat | d < |es| && es[d].Some? ::
       es2[d].value.origin == es[d].value.origin && es2[d].value.to == es[d].value.to &&
       es2[d].value.pair == es[d].value.pair && es2[d].value.face == es[d].value.face)
  }

  /** `es2` keeps every live half-edge of `es` with its endpoints and its pair if it
      had one, and a half-edge that had a face keeps the face and its links. */
  ghost predicate Extends(es: Edges, es2: Edges)
  {
    |es| <= |es2| &&
    forall d: nat | IsLive(es, d) ::
      Has(es2, d) && KeyOf(es2[d].value) == KeyOf(es[d].value) &&
      (es[d].value.pair.Some? ==> es2[d].value.pair == es[d].value.pair) &&
      (es[d].value.face.Some? ==>
         es2[d].value.face == es[d].value.face &&
         es2[d].value.next == es[d].value.next && es2[d].value.prev == es[d].value.prev)
  }

  /** No live half-edge of `es` gains, loses or changes its face in `es2`. */
  ghost predicate SameFaces(es: Edges, es2: Edges)
  {
    forall d: nat | IsLive(es, d) :: Has(es2, d) && es2[d].value.face == es[d].value.face
  }

  // ---------------------------------------------------------------- faces

  /** The `num` corners of a face starting at `first` in an index array. */
  function Window(a: seq<nat>, first: nat, num: nat): (w: seq<nat>)
    requires first + num <= |a|
    ensures |w| == num && forall k | 0 <= k < num :: w[k] == a[first + k]
  {
    a[first..first + num]
  }

  /** The `k`-th side of polygon `w`: the directed edge from corner `k` to the next
      corner, wrapping around after the last one. */
  function Side(w: seq<nat>, k: nat): Key
    requires k < |w|
  {
    Key(w[k], w[(k + 1) % |w|])
  }

  /** The number of the first `k` sides of `w` that are not keys of `m`. */
  function NewSides(w: seq<nat>, m: EdgeMap, k: nat): (n: nat)
    requires k <= |w|
    ensures n <= k
  {
    if k == 0 then 0 else NewSides(w, m, k - 1) + (if Side(w, k - 1) in m then 0 else 1)
  }

  /** `k` is one of the sides of polygon `w`. */
  ghost predicate IsSide(w: seq<nat>, k: Key)
  {
    exists t | 0 <= t < |w| :: Side(w, t) == k
  }

  /** The half-edge reached from `e` after `k` steps along `next`, if the walk gets that far. */
  function Walk(es: Edges, e: nat, k: nat): Option<nat>
  {
    if k == 0 then Some(e)
    else match Walk(es, e, k - 1)
      case None => None
      case Some(d) => if Has(es, d) then es[d].value.next else None
  }

  /** Walking `next` from `e` visits half-edges of face `f` whose keys are the sides
      of `w` in order, and returns to `e` after |w| steps. */
  ghost predicate CycleFrom(es: Edges, e: nat, f: nat, w: seq<nat>)
  {
    (forall k: nat | k < |w| ::
       var x := Walk(es, e, k);
       x.Some? && Has(es, x.value) && KeyOf(es[x.value].value) == Side(w, k) &&
       es[x.value].value.face == Some(f)) &&
    Walk(es, e, |w|) == Some(e)
  }

  /** Face `f` is the polygon `w`: its half-edge starts a cycle of its sides. */
  ghost predicate IsFaceCycle(es: Edges, fs: Faces, f: nat, w: seq<nat>)
  {
    IsLive(fs, f) && fs[f].value.edge.Some? && CycleFrom(es, fs[f].value.edge.value, f, w)
  }

  /** No face uses the half-edge registered under `k`. */
  predicate FreeKey(es: Edges, m: EdgeMap, k: Key)
  {
    k !in m || (Has(es, m[k]) && es[m[k]].value.face.None?)
  }

  /** The vertex reached from `u` after `k` steps along the colocal links. */
  function ColocalWalk(vs: Vertices, u: nat, k: nat): nat
    decreases k
  {
    if k == 0 || !Has(vs, u) then u else ColocalWalk(vs, vs[u].value.colocalNext, k - 1)
  }

  /** `v` is on the colocal ring of `u`. */
  ghost predicate SameRing(vs: Vertices, u: nat, v: nat)
  {
    exists k: nat :: ColocalWalk(vs, u, k) == v
  }

  /** `v` is reached from `u` in fewer steps along the colocal links than there are
      vertex slots: as a ring has no more members than slots, this is `SameRing`
      for a well-formed ring. */
  ghost predicate Colocal(vs: Vertices, u: nat, v: nat)
  {
    exists k: nat | k < |vs| :: ColocalWalk(vs, u, k) == v
  }

  /** `vs` has the vertices of `vs0` with their colocal links, and every vertex
      that had an incident half-edge still has the same one. */
  ghost predicate VertexEdgesKept(vs0: Vertices, vs: Vertices)
  {
    |vs| == |vs0| &&
    forall v | 0 <= v < |vs| ::
      vs[v].Some? == vs0[v].Some? &&
      (vs[v].Some? ==>
         vs[v].value.colocalNext == vs0[v].value.colocalNext &&
         vs[v].value.colocalPrev == vs0[v].value.colocalPrev &&
         (vs0[v].value.edge.Some? ==> vs[v].value.edge == vs0[v].value.edge))
  }

  // ---------------------------------------------------------------- adding a face

  /** Half-edge `d` belongs to face `f`. */
  predicate InFace(es: Edges, d: nat, f: nat)
  {
    Has(es, d) && es[d].value.face == Some(f)
  }

  /** Half-edge `x` is `x0`, except that it may have gained a pair in face `f` and
      lost links to half-edges of face `f`. */
  predicate KeptBesideFace(x0: Edge, x: Edge, es: Edges, f: nat)
  {
    x.origin == x0.origin && x.to == x0.to && x.face == x0.face &&
    (x.pair == x0.pair || (x0.pair.None? && x.pair.Some? && InFace(es, x.pair.value, f))) &&
    (x.next == x0.next || (x.next.None? && x0.next.Some? && InFace(es, x0.next.value, f))) &&
    (x.prev == x0.prev || (x.prev.None? && x0.prev.Some? && InFace(es, x0.prev.value, f)))
  }

  /** `es` is `es0` with face `f` added: holes stay holes, every new slot belongs
      to `f`, and every half-edge that does not belong to `f` is kept beside it. */
  ghost predicate FaceAddedOnly(es0: Edges, es: Edges, f: nat)
  {
    |es0| <= |es| &&
    (forall d: nat | d < |es0| && es0[d].None? :: es[d].None?) &&
    (forall d: nat | |es0| <= d < |es| :: InFace(es, d, f)) &&
    (forall d: nat | IsLive(es0, d) ::
       Has(es, d) && (es[d].value.face != Some(f) ==> KeptBesideFace(es0[d].value, es[d].value, es, f)))
  }

  /** Every half-edge of face `f` in `es0` still belongs to it in `es`. */
  ghost predicate KeepsFace(es0: Edges, es: Edges, f: nat)
  {
    forall d: nat | InFace(es0, d, f) :: InFace(es, d, f)
  }

  /** `vs` is `vs0` except that corners of `w` without an incident half-edge may
      have been given one of face `f`. */
  ghost predicate CornersOnly(vs0: Vertices, vs: Vertices, es: Edges, w: seq<nat>, f: nat)
  {
    |vs| == |vs0| &&
    forall v | 0 <= v < |vs| ::
      vs[v] == vs0[v] ||
      (v in w && vs0[v].Some? && vs0[v].value.edge.None? && vs[v].Some? && vs[v].value.edge.Some? &&
       vs[v].value == vs0[v].value.(edge := vs[v].value.edge) && InFace(es, vs[v].value.edge.value, f))
  }
}
