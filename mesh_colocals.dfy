/** Colocal rings built from a canonical map: vertex `u` belongs to group `cm[u]`.
    Chaining the vertices one by one, each after the first member of its group,
    leaves every group as a ring that runs through its members in decreasing id
    order and wraps from the smallest to the largest. `Linked(vs, cm, b)` is that
    state once the vertices below `b` are chained. */
module MeshColocals {
  import opened MeshTypes
  import opened MeshInvariants

  /** The last vertex before `u` in group `g`. */
  function PrevIn(cm: seq<nat>, g: nat, u: nat): (r: Option<nat>)
    requires u <= |cm|
    ensures r.Some? ==> r.value < u && cm[r.value] == g && forall w | r.value < w < u :: cm[w] != g
    ensures r.None? ==> forall w | 0 <= w < u :: cm[w] != g
  {
    if u == 0 then None else if cm[u - 1] == g then Some(u - 1) else PrevIn(cm, g, u - 1)
  }

  /** The first vertex in [u, b) in group `g`. */
  function NextIn(cm: seq<nat>, g: nat, u: nat, b: nat): (r: Option<nat>)
    requires u <= b <= |cm|
    decreases b - u
    ensures r.Some? ==> u <= r.value < b && cm[r.value] == g && forall w | u <= w < r.value :: cm[w] != g
    ensures r.None? ==> forall w | u <= w < b :: cm[w] != g
  {
    if u == b then None else if cm[u] == g then Some(u) else NextIn(cm, g, u + 1, b)
  }

  /** The colocal successor of `u` once the vertices below `b` are chained: the
      previous member of its group, or the last one below `b` for the first member. */
  function RingNext(cm: seq<nat>, b: nat, u: nat): nat
    requires u < |cm| && b <= |cm|
  {
    if b <= u then u
    else match PrevIn(cm, cm[u], u)
      case Some(w) => w
      case None => var l := PrevIn(cm, cm[u], b); if l.Some? then l.value else u
  }

  /** The colocal predecessor: the next member of the group below `b`, or the first
      member for the last one. */
  function RingPrev(cm: seq<nat>, b: nat, u: nat): nat
    requires u < |cm| && b <= |cm|
  {
    if b <= u then u
    else match NextIn(cm, cm[u], u + 1, b)
      case Some(w) => w
      case None => var f := NextIn(cm, cm[u], 0, b); if f.Some? then f.value else u
  }

  /** The vertices with the colocal links of the groups chained below `b`. */
  function Linked(vs: Vertices, cm: seq<nat>, b: nat): (r: Vertices)
    requires |cm| == |vs| && b <= |vs|
    ensures |r| == |vs|
  {
    seq(|vs|, u requires 0 <= u < |vs| =>
      match vs[u]
      case None => None
      case Some(x) => Some(x.(colocalNext := RingNext(cm, b, u), colocalPrev := RingPrev(cm, b, u))))
  }

  /** `Vertex::linkColocal`: inserts `v` into the ring of `r`, right after `r`. */
  function LinkColocal(vs: Vertices, r: nat, v: nat): Vertices
    requires Has(vs, r) && Has(vs, v) && Has(vs, vs[r].value.colocalNext)
  {
    var l := vs[r].value.colocalNext;
    var s1 := vs[l := Some(vs[l].value.(colocalPrev := v))];
    var s2 := s1[v := Some(s1[v].value.(colocalNext := l))];
    var s3 := s2[r := Some(s2[r].value.(colocalNext := v))];
    s3[v := Some(s3[v].value.(colocalPrev := r))]
  }

  /** Every vertex of `vs` is live and alone in its ring. */
  ghost predicate Singletons(vs: Vertices)
  {
    forall u | 0 <= u < |vs| :: vs[u].Some? && vs[u].value.colocalNext == u && vs[u].value.colocalPrev == u
  }

  /** Extending the search range by one position. */
  lemma {:induction false} NextInExtend(cm: seq<nat>, g: nat, u: nat, b: nat)
    requires u <= b < |cm|
    decreases b - u
    ensures NextIn(cm, g, u, b + 1) ==
              if NextIn(cm, g, u, b).Some? then NextIn(cm, g, u, b)
              else if cm[b] == g then Some(b) else None
  {
    if u < b {
      NextInExtend(cm, g, u + 1, b);
    }
  }

  /** The table of first vertices per id, one position further: only the id of
      vertex `b` can change, and only if it had no vertex yet. */
  lemma FirstsExtend(cm: seq<nat>, idMax: nat, b: nat, first: seq<Option<nat>>, first': seq<Option<nat>>)
    requires b < |cm| && cm[b] <= idMax && |first| == idMax + 1
    requires forall g | 0 <= g <= idMax :: first[g] == NextIn(cm, g, 0, b)
    requires first' == if first[cm[b]].None? then first[cm[b] := Some(b)] else first
    ensures forall g | 0 <= g <= idMax :: first'[g] == NextIn(cm, g, 0, b + 1)
  {
    forall g | 0 <= g <= idMax ensures first'[g] == NextIn(cm, g, 0, b + 1) {
      NextInExtend(cm, g, 0, b);
    }
  }

  /** Nothing is chained before the first vertex. */
  lemma LinkedNothing(vs: Vertices, cm: seq<nat>)
    requires |cm| == |vs| && Singletons(vs)
    ensures Linked(vs, cm, 0) == vs
  {
    var r := Linked(vs, cm, 0);
    forall u | 0 <= u < |vs| ensures r[u] == vs[u] {
      assert vs[u].Some?;
    }
  }

  /** Chaining vertex `b` changes the successor of `b` and of the first member of
      its group, and no other. */
  lemma RingNextStep(cm: seq<nat>, b: nat, u: nat)
    requires b < |cm| && u < |cm|
    ensures RingNext(cm, b + 1, u) ==
              if u == b then (if PrevIn(cm, cm[b], b).Some? then PrevIn(cm, cm[b], b).value else b)
              else if u < b && cm[u] == cm[b] && PrevIn(cm, cm[u], u).None? then b
              else RingNext(cm, b, u)
  {
  }

  /** Chaining vertex `b` changes the predecessor of `b` and of the last member of
      its group below `b`, and no other. */
  lemma RingPrevStep(cm: seq<nat>, b: nat, u: nat)
    requires b < |cm| && u < |cm|
    ensures RingPrev(cm, b + 1, u) ==
              if u == b then (if NextIn(cm, cm[b], 0, b).Some? then NextIn(cm, cm[b], 0, b).value else b)
              else if u < b && cm[u] == cm[b] && NextIn(cm, cm[u], u + 1, b).None? then b
              else RingPrev(cm, b, u)
  {
    if u < b {
      NextInExtend(cm, cm[u], u + 1, b);
      NextInExtend(cm, cm[u], 0, b);
    } else if u == b {
      NextInExtend(cm, cm[b], 0, b);
    }
  }

  /** The first member of a group is its own ring when it is chained. */
  lemma LinkedFirst(vs: Vertices, cm: seq<nat>, b: nat)
    requires |cm| == |vs| && b < |vs| && forall u | 0 <= u < |vs| :: vs[u].Some?
    requires NextIn(cm, cm[b], 0, b).None?
    ensures Linked(vs, cm, b + 1) == Linked(vs, cm, b)
  {
    var s, t := Linked(vs, cm, b), Linked(vs, cm, b + 1);
    forall u | 0 <= u < |vs| ensures t[u] == s[u] {
      RingNextStep(cm, b, u);
      RingPrevStep(cm, b, u);
      if u < b {
        assert cm[u] != cm[b];
      }
    }
  }

  /** Chaining vertex `b` after `r`, the first member of its group, is the next stage. */
  lemma LinkedJoin(vs: Vertices, cm: seq<nat>, b: nat, r: nat)
    requires |cm| == |vs| && b < |vs| && forall u | 0 <= u < |vs| :: vs[u].Some?
    requires NextIn(cm, cm[b], 0, b) == Some(r)
    ensures Has(Linked(vs, cm, b), Linked(vs, cm, b)[r].value.colocalNext)
    ensures Linked(vs, cm, b + 1) == LinkColocal(Linked(vs, cm, b), r, b)
  {
    var g := cm[b];
    var s, t := Linked(vs, cm, b), Linked(vs, cm, b + 1);
    var l := PrevIn(cm, g, b).value;
    assert PrevIn(cm, g, r).None?;
    assert s[r].value.colocalNext == l;
    var z := LinkColocal(s, r, b);
    forall u | 0 <= u < |vs| ensures t[u] == z[u] {
      RingNextStep(cm, b, u);
      RingPrevStep(cm, b, u);
      if u < b && cm[u] == g {
        assert PrevIn(cm, g, u).None? <==> u == r;
        assert NextIn(cm, g, u + 1, b).None? <==> u == l;
      }
    }
  }

  /** The predecessor of a vertex's successor is the vertex itself. */
  lemma PrevOfNext(cm: seq<nat>, b: nat, u: nat)
    requires u < |cm| && b <= |cm|
    ensures RingNext(cm, b, u) < |cm| && cm[RingNext(cm, b, u)] == cm[u]
    ensures RingPrev(cm, b, RingNext(cm, b, u)) == u
  {
    if u < b {
      var g := cm[u];
      match PrevIn(cm, g, u)
      case Some(w) => {
        assert NextIn(cm, g, w + 1, b) == Some(u);
      }
      case None => {
        var l := PrevIn(cm, g, b).value;
        assert NextIn(cm, g, l + 1, b).None?;
      }
    }
  }

  /** The successor of a vertex's predecessor is the vertex itself. */
  lemma NextOfPrev(cm: seq<nat>, b: nat, u: nat)
    requires u < |cm| && b <= |cm|
    ensures RingPrev(cm, b, u) < |cm| && cm[RingPrev(cm, b, u)] == cm[u]
    ensures RingNext(cm, b, RingPrev(cm, b, u)) == u
  {
    if u < b {
      var g := cm[u];
      match NextIn(cm, g, u + 1, b)
      case Some(w) => {
        assert PrevIn(cm, g, w) == Some(u);
      }
      case None => {
        var f := NextIn(cm, g, 0, b).value;
        assert PrevIn(cm, g, f).None?;
      }
    }
  }

  /** Successor and predecessor are inverse: the groups are rings. */
  lemma RingInverse(cm: seq<nat>, b: nat, u: nat)
    requires u < |cm| && b <= |cm|
    ensures RingNext(cm, b, u) < |cm| && RingPrev(cm, b, u) < |cm|
    ensures cm[RingNext(cm, b, u)] == cm[u] && cm[RingPrev(cm, b, u)] == cm[u]
    ensures RingPrev(cm, b, RingNext(cm, b, u)) == u
    ensures RingNext(cm, b, RingPrev(cm, b, u)) == u
  {
    PrevOfNext(cm, b, u);
    NextOfPrev(cm, b, u);
  }

  /** The chained rings keep the structural invariant. */
  lemma LinkedWf(vs: Vertices, es: Edges, fs: Faces, m: EdgeMap, cm: seq<nat>)
    requires Wf(vs, es, fs, m) && |cm| == |vs| && forall u | 0 <= u < |vs| :: vs[u].Some?
    ensures Wf(Linked(vs, cm, |vs|), es, fs, m)
  {
    var r := Linked(vs, cm, |vs|);
    forall u: nat | IsLive(r, u) ensures VertexEdgeAt(r, es, u) && RingAt(r, u) {
      assert IsLive(vs, u) && VertexEdgeAt(vs, es, u);
      RingInverse(cm, |vs|, u);
    }
    forall d: nat | IsLive(es, d)
      ensures EndsAt(r, es, fs, d) && PairAt(es, d) && LinksAt(es, d) && RegAt(es, m, d)
    {
      assert EndsAt(vs, es, fs, d);
    }
  }

  /** `k` steps along the chained successor function. */
  function RingWalk(cm: seq<nat>, b: nat, u: nat, k: nat): nat
    requires u < |cm| && b <= |cm|
    decreases k
  {
    if k == 0 then u
    else
      RingInverse(cm, b, u);
      RingWalk(cm, b, RingNext(cm, b, u), k - 1)
  }

  lemma {:induction false} RingWalkAdd(cm: seq<nat>, b: nat, u: nat, j: nat, k: nat)
    requires u < |cm| && b <= |cm|
    decreases j
    ensures RingWalk(cm, b, u, j) < |cm|
    ensures RingWalk(cm, b, u, j + k) == RingWalk(cm, b, RingWalk(cm, b, u, j), k)
  {
    if j > 0 {
      RingInverse(cm, b, u);
      RingWalkAdd(cm, b, RingNext(cm, b, u), j - 1, k);
    }
  }

  /** Walking the ring never leaves the group. */
  lemma {:induction false} RingWalkInGroup(cm: seq<nat>, b: nat, u: nat, k: nat)
    requires u < |cm| && b <= |cm|
    decreases k
    ensures RingWalk(cm, b, u, k) < |cm| && cm[RingWalk(cm, b, u, k)] == cm[u]
  {
    if k > 0 {
      RingInverse(cm, b, u);
      RingWalkInGroup(cm, b, RingNext(cm, b, u), k - 1);
    }
  }

  /** From a chained member, walking reaches every smaller member of its group. */
  lemma {:induction false} ReachDown(cm: seq<nat>, b: nat, u: nat, v: nat) returns (k: nat)
    requires v <= u < b <= |cm| && cm[v] == cm[u]
    decreases u - v
    ensures RingWalk(cm, b, u, k) == v
  {
    if u == v {
      k := 0;
    } else {
      var w := PrevIn(cm, cm[u], u).value;
      RingInverse(cm, b, u);
      var k1 := ReachDown(cm, b, w, v);
      k := k1 + 1;
    }
  }

  /** Two chained vertices are in the same ring exactly when they are in the same group. */
  lemma SameRingIffSameGroup(cm: seq<nat>, b: nat, u: nat, v: nat)
    requires u < b && v < b && b <= |cm|
    ensures cm[u] == cm[v] <==> exists k: nat :: RingWalk(cm, b, u, k) == v
  {
    if cm[u] == cm[v] {
      var k;
      if v <= u {
        k := ReachDown(cm, b, u, v);
      } else {
        var g := cm[u];
        var lo := NextIn(cm, g, 0, b).value;
        var hi := PrevIn(cm, g, b).value;
        var k1 := ReachDown(cm, b, u, lo);
        assert PrevIn(cm, g, lo).None?;
        assert RingNext(cm, b, lo) == hi;
        assert RingWalk(cm, b, lo, 1) == hi;
        RingWalkAdd(cm, b, u, k1, 1);
        var k2 := ReachDown(cm, b, hi, v);
        RingWalkAdd(cm, b, u, k1 + 1, k2);
        k := k1 + 1 + k2;
      }
      assert RingWalk(cm, b, u, k) == v;
    }
    forall k: nat ensures RingWalk(cm, b, u, k) == v ==> cm[u] == cm[v] {
      RingWalkInGroup(cm, b, u, k);
    }
  }

  /** Walking the chained array is walking the chained successor function. */
  lemma {:induction false} ColocalWalkIsRingWalk(vs: Vertices, cm: seq<nat>, u: nat, k: nat)
    requires |cm| == |vs| && u < |vs| && forall w | 0 <= w < |vs| :: vs[w].Some?
    decreases k
    ensures ColocalWalk(Linked(vs, cm, |vs|), u, k) == RingWalk(cm, |vs|, u, k)
  {
    if k > 0 {
      RingInverse(cm, |vs|, u);
      ColocalWalkIsRingWalk(vs, cm, RingNext(cm, |vs|, u), k - 1);
    }
  }

  /** Once every vertex is chained, two vertices share a colocal ring exactly when
      they have the same canonical id. */
  lemma LinkedRingsAreGroups(vs: Vertices, cm: seq<nat>, u: nat, v: nat)
    requires |cm| == |vs| && u < |vs| && v < |vs| && forall w | 0 <= w < |vs| :: vs[w].Some?
    ensures SameRing(Linked(vs, cm, |vs|), u, v) <==> cm[u] == cm[v]
  {
    var r := Linked(vs, cm, |vs|);
    SameRingIffSameGroup(cm, |vs|, u, v);
    if cm[u] == cm[v] {
      var k: nat :| RingWalk(cm, |vs|, u, k) == v;
      ColocalWalkIsRingWalk(vs, cm, u, k);
    }
    if SameRing(r, u, v) {
      var k: nat :| ColocalWalk(r, u, k) == v;
      ColocalWalkIsRingWalk(vs, cm, u, k);
    }
  }

  /** The ids with a first member are exactly the ids that occur. */
  lemma FirstsAreIds(cm: seq<nat>, idMax: nat, first: seq<Option<nat>>)
    requires forall u | 0 <= u < |cm| :: cm[u] <= idMax
    requires |first| == idMax + 1 && forall g | 0 <= g <= idMax :: first[g] == NextIn(cm, g, 0, |cm|)
    ensures (set h: nat | h < |first| && first[h].Some?) == (set u | 0 <= u < |cm| :: cm[u])
  {
    forall h: nat | h < |first| && first[h].Some? ensures h in (set u | 0 <= u < |cm| :: cm[u]) {
      assert cm[first[h].value] == h;
    }
    forall u | 0 <= u < |cm| ensures cm[u] < |first| && first[cm[u]].Some? {
      assert cm[u] <= idMax;
    }
  }

  /** One more step of a colocal walk follows the link of the vertex reached. */
  lemma {:induction false} ColocalWalkStep(vs: Vertices, u: nat, k: nat)
    ensures var w := ColocalWalk(vs, u, k);
      ColocalWalk(vs, u, k + 1) == if Has(vs, w) then vs[w].value.colocalNext else w
    decreases k
  {
    if k > 0 && Has(vs, u) {
      ColocalWalkStep(vs, vs[u].value.colocalNext, k - 1);
    }
  }
}
