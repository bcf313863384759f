/** The half-edge Mesh container: three entity arrays with holes for removed
    entities, the edge lookup keyed by ordered vertex pairs, the colocal group
    counter and the diagnostic triple. */
module HalfEdgeMesh {
  import opened MeshTypes
  import opened MeshInvariants
  import opened MeshUpdates
  import opened MeshRemoval
  import opened MeshColocals
  import opened MeshCompaction
  import opened MeshSewing

  /** Stage `k` of linking the half-edges `c` into a cycle, seen at position `t`:
      the half-edge keeps everything but its links from `es0`, and c[0] .. c[k]
      are chained by `next`/`prev`. */
  ghost predicate ChainAt(es: Edges, es0: Edges, c: seq<nat>, k: nat, t: nat)
    requires t < |c|
  {
    Has(es, c[t]) && Has(es0, c[t]) &&
    es[c[t]].value.(next := None, prev := None) == es0[c[t]].value &&
    es[c[t]].value.next == (if t < k && t + 1 < |c| then Some(c[t + 1]) else None) &&
    es[c[t]].value.prev == (if 0 < t <= k then Some(c[t - 1]) else None)
  }

  /** One linking step keeps every other half-edge of the chain and the rest of the array. */
  lemma ChainStep(es: Edges, es0: Edges, c: seq<nat>, k: nat, k1: nat)
    requires k1 == k + 1 && k1 < |c| && |es| == |es0| && Has(es, c[k]) && Has(es, c[k1])
    requires forall t | 0 <= t < |c| :: ChainAt(es, es0, c, k, t)
    requires forall t, u | 0 <= t < u < |c| :: c[t] != c[u]
    requires forall d | 0 <= d < |es0| && d !in c :: es[d] == es0[d]
    ensures var a, b := c[k], c[k + 1];
      var r := es[a := Some(es[a].value.(next := Some(b)))][b := Some(es[b].value.(prev := Some(a)))];
      |r| == |es0| &&
      (forall t | 0 <= t < |c| :: ChainAt(r, es0, c, k1, t)) &&
      (forall d | 0 <= d < |es0| && d !in c :: r[d] == es0[d])
  {
    var a, b := c[k], c[k + 1];
    assert ChainAt(es, es0, c, k, k) && ChainAt(es, es0, c, k, k + 1);
    var r := es[a := Some(es[a].value.(next := Some(b)))][b := Some(es[b].value.(prev := Some(a)))];
    forall t | 0 <= t < |c| ensures ChainAt(r, es0, c, k1, t) {
      assert ChainAt(es, es0, c, k, t);
    }
  }

  /** The closing step turns the chain into a cycle. */
  lemma ChainClose(es: Edges, es0: Edges, c: seq<nat>, last: nat)
    requires |c| >= 2 && last == |c| - 1 && |es| == |es0| && Has(es, c[0]) && Has(es, c[last])
    requires forall t | 0 <= t < |c| :: ChainAt(es, es0, c, last, t)
    requires forall t, u | 0 <= t < u < |c| :: c[t] != c[u]
    requires forall d | 0 <= d < |es0| && d !in c :: es[d] == es0[d]
    ensures var a, b := c[|c| - 1], c[0];
      var r := es[a := Some(es[a].value.(next := Some(b)))][b := Some(es[b].value.(prev := Some(a)))];
      |r| == |es0| &&
      (forall d | 0 <= d < |es0| && d !in c :: r[d] == es0[d]) &&
      (forall t | 0 <= t < |c| ::
         c[t] < |r| && r[c[t]].Some? && es0[c[t]].Some? && r[c[t]].value.(next := None, prev := None) == es0[c[t]].value) &&
      (forall t | 0 <= t < |c| - 1 :: r[c[t]].value.next == Some(c[t + 1])) &&
      r[c[|c| - 1]].value.next == Some(c[0])
  {
    var n := |c|;
    var a, b := c[n - 1], c[0];
    assert ChainAt(es, es0, c, n - 1, n - 1) && ChainAt(es, es0, c, n - 1, 0);
    var r := es[a := Some(es[a].value.(next := Some(b)))][b := Some(es[b].value.(prev := Some(a)))];
    forall t | 0 <= t < n ensures c[t] < |r| && r[c[t]].Some? && es0[c[t]].Some? && r[c[t]].value.(next := None, prev := None) == es0[c[t]].value {
      assert ChainAt(es, es0, c, n - 1, t);
    }
    forall t | 0 <= t < n - 1 ensures r[c[t]].value.next == Some(c[t + 1]) {
      assert ChainAt(es, es0, c, n - 1, t);
    }
  }

  /** The half-edge `c[t]` added for side `t` of face `f`: registered, unlinked. */
  ghost predicate SideEdgeAt(es: Edges, m: EdgeMap, w: seq<nat>, c: seq<nat>, f: nat, t: nat)
    requires t < |c| && t < |w|
  {
    IsLive(es, c[t]) && KeyOf(es[c[t]].value) == Side(w, t) && es[c[t]].value.face == Some(f) &&
    es[c[t]].value.next.None? && es[c[t]].value.prev.None? && Registered(es, m, c[t])
  }

  /** `m` agrees with `m0` on every key that is not a side of `w`. */
  ghost predicate OtherKeysKept(w: seq<nat>, m0: EdgeMap, m: EdgeMap)
  {
    forall k | !IsSide(w, k) :: (k in m <==> k in m0) && (k in m ==> m[k] == m0[k])
  }

  /** Stage |c| of adding the sides of `w` to face `f`, starting from `es0`, `m0`. */
  ghost predicate SidesAdded(es: Edges, m: EdgeMap, es0: Edges, m0: EdgeMap, w: seq<nat>, c: seq<nat>, f: nat)
  {
    |c| <= |w| &&
    (forall t | 0 <= t < |c| :: SideEdgeAt(es, m, w, c, f, t)) &&
    (forall t | |c| <= t < |w| :: FreeKey(es, m, Side(w, t))) &&
    (forall t | 0 <= t < |c| :: !IsLive(es0, c[t]) || es0[c[t]].value.face.None?) &&
    Extends(es0, es) &&
    OtherKeysKept(w, m0, m) &&
    (forall t, u | 0 <= t < u < |w| :: Side(w, t) != Side(w, u))
  }

  /** Adding the half-edge `e` for the next side advances the stage. */
  lemma SidesStep(es1: Edges, m1: EdgeMap, es2: Edges, m2: EdgeMap, es0: Edges, m0: EdgeMap,
                  w: seq<nat>, c: seq<nat>, f: nat, e: nat)
    requires SidesAdded(es1, m1, es0, m0, w, c, f) && |c| < |w| && MapOk(es1, m1)
    requires IsLive(es2, e) && KeyOf(es2[e].value) == Side(w, |c|) && es2[e].value.face == Some(f) &&
             es2[e].value.next.None? && es2[e].value.prev.None? && Registered(es2, m2, e)
    requires m2 == m1[Side(w, |c|) := e]
    requires !IsLive(es1, e) || es1[e].value.face.None?
    requires Extends(es1, es2)
    requires forall d: nat | IsLive(es1, d) && d != e :: Has(es2, d) && es2[d].value.face == es1[d].value.face
    ensures SidesAdded(es2, m2, es0, m0, w, c + [e], f)
  {
    var k := |c|;
    var s := Side(w, k);
    var c2 := c + [e];
    ExtendsTransitive(es0, es1, es2);
    forall t | 0 <= t < k + 1 ensures SideEdgeAt(es2, m2, w, c2, f, t) {
      if t < k {
        assert SideEdgeAt(es1, m1, w, c, f, t);
        assert Side(w, t) != s;
        assert IsLive(es1, c[t]);
      }
    }
    forall t | k + 1 <= t < |w| ensures FreeKey(es2, m2, Side(w, t)) {
      assert FreeKey(es1, m1, Side(w, t));
      assert Side(w, k) != Side(w, t);
      if Side(w, t) in m1 {
        var d := m1[Side(w, t)];
        assert IsLive(es1, d) && KeyOf(es1[d].value) == Side(w, t);
      }
    }
    forall t | 0 <= t < k + 1 ensures !IsLive(es0, c2[t]) || es0[c2[t]].value.face.None? {
      if t == k && IsLive(es0, e) && es0[e].value.face.Some? {
        assert IsLive(es0, e);
      }
    }
    forall key | !IsSide(w, key) ensures (key in m2 <==> key in m0) && (key in m2 ==> m2[key] == m0[key]) {
      assert key != s;
    }
  }

  /** Adding the half-edge for side `k` grows the array by one exactly when the side
      was new, and leaves the later sides as new or as registered as they were. */
  lemma SideCountStep(es0: Edges, m0: EdgeMap, es1: Edges, m1: EdgeMap, es2: Edges, m2: EdgeMap,
                      w: seq<nat>, k: nat, e: nat)
    requires k < |w| && forall t, u | 0 <= t < u < |w| :: Side(w, t) != Side(w, u)
    requires |es1| == |es0| + NewSides(w, m0, k)
    requires forall t | k <= t < |w| :: (Side(w, t) in m1 <==> Side(w, t) in m0)
    requires |es2| == |es1| + (if Side(w, k) in m1 then 0 else 1)
    requires m2 == m1[Side(w, k) := e]
    ensures |es2| == |es0| + NewSides(w, m0, k + 1)
    ensures forall t | k + 1 <= t < |w| :: (Side(w, t) in m2 <==> Side(w, t) in m0)
  {
    forall t | k + 1 <= t < |w| ensures (Side(w, t) in m2 <==> Side(w, t) in m0) {
      assert Side(w, k) != Side(w, t);
    }
  }

  class Mesh {
    var vertexArray: Vertices
    var edgeArray: Edges
    var faceArray: Faces
    var edgeMap: EdgeMap
    var colocalVertexCount: nat

    // Error status, written by the operations that reject an input.
    var errorCount: nat
    var errorIndex0: nat
    var errorIndex1: nat

    ghost predicate Valid()
      reads this`vertexArray, this`edgeArray, this`faceArray, this`edgeMap
    {
      Wf(vertexArray, edgeArray, faceArray, edgeMap)
    }

    constructor ()
      ensures Valid()
      ensures vertexArray == [] && edgeArray == [] && faceArray == [] && edgeMap == map[]
      ensures colocalVertexCount == 0 && errorCount == 0 && errorIndex0 == 0 && errorIndex1 == 0
    {
      vertexArray, edgeArray, faceArray, edgeMap := [], [], [], map[];
      colocalVertexCount := 0;
      errorCount, errorIndex0, errorIndex1 := 0, 0, 0;
    }

    /** Drops every entity and the edge lookup. */
    method Clear()
      modifies this
      ensures Valid()
      ensures vertexArray == [] && edgeArray == [] && faceArray == [] && edgeMap == map[]
      ensures colocalVertexCount == 0
      ensures errorCount == old(errorCount) && errorIndex0 == old(errorIndex0) && errorIndex1 == old(errorIndex1)
    {
      vertexArray, edgeArray, faceArray, edgeMap := [], [], [], map[];
      colocalVertexCount := 0;
    }

    // ---------------------------------------------------------------- accessors

    function VertexCount(): (n: nat)
      reads this
      ensures n == |vertexArray|
    {
      |vertexArray|
    }

    /** Slot `i` of the vertex array: the vertex with id `i`, or none if it was removed. */
    function VertexAt(i: nat): (r: Option<Vertex>)
      reads this
      requires i < VertexCount()
      ensures r == vertexArray[i]
      ensures r.Some? <==> IsLive(vertexArray, i)
    {
      vertexArray[i]
    }

    function FaceCount(): (n: nat)
      reads this
      ensures n == |faceArray|
    {
      |faceArray|
    }

    function FaceAt(i: nat): (r: Option<Face>)
      reads this
      requires i < FaceCount()
      ensures r == faceArray[i]
      ensures r.Some? <==> IsLive(faceArray, i)
    {
      faceArray[i]
    }

    function EdgeCount(): (n: nat)
      reads this
      ensures n == |edgeArray|
    {
      |edgeArray|
    }

    function EdgeAt(i: nat): (r: Option<Edge>)
      reads this
      requires i < EdgeCount()
      ensures r == edgeArray[i]
      ensures r.Some? <==> IsLive(edgeArray, i)
    {
      edgeArray[i]
    }

    function ColocalVertexCount(): (n: nat)
      reads this
      ensures n == colocalVertexCount
    {
      colocalVertexCount
    }

    // ---------------------------------------------------------------- construction

    /** Appends a vertex with the next id; it has no edge and is its own colocal ring. */
    method AddVertex() returns (v: nat)
      requires Valid()
      modifies this`vertexArray
      ensures Valid()
      ensures v == old(|vertexArray|)
      ensures vertexArray == old(vertexArray) + [Some(Vertex(None, v, v))]
    {
      v := |vertexArray|;
      var vs := vertexArray;
      vertexArray := vertexArray + [Some(Vertex(None, v, v))];
      forall u: nat | IsLive(vertexArray, u) ensures VertexEdgeAt(vertexArray, edgeArray, u) && RingAt(vertexArray, u) {
        if u < v {
          assert IsLive(vs, u) && VertexEdgeAt(vs, edgeArray, u) && RingAt(vs, u);
        }
      }
      forall d: nat | IsLive(edgeArray, d)
        ensures EndsAt(vertexArray, edgeArray, faceArray, d) && PairAt(edgeArray, d) &&
                LinksAt(edgeArray, d) && RegAt(edgeArray, edgeMap, d)
      {
        assert EndsAt(vs, edgeArray, faceArray, d);
      }
    }

    /** The half-edge registered from vertex `i` to vertex `j`, if any: at most one
        half-edge runs from `i` to `j` with any link, and it is this one. */
    function FindEdge(i: nat, j: nat): (r: Option<nat>)
      reads this`vertexArray, this`edgeArray, this`faceArray, this`edgeMap
      requires Valid()
      ensures r.Some? ==> IsLive(edgeArray, r.value) && KeyOf(edgeArray[r.value].value) == Key(i, j)
      ensures forall e: nat | IsLive(edgeArray, e) && KeyOf(edgeArray[e].value) == Key(i, j) && Connected(edgeArray[e].value) ::
                r == Some(e)
      ensures r.None? <==> Key(i, j) !in edgeMap
    {
      LookupCovers(vertexArray, edgeArray, faceArray, edgeMap, Key(i, j));
      if Key(i, j) in edgeMap then Some(edgeMap[Key(i, j)]) else None
    }

    /** The directed edge `i -> j` may be given to a new face: its endpoints are
        distinct live vertices and no face already uses a half-edge from `i` to `j`. */
    function CanAddEdge(i: nat, j: nat): (r: bool)
      reads this`vertexArray, this`edgeArray, this`faceArray, this`edgeMap
      requires Valid()
      ensures r <==> i != j && IsLive(vertexArray, i) && IsLive(vertexArray, j) &&
                     forall e: nat | IsLive(edgeArray, e) && KeyOf(edgeArray[e].value) == Key(i, j) ::
                       edgeArray[e].value.face.None?
      ensures r <==> i != j && IsLive(vertexArray, i) && IsLive(vertexArray, j) &&
                     FreeKey(edgeArray, edgeMap, Key(i, j))
    {
      i != j && IsLive(vertexArray, i) && IsLive(vertexArray, j) &&
      match FindEdge(i, j)
      case None => true
      case Some(e) => edgeArray[e].value.face.None?
    }

    /** Clears the `next`/`prev` links of half-edge `e` and its neighbours' links to it. */
    method CutOut(e: nat)
      requires Valid() && IsLive(edgeArray, e)
      modifies this`edgeArray
      ensures edgeArray == CutLinks(old(edgeArray), e)
      ensures Valid()
    {
      ghost var es := edgeArray;
      assert LinksAt(es, e);
      var x := edgeArray[e].value;
      edgeArray := edgeArray[e := Some(x.(next := None, prev := None))];
      if x.next.Some? && x.next.value != e {
        var n := x.next.value;
        edgeArray := edgeArray[n := Some(edgeArray[n].value.(prev := None))];
      }
      if x.prev.Some? && x.prev.value != e {
        var p := x.prev.value;
        edgeArray := edgeArray[p := Some(edgeArray[p].value.(next := None))];
      }
      forall d: nat | d < |es| ensures edgeArray[d] == CutAt(es, e, d) {
        if es[d].Some? {
          assert IsLive(es, d) && LinksAt(es, d);
        }
      }
      assert edgeArray == CutLinks(es, e);
      CutLinksWf(vertexArray, es, faceArray, edgeMap, e);
    }

    /** Returns a face-less half-edge from `i` to `j` with no links: the registered one
        if there is one, taken out of its boundary loop, otherwise a new one, paired
        with the half-edge from `j` to `i` when that one is registered. */
    method AddEdge(i: nat, j: nat) returns (e: nat)
      requires Valid() && CanAddEdge(i, j)
      modifies this`edgeArray, this`edgeMap
      ensures Valid()
      ensures IsLive(edgeArray, e) && Registered(edgeArray, edgeMap, e)
      ensures KeyOf(edgeArray[e].value) == Key(i, j)
      ensures edgeArray[e].value.face.None? && edgeArray[e].value.next.None? && edgeArray[e].value.prev.None?
      ensures edgeMap == old(edgeMap)[Key(i, j) := e]
      ensures Key(i, j) in old(edgeMap) ==>
                e == old(edgeMap[Key(i, j)]) && edgeArray == CutLinks(old(edgeArray), e)
      ensures Key(i, j) !in old(edgeMap) ==>
                e == old(|edgeArray|) && edgeArray == AppendEdges(old(edgeArray), old(edgeMap), i, j)
      ensures Extends(old(edgeArray), edgeArray) && SameFaces(old(edgeArray), edgeArray)
    {
      ghost var es := edgeArray;
      var found := FindEdge(i, j);
      if found.Some? {
        e := found.value;
        CutOut(e);
        CutUnfacedExtends(vertexArray, es, faceArray, edgeMap, e);
      } else {
        e := |edgeArray|;
        AppendEdgeWf(vertexArray, es, faceArray, edgeMap, i, j);
        AppendExtends(vertexArray, es, faceArray, edgeMap, i, j);
        var reverse := FindEdge(j, i);
        assert reverse == Lookup(edgeMap, Key(j, i));
        edgeArray := edgeArray + [Some(Edge(i, j, reverse, None, None, None))];
        if reverse.Some? {
          var r := reverse.value;
          edgeArray := edgeArray[r := Some(edgeArray[r].value.(pair := Some(e)))];
        }
        assert edgeArray == AppendEdges(es, edgeMap, i, j);
        edgeMap := edgeMap[Key(i, j) := e];
      }
    }

    /** `w` has at least three corners, every side of it may be added, and no side
        occurs twice. */
    ghost predicate FaceAddable(w: seq<nat>)
      reads this`vertexArray, this`edgeArray, this`faceArray, this`edgeMap
      requires Valid()
    {
      3 <= |w| &&
      (forall k | 0 <= k < |w| :: CanAddEdge(Side(w, k).p0, Side(w, k).p1)) &&
      (forall k, l | 0 <= k < l < |w| :: Side(w, k) != Side(w, l))
    }

    /** `i -> j` is a side of `w` that makes it not addable: a side that may not be
        added, or one that occurs twice. */
    ghost predicate Offending(w: seq<nat>, i: nat, j: nat)
      reads this`vertexArray, this`edgeArray, this`faceArray, this`edgeMap
      requires Valid()
    {
      exists k | 0 <= k < |w| ::
        Side(w, k) == Key(i, j) &&
        (!CanAddEdge(i, j) || exists l | 0 <= l < |w| && l != k :: Side(w, l) == Key(i, j))
    }

    /** The guard that `addFace` runs on the window `indexArray[first..first+num]`.
        A window of fewer than three corners is rejected as it is; on any other
        rejection the error indices record the offending side. */
    method CanAddFace(indexArray: seq<nat>, first: nat, num: nat) returns (r: bool)
      requires Valid() && first + num <= |indexArray|
      modifies this`errorIndex0, this`errorIndex1
      ensures r <==> FaceAddable(Window(indexArray, first, num))
      ensures errorCount == old(errorCount) && colocalVertexCount == old(colocalVertexCount)
      ensures r || num < 3 ==> errorIndex0 == old(errorIndex0) && errorIndex1 == old(errorIndex1)
      ensures !r && 3 <= num ==> Offending(Window(indexArray, first, num), errorIndex0, errorIndex1)
    {
      var w := Window(indexArray, first, num);
      if num < 3 {
        return false;
      }
      var k := 0;
      while k < num
        invariant 0 <= k <= num
        invariant forall t | 0 <= t < k :: CanAddEdge(Side(w, t).p0, Side(w, t).p1)
      {
        var s := Side(w, k);
        if !CanAddEdge(s.p0, s.p1) {
          errorIndex0, errorIndex1 := s.p0, s.p1;
          return false;
        }
        k := k + 1;
      }
      k := 0;
      while k < num
        invariant 0 <= k <= num
        invariant forall t, u | 0 <= t < u < num && t < k :: Side(w, t) != Side(w, u)
      {
        var l := k + 1;
        while l < num
          invariant k < l <= num
          invariant forall u | k < u < l :: Side(w, k) != Side(w, u)
        {
          if KeyEquals(Side(w, k), Side(w, l)) {
            errorIndex0, errorIndex1 := Side(w, k).p0, Side(w, k).p1;
            return false;
          }
          l := l + 1;
        }
        k := k + 1;
      }
      return true;
    }

    /** Adds the half-edge for side `s` of a new face `f`. */
    method AddSideEdge(s: Key, f: nat) returns (e: nat)
      requires Valid() && IsLive(faceArray, f) && CanAddEdge(s.p0, s.p1)
      modifies this`edgeArray, this`edgeMap
      ensures Valid()
      ensures IsLive(edgeArray, e) && KeyOf(edgeArray[e].value) == s && edgeArray[e].value.face == Some(f) &&
              edgeArray[e].value.next.None? && edgeArray[e].value.prev.None? && Registered(edgeArray, edgeMap, e)
      ensures edgeMap == old(edgeMap)[s := e]
      ensures !IsLive(old(edgeArray), e) || old(edgeArray)[e].value.face.None?
      ensures Extends(old(edgeArray), edgeArray)
      ensures forall d: nat | IsLive(old(edgeArray), d) && d != e ::
                Has(edgeArray, d) && edgeArray[d].value.face == old(edgeArray)[d].value.face
      ensures |edgeArray| == old(|edgeArray|) + (if s in old(edgeMap) then 0 else 1)
      ensures FaceAddedOnly(old(edgeArray), edgeArray, f) && KeepsFace(old(edgeArray), edgeArray, f)
    {
      ghost var es1 := edgeArray;
      ghost var m1 := edgeMap;
      e := AddEdge(s.p0, s.p1);
      ghost var es2 := edgeArray;
      if s in m1 {
        assert FreeKey(es1, m1, s);
        ReuseForFace(vertexArray, es1, faceArray, m1, e, f);
      } else {
        AppendForFace(vertexArray, es1, faceArray, m1, s.p0, s.p1, f);
      }
      SetFaceWf(vertexArray, edgeArray, faceArray, edgeMap, e, f);
      ExtendsSetFace(es1, edgeArray, e, f);
      edgeArray := edgeArray[e := Some(edgeArray[e].value.(face := Some(f)))];
      forall d: nat | IsLive(es1, d) && d != e ensures Has(edgeArray, d) && edgeArray[d].value.face == es1[d].value.face {
        assert IsLive(es1, d);
      }
    }

    /** Adds the half-edges of the sides of `w` to face `f`, unlinked, in order. */
    method AddFaceEdges(w: seq<nat>, f: nat) returns (c: seq<nat>)
      requires Valid() && IsLive(faceArray, f) && FaceAddable(w)
      modifies this`edgeArray, this`edgeMap
      ensures Valid()
      ensures |c| == |w|
      ensures forall t | 0 <= t < |w| ::
                IsLive(edgeArray, c[t]) && KeyOf(edgeArray[c[t]].value) == Side(w, t) &&
                edgeArray[c[t]].value.face == Some(f) &&
                edgeArray[c[t]].value.next.None? && edgeArray[c[t]].value.prev.None? &&
                Registered(edgeArray, edgeMap, c[t])
      ensures forall t | 0 <= t < |w| :: !IsLive(old(edgeArray), c[t]) || old(edgeArray)[c[t]].value.face.None?
      ensures Extends(old(edgeArray), edgeArray)
      ensures OtherKeysKept(w, old(edgeMap), edgeMap)
      ensures FaceAddedOnly(old(edgeArray), edgeArray, f) && KeepsFace(old(edgeArray), edgeArray, f)
      ensures |edgeArray| == old(|edgeArray|) + NewSides(w, old(edgeMap), |w|)
    {
      ghost var es0 := edgeArray;
      ghost var m0 := edgeMap;
      var n := |w|;
      forall t | 0 <= t < n
        ensures FreeKey(edgeArray, edgeMap, Side(w, t)) && Side(w, t).p0 != Side(w, t).p1 &&
                IsLive(vertexArray, Side(w, t).p0) && IsLive(vertexArray, Side(w, t).p1)
      {
        assert CanAddEdge(Side(w, t).p0, Side(w, t).p1);
      }
      c := [];
      var k := 0;
      while k < n
        invariant 0 <= k <= n && |c| == k
        invariant Valid()
        invariant SidesAdded(edgeArray, edgeMap, es0, m0, w, c, f)
        invariant FaceAddedOnly(es0, edgeArray, f) && KeepsFace(es0, edgeArray, f)
        invariant |edgeArray| == |es0| + NewSides(w, m0, k)
        invariant forall t | k <= t < n :: (Side(w, t) in edgeMap <==> Side(w, t) in m0)
      {
        var s := Side(w, k);
        assert FreeKey(edgeArray, edgeMap, s) && s.p0 != s.p1 && IsLive(vertexArray, s.p0) && IsLive(vertexArray, s.p1);
        ghost var es1 := edgeArray;
        ghost var m1 := edgeMap;
        var e := AddSideEdge(s, f);
        FaceAddedOnlyTransitive(es0, es1, edgeArray, f);
        SideCountStep(es0, m0, es1, m1, edgeArray, edgeMap, w, k, e);
        SidesStep(es1, m1, edgeArray, edgeMap, es0, m0, w, c, f, e);
        c := c + [e];
        k := k + 1;
      }
      forall t | 0 <= t < n
        ensures IsLive(edgeArray, c[t]) && KeyOf(edgeArray[c[t]].value) == Side(w, t) &&
                edgeArray[c[t]].value.face == Some(f) &&
                edgeArray[c[t]].value.next.None? && edgeArray[c[t]].value.prev.None? &&
                Registered(edgeArray, edgeMap, c[t])
      {
        assert SideEdgeAt(edgeArray, edgeMap, w, c, f, t);
      }
    }

    /** Makes `b` the successor of `a` and `a` the predecessor of `b`. */
    method Link(a: nat, b: nat)
      requires Valid() && IsLive(edgeArray, a) && IsLive(edgeArray, b) && a != b
      requires Registered(edgeArray, edgeMap, a) && Registered(edgeArray, edgeMap, b)
      requires edgeArray[a].value.next.None? && edgeArray[b].value.prev.None?
      requires edgeArray[a].value.face == edgeArray[b].value.face
      modifies this`edgeArray
      ensures Valid()
      ensures edgeArray == old(edgeArray)[a := Some(old(edgeArray)[a].value.(next := Some(b)))]
                                         [b := Some(old(edgeArray)[b].value.(prev := Some(a)))]
    {
      LinkWf(vertexArray, edgeArray, faceArray, edgeMap, a, b);
      edgeArray := edgeArray[a := Some(edgeArray[a].value.(next := Some(b)))];
      edgeArray := edgeArray[b := Some(edgeArray[b].value.(prev := Some(a)))];
    }

    /** Links the half-edges `c` into the cycle c[0] -> c[1] -> ... -> c[|c|-1] -> c[0]. */
    method LinkCycle(c: seq<nat>, f: nat)
      requires Valid() && |c| >= 2
      requires forall t | 0 <= t < |c| ::
                 IsLive(edgeArray, c[t]) && edgeArray[c[t]].value.face == Some(f) &&
                 edgeArray[c[t]].value.next.None? && edgeArray[c[t]].value.prev.None? &&
                 Registered(edgeArray, edgeMap, c[t])
      requires forall t, u | 0 <= t < u < |c| :: c[t] != c[u]
      modifies this`edgeArray
      ensures Valid()
      ensures |edgeArray| == old(|edgeArray|)
      ensures forall d | 0 <= d < |edgeArray| && d !in c :: edgeArray[d] == old(edgeArray)[d]
      ensures forall t | 0 <= t < |c| ::
                IsLive(edgeArray, c[t]) && edgeArray[c[t]].value.(next := None, prev := None) == old(edgeArray)[c[t]].value
      ensures forall t | 0 <= t < |c| :: Walk(edgeArray, c[0], t) == Some(c[t])
      ensures Walk(edgeArray, c[0], |c|) == Some(c[0])
    {
      ghost var es0 := edgeArray;
      var n := |c|;
      var k := 0;
      while k < n - 1
        invariant 0 <= k <= n - 1
        invariant Valid()
        invariant |edgeArray| == |es0|
        invariant forall d | 0 <= d < |es0| && d !in c :: edgeArray[d] == es0[d]
        invariant forall t | 0 <= t < n :: ChainAt(edgeArray, es0, c, k, t)
        invariant forall t | 0 <= t < n :: Registered(edgeArray, edgeMap, c[t])
      {
        ghost var es1 := edgeArray;
        assert ChainAt(es1, es0, c, k, k) && ChainAt(es1, es0, c, k, k + 1);
        Link(c[k], c[k + 1]);
        ChainStep(es1, es0, c, k, k + 1);
        k := k + 1;
      }
      ghost var es1 := edgeArray;
      assert ChainAt(es1, es0, c, k, k) && ChainAt(es1, es0, c, k, 0);
      Link(c[n - 1], c[0]);
      ChainClose(es1, es0, c, k);
      WalkCycle(edgeArray, c);
    }

    /** Gives each corner of `w` that has no incident half-edge the half-edge `c[t]`
        leaving it. */
    method SetCornerEdges(w: seq<nat>, c: seq<nat>, f: nat)
      requires Valid() && |c| == |w|
      requires forall t | 0 <= t < |w| :: InFace(edgeArray, c[t], f) && edgeArray[c[t]].value.origin == w[t]
      modifies this`vertexArray
      ensures Valid()
      ensures VertexEdgesKept(old(vertexArray), vertexArray)
      ensures CornersOnly(old(vertexArray), vertexArray, edgeArray, w, f)
      ensures forall t | 0 <= t < |w| :: IsLive(vertexArray, w[t]) && vertexArray[w[t]].value.edge.Some?
    {
      ghost var vs0 := vertexArray;
      var k := 0;
      while k < |w|
        invariant 0 <= k <= |w|
        invariant Valid()
        invariant VertexEdgesKept(vs0, vertexArray)
        invariant CornersOnly(vs0, vertexArray, edgeArray, w, f)
        invariant forall t | 0 <= t < k :: IsLive(vertexArray, w[t]) && vertexArray[w[t]].value.edge.Some?
      {
        var v := w[k];
        assert EndsAt(vertexArray, edgeArray, faceArray, c[k]);
        if vertexArray[v].value.edge.None? {
          SetVertexEdgeWf(vertexArray, edgeArray, faceArray, edgeMap, v, c[k]);
          vertexArray := vertexArray[v := Some(vertexArray[v].value.(edge := Some(c[k])))];
        }
        k := k + 1;
      }
    }

    /** Adds one new half-edge per side of `w` to face `f` and links them into a cycle. */
    method AddFaceCycle(w: seq<nat>, f: nat) returns (c: seq<nat>)
      requires Valid() && 3 <= |w| && IsLive(faceArray, f) && FaceAddable(w)
      modifies this`edgeArray, this`edgeMap
      ensures Valid()
      ensures |c| == |w|
      ensures forall t | 0 <= t < |w| :: IsLive(edgeArray, c[t]) && edgeArray[c[t]].value.origin == w[t]
      ensures edgeArray[c[0]].value.face == Some(f)
      ensures CycleFrom(edgeArray, c[0], f, w)
      ensures forall t | 0 <= t < |w| :: InFace(edgeArray, c[t], f)
      ensures Extends(old(edgeArray), edgeArray)
      ensures OtherKeysKept(w, old(edgeMap), edgeMap)
      ensures FaceAddedOnly(old(edgeArray), edgeArray, f)
      ensures |edgeArray| == old(|edgeArray|) + NewSides(w, old(edgeMap), |w|)
    {
      var num := |w|;
      ghost var es0 := edgeArray;
      c := AddFaceEdges(w, f);
      ghost var es1 := edgeArray;
      forall t, u | 0 <= t < u < num ensures c[t] != c[u] {
        assert Side(w, t) != Side(w, u);
      }
      LinkCycle(c, f);
      ExtendsRelink(es0, es1, edgeArray, c);
      RelinkForFace(es1, edgeArray, c, f);
      FaceAddedOnlyTransitive(es0, es1, edgeArray, f);
      forall t | 0 <= t < num
        ensures Has(edgeArray, c[t]) && KeyOf(edgeArray[c[t]].value) == Side(w, t) &&
                edgeArray[c[t]].value.face == Some(f)
      {
        assert edgeArray[c[t]].value.(next := None, prev := None) == es1[c[t]].value;
      }
      CycleFromChain(edgeArray, c, f, w);
    }

    /** Adds face `f` with one new half-edge per side of `w`, linked into a cycle, and
        gives the corners without an incident half-edge one of the new half-edges. */
    method BuildFace(w: seq<nat>) returns (f: nat)
      requires Valid() && 3 <= |w| && FaceAddable(w)
      modifies this`vertexArray, this`edgeArray, this`faceArray, this`edgeMap
      ensures Valid()
      ensures f == old(|faceArray|) && |faceArray| == f + 1 && faceArray[..f] == old(faceArray)
      ensures IsFaceCycle(edgeArray, faceArray, f, w)
      ensures Extends(old(edgeArray), edgeArray)
      ensures VertexEdgesKept(old(vertexArray), vertexArray)
      ensures forall t | 0 <= t < |w| :: IsLive(vertexArray, w[t]) && vertexArray[w[t]].value.edge.Some?
      ensures OtherKeysKept(w, old(edgeMap), edgeMap)
      ensures FaceAddedOnly(old(edgeArray), edgeArray, f)
      ensures |edgeArray| == old(|edgeArray|) + NewSides(w, old(edgeMap), |w|)
      ensures CornersOnly(old(vertexArray), vertexArray, edgeArray, w, f)
    {
      f := |faceArray|;
      AppendFaceWf(vertexArray, edgeArray, faceArray, edgeMap);
      faceArray := faceArray + [Some(Face(None))];
      forall t | 0 <= t < |w| ensures CanAddEdge(Side(w, t).p0, Side(w, t).p1) {
        assert old(CanAddEdge(Side(w, t).p0, Side(w, t).p1));
      }
      var c := AddFaceCycle(w, f);
      SetFaceEdgeWf(vertexArray, edgeArray, faceArray, edgeMap, f, c[0]);
      faceArray := faceArray[f := Some(Face(Some(c[0])))];
      SetCornerEdges(w, c, f);
    }

    /** `addFace` on the corners `indexArray[first..first+num]`. If the guard rejects
        them, the error count goes up and nothing else changes; otherwise the new face
        is the polygon of those corners. */
    method AddFaceWindow(indexArray: seq<nat>, first: nat, num: nat) returns (r: Option<nat>)
      requires Valid() && first + num <= |indexArray|
      modifies this
      ensures Valid()
      ensures colocalVertexCount == old(colocalVertexCount)
      ensures r.None? <==> !old(FaceAddable(Window(indexArray, first, num)))
      ensures r.None? ==>
                vertexArray == old(vertexArray) && edgeArray == old(edgeArray) &&
                faceArray == old(faceArray) && edgeMap == old(edgeMap) &&
                errorCount == old(errorCount) + 1
      ensures r.None? && num < 3 ==> errorIndex0 == old(errorIndex0) && errorIndex1 == old(errorIndex1)
      ensures r.None? && 3 <= num ==> Offending(Window(indexArray, first, num), errorIndex0, errorIndex1)
      ensures r.Some? ==>
                r.value == old(|faceArray|) && |faceArray| == r.value + 1 && faceArray[..r.value] == old(faceArray) &&
                IsFaceCycle(edgeArray, faceArray, r.value, Window(indexArray, first, num)) &&
                Extends(old(edgeArray), edgeArray) &&
                FaceAddedOnly(old(edgeArray), edgeArray, r.value) &&
                |edgeArray| == old(|edgeArray|) + NewSides(Window(indexArray, first, num), old(edgeMap), |Window(indexArray, first, num)|) &&
                CornersOnly(old(vertexArray), vertexArray, edgeArray, Window(indexArray, first, num), r.value) &&
                VertexEdgesKept(old(vertexArray), vertexArray) &&
                (forall t | 0 <= t < num ::
                   IsLive(vertexArray, Window(indexArray, first, num)[t]) &&
                   vertexArray[Window(indexArray, first, num)[t]].value.edge.Some?) &&
                (forall k | !IsSide(Window(indexArray, first, num), k) ::
                   (k in edgeMap <==> k in old(edgeMap)) && (k in edgeMap ==> edgeMap[k] == old(edgeMap)[k])) &&
                errorCount == old(errorCount) && errorIndex0 == old(errorIndex0) && errorIndex1 == old(errorIndex1)
    {
      var w := Window(indexArray, first, num);
      var ok := CanAddFace(indexArray, first, num);
      if !ok {
        errorCount := errorCount + 1;
        return None;
      }
      var f := BuildFace(w);
      return Some(f);
    }

    /** `addFace(indexArray)`: the face on every corner of the array. */
    method AddFaceArray(indexArray: seq<nat>) returns (r: Option<nat>)
      requires Valid()
      modifies this
      ensures Valid()
      ensures r.None? <==> !old(FaceAddable(indexArray))
      ensures r.None? ==>
                vertexArray == old(vertexArray) && edgeArray == old(edgeArray) &&
                faceArray == old(faceArray) && edgeMap == old(edgeMap) && errorCount == old(errorCount) + 1
      ensures r.None? && |indexArray| < 3 ==> errorIndex0 == old(errorIndex0) && errorIndex1 == old(errorIndex1)
      ensures r.None? && 3 <= |indexArray| ==> Offending(indexArray, errorIndex0, errorIndex1)
      ensures r.Some? ==>
                r.value == old(|faceArray|) && |faceArray| == r.value + 1 && faceArray[..r.value] == old(faceArray) &&
                IsFaceCycle(edgeArray, faceArray, r.value, indexArray) &&
                Extends(old(edgeArray), edgeArray) &&
                FaceAddedOnly(old(edgeArray), edgeArray, r.value) &&
                |edgeArray| == old(|edgeArray|) + NewSides(indexArray, old(edgeMap), |indexArray|) &&
                CornersOnly(old(vertexArray), vertexArray, edgeArray, indexArray, r.value) &&
                VertexEdgesKept(old(vertexArray), vertexArray) &&
                (forall k | !IsSide(indexArray, k) ::
                   (k in edgeMap <==> k in old(edgeMap)) && (k in edgeMap ==> edgeMap[k] == old(edgeMap)[k])) &&
                errorCount == old(errorCount) && errorIndex0 == old(errorIndex0) && errorIndex1 == old(errorIndex1)
      ensures colocalVertexCount == old(colocalVertexCount)
    {
      assert Window(indexArray, 0, |indexArray|) == indexArray;
      r := AddFaceWindow(indexArray, 0, |indexArray|);
    }

    /** `addFace(v0, v1, v2)`: a triangle. */
    method AddTriangle(v0: nat, v1: nat, v2: nat) returns (r: Option<nat>)
      requires Valid()
      modifies this
      ensures Valid()
      ensures r.None? <==> !old(FaceAddable([v0, v1, v2]))
      ensures r.None? ==>
                vertexArray == old(vertexArray) && edgeArray == old(edgeArray) &&
                faceArray == old(faceArray) && edgeMap == old(edgeMap) && errorCount == old(errorCount) + 1
      ensures r.None? ==> Offending([v0, v1, v2], errorIndex0, errorIndex1)
      ensures r.Some? ==>
                r.value == old(|faceArray|) && |faceArray| == r.value + 1 && faceArray[..r.value] == old(faceArray) &&
                IsFaceCycle(edgeArray, faceArray, r.value, [v0, v1, v2]) &&
                Extends(old(edgeArray), edgeArray) &&
                FaceAddedOnly(old(edgeArray), edgeArray, r.value) &&
                |edgeArray| == old(|edgeArray|) + NewSides([v0, v1, v2], old(edgeMap), |[v0, v1, v2]|) &&
                CornersOnly(old(vertexArray), vertexArray, edgeArray, [v0, v1, v2], r.value) &&
                VertexEdgesKept(old(vertexArray), vertexArray) &&
                (forall k | !IsSide([v0, v1, v2], k) ::
                   (k in edgeMap <==> k in old(edgeMap)) && (k in edgeMap ==> edgeMap[k] == old(edgeMap)[k])) &&
                errorCount == old(errorCount) && errorIndex0 == old(errorIndex0) && errorIndex1 == old(errorIndex1)
      ensures colocalVertexCount == old(colocalVertexCount)
    {
      r := AddFaceArray([v0, v1, v2]);
    }

    /** `addFace(v0, v1, v2, v3)`: a quadrilateral. */
    method AddQuad(v0: nat, v1: nat, v2: nat, v3: nat) returns (r: Option<nat>)
      requires Valid()
      modifies this
      ensures Valid()
      ensures r.None? <==> !old(FaceAddable([v0, v1, v2, v3]))
      ensures r.None? ==>
                vertexArray == old(vertexArray) && edgeArray == old(edgeArray) &&
                faceArray == old(faceArray) && edgeMap == old(edgeMap) && errorCount == old(errorCount) + 1
      ensures r.None? ==> Offending([v0, v1, v2, v3], errorIndex0, errorIndex1)
      ensures r.Some? ==>
                r.value == old(|faceArray|) && |faceArray| == r.value + 1 && faceArray[..r.value] == old(faceArray) &&
                IsFaceCycle(edgeArray, faceArray, r.value, [v0, v1, v2, v3]) &&
                Extends(old(edgeArray), edgeArray) &&
                FaceAddedOnly(old(edgeArray), edgeArray, r.value) &&
                |edgeArray| == old(|edgeArray|) + NewSides([v0, v1, v2, v3], old(edgeMap), |[v0, v1, v2, v3]|) &&
                CornersOnly(old(vertexArray), vertexArray, edgeArray, [v0, v1, v2, v3], r.value) &&
                VertexEdgesKept(old(vertexArray), vertexArray) &&
                (forall k | !IsSide([v0, v1, v2, v3], k) ::
                   (k in edgeMap <==> k in old(edgeMap)) && (k in edgeMap ==> edgeMap[k] == old(edgeMap)[k])) &&
                errorCount == old(errorCount) && errorIndex0 == old(errorIndex0) && errorIndex1 == old(errorIndex1)
      ensures colocalVertexCount == old(colocalVertexCount)
    {
      r := AddFaceArray([v0, v1, v2, v3]);
    }

    /** `addFace()`: appends a face with no half-edges. */
    method AddEmptyFace() returns (f: nat)
      requires Valid()
      modifies this`faceArray
      ensures Valid()
      ensures f == old(|faceArray|) && faceArray == old(faceArray) + [Some(Face(None))]
    {
      f := |faceArray|;
      AppendFaceWf(vertexArray, edgeArray, faceArray, edgeMap);
      faceArray := faceArray + [Some(Face(None))];
    }

    // ---------------------------------------------------------------- removal

    /** Clears the pair, the links and the face of half-edge `e`, and every pair
        and link that refers to it. */
    method DetachLinks(e: nat)
      requires IsLive(edgeArray, e)
      requires forall d: nat | IsLive(edgeArray, d) :: PairAt(edgeArray, d) && LinksAt(edgeArray, d)
      modifies this`edgeArray
      ensures edgeArray == DetachEdges(old(edgeArray), e)
    {
      var es := edgeArray;
      var x := es[e].value;
      assert PairAt(es, e) && LinksAt(es, e);
      var a := es;
      if x.pair.Some? && x.pair.value != e {
        var p := x.pair.value;
        a := a[p := Some(a[p].value.(pair := None))];
      }
      if x.prev.Some? && x.prev.value != e {
        var p := x.prev.value;
        a := a[p := Some(a[p].value.(next := None))];
      }
      if x.next.Some? && x.next.value != e {
        var n := x.next.value;
        a := a[n := Some(a[n].value.(prev := None))];
      }
      a := a[e := Some(x.(pair := None, next := None, prev := None, face := None))];
      forall d: nat | d < |es| ensures a[d] == DetachAt(es, e, d) {
        if es[d].Some? {
          assert IsLive(es, d) && PairAt(es, d) && LinksAt(es, d);
        }
      }
      edgeArray := a;
    }

    /** `disconnect(edge)`: takes half-edge `e` out of the lookup, its pair, its face
        cycle, its face and its origin vertex; the half-edge itself stays allocated. */
    method Disconnect(e: nat)
      requires Valid() && IsLive(edgeArray, e)
      modifies this`vertexArray, this`edgeArray, this`faceArray, this`edgeMap
      ensures vertexArray == DetachVertices(old(vertexArray), old(edgeArray), e)
      ensures edgeArray == DetachEdges(old(edgeArray), e)
      ensures faceArray == DetachFaces(old(edgeArray), old(faceArray), e)
      ensures edgeMap == DetachMap(old(edgeArray), old(edgeMap), e)
      ensures Valid() && EdgeIsolated(vertexArray, edgeArray, faceArray, edgeMap, e)
    {
      ghost var vs, es, fs, m := vertexArray, edgeArray, faceArray, edgeMap;
      var x := edgeArray[e].value;
      assert EndsAt(vs, es, fs, e);
      DetachLinks(e);
      // Remove from the edge lookup.
      var k := KeyOf(x);
      if k in edgeMap && edgeMap[k] == e {
        edgeMap := edgeMap - {k};
      }
      // Disconnect from the origin vertex.
      if vertexArray[x.origin].value.edge == Some(e) {
        vertexArray := vertexArray[x.origin := Some(vertexArray[x.origin].value.(edge := None))];
      }
      // Disconnect from the face.
      if x.face.Some? && faceArray[x.face.value].value.edge == Some(e) {
        var g := if x.next.Some? && x.next != Some(e) then x.next else None;
        faceArray := faceArray[x.face.value := Some(Face(g))];
      }
      DetachWf(vs, es, fs, m, e);
    }

    /** `remove(edge)`: disconnects half-edge `e` and frees its slot. */
    method RemoveEdge(e: nat)
      requires Valid() && IsLive(edgeArray, e)
      modifies this`vertexArray, this`edgeArray, this`faceArray, this`edgeMap
      ensures vertexArray == DetachVertices(old(vertexArray), old(edgeArray), e)
      ensures edgeArray == DetachEdges(old(edgeArray), e)[e := None]
      ensures faceArray == DetachFaces(old(edgeArray), old(faceArray), e)
      ensures edgeMap == DetachMap(old(edgeArray), old(edgeMap), e)
      ensures Valid()
    {
      Disconnect(e);
      FreeEdgeWf(vertexArray, edgeArray, faceArray, edgeMap, e);
      edgeArray := edgeArray[e := None];
    }

    /** `remove(vertex)`: splices vertex `v`, which no half-edge touches, out of its
        colocal ring and frees its slot. */
    method RemoveVertex(v: nat)
      requires Valid() && IsLive(vertexArray, v) && VertexIsolated(edgeArray, v)
      modifies this`vertexArray
      ensures RingAt(old(vertexArray), v)
      ensures vertexArray == SpliceOut(old(vertexArray), v)[v := None]
      ensures Valid()
    {
      RemoveVertexWf(vertexArray, edgeArray, faceArray, edgeMap, v);
      var n, p := vertexArray[v].value.colocalNext, vertexArray[v].value.colocalPrev;
      vertexArray := vertexArray[p := Some(vertexArray[p].value.(colocalNext := n))];
      vertexArray := vertexArray[n := Some(vertexArray[n].value.(colocalPrev := p))];
      vertexArray := vertexArray[v := None];
    }

    /** `remove(face)`: frees the slot of face `f`, to which no half-edge belongs. */
    method RemoveFace(f: nat)
      requires Valid() && IsLive(faceArray, f) && FaceIsolated(edgeArray, f)
      modifies this`faceArray
      ensures faceArray == old(faceArray)[f := None]
      ensures Valid()
    {
      RemoveFaceWf(vertexArray, edgeArray, faceArray, edgeMap, f);
      faceArray := faceArray[f := None];
    }

    // ---------------------------------------------------------------- boundary

    /** `linkBoundaryEdge(edge)`: if boundary half-edge `b` has no successor, links it
        to the first half-edge (in id order) that may follow it, when there is one; and
        makes `b` the half-edge of its origin vertex. Returns the new successor. */
    method LinkBoundaryEdge(b: nat) returns (r: Option<nat>)
      requires Valid() && IsBoundary(edgeArray, edgeMap, b)
      modifies this`vertexArray, this`edgeArray
      ensures Valid()
      ensures Has(old(vertexArray), old(edgeArray)[b].value.origin)
      ensures vertexArray == old(vertexArray)[old(edgeArray)[b].value.origin :=
                Some(old(vertexArray)[old(edgeArray)[b].value.origin].value.(edge := Some(b)))]
      ensures SameCore(old(edgeArray), edgeArray)
      ensures forall d: nat | IsLive(old(edgeArray), d) && old(edgeArray)[d].value.face.Some? ::
                edgeArray[d] == old(edgeArray)[d]
      ensures r.None? ==> edgeArray == old(edgeArray)
      ensures r.None? && old(edgeArray)[b].value.next.None? ==>
                forall c: nat | c < |edgeArray| :: !old(FollowsOnBoundary(edgeArray, edgeMap, b, c))
      ensures r.Some? ==>
                old(edgeArray)[b].value.next.None? && old(FollowsOnBoundary(edgeArray, edgeMap, b, r.value)) &&
                (forall c: nat | c < r.value :: !old(FollowsOnBoundary(edgeArray, edgeMap, b, c))) &&
                edgeArray == old(edgeArray)[b := Some(old(edgeArray)[b].value.(next := r))]
                                           [r.value := Some(old(edgeArray)[r.value].value.(prev := Some(b)))]
    {
      var x := edgeArray[b].value;
      assert EndsAt(vertexArray, edgeArray, faceArray, b);
      r := None;
      if x.next.None? {
        var c := 0;
        while c < |edgeArray|
          invariant 0 <= c <= |edgeArray|
          invariant forall d: nat | d < c :: !FollowsOnBoundary(edgeArray, edgeMap, b, d)
        {
          if edgeArray[c].Some? && edgeArray[c].value.face.None? && Registered(edgeArray, edgeMap, c) &&
             c != b && edgeArray[c].value.origin == x.to && edgeArray[c].value.prev.None? {
            r := Some(c);
            break;
          }
          c := c + 1;
        }
        if r.Some? {
          Link(b, r.value);
        }
      }
      SetVertexEdgeWf(vertexArray, edgeArray, faceArray, edgeMap, x.origin, b);
      vertexArray := vertexArray[x.origin := Some(vertexArray[x.origin].value.(edge := Some(b)))];
    }

    /** The first pass of `linkBoundary()`: every face half-edge without a pair gets a
        new boundary twin, registered under the reverse key. */
    method AddBoundaryTwins()
      requires Valid()
      modifies this`edgeArray, this`edgeMap
      ensures Valid()
      ensures forall e: nat :: !IsOpen(edgeArray, e)
      ensures Extends(old(edgeArray), edgeArray)
      ensures old(BoundaryLinksMeet(edgeArray, edgeMap)) ==> BoundaryLinksMeet(edgeArray, edgeMap)
      ensures TwinsAdded(old(edgeArray), old(edgeMap), edgeArray, edgeMap, old(|edgeArray|))
    {
      ghost var es0 := edgeArray;
      ghost var m0 := edgeMap;
      var n0 := |edgeArray|;
      var i := 0;
      while i < n0
        invariant 0 <= i <= n0 <= |edgeArray| && n0 == |es0|
        invariant Valid()
        invariant BoundaryLinksMeet(es0, m0) ==> BoundaryLinksMeet(edgeArray, edgeMap)
        invariant TwinsAdded(es0, m0, edgeArray, edgeMap, i)
      {
        if IsLive(edgeArray, i) && edgeArray[i].value.face.Some? && edgeArray[i].value.pair.None? {
          var x := edgeArray[i].value;
          ghost var es1 := edgeArray;
          ghost var m1 := edgeMap;
          assert EndsAt(vertexArray, edgeArray, faceArray, i) && RegAt(edgeArray, edgeMap, i);
          assert Key(x.to, x.origin) !in m1 && Lookup(m1, Key(x.origin, x.to)) == Some(i);
          var t := AddEdge(x.to, x.origin);
          if BoundaryLinksMeet(es1, m1) {
            AppendKeepsMeet(es1, m1, x.to, x.origin);
          }
          TwinAddedStep(es0, m0, es1, m1, edgeArray, edgeMap, i);
        } else {
          assert !IsOpen(edgeArray, i);
          TwinSkipStep(es0, m0, edgeArray, edgeMap, i);
        }
        i := i + 1;
      }
      TwinsAddedDone(es0, m0, edgeArray, edgeMap);
    }

    /** The second pass of `linkBoundary()`: `linkBoundaryEdge` on every boundary half-edge. */
    method LinkBoundaryEdges()
      requires Valid()
      modifies this`vertexArray, this`edgeArray
      ensures Valid()
      ensures forall e: nat :: IsOpen(edgeArray, e) == old(IsOpen(edgeArray, e))
      ensures forall e: nat | IsBoundary(edgeArray, edgeMap, e) ::
                OnBoundary(vertexArray, edgeArray, edgeMap, edgeArray[e].value.origin)
      ensures Extends(old(edgeArray), edgeArray)
      ensures BoundaryLinked(edgeArray, edgeMap)
      ensures old(BoundaryLinksMeet(edgeArray, edgeMap)) ==> BoundaryLinksMeet(edgeArray, edgeMap)
      ensures BoundaryRelinked(old(edgeArray), edgeArray)
      ensures BoundaryRepointed(old(vertexArray), vertexArray, edgeArray, edgeMap)
    {
      ghost var es0, vs0 := edgeArray, vertexArray;
      var i := 0;
      while i < |edgeArray|
        invariant 0 <= i <= |edgeArray| == |es0|
        invariant Valid()
        invariant forall d: nat | d < i && IsBoundary(edgeArray, edgeMap, d) ::
                    OnBoundary(vertexArray, edgeArray, edgeMap, edgeArray[d].value.origin)
        invariant forall d: nat, c: nat | d < i :: !Linkable(edgeArray, edgeMap, d, c)
        invariant BoundaryLinksMeet(es0, edgeMap) ==> BoundaryLinksMeet(edgeArray, edgeMap)
        invariant BoundaryRelinked(es0, edgeArray) && BoundaryRepointed(vs0, vertexArray, edgeArray, edgeMap)
      {
        if IsLive(edgeArray, i) && edgeArray[i].value.face.None? && Registered(edgeArray, edgeMap, i) {
          ghost var es1, vs1 := edgeArray, vertexArray;
          var r := LinkBoundaryEdge(i);
          BoundaryPassStep(vs0, es0, vs1, vertexArray, es1, edgeArray, edgeMap, i, r);
        } else {
          BoundaryPassSkip(edgeArray, edgeMap, i);
        }
        i := i + 1;
      }
      RelinkedExtends(es0, edgeArray);
    }

    /** `linkBoundary()`: gives every face half-edge without a pair a boundary twin,
        then links every boundary half-edge to a successor and points its origin
        vertex at it. Afterwards a missing pair no longer occurs on a face half-edge,
        and every vertex a boundary half-edge leaves references a boundary half-edge. */
    method LinkBoundary()
      requires Valid()
      modifies this`vertexArray, this`edgeArray, this`edgeMap
      ensures Valid()
      ensures forall e: nat :: !IsOpen(edgeArray, e)
      ensures forall e: nat | IsBoundary(edgeArray, edgeMap, e) ::
                OnBoundary(vertexArray, edgeArray, edgeMap, edgeArray[e].value.origin)
      ensures Extends(old(edgeArray), edgeArray)
      ensures BoundaryLinked(edgeArray, edgeMap)
      ensures old(BoundaryLinksMeet(edgeArray, edgeMap)) ==> BoundaryLinksMeet(edgeArray, edgeMap)
      ensures old(BoundaryLinksMeet(edgeArray, edgeMap)) && SimpleBoundary(edgeArray, edgeMap) ==>
                forall b: nat | IsBoundary(edgeArray, edgeMap, b) ::
                  edgeArray[b].value.next.Some? && edgeArray[b].value.prev.Some?
      ensures TwinsAppended(old(edgeArray), old(edgeMap), edgeArray, edgeMap)
      ensures BoundaryRepointed(old(vertexArray), vertexArray, edgeArray, edgeMap)
    {
      ghost var es0, m0 := edgeArray, edgeMap;
      AddBoundaryTwins();
      ghost var es1 := edgeArray;
      LinkBoundaryEdges();
      ExtendsTransitive(es0, es1, edgeArray);
      TwinsSurviveRelink(es0, m0, es1, edgeArray, edgeMap);
      if old(BoundaryLinksMeet(edgeArray, edgeMap)) && SimpleBoundary(edgeArray, edgeMap) {
        BoundaryLoopsClosed(vertexArray, edgeArray, faceArray, edgeMap);
      }
    }

    // ---------------------------------------------------------------- sewing

    /** Vertex `v` is on the colocal ring of `u`: walks the ring from `u`, at most
        once around. */
    method IsColocal(u: nat, v: nat) returns (r: bool)
      ensures r <==> Colocal(vertexArray, u, v)
    {
      var w := u;
      var k := 0;
      while k < |vertexArray|
        invariant 0 <= k <= |vertexArray| && w == ColocalWalk(vertexArray, u, k)
        invariant forall j: nat | j < k :: ColocalWalk(vertexArray, u, j) != v
      {
        if w == v {
          return true;
        }
        ColocalWalkStep(vertexArray, u, k);
        w := if Has(vertexArray, w) then vertexArray[w].value.colocalNext else w;
        k := k + 1;
      }
      return false;
    }

    /** The half-edge updates of one seam: the twins of `a` and of its predecessor `b`
        are paired, and `a` and `b` leave the boundary loop and are freed. */
    method SewLinkStep(a: nat)
      requires Valid() && SewShape(edgeArray, edgeMap, a)
      modifies this`edgeArray
      ensures edgeArray == SewEdges(old(edgeArray), a)
    {
      ghost var es := edgeArray;
      SewNeighbourhoodHolds(vertexArray, edgeArray, faceArray, edgeMap, a);
      var x := edgeArray[a].value;
      var b := x.prev.value;
      var y := edgeArray[b].value;
      var pa, pb := x.pair.value, y.pair.value;
      // Pair the twins; the twin of b now ends where a ended.
      edgeArray := edgeArray[pa := Some(edgeArray[pa].value.(pair := Some(pb)))];
      edgeArray := edgeArray[pb := Some(edgeArray[pb].value.(pair := Some(pa), to := x.to))];
      // Link the neighbours of a and b on the boundary loop to each other.
      if x.next.Some? && x.next != Some(b) {
        var n := x.next.value;
        edgeArray := edgeArray[n := Some(edgeArray[n].value.(prev := y.prev))];
      }
      if y.prev.Some? && y.prev != Some(a) {
        var p := y.prev.value;
        edgeArray := edgeArray[p := Some(edgeArray[p].value.(next := x.next))];
      }
      edgeArray := edgeArray[a := None][b := None];
      forall d: nat | d < |es| ensures edgeArray[d] == SewEdgeAt(es, a, d) {
      }
    }

    /** One seam of `sewBoundary`: closes the seam between boundary half-edge `a` and
        its predecessor, and updates the lookup and the vertices that referenced them. */
    method SewStep(a: nat)
      requires Valid() && SewShape(edgeArray, edgeMap, a)
      modifies this`vertexArray, this`edgeArray, this`edgeMap
      ensures vertexArray == SewVertices(old(vertexArray), old(edgeArray), a)
      ensures edgeArray == SewEdges(old(edgeArray), a)
      ensures edgeMap == SewMap(old(edgeArray), old(edgeMap), a)
      ensures Valid()
    {
      SewWf(vertexArray, edgeArray, faceArray, edgeMap, a);
      var x := edgeArray[a].value;
      var b := x.prev.value;
      var y := edgeArray[b].value;
      var kb := KeyOf(edgeArray[y.pair.value].value);
      SewLinkStep(a);
      edgeMap := (edgeMap - {KeyOf(y), kb})[KeyOf(x) := y.pair.value];
      if Has(vertexArray, x.origin) && vertexArray[x.origin].value.edge == Some(a) {
        vertexArray := vertexArray[x.origin := Some(vertexArray[x.origin].value.(edge := y.pair))];
      }
      if Has(vertexArray, y.origin) && vertexArray[y.origin].value.edge == Some(b) {
        vertexArray := vertexArray[y.origin := Some(vertexArray[y.origin].value.(edge := None))];
      }
    }

    /** Closes the seam at boundary half-edge `a` and says where the zipper goes on:
        the successor of `a`, or else the predecessor of the freed predecessor `b`;
        none when the seam closed the loop or `a` and `b` were all of their chain. */
    method SewSeam(a: nat) returns (next: Option<nat>)
      requires Valid() && SewShape(edgeArray, edgeMap, a)
      modifies this`vertexArray, this`edgeArray, this`edgeMap
      ensures Valid()
      ensures KeepsFaceEdges(old(edgeArray), edgeArray)
      ensures |Squeeze(edgeArray)| < |Squeeze(old(edgeArray))|
      ensures next.Some? ==> IsBoundary(edgeArray, edgeMap, next.value)
      ensures next.None? <==>
        var x := old(edgeArray)[a].value;
        x.next == x.prev || (x.next.None? && old(edgeArray)[x.prev.value].value.prev.None?)
    {
      var x := edgeArray[a].value;
      var b := x.prev.value;
      var p := edgeArray[b].value.prev;
      BoundaryNeighbours(vertexArray, edgeArray, faceArray, edgeMap, a);
      BoundaryNeighbours(vertexArray, edgeArray, faceArray, edgeMap, b);
      SewNeighbourhoodHolds(vertexArray, edgeArray, faceArray, edgeMap, a);
      SewEffect(vertexArray, edgeArray, faceArray, edgeMap, a);
      SewStep(a);
      if x.next == Some(b) {
        // The seam closed the loop.
        next := None;
      } else if x.next.Some? {
        next := x.next;
      } else {
        next := p;
      }
    }

    /** `sewBoundary(startEdge)`: walks the boundary loop forward from `start` and, at
        each half-edge whose far end is colocal with the far end of its predecessor,
        closes the seam between the two and goes on from the successor. Stops when the
        walk comes back to the last half-edge seen after a seam, or reaches the end of
        a chain. Returns a half-edge still on the boundary, or none when the last seam
        left nothing of the walked boundary. Only boundary half-edges are freed. */
    method SewBoundary(start: nat) returns (r: Option<nat>)
      requires Valid() && IsBoundary(edgeArray, edgeMap, start)
      modifies this`vertexArray, this`edgeArray, this`edgeMap
      ensures Valid()
      ensures KeepsFaceEdges(old(edgeArray), edgeArray)
      ensures r.Some? ==> IsBoundary(edgeArray, edgeMap, r.value)
      ensures r.None? ==> |Squeeze(edgeArray)| < |Squeeze(old(edgeArray))|
    {
      ghost var es0 := edgeArray;
      var edge := start;
      var last := start;
      var steps := 0;
      while true
        invariant Valid() && IsBoundary(edgeArray, edgeMap, edge)
        invariant KeepsFaceEdges(es0, edgeArray) && |Squeeze(edgeArray)| <= |Squeeze(es0)|
        invariant steps < |edgeArray|
        decreases |Squeeze(edgeArray)|, |edgeArray| - steps
      {
        var x := edgeArray[edge].value;
        var sew := false;
        if SewShape(edgeArray, edgeMap, edge) {
          sew := IsColocal(x.to, edgeArray[x.prev.value].value.origin);
        }
        if sew {
          ghost var es1 := edgeArray;
          var next := SewSeam(edge);
          KeepsFaceEdgesTransitive(es0, es1, edgeArray);
          if next.None? {
            return None;
          }
          edge := next.value;
          last := edge;
          steps := 0;
        } else {
          if x.next.None? {
            return Some(edge);
          }
          BoundaryNeighbours(vertexArray, edgeArray, faceArray, edgeMap, edge);
          edge := x.next.value;
          steps := steps + 1;
          if edge == last || steps == |edgeArray| {
            return Some(edge);
          }
        }
      }
    }

    // ---------------------------------------------------------------- audit

    /** `isValid()`: audits every half-edge in id order. At the first one that fails,
        the error count goes up, the error indices name its endpoints and the result
        is false; nothing else changes. */
    method IsValid() returns (r: bool)
      requires Valid()
      modifies this`errorCount, this`errorIndex0, this`errorIndex1
      ensures r <==> Audited(vertexArray, edgeArray, edgeMap)
      ensures r ==> errorCount == old(errorCount) && errorIndex0 == old(errorIndex0) && errorIndex1 == old(errorIndex1)
      ensures !r ==>
                errorCount == old(errorCount) + 1 &&
                exists e: nat | IsLive(edgeArray, e) && !EdgeAudited(vertexArray, edgeArray, edgeMap, e) ::
                  (forall d: nat | d < e && IsLive(edgeArray, d) :: EdgeAudited(vertexArray, edgeArray, edgeMap, d)) &&
                  errorIndex0 == edgeArray[e].value.origin && errorIndex1 == edgeArray[e].value.to
    {
      var e := 0;
      while e < |edgeArray|
        invariant 0 <= e <= |edgeArray|
        invariant forall d: nat | d < e && IsLive(edgeArray, d) :: EdgeAudited(vertexArray, edgeArray, edgeMap, d)
      {
        if edgeArray[e].Some? && !EdgeAudited(vertexArray, edgeArray, edgeMap, e) {
          errorCount := errorCount + 1;
          errorIndex0, errorIndex1 := edgeArray[e].value.origin, edgeArray[e].value.to;
          return false;
        }
        e := e + 1;
      }
      return true;
    }

    // ---------------------------------------------------------------- welding

    /** The chaining pass of `linkColocalsWithCanonicalMap`: vertex `v` joins the ring
        of the first vertex before it with the same canonical id, or starts one. */
    method ChainColocals(cm: seq<nat>, idMax: nat) returns (first: seq<Option<nat>>)
      requires |cm| == |vertexArray| && forall u | 0 <= u < |cm| :: cm[u] <= idMax
      requires Singletons(vertexArray)
      modifies this`vertexArray
      ensures vertexArray == Linked(old(vertexArray), cm, |cm|)
      ensures |first| == idMax + 1 && forall g | 0 <= g <= idMax :: first[g] == NextIn(cm, g, 0, |cm|)
    {
      ghost var vs0 := vertexArray;
      first := seq(idMax + 1, _ => None);
      LinkedNothing(vs0, cm);
      var v := 0;
      while v < |cm|
        invariant 0 <= v <= |cm| && |first| == idMax + 1
        invariant vertexArray == Linked(vs0, cm, v)
        invariant forall g | 0 <= g <= idMax :: first[g] == NextIn(cm, g, 0, v)
      {
        var g := cm[v];
        FirstsExtend(cm, idMax, v, first, if first[g].None? then first[g := Some(v)] else first);
        match first[g] {
          case Some(r) =>
            LinkedJoin(vs0, cm, v, r);
            vertexArray := LinkColocal(vertexArray, r, v);
          case None =>
            LinkedFirst(vs0, cm, v);
            first := first[g := Some(v)];
        }
        v := v + 1;
      }
    }

    /** `linkColocalsWithCanonicalMap(canonicalMap)`: chains every vertex into the
        colocal ring of the first vertex with the same canonical id, and counts the
        distinct ids. Every vertex must be live and still alone in its ring. */
    method LinkColocalsWithCanonicalMap(canonicalMap: seq<nat>)
      requires Valid() && |vertexArray| <= |canonicalMap| && Singletons(vertexArray)
      modifies this`vertexArray, this`colocalVertexCount
      ensures Valid()
      ensures |vertexArray| == |old(vertexArray)|
      ensures vertexArray == Linked(old(vertexArray), canonicalMap[..|old(vertexArray)|], |old(vertexArray)|)
      ensures forall u, v | 0 <= u < |vertexArray| && 0 <= v < |vertexArray| ::
                SameRing(vertexArray, u, v) <==> canonicalMap[u] == canonicalMap[v]
      ensures colocalVertexCount == |set u | 0 <= u < |vertexArray| :: canonicalMap[u]|
    {
      var n := |vertexArray|;
      var cm := canonicalMap[..n];
      ghost var vs0 := vertexArray;
      var idMax := MaxId(cm);
      var first := ChainColocals(cm, idMax);
      colocalVertexCount := CountSome(first);
      FirstsAreIds(cm, idMax, first);
      assert (set u | 0 <= u < n :: cm[u]) == (set u | 0 <= u < n :: canonicalMap[u]);
      LinkedWf(vs0, edgeArray, faceArray, edgeMap, cm);
      forall u, w | 0 <= u < n && 0 <= w < n
        ensures SameRing(vertexArray, u, w) <==> canonicalMap[u] == canonicalMap[w]
      {
        LinkedRingsAreGroups(vs0, cm, u, w);
      }
    }

    // ---------------------------------------------------------------- compaction

    /** Rewrites the face of every half-edge through `id`. */
    method RenumberEdgeFaces(id: seq<nat>)
      modifies this`edgeArray
      ensures edgeArray == EdgeFaces(old(edgeArray), id)
    {
      ghost var es0 := edgeArray;
      var d := 0;
      while d < |edgeArray|
        invariant |edgeArray| == |es0| && 0 <= d <= |es0|
        invariant forall k | 0 <= k < d :: edgeArray[k] == EdgeFaceAt(es0, id, k)
        invariant forall k | d <= k < |es0| :: edgeArray[k] == es0[k]
      {
        edgeArray := edgeArray[d := EdgeFaceAt(edgeArray, id, d)];
        d := d + 1;
      }
    }

    /** Rewrites the pair and the neighbours of every half-edge through `id`. */
    method RenumberEdgeLinks(id: seq<nat>)
      modifies this`edgeArray
      ensures edgeArray == EdgeLinks(old(edgeArray), id)
    {
      ghost var es0 := edgeArray;
      var d := 0;
      while d < |edgeArray|
        invariant |edgeArray| == |es0| && 0 <= d <= |es0|
        invariant forall k | 0 <= k < d :: edgeArray[k] == EdgeLinkAt(es0, id, k)
        invariant forall k | d <= k < |es0| :: edgeArray[k] == es0[k]
      {
        edgeArray := edgeArray[d := EdgeLinkAt(edgeArray, id, d)];
        d := d + 1;
      }
    }

    /** Rewrites the end vertices of every half-edge through `id`. */
    method RenumberEdgeEnds(id: seq<nat>)
      modifies this`edgeArray
      ensures edgeArray == EdgeEnds(old(edgeArray), id)
    {
      ghost var es0 := edgeArray;
      var d := 0;
      while d < |edgeArray|
        invariant |edgeArray| == |es0| && 0 <= d <= |es0|
        invariant forall k | 0 <= k < d :: edgeArray[k] == EdgeEndAt(es0, id, k)
        invariant forall k | d <= k < |es0| :: edgeArray[k] == es0[k]
      {
        edgeArray := edgeArray[d := EdgeEndAt(edgeArray, id, d)];
        d := d + 1;
      }
    }

    /** Rewrites the incident half-edge of every vertex through `id`. */
    method RenumberVertexEdges(id: seq<nat>)
      modifies this`vertexArray
      ensures vertexArray == VertexEdgeRefs(old(vertexArray), id)
    {
      ghost var vs0 := vertexArray;
      var v := 0;
      while v < |vertexArray|
        invariant |vertexArray| == |vs0| && 0 <= v <= |vs0|
        invariant forall k | 0 <= k < v :: vertexArray[k] == VertexEdgeRefAt(vs0, id, k)
        invariant forall k | v <= k < |vs0| :: vertexArray[k] == vs0[k]
      {
        vertexArray := vertexArray[v := VertexEdgeRefAt(vertexArray, id, v)];
        v := v + 1;
      }
    }

    /** Rewrites the colocal links of every vertex through `id`. */
    method RenumberRings(id: seq<nat>)
      modifies this`vertexArray
      ensures vertexArray == VertexRings(old(vertexArray), id)
    {
      ghost var vs0 := vertexArray;
      var v := 0;
      while v < |vertexArray|
        invariant |vertexArray| == |vs0| && 0 <= v <= |vs0|
        invariant forall k | 0 <= k < v :: vertexArray[k] == VertexRingAt(vs0, id, k)
        invariant forall k | v <= k < |vs0| :: vertexArray[k] == vs0[k]
      {
        vertexArray := vertexArray[v := VertexRingAt(vertexArray, id, v)];
        v := v + 1;
      }
    }

    /** Rewrites the half-edge of every face through `id`. */
    method RenumberFaceEdges(id: seq<nat>)
      modifies this`faceArray
      ensures faceArray == FaceEdges(old(faceArray), id)
    {
      ghost var fs0 := faceArray;
      var f := 0;
      while f < |faceArray|
        invariant |faceArray| == |fs0| && 0 <= f <= |fs0|
        invariant forall k | 0 <= k < f :: faceArray[k] == FaceEdgeAt(fs0, id, k)
        invariant forall k | f <= k < |fs0| :: faceArray[k] == fs0[k]
      {
        faceArray := faceArray[f := FaceEdgeAt(faceArray, id, f)];
        f := f + 1;
      }
    }

    /** `compactFaces()`: drops the removed faces, renumbers the rest in order and
        rewrites the faces of the half-edges. */
    method CompactFaces()
      requires Valid()
      modifies this`faceArray, this`edgeArray
      ensures Valid()
      ensures faceArray == Squeeze(old(faceArray))
      ensures edgeArray == EdgeFaces(old(edgeArray), Ids(old(faceArray)))
    {
      CompactFacesWf(vertexArray, edgeArray, faceArray, edgeMap);
      var packed, id := Pack(faceArray);
      faceArray := packed;
      RenumberEdgeFaces(id);
    }

    /** `compactEdges()`: drops the removed half-edges, renumbers the rest in order
        and rewrites every reference to a half-edge. */
    method CompactEdges()
      requires Valid()
      modifies this`vertexArray, this`edgeArray, this`faceArray, this`edgeMap
      ensures Valid()
      ensures var id := Ids(old(edgeArray));
        vertexArray == VertexEdgeRefs(old(vertexArray), id) &&
        edgeArray == EdgeLinks(Squeeze(old(edgeArray)), id) &&
        faceArray == FaceEdges(old(faceArray), id) &&
        edgeMap == MapEdges(old(edgeMap), id)
    {
      CompactEdgesWf(vertexArray, edgeArray, faceArray, edgeMap);
      var packed, id := Pack(edgeArray);
      edgeArray := packed;
      RenumberEdgeLinks(id);
      RenumberVertexEdges(id);
      RenumberFaceEdges(id);
      edgeMap := MapEdges(edgeMap, id);
    }

    /** `compactVertices()`: drops the removed vertices, renumbers the rest in order
        and rewrites the colocal links, the ends of the half-edges and the keys of
        the edge lookup. */
    method CompactVertices()
      requires Valid()
      modifies this`vertexArray, this`edgeArray, this`edgeMap
      ensures Valid()
      ensures KeysApart(old(edgeMap), Ids(old(vertexArray)))
      ensures var id := Ids(old(vertexArray));
        vertexArray == VertexRings(Squeeze(old(vertexArray)), id) &&
        edgeArray == EdgeEnds(old(edgeArray), id) &&
        edgeMap == MapKeys(old(edgeMap), id)
    {
      CompactVerticesWf(vertexArray, edgeArray, faceArray, edgeMap);
      var packed, id := Pack(vertexArray);
      vertexArray := packed;
      RenumberRings(id);
      RenumberEdgeEnds(id);
      edgeMap := MapKeys(edgeMap, id);
    }
  }

  /** The largest canonical id, or 0 for no vertices. */
  method MaxId(cm: seq<nat>) returns (r: nat)
    ensures forall u | 0 <= u < |cm| :: cm[u] <= r
    ensures r == 0 || exists u | 0 <= u < |cm| :: cm[u] == r
  {
    r := 0;
    var v := 0;
    while v < |cm|
      invariant 0 <= v <= |cm|
      invariant forall u | 0 <= u < v :: cm[u] <= r
      invariant r == 0 || exists u | 0 <= u < v :: cm[u] == r
    {
      if cm[v] > r {
        r := cm[v];
      }
      v := v + 1;
    }
  }

  /** The number of occupied entries. */
  method CountSome(first: seq<Option<nat>>) returns (count: nat)
    ensures count == |set h: nat | h < |first| && first[h].Some?|
  {
    count := 0;
    var i := 0;
    while i < |first|
      invariant 0 <= i <= |first|
      invariant count == |set h: nat | h < i && first[h].Some?|
    {
      ghost var before := set h: nat | h < i && first[h].Some?;
      if first[i].Some? {
        assert (set h: nat | h < i + 1 && first[h].Some?) == before + {i};
        count := count + 1;
      } else {
        assert (set h: nat | h < i + 1 && first[h].Some?) == before;
      }
      i := i + 1;
    }
  }

  /** The packing pass of `compact*`: the live slots in order, and the new id of
      every slot (the number of live slots before it). */
  method Pack<T>(s: seq<Option<T>>) returns (r: seq<Option<T>>, id: seq<nat>)
    ensures r == Squeeze(s) && id == Ids(s)
  {
    r, id := [], [];
    var i := 0;
    while i < |s|
      invariant 0 <= i <= |s| && |id| == i
      invariant r == Squeeze(s[..i])
      invariant forall j | 0 <= j < i :: id[j] == Rank(s, j)
    {
      RankStep(s, i);
      id := id + [|r|];
      if s[i].Some? {
        r := r + [s[i]];
      }
      i := i + 1;
    }
    assert s[..|s|] == s;
  }
}
