/** Entity records of the half-edge mesh and the key of its edge lookup.
    Entities live in arena slots addressed by their id (the slot index);
    a removed entity leaves a `None` slot until the array is compacted. */
module MeshTypes {

  datatype Option<T> = None | Some(value: T)

  /** Edge lookup key: the ordered pair (origin, end) of vertex ids of a half-edge. */
  datatype Key = Key(p0: nat, p1: nat)

  /** Key::operator== compares the two components. */
  function KeyEquals(a: Key, b: Key): (r: bool)
    ensures r <==> a == b
  {
    a.p0 == b.p0 && a.p1 == b.p1
  }

  /** The key of the opposite direction. */
  function Reverse(k: Key): Key
  {
    Key(k.p1, k.p0)
  }

  /** Keys are ordered pairs: a key equals its reverse only for a degenerate pair. */
  lemma KeyIsOrdered(i: nat, j: nat)
    ensures KeyEquals(Key(i, j), Key(j, i)) <==> i == j
    ensures KeyEquals(Reverse(Key(i, j)), Key(j, i))
  {
  }

  /** A vertex: one incident (outgoing) half-edge, if any, and the two links of
      the circular chain of colocal vertices (a vertex alone is its own neighbour).
      The position is opaque to the topology and is not represented. */
  datatype Vertex = Vertex(edge: Option<nat>, colocalNext: nat, colocalPrev: nat)

  /** A directed half-edge from `origin` to `to`. `pair` is the opposite half-edge,
      `next`/`prev` the neighbours around the face (or the boundary loop),
      `face` the owning face (none for a boundary half-edge). */
  datatype Edge = Edge(origin: nat, to: nat, pair: Option<nat>, next: Option<nat>,
                       prev: Option<nat>, face: Option<nat>)

  /** A face: one of its half-edges. */
  datatype Face = Face(edge: Option<nat>)

  function KeyOf(x: Edge): Key
  {
    Key(x.origin, x.to)
  }

  /** Slot `i` exists and holds an entity. */
  predicate IsLive<T>(s: seq<Option<T>>, i: nat)
  {
    i < |s| && s[i].Some?
  }
}
