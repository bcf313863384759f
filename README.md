# Half-edge mesh container (nvmesh `HalfEdge::Mesh`)

This project is a Dafny model of the half-edge `Mesh` container declared in
`nvmesh/halfedge/Mesh.h`. It covers construction, colocal welding, removal,
compaction, boundary linking and sewing, the audit, the accessors and the six
iterator classes. Every mutating operation is proved to keep the structural invariant.

The mesh is an arena (module `HalfEdgeMesh`, class `Mesh`):

- `vertexArray`, `edgeArray` and `faceArray` hold `Option` records. An id is a slot,
  and a removed entity leaves a `None` hole until the array is compacted.
- `edgeMap` is the edge lookup, a `map<Key, nat>` from the ordered vertex pair
  `(origin, end)` to a half-edge id.
- `colocalVertexCount` counts the colocal groups.
- `errorCount`, `errorIndex0` and `errorIndex1` are the diagnostic triple.

Records (module `MeshTypes`):

- `Vertex`: one incident half-edge and its two colocal-ring links.
- `Edge`: origin, end, pair, next, prev and face.
- `Face`: one of its half-edges.

The structural invariant `Valid()` (`MeshInvariants.Wf`) says:

- every reference names a live slot;
- `pair` is symmetric and joins half-edges with reversed endpoints;
- `next` and `prev` are inverse, and `next` stays within one face (or within the boundary);
- a linked half-edge is registered in the lookup under its key;
- a registered half-edge whose reverse key is registered is paired with the half-edge found there;
- a face's half-edge belongs to it, and a vertex's half-edge leaves it;
- the colocal links form rings (`colocalNext` and `colocalPrev` are inverse).

Each operation is a method of `Mesh`. It `ensures` its new state as a function of the
old one (the value-level kernels in `MeshUpdates`, `MeshRemoval`, `MeshColocals`,
`MeshCompaction` and `MeshSewing`), and it ensures `Valid()`. The properties the
header promises are lemmas about those kernels:

- welding chains exactly the vertices with the same canonical id into one ring;
- compaction keeps order, renumbers every reference, keeps the invariant and is idempotent;
- a seam pairs the two face twins and frees the two boundary half-edges.

`MeshIterators` has the six cursor classes. `MeshScenarios` runs short construction
sequences: a rejected duplicate triangle, and a shared side whose two halves are paired.

Only the header is available; `Mesh.cpp` is not part of this model. The bodies of the
declared operations are therefore modelled from their names, signatures and header
comments. The declared behaviour is the upper bound of every contract.

## Model

| member | source | states |
|---|---|---|
| MeshTypes.KeyEquals | nvmesh/halfedge/Mesh.h:349-352 | `Key::operator==` holds exactly when both components are equal |
| MeshTypes.KeyIsOrdered | nvmesh/halfedge/Mesh.h:340-356 | `(i,j)` equals `(j,i)` only when `i == j`; the reverse of `(i,j)` is `(j,i)` |
| HalfEdgeMesh.Mesh.constructor | nvmesh/halfedge/Mesh.h:48 | a new mesh is empty, valid, with no colocal groups and a zero error triple |
| HalfEdgeMesh.Mesh.Clear | nvmesh/halfedge/Mesh.h:52 | drops every entity and the lookup, keeps the error triple, stays valid |
| HalfEdgeMesh.Mesh.VertexCount | nvmesh/halfedge/Mesh.h:91-94 | the count is the length of the vertex array |
| HalfEdgeMesh.Mesh.VertexAt | nvmesh/halfedge/Mesh.h:95-102 | returns slot `i`, which is present exactly when vertex `i` is live |
| HalfEdgeMesh.Mesh.ColocalVertexCount | nvmesh/halfedge/Mesh.h:104-107 | returns the colocal group counter |
| HalfEdgeMesh.Mesh.FaceCount | nvmesh/halfedge/Mesh.h:110-113 | the count is the length of the face array |
| HalfEdgeMesh.Mesh.FaceAt | nvmesh/halfedge/Mesh.h:114-121 | returns slot `i`, present exactly when face `i` is live |
| HalfEdgeMesh.Mesh.EdgeCount | nvmesh/halfedge/Mesh.h:124-127 | the count is the length of the half-edge array |
| HalfEdgeMesh.Mesh.EdgeAt | nvmesh/halfedge/Mesh.h:128-135 | returns slot `i`, present exactly when half-edge `i` is live |
| HalfEdgeMesh.Mesh.AddVertex | nvmesh/halfedge/Mesh.h:54 | appends a vertex with the next id, no half-edge, alone in its colocal ring; the mesh stays valid |
| HalfEdgeMesh.Mesh.FindEdge | nvmesh/halfedge/Mesh.h:328 | returns the half-edge registered from `i` to `j`, none exactly when the key is absent; any linked half-edge from `i` to `j` is the one returned |
| HalfEdgeMesh.Mesh.CanAddEdge | nvmesh/halfedge/Mesh.h:325 | true exactly when `i != j`, both vertices are live and no face uses a half-edge from `i` to `j` |
| HalfEdgeMesh.Mesh.AddEdge | nvmesh/halfedge/Mesh.h:326 | reuses the registered face-less half-edge `i -> j` (cut out of its loop) or appends one, paired with the reverse half-edge if registered; the key maps to it, face cycles are untouched, the mesh stays valid |
| HalfEdgeMesh.Mesh.CanAddFace | nvmesh/halfedge/Mesh.h:317-324 | true exactly when the window has at least three corners, every side may be added and no side repeats; when a window of three or more corners is rejected, the error indices name an offending side, otherwise they are unchanged |
| HalfEdgeMesh.Mesh.AddFaceWindow | nvmesh/halfedge/Mesh.h:65 | rejection returns none, leaves arrays and lookup unchanged, adds one to the error count and records an offending side in the error indices; success appends face `f`, whose half-edges form the cycle of the corners' sides, appends exactly one half-edge per side not yet in the lookup, changes a half-edge outside `f` only by pairing it with or unlinking it from a half-edge of `f`, gives a half-edge of `f` only to corners that had none, and changes no other key |
| HalfEdgeMesh.Mesh.AddFaceArray | nvmesh/halfedge/Mesh.h:64 | as `AddFaceWindow` on the whole array, including the offending side on rejection |
| HalfEdgeMesh.Mesh.AddTriangle | nvmesh/halfedge/Mesh.h:62 | as `AddFaceWindow` on the corners `v0 v1 v2`, including the offending side on rejection |
| HalfEdgeMesh.Mesh.AddQuad | nvmesh/halfedge/Mesh.h:63 | as `AddFaceWindow` on the corners `v0 v1 v2 v3`, including the offending side on rejection |
| HalfEdgeMesh.Mesh.AddEmptyFace | nvmesh/halfedge/Mesh.h:61 | appends a face with no half-edge; the mesh stays valid |
| HalfEdgeMesh.Mesh.BuildFace | nvmesh/halfedge/Mesh.h:62-65 | the face-building step of `addFace`: new face with the cycle of the polygon's sides, one new half-edge per side missing from the lookup, every other half-edge kept except for pairing with or unlinking from the new face, only corners without a half-edge get one |
| HalfEdgeMesh.Mesh.LinkCycle | nvmesh/halfedge/Mesh.h:62-65 | links the new half-edges into a cycle whose walk visits them in order and returns to the first, changing no other slot |
| HalfEdgeMesh.Mesh.Disconnect | nvmesh/halfedge/Mesh.h:68-69 | takes the half-edge out of the lookup, its pair, its cycle, its face and its origin vertex, keeping its slot; the mesh stays valid and nothing refers to it |
| HalfEdgeMesh.Mesh.RemoveEdge | nvmesh/halfedge/Mesh.h:68-71 | disconnects the half-edge and frees its slot; nothing else changes beyond the disconnection |
| HalfEdgeMesh.Mesh.RemoveVertex | nvmesh/halfedge/Mesh.h:72 | splices an isolated vertex out of its colocal ring and frees its slot; the mesh stays valid |
| HalfEdgeMesh.Mesh.RemoveFace | nvmesh/halfedge/Mesh.h:73 | frees the slot of a face no half-edge belongs to and changes nothing else |
| HalfEdgeMesh.Mesh.LinkColocalsWithCanonicalMap | nvmesh/halfedge/Mesh.h:59 | afterwards two vertices share a colocal ring exactly when their canonical ids are equal, and the group counter is the number of distinct ids; the mesh stays valid |
| HalfEdgeMesh.Mesh.ChainColocals | nvmesh/halfedge/Mesh.h:59 | the chaining loop produces the rings of the canonical groups and the first member of every id |
| HalfEdgeMesh.Mesh.CompactFaces | nvmesh/halfedge/Mesh.h:78 | the face array becomes its live faces in order, every half-edge's face is renumbered, the mesh stays valid |
| HalfEdgeMesh.Mesh.CompactEdges | nvmesh/halfedge/Mesh.h:75-76 | the half-edge array becomes its live half-edges in order; pairs, links, incident half-edges of vertices and faces, and every lookup entry are renumbered; the mesh stays valid |
| HalfEdgeMesh.Mesh.CompactVertices | nvmesh/halfedge/Mesh.h:77 | the vertex array becomes its live vertices in order; colocal links, half-edge ends and lookup keys are renumbered (no two keys collide); the mesh stays valid |
| HalfEdgeMesh.Pack | nvmesh/halfedge/Mesh.h:75-78 | the packing pass returns the live slots in order and each slot's new id |
| HalfEdgeMesh.Mesh.RenumberEdgeFaces | nvmesh/halfedge/Mesh.h:78 | the rewrite loop replaces every half-edge's face by its new id |
| HalfEdgeMesh.Mesh.RenumberEdgeLinks | nvmesh/halfedge/Mesh.h:76 | the rewrite loop replaces every pair, next and prev by its new id |
| HalfEdgeMesh.Mesh.RenumberEdgeEnds | nvmesh/halfedge/Mesh.h:77 | the rewrite loop replaces both ends of every half-edge by their new ids |
| HalfEdgeMesh.Mesh.RenumberVertexEdges | nvmesh/halfedge/Mesh.h:76 | the rewrite loop replaces every vertex's half-edge by its new id |
| HalfEdgeMesh.Mesh.RenumberRings | nvmesh/halfedge/Mesh.h:77 | the rewrite loop replaces both colocal links by their new ids |
| HalfEdgeMesh.Mesh.RenumberFaceEdges | nvmesh/halfedge/Mesh.h:76 | the rewrite loop replaces every face's half-edge by its new id |
| HalfEdgeMesh.Mesh.LinkBoundaryEdge | nvmesh/halfedge/Mesh.h:330 | points the origin at the boundary half-edge; if it has no successor, links it to the lowest-id boundary half-edge that may follow it, else none exists; face half-edges untouched |
| HalfEdgeMesh.Mesh.AddBoundaryTwins | nvmesh/halfedge/Mesh.h:82 | first pass of `linkBoundary`: every open face half-edge gets a pair numbered after the old slots, and each new slot is an unlinked boundary twin of a formerly open half-edge; other old half-edges are unchanged; the lookup keeps its old entries and gains only keys of new slots; afterwards no face half-edge lacks a pair, and the mesh stays valid |
| HalfEdgeMesh.Mesh.LinkBoundaryEdges | nvmesh/halfedge/Mesh.h:82 | second pass: only `next` and `prev` of face-less half-edges change, and every face half-edge is untouched; the vertex count is kept, and a vertex that changes changes only its half-edge, now a boundary half-edge leaving it; afterwards no boundary half-edge lacks a successor that some boundary half-edge could be, every vertex a boundary half-edge leaves references a boundary half-edge, and successors still start where their predecessors end |
| HalfEdgeMesh.Mesh.LinkBoundary | nvmesh/halfedge/Mesh.h:82 | every formerly open face half-edge is paired with a new boundary half-edge, every new slot is such a twin, old half-edges keep their ends, faces and pairs, and the lookup only gains the twins' keys; no face half-edge lacks a pair and no boundary half-edge lacks a successor it could be given; each boundary origin references a boundary half-edge, and vertices change only in that reference; where every boundary vertex has one boundary half-edge in and one out, every boundary half-edge has a successor and a predecessor (the boundary is closed into loops; `MeshScenarios.TriangleBoundary` meets this premise); the mesh stays valid |
| HalfEdgeMesh.Mesh.IsColocal | nvmesh/halfedge/Mesh.h:86-87 | true exactly when `v` is reached from `u` along the colocal ring in fewer steps than vertex slots |
| HalfEdgeMesh.Mesh.SewLinkStep | nvmesh/halfedge/Mesh.h:86-87 | the half-edge updates of one seam are exactly the seam kernel |
| HalfEdgeMesh.Mesh.SewStep | nvmesh/halfedge/Mesh.h:86-87 | one seam updates vertices, half-edges and lookup as the seam kernel says and keeps the mesh valid |
| HalfEdgeMesh.Mesh.SewSeam | nvmesh/halfedge/Mesh.h:86-87 | one seam frees half-edges, keeps face half-edges, and returns a boundary half-edge to go on from, none exactly when the seam closed the loop or used up its chain |
| HalfEdgeMesh.Mesh.SewBoundary | nvmesh/halfedge/Mesh.h:86-87 | keeps the mesh valid and every face half-edge; a returned half-edge is still on the boundary; none is returned only after a seam was closed |
| HalfEdgeMesh.Mesh.IsValid | nvmesh/halfedge/Mesh.h:313-320 | true exactly when every live half-edge passes the audit (both neighbours, a pair, a boundary origin that references a boundary half-edge, no boundary branch point at its ends); on failure the count goes up and the indices name the endpoints of the first failing half-edge |
| MeshUpdates.BoundaryNeighbours | nvmesh/halfedge/Mesh.h:22-28 | the successor and predecessor of a boundary half-edge are boundary half-edges that link back to it |
| MeshUpdates.LookupCovers | nvmesh/halfedge/Mesh.h:340-359 | the lookup holds one entry per ordered pair, and every linked half-edge is the one its key maps to |
| MeshUpdates.CutLinksWf | nvmesh/halfedge/Mesh.h:326 | cutting a half-edge out of its loop keeps the invariant and changes only links |
| MeshUpdates.AppendEdgeWf | nvmesh/halfedge/Mesh.h:326 | appending a half-edge keeps the invariant and gives a pair only to the reverse half-edge |
| MeshUpdates.LinkWf | nvmesh/halfedge/Mesh.h:28 | linking `a -> b` (setting `a.next` and `b.prev` together) keeps the invariant |
| MeshUpdates.ReuseForFace | nvmesh/halfedge/Mesh.h:326 | reusing a face-less half-edge for a new face changes nothing beside that face |
| MeshUpdates.AppendForFace | nvmesh/halfedge/Mesh.h:326 | appending a half-edge for a new face changes nothing beside that face except pairing the reverse half-edge with it |
| MeshUpdates.FaceAddedOnlyTransitive | nvmesh/halfedge/Mesh.h:62-65 | changing nothing beside a new face composes across the steps of `addFace` |
| MeshUpdates.RelinkForFace | nvmesh/halfedge/Mesh.h:62-65 | linking the half-edges of the new face into its cycle changes nothing beside it |
| MeshUpdates.LinkedStep | nvmesh/halfedge/Mesh.h:82 | one `linkBoundaryEdge` call leaves no boundary half-edge up to it without a successor it could be given, and keeps linked half-edges meeting |
| MeshUpdates.BoundaryPassStep | nvmesh/halfedge/Mesh.h:82 | one step of the second `linkBoundary` pass extends to the current half-edge the guarantees already holding below it: boundary origins reference boundary half-edges, no linkable gap, links still meet; only face-less half-edges have been relinked and only boundary origins repointed since the pass began |
| MeshUpdates.TwinAddedStep | nvmesh/halfedge/Mesh.h:82 | adding the twin of open half-edge `i` advances the first pass by one: `i` is paired with the new slot, the new slot is an unlinked boundary half-edge paired back with `i`, and the lookup keeps its old entries |
| MeshUpdates.TwinSkipStep | nvmesh/halfedge/Mesh.h:82 | passing over a half-edge that is not open advances the first pass without changing anything |
| MeshUpdates.TwinsAddedDone | nvmesh/halfedge/Mesh.h:82 | once the first pass has covered every old slot, no half-edge is open and the array extends the old one |
| MeshUpdates.TwinsSurviveRelink | nvmesh/halfedge/Mesh.h:82 | relinking only face-less half-edges in the second pass keeps everything the first pass established about the twins |
| MeshUpdates.RepointStep | nvmesh/halfedge/Mesh.h:82 | pointing the origin of a boundary half-edge at it, after relinking face-less half-edges, keeps the second pass's frame: face half-edges untouched, vertices changed only in a boundary half-edge leaving them |
| MeshUpdates.SidesApart | nvmesh/halfedge/Mesh.h:62-65 | around a polygon with distinct corners, two different sides start at different corners and end at different corners |
| MeshUpdates.PolygonBoundaryContinues | nvmesh/halfedge/Mesh.h:22-28 | if the boundary half-edges are exactly the reversed sides of one polygon, a boundary half-edge leaves the end of each and one enters the origin of each |
| MeshUpdates.PolygonBoundaryUnbranched | nvmesh/halfedge/Mesh.h:22-28 | if the boundary half-edges are exactly the reversed sides of a polygon with distinct corners, no two start or end at the same vertex |
| MeshUpdates.PolygonBoundarySimple | nvmesh/halfedge/Mesh.h:22-28 | such a polygon boundary has neither dead ends nor branch points, the premise under which `LinkBoundary` closes the boundary into loops |
| MeshUpdates.AppendKeepsMeet | nvmesh/halfedge/Mesh.h:82 | adding a boundary twin keeps successors starting where their predecessors end |
| MeshUpdates.HasSuccessor | nvmesh/halfedge/Mesh.h:22-28 | after linking, a boundary half-edge that a boundary half-edge continues, with one boundary half-edge entering each vertex, has a successor |
| MeshUpdates.HasPredecessor | nvmesh/halfedge/Mesh.h:22-28 | after linking, a boundary half-edge that continues a boundary half-edge, with one boundary half-edge leaving each vertex, has a predecessor |
| MeshUpdates.BoundaryLoopsClosed | nvmesh/halfedge/Mesh.h:22-28 | after linking, a boundary with one boundary half-edge in and one out at every vertex is closed into loops: every boundary half-edge has both neighbours |
| MeshRemoval.DetachWf | nvmesh/halfedge/Mesh.h:68-69 | disconnecting keeps the invariant and leaves nothing referring to the half-edge |
| MeshRemoval.FreeEdgeWf | nvmesh/halfedge/Mesh.h:71 | freeing an isolated half-edge keeps the invariant |
| MeshRemoval.RemoveVertexWf | nvmesh/halfedge/Mesh.h:72 | removing an isolated vertex after splicing it out of its ring keeps the invariant |
| MeshRemoval.RemoveFaceWf | nvmesh/halfedge/Mesh.h:73 | freeing a face no half-edge belongs to keeps the invariant |
| MeshColocals.FirstsExtend | nvmesh/halfedge/Mesh.h:59 | one more vertex in the chaining loop changes the first member of its own id only, and only if that id had none yet |
| MeshColocals.LinkedWf | nvmesh/halfedge/Mesh.h:59 | the chained rings keep the invariant |
| MeshColocals.PrevOfNext | nvmesh/halfedge/Mesh.h:59 | the chained predecessor of a vertex's successor is the vertex, and the successor is in its group |
| MeshColocals.NextOfPrev | nvmesh/halfedge/Mesh.h:59 | the chained successor of a vertex's predecessor is the vertex, and the predecessor is in its group |
| MeshColocals.RingInverse | nvmesh/halfedge/Mesh.h:59 | the chained successor and predecessor are inverse and stay within a group |
| MeshColocals.SameRingIffSameGroup | nvmesh/halfedge/Mesh.h:59 | two chained vertices are on one ring exactly when they have the same canonical id |
| MeshColocals.LinkedRingsAreGroups | nvmesh/halfedge/Mesh.h:59 | the same equivalence for the walk along the chained vertex array |
| MeshColocals.FirstsAreIds | nvmesh/halfedge/Mesh.h:361 | the ids with a first member are exactly the canonical ids in use |
| MeshCompaction.RankOrder | nvmesh/halfedge/Mesh.h:75 | new ids keep the original relative order |
| MeshCompaction.SqueezeAt | nvmesh/halfedge/Mesh.h:75 | the compacted array holds each live entity at its new id |
| MeshCompaction.Preimage | nvmesh/halfedge/Mesh.h:75 | every slot of the compacted array comes from a live slot |
| MeshCompaction.RankInjective | nvmesh/halfedge/Mesh.h:75 | distinct live entities get distinct new ids |
| MeshCompaction.NoHoles | nvmesh/halfedge/Mesh.h:75 | an array without holes compacts to itself with identity ids |
| MeshCompaction.CompactFacesWf | nvmesh/halfedge/Mesh.h:78 | face compaction keeps the invariant |
| MeshCompaction.CompactFacesIdempotent | nvmesh/halfedge/Mesh.h:78 | compacting faces twice equals compacting once |
| MeshCompaction.CompactEdgesWf | nvmesh/halfedge/Mesh.h:76 | half-edge compaction keeps the invariant |
| MeshCompaction.CompactEdgesIdempotent | nvmesh/halfedge/Mesh.h:76 | compacting half-edges twice equals compacting once |
| MeshCompaction.CompactVerticesWf | nvmesh/halfedge/Mesh.h:77 | vertex compaction keeps the invariant, and renumbered keys do not collide |
| MeshCompaction.CompactVerticesIdempotent | nvmesh/halfedge/Mesh.h:77 | compacting vertices twice equals compacting once |
| MeshCompaction.MapKeys | nvmesh/halfedge/Mesh.h:77 | the re-keyed lookup maps each renumbered key to the half-edge the old key mapped to, and has no other key |
| MeshSewing.SewNeighbourhoodHolds | nvmesh/halfedge/Mesh.h:86-87 | at a seam, the two boundary half-edges, their twins and their loop neighbours are distinct and linked as a boundary loop |
| MeshSewing.SewWf | nvmesh/halfedge/Mesh.h:86-87 | one seam keeps the invariant |
| MeshSewing.SewEffect | nvmesh/halfedge/Mesh.h:86-87 | one seam pairs the two face twins, which now meet end to end, frees both boundary half-edges, keeps other boundary half-edges on the boundary and leaves fewer live half-edges |
| MeshSewing.KeepsFaceEdgesTransitive | nvmesh/halfedge/Mesh.h:86-87 | keeping every face half-edge composes across seams |
| MeshIterators.VertexIterator.constructor | nvmesh/halfedge/Mesh.h:143 | a new cursor starts at 0 over the given mesh |
| MeshIterators.VertexIterator.Advance | nvmesh/halfedge/Mesh.h:145-148 | the cursor goes up by one |
| MeshIterators.VertexIterator.IsDone | nvmesh/halfedge/Mesh.h:149-152 | done exactly when the cursor equals the vertex count |
| MeshIterators.VertexIterator.Current | nvmesh/halfedge/Mesh.h:153-156 | the vertex slot at the cursor |
| MeshIterators.ConstVertexIterator.constructor | nvmesh/halfedge/Mesh.h:170 | a new cursor starts at 0 |
| MeshIterators.ConstVertexIterator.FromMutable | nvmesh/halfedge/Mesh.h:171 | built from a mutable iterator, keeps its mesh and cursor |
| MeshIterators.ConstVertexIterator.Advance | nvmesh/halfedge/Mesh.h:173-176 | the cursor goes up by one |
| MeshIterators.ConstVertexIterator.IsDone | nvmesh/halfedge/Mesh.h:177-180 | done exactly when the cursor equals the vertex count |
| MeshIterators.ConstVertexIterator.Current | nvmesh/halfedge/Mesh.h:181-184 | the vertex slot at the cursor |
| MeshIterators.FaceIterator.constructor | nvmesh/halfedge/Mesh.h:201 | a new cursor starts at 0 |
| MeshIterators.FaceIterator.Advance | nvmesh/halfedge/Mesh.h:203-206 | the cursor goes up by one |
| MeshIterators.FaceIterator.IsDone | nvmesh/halfedge/Mesh.h:207-210 | done exactly when the cursor equals the face count |
| MeshIterators.FaceIterator.Current | nvmesh/halfedge/Mesh.h:211-214 | the face slot at the cursor |
| MeshIterators.ConstFaceIterator.constructor | nvmesh/halfedge/Mesh.h:228 | a new cursor starts at 0 |
| MeshIterators.ConstFaceIterator.FromMutable | nvmesh/halfedge/Mesh.h:229 | built from a mutable iterator, keeps its mesh and cursor |
| MeshIterators.ConstFaceIterator.Advance | nvmesh/halfedge/Mesh.h:231-234 | the cursor goes up by one |
| MeshIterators.ConstFaceIterator.IsDone | nvmesh/halfedge/Mesh.h:235-238 | done exactly when the cursor equals the face count |
| MeshIterators.ConstFaceIterator.Current | nvmesh/halfedge/Mesh.h:239-242 | the face slot at the cursor |
| MeshIterators.EdgeIterator.constructor | nvmesh/halfedge/Mesh.h:259 | a new cursor starts at 0 |
| MeshIterators.EdgeIterator.Advance | nvmesh/halfedge/Mesh.h:261-264 | the cursor goes up by one |
| MeshIterators.EdgeIterator.IsDone | nvmesh/halfedge/Mesh.h:265-268 | done exactly when the cursor equals the half-edge count |
| MeshIterators.EdgeIterator.Current | nvmesh/halfedge/Mesh.h:269-272 | the half-edge slot at the cursor |
| MeshIterators.ConstEdgeIterator.constructor | nvmesh/halfedge/Mesh.h:286 | a new cursor starts at 0 |
| MeshIterators.ConstEdgeIterator.FromMutable | nvmesh/halfedge/Mesh.h:287 | built from a mutable iterator, keeps its mesh and cursor |
| MeshIterators.ConstEdgeIterator.Advance | nvmesh/halfedge/Mesh.h:289-292 | the cursor goes up by one |
| MeshIterators.ConstEdgeIterator.IsDone | nvmesh/halfedge/Mesh.h:293-296 | done exactly when the cursor equals the half-edge count |
| MeshIterators.ConstEdgeIterator.Current | nvmesh/halfedge/Mesh.h:297-300 | the half-edge slot at the cursor |
| MeshIterators.VisitVertices | nvmesh/halfedge/Mesh.h:162-165 | a full iteration from `vertices()` visits exactly the vertex array, in order |
| MeshIterators.ResumeVertices | nvmesh/halfedge/Mesh.h:171 | a const iterator made from a mutable one visits the rest of the vertex array from its cursor |
| MeshIterators.VisitFaces | nvmesh/halfedge/Mesh.h:220-223 | a full iteration from `faces()` visits exactly the face array, in order |
| MeshIterators.ResumeFaces | nvmesh/halfedge/Mesh.h:229 | a const iterator made from a mutable one visits the rest of the face array |
| MeshIterators.VisitEdges | nvmesh/halfedge/Mesh.h:278-281 | a full iteration from `edges()` visits exactly the half-edge array, in order |
| MeshIterators.ResumeEdges | nvmesh/halfedge/Mesh.h:287 | a const iterator made from a mutable one visits the rest of the half-edge array |
| MeshScenarios.TriangleBoundary | nvmesh/halfedge/Mesh.h:82 | on a lone triangle, `linkBoundary` gives each side a boundary twin keyed by the reversed side, and every boundary half-edge gets a successor and a predecessor |
| MeshScenarios.TriangleOpen | nvmesh/halfedge/Mesh.h:62 | in a lone triangle every half-edge is open and keyed by a side, each side is registered, and there is no boundary half-edge yet |
| MeshScenarios.TriangleTwinsAppended | nvmesh/halfedge/Mesh.h:82 | after `linkBoundary` on a lone triangle, each side's half-edge has a boundary pair, and every boundary half-edge is new and paired with a side's half-edge |
| MeshScenarios.TriangleTwins | nvmesh/halfedge/Mesh.h:82 | the boundary half-edges of the linked triangle are exactly one per side, registered under the reversed side, and form a simple boundary |
| MeshScenarios.TriangleTwice | nvmesh/halfedge/Mesh.h:62 | the same triangle added twice is rejected the second time, with one error and one face |
| MeshScenarios.SharedSide | nvmesh/halfedge/Mesh.h:62 | two triangles sharing a side in opposite directions have that side's half-edges paired |
| MeshScenarios.SecondTriangleAddable | nvmesh/halfedge/Mesh.h:324-325 | after triangle 0 1 2, triangle 0 2 3 may be added: every side passes `canAddEdge` and none repeats |
| MeshScenarios.UnitSquare | nvmesh/halfedge/Mesh.h:63 | four vertices and the quadrilateral on them give one face, four vertices, four half-edges and no error |
| MeshScenarios.QuadAddable | nvmesh/halfedge/Mesh.h:324-325 | on four vertices and an empty lookup, the quadrilateral 0 1 2 3 passes the guard |

## Left out

- `Mesh.cpp` is not part of this model. The bodies of the declared operations are modelled from their declarations and the header comments.
- All half-edges, both directions, are kept in the half-edge array. The header comment on line 20 says the original keeps only the even ones; the model does not reproduce that layout.
- Vertex positions (`Vector3`) are not represented. `linkColocals()` (exact position match), `splitBoundaryEdge(s)` and `triangulate()` are geometric and are left out; `linkColocalsWithCanonicalMap` is the welding operation modelled.
- The `Hash<Key>` / `Equal<Key>` hashing of the lookup is not modelled; the lookup is a Dafny `map`.
- The copy constructor `Mesh(const Mesh*)`, the destructor and placement new are not modelled; entities are arena slots, not allocations.
- `Debug.h` assertions, `Utils.h` and the `virtual` dispatch of the iterators add no behaviour and are not modelled.
- Counters, ids and cursors are unbounded `nat`; the 32-bit wrap-around of `uint32_t` is not modelled.
- Operations that the source leaves to callers (a concurrent mutation, a stale id) are excluded by preconditions (`Valid()`, a live id).
- HalfEdgeMesh.Mesh.Disconnect: the former neighbours of the half-edge have their links to it cleared rather than joined to each other. This is a modelling choice. `Valid()` does not require that `next` starts where its predecessor ends, and sewing (`SewStep`) creates such links between colocal vertices, so joining would also keep the invariant. The original's choice is not visible in the header. The face cycle is left open, and the face keeps another half-edge or none.
- HalfEdgeMesh.Mesh.RemoveVertex and HalfEdgeMesh.Mesh.RemoveFace require the entity to be isolated: no half-edge may still touch the vertex or belong to the face. The header (lines 68-73) says only that `remove` disconnects and deletes the element. Removing a vertex or face does not cascade to its half-edges, and a half-edge left referring to a freed slot would break the invariant, so calling them otherwise is not modelled.
- HalfEdgeMesh.Mesh.CanAddFace rejects a window of fewer than three corners and leaves the error indices unchanged for it. What the original does with such a window is not visible in the header; the model treats it as not a polygon.
- HalfEdgeMesh.Mesh.LinkBoundary: "boundary vertices point to a boundary half-edge" (header lines 24-25) is ensured right after `LinkBoundary` and audited by `IsValid`, but it is not part of `Valid()`. `AddFace*` (reusing a boundary half-edge), `Disconnect` and `RemoveEdge` (demoting a twin or clearing a vertex's half-edge) and `SewBoundary` (pointing a vertex at a face twin) may break it until `LinkBoundary` runs again.
- HalfEdgeMesh.Mesh.LinkBoundary does not mark branch vertices when it links them. A vertex where two boundary half-edges leave or enter is reported by `IsValid`, whose audit fails on it. That the boundary is closed into loops is proved only for boundaries without branch points or dead ends, and when the links present before the call start where their predecessors end.
- HalfEdgeMesh.Mesh.LinkColocalsWithCanonicalMap requires every vertex to be live and alone in its ring. Welding a mesh that has removed vertices or earlier rings is not modelled.
- HalfEdgeMesh.Mesh.LinkBoundaryEdge: at a vertex where several boundary half-edges meet, the lowest-id free successor is chosen. The original's choice is not visible, and this is one deterministic policy.
- HalfEdgeMesh.Mesh.SewBoundary: a seam is closed between a boundary half-edge and its predecessor when their far ends are colocal. The loop also stops after one full unsewn lap, and after as many steps as there are half-edge slots. The result is weaker than "none exactly when the loop is completely closed". Only "a returned half-edge is on the boundary" and "none only after a seam" are proved, and sewing a loop with exact counterparts shut is not proved.
- HalfEdgeMesh.Mesh.IsColocal compares ring membership only; the position comparison of the original colocal comparison is not modelled.
- MeshIterators.VertexIterator.Current and the other five `Current` members require the cursor to be below the count. Reading past the end is undefined in the original and is not modelled.
- The const and mutable iterator classes differ only in their constructors; `const` access rights are not modelled.
- HalfEdgeMesh.Mesh.IsValid runs the per-half-edge audit (`EdgeAudited`: both neighbours, a pair, and a boundary origin that references a boundary half-edge). It does not re-derive the structural invariant, which `Valid()` guarantees in every reachable state.
