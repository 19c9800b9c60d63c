# Half-edge surgery of a QuickHull3D face, in Dafny

This project models the combinatorial part of `Face` in the qhull3d convex-hull
library (a port of John E. Lloyd's QuickHull3D) and proves properties of it.
It also models the test helper `faceIndicesEqual`.

A face of the hull is a ring of half-edges linked by `next` and `prev`,
entered at `he0`. Each half-edge has:

- a head vertex;
- an owning face;
- an `opposite` half-edge on the neighbouring face.

A face also carries a vertex count `numVerts` and a `mark`, which is one of
VISIBLE, NON_CONVEX or DELETED.

The model keeps all half-edges and faces of a mesh in one arena, the class
`HalfEdgeMesh.Mesh`. Half-edges and faces are integer handles, and every
field is a sequence indexed by handle. `NONE` (-1) stands for a null
`opposite`. The tail of a half-edge is the head of the half-edge before it.

Every Java method of the core becomes a method of `Mesh` that updates these
fields, with the same branches and the same loops. Walks along `next` and
`prev` are stated with `Walks.Step`. A ring of n half-edges through e is
`Walks.RingOf(next, e, n)`.

Several Java loops never end on a malformed ring:

- the counting loop of `computeNormal`;
- the do/while loop of `checkConsistency`;
- the scans and the hand-over loop of `mergeAdjacentFace`.

The do/while loop of `getVertexString` appends to its string on every step, so
on such a ring it runs until memory is exhausted. This is modelled as
`NoTermination` as well.

Every exception message of `checkConsistency` starts with the vertex string of
the face, and the message about a deleted neighbour also walks that
neighbour's ring. So a check that fails on a ring that never closes does not
throw the consistency error: building the message runs until memory is
exhausted. One message dereferences the opposite of the opposite,
so a missing one there is a null dereference rather than the consistency
error.

Each model loop stops after as many steps as the arena has half-edges. It then
returns `Err(NoTermination)`, and a lemma proves that the Java loop would run
forever on that input. Exceptions become the `Error` values:

- `Inconsistent` for the `RuntimeException` of the checks;
- `NullPointer`, `IndexOutOfBounds` and `NegativeArraySize` for the Java
  runtime's own exceptions;
- `DivisionByZero` for the reciprocal of the zero norm in `computeNormal`.

Properties proved:

- `createTriangle` builds a closed three-ring on which `prev` undoes `next`.
- The count of `computeNormal` is the ring length, and normalising fails
  exactly on rings of one or two half-edges.
- `getEdge` indexes the ring modulo its length, backwards too.
- `checkConsistency` returns normally exactly on a consistent face.
- `connectHalfEdges` either just links two half-edges or removes a redundant
  edge. In the latter case it deletes a triangle across, or unlinks from the
  face across the half-edge before the successor of hedge's opposite.
- `mergeAdjacentFace` deletes the face across and returns 1 to 3 discarded
  faces. It reassigns exactly the half-edges it walks over, and a normal
  return leaves the merged face consistent.
- `faceIndicesEqual` decides equality up to rotation when no index repeats.
  With repeated indices it can miss a rotation, because it tries only the first
  occurrence of `indices1[0]`.

The code and the usual description of these operations differ in three places,
and the model follows the code:

- `getEdge` walks `i` steps. This equals "modulo the ring length" only on a
  linked ring.
- On a ring of one or two half-edges `computeNormal` sums no cross product,
  so the normal stays the zero vector and taking the reciprocal of its norm
  fails. So the count comparison of `updateNormalAndCentroid` is never reached
  on such a ring, and on every longer ring the two counts agree: its
  exception for differing counts is never thrown.
- `getIndices` writes past its array when the ring is longer than `numVerts`.

## Model

| member | source | states |
|---|---|---|
| `HalfEdgeMesh.Mesh.CreateTriangle` | src/main/java/ch/alpine/qhull3d/Face.java:44-59 | The new face is the next face handle and is marked VISIBLE. Its three new half-edges head to v0, v1 and v2, belong to the face and have no opposite. `next` and `prev` link them into a ring entered at the v0 edge. The rest of the arena is unchanged. `LinkedRing`: the ring has 3 half-edges, matches `numVerts`, and `prev` undoes `next` on it. |
| `HalfEdgeMesh.TriangleRing` | src/main/java/ch/alpine/qhull3d/Face.java:49-54 | The six link assignments of createTriangle keep the links closed and make a ring of exactly three on which `prev` undoes `next`. |
| `HalfEdgeMesh.Mesh.ComputeNormal` | src/main/java/ch/alpine/qhull3d/Face.java:88-106 | Only `numVerts[f]` changes. On a normal return it is the length of the ring through he0, at least 3. The division by the zero norm happens exactly when the walk is back at he0 after two steps, and `numVerts` is then 2. It never returns exactly when the walk from he0 never comes back. |
| `HalfEdgeMesh.Mesh.UpdateNormalAndCentroid` | src/main/java/ch/alpine/qhull3d/Face.java:108-118 | The links stay as they are. It returns normally iff the ring through he0 is closed and longer than two, and then `numVerts` is its length, so the count comparison never throws. It fails with the division by zero iff the walk is back at he0 after two steps, and never ends iff the walk from he0 never returns. |
| `HalfEdgeMesh.Mesh.GetEdge` | src/main/java/ch/alpine/qhull3d/Face.java:124-135 | The result is i steps along next from he0 (i >= 0) or -i steps along prev (i < 0). On a linked ring it is the edge at i modulo numVerts, so getEdge(0) and getEdge(numVerts) are he0. |
| `HalfEdgeMesh.Mesh.CheckConsistency` | src/main/java/ch/alpine/qhull3d/Face.java:202-233 | It returns normally iff numVerts >= 3, the ring through he0 has numVerts half-edges, and each of them has an opposite that points back, runs between the same two vertices reversed, and lies on a face not DELETED. On a ring that never closes it never ends, whatever fails. On a closing ring of n: numVerts below 3 is the consistency error; otherwise the first k half-edges pass, and the outcome is the `EdgeVerdict` of half-edge k when k < n, else the consistency error iff n differs from numVerts. |
| `HalfEdgeMesh.Mesh.EdgeVerdict` | src/main/java/ch/alpine/qhull3d/Face.java:209-224 | The outcome of the tests on one half-edge is normal iff the half-edge is consistent. A non-reflecting opposite whose own opposite is null gives a null dereference. A deleted face across whose ring never closes makes the message run until memory is exhausted. Every other failure is the consistency error. |
| `HalfEdgeMesh.Mesh.CheckEdge` | src/main/java/ch/alpine/qhull3d/Face.java:209-224 | It returns normally iff the half-edge is consistent. A failure is the `EdgeVerdict`, or exhausts memory building the message when the face's own ring never closes. |
| `HalfEdgeMesh.Mesh.VertexString` | src/main/java/ch/alpine/qhull3d/Face.java:154-166 | It runs until memory is exhausted iff the walk from he0 never comes back. Otherwise the result lists the heads of the ring in next order from he0, one per half-edge of the ring. |
| `HalfEdgeMesh.Mesh.Throw` | src/main/java/ch/alpine/qhull3d/Face.java:206-232 | A consistency exception of a face is thrown iff the face's ring closes, because its message starts with the face's vertex string. Otherwise building the message runs until memory is exhausted. |
| `HalfEdgeMesh.Mesh.GetIndices` | src/main/java/ch/alpine/qhull3d/Face.java:274-283 | Negative numVerts gives the negative-size error. A ring that does not close within numVerts steps gives the out-of-bounds error. Otherwise the array has numVerts entries: the heads of the ring in next order from he0, and 0 beyond the ring. On a ring of exactly numVerts it is the full vertex list. |
| `HalfEdgeMesh.Mesh.ConnectHalfEdges` | src/main/java/ch/alpine/qhull3d/Face.java:168-199 | If the faces across differ, it only sets next of hedgePrev and prev of hedge and discards nothing. If the same face is across both, it gives a null dereference exactly when that face is null, or is a triangle whose new opposite is null. Otherwise the edge is removed (`EdgeRemoved`), the face across is recounted to at least 3, and the discarded face is the deleted triangle or none. The recount can fail only by the division by zero or by not ending. |
| `HalfEdgeMesh.Mesh.RemoveRedundantEdge` | src/main/java/ch/alpine/qhull3d/Face.java:170-192 | The redundant-edge branch up to the recount stores the rewired links back. It has the same error characterisation as connectHalfEdges. On success the state is `EdgeRemoved`, and only the deleted triangle, if any, changes mark. |
| `HalfEdgeMesh.Rewire` | src/main/java/ch/alpine/qhull3d/Face.java:170-192 | This is the same branch computed on the field values. The links stay closed and in range. Success is exactly `Removed`: he0 moves off hedgePrev. A triangle across is deleted. A larger face across loses the half-edge before the successor of hedge's opposite, and its he0 moves off that half-edge. hedge follows hedgePrev's predecessor and is paired with its new opposite. |
| `HalfEdgeMesh.RemovedRelinks` | src/main/java/ch/alpine/qhull3d/Face.java:185-191 | After the removal, hedge is the successor of its new predecessor, and hedge and its new opposite are each other's opposite. A face is discarded exactly when the face across was a triangle, and then only that face is marked DELETED. |
| `HalfEdgeMesh.Mesh.SkipShared` | src/main/java/ch/alpine/qhull3d/Face.java:245-252 | A scan stops at the first half-edge of its walk that does not border the absorbed face, and the partner walk has taken as many steps. It never stops iff every half-edge of the walk borders that face. |
| `HalfEdgeMesh.Mesh.Reown` | src/main/java/ch/alpine/qhull3d/Face.java:253-256 | Exactly the half-edges on the walk from hedgeOppNext up to (excluding) the successor of hedgeOppPrev now belong to this face. All other fields are unchanged. The loop never ends iff the walk misses that successor. |
| `HalfEdgeMesh.Mesh.AbsorbAdjacent` | src/main/java/ch/alpine/qhull3d/Face.java:236-259 | The face across hedgeAdj is marked DELETED, and the links are untouched. On success, `Scanned` holds: the four join half-edges are the ends of the two scans on the links as they were, every skipped edge borders the absorbed face, and the handed-over half-edges are those of the walk. he0 moves to hedgeAdjNext iff it was hedgeAdj. |
| `HalfEdgeMesh.Mesh.MergeAdjacentFace` | src/main/java/ch/alpine/qhull3d/Face.java:235-272 | A null face across gives a null dereference. A normal return yields 1 to 3 discarded faces. The first is the face across hedgeAdj. The marks are the old ones with exactly the discarded faces DELETED. The scans and hand-over are as in `Scanned`, and this face passes `Consistent`. |
| `Walks.NoReturnWithin` | src/main/java/ch/alpine/qhull3d/Face.java:96-103 | A walk that is not back at its start within as many steps as the arena has half-edges never comes back. So the counting loop never ends. |
| `Walks.StaysIn` | src/main/java/ch/alpine/qhull3d/Face.java:245-252 | A walk whose first arena-size-plus-one half-edges pass a test passes it forever. So a loop that continues while the test holds never ends. |
| `Walks.NeverMeets` | src/main/java/ch/alpine/qhull3d/Face.java:254-256 | A walk that misses a half-edge in its first arena-size-plus-one steps never meets it. |
| `Walks.RingFits` | src/main/java/ch/alpine/qhull3d/Face.java:96-103 | A ring is never longer than the arena, since its half-edges are pairwise distinct. |
| `Walks.StepModulo` | src/main/java/ch/alpine/qhull3d/Face.java:126-129 | On a ring of n, walking k steps equals walking k mod n steps. |
| `Walks.BackwardIsForward` | src/main/java/ch/alpine/qhull3d/Face.java:130-133 | On a ring of n where prev undoes next, k steps back equal n - k steps forward. |
| `FaceIndices.FirstIndexOf` | src/test/java/ch/alpine/qhull3/QuickHull3DHelper.java:54-59 | The result is the first position of x in s, or the length of s when x does not occur. |
| `FaceIndices.FaceIndicesEqual` | src/test/java/ch/alpine/qhull3/QuickHull3DHelper.java:49-69 | It is true iff the lengths agree, the arrays are non-empty, and indices1 matches indices2 read cyclically from the first occurrence of indices1[0]. It is false for different lengths and for empty arrays. True implies a cyclic rotation. |
| `FaceIndices.MatchIsRotation` | src/test/java/ch/alpine/qhull3/QuickHull3DHelper.java:63-68 | A match is a cyclic rotation. |
| `FaceIndices.MatchReflexive` | src/test/java/ch/alpine/qhull3/QuickHull3DHelper.java:55-68 | Every non-empty index list matches itself. |
| `FaceIndices.MatchIffRotationWhenDistinct` | src/test/java/ch/alpine/qhull3/QuickHull3DHelper.java:43-68 | When indices2 has no repeated index, a match is exactly a cyclic rotation, as the doc comment promises. |
| `FaceIndices.RepeatedIndexMissesRotation` | src/test/java/ch/alpine/qhull3/QuickHull3DHelper.java:55-68 | With a repeated index, a cyclic rotation can fail to match: [1, 2, 1, 3] against [1, 3, 1, 2]. |

## Left out

- Plane geometry is not modelled, because it is real arithmetic through a tensor library: normal, centroid, planeOffset, area, the cross products, the norm and the division of `computeNormal`, `computeCentroid`, `distanceToPlane`, and the unused `maxd` of `checkConsistency`. `computeNormalAndCentroid` is modelled by its vertex count only. The centroid walk follows the same ring and ends exactly when the count does.
- The reciprocal of `RealScalar` zero is taken to throw; the tensor library is not part of this model. A zero norm on a ring of three or more half-edges (collinear or cancelling points) is geometry and is not modelled, so `ComputeNormal` returns normally there.
- The text of `getVertexString` and of the exception messages is left out: only the walks and dereferences made while building the messages are modelled, because those decide whether the exception is thrown at all. `VertexString` returns the list of head indices, not the formatted string.
- The vertex string of a single half-edge, used in several messages of `checkConsistency`, is taken to end normally: `HalfEdge.java` is not part of this model.
- `HalfEdge.java` is not part of this model. A half-edge is only what `Face` uses of it: head, tail (the head of prev), next, prev, opposite and face.
- A vertex is its index. Identity of `Vertex` objects is index equality.
- The face fields `next` (the driver's face list) and `outside` (conflict list) are not modelled. They belong to the QuickHull3D driver, which is not part of this model.
- Java's `mark` is an int. Only the three constants are ever stored in it.
- A face reference is never null in the arena. The null test on `hedgeOpp.face` in `checkConsistency` therefore cannot fail.
- A Java loop that never ends, or one that grows a string until memory is exhausted, is modelled as `Err(NoTermination)` after a bound of steps. The lemmas prove that this happens exactly on the inputs where the Java loop would not end.
- The state left behind by an exception is stored, as the Java code leaves it, but it is not specified beyond `Valid()` and the frame.
- createTriangle's six `next`/`prev` setter calls are one simultaneous assignment. They touch distinct fields, so their order is invisible.
- The redundant-edge branch of `connectHalfEdges` and the body of `mergeAdjacentFace` are split into helper methods. These are `RemoveRedundantEdge` / `Rewire`, `SkipShared`, `Reown` and `AbsorbAdjacent`, and they run in the same order as the Java statements.
- MergeAdjacentFace: on a normal return, the final next/prev links are stated only through `Consistent(f)` and the `Scanned` record of the scans; the contract does not spell out the joined ring or the links set by the two `connectHalfEdges` calls. It only says that an error is NullPointer for a null face across. Errors raised by the scans, the joins, the recount or the final check are not characterised.
- FaceIndicesEqual: Java computes `(j + i) % len` in 32-bit int. For arrays longer than 2^30 the sum can wrap to a negative value, and Java then throws an out-of-bounds exception. The model uses unbounded integers and returns a boolean there, so this overflow is not modelled.
- ConnectHalfEdges: the model does not relate the new `numVerts` of the face across to its old value. It only states that the recount gives the length of the new ring.
- ConnectHalfEdges: when the recount of the face across fails, the contract says only which error kinds can occur, not on which rings each arises.
- The other functions of `QuickHull3DHelper` (the random and timed test drivers) and the remaining test helpers are left out. They are randomized or floating-point test drivers.
