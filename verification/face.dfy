/** The half-edge mesh surgery of a convex-hull face.

    A face is a ring of half-edges linked by next and prev, entered at he0.
    Every half-edge has a head vertex, an owning face and possibly an opposite
    half-edge on the neighbouring face. Here half-edges and faces live in one
    arena and are named by integer handles; NONE stands for a null reference.
    A vertex is its index. The plane of a face (normal, centroid, offset, area)
    is not modelled. */
module HalfEdgeMesh {
  import opened Walks

  /** Face marks. */
  const VISIBLE := 1
  const NON_CONVEX := 2
  const DELETED := 3

  /** The null handle. */
  const NONE := -1

  /** How an operation ends other than normally: the RuntimeException of the
      consistency checks, the Java runtime's own exceptions, the division by
      the zero norm of a normal that was never summed, and a loop that would
      never end. */
  datatype Error =
    Inconsistent | NullPointer | IndexOutOfBounds | NegativeArraySize | DivisionByZero | NoTermination

  datatype Result<T> = Ok(value: T) | Err(error: Error)

  /** What mergeAdjacentFace found on its way: how many further shared edges it
      skipped behind and ahead of the merge edge, the four half-edges where the
      two rings are joined, he0 after it was moved off the merge edge, and the
      half-edges it handed over to the merged face. */
  datatype MergeTrace = MergeTrace(
    back: nat, front: nat,
    adjPrev: int, adjNext: int, oppPrev: int, oppNext: int,
    movedHe0: int, reowned: seq<int>)

  /** Every entry of s lies in [lo, hi). */
  ghost predicate Bounded(s: seq<int>, lo: int, hi: int)
  {
    forall e | 0 <= e < |s| :: lo <= s[e] < hi
  }

  lemma BoundedUpdate(s: seq<int>, i: int, v: int, lo: int, hi: int)
    requires Bounded(s, lo, hi) && 0 <= i < |s| && lo <= v < hi
    ensures Bounded(s[i := v], lo, hi)
  {
  }

  /** The face across half-edge e, given the opposite and face fields. */
  function Across(opposite: seq<int>, face: seq<int>, e: int): (g: int)
    requires |face| == |opposite| && 0 <= e < |opposite| && NONE <= opposite[e] < |opposite|
  {
    if opposite[e] == NONE then NONE else face[opposite[e]]
  }

  /** The marks now are the original ones with exactly the faces in ds
      deleted. */
  ghost predicate MarksAfter(orig: seq<int>, now: seq<int>, ds: seq<int>)
  {
    |now| == |orig| && (forall g | g in ds :: 0 <= g < |orig|)
    && forall g | 0 <= g < |orig| :: now[g] == if g in ds then DELETED else orig[g]
  }

  /** Deleting one more face d, or none, extends the list of deleted faces. */
  lemma MarksAfterStep(orig: seq<int>, m1: seq<int>, m2: seq<int>, ds: seq<int>, d: int)
    requires MarksAfter(orig, m1, ds)
    requires (d == NONE && m2 == m1) || (0 <= d < |m1| && m2 == m1[d := DELETED])
    ensures MarksAfter(orig, m2, if d == NONE then ds else ds + [d])
  {
  }

  /** The owners now are the original ones with the half-edges in es handed
      over to face f. */
  ghost predicate HandedOver(orig: seq<int>, now: seq<int>, es: seq<int>, f: int)
  {
    |now| == |orig| && forall e | 0 <= e < |orig| :: now[e] == if e in es then f else orig[e]
  }

  /** What the two scans and the hand-over loop of mergeAdjacentFace find on
      the links and owners as they were on entry: t.back further half-edges
      behind hedgeAdj and t.front ahead of it border the same face g as
      hedgeAdj, matched step by step on g's side of the edge; the half-edges
      from t.oppNext up to the successor of t.oppPrev are the ones handed
      over; and he0 of the merged face, he0f on entry, moves to t.adjNext if
      it was hedgeAdj. */
  ghost predicate Scanned(next: seq<int>, prev: seq<int>, opposite: seq<int>, face: seq<int>,
                          he0f: int, hedgeAdj: int, t: MergeTrace)
    requires Closed(next) && Closed(prev) && |prev| == |next| && |opposite| == |next| && |face| == |next|
    requires Bounded(opposite, NONE, |next|)
    requires 0 <= hedgeAdj < |next| && opposite[hedgeAdj] != NONE
  {
    var g, o := Across(opposite, face, hedgeAdj), opposite[hedgeAdj];
    t.adjPrev == Step(prev, prev[hedgeAdj], t.back) && t.oppNext == Step(next, next[o], t.back)
    && t.adjNext == Step(next, next[hedgeAdj], t.front) && t.oppPrev == Step(prev, prev[o], t.front)
    && (forall i | 0 <= i < t.back :: Across(opposite, face, Step(prev, prev[hedgeAdj], i)) == g)
    && (forall i | 0 <= i < t.front :: Across(opposite, face, Step(next, next[hedgeAdj], i)) == g)
    && Across(opposite, face, t.adjPrev) != g && Across(opposite, face, t.adjNext) != g
    && Step(next, t.oppNext, |t.reowned|) == next[t.oppPrev]
    && (forall i | 0 <= i < |t.reowned| ::
          t.reowned[i] == Step(next, t.oppNext, i) && t.reowned[i] != next[t.oppPrev])
    && t.movedHe0 == (if he0f == hedgeAdj then t.adjNext else he0f)
  }

  /** Three half-edges appended to closed links and linked to each other form a
      ring of three on which prev undoes next. */
  lemma TriangleRing(next: seq<int>, prev: seq<int>, nx: seq<int>, pv: seq<int>)
    requires Closed(next) && Closed(prev) && |prev| == |next|
    requires nx == next + [|next| + 1, |next| + 2, |next|]
    requires pv == prev + [|next| + 2, |next|, |next| + 1]
    ensures Closed(nx) && Closed(pv)
    ensures RingOf(nx, |next|, 3) && PrevInverse(nx, pv, |next|, 3)
  {
    var h := |next|;
    assert Step(nx, h, 1) == h + 1 && Step(nx, h, 2) == h + 2 && Step(nx, h, 3) == h;
  }

  /** The links after the half-edge across the redundant edge between
      hedgePrev and hedge is gone from the face g across both (primed fields
      after, plain ones before): hedge now follows the predecessor of
      hedgePrev, he0 of f has moved off hedgePrev, and hedge and its new
      opposite point at each other. A triangle g is deleted and becomes d; a
      larger g loses the half-edge before the successor ho of hedge's old
      opposite, and its he0 moves off that one. */
  ghost predicate Removed(next: seq<int>, prev: seq<int>, opposite: seq<int>, face: seq<int>,
                          he0: seq<int>, numVerts: seq<int>, mark: seq<int>,
                          f: int, hedgePrev: int, hedge: int,
                          next': seq<int>, prev': seq<int>, opposite': seq<int>, he0': seq<int>,
                          mark': seq<int>, d: int)
    requires |prev| == |next| && |opposite| == |next| && |face| == |next|
    requires |numVerts| == |he0| && |mark| == |he0|
    requires Closed(next) && Closed(prev)
    requires Bounded(opposite, NONE, |next|) && Bounded(face, 0, |he0|)
    requires 0 <= f < |he0| && 0 <= hedgePrev < |next| && 0 <= hedge < |next|
    requires opposite[hedge] != NONE
  {
    var g := face[opposite[hedge]];
    var H := he0[f := if he0[f] == hedgePrev then hedge else he0[f]];
    if numVerts[g] == 3 then
      var ho := opposite[prev[opposite[hedge]]];
      var P := prev[hedge := prev[hedgePrev]];
      d == g && mark' == mark[g := DELETED] && he0' == H
      && prev' == P && next' == next[P[hedge] := hedge]
      && 0 <= ho < |next| && opposite' == opposite[hedge := ho][ho := hedge]
    else
      var ho := next[opposite[hedge]];
      var q := prev[prev[ho]];
      var P := prev[ho := q];
      var N := next[q := ho];
      d == NONE && mark' == mark
      && he0' == (if H[g] == prev[ho] then H[g := ho] else H)
      && prev' == P[hedge := P[hedgePrev]] && next' == N[P[hedgePrev] := hedge]
      && opposite' == opposite[hedge := ho][ho := hedge]
  }

  /** The redundant-edge branch of connectHalfEdges on the values of the
      fields: the new next, prev, opposite, he0 and mark, as far as the
      rewiring gets before a null dereference. */
  method Rewire(next: seq<int>, prev: seq<int>, opposite: seq<int>, face: seq<int>,
                he0: seq<int>, numVerts: seq<int>, mark: seq<int>,
                f: int, hedgePrev: int, hedge: int)
    returns (r: Result<int>, nx: seq<int>, pv: seq<int>, op: seq<int>, h0: seq<int>, mk: seq<int>)
    requires |prev| == |next| && |opposite| == |next| && |face| == |next|
    requires |numVerts| == |he0| && |mark| == |he0|
    requires Closed(next) && Closed(prev)
    requires Bounded(opposite, NONE, |next|) && Bounded(face, 0, |he0|) && Bounded(he0, 0, |next|)
    requires 0 <= f < |he0| && 0 <= hedgePrev < |next| && 0 <= hedge < |next|
    requires Across(opposite, face, hedgePrev) == Across(opposite, face, hedge)
    ensures |nx| == |next| && |pv| == |next| && |op| == |next| && |h0| == |he0| && |mk| == |mark|
    ensures Closed(nx) && Closed(pv) && Bounded(op, NONE, |next|) && Bounded(h0, 0, |next|)
    ensures var g := Across(opposite, face, hedge);
      r.Err? <==> g == NONE || (numVerts[g] == 3 && opposite[prev[opposite[hedge]]] == NONE)
    ensures r.Err? ==> r.error == NullPointer
    ensures r.Ok? ==> Removed(next, prev, opposite, face, he0, numVerts, mark, f, hedgePrev, hedge,
                              nx, pv, op, h0, mk, r.value)
    ensures r.Ok? ==> (r.value == NONE && mk == mark)
                      || (r.value == Across(opposite, face, hedge) && mk == mark[r.value := DELETED])
  {
    var discardedFace := NONE;
    var oppFace := Across(opposite, face, hedge);
    var hedgeOpp;
    var n := |next|;
    nx, pv, op, h0, mk := next, prev, opposite, he0, mark;
    if hedgePrev == h0[f] {
      BoundedUpdate(h0, f, hedge, 0, n);
      h0 := h0[f := hedge];
    }
    if oppFace == NONE {
      return Err(NullPointer), nx, pv, op, h0, mk;
    }
    if numVerts[oppFace] == 3 {
      hedgeOpp := op[pv[op[hedge]]];
      mk := mk[oppFace := DELETED];
      discardedFace := oppFace;
    } else {
      hedgeOpp := nx[op[hedge]];
      if h0[oppFace] == pv[hedgeOpp] {
        BoundedUpdate(h0, oppFace, hedgeOpp, 0, n);
        h0 := h0[oppFace := hedgeOpp];
      }
      ClosedUpdate(pv, hedgeOpp, pv[pv[hedgeOpp]]);
      pv := pv[hedgeOpp := pv[pv[hedgeOpp]]];
      ClosedUpdate(nx, pv[hedgeOpp], hedgeOpp);
      nx := nx[pv[hedgeOpp] := hedgeOpp];
    }
    ClosedUpdate(pv, hedge, pv[hedgePrev]);
    pv := pv[hedge := pv[hedgePrev]];
    ClosedUpdate(nx, pv[hedge], hedge);
    nx := nx[pv[hedge] := hedge];
    BoundedUpdate(op, hedge, hedgeOpp, NONE, n);
    op := op[hedge := hedgeOpp];
    if hedgeOpp == NONE {
      return Err(NullPointer), nx, pv, op, h0, mk;
    }
    BoundedUpdate(op, hedgeOpp, hedge, NONE, n);
    op := op[hedgeOpp := hedge];
    r := Ok(discardedFace);
  }

  /** After the redundant edge is removed, hedge is linked back from its new
      predecessor, and hedge and its new opposite point at each other; a face
      is discarded exactly when the face across was a triangle. */
  lemma RemovedRelinks(next: seq<int>, prev: seq<int>, opposite: seq<int>, face: seq<int>,
                       he0: seq<int>, numVerts: seq<int>, mark: seq<int>,
                       f: int, hedgePrev: int, hedge: int,
                       next': seq<int>, prev': seq<int>, opposite': seq<int>, he0': seq<int>,
                       mark': seq<int>, d: int)
    requires |prev| == |next| && |opposite| == |next| && |face| == |next|
    requires |numVerts| == |he0| && |mark| == |he0|
    requires Closed(next) && Closed(prev)
    requires Bounded(opposite, NONE, |next|) && Bounded(face, 0, |he0|)
    requires 0 <= f < |he0| && 0 <= hedgePrev < |next| && 0 <= hedge < |next|
    requires opposite[hedge] != NONE
    requires Removed(next, prev, opposite, face, he0, numVerts, mark, f, hedgePrev, hedge,
                     next', prev', opposite', he0', mark', d)
    ensures |next'| == |prev'| == |opposite'| == |next| && 0 <= prev'[hedge] < |next|
    ensures next'[prev'[hedge]] == hedge
    ensures 0 <= opposite'[hedge] < |next| && opposite'[opposite'[hedge]] == hedge
    ensures d != NONE <==> numVerts[face[opposite[hedge]]] == 3
    ensures d != NONE ==> d == face[opposite[hedge]] && mark' == mark[d := DELETED]
    ensures d == NONE ==> mark' == mark
  {
  }

  /** The arena invariant on the fields of a mesh. */
  ghost predicate WellFormed(next: seq<int>, prev: seq<int>, opposite: seq<int>, face: seq<int>,
                             head: seq<int>, he0: seq<int>, numVerts: seq<int>, mark: seq<int>)
  {
    |prev| == |next| && |opposite| == |next| && |face| == |next| && |head| == |next|
    && |numVerts| == |he0| && |mark| == |he0|
    && Closed(next) && Closed(prev)
    && Bounded(opposite, NONE, |next|) && Bounded(face, 0, |he0|) && Bounded(he0, 0, |next|)
  }

  class Mesh {
    // per half-edge
    var next: seq<int>
    var prev: seq<int>
    var opposite: seq<int>
    var face: seq<int>
    var head: seq<int>
    // per face
    var he0: seq<int>
    var numVerts: seq<int>
    var mark: seq<int>

    /** Every handle stored in the arena names a half-edge or face of it; only
        opposite may be null. */
    ghost predicate Valid()
      reads this
    {
      WellFormed(next, prev, opposite, face, head, he0, numVerts, mark)
    }

    /** The tail of a half-edge is the head of the half-edge before it. */
    function Tail(e: int): (v: int)
      reads this
      requires Valid() && 0 <= e < |next|
    {
      head[prev[e]]
    }

    /** The face on the other side of e, NONE when e has no opposite. */
    function OppositeFace(e: int): (g: int)
      reads this
      requires Valid() && 0 <= e < |next|
      ensures NONE <= g < |he0|
    {
      Across(opposite, face, e)
    }

    /** The conditions checkConsistency tests on each half-edge of a face: its
        opposite exists and points back, the two run between the same vertices
        in opposite directions, and the face across is not deleted. */
    ghost predicate EdgeConsistent(e: int)
      reads this
      requires Valid() && 0 <= e < |next|
    {
      var o := opposite[e];
      o != NONE && opposite[o] == e && head[o] == Tail(e) && head[e] == Tail(o)
      && mark[face[o]] != DELETED
    }

    /** The face invariant checkConsistency establishes: at least three
        vertices, a ring of exactly numVerts half-edges through he0, and every
        half-edge of the ring consistent. */
    ghost predicate Consistent(f: int)
      reads this
      requires Valid() && 0 <= f < |he0|
    {
      numVerts[f] >= 3 && RingOf(next, he0[f], numVerts[f])
      && forall i | 0 <= i < numVerts[f] :: EdgeConsistent(Step(next, he0[f], i))
    }

    /** How checkConsistency ends at half-edge e of a face whose own vertex
        string can be built: normally when e is consistent, otherwise with the
        exception its test throws. A missing opposite of the opposite is
        dereferenced while the message is built, and the message on a deleted
        face across walks that face's ring, which may never close. */
    ghost function EdgeVerdict(e: int): (r: Result<()>)
      reads this
      requires Valid() && 0 <= e < |next|
      ensures r.Ok? <==> EdgeConsistent(e)
      ensures r.Err? ==> r.error in {Inconsistent, NullPointer, NoTermination}
    {
      var o := opposite[e];
      if o == NONE then Err(Inconsistent)
      else if opposite[o] != e then Err(if opposite[o] == NONE then NullPointer else Inconsistent)
      else if head[o] != Tail(e) || head[e] != Tail(o) then Err(Inconsistent)
      else if mark[face[o]] == DELETED then
        Err(if NeverReturns(next, he0[face[o]]) then NoTermination else Inconsistent)
      else Ok(())
    }

    /** The ring through he0 has numVerts half-edges and prev undoes next on it. */
    ghost predicate LinkedRing(f: int)
      reads this
      requires Valid() && 0 <= f < |he0|
    {
      numVerts[f] >= 1 && RingOf(next, he0[f], numVerts[f])
      && PrevInverse(next, prev, he0[f], numVerts[f])
    }

    /** An empty arena. */
    constructor ()
      ensures Valid()
      ensures next == [] && prev == [] && opposite == [] && face == [] && head == []
      ensures he0 == [] && numVerts == [] && mark == []
    {
      next, prev, opposite, face, head := [], [], [], [], [];
      he0, numVerts, mark := [], [], [];
    }

    /** createTriangle: a new visible face whose three new half-edges, heading
        to v0, v1 and v2, form a closed ring entered at the v0 edge. */
    method CreateTriangle(v0: int, v1: int, v2: int) returns (f: int)
      requires Valid()
      modifies this
      ensures Valid()
      ensures f == old(|he0|) && |he0| == f + 1
      ensures var h := old(|next|);
        next == old(next) + [h + 1, h + 2, h] && prev == old(prev) + [h + 2, h, h + 1]
        && head == old(head) + [v0, v1, v2] && face == old(face) + [f, f, f]
        && opposite == old(opposite) + [NONE, NONE, NONE]
      ensures he0 == old(he0) + [old(|next|)] && numVerts == old(numVerts) + [3]
      ensures mark == old(mark) + [VISIBLE]
      ensures LinkedRing(f)
    {
      f := |he0|;
      var h := |next|;
      // new Face() with he0 at the first new half-edge; numVerts starts at 0.
      // new HalfEdge(v, face) for v0, v1, v2, each linked to the one before
      // and the one after it in the ring h, h + 1, h + 2
      var nx, pv := next + [h + 1, h + 2, h], prev + [h + 2, h, h + 1];
      var op, fc := opposite + [NONE, NONE, NONE], face + [f, f, f];
      var hs := he0 + [h];
      TriangleRing(next, prev, nx, pv);
      assert Bounded(op, NONE, |nx|) && Bounded(fc, 0, |hs|) && Bounded(hs, 0, |nx|);
      next, prev, opposite, face, head := nx, pv, op, fc, head + [v0, v1, v2];
      he0, numVerts, mark := hs, numVerts + [0], mark + [VISIBLE];
      // computeNormalAndCentroid: of the plane only the vertex count is modelled
      var r := ComputeNormal(f);
      assert r.Ok?;
      RingUnique(next, h, 3, numVerts[f]);
      assert next == nx && prev == pv && he0[f] == h && numVerts[f] == 3;
    }

    /** The vertex count of computeNormal: numVerts starts at 2 for he0 and its
        successor and grows by one per further half-edge until the walk is back
        at he0. When the walk is back after two steps (a ring of one or two
        half-edges) no cross product is summed, the normal stays the zero
        vector, and normalising it divides by its zero norm. Otherwise numVerts
        is the ring length, at least 3. */
    method ComputeNormal(f: int) returns (r: Result<()>)
      requires Valid() && 0 <= f < |he0|
      modifies this
      ensures Valid()
      ensures next == old(next) && prev == old(prev) && opposite == old(opposite)
      ensures face == old(face) && head == old(head) && he0 == old(he0) && mark == old(mark)
      ensures numVerts == old(numVerts)[f := numVerts[f]]
      ensures r.Ok? ==> numVerts[f] >= 3 && RingOf(next, he0[f], numVerts[f])
      ensures r == Err(DivisionByZero) <==> next[next[he0[f]]] == he0[f]
      ensures r == Err(DivisionByZero) ==> numVerts[f] == 2
      ensures r == Err(NoTermination) <==> NeverReturns(next, he0[f])
      ensures r.Err? ==> r.error in {DivisionByZero, NoTermination}
    {
      var e0 := he0[f];
      var he1 := next[e0];
      var he2 := next[he1];
      assert he2 == Step(next, e0, 2);
      numVerts := numVerts[f := 2];
      while he2 != e0
        invariant Valid() && next == old(next) && prev == old(prev) && opposite == old(opposite)
        invariant face == old(face) && head == old(head) && he0 == old(he0) && mark == old(mark)
        invariant numVerts == old(numVerts)[f := numVerts[f]]
        invariant 2 <= numVerts[f] <= |next| + 1
        invariant he2 == Step(next, e0, numVerts[f])
        invariant forall i | 2 <= i < numVerts[f] :: Step(next, e0, i) != e0
        decreases |next| + 1 - numVerts[f]
      {
        if numVerts[f] >= |next| {
          // no return to he0 within |next| steps (one step back to he0 would
          // have meant two steps back too)
          assert Step(next, e0, 2) != e0;
          assert Step(next, e0, 1) != e0;
          NoReturnWithin(next, e0);
          return Err(NoTermination);
        }
        he2 := next[he2];
        StepLast(next, e0, numVerts[f]);
        numVerts := numVerts[f := numVerts[f] + 1];
      }
      if numVerts[f] == 2 {
        // area is the norm of the zero vector, and its reciprocal is taken
        return Err(DivisionByZero);
      }
      // one step back to he0 would have meant two steps back too
      assert Step(next, e0, 2) != e0;
      assert Step(next, e0, 1) != e0;
      ghost var n := FirstReturn(next, e0, numVerts[f]);
      r := Ok(());
    }

    /** updateNormalAndCentroid: recomputes the normal and numVerts, then counts
        the ring again and throws when the two counts differ. Once the normal
        is computed the ring has numVerts half-edges, so that exception is
        never thrown. The links are left as they are. */
    method UpdateNormalAndCentroid(f: int) returns (r: Result<()>)
      requires Valid() && 0 <= f < |he0|
      modifies this
      ensures Valid()
      ensures next == old(next) && prev == old(prev) && opposite == old(opposite)
      ensures face == old(face) && head == old(head) && he0 == old(he0) && mark == old(mark)
      ensures numVerts == old(numVerts)[f := numVerts[f]]
      ensures r.Ok? <==> next[next[he0[f]]] != he0[f] && !NeverReturns(next, he0[f])
      ensures r.Ok? ==> numVerts[f] >= 3 && RingOf(next, he0[f], numVerts[f])
      ensures r == Err(DivisionByZero) <==> next[next[he0[f]]] == he0[f]
      ensures r == Err(NoTermination) <==> NeverReturns(next, he0[f])
      ensures r.Err? ==> r.error in {DivisionByZero, NoTermination}
    {
      r := ComputeNormal(f);
      if r.Err? {
        return;
      }
      var e0 := he0[f];
      // computeCentroid and the plane offset are not modelled
      ghost var n := numVerts[f];
      var numv := 0;
      var he := e0;
      numv := numv + 1;
      he := next[he];
      label Counted:
      while he != e0
        invariant unchanged@Counted(this)
        invariant 1 <= numv <= n
        invariant he == Step(next, e0, numv)
        decreases n - numv
      {
        numv := numv + 1;
        StepLast(next, e0, numv - 1);
        he := next[he];
      }
      // the recount agrees, so the exception for differing counts is never thrown
      assert numv == numVerts[f];
    }

    /** getEdge: i steps along next from he0, or -i steps along prev when i is
        negative. On a linked ring this is the half-edge i modulo numVerts. */
    method GetEdge(f: int, i: int) returns (he: int)
      requires Valid() && 0 <= f < |he0|
      ensures 0 <= he < |next|
      ensures i >= 0 ==> he == Step(next, he0[f], i)
      ensures i < 0 ==> he == Step(prev, he0[f], -i)
      ensures LinkedRing(f) && i >= 0 ==> he == Step(next, he0[f], i % numVerts[f])
      ensures LinkedRing(f) && i < 0 ==> he == Step(next, he0[f], numVerts[f] - (-i) % numVerts[f])
      ensures i == 0 || (LinkedRing(f) && i == numVerts[f]) ==> he == he0[f]
    {
      var e0 := he0[f];
      he := e0;
      var k := i;
      while k > 0
        invariant k <= i && (i < 0 ==> k == i) && (i >= 0 ==> k >= 0)
        invariant he == Step(next, e0, if i > 0 then i - k else 0)
      {
        StepLast(next, e0, i - k);
        he := next[he];
        k := k - 1;
      }
      while k < 0
        invariant i >= 0 ==> k == 0
        invariant i < 0 ==> i <= k <= 0 && he == Step(prev, e0, k - i)
        invariant i >= 0 ==> he == Step(next, e0, i)
      {
        StepLast(prev, e0, k - i);
        he := prev[he];
        k := k + 1;
      }
      if LinkedRing(f) {
        var n := numVerts[f];
        if i >= 0 {
          StepModulo(next, e0, n, i);
        } else {
          BackwardIsForward(next, prev, e0, n, n);
          StepModulo(prev, e0, n, -i);
          BackwardIsForward(next, prev, e0, n, (-i) % n);
        }
      }
    }

    /** getVertexString: the head indices of the ring in next order from he0,
        one per half-edge until the walk is back at he0 (the text around them
        is not modelled). The string grows on every step, so when the walk
        from he0 never comes back it runs until memory is exhausted; that is
        the NoTermination outcome. */
    method VertexString(g: int) returns (r: Result<seq<int>>)
      requires Valid() && 0 <= g < |he0|
      ensures r.Err? <==> NeverReturns(next, he0[g])
      ensures r.Err? ==> r.error == NoTermination
      ensures r.Ok? ==> RingOf(next, he0[g], |r.value|)
      ensures r.Ok? ==> forall i | 0 <= i < |r.value| :: r.value[i] == head[Step(next, he0[g], i)]
    {
      var e0 := he0[g];
      var he := e0;
      var s := [head[he]];
      he := next[he];
      assert he == Step(next, e0, 1);
      while he != e0
        invariant 1 <= |s| <= |next|
        invariant he == Step(next, e0, |s|)
        invariant forall i | 1 <= i < |s| :: Step(next, e0, i) != e0
        invariant forall i | 0 <= i < |s| :: s[i] == head[Step(next, e0, i)]
        decreases |next| - |s|
      {
        if |s| == |next| {
          // no return to he0 within |next| steps
          NoReturnWithin(next, e0);
          return Err(NoTermination);
        }
        s := s + [head[he]];
        StepLast(next, e0, |s| - 1);
        he := next[he];
      }
      return Ok(s);
    }

    /** A consistency exception of face f with error e: its message starts
        with the vertex string of f, so it is only thrown when f's ring
        closes, and otherwise building the message runs until memory is
        exhausted. */
    method Throw(f: int, e: Error) returns (r: Result<()>)
      requires Valid() && 0 <= f < |he0|
      ensures r == if NeverReturns(next, he0[f]) then Err(NoTermination) else Err(e)
    {
      var s := VertexString(f);
      if s.Err? {
        return Err(NoTermination);
      }
      return Err(e);
    }

    /** The tests checkConsistency makes on one half-edge hedge of face f, with
        the exceptions their messages raise first. */
    method CheckEdge(f: int, hedge: int) returns (r: Result<()>)
      requires Valid() && 0 <= f < |he0| && 0 <= hedge < |next|
      ensures r.Ok? <==> EdgeConsistent(hedge)
      ensures r.Err? ==> r == if NeverReturns(next, he0[f]) then Err(NoTermination) else EdgeVerdict(hedge)
    {
      var hedgeOpp := opposite[hedge];
      if hedgeOpp == NONE {
        r := Throw(f, Inconsistent);
        return;
      }
      if opposite[hedgeOpp] != hedge {
        // the message dereferences the opposite of hedgeOpp
        r := Throw(f, if opposite[hedgeOpp] == NONE then NullPointer else Inconsistent);
        return;
      }
      if head[hedgeOpp] != Tail(hedge) || head[hedge] != Tail(hedgeOpp) {
        r := Throw(f, Inconsistent);
        return;
      }
      // every half-edge has a face, so the null test on it cannot fail
      var oppFace := face[hedgeOpp];
      if mark[oppFace] == DELETED {
        // the message names both faces by their vertex strings
        var s := VertexString(f);
        if s.Err? {
          return Err(NoTermination);
        }
        var so := VertexString(oppFace);
        if so.Err? {
          return Err(NoTermination);
        }
        return Err(Inconsistent);
      }
      return Ok(());
    }

    /** checkConsistency: fails when numVerts is below 3, at the first
        half-edge of the ring that is not consistent (EdgeVerdict), or when the
        ring length n differs from numVerts; returns normally exactly on a
        consistent face. Every message names the face by its vertex string, so
        on a ring that never closes no exception is ever thrown. k is the
        number of half-edges that passed. */
    method CheckConsistency(f: int) returns (r: Result<()>, ghost k: nat, ghost n: nat)
      requires Valid() && 0 <= f < |he0|
      ensures r.Ok? <==> Consistent(f)
      ensures r.Err? ==> r.error in {Inconsistent, NullPointer, NoTermination}
      ensures NeverReturns(next, he0[f]) ==> r == Err(NoTermination)
      ensures !NeverReturns(next, he0[f]) ==> RingOf(next, he0[f], n)
      ensures !NeverReturns(next, he0[f]) && numVerts[f] < 3 ==> r == Err(Inconsistent)
      ensures !NeverReturns(next, he0[f]) && numVerts[f] >= 3 ==>
        k <= n && (forall i | 0 <= i < k :: EdgeConsistent(Step(next, he0[f], i)))
        && if k < n then r == EdgeVerdict(Step(next, he0[f], k))
           else r == if n == numVerts[f] then Ok(()) else Err(Inconsistent)
    {
      var e0 := he0[f];
      k, n := 0, 0;
      ghost var closes := !NeverReturns(next, e0);
      if closes {
        var j: nat :| j >= 1 && Step(next, e0, j) == e0;
        n := FirstReturn(next, e0, j);
      }
      var hedge := e0;
      var numv := 0;
      if numVerts[f] < 3 {
        r := Throw(f, Inconsistent);
        return;
      }
      while numv == 0 || hedge != e0
        invariant 0 <= numv <= |next|
        invariant hedge == Step(next, e0, numv)
        invariant forall i | 1 <= i < numv :: Step(next, e0, i) != e0
        invariant forall i | 0 <= i < numv :: EdgeConsistent(Step(next, e0, i))
        invariant closes ==> numv <= n
        decreases |next| - numv
      {
        k := numv;
        r := CheckEdge(f, hedge);
        if r.Err? {
          return;
        }
        // the largest distance of a head to the plane is not modelled
        if numv == |next| {
          // |next| + 1 consistent half-edges without a return to he0
          NoReturnWithin(next, e0);
          return Err(NoTermination), k, n;
        }
        numv := numv + 1;
        StepLast(next, e0, numv - 1);
        hedge := next[hedge];
      }
      k := numv;
      if numv != numVerts[f] {
        r := Throw(f, Inconsistent);
        return;
      }
      return Ok(()), k, n;
    }

    /** getIndices: an array of numVerts vertex indices filled with the heads
        of the ring in next order from he0; positions the ring does not reach
        keep 0, and a ring longer than numVerts overruns the array. n is the
        ring length. */
    method GetIndices(f: int) returns (r: Result<seq<int>>, ghost n: nat)
      requires Valid() && 0 <= f < |he0|
      ensures r == Err(NegativeArraySize) <==> numVerts[f] < 0
      ensures r == Err(IndexOutOfBounds) <==>
        numVerts[f] >= 0 && forall i | 1 <= i <= numVerts[f] :: Step(next, he0[f], i) != he0[f]
      ensures r.Err? ==> r.error == NegativeArraySize || r.error == IndexOutOfBounds
      ensures r.Ok? ==> 1 <= n <= numVerts[f] && RingOf(next, he0[f], n) && |r.value| == numVerts[f]
      ensures r.Ok? ==> forall i | 0 <= i < n :: r.value[i] == head[Step(next, he0[f], i)]
      ensures r.Ok? ==> forall i | n <= i < |r.value| :: r.value[i] == 0
      ensures numVerts[f] >= 1 && RingOf(next, he0[f], numVerts[f]) ==> r.Ok? && n == numVerts[f]
    {
      if numVerts[f] < 0 {
        return Err(NegativeArraySize), 0;
      }
      var indices := new int[numVerts[f]](_ => 0);
      var e0 := he0[f];
      var hedge := e0;
      var k := 0;
      while k == 0 || hedge != e0
        invariant 0 <= k <= indices.Length
        invariant hedge == Step(next, e0, k)
        invariant forall i | 1 <= i < k :: Step(next, e0, i) != e0
        invariant forall i | 0 <= i < k :: indices[i] == head[Step(next, e0, i)]
        invariant forall i | k <= i < indices.Length :: indices[i] == 0
        decreases indices.Length - k
      {
        if k == indices.Length {
          return Err(IndexOutOfBounds), 0;
        }
        indices[k] := head[hedge];
        k := k + 1;
        StepLast(next, e0, k - 1);
        hedge := next[hedge];
      }
      return Ok(indices[..]), k;
    }

    /** Removed, read between the state before and the state after. */
    twostate predicate EdgeRemoved(f: int, hedgePrev: int, hedge: int, d: int)
      reads this
      requires old(Valid()) && 0 <= f < old(|he0|)
      requires 0 <= hedgePrev < old(|next|) && 0 <= hedge < old(|next|)
      requires old(opposite[hedge]) != NONE
    {
      Removed(old(next), old(prev), old(opposite), old(face), old(he0), old(numVerts), old(mark),
              f, hedgePrev, hedge, next, prev, opposite, he0, mark, d)
    }

    /** connectHalfEdges: joins hedgePrev to hedge on this face f. When the
        faces across the two differ they are simply linked. When it is the same
        face, the edge between them is redundant and is removed (EdgeRemoved),
        after which the face across is recounted. */
    method ConnectHalfEdges(f: int, hedgePrev: int, hedge: int) returns (r: Result<int>)
      requires Valid() && 0 <= f < |he0| && 0 <= hedgePrev < |next| && 0 <= hedge < |next|
      modifies this
      ensures Valid() && |next| == old(|next|) && |he0| == old(|he0|)
      ensures face == old(face) && head == old(head)
      ensures r.Ok? ==> (r.value == NONE && mark == old(mark))
                        || (0 <= r.value < |he0| && mark == old(mark)[r.value := DELETED])
      ensures r.Err? ==> r.error in {NullPointer, DivisionByZero, NoTermination}
      // different faces across: only the two links change
      ensures old(OppositeFace(hedgePrev)) != old(OppositeFace(hedge)) ==>
        r == Ok(NONE) && next == old(next)[hedgePrev := hedge] && prev == old(prev)[hedge := hedgePrev]
        && opposite == old(opposite) && he0 == old(he0) && numVerts == old(numVerts) && mark == old(mark)
      // the same face g across both
      ensures var g := old(OppositeFace(hedge));
        old(OppositeFace(hedgePrev)) == g ==>
          (r == Err(NullPointer) <==> g == NONE || old(numVerts[g] == 3 && opposite[prev[opposite[hedge]]] == NONE))
      ensures var g := old(OppositeFace(hedge));
        old(OppositeFace(hedgePrev)) == g != NONE && r.Ok? ==>
          EdgeRemoved(f, hedgePrev, hedge, r.value)
          && numVerts == old(numVerts)[g := numVerts[g]]
          && numVerts[g] >= 3 && RingOf(next, he0[g], numVerts[g])
    {
      var discardedFace := NONE;
      if OppositeFace(hedgePrev) == OppositeFace(hedge) {
        var oppFace := OppositeFace(hedge);
        var d := RemoveRedundantEdge(f, hedgePrev, hedge);
        if d.Err? {
          return d;
        }
        discardedFace := d.value;
        // oppFace was changed, so its count is recomputed
        var u := UpdateNormalAndCentroid(oppFace);
        if u.Err? {
          return Err(u.error);
        }
      } else {
        ClosedUpdate(next, hedgePrev, hedge);
        next := next[hedgePrev := hedge];
        ClosedUpdate(prev, hedge, hedgePrev);
        prev := prev[hedge := hedgePrev];
      }
      return Ok(discardedFace);
    }

    /** The redundant-edge branch of connectHalfEdges up to the recount:
        null dereferences where the face across or the new opposite is
        missing, otherwise EdgeRemoved with d the deleted triangle or NONE.
        The links are rewritten on their values and stored back, also when a
        null dereference cuts the rewiring short. */
    method RemoveRedundantEdge(f: int, hedgePrev: int, hedge: int) returns (r: Result<int>)
      requires Valid() && 0 <= f < |he0| && 0 <= hedgePrev < |next| && 0 <= hedge < |next|
      requires OppositeFace(hedgePrev) == OppositeFace(hedge)
      modifies this
      ensures Valid() && |next| == old(|next|) && |he0| == old(|he0|)
      ensures face == old(face) && head == old(head) && numVerts == old(numVerts)
      ensures var g := old(OppositeFace(hedge));
        r.Err? <==> g == NONE || old(numVerts[g] == 3 && opposite[prev[opposite[hedge]]] == NONE)
      ensures r.Err? ==> r.error == NullPointer
      ensures r.Ok? ==> EdgeRemoved(f, hedgePrev, hedge, r.value)
      ensures r.Ok? ==> (r.value == NONE && mark == old(mark))
                        || (r.value == old(OppositeFace(hedge)) && mark == old(mark)[r.value := DELETED])
    {
      var nx, pv, op, h0, mk;
      r, nx, pv, op, h0, mk := Rewire(next, prev, opposite, face, he0, numVerts, mark, f, hedgePrev, hedge);
      next, prev, opposite, he0, mark := nx, pv, op, h0, mk;
    }

    /** The two scans of mergeAdjacentFace: x walks along link a and y along
        link b in step, for as long as x borders g. k is the number of steps;
        the scan never ends exactly when every half-edge on x's walk borders g. */
    method SkipShared(a: seq<int>, b: seq<int>, x: int, y: int, g: int)
      returns (r: Result<()>, xEnd: int, yEnd: int, k: nat)
      requires Valid() && Closed(a) && Closed(b) && |a| == |next| && |b| == |next|
      requires 0 <= x < |next| && 0 <= y < |next|
      ensures r.Err? <==> forall j: nat :: OppositeFace(Step(a, x, j)) == g
      ensures r.Err? ==> r.error == NoTermination
      ensures r.Ok? ==> xEnd == Step(a, x, k) && yEnd == Step(b, y, k) && OppositeFace(xEnd) != g
      ensures r.Ok? ==> forall i | 0 <= i < k :: OppositeFace(Step(a, x, i)) == g
    {
      xEnd, yEnd, k := x, y, 0;
      while OppositeFace(xEnd) == g
        invariant 0 <= k <= |next|
        invariant xEnd == Step(a, x, k) && yEnd == Step(b, y, k)
        invariant forall i | 0 <= i < k :: OppositeFace(Step(a, x, i)) == g
        decreases |next| - k
      {
        if k == |next| {
          StaysIn(a, x, set e | 0 <= e < |next| && OppositeFace(e) == g);
          return Err(NoTermination), xEnd, yEnd, k;
        }
        StepLast(a, x, k);
        StepLast(b, y, k);
        xEnd, yEnd := a[xEnd], b[yEnd];
        k := k + 1;
      }
      return Ok(()), xEnd, yEnd, k;
    }

    /** The hand-over loop of mergeAdjacentFace: every half-edge from first up
        to, not including, stop now belongs to f. It never ends exactly when
        the walk from first misses stop. */
    method Reown(f: int, first: int, stop: int) returns (r: Result<()>, ghost reowned: seq<int>)
      requires Valid() && 0 <= f < |he0| && 0 <= first < |next| && 0 <= stop < |next|
      modifies this
      ensures Valid()
      ensures next == old(next) && prev == old(prev) && opposite == old(opposite) && head == old(head)
      ensures he0 == old(he0) && numVerts == old(numVerts) && mark == old(mark)
      ensures r.Err? <==> forall k: nat :: Step(next, first, k) != stop
      ensures r.Err? ==> r.error == NoTermination
      ensures r.Ok? ==> Step(next, first, |reowned|) == stop
      ensures r.Ok? ==> forall i | 0 <= i < |reowned| ::
                          reowned[i] == Step(next, first, i) && reowned[i] != stop
      ensures r.Ok? ==> HandedOver(old(face), face, reowned, f)
    {
      var hedge := first;
      var count := 0;
      var fc := face;
      reowned := [];
      label Walk:
      while hedge != stop
        invariant unchanged@Walk(this)
        invariant Bounded(fc, 0, |he0|) && |fc| == |next|
        invariant count == |reowned| <= |next|
        invariant hedge == Step(next, first, count)
        invariant forall i | 0 <= i < count :: reowned[i] == Step(next, first, i) && reowned[i] != stop
        invariant forall e | 0 <= e < |next| :: fc[e] == if e in reowned then f else face[e]
        decreases |next| - count
      {
        if count == |next| {
          // the walk from first never meets stop
          NeverMeets(next, first, stop);
          face := fc;
          return Err(NoTermination), reowned;
        }
        BoundedUpdate(fc, hedge, f, 0, |he0|);
        fc := fc[hedge := f];
        reowned := reowned + [hedge];
        StepLast(next, first, count);
        count := count + 1;
        hedge := next[hedge];
      }
      face := fc;
      return Ok(()), reowned;
    }

    /** The first part of mergeAdjacentFace, up to the two joins: marks the
        face g across hedgeAdj deleted, skips the further edges shared with g
        behind and ahead of hedgeAdj, hands the rest of g's ring over to f and
        moves he0 off hedgeAdj. Returns the four half-edges where the rings are
        to be joined; t records the scans. */
    method AbsorbAdjacent(f: int, hedgeAdj: int)
      returns (r: Result<()>, adjPrev: int, adjNext: int, oppPrev: int, oppNext: int, ghost t: MergeTrace)
      requires Valid() && 0 <= f < |he0| && 0 <= hedgeAdj < |next|
      requires OppositeFace(hedgeAdj) != NONE
      modifies this
      ensures Valid() && next == old(next) && prev == old(prev) && opposite == old(opposite)
      ensures head == old(head) && numVerts == old(numVerts)
      ensures mark == old(mark)[old(OppositeFace(hedgeAdj)) := DELETED]
      ensures r.Err? ==> r.error == NoTermination
      ensures r.Ok? ==> t.adjPrev == adjPrev && t.adjNext == adjNext && t.oppPrev == oppPrev && t.oppNext == oppNext
      ensures r.Ok? ==> Scanned(old(next), old(prev), old(opposite), old(face), old(he0[f]), hedgeAdj, t)
      ensures r.Ok? ==> HandedOver(old(face), face, t.reowned, f)
      ensures r.Ok? ==> he0 == old(he0)[f := t.movedHe0]
    {
      t := MergeTrace(0, 0, NONE, NONE, NONE, NONE, NONE, []);
      adjNext, oppPrev := NONE, NONE;
      var oppFace := OppositeFace(hedgeAdj);
      mark := mark[oppFace := DELETED];
      var hedgeOpp := opposite[hedgeAdj];
      var back, front;
      r, adjPrev, oppNext, back := SkipShared(prev, next, prev[hedgeAdj], next[hedgeOpp], oppFace);
      if r.Err? {
        return;
      }
      r, adjNext, oppPrev, front := SkipShared(next, prev, next[hedgeAdj], prev[hedgeOpp], oppFace);
      if r.Err? {
        return;
      }
      ghost var reowned;
      r, reowned := Reown(f, oppNext, next[oppPrev]);
      if r.Err? {
        return;
      }
      if hedgeAdj == he0[f] {
        BoundedUpdate(he0, f, adjNext, 0, |next|);
        he0 := he0[f := adjNext];
      }
      t := MergeTrace(back, front, adjPrev, adjNext, oppPrev, oppNext, he0[f], reowned);
    }

    /** mergeAdjacentFace: absorbs into f the face across hedgeAdj. That face
        is deleted and is the first of the returned discarded faces; each of the
        two joins may discard one more. Further edges shared with it are
        skipped, its remaining half-edges are handed over to f, he0 is moved off
        hedgeAdj, and a normal return means f passed checkConsistency. */
    method MergeAdjacentFace(f: int, hedgeAdj: int) returns (r: Result<seq<int>>, ghost t: MergeTrace)
      requires Valid() && 0 <= f < |he0| && 0 <= hedgeAdj < |next|
      modifies this
      ensures Valid() && |next| == old(|next|) && |he0| == old(|he0|) && head == old(head)
      ensures old(OppositeFace(hedgeAdj)) == NONE ==> r == Err(NullPointer)
      ensures r.Ok? ==> 1 <= |r.value| <= 3 && r.value[0] == old(OppositeFace(hedgeAdj))
      ensures r.Ok? ==> MarksAfter(old(mark), mark, r.value)
      ensures r.Ok? ==> Consistent(f)
      ensures r.Ok? ==> old(opposite[hedgeAdj]) != NONE
                        && Scanned(old(next), old(prev), old(opposite), old(face), old(he0[f]), hedgeAdj, t)
      ensures r.Ok? ==> HandedOver(old(face), face, t.reowned, f)
    {
      var oppFace := OppositeFace(hedgeAdj);
      var discarded := [oppFace];
      if oppFace == NONE {
        t := MergeTrace(0, 0, NONE, NONE, NONE, NONE, NONE, []);
        return Err(NullPointer), t;
      }
      var s, hedgeAdjPrev, hedgeAdjNext, hedgeOppPrev, hedgeOppNext;
      s, hedgeAdjPrev, hedgeAdjNext, hedgeOppPrev, hedgeOppNext, t := AbsorbAdjacent(f, hedgeAdj);
      if s.Err? {
        return Err(s.error), t;
      }
      assert MarksAfter(old(mark), mark, discarded);
      ghost var handedOver := face;
      // the half-edges at the head
      label Head:
      var d := ConnectHalfEdges(f, hedgeOppPrev, hedgeAdjNext);
      if d.Err? {
        return Err(d.error), t;
      }
      MarksAfterStep(old(mark), old@Head(mark), mark, discarded, d.value);
      if d.value != NONE {
        discarded := discarded + [d.value];
      }
      assert discarded[0] == oppFace && 1 <= |discarded| <= 2;
      // the half-edges at the tail
      label Tail:
      d := ConnectHalfEdges(f, hedgeAdjPrev, hedgeOppNext);
      if d.Err? {
        return Err(d.error), t;
      }
      MarksAfterStep(old(mark), old@Tail(mark), mark, discarded, d.value);
      if d.value != NONE {
        discarded := discarded + [d.value];
      }
      assert discarded[0] == oppFace && 1 <= |discarded| <= 3;
      var u := UpdateNormalAndCentroid(f);
      if u.Err? {
        return Err(u.error), t;
      }
      var c, _, _ := CheckConsistency(f);
      if c.Err? {
        return Err(c.error), t;
      }
      assert face == handedOver;
      return Ok(discarded), t;
    }
  }
}
