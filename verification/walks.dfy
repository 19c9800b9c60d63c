/** Walks along one link field (next or prev) of a half-edge arena.
    A link field is a sequence that maps every half-edge handle to another
    handle; walking k steps from e follows it k times. */
module Walks {

  /** Every link of the field points back into the arena. */
  predicate Closed(link: seq<int>)
  {
    forall e | 0 <= e < |link| :: 0 <= link[e] < |link|
  }

  /** Redirecting one link into the arena keeps the field closed. */
  lemma ClosedUpdate(link: seq<int>, i: int, v: int)
    requires Closed(link) && 0 <= i < |link| && 0 <= v < |link|
    ensures Closed(link[i := v])
  {
  }

  /** The half-edge reached from e after k steps along link. */
  function Step(link: seq<int>, e: int, k: nat): (r: int)
    requires Closed(link) && 0 <= e < |link|
    ensures 0 <= r < |link|
    decreases k
  {
    if k == 0 then e else Step(link, link[e], k - 1)
  }

  /** The walk from e comes back to e after exactly n steps and not before:
      e lies on a ring of n half-edges. */
  ghost predicate RingOf(link: seq<int>, e: int, n: nat)
    requires Closed(link) && 0 <= e < |link|
  {
    n >= 1 && Step(link, e, n) == e && forall i | 1 <= i < n :: Step(link, e, i) != e
  }

  /** The walk from e never comes back to e: a loop waiting for it runs forever. */
  ghost predicate NeverReturns(link: seq<int>, e: int)
    requires Closed(link) && 0 <= e < |link|
  {
    forall k: nat | k >= 1 :: Step(link, e, k) != e
  }

  /** Along the ring of n half-edges through e, prev undoes next. */
  ghost predicate PrevInverse(next: seq<int>, prev: seq<int>, e: int, n: nat)
    requires Closed(next) && |prev| == |next| && 0 <= e < |next|
  {
    forall i | 0 <= i < n :: prev[next[Step(next, e, i)]] == Step(next, e, i)
  }

  lemma {:induction false} StepAdd(link: seq<int>, e: int, a: nat, b: nat)
    requires Closed(link) && 0 <= e < |link|
    ensures Step(link, e, a + b) == Step(link, Step(link, e, a), b)
    decreases a
  {
    if a > 0 {
      StepAdd(link, link[e], a - 1, b);
    }
  }

  /** One more step is one more application of the link. */
  lemma StepLast(link: seq<int>, e: int, k: nat)
    requires Closed(link) && 0 <= e < |link|
    ensures Step(link, e, k + 1) == link[Step(link, e, k)]
  {
    StepAdd(link, e, k, 1);
  }

  /** The length of the ring through e is unique. */
  lemma RingUnique(link: seq<int>, e: int, n: nat, m: nat)
    requires Closed(link) && 0 <= e < |link|
    requires RingOf(link, e, n) && RingOf(link, e, m)
    ensures n == m
  {
  }

  /** A walk that comes back to e at all first comes back after some n <= k
      steps, which is then the length of the ring through e. */
  lemma {:induction false} FirstReturn(link: seq<int>, e: int, k: nat) returns (n: nat)
    requires Closed(link) && 0 <= e < |link|
    requires k >= 1 && Step(link, e, k) == e
    ensures 1 <= n <= k && RingOf(link, e, n)
    decreases k
  {
    if i :| 1 <= i < k && Step(link, e, i) == e {
      n := FirstReturn(link, e, i);
    } else {
      n := k;
    }
  }

  /** Once the walk is back at e after n steps it repeats itself: q further
      rounds of the ring change nothing. */
  lemma {:induction false} Periodic(link: seq<int>, e: int, n: nat, q: nat, r: nat)
    requires Closed(link) && 0 <= e < |link|
    requires n >= 1 && Step(link, e, n) == e
    ensures Step(link, e, q * n + r) == Step(link, e, r)
    decreases q
  {
    if q > 0 {
      assert q * n + r == n + ((q - 1) * n + r);
      StepAdd(link, e, n, (q - 1) * n + r);
      Periodic(link, e, n, q - 1, r);
    }
  }

  /** So the walk from e depends on the number of steps modulo n only. */
  lemma StepModulo(link: seq<int>, e: int, n: nat, k: nat)
    requires Closed(link) && 0 <= e < |link|
    requires n >= 1 && Step(link, e, n) == e
    ensures Step(link, e, k) == Step(link, e, k % n)
  {
    Periodic(link, e, n, k / n, k % n);
  }

  /** The n half-edges of a ring are pairwise distinct. */
  lemma RingDistinct(link: seq<int>, e: int, n: nat, i: nat, j: nat)
    requires Closed(link) && 0 <= e < |link|
    requires RingOf(link, e, n) && i < j < n
    ensures Step(link, e, i) != Step(link, e, j)
  {
    // equal half-edges after i and j steps would bring the walk back to e
    // after i + (n - j) < n steps
    StepAdd(link, e, i, n - j);
    StepAdd(link, e, j, n - j);
  }

  /** A ring never has more half-edges than the arena. */
  lemma RingFits(link: seq<int>, e: int, n: nat)
    requires Closed(link) && 0 <= e < |link|
    requires RingOf(link, e, n)
    ensures n <= |link|
  {
    if n > |link| {
      var w := seq(n, i requires 0 <= i < n => Step(link, e, i));
      var i, j := Pigeonhole(w, |link|);
      RingDistinct(link, e, n, i, j);
    }
  }

  /** Among more than n values in [0, n) two coincide. */
  lemma {:induction false} Pigeonhole(s: seq<int>, n: nat) returns (i: nat, j: nat)
    requires |s| > n
    requires forall k | 0 <= k < |s| :: 0 <= s[k] < n
    ensures i < j < |s| && s[i] == s[j]
    decreases n
  {
    var last := |s| - 1;
    var v := s[last];
    if k :| 0 <= k < last && s[k] == v {
      i, j := k, last;
    } else {
      // drop the last value and close the gap it leaves in [0, n)
      var t := seq(last, k requires 0 <= k < last => if s[k] < v then s[k] else s[k] - 1);
      assert forall k | 0 <= k < last :: 0 <= t[k] < n - 1;
      i, j := Pigeonhole(t, n - 1);
    }
  }

  /** A walk that is not back at e within |link| steps never comes back: a
      ring through e would be at most |link| long. */
  lemma NoReturnWithin(link: seq<int>, e: int)
    requires Closed(link) && 0 <= e < |link|
    requires forall i | 1 <= i <= |link| :: Step(link, e, i) != e
    ensures NeverReturns(link, e)
  {
    forall k: nat | k >= 1
      ensures Step(link, e, k) != e
    {
      if Step(link, e, k) == e {
        var n := FirstReturn(link, e, k);
        RingFits(link, e, n);
      }
    }
  }

  /** If the walk repeats a half-edge after j steps that it saw after i steps,
      every half-edge it ever reaches is one of the first j. */
  lemma {:induction false} FoldBelow(link: seq<int>, x: int, i: nat, j: nat, k: nat) returns (m: nat)
    requires Closed(link) && 0 <= x < |link|
    requires i < j && Step(link, x, i) == Step(link, x, j)
    ensures m < j && Step(link, x, k) == Step(link, x, m)
    decreases k
  {
    if k < j {
      m := k;
    } else {
      StepAdd(link, x, j, k - j);
      StepAdd(link, x, i, k - j);
      m := FoldBelow(link, x, i, j, i + (k - j));
    }
  }

  /** A walk whose first |link| + 1 half-edges all lie in S stays in S forever:
      a loop that follows link while the current half-edge lies in S and has
      not left S after |link| + 1 tests never ends. */
  lemma StaysIn(link: seq<int>, x: int, S: set<int>)
    requires Closed(link) && 0 <= x < |link|
    requires forall i | 0 <= i <= |link| :: Step(link, x, i) in S
    ensures forall k: nat :: Step(link, x, k) in S
  {
    var w := seq(|link| + 1, i requires 0 <= i <= |link| => Step(link, x, i));
    var i, j := Pigeonhole(w, |link|);
    forall k: nat
      ensures Step(link, x, k) in S
    {
      var m := FoldBelow(link, x, i, j, k);
    }
  }

  /** A walk that misses y in its first |link| + 1 half-edges never meets y:
      a loop that follows link until it reaches y and has not after |link| + 1
      tests never ends. */
  lemma NeverMeets(link: seq<int>, x: int, y: int)
    requires Closed(link) && 0 <= x < |link|
    requires forall i | 0 <= i <= |link| :: Step(link, x, i) != y
    ensures forall k: nat :: Step(link, x, k) != y
  {
    var w := seq(|link| + 1, i requires 0 <= i <= |link| => Step(link, x, i));
    var i, j := Pigeonhole(w, |link|);
    forall k: nat
      ensures Step(link, x, k) != y
    {
      var m := FoldBelow(link, x, i, j, k);
    }
  }

  /** Walking k <= n steps backwards on a ring of n half-edges whose prev links
      undo its next links ends where n - k steps forwards end. */
  lemma {:induction false} BackwardIsForward(next: seq<int>, prev: seq<int>, e: int, n: nat, k: nat)
    requires Closed(next) && Closed(prev) && |prev| == |next| && 0 <= e < |next|
    requires RingOf(next, e, n) && PrevInverse(next, prev, e, n)
    requires k <= n
    ensures Step(prev, e, k) == Step(next, e, n - k)
    decreases k
  {
    if k > 0 {
      BackwardIsForward(next, prev, e, n, k - 1);
      StepLast(prev, e, k - 1);
      StepLast(next, e, n - k);
    }
  }
}
