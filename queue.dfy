/// The work-queue updates of a mastery session: removing every occurrence
/// of an id (grading correct), re-inserting it a fixed number of places
/// back (grading incorrect), rotating it to the end ("Next"), and
/// `random.shuffle` in place.
module Queue {
  import opened Common

  /** `[x for x in q if x != pid]`. */
  function Without(q: seq<string>, pid: string): (r: seq<string>)
    ensures pid !in r
    ensures IsSubsequence(r, q)
  {
    if q == [] then []
    else
      var rest := Without(q[1..], pid);
      assert q == [q[0]] + q[1..];
      if q[0] == pid then
        SubsequenceOfTail(rest, q);
        rest
      else
        [q[0]] + rest
  }

  /** Removal keeps every other id as often as it was queued, and only `pid` is lost. */
  lemma {:induction false} WithoutCounts(q: seq<string>, pid: string)
    ensures forall x :: x != pid ==> multiset(Without(q, pid))[x] == multiset(q)[x]
    ensures |Without(q, pid)| == |q| - multiset(q)[pid]
  {
    if q != [] {
      WithoutCounts(q[1..], pid);
      assert q == [q[0]] + q[1..];
    }
  }

  /** Removing an id that is not there changes nothing. */
  lemma {:induction false} WithoutAbsent(q: seq<string>, pid: string)
    requires pid !in q
    ensures Without(q, pid) == q
  {
    if q != [] {
      WithoutAbsent(q[1..], pid);
    }
  }

  /** Removal distributes over concatenation. */
  lemma {:induction false} WithoutAppend(a: seq<string>, b: seq<string>, pid: string)
    ensures Without(a + b, pid) == Without(a, pid) + Without(b, pid)
  {
    if a != [] {
      assert (a + b)[1..] == a[1..] + b;
      WithoutAppend(a[1..], b, pid);
    } else {
      assert a + b == b;
    }
  }

  /** Removing the same id twice is removing it once. */
  lemma WithoutIdempotent(q: seq<string>, pid: string)
    ensures Without(Without(q, pid), pid) == Without(q, pid)
  {
    WithoutAbsent(Without(q, pid), pid);
  }

  /** `min(n, len(w))`: where `mark_incorrect` re-inserts the card. */
  function InsertAt(w: seq<string>, n: nat): (k: nat)
  {
    if n < |w| then n else |w|
  }

  /**
   * The queue after grading `pid` incorrect with "repeat after `n`": every
   * copy of `pid` is removed and one is inserted at `min(n, len)`.
   */
  function Requeued(q: seq<string>, pid: string, n: nat): (r: seq<string>)
  {
    var w := Without(q, pid);
    var k := InsertAt(w, n);
    w[..k] + [pid] + w[k..]
  }

  /**
   * After requeueing, `pid` occurs exactly once, at position
   * `min(n, len(q without pid))`, and removing it again gives back the
   * other ids in their old order.
   */
  lemma RequeuedSpec(q: seq<string>, pid: string, n: nat)
    ensures var w := Without(q, pid);
            var r := Requeued(q, pid, n);
            && |r| == |w| + 1
            && InsertAt(w, n) < |r| && r[InsertAt(w, n)] == pid
            && multiset(r)[pid] == 1
            && Without(r, pid) == w
  {
    RequeuedPlace(q, pid, n);
    RequeuedKeepsOthers(q, pid, n);
  }

  /** Where the requeued card lands, and that it is there once. */
  lemma RequeuedPlace(q: seq<string>, pid: string, n: nat)
    ensures var w := Without(q, pid);
            var r := Requeued(q, pid, n);
            && |r| == |w| + 1
            && InsertAt(w, n) < |r| && r[InsertAt(w, n)] == pid
            && multiset(r)[pid] == 1
  {
    var w := Without(q, pid);
    var k := InsertAt(w, n);
    InsertedOnce(w[..k], w[k..], pid);
  }

  /** Removing the requeued card again gives back the other ids in their old order. */
  lemma RequeuedKeepsOthers(q: seq<string>, pid: string, n: nat)
    ensures Without(Requeued(q, pid, n), pid) == Without(q, pid)
  {
    var w := Without(q, pid);
    var k := InsertAt(w, n);
    WithoutAppend(w[..k] + [pid], w[k..], pid);
    WithoutAppend(w[..k], [pid], pid);
    WithoutAbsent(w[..k], pid);
    WithoutAbsent(w[k..], pid);
    assert Without([pid], pid) == [];
    assert w[..k] + w[k..] == w;
  }

  /** Putting `pid` between two stretches without it gives one copy of `pid`. */
  lemma InsertedOnce(a: seq<string>, b: seq<string>, pid: string)
    requires pid !in a && pid !in b
    ensures multiset(a + [pid] + b)[pid] == 1
  {
    assert multiset(a + [pid] + b) == multiset(a) + multiset([pid]) + multiset(b);
  }

  /** Requeueing keeps the queue length exactly when the card was queued once. */
  lemma RequeueKeepsLength(q: seq<string>, pid: string, n: nat)
    ensures |Requeued(q, pid, n)| == |q| <==> multiset(q)[pid] == 1
  {
    RequeuedSpec(q, pid, n);
    WithoutCounts(q, pid);
  }

  /** "Next" in a session: every copy of `pid` moves to a single one at the end. */
  function RotatedToEnd(q: seq<string>, pid: string): (r: seq<string>)
  {
    Without(q, pid) + [pid]
  }

  /**
   * After rotating, `pid` occurs once, last, and the other ids keep their
   * order; the queue keeps its length exactly when the card was queued once.
   */
  lemma RotatedToEndSpec(q: seq<string>, pid: string)
    ensures var r := RotatedToEnd(q, pid);
            && r != [] && r[|r| - 1] == pid
            && multiset(r)[pid] == 1
            && Without(r, pid) == Without(q, pid)
            && (|r| == |q| <==> multiset(q)[pid] == 1)
  {
    var w := Without(q, pid);
    WithoutCounts(q, pid);
    WithoutAppend(w, [pid], pid);
    WithoutAbsent(w, pid);
    assert Without([pid], pid) == [];
  }

  /** Rotation is requeueing with a gap at least as long as the rest of the queue. */
  lemma RotateIsRequeueAtEnd(q: seq<string>, pid: string, n: nat)
    requires n >= |Without(q, pid)|
    ensures RotatedToEnd(q, pid) == Requeued(q, pid, n)
  {
    var w := Without(q, pid);
    assert w[..|w|] == w && w[|w|..] == [];
  }

  /**
   * `random.shuffle` in place: CPython's Fisher-Yates pass from the last
   * position down, swapping position `i` with `pick(i) % (i + 1)`, where
   * `pick` stands for the random draws.
   */
  method Shuffle(a: array<string>, pick: nat -> nat)
    modifies a
    ensures multiset(a[..]) == multiset(old(a[..]))
  {
    var i := a.Length;
    while i > 1
      invariant 0 <= i <= a.Length
      invariant multiset(a[..]) == multiset(old(a[..]))
    {
      i := i - 1;
      var j := pick(i) % (i + 1);
      a[i], a[j] := a[j], a[i];
    }
  }
}
