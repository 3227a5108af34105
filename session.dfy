/// The mastery-session engine and the selection, kept in the per-browser
/// session state: a work queue of phrase ids, two disjoint outcome sets, a
/// repeat counter, the size the session started with and the summary of
/// the last finished session; beside them the favourites, the lifetime
/// tallies, the selected id and whether its answer is revealed.
module Session {
  import opened Common
  import opened Json
  import opened Stores
  import opened Queue
  import opened Browse

  /** `finished_summary`: the counts a finished session reports. */
  datatype Summary = Summary(total: nat, correct: nat, incorrect: nat, repeatEvents: nat)

  /**
   * The outcome sets after grading `pid` with `g`: `pid` is added to the
   * set `g` names and discarded from the other.
   */
  function Graded(correct: set<string>, incorrect: set<string>, pid: string, g: Grade): (r: (set<string>, set<string>))
  {
    match g
    case Correct => (correct + {pid}, incorrect - {pid})
    case Incorrect => (correct - {pid}, incorrect + {pid})
  }

  /**
   * After grading, `pid` is in exactly the set its grade names, no other
   * id moves, and disjoint sets stay disjoint.
   */
  lemma GradedSpec(correct: set<string>, incorrect: set<string>, pid: string, g: Grade)
    ensures var r := Graded(correct, incorrect, pid, g);
            && (pid in r.0 <==> g == Correct)
            && (pid in r.1 <==> g == Incorrect)
            && r.0 - {pid} == correct - {pid}
            && r.1 - {pid} == incorrect - {pid}
            && (correct !! incorrect ==> r.0 !! r.1)
  {
  }

  /** Grading the same card the same way twice is grading it once. */
  lemma {:induction false} GradeTwice(correct: set<string>, incorrect: set<string>, pid: string, g: Grade)
    ensures var r := Graded(correct, incorrect, pid, g);
            Graded(r.0, r.1, pid, g) == r
  {
    var r := Graded(correct, incorrect, pid, g);
    GradedSpec(correct, incorrect, pid, g);
    GradedSpec(r.0, r.1, pid, g);
  }

  /** `st.session_state`, restricted to the keys the engine reads and writes. */
  class SessionState {
    var favs: set<string>
    var stats: map<string, Tally>
    var selected: Option<string>
    var revealed: bool
    var autoHideOnNext: bool
    var inSession: bool
    var queue: seq<string>
    var sessionCorrect: set<string>
    var sessionIncorrect: set<string>
    var repeatEvents: nat
    var sessionTotal: nat
    var summary: Option<Summary>

    /**
     * The outcome sets are disjoint; outside a session the queue is empty;
     * during one no summary is shown.
     */
    ghost predicate Valid()
      reads this
    {
      && sessionCorrect !! sessionIncorrect
      && (!inSession ==> queue == [])
      && (inSession ==> summary == None)
    }

    /** `ss_init` on a new browser session, given the loaded favourites and tallies. */
    constructor (loadedFavs: set<string>, loadedStats: map<string, Tally>)
      ensures Valid()
      ensures favs == loadedFavs && stats == loadedStats
      ensures selected == None && !revealed && autoHideOnNext
      ensures !inSession && queue == [] && sessionCorrect == {} && sessionIncorrect == {}
      ensures repeatEvents == 0 && sessionTotal == 0 && summary == None
    {
      favs := loadedFavs;
      stats := loadedStats;
      selected := None;
      revealed := false;
      autoHideOnNext := true;
      inSession := false;
      queue := [];
      sessionCorrect := {};
      sessionIncorrect := {};
      repeatEvents := 0;
      sessionTotal := 0;
      summary := None;
    }

    /** `toggle_fav(pid)`, returning the decoded content `save_favs` writes. */
    method ToggleFav(pid: string) returns (written: Json)
      modifies this`favs
      ensures favs == Toggled(old(favs), pid)
      ensures LoadedFavs(written) == favs
    {
      favs := Toggled(favs, pid);
      written := SaveFavs(favs);
    }

    /** `bump_stat(pid, key)` with `key` the grade's name. */
    method BumpStat(pid: string, g: Grade)
      modifies this`stats
      ensures stats == Bumped(old(stats), pid, g)
    {
      stats := Bumped(stats, pid, g);
    }

    /**
     * The first lines of `mark_correct` and `mark_incorrect`: `pid` goes
     * into the set its grade names and out of the other, and its lifetime
     * tally is bumped.
     */
    method RecordGrade(pid: string, g: Grade)
      requires sessionCorrect !! sessionIncorrect
      modifies this`sessionCorrect, this`sessionIncorrect, this`stats
      ensures (sessionCorrect, sessionIncorrect) == Graded(old(sessionCorrect), old(sessionIncorrect), pid, g)
      ensures sessionCorrect !! sessionIncorrect
      ensures stats == Bumped(old(stats), pid, g)
    {
      GradedSpec(sessionCorrect, sessionIncorrect, pid, g);
      match g {
        case Correct =>
          sessionCorrect := sessionCorrect + {pid};
          sessionIncorrect := sessionIncorrect - {pid};
        case Incorrect =>
          sessionIncorrect := sessionIncorrect + {pid};
          sessionCorrect := sessionCorrect - {pid};
      }
      BumpStat(pid, g);
    }

    /** The "Reset session" button. */
    method ResetSession()
      modifies this`inSession, this`queue, this`sessionCorrect, this`sessionIncorrect
      modifies this`repeatEvents, this`sessionTotal, this`revealed, this`summary
      ensures Valid()
      ensures !inSession && queue == [] && sessionCorrect == {} && sessionIncorrect == {}
      ensures repeatEvents == 0 && sessionTotal == 0 && !revealed && summary == None
    {
      inSession := false;
      queue := [];
      sessionCorrect := {};
      sessionIncorrect := {};
      repeatEvents := 0;
      sessionTotal := 0;
      revealed := false;
      summary := None;
    }

    /** `end_session(store_summary)`. */
    method EndSession(storeSummary: bool)
      requires Valid()
      modifies this`summary, this`inSession, this`queue, this`revealed
      ensures Valid()
      ensures summary == if storeSummary
                         then Some(Summary(sessionTotal, |sessionCorrect|, |sessionIncorrect|, repeatEvents))
                         else old(summary)
      ensures !inSession && queue == [] && !revealed
    {
      if storeSummary {
        summary := Some(Summary(sessionTotal, |sessionCorrect|, |sessionIncorrect|, repeatEvents));
      }
      inSession := false;
      queue := [];
      revealed := false;
    }

    /**
     * `start_mastery_session(ids)`: the queue is a shuffled copy of `ids`
     * (`pick` stands for the random draws), the counts start afresh and the
     * first queued card is selected. An empty `ids` still starts a session,
     * with an empty queue and the selection left as it was.
     */
    method StartMasterySession(ids: seq<string>, pick: nat -> nat)
      requires Valid()
      modifies this`queue, this`sessionCorrect, this`sessionIncorrect, this`repeatEvents
      modifies this`sessionTotal, this`summary, this`inSession, this`revealed, this`selected
      ensures Valid()
      ensures multiset(queue) == multiset(ids)
      ensures sessionCorrect == {} && sessionIncorrect == {} && repeatEvents == 0
      ensures sessionTotal == |ids| && summary == None && inSession && !revealed
      ensures queue != [] ==> selected == Some(queue[0])
      ensures queue == [] ==> selected == old(selected)
    {
      var a := new string[|ids|](i requires 0 <= i < |ids| => ids[i]);
      assert a[..] == ids;
      Shuffle(a, pick);
      queue := a[..];
      sessionCorrect := {};
      sessionIncorrect := {};
      repeatEvents := 0;
      sessionTotal := |queue|;
      summary := None;
      inSession := true;
      revealed := false;
      if queue != [] {
        selected := Some(queue[0]);
      }
    }

    /**
     * `reshuffle_session()`: during a session with cards left, the queue is
     * shuffled and its new first card selected; otherwise nothing changes.
     */
    method ReshuffleSession(pick: nat -> nat)
      requires Valid()
      modifies this`queue, this`selected, this`revealed
      ensures Valid()
      ensures !(inSession && old(queue) != []) ==>
                queue == old(queue) && selected == old(selected) && revealed == old(revealed)
      ensures inSession && old(queue) != [] ==>
                && multiset(queue) == multiset(old(queue))
                && queue != [] && selected == Some(queue[0]) && !revealed
    {
      if inSession && queue != [] {
        var q := queue;
        var a := new string[|q|](i requires 0 <= i < |q| => q[i]);
        assert a[..] == q;
        Shuffle(a, pick);
        queue := a[..];
        assert |queue| == |multiset(queue)| == |multiset(q)| == |q|;
        selected := Some(queue[0]);
        revealed := false;
      }
    }

    /** `browse_next()` over the shown ids. */
    method BrowseNext(ids: seq<string>)
      requires selected.Some? && selected.value in ids
      modifies this`selected, this`revealed
      ensures selected == Some(NextId(ids, old(selected).value))
      ensures revealed == (old(revealed) && !autoHideOnNext)
    {
      var i := IndexOf(ids, selected.value);
      selected := Some(ids[(i + 1) % |ids|]);
      if autoHideOnNext {
        revealed := false;
      }
    }

    /** `browse_prev()` over the shown ids. */
    method BrowsePrev(ids: seq<string>)
      requires selected.Some? && selected.value in ids
      modifies this`selected, this`revealed
      ensures selected == Some(PrevId(ids, old(selected).value))
      ensures revealed == (old(revealed) && !autoHideOnNext)
    {
      var i := IndexOf(ids, selected.value);
      selected := Some(ids[(i - 1) % |ids|]);
      if autoHideOnNext {
        revealed := false;
      }
    }

    /**
     * `mark_correct(pid)`. During a session every copy of `pid` leaves the
     * queue; when none is left the session ends and its summary is stored.
     * Outside a session the selection moves on as with Next.
     */
    method MarkCorrect(pid: string, ids: seq<string>)
      requires Valid()
      requires !inSession ==> selected.Some? && selected.value in ids
      modifies this`sessionCorrect, this`sessionIncorrect, this`stats, this`queue
      modifies this`revealed, this`selected, this`summary, this`inSession
      ensures Valid()
      ensures (sessionCorrect, sessionIncorrect) == Graded(old(sessionCorrect), old(sessionIncorrect), pid, Correct)
      ensures stats == Bumped(old(stats), pid, Correct)
      ensures old(inSession) && Without(old(queue), pid) != [] ==>
                && inSession && queue == Without(old(queue), pid)
                && selected == Some(queue[0]) && !revealed && summary == old(summary)
      ensures old(inSession) && Without(old(queue), pid) == [] ==>
                && !inSession && queue == [] && selected == old(selected) && !revealed
                && summary == Some(Summary(sessionTotal, |sessionCorrect|, |sessionIncorrect|, repeatEvents))
      ensures !old(inSession) ==>
                && !inSession && queue == old(queue) && summary == old(summary)
                && selected == Some(NextId(ids, old(selected).value))
                && revealed == (old(revealed) && !autoHideOnNext)
    {
      RecordGrade(pid, Correct);
      if inSession {
        queue := Without(queue, pid);
        revealed := false;
        if queue != [] {
          selected := Some(queue[0]);
        } else {
          EndSession(true);
        }
      } else {
        BrowseNext(ids);
      }
    }

    /**
     * `mark_incorrect(pid, repeat_after)`. During a session the repeat
     * counter goes up and `pid` is requeued `repeatAfter` places back.
     * Outside a session the selection moves on as with Next.
     */
    method MarkIncorrect(pid: string, repeatAfter: nat, ids: seq<string>)
      requires Valid()
      requires !inSession ==> selected.Some? && selected.value in ids
      modifies this`sessionCorrect, this`sessionIncorrect, this`stats, this`repeatEvents
      modifies this`queue, this`revealed, this`selected
      ensures Valid()
      ensures (sessionCorrect, sessionIncorrect) == Graded(old(sessionCorrect), old(sessionIncorrect), pid, Incorrect)
      ensures stats == Bumped(old(stats), pid, Incorrect)
      ensures inSession ==>
                && repeatEvents == old(repeatEvents) + 1
                && queue == Requeued(old(queue), pid, repeatAfter)
                && queue != [] && selected == Some(queue[0]) && !revealed
      ensures !inSession ==>
                && repeatEvents == old(repeatEvents) && queue == old(queue)
                && selected == Some(NextId(ids, old(selected).value))
                && revealed == (old(revealed) && !autoHideOnNext)
    {
      RecordGrade(pid, Incorrect);
      if inSession {
        RequeueCard(pid, repeatAfter);
      } else {
        BrowseNext(ids);
      }
    }

    /**
     * The in-session part of `mark_incorrect`: one more repeat, `pid`
     * requeued `repeatAfter` places back, the answer hidden and the new
     * head selected.
     */
    method RequeueCard(pid: string, repeatAfter: nat)
      modifies this`repeatEvents, this`queue, this`revealed, this`selected
      ensures repeatEvents == old(repeatEvents) + 1
      ensures queue == Requeued(old(queue), pid, repeatAfter)
      ensures queue != [] && selected == Some(queue[0]) && !revealed
    {
      repeatEvents := repeatEvents + 1;
      RequeuedPlace(queue, pid, repeatAfter);
      queue := Requeued(queue, pid, repeatAfter);
      revealed := false;
      if queue != [] {
        selected := Some(queue[0]);
      }
    }

    /**
     * The "Next" button: during a session with cards left the selected
     * card is rotated to the end of the queue (the selection itself is
     * left for the next selection check); otherwise `browse_next()`.
     */
    method NextPressed(ids: seq<string>)
      requires Valid() && selected.Some?
      requires !(inSession && queue != []) ==> selected.value in ids
      modifies this`queue, this`selected, this`revealed
      ensures Valid()
      ensures revealed == (old(revealed) && !autoHideOnNext)
      ensures inSession && old(queue) != [] ==>
                selected == old(selected) && queue == RotatedToEnd(old(queue), old(selected).value)
      ensures !(inSession && old(queue) != []) ==>
                queue == old(queue) && selected == Some(NextId(ids, old(selected).value))
    {
      if inSession && queue != [] {
        queue := Without(queue, selected.value) + [selected.value];
        if autoHideOnNext {
          revealed := false;
        }
      } else {
        BrowseNext(ids);
      }
    }

    /** The "Prev" button: during a session it shows or hides the answer; otherwise `browse_prev()`. */
    method PrevPressed(ids: seq<string>)
      requires !inSession ==> selected.Some? && selected.value in ids
      modifies this`selected, this`revealed
      ensures inSession ==> selected == old(selected) && revealed == !old(revealed)
      ensures !inSession ==>
                selected == Some(PrevId(ids, old(selected).value))
                && revealed == (old(revealed) && !autoHideOnNext)
    {
      if inSession {
        revealed := !revealed;
      } else {
        BrowsePrev(ids);
      }
    }

    /**
     * `ensure_selected_valid()` over the shown ids, which the app never
     * lets be empty: the first queued card when it is shown, else the
     * current selection when it is shown, else the first shown id.
     */
    method EnsureSelectedValid(ids: seq<string>)
      requires ids != []
      modifies this`selected
      ensures selected.Some? && selected.value in ids
      ensures inSession && queue != [] && queue[0] in ids ==> selected == Some(queue[0])
      ensures !(inSession && queue != [] && queue[0] in ids) ==>
                selected == if old(selected).Some? && old(selected).value in ids
                            then old(selected) else Some(ids[0])
    {
      if inSession && queue != [] {
        var pid := queue[0];
        if pid in ids {
          selected := Some(pid);
          return;
        }
      }
      if selected.Some? && selected.value in ids {
        return;
      }
      selected := Some(ids[0]);
    }
  }

  /** In a queue without repeats, removing the first card leaves the rest. */
  lemma WithoutHead(q: seq<string>)
    requires q != [] && Distinct(q)
    ensures Without(q, q[0]) == q[1..]
  {
    assert q[0] !in q[1..];
    WithoutAbsent(q[1..], q[0]);
    assert Without(q, q[0]) == Without(q[1..], q[0]);
  }

  /** A rearrangement of a list without repeats has no repeats either. */
  lemma {:induction false} DistinctPermutation(a: seq<string>, b: seq<string>)
    requires Distinct(a) && multiset(a) == multiset(b)
    ensures Distinct(b)
  {
    forall i, j | 0 <= i < j < |b| ensures b[i] != b[j] {
      if b[i] == b[j] {
        var x := b[i];
        assert b == b[..i] + [x] + b[i + 1..j] + [x] + b[j + 1..];
        assert multiset(b)[x] >= 2;
        AtMostOnce(a, x);
        assert false;
      }
    }
  }

  /** In a list without repeats every element occurs at most once. */
  lemma {:induction false} AtMostOnce(a: seq<string>, x: string)
    requires Distinct(a)
    ensures multiset(a)[x] <= 1
  {
    if a != [] {
      assert a == [a[0]] + a[1..];
      AtMostOnce(a[1..], x);
      if a[0] == x {
        assert x !in a[1..];
      }
    }
  }

  /**
   * A whole session in which every card is graded correct on first sight:
   * started on ids without repeats, it ends by itself after one grade per
   * card, with a summary of all correct, none incorrect and no repeats.
   */
  method StudyAllCorrect(s: SessionState, ids: seq<string>, pick: nat -> nat) returns (graded: nat)
    requires s.Valid() && ids != [] && Distinct(ids)
    modifies s
    ensures s.Valid() && !s.inSession && s.queue == []
    ensures graded == |ids|
    ensures s.summary == Some(Summary(|ids|, |ids|, 0, 0))
  {
    s.StartMasterySession(ids, pick);
    DistinctPermutation(ids, s.queue);
    assert |s.queue| == |multiset(s.queue)| == |multiset(ids)| == |ids|;
    graded := 0;
    while s.inSession
      invariant s.Valid()
      invariant s.sessionTotal == |ids| && s.repeatEvents == 0 && s.sessionIncorrect == {}
      invariant |s.sessionCorrect| == graded
      invariant s.inSession ==>
                  && s.queue != [] && Distinct(s.queue)
                  && graded + |s.queue| == |ids|
                  && forall x :: x in s.queue ==> x !in s.sessionCorrect
      invariant !s.inSession ==> graded == |ids| && s.summary == Some(Summary(|ids|, |ids|, 0, 0))
      decreases |s.queue| + (if s.inSession then 1 else 0)
    {
      var q := s.queue;
      WithoutHead(q);
      s.MarkCorrect(q[0], ids);
      graded := graded + 1;
    }
  }
}
