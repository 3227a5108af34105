/// Cyclic browsing over the shown ids (`browse_next`, `browse_prev`): the
/// selection moves one place forward or back, wrapping at the ends. The
/// selection is found with `list.index`, so it is the first occurrence.
module Browse {
  import opened Common

  /** `ids.index(x)`: the first position holding `x`. */
  function IndexOf(ids: seq<string>, x: string): (i: nat)
    requires x in ids
    ensures i < |ids| && ids[i] == x
    ensures forall j :: 0 <= j < i ==> ids[j] != x
  {
    if ids[0] == x then 0 else 1 + IndexOf(ids[1..], x)
  }

  /** The id after `x`, wrapping from the last to the first. */
  function NextId(ids: seq<string>, x: string): (r: string)
    requires x in ids
    ensures r in ids
  {
    ids[(IndexOf(ids, x) + 1) % |ids|]
  }

  /**
   * The id before `x`, wrapping from the first to the last. Python's `%`
   * takes the sign of the divisor, so `(i - 1) % n` is `n - 1` for `i == 0`,
   * as Dafny's `%` on a positive divisor.
   */
  function PrevId(ids: seq<string>, x: string): (r: string)
    requires x in ids
    ensures r in ids
  {
    ids[(IndexOf(ids, x) - 1) % |ids|]
  }

  /** In a list without repeats, an id is found at the position it is at. */
  lemma IndexOfDistinct(ids: seq<string>, k: nat)
    requires Distinct(ids) && k < |ids|
    ensures IndexOf(ids, ids[k]) == k
  {
  }

  /** Without repeats, Next moves the position forward by one, wrapping. */
  lemma NextMovesForward(ids: seq<string>, x: string)
    requires Distinct(ids) && x in ids
    ensures IndexOf(ids, NextId(ids, x)) == (IndexOf(ids, x) + 1) % |ids|
  {
    IndexOfDistinct(ids, (IndexOf(ids, x) + 1) % |ids|);
  }

  /** Without repeats, Prev moves the position back by one, wrapping. */
  lemma PrevMovesBack(ids: seq<string>, x: string)
    requires Distinct(ids) && x in ids
    ensures IndexOf(ids, PrevId(ids, x)) == (IndexOf(ids, x) - 1) % |ids|
  {
    IndexOfDistinct(ids, (IndexOf(ids, x) - 1) % |ids|);
  }

  /** A position already in range is its own remainder. */
  lemma ModInRange(a: int, n: int)
    requires 0 <= a < n
    ensures a % n == a
  {
  }

  /** One step past either end wraps to the other. */
  lemma ModWrap(a: int, n: int)
    requires 0 < n && (a == n || a == -1)
    ensures a % n == if a == n then 0 else n - 1
  {
    if a == -1 {
      assert -1 == n * (-1) + (n - 1);
    }
  }

  /** Without repeats, Prev undoes Next. */
  lemma PrevAfterNext(ids: seq<string>, x: string)
    requires Distinct(ids) && x in ids
    ensures PrevId(ids, NextId(ids, x)) == x
  {
    var i, n := IndexOf(ids, x), |ids|;
    NextMovesForward(ids, x);
    var j := (i + 1) % n;
    if i + 1 < n {
      ModInRange(i + 1, n);
      ModInRange(i, n);
    } else {
      ModWrap(i + 1, n);
      ModWrap(-1, n);
    }
  }

  /** Without repeats, Next undoes Prev. */
  lemma NextAfterPrev(ids: seq<string>, x: string)
    requires Distinct(ids) && x in ids
    ensures NextId(ids, PrevId(ids, x)) == x
  {
    var i, n := IndexOf(ids, x), |ids|;
    PrevMovesBack(ids, x);
    var j := (i - 1) % n;
    if i == 0 {
      ModWrap(-1, n);
      ModWrap(n, n);
    } else {
      ModInRange(i - 1, n);
      ModInRange(i, n);
    }
  }

  /**
   * With a repeated id, Prev need not undo Next: in `["a", "b", "a"]`, Next
   * from "b" lands on the second "a", and Prev from "a" starts at the first.
   */
  lemma PrevAfterNextNeedsDistinct()
    ensures PrevId(["a", "b", "a"], NextId(["a", "b", "a"], "b")) == "a" != "b"
  {
    var ids := ["a", "b", "a"];
    assert IndexOf(ids, "b") == 1;
    assert IndexOf(ids, "a") == 0;
  }
}
