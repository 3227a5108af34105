/// The two persistent stores: lifetime per-phrase tallies (`bump_stat`) and
/// the favourite set (`toggle_fav`, `save_favs`, and the shape rule of
/// `load_favs` on an already decoded file).
module Stores {
  import opened Text
  import opened Json

  /** The record kept per phrase id under `by_id`. */
  datatype Tally = Tally(correct: nat, incorrect: nat)

  /** The two keys `bump_stat` is called with. */
  datatype Grade = Correct | Incorrect

  /** The counter of `t` that grade `g` names. */
  function Count(t: Tally, g: Grade): nat
  {
    match g
    case Correct => t.correct
    case Incorrect => t.incorrect
  }

  /** The record of `pid`, or the fresh `{"correct": 0, "incorrect": 0}` when there is none. */
  function TallyOf(byId: map<string, Tally>, pid: string): (t: Tally)
  {
    if pid in byId then byId[pid] else Tally(0, 0)
  }

  /** `bump_stat(pid, key)` on the `by_id` map. */
  function Bumped(byId: map<string, Tally>, pid: string, g: Grade): (r: map<string, Tally>)
  {
    var t := TallyOf(byId, pid);
    byId[pid := match g
                case Correct => t.(correct := t.correct + 1)
                case Incorrect => t.(incorrect := t.incorrect + 1)]
  }

  /**
   * Bumping adds `pid` to the keys if it was missing, raises the named
   * counter of `pid` by one, and changes nothing else: not the other
   * counter, not any other phrase's record.
   */
  lemma BumpedSpec(byId: map<string, Tally>, pid: string, g: Grade)
    ensures var r := Bumped(byId, pid, g);
            && r.Keys == byId.Keys + {pid}
            && Count(r[pid], g) == Count(TallyOf(byId, pid), g) + 1
            && (forall h :: h != g ==> Count(r[pid], h) == Count(TallyOf(byId, pid), h))
            && (forall k :: k in byId && k != pid ==> r[k] == byId[k])
  {
    var r := Bumped(byId, pid, g);
    forall h | h != g ensures Count(r[pid], h) == Count(TallyOf(byId, pid), h) {
      assert g.Correct? <==> h.Incorrect?;
    }
  }

  /** Bumping two different phrases, or one phrase twice, in either order gives the same map. */
  lemma BumpsCommute(byId: map<string, Tally>, a: string, g: Grade, b: string, h: Grade)
    ensures Bumped(Bumped(byId, a, g), b, h) == Bumped(Bumped(byId, b, h), a, g)
  {
    if a == b {
      var t := TallyOf(byId, a);
      assert TallyOf(Bumped(byId, a, g), a).correct == t.correct + (if g == Correct then 1 else 0);
      assert TallyOf(Bumped(byId, b, h), a).correct == t.correct + (if h == Correct then 1 else 0);
    }
  }

  /** `toggle_fav(pid)` on the favourite set. */
  function Toggled(favs: set<string>, pid: string): (r: set<string>)
  {
    if pid in favs then favs - {pid} else favs + {pid}
  }

  /** Toggling flips the membership of `pid` and of nothing else. */
  lemma ToggledSpec(favs: set<string>, pid: string)
    ensures pid in Toggled(favs, pid) <==> pid !in favs
    ensures Toggled(favs, pid) - {pid} == favs - {pid}
  {
  }

  /** Toggling the same id twice restores the set. */
  lemma {:induction false} ToggleTwice(favs: set<string>, pid: string)
    ensures Toggled(Toggled(favs, pid), pid) == favs
  {
    ToggledSpec(favs, pid);
    ToggledSpec(Toggled(favs, pid), pid);
  }

  /**
   * `load_favs` on the decoded favourites file: a list gives the set of
   * `str` of its items, anything else the empty set.
   */
  function LoadedFavs(data: Json): (r: set<string>)
  {
    if data.Arr? then set x | x in data.items :: PyStr(x) else {}
  }

  /** The decoded content `save_favs` writes: the ids as a sorted list of strings. */
  method SaveFavs(favs: set<string>) returns (data: Json)
    ensures data.Arr? && |data.items| == |favs|
    ensures forall x :: x in data.items ==> x.Str?
    ensures StrictlySorted(seq(|data.items|, i requires 0 <= i < |data.items| => data.items[i].s))
    ensures LoadedFavs(data) == favs
  {
    var ids := SortStrings(favs);
    var items := seq(|ids|, i requires 0 <= i < |ids| => Str(ids[i]));
    data := Arr(items);
    assert seq(|items|, i requires 0 <= i < |items| => items[i].s) == ids;
    forall s | s in favs ensures s in LoadedFavs(data) {
      var i :| 0 <= i < |ids| && ids[i] == s;
      assert items[i] in items && PyStr(items[i]) == s;
    }
  }

  /** Anything but a list loads as no favourites. */
  lemma LoadedFavsNotAList(data: Json)
    requires !data.Arr?
    ensures LoadedFavs(data) == {}
  {
  }

  /** A list of strings loads as the set of those strings. */
  lemma LoadedFavsOfStrings(items: seq<Json>)
    requires forall x :: x in items ==> x.Str?
    ensures forall s :: s in LoadedFavs(Arr(items)) <==> Str(s) in items
  {
    forall s | Str(s) in items ensures s in LoadedFavs(Arr(items)) {
      assert PyStr(Str(s)) == s;
    }
  }
}
