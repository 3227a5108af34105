/// The phrase filter: the favourites-only switch and the search box select
/// the phrases shown, in the order they were loaded (`match`, `filtered`,
/// `filtered_ids`).
module Filter {
  import opened Common
  import opened Text
  import opened Deck

  /** `match(p)` with search text `q`, the favourites-only switch and the favourite ids. */
  predicate Matches(p: Phrase, q: string, favOnly: bool, favs: set<string>)
  {
    if favOnly && p.id !in favs then false
    else if Trim(q) != [] then
      var needle := Lower(Trim(q));
      Contains(needle, Lower(p.koine)) || Contains(needle, Lower(p.english))
    else true
  }

  /**
   * A phrase matches exactly when it passes the favourites switch and the
   * search text is all white space or, stripped and lower-cased, occurs in
   * the lower-cased Koine or English text.
   */
  lemma MatchesIff(p: Phrase, q: string, favOnly: bool, favs: set<string>)
    ensures Matches(p, q, favOnly, favs) <==>
              && (!favOnly || p.id in favs)
              && ((forall i :: 0 <= i < |q| ==> IsSpace(q[i]))
                  || (exists i :: OccursAt(Lower(Trim(q)), Lower(p.koine), i))
                  || (exists i :: OccursAt(Lower(Trim(q)), Lower(p.english), i)))
  {
    TrimSpec(q);
    ContainsIff(Lower(Trim(q)), Lower(p.koine));
    ContainsIff(Lower(Trim(q)), Lower(p.english));
  }

  /** An empty search with the switch off shows every phrase. */
  lemma NoFilterMatchesAll(p: Phrase, favs: set<string>)
    ensures Matches(p, "", false, favs)
  {
    assert TrimStart("") == [];
  }

  /** `[p for p in phrases if match(p)]`. */
  function Filtered(ps: seq<Phrase>, q: string, favOnly: bool, favs: set<string>): (r: seq<Phrase>)
    ensures forall p :: p in r <==> p in ps && Matches(p, q, favOnly, favs)
    ensures IsSubsequence(r, ps)
    ensures forall p :: multiset(r)[p] == if Matches(p, q, favOnly, favs) then multiset(ps)[p] else 0
  {
    if ps == [] then []
    else
      var rest := Filtered(ps[1..], q, favOnly, favs);
      assert ps == [ps[0]] + ps[1..];
      assert forall p :: p in ps <==> p == ps[0] || p in ps[1..];
      if Matches(ps[0], q, favOnly, favs) then
        [ps[0]] + rest
      else
        SubsequenceOfTail(rest, ps);
        rest
  }

  /** `[p["id"] for p in filtered]`. */
  function Ids(ps: seq<Phrase>): (r: seq<string>)
    ensures |r| == |ps| && forall i :: 0 <= i < |ps| ==> r[i] == ps[i].id
  {
    seq(|ps|, i requires 0 <= i < |ps| => ps[i].id)
  }

  /** A phrase's id is among the shown ids exactly when some shown phrase carries it. */
  lemma IdsOfFiltered(ps: seq<Phrase>, q: string, favOnly: bool, favs: set<string>, id: string)
    ensures id in Ids(Filtered(ps, q, favOnly, favs)) <==>
              exists p :: p in ps && Matches(p, q, favOnly, favs) && p.id == id
  {
    var f := Filtered(ps, q, favOnly, favs);
    if id in Ids(f) {
      var i :| 0 <= i < |f| && Ids(f)[i] == id;
      assert f[i] in f;
    }
    if exists p :: p in ps && Matches(p, q, favOnly, favs) && p.id == id {
      var p :| p in ps && Matches(p, q, favOnly, favs) && p.id == id;
      var i :| 0 <= i < |f| && f[i] == p;
      assert Ids(f)[i] == id;
    }
  }
}
