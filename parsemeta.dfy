/// The rows of the parsing table (`render_parse_meta`): the preferred
/// grammatical keys first, in their fixed order, then every other key in
/// sorted order; keys whose value is `None` are left out, and a list value
/// is shown as its items joined by ", ".
module ParseMeta {
  import opened Common
  import opened Text
  import opened Json

  /** The keys shown first, in this order. */
  const Preferred: seq<string> :=
    ["lemma", "pos", "γένος", "πτῶσις", "ἀριθμός", "πρόσωπον",
     "χρόνος", "ἔγκλισις", "φωνή", "βαθμός", "ambiguous", "note"]

  /** One table row: a key and the text of its value. */
  type Row = (string, string)

  /** `sep.join(parts)`. */
  function Join(parts: seq<string>, sep: string): string
  {
    if parts == [] then []
    else if |parts| == 1 then parts[0]
    else parts[0] + sep + Join(parts[1..], sep)
  }

  /** The text a value is shown as: a list joins `str` of its items with ", ", anything else is `str(v)`. */
  function Display(v: Json): string
  {
    if v.Arr? then Join(ItemTexts(v.items), ", ")
    else PyStr(v)
  }

  /** Joining one more part adds the separator and that part at the end. */
  lemma {:induction false} JoinSnoc(parts: seq<string>, x: string, sep: string)
    requires parts != []
    ensures Join(parts + [x], sep) == Join(parts, sep) + sep + x
  {
    if |parts| == 1 {
      assert parts + [x] == [parts[0], x];
      assert [parts[0], x][1..] == [x];
    } else {
      assert (parts + [x])[1..] == parts[1..] + [x];
      JoinSnoc(parts[1..], x, sep);
    }
  }

  /** The `str` of each item of a list, in order. */
  function ItemTexts(items: seq<Json>): (r: seq<string>)
    ensures |r| == |items| && forall i :: 0 <= i < |items| ==> r[i] == PyStr(items[i])
  {
    seq(|items|, i requires 0 <= i < |items| => PyStr(items[i]))
  }

  /**
   * How a value is shown: anything but a list as its `str`; the empty list
   * as ""; a one-item list as its item's `str`; a longer list as the list
   * without its last item, then ", ", then the last item's `str`.
   */
  lemma DisplaySpec(v: Json)
    ensures !v.Arr? ==> Display(v) == PyStr(v)
    ensures v.Arr? && v.items == [] ==> Display(v) == ""
    ensures v.Arr? && |v.items| == 1 ==> Display(v) == PyStr(v.items[0])
    ensures v.Arr? && |v.items| >= 2 ==>
              var n := |v.items| - 1;
              Display(v) == Display(Arr(v.items[..n])) + ", " + PyStr(v.items[n])
  {
    if v.Arr? {
      var items := v.items;
      assert Display(v) == Join(ItemTexts(items), ", ");
      if |items| >= 2 {
        var n := |items| - 1;
        assert ItemTexts(items) == ItemTexts(items[..n]) + [PyStr(items[n])];
        assert Display(Arr(items[..n])) == Join(ItemTexts(items[..n]), ", ");
        JoinSnoc(ItemTexts(items[..n]), PyStr(items[n]), ", ");
      }
    }
  }

  /** The keys of a row list, in order. */
  function KeysOf(rows: seq<Row>): (ks: seq<string>)
    ensures |ks| == |rows| && forall i :: 0 <= i < |rows| ==> ks[i] == rows[i].0
  {
    seq(|rows|, i requires 0 <= i < |rows| => rows[i].0)
  }

  /** `add_row(k)` applied to `keys` in order, passing over the keys in `skip`. */
  function Rows(keys: seq<string>, meta: map<string, Json>, skip: set<string>): (rows: seq<Row>)
  {
    if keys == [] then []
    else
      var k := keys[|keys| - 1];
      Rows(keys[..|keys| - 1], meta, skip)
        + (if k !in skip && k in meta && meta[k] != Null then [(k, Display(meta[k]))] else [])
  }

  /** The preferred keys that get a row, which the second pass does not repeat. */
  function Used(meta: map<string, Json>): set<string>
  {
    set k | k in Preferred && k in meta && meta[k] != Null
  }

  /**
   * The rows for `keys` are exactly those keys not skipped and present
   * with a value other than `None`, each shown as `Display` of its value.
   */
  lemma {:induction false} RowsContent(keys: seq<string>, meta: map<string, Json>, skip: set<string>)
    ensures var rows := Rows(keys, meta, skip);
            && (forall k :: k in KeysOf(rows) <==> k in keys && k !in skip && k in meta && meta[k] != Null)
            && (forall r :: r in rows ==> r.0 in meta && r.1 == Display(meta[r.0]))
  {
    if keys != [] {
      var init := keys[..|keys| - 1];
      var k := keys[|keys| - 1];
      var before := Rows(init, meta, skip);
      RowsContent(init, meta, skip);
      assert keys == init + [k];
      assert forall x :: x in keys <==> x in init || x == k;
      if k !in skip && k in meta && meta[k] != Null {
        var row := (k, Display(meta[k]));
        assert Rows(keys, meta, skip) == before + [row];
        KeysOfAppend(before, [row]);
        assert KeysOf([row]) == [k];
      } else {
        assert Rows(keys, meta, skip) == before;
      }
    }
  }

  /** The keys of joined row lists are the joined keys. */
  lemma KeysOfAppend(a: seq<Row>, b: seq<Row>)
    ensures KeysOf(a + b) == KeysOf(a) + KeysOf(b)
  {
  }

  /** The rows follow the order of `keys`. */
  lemma {:induction false} RowsInOrder(keys: seq<string>, meta: map<string, Json>, skip: set<string>)
    ensures IsSubsequence(KeysOf(Rows(keys, meta, skip)), keys)
  {
    if keys == [] {
      assert KeysOf([]) == [];
    } else {
      var init := keys[..|keys| - 1];
      var k := keys[|keys| - 1];
      var before := Rows(init, meta, skip);
      RowsInOrder(init, meta, skip);
      assert keys == init + [k];
      if k !in skip && k in meta && meta[k] != Null {
        var row := (k, Display(meta[k]));
        assert Rows(keys, meta, skip) == before + [row];
        KeysOfAppend(before, [row]);
        assert KeysOf([row]) == [k];
        SubsequenceSnoc(KeysOf(before), init, k);
      } else {
        assert Rows(keys, meta, skip) == before;
        SubsequenceAppendRight(KeysOf(before), init, k);
      }
    }
  }

  /** Rows over sorted keys are sorted by key. */
  lemma {:induction false} RowsSorted(keys: seq<string>, meta: map<string, Json>, skip: set<string>)
    requires StrictlySorted(keys)
    ensures StrictlySorted(KeysOf(Rows(keys, meta, skip)))
  {
    if keys != [] {
      var init := keys[..|keys| - 1];
      var k := keys[|keys| - 1];
      var before := Rows(init, meta, skip);
      RowsSorted(init, meta, skip);
      if k !in skip && k in meta && meta[k] != Null {
        RowsContent(init, meta, skip);
        var ks := KeysOf(Rows(keys, meta, skip));
        KeysOfAppend(before, [(k, Display(meta[k]))]);
        forall i, j | 0 <= i < j < |ks| ensures Below(ks[i], ks[j]) {
          if j == |ks| - 1 {
            assert ks[i] in KeysOf(before);
            var m :| 0 <= m < |init| && init[m] == ks[i];
            assert ks[j] == keys[|keys| - 1] && init[m] == keys[m];
          } else {
            assert ks[i] == KeysOf(before)[i] && ks[j] == KeysOf(before)[j];
          }
        }
      }
    }
  }

  /** Rows over keys without repeats have no repeated key. */
  lemma {:induction false} RowsDistinct(keys: seq<string>, meta: map<string, Json>, skip: set<string>)
    requires Distinct(keys)
    ensures Distinct(KeysOf(Rows(keys, meta, skip)))
  {
    if keys != [] {
      var init := keys[..|keys| - 1];
      var k := keys[|keys| - 1];
      var before := Rows(init, meta, skip);
      RowsDistinct(init, meta, skip);
      if k !in skip && k in meta && meta[k] != Null {
        RowsContent(init, meta, skip);
        KeysOfAppend(before, [(k, Display(meta[k]))]);
        assert k !in init;
      }
    }
  }

  /** No preferred key is listed twice. */
  lemma PreferredDistinct()
    ensures Distinct(Preferred)
  {
  }

  /** A strictly sorted list has no repeats. */
  lemma SortedDistinct(s: seq<string>)
    requires StrictlySorted(s)
    ensures Distinct(s)
  {
    forall i, j | 0 <= i < j < |s| ensures s[i] != s[j] {
      BelowIrreflexive(s[i]);
    }
  }

  /**
   * The row list of `render_parse_meta(meta)`: first the preferred keys
   * that have a value, in their fixed order; then the other keys with a
   * value, sorted; every key with a value exactly once, shown as its value.
   */
  method ParseMetaRows(meta: map<string, Json>) returns (rows: seq<Row>)
    ensures var pre := Rows(Preferred, meta, {});
            && |pre| <= |rows| && rows[..|pre|] == pre
            && IsSubsequence(KeysOf(pre), Preferred)
            && StrictlySorted(KeysOf(rows[|pre|..]))
            && forall k :: k in KeysOf(rows[|pre|..]) <==> k in meta && meta[k] != Null && k !in Preferred
    ensures forall k :: k in KeysOf(rows) <==> k in meta && meta[k] != Null
    ensures Distinct(KeysOf(rows))
    ensures forall r :: r in rows ==> r.0 in meta && r.1 == Display(meta[r.0])
  {
    var pre, used := PreferredPass(meta);
    var sorted := SortStrings(meta.Keys);
    var rest := SortedPass(meta, sorted, used);
    rows := pre + rest;
    assert rows[..|pre|] == pre && rows[|pre|..] == rest;
    RowsInOrder(Preferred, meta, {});
    RestRows(meta, sorted);
    JoinedRows(meta, pre, rest);
  }

  /** The first loop of `render_parse_meta`: a row for each preferred key with a value. */
  method PreferredPass(meta: map<string, Json>) returns (rows: seq<Row>, used: set<string>)
    ensures rows == Rows(Preferred, meta, {})
    ensures used == Used(meta)
  {
    rows := [];
    used := {};
    var i := 0;
    while i < |Preferred|
      invariant 0 <= i <= |Preferred|
      invariant rows == Rows(Preferred[..i], meta, {})
      invariant used == set k | k in Preferred[..i] && k in meta && meta[k] != Null
    {
      var k := Preferred[i];
      assert Preferred[..i + 1] == Preferred[..i] + [k];
      if k in meta && meta[k] != Null {
        used := used + {k};
        rows := rows + [(k, Display(meta[k]))];
      }
      i := i + 1;
    }
    assert Preferred[..i] == Preferred;
  }

  /** The second loop: a row for each other key with a value, in the order of `keys`. */
  method SortedPass(meta: map<string, Json>, keys: seq<string>, used: set<string>) returns (rows: seq<Row>)
    requires forall k :: k in keys ==> k in meta
    ensures rows == Rows(keys, meta, used)
  {
    rows := [];
    var j := 0;
    while j < |keys|
      invariant 0 <= j <= |keys|
      invariant rows == Rows(keys[..j], meta, used)
    {
      var k := keys[j];
      assert keys[..j + 1] == keys[..j] + [k];
      if k !in used && meta[k] != Null {
        rows := rows + [(k, Display(meta[k]))];
      }
      j := j + 1;
    }
    assert keys[..j] == keys;
  }

  /**
   * The second pass over the sorted keys gives, in sorted order, exactly
   * the keys with a value that are not preferred.
   */
  lemma RestRows(meta: map<string, Json>, sorted: seq<string>)
    requires StrictlySorted(sorted) && forall x :: x in sorted <==> x in meta
    ensures var rest := Rows(sorted, meta, Used(meta));
            && StrictlySorted(KeysOf(rest))
            && Distinct(KeysOf(rest))
            && (forall k :: k in KeysOf(rest) <==> k in meta && meta[k] != Null && k !in Preferred)
            && (forall r :: r in rest ==> r.0 in meta && r.1 == Display(meta[r.0]))
  {
    RowsContent(sorted, meta, Used(meta));
    RowsSorted(sorted, meta, Used(meta));
    SortedDistinct(KeysOf(Rows(sorted, meta, Used(meta))));
  }

  /** The preferred rows followed by the rest hold every key with a value once. */
  lemma JoinedRows(meta: map<string, Json>, pre: seq<Row>, rest: seq<Row>)
    requires pre == Rows(Preferred, meta, {})
    requires Distinct(KeysOf(rest))
    requires forall k :: k in KeysOf(rest) <==> k in meta && meta[k] != Null && k !in Preferred
    requires forall r :: r in rest ==> r.0 in meta && r.1 == Display(meta[r.0])
    ensures forall k :: k in KeysOf(pre + rest) <==> k in meta && meta[k] != Null
    ensures Distinct(KeysOf(pre + rest))
    ensures forall r :: r in pre + rest ==> r.0 in meta && r.1 == Display(meta[r.0])
  {
    RowsContent(Preferred, meta, {});
    PreferredDistinct();
    RowsDistinct(Preferred, meta, {});
    KeysOfAppend(pre, rest);
    var ks := KeysOf(pre + rest);
    forall a, b | 0 <= a < b < |ks| ensures ks[a] != ks[b] {
      if a < |pre| && b >= |pre| {
        assert ks[a] == KeysOf(pre)[a] && ks[a] in KeysOf(pre);
        assert ks[b] == KeysOf(rest)[b - |pre|] && ks[b] in KeysOf(rest);
      } else if b < |pre| {
        assert ks[a] == KeysOf(pre)[a] && ks[b] == KeysOf(pre)[b];
      } else {
        assert ks[a] == KeysOf(rest)[a - |pre|] && ks[b] == KeysOf(rest)[b - |pre|];
      }
    }
  }
}
