/// Deck loading (`load_deck_file`): a decoded deck file becomes a list of
/// phrase records. Entries that are not objects are skipped, text fields are
/// stripped, the id becomes `"<deck>:<base>"` with a zero-padded sequence
/// number as the default base, a non-object `meta` is dropped, and a record
/// with neither Koine nor English text is discarded.
module Deck {
  import opened Common
  import opened Text
  import opened Json

  /** A loaded phrase, with the fields the app reads back. */
  datatype Phrase = Phrase(
    id: string,
    deck: string,
    koine: string,
    english: string,
    tag: Option<string>,
    audio: Option<string>,
    image: Option<string>,
    meta: Option<map<string, Json>>)

  /** Why a deck file fails to load. */
  datatype DeckError =
    | NotAList                          // the file is not a JSON list (`ValueError`)
    | NotText(index: nat, key: string)  // a truthy non-string text field has no `.strip()`

  /** The record carries usable text under `key`: a string that is not all white space. */
  predicate HasText(p: map<string, Json>, key: string)
  {
    Get(p, key).Str? && Trim(Get(p, key).s) != []
  }

  /** The five fields `load_deck_file` strips. */
  const TextKeys: set<string> := {"koine", "english", "tag", "audio", "image"}

  /** `(p.get(key) or "").strip()` raises: the value is truthy and not a string. */
  predicate NotStrippable(p: map<string, Json>, key: string)
  {
    Truthy(Get(p, key)) && !Get(p, key).Str?
  }

  /** `(p.get(key) or "").strip()` for the record at position `i`. */
  function TextField(p: map<string, Json>, i: nat, key: string): (r: Result<string, DeckError>)
  {
    var v := Get(p, key);
    if !Truthy(v) then Success("")
    else if v.Str? then Success(Trim(v.s))
    else Failure(NotText(i, key))
  }

  /**
   * A text field fails exactly on a truthy non-string; otherwise it is
   * stripped, and empty exactly when the record has no usable text there.
   */
  lemma TextFieldSpec(p: map<string, Json>, i: nat, key: string)
    ensures var r := TextField(p, i, key);
            && (r.Failure? <==> NotStrippable(p, key))
            && (r.Failure? ==> r.error == NotText(i, key))
            && (r.Success? ==> IsTrimmed(r.value) && (r.value != [] <==> HasText(p, key)))
            && (r.Success? && Get(p, key).Str? ==> r.value == Trim(Get(p, key).s))
  {
    var v := Get(p, key);
    if !Truthy(v) {
      assert TextField(p, i, key) == Success("");
    } else if v.Str? {
      TrimSpec(v.s);
      assert TextField(p, i, key) == Success(Trim(v.s));
    } else {
      assert TextField(p, i, key) == Failure(NotText(i, key));
    }
  }

  /** `(p.get(key) or "").strip() or None`. */
  function OptionalText(p: map<string, Json>, i: nat, key: string): (r: Result<Option<string>, DeckError>)
  {
    var t :- TextField(p, i, key);
    Success(if t == [] then None else Some(t))
  }

  /** An optional field is present exactly when the record has usable text there, stripped. */
  lemma OptionalTextSpec(p: map<string, Json>, i: nat, key: string)
    ensures var r := OptionalText(p, i, key);
            && (r.Failure? <==> NotStrippable(p, key))
            && (r.Success? ==> (r.value.Some? <==> HasText(p, key)))
            && (r.Success? && r.value.Some? ==> r.value.value == Trim(Get(p, key).s) && IsTrimmed(r.value.value))
  {
    TextFieldSpec(p, i, key);
  }

  /** The entry's text under `key` with outer white space removed; "" when it holds no string. */
  function Stripped(p: map<string, Json>, key: string): (r: string)
    ensures IsTrimmed(r)
  {
    if Get(p, key).Str? then TrimSpec(Get(p, key).s); Trim(Get(p, key).s) else []
  }

  /** The entry's stripped text under `key`, or `None` when it has no usable text there. */
  function StrippedOrNone(p: map<string, Json>, key: string): (r: Option<string>)
    ensures r.Some? <==> HasText(p, key)
  {
    if HasText(p, key) then Some(Stripped(p, key)) else None
  }

  /** `f"{i+1:04d}"`: the base id of the record at position `i` when it has none. */
  function DefaultId(i: nat): (r: string)
    ensures |r| >= 4 && AllDigits(r)
  {
    ZeroPad4(i + 1)
  }

  /** `str(p.get("id") or f"{i+1:04d}").strip() or f"{i+1:04d}"`. */
  function BaseId(p: map<string, Json>, i: nat): (r: string)
  {
    var v := Get(p, "id");
    var d := DefaultId(i);
    var s := Trim(if Truthy(v) then PyStr(v) else d);
    if s != [] then s else d
  }

  /**
   * The base id is never empty and carries no outer white space: the entry's
   * own id when it is truthy and not all white space, else the default.
   */
  lemma BaseIdSpec(p: map<string, Json>, i: nat)
    ensures var r := BaseId(p, i);
            && r != [] && IsTrimmed(r)
            && (!Truthy(Get(p, "id")) || Trim(PyStr(Get(p, "id"))) == [] ==> r == DefaultId(i))
            && (Truthy(Get(p, "id")) && Trim(PyStr(Get(p, "id"))) != [] ==> r == Trim(PyStr(Get(p, "id"))))
  {
    var v := Get(p, "id");
    var d := DefaultId(i);
    assert IsTrimmed(d) && TrimStart(d) == d && TrimEnd(d) == d;
    if Truthy(v) {
      TrimSpec(PyStr(v));
    }
  }

  /** The `meta` field after loading: kept when it is an object, otherwise absent. */
  function MetaOf(p: map<string, Json>): (r: Option<map<string, Json>>)
    ensures r.Some? <==> "meta" in p && p["meta"].Obj?
    ensures r.Some? ==> r.value == p["meta"].fields
  {
    if "meta" in p && p["meta"].Obj? then Some(p["meta"].fields) else None
  }

  /**
   * One pass of the loop body of `load_deck_file` on the entry at position
   * `i`: `None` for an entry that is skipped or discarded, the phrase
   * otherwise, or the error a text field raises.
   */
  function NormaliseRecord(stem: string, i: nat, raw: Json): (r: Result<Option<Phrase>, DeckError>)
  {
    if !raw.Obj? then Success(None)
    else
      var p := raw.fields;
      var koine :- TextField(p, i, "koine");
      var english :- TextField(p, i, "english");
      var tag :- OptionalText(p, i, "tag");
      var audio :- OptionalText(p, i, "audio");
      var image :- OptionalText(p, i, "image");
      if koine == [] && english == [] then Success(None)
      else Success(Some(Phrase(stem + ":" + BaseId(p, i), stem, koine, english, tag, audio, image, MetaOf(p))))
  }

  /**
   * What one entry loads to: a non-object is skipped; a dropped object has
   * no usable Koine or English text; a kept one has the deck's name, the id
   * `deck:base`, stripped text of which at least one side is non-empty, and
   * `meta` only when the entry's `meta` is an object. It fails exactly when
   * a text field holds a truthy non-string.
   */
  lemma NormaliseRecordSpec(stem: string, i: nat, raw: Json)
    ensures var r := NormaliseRecord(stem, i, raw);
            && (!raw.Obj? ==> r == Success(None))
            && (raw.Obj? ==> (r.Failure? <==> exists key :: key in TextKeys && NotStrippable(raw.fields, key)))
            && (raw.Obj? && r == Success(None) ==>
                  !HasText(raw.fields, "koine") && !HasText(raw.fields, "english"))
            && (r.Success? && r.value.Some? ==>
                  var ph := r.value.value;
                  && raw.Obj?
                  && ph.id == stem + ":" + BaseId(raw.fields, i)
                  && ph.deck == stem
                  && (ph.koine != [] || ph.english != [])
                  && ph.koine == Stripped(raw.fields, "koine")
                  && ph.english == Stripped(raw.fields, "english")
                  && ph.tag == StrippedOrNone(raw.fields, "tag")
                  && ph.audio == StrippedOrNone(raw.fields, "audio")
                  && ph.image == StrippedOrNone(raw.fields, "image")
                  && IsTrimmed(ph.koine) && IsTrimmed(ph.english)
                  && (ph.koine != [] <==> HasText(raw.fields, "koine"))
                  && (ph.english != [] <==> HasText(raw.fields, "english"))
                  && ph.meta == MetaOf(raw.fields))
  {
    if raw.Obj? {
      var p := raw.fields;
      TextFieldSpec(p, i, "koine");
      TextFieldSpec(p, i, "english");
      OptionalTextSpec(p, i, "tag");
      OptionalTextSpec(p, i, "audio");
      OptionalTextSpec(p, i, "image");
      if exists key :: key in TextKeys && NotStrippable(p, key) {
        var key :| key in TextKeys && NotStrippable(p, key);
        assert key == "koine" || key == "english" || key == "tag" || key == "audio" || key == "image";
      }
    }
  }

  /** The loop body of `load_deck_file`: what the entry at a position loads to. */
  type Step = (nat, Json) -> Result<Option<Phrase>, DeckError>

  /** The loop body for the deck file whose stem is `stem`. */
  function RecordStep(stem: string): Step
  {
    (i: nat, raw: Json) => NormaliseRecord(stem, i, raw)
  }

  /**
   * The loop of `load_deck_file` over the decoded list `raw`, with `step`
   * as its body: the kept phrases in input order, or the first error raised.
   */
  function Collect(step: Step, raw: seq<Json>): (r: Result<seq<Phrase>, DeckError>)
  {
    if raw == [] then Success([])
    else
      var ps :- Collect(step, raw[..|raw| - 1]);
      var one :- step(|raw| - 1, raw[|raw| - 1]);
      Success(if one.Some? then ps + [one.value] else ps)
  }

  /** Once a prefix of the list fails, the whole list fails with the same error. */
  lemma {:induction false} FailurePersists(step: Step, raw: seq<Json>, k: nat)
    requires k <= |raw| && Collect(step, raw[..k]).Failure?
    ensures Collect(step, raw) == Collect(step, raw[..k])
    decreases |raw|
  {
    if k < |raw| {
      var init := raw[..|raw| - 1];
      assert init[..k] == raw[..k];
      FailurePersists(step, init, k);
    } else {
      assert raw[..k] == raw;
    }
  }

  /** One more entry: the loop either stops with that entry's error or appends what it loads to. */
  lemma CollectStep(step: Step, raw: seq<Json>, i: nat)
    requires i < |raw| && Collect(step, raw[..i]).Success?
    ensures var one := step(i, raw[i]);
            var done := Collect(step, raw[..i]).value;
            && (one.Failure? ==> Collect(step, raw[..i + 1]) == Failure(one.error))
            && (one.Success? && one.value.None? ==> Collect(step, raw[..i + 1]) == Success(done))
            && (one.Success? && one.value.Some? ==> Collect(step, raw[..i + 1]) == Success(done + [one.value.value]))
  {
    assert raw[..i + 1][..i] == raw[..i];
  }

  /**
   * The list loads exactly when every entry does; when it fails, the error
   * is that of the first entry that fails.
   */
  lemma {:induction false} FailsAtFirstError(step: Step, raw: seq<Json>)
    ensures Collect(step, raw).Success? <==> forall i :: 0 <= i < |raw| ==> step(i, raw[i]).Success?
    ensures Collect(step, raw).Failure? ==>
              exists i :: && 0 <= i < |raw|
                          && step(i, raw[i]) == Failure(Collect(step, raw).error)
                          && forall j :: 0 <= j < i ==> step(j, raw[j]).Success?
  {
    if raw != [] {
      var n := |raw| - 1;
      var init := raw[..n];
      FailsAtFirstError(step, init);
      assert forall i :: 0 <= i < n ==> raw[i] == init[i];
      var r := Collect(step, raw);
      if Collect(step, init).Failure? {
        var i :| && 0 <= i < n
                 && step(i, init[i]) == Failure(Collect(step, init).error)
                 && forall j :: 0 <= j < i ==> step(j, init[j]).Success?;
        assert step(i, raw[i]) == Failure(r.error);
      } else if step(n, raw[n]).Failure? {
        assert step(n, raw[n]) == Failure(r.error);
      }
    }
  }

  /** `load_deck_file` on the decoded content of a deck file whose stem is `stem`. */
  method LoadDeckFile(stem: string, raw: Json) returns (r: Result<seq<Phrase>, DeckError>)
    ensures !raw.Arr? ==> r == Failure(NotAList)
    ensures raw.Arr? ==> r == Collect(RecordStep(stem), raw.items)
  {
    if !raw.Arr? {
      return Failure(NotAList);
    }
    var items := raw.items;
    var out: seq<Phrase> := [];
    var i := 0;
    while i < |items|
      invariant 0 <= i <= |items|
      invariant Collect(RecordStep(stem), items[..i]) == Success(out)
    {
      var rec := NormaliseRecord(stem, i, items[i]);
      CollectStep(RecordStep(stem), items, i);
      match rec {
        case Failure(e) =>
          FailurePersists(RecordStep(stem), items, i + 1);
          return Failure(e);
        case Success(one) =>
          if one.Some? {
            out := out + [one.value];
          }
      }
      i := i + 1;
    }
    assert items[..i] == items;
    r := Success(out);
  }

  /** The entry at position `i` loads to a phrase. */
  predicate IsKept(step: Step, i: nat, raw: Json)
  {
    step(i, raw).Success? && step(i, raw).value.Some?
  }

  /** The positions of the entries of `raw` that load to a phrase, ascending. */
  ghost function KeptIndices(step: Step, raw: seq<Json>): (ks: seq<nat>)
    ensures forall k :: 0 <= k < |ks| ==> ks[k] < |raw|
    ensures forall k, l :: 0 <= k < l < |ks| ==> ks[k] < ks[l]
  {
    if raw == [] then []
    else
      var n := |raw| - 1;
      var init := KeptIndices(step, raw[..n]);
      if IsKept(step, n, raw[n]) then init + [n] else init
  }

  /** `KeptIndices` lists exactly the entries that load to a phrase. */
  lemma {:induction false} KeptIndicesExact(step: Step, raw: seq<Json>)
    ensures var ks := KeptIndices(step, raw);
            && (forall k :: 0 <= k < |ks| ==> IsKept(step, ks[k], raw[ks[k]]))
            && (forall i :: 0 <= i < |raw| && IsKept(step, i, raw[i]) ==> i in ks)
  {
    if raw != [] {
      var n := |raw| - 1;
      var init := raw[..n];
      KeptIndicesExact(step, init);
      var before := KeptIndices(step, init);
      var ks := KeptIndices(step, raw);
      assert forall i :: 0 <= i < n ==> raw[i] == init[i];
      assert ks == if IsKept(step, n, raw[n]) then before + [n] else before;
      forall k | 0 <= k < |ks| ensures IsKept(step, ks[k], raw[ks[k]]) {
        if k < |before| {
          assert IsKept(step, before[k], init[before[k]]);
          var j := before[k];
          assert ks[k] == j && j < n && raw[j] == init[j];
        } else {
          assert ks[k] == n;
        }
      }
      forall i | 0 <= i < |raw| && IsKept(step, i, raw[i]) ensures i in ks {
        if i < n {
          assert IsKept(step, i, init[i]);
        }
      }
    }
  }

  /**
   * A list that loads yields exactly the phrases of its kept entries, one
   * for each, in input order.
   */
  lemma {:induction false} LoadedInInputOrder(step: Step, raw: seq<Json>)
    requires Collect(step, raw).Success?
    ensures var ps := Collect(step, raw).value;
            var ks := KeptIndices(step, raw);
            && |ps| == |ks|
            && forall k :: 0 <= k < |ps| ==> step(ks[k], raw[ks[k]]) == Success(Some(ps[k]))
  {
    if raw != [] {
      var n := |raw| - 1;
      var init := raw[..n];
      LoadedInInputOrder(step, init);
      assert forall i :: 0 <= i < n ==> raw[i] == init[i];
    }
  }

  /**
   * Every phrase of a loaded deck has text on at least one side, stripped
   * fields, the deck's name, and the id `deck:base` built from its own
   * entry at its position in the file.
   */
  lemma LoadedPhrasesWellFormed(stem: string, raw: seq<Json>)
    requires Collect(RecordStep(stem), raw).Success?
    ensures var ps := Collect(RecordStep(stem), raw).value;
            var ks := KeptIndices(RecordStep(stem), raw);
            && |ps| == |ks|
            && forall k :: 0 <= k < |ps| ==>
              && raw[ks[k]].Obj?
              && (ps[k].koine != [] || ps[k].english != [])
              && IsTrimmed(ps[k].koine) && IsTrimmed(ps[k].english)
              && ps[k].koine == Stripped(raw[ks[k]].fields, "koine")
              && ps[k].english == Stripped(raw[ks[k]].fields, "english")
              && ps[k].tag == StrippedOrNone(raw[ks[k]].fields, "tag")
              && ps[k].audio == StrippedOrNone(raw[ks[k]].fields, "audio")
              && ps[k].image == StrippedOrNone(raw[ks[k]].fields, "image")
              && ps[k].meta == MetaOf(raw[ks[k]].fields)
              && ps[k].deck == stem
              && ps[k].id == stem + ":" + BaseId(raw[ks[k]].fields, ks[k])
  {
    var ps := Collect(RecordStep(stem), raw).value;
    var ks := KeptIndices(RecordStep(stem), raw);
    LoadedInInputOrder(RecordStep(stem), raw);
    forall k | 0 <= k < |ps|
      ensures && raw[ks[k]].Obj?
              && (ps[k].koine != [] || ps[k].english != [])
              && IsTrimmed(ps[k].koine) && IsTrimmed(ps[k].english)
              && ps[k].koine == Stripped(raw[ks[k]].fields, "koine")
              && ps[k].english == Stripped(raw[ks[k]].fields, "english")
              && ps[k].tag == StrippedOrNone(raw[ks[k]].fields, "tag")
              && ps[k].audio == StrippedOrNone(raw[ks[k]].fields, "audio")
              && ps[k].image == StrippedOrNone(raw[ks[k]].fields, "image")
              && ps[k].meta == MetaOf(raw[ks[k]].fields)
              && ps[k].deck == stem
              && ps[k].id == stem + ":" + BaseId(raw[ks[k]].fields, ks[k])
    {
      NormaliseRecordSpec(stem, ks[k], raw[ks[k]]);
    }
  }

  /** Two different sequence numbers never give the same default id. */
  lemma DefaultIdInjective(i: nat, j: nat, stem: string)
    requires i != j
    ensures stem + ":" + DefaultId(i) != stem + ":" + DefaultId(j)
  {
    ZeroPad4Injective(i + 1, j + 1);
    var a := stem + ":" + DefaultId(i);
    var b := stem + ":" + DefaultId(j);
    assert a[|stem| + 1..] == DefaultId(i);
    assert b[|stem| + 1..] == DefaultId(j);
  }

  /** When no entry carries an id, every loaded phrase gets its own id. */
  lemma DefaultIdsDistinct(stem: string, raw: seq<Json>)
    requires Collect(RecordStep(stem), raw).Success?
    requires forall i :: 0 <= i < |raw| && raw[i].Obj? ==> !Truthy(Get(raw[i].fields, "id"))
    ensures var ps := Collect(RecordStep(stem), raw).value;
            forall k, l :: 0 <= k < l < |ps| ==> ps[k].id != ps[l].id
  {
    var ps := Collect(RecordStep(stem), raw).value;
    var ks := KeptIndices(RecordStep(stem), raw);
    LoadedPhrasesWellFormed(stem, raw);
    forall k, l | 0 <= k < l < |ps| ensures ps[k].id != ps[l].id {
      BaseIdSpec(raw[ks[k]].fields, ks[k]);
      BaseIdSpec(raw[ks[l]].fields, ks[l]);
      DefaultIdInjective(ks[k], ks[l], stem);
    }
  }

  /** The entry is an object that loads without error and has Koine text. */
  predicate LoadsWithKoine(raw: Json)
  {
    && raw.Obj?
    && HasText(raw.fields, "koine")
    && forall key :: key in TextKeys ==> !NotStrippable(raw.fields, key)
  }

  /** An entry that loads with Koine text is kept, under the id `deck:base`. */
  lemma KeptWithKoine(stem: string, i: nat, raw: Json)
    requires LoadsWithKoine(raw)
    ensures IsKept(RecordStep(stem), i, raw)
    ensures RecordStep(stem)(i, raw).value.value.id == stem + ":" + BaseId(raw.fields, i)
  {
    NormaliseRecordSpec(stem, i, raw);
  }

  /** The explicit id "0002" of the first entry and the default id of the second coincide. */
  lemma CollidingBaseIds(first: map<string, Json>, second: map<string, Json>)
    requires Get(first, "id") == Str(DefaultId(1)) && !Truthy(Get(second, "id"))
    ensures BaseId(first, 0) == BaseId(second, 1) == DefaultId(1)
  {
    var d := DefaultId(1);
    assert IsTrimmed(d);
    TrimOfTrimmed(d);
    BaseIdSpec(first, 0);
    BaseIdSpec(second, 1);
  }

  /**
   * Ids are not unique in general: a first entry whose explicit id is
   * "0002" and a second entry with no id both load under `deck:0002`.
   */
  lemma ExplicitIdCanCollideWithDefault(stem: string, first: Json, second: Json)
    requires LoadsWithKoine(first) && Get(first.fields, "id") == Str(DefaultId(1))
    requires LoadsWithKoine(second) && !Truthy(Get(second.fields, "id"))
    ensures var r := Collect(RecordStep(stem), [first, second]);
            && r.Success? && |r.value| == 2
            && r.value[0].id == r.value[1].id == stem + ":" + DefaultId(1)
  {
    CollidingBaseIds(first.fields, second.fields);
    KeptWithKoine(stem, 0, first);
    KeptWithKoine(stem, 1, second);
    CollectPair(RecordStep(stem), first, second);
  }

  /** A two-entry list whose entries both load to phrases loads to those two. */
  lemma CollectPair(step: Step, a: Json, b: Json)
    requires IsKept(step, 0, a) && IsKept(step, 1, b)
    ensures Collect(step, [a, b]) == Success([step(0, a).value.value, step(1, b).value.value])
  {
    var pa := step(0, a).value.value;
    var pb := step(1, b).value.value;
    assert [a][..0] == [];
    assert Collect(step, []) == Success([]);
    assert Collect(step, [a]) == Success([] + [pa]);
    assert [] + [pa] == [pa];
    assert Collect(step, [a]) == Success([pa]);
    assert [a, b][..1] == [a];
    assert Collect(step, [a, b]) == Success([pa] + [pb]);
    assert [pa] + [pb] == [pa, pb];
  }

  /** The default id of the second entry is "0002". */
  lemma SecondDefaultId()
    ensures DefaultId(1) == "0002"
  {
    assert Decimal(2) == "2";
    assert Zeros(3) == "000";
  }
}
