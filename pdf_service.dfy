/**
  The form-field logic of the PDF service: filling a form from caller-supplied
  key/value pairs, and reading the form's field metadata back out.

  The PDF engine is abstract. Filling talks to an `AcroFields` object whose
  only state is the map from field name to value. Extraction is given the
  field names in the engine's enumeration order, and two lookup functions in
  place of the engine's type and value queries.
*/
module PdfService {
  import opened Wrappers
  import opened CaseInsensitive

  // ---------------------------------------------------------------------
  // Shared sequence facts
  // ---------------------------------------------------------------------

  ghost predicate Distinct<T>(s: seq<T>) {
    forall i, j :: 0 <= i < j < |s| ==> s[i] != s[j]
  }

  /** No two names are the same ignoring case. */
  ghost predicate DistinctIgnoringCase(names: seq<string>) {
    forall k, l :: 0 <= k < l < |names| ==> !Same(names[k], names[l])
  }

  /**
    The position of the first element that repeats an earlier one, if any.
    A dictionary built by adding the elements in order fails at exactly
    this position.
  */
  function FirstDuplicate<T(==)>(s: seq<T>): (r: Option<nat>)
    ensures r.None? <==> Distinct(s)
    ensures r.Some? ==> r.value < |s| && s[r.value] in s[..r.value] && Distinct(s[..r.value])
    decreases |s|
  {
    if |s| == 0 then None
    else
      var init := s[..|s| - 1];
      match FirstDuplicate(init)
      case Some(j) =>
        assert s[..j] == init[..j] && s[j] == init[j];
        assert !Distinct(s) by {
          var i :| 0 <= i < j && init[..j][i] == init[j];
          assert s[i] == s[j];
        }
        Some(j)
      case None =>
        if s[|s| - 1] in init then
          assert !Distinct(s) by {
            var i :| 0 <= i < |init| && init[i] == s[|s| - 1];
            assert s[i] == s[|s| - 1];
          }
          Some(|s| - 1)
        else
          assert Distinct(s) by {
            forall i, j | 0 <= i < j < |s| ensures s[i] != s[j] {
              if j < |s| - 1 {
                assert s[i] == init[i] && s[j] == init[j];
              } else {
                assert s[i] == init[i];
              }
            }
          }
          None
  }

  // ---------------------------------------------------------------------
  // FillForm: key translation and the two collision checks
  // ---------------------------------------------------------------------

  /** One key/value pair supplied by the caller. */
  datatype FieldValue = FieldValue(name: string, value: string)

  /** Why filling stopped: a dictionary refused a key it already held. */
  datatype FillError =
    | DuplicateKey(key: string)              // the exact-comparison dictionary of the translated keys
    | DuplicateKeyIgnoringCase(key: string)  // its case-insensitive copy

  /** The caller's key with every '$' rewritten to the hierarchical separator '.'. */
  function Translate(key: string): (r: string)
    ensures |r| == |key|
    ensures forall i :: 0 <= i < |key| ==> r[i] == (if key[i] == '$' then '.' else key[i])
    ensures '$' !in r
  {
    if |key| == 0 then ""
    else [if key[0] == '$' then '.' else key[0]] + Translate(key[1..])
  }

  function TranslateNames(fields: seq<FieldValue>): seq<FieldValue> {
    seq(|fields|, j requires 0 <= j < |fields| => FieldValue(Translate(fields[j].name), fields[j].value))
  }

  function Names(fields: seq<FieldValue>): seq<string> {
    seq(|fields|, j requires 0 <= j < |fields| => fields[j].name)
  }

  function FoldAll(names: seq<string>): seq<string> {
    seq(|names|, j requires 0 <= j < |names| => Fold(names[j]))
  }

  /**
    The dictionary of translated keys, and its case-insensitive copy, built in
    the input's order. The first fails on two keys that translate to the same
    string; the second on two translated keys that are the same ignoring case.
    On success the result is the translated pairs, in the same order.
  */
  function PrepareFields(fields: seq<FieldValue>): (r: Result<seq<FieldValue>, FillError>)
    ensures r.Success? ==> |r.value| == |fields|
    ensures r.Success? ==> forall j :: 0 <= j < |fields| ==>
      r.value[j] == FieldValue(Translate(fields[j].name), fields[j].value)
    ensures r.Success? ==> Distinct(Names(r.value))
    ensures r.Failure? ==> r.error.key in Names(TranslateNames(fields))
  {
    var translated := TranslateNames(fields);
    var names := Names(translated);
    match FirstDuplicate(names)
    case Some(j) => Failure(DuplicateKey(names[j]))
    case None =>
      match FirstDuplicate(FoldAll(names))
      case Some(j) => Failure(DuplicateKeyIgnoringCase(names[j]))
      case None => Success(translated)
  }

  /** The form after `SetField` has been applied to each pair in order: it has the old fields and the pairs' names. */
  function Apply(form: map<string, string>, fields: seq<FieldValue>): (r: map<string, string>)
    ensures forall name :: name in r <==> name in form || name in Names(fields)
    decreases |fields|
  {
    if |fields| == 0 then form
    else
      var init := fields[..|fields| - 1];
      assert Names(fields) == Names(init) + [fields[|fields| - 1].name];
      Apply(form, init)[fields[|fields| - 1].name := fields[|fields| - 1].value]
  }

  /**
    The whole of FillForm on an abstract form: the new field map, or the error.
    A filled form holds exactly its old fields and the translated keys.
  */
  function Fill(form: map<string, string>, fields: seq<FieldValue>): (r: Result<map<string, string>, FillError>)
    ensures r.Success? ==> forall name :: name in r.value <==> name in form || name in Names(TranslateNames(fields))
  {
    match PrepareFields(fields)
    case Failure(e) => Failure(e)
    case Success(toFill) => Success(Apply(form, toFill))
  }

  /** No two caller keys translate to names that are the same ignoring case. */
  ghost predicate NoCaseCollision(fields: seq<FieldValue>) {
    forall i, j :: 0 <= i < j < |fields| ==> !Same(Translate(fields[i].name), Translate(fields[j].name))
  }

  lemma TranslatedNamesAt(fields: seq<FieldValue>, j: nat)
    requires j < |fields|
    ensures Names(TranslateNames(fields))[j] == Translate(fields[j].name)
    ensures FoldAll(Names(TranslateNames(fields)))[j] == Fold(Translate(fields[j].name))
  {
  }

  /** Two caller keys that translate to the same string make filling fail on the exact dictionary. */
  lemma FillFailsOnDuplicateKey(form: map<string, string>, fields: seq<FieldValue>, i: nat, j: nat)
    requires i < j < |fields|
    requires Translate(fields[i].name) == Translate(fields[j].name)
    ensures Fill(form, fields).Failure? && Fill(form, fields).error.DuplicateKey?
  {
    var names := Names(TranslateNames(fields));
    TranslatedNamesAt(fields, i);
    TranslatedNamesAt(fields, j);
    assert !Distinct(names);
  }

  /** Two caller keys whose translations are the same ignoring case make filling fail. */
  lemma FillFailsOnCaseCollision(form: map<string, string>, fields: seq<FieldValue>, i: nat, j: nat)
    requires i < j < |fields|
    requires Same(Translate(fields[i].name), Translate(fields[j].name))
    ensures Fill(form, fields).Failure?
  {
    var names := Names(TranslateNames(fields));
    TranslatedNamesAt(fields, i);
    TranslatedNamesAt(fields, j);
    assert !Distinct(FoldAll(names));
  }

  /** Filling succeeds exactly when no two translated keys are the same ignoring case. */
  lemma FillSucceedsIffNoCaseCollision(form: map<string, string>, fields: seq<FieldValue>)
    ensures Fill(form, fields).Success? <==> NoCaseCollision(fields)
  {
    var names := Names(TranslateNames(fields));
    if NoCaseCollision(fields) {
      forall i, j | 0 <= i < j < |names| ensures FoldAll(names)[i] != FoldAll(names)[j] {
        TranslatedNamesAt(fields, i);
        TranslatedNamesAt(fields, j);
      }
      assert Distinct(FoldAll(names));
      forall i, j | 0 <= i < j < |names| ensures names[i] != names[j] {
        assert FoldAll(names)[i] != FoldAll(names)[j];
      }
      assert Distinct(names);
    } else {
      var i, j :| 0 <= i < j < |fields| && Same(Translate(fields[i].name), Translate(fields[j].name));
      FillFailsOnCaseCollision(form, fields, i, j);
    }
  }

  /**
    A failure names a translated key that collides with an earlier one: exactly
    for `DuplicateKey`, ignoring case for `DuplicateKeyIgnoringCase`.
  */
  lemma FillErrorNamesCollidingKey(form: map<string, string>, fields: seq<FieldValue>)
    requires Fill(form, fields).Failure?
    ensures exists i, j :: (0 <= i < j < |fields| && Fill(form, fields).error.key == Translate(fields[j].name)
      && (if Fill(form, fields).error.DuplicateKey?
          then Translate(fields[i].name) == Translate(fields[j].name)
          else Same(Translate(fields[i].name), Translate(fields[j].name))))
  {
    var names := Names(TranslateNames(fields));
    match FirstDuplicate(names)
    case Some(j) =>
      var i :| 0 <= i < j && names[..j][i] == names[j];
      TranslatedNamesAt(fields, i);
      TranslatedNamesAt(fields, j);
    case None =>
      var folded := FoldAll(names);
      var j := FirstDuplicate(folded).value;
      var i :| 0 <= i < j && folded[..j][i] == folded[j];
      TranslatedNamesAt(fields, i);
      TranslatedNamesAt(fields, j);
  }

  lemma {:induction false} ApplyWrites(form: map<string, string>, fields: seq<FieldValue>, j: nat)
    requires Distinct(Names(fields))
    requires j < |fields|
    ensures fields[j].name in Apply(form, fields) && Apply(form, fields)[fields[j].name] == fields[j].value
    decreases |fields|
  {
    var init := fields[..|fields| - 1];
    if j < |fields| - 1 {
      assert Names(init) == Names(fields)[..|fields| - 1];
      assert Names(fields)[j] != Names(fields)[|fields| - 1];
      ApplyWrites(form, init, j);
    }
  }

  lemma {:induction false} ApplyLeaves(form: map<string, string>, fields: seq<FieldValue>, name: string)
    requires name !in Names(fields)
    ensures (name in Apply(form, fields) <==> name in form)
    ensures name in form ==> Apply(form, fields)[name] == form[name]
    decreases |fields|
  {
    if |fields| > 0 {
      var init := fields[..|fields| - 1];
      assert Names(fields)[|fields| - 1] == fields[|fields| - 1].name;
      assert Names(init) == Names(fields)[..|fields| - 1];
      ApplyLeaves(form, init, name);
    }
  }

  /** On success, every caller key's translation is set to that key's value. */
  lemma FillSetsEveryKey(form: map<string, string>, fields: seq<FieldValue>, j: nat)
    requires Fill(form, fields).Success?
    requires j < |fields|
    ensures Translate(fields[j].name) in Fill(form, fields).value
    ensures Fill(form, fields).value[Translate(fields[j].name)] == fields[j].value
  {
    ApplyWrites(form, PrepareFields(fields).value, j);
  }

  /** On success, a form field that no translated key names keeps its presence and its value. */
  lemma FillLeavesUnnamedFields(form: map<string, string>, fields: seq<FieldValue>, name: string)
    requires Fill(form, fields).Success?
    requires forall j :: 0 <= j < |fields| ==> Translate(fields[j].name) != name
    ensures (name in Fill(form, fields).value <==> name in form)
    ensures name in form ==> Fill(form, fields).value[name] == form[name]
  {
    var names := Names(TranslateNames(fields));
    assert name !in names by {
      forall j | 0 <= j < |names| ensures names[j] != name {
        TranslatedNamesAt(fields, j);
      }
    }
    ApplyLeaves(form, TranslateNames(fields), name);
  }

  /**
    The form's field store. `SetField` is a plain map update; the ghost log
    `written` records each call's name and value, in call order.
  */
  class AcroFields {
    var fields: map<string, string>
    ghost var written: seq<FieldValue>

    constructor (fields: map<string, string>)
      ensures this.fields == fields && written == []
    {
      this.fields := fields;
      written := [];
    }

    method SetField(name: string, value: string)
      modifies this
      ensures fields == old(fields)[name := value]
      ensures written == old(written) + [FieldValue(name, value)]
    {
      fields := fields[name := value];
      written := written + [FieldValue(name, value)];
    }
  }

  /**
    Fills `form` from the caller's pairs. On a collision nothing is written and
    the error is returned; otherwise `SetField` is called once per translated
    key with that key's value, in the input's order, and the new field map is
    that of `Fill`.
  */
  method FillForm(form: AcroFields, fields: seq<FieldValue>) returns (outcome: Outcome<FillError>)
    modifies form
    ensures outcome.Pass? <==> Fill(old(form.fields), fields).Success?
    ensures outcome.Fail? ==> Fill(old(form.fields), fields) == Failure(outcome.error)
    ensures outcome.Fail? ==> form.fields == old(form.fields) && form.written == old(form.written)
    ensures outcome.Pass? ==> form.fields == Fill(old(form.fields), fields).value
    ensures outcome.Pass? ==> form.written == old(form.written) + TranslateNames(fields)
  {
    var prepared := PrepareFields(fields);
    if prepared.Failure? {
      return Fail(prepared.error);
    }
    var toFill := prepared.value;
    assert toFill == TranslateNames(fields);
    for i := 0 to |toFill|
      invariant form.fields == Apply(old(form.fields), toFill[..i])
      invariant form.written == old(form.written) + toFill[..i]
    {
      assert toFill[..i + 1][..i] == toFill[..i];
      assert toFill[..i + 1] == toFill[..i] + [toFill[i]];
      form.SetField(toFill[i].name, toFill[i].value);
    }
    assert toFill[..|toFill|] == toFill;
    outcome := Pass;
  }

  // ---------------------------------------------------------------------
  // GetFormFields: collect, group ignoring case, look up, sort
  // ---------------------------------------------------------------------

  /** Metadata of one form field, as the engine reports it. */
  datatype PdfField = PdfField(name: string, fieldTypeId: int, value: string)

  /** One entry of the returned dictionary. */
  datatype Entry = Entry(key: string, field: PdfField)

  /** `x` occurs in `names`, and no earlier name is the same as `x` ignoring case. */
  ghost predicate FirstSeen(names: seq<string>, x: string) {
    exists p :: 0 <= p < |names| && names[p] == x && forall q :: 0 <= q < p ==> !Same(names[q], x)
  }

  /**
    The group keys of grouping `names` ignoring case: a name is kept when no
    earlier name is the same as it ignoring case.
  */
  function Representatives(names: seq<string>): (reps: seq<string>)
    ensures |reps| <= |names|
    decreases |names|
  {
    if |names| == 0 then []
    else
      var reps := Representatives(names[..|names| - 1]);
      var x := names[|names| - 1];
      if exists k :: 0 <= k < |reps| && Same(reps[k], x) then reps else reps + [x]
  }

  /** Every name in `names` is the same, ignoring case, as some name in `reps`. */
  ghost predicate Covers(reps: seq<string>, names: seq<string>) {
    forall p :: 0 <= p < |names| ==> exists k :: 0 <= k < |reps| && Same(reps[k], names[p])
  }

  /** Every enumerated name is the same, ignoring case, as some representative. */
  lemma {:induction false} RepresentativesCover(names: seq<string>)
    ensures Covers(Representatives(names), names)
    decreases |names|
  {
    if |names| > 0 {
      var init := names[..|names| - 1];
      var x := names[|names| - 1];
      var reps := Representatives(init);
      var r := Representatives(names);
      RepresentativesCover(init);
      assert forall k :: 0 <= k < |reps| ==> r[k] == reps[k];
      assert exists k :: 0 <= k < |r| && Same(r[k], x) by {
        if exists k :: 0 <= k < |reps| && Same(reps[k], x) {
          var k :| 0 <= k < |reps| && Same(reps[k], x);
          assert r[k] == reps[k];
        } else {
          assert r == reps + [x];
          assert r[|reps|] == x;
        }
      }
      forall p | 0 <= p < |names| ensures exists k :: 0 <= k < |r| && Same(r[k], names[p]) {
        if p < |init| {
          assert names[p] == init[p];
          var k :| 0 <= k < |reps| && Same(reps[k], init[p]);
          assert Same(r[k], names[p]);
        } else {
          assert names[p] == x;
        }
      }
    }
  }

  /** No two representatives are the same ignoring case. */
  lemma {:induction false} RepresentativesDistinct(names: seq<string>)
    ensures DistinctIgnoringCase(Representatives(names))
    decreases |names|
  {
    if |names| > 0 {
      var init := names[..|names| - 1];
      var x := names[|names| - 1];
      var reps := Representatives(init);
      RepresentativesDistinct(init);
      if !exists k :: 0 <= k < |reps| && Same(reps[k], x) {
        var r := reps + [x];
        forall k, l | 0 <= k < l < |r| ensures !Same(r[k], r[l]) {
          assert r[k] == reps[k];
          if l < |reps| {
            assert r[l] == reps[l];
          }
        }
      }
    }
  }

  lemma FirstSeenExtends(init: seq<string>, x: string, y: string)
    requires FirstSeen(init, y)
    ensures FirstSeen(init + [x], y)
  {
    var names := init + [x];
    var p :| 0 <= p < |init| && init[p] == y && forall q :: 0 <= q < p ==> !Same(init[q], y);
    assert names[p] == y;
    forall q | 0 <= q < p ensures !Same(names[q], y) {
      assert names[q] == init[q];
    }
  }

  /** A name that is the same as none of the names covering `init` is first seen at the end of `init + [x]`. */
  lemma FirstSeenAtEnd(init: seq<string>, reps: seq<string>, x: string)
    requires Covers(reps, init)
    requires forall l :: 0 <= l < |reps| ==> !Same(reps[l], x)
    ensures FirstSeen(init + [x], x)
  {
    var names := init + [x];
    forall q | 0 <= q < |init| ensures !Same(names[q], x) {
      assert names[q] == init[q];
      var l :| 0 <= l < |reps| && Same(reps[l], init[q]);
    }
    assert names[|init|] == x;
  }

  ghost predicate AllFirstSeen(reps: seq<string>, names: seq<string>) {
    forall k :: 0 <= k < |reps| ==> FirstSeen(names, reps[k])
  }

  lemma AllFirstSeenExtends(reps: seq<string>, init: seq<string>, x: string)
    requires AllFirstSeen(reps, init)
    ensures AllFirstSeen(reps, init + [x])
  {
    forall k | 0 <= k < |reps| ensures FirstSeen(init + [x], reps[k]) {
      FirstSeenExtends(init, x, reps[k]);
    }
  }

  lemma AllFirstSeenAppend(reps: seq<string>, names: seq<string>, x: string)
    requires AllFirstSeen(reps, names) && FirstSeen(names, x)
    ensures AllFirstSeen(reps + [x], names)
  {
    var r := reps + [x];
    forall k | 0 <= k < |r| ensures FirstSeen(names, r[k]) {
      if k < |reps| {
        assert r[k] == reps[k];
      }
    }
  }

  /** A name unlike every representative of `init` joins them as first seen in `init + [x]`. */
  lemma AllFirstSeenNew(reps: seq<string>, init: seq<string>, x: string)
    requires AllFirstSeen(reps, init) && Covers(reps, init)
    requires forall l :: 0 <= l < |reps| ==> !Same(reps[l], x)
    ensures AllFirstSeen(reps + [x], init + [x])
  {
    AllFirstSeenExtends(reps, init, x);
    FirstSeenAtEnd(init, reps, x);
    AllFirstSeenAppend(reps, init + [x], x);
  }

  /** Each representative is the first spelling of its class in the enumerated names. */
  lemma {:induction false} RepresentativesFirstSeen(names: seq<string>)
    ensures AllFirstSeen(Representatives(names), names)
    decreases |names|
  {
    if |names| > 0 {
      var init := names[..|names| - 1];
      var x := names[|names| - 1];
      var reps := Representatives(init);
      assert names == init + [x];
      RepresentativesFirstSeen(init);
      if exists l :: 0 <= l < |reps| && Same(reps[l], x) {
        assert Representatives(names) == reps;
        AllFirstSeenExtends(reps, init, x);
      } else {
        assert Representatives(names) == reps + [x];
        RepresentativesCover(init);
        AllFirstSeenNew(reps, init, x);
      }
    }
  }

  /** The entry for a representative: its own spelling as key and name, and the engine's lookups. */
  function Describe(reps: seq<string>, fieldType: string -> int, fieldValue: string -> string): (r: seq<Entry>)
    ensures |r| == |reps|
    ensures forall k :: 0 <= k < |reps| ==>
      r[k].key == reps[k] && r[k].field == PdfField(r[k].key, fieldType(r[k].key), fieldValue(r[k].key))
  {
    seq(|reps|, k requires 0 <= k < |reps| =>
      Entry(reps[k], PdfField(reps[k], fieldType(reps[k]), fieldValue(reps[k]))))
  }

  function EntryKeys(entries: seq<Entry>): seq<string> {
    seq(|entries|, k requires 0 <= k < |entries| => entries[k].key)
  }

  /** Ascending adjacent keys under the case-insensitive order. */
  ghost predicate Ascending(s: seq<Entry>) {
    forall k :: 0 <= k < |s| - 1 ==> Less(s[k].key, s[k + 1].key)
  }

  /** Every pair of keys in order under the case-insensitive order. */
  ghost predicate StrictlyAscending(s: seq<Entry>) {
    forall k, l :: 0 <= k < l < |s| ==> Less(s[k].key, s[l].key)
  }

  /** Inserts one entry into a sorted sequence of entries before the first larger key. */
  function Insert(e: Entry, sorted: seq<Entry>): (r: seq<Entry>)
    ensures multiset(r) == multiset(sorted) + multiset{e}
    decreases |sorted|
  {
    if |sorted| == 0 then [e]
    else if Less(e.key, sorted[0].key) then [e] + sorted
    else
      assert sorted == [sorted[0]] + sorted[1..];
      [sorted[0]] + Insert(e, sorted[1..])
  }

  /** The sorted dictionary's iteration order: the entries sorted by key. */
  function SortByKey(entries: seq<Entry>): (r: seq<Entry>)
    ensures multiset(r) == multiset(entries)
    decreases |entries|
  {
    if |entries| == 0 then []
    else
      assert entries == [entries[0]] + entries[1..];
      Insert(entries[0], SortByKey(entries[1..]))
  }

  lemma {:induction false} InsertSpec(e: Entry, sorted: seq<Entry>)
    requires Ascending(sorted)
    requires forall k :: 0 <= k < |sorted| ==> !Same(e.key, sorted[k].key)
    ensures Ascending(Insert(e, sorted))
    ensures Insert(e, sorted)[0] == e || Insert(e, sorted)[0] == sorted[0]
    decreases |sorted|
  {
    if |sorted| > 0 && !Less(e.key, sorted[0].key) {
      var rest := sorted[1..];
      assert sorted == [sorted[0]] + rest;
      InsertSpec(e, rest);
      LessTotal(e.key, sorted[0].key);
      var ins := Insert(e, rest);
      assert Less(sorted[0].key, ins[0].key);
    }
  }

  lemma {:induction false} SortByKeySpec(entries: seq<Entry>)
    requires DistinctIgnoringCase(EntryKeys(entries))
    ensures Ascending(SortByKey(entries))
    decreases |entries|
  {
    if |entries| > 0 {
      var rest := entries[1..];
      assert EntryKeys(rest) == EntryKeys(entries)[1..];
      SortByKeySpec(rest);
      var sorted := SortByKey(rest);
      forall k | 0 <= k < |sorted| ensures !Same(entries[0].key, sorted[k].key) {
        assert sorted[k] in multiset(rest);
        var l :| 0 <= l < |rest| && rest[l] == sorted[k];
        assert EntryKeys(entries)[0] == entries[0].key && EntryKeys(entries)[l + 1] == sorted[k].key;
      }
      InsertSpec(entries[0], sorted);
    }
  }

  lemma {:induction false} AscendingIsStrict(s: seq<Entry>)
    requires Ascending(s)
    ensures StrictlyAscending(s)
    decreases |s|
  {
    if |s| > 1 {
      var rest := s[1..];
      AscendingIsStrict(rest);
      forall l | 1 < l < |s| ensures Less(s[0].key, s[l].key) {
        assert rest[l - 1] == s[l] && rest[0] == s[1];
        LessTransitive(s[0].key, s[1].key, s[l].key);
      }
    }
  }

  /**
    GetFormFields on the engine's enumerated names and lookups, as a value: the
    described group keys, rearranged into strictly ascending order, so no two
    keys are the same ignoring case.
  */
  function FieldTable(names: seq<string>, fieldType: string -> int, fieldValue: string -> string): (r: seq<Entry>)
    ensures multiset(r) == multiset(Describe(Representatives(names), fieldType, fieldValue))
    ensures StrictlyAscending(r)
    ensures DistinctIgnoringCase(EntryKeys(r))
  {
    var described := Describe(Representatives(names), fieldType, fieldValue);
    RepresentativesDistinct(names);
    assert EntryKeys(described) == Representatives(names);
    SortByKeySpec(described);
    AscendingIsStrict(SortByKey(described));
    var r := SortByKey(described);
    assert DistinctIgnoringCase(EntryKeys(r)) by {
      forall k, l | 0 <= k < l < |r| ensures !Same(EntryKeys(r)[k], EntryKeys(r)[l]) {
        assert Less(r[k].key, r[l].key);
      }
    }
    r
  }

  /**
    Each entry's key and name are the first-seen spelling of its class in the
    enumerated names, and its type id and value are the lookups of that name.
  */
  lemma GetFormFieldsFirstSeen(names: seq<string>, fieldType: string -> int, fieldValue: string -> string)
    ensures forall k :: 0 <= k < |FieldTable(names, fieldType, fieldValue)| ==>
      var e := FieldTable(names, fieldType, fieldValue)[k];
      && FirstSeen(names, e.key)
      && e.field == PdfField(e.key, fieldType(e.key), fieldValue(e.key))
  {
    var reps := Representatives(names);
    var described := Describe(reps, fieldType, fieldValue);
    var table := FieldTable(names, fieldType, fieldValue);
    RepresentativesFirstSeen(names);
    forall k | 0 <= k < |table|
      ensures FirstSeen(names, table[k].key)
      ensures table[k].field == PdfField(table[k].key, fieldType(table[k].key), fieldValue(table[k].key))
    {
      assert table[k] in multiset(described);
      var l :| 0 <= l < |described| && described[l] == table[k];
      assert described[l].key == reps[l];
    }
  }

  /** Exactly one entry's key is the same as `x` ignoring case. */
  ghost predicate OneEntryFor(entries: seq<Entry>, x: string) {
    exists k :: 0 <= k < |entries| && Same(entries[k].key, x) && NoOtherEntryFor(entries, k, x)
  }

  ghost predicate NoOtherEntryFor(entries: seq<Entry>, k: nat, x: string) {
    forall l :: 0 <= l < |entries| && l != k ==> !Same(entries[l].key, x)
  }

  /** In entries whose keys are distinct ignoring case, an entry matching `x` is the only one. */
  lemma OnlyEntryFor(entries: seq<Entry>, k: nat, x: string)
    requires DistinctIgnoringCase(EntryKeys(entries))
    requires k < |entries| && Same(entries[k].key, x)
    ensures NoOtherEntryFor(entries, k, x)
  {
    forall l | 0 <= l < |entries| && l != k ensures !Same(entries[l].key, x) {
      if l < k {
        assert !Same(EntryKeys(entries)[l], EntryKeys(entries)[k]);
      } else {
        assert !Same(EntryKeys(entries)[k], EntryKeys(entries)[l]);
      }
    }
  }

  /**
    The table has exactly one entry per case-insensitive class of the
    enumerated names (and, by GetFormFieldsFirstSeen, every key is one of them).
  */
  lemma GetFormFieldsOnePerClass(names: seq<string>, fieldType: string -> int, fieldValue: string -> string)
    ensures forall p :: 0 <= p < |names| ==> OneEntryFor(FieldTable(names, fieldType, fieldValue), names[p])
  {
    var reps := Representatives(names);
    var described := Describe(reps, fieldType, fieldValue);
    var table := FieldTable(names, fieldType, fieldValue);
    RepresentativesCover(names);
    forall p | 0 <= p < |names| ensures OneEntryFor(table, names[p]) {
      var i :| 0 <= i < |reps| && Same(reps[i], names[p]);
      assert described[i] in multiset(table);
      var k :| 0 <= k < |table| && table[k] == described[i];
      OnlyEntryFor(table, k, names[p]);
    }
  }

  /**
    Reads the form's fields: collects the enumerated names into a list, then
    groups, looks up and sorts them.
  */
  method GetFormFields(enumerated: seq<string>, fieldType: string -> int, fieldValue: string -> string)
    returns (result: seq<Entry>)
    ensures result == FieldTable(enumerated, fieldType, fieldValue)
    ensures enumerated == [] ==> result == []
  {
    var keys: seq<string> := [];
    for i := 0 to |enumerated|
      invariant keys == enumerated[..i]
    {
      keys := keys + [enumerated[i]];
    }
    assert keys == enumerated;
    result := SortByKey(Describe(Representatives(keys), fieldType, fieldValue));
  }

  lemma ExampleFolds()
    ensures Fold("zeta") == "zeta" && Fold("Alpha") == "alpha" && Fold("alpha") == "alpha"
  {
  }

  lemma ExampleRepresentatives()
    ensures Representatives(["zeta", "Alpha", "alpha"]) == ["zeta", "Alpha"]
  {
    var two, names := ["zeta", "Alpha"], ["zeta", "Alpha", "alpha"];
    ExampleFirstTwo();
    assert names[..2] == two;
    ExampleFolds();
    assert Same(two[1], names[2]);
  }

  lemma ExampleFirstTwo()
    ensures Representatives(["zeta", "Alpha"]) == ["zeta", "Alpha"]
  {
    var one, two := ["zeta"], ["zeta", "Alpha"];
    assert one[..0] == [];
    assert Representatives(one) == one;
    assert two[..1] == one;
    ExampleFolds();
    assert !Same(one[0], two[1]);
  }

  lemma ExampleSort(ezeta: Entry, ealpha: Entry)
    requires ezeta.key == "zeta" && ealpha.key == "Alpha"
    ensures SortByKey([ezeta, ealpha]) == [ealpha, ezeta]
  {
    assert Fold("zeta") == "zeta" && Fold("Alpha") == "alpha";
    assert Less("Alpha", "zeta") && !Less("zeta", "Alpha");
    assert [ezeta, ealpha][1..] == [ealpha] && [ealpha][1..] == [];
    assert SortByKey([ealpha]) == [ealpha];
    assert Insert(ezeta, []) == [ezeta];
    assert Insert(ezeta, [ealpha]) == [ealpha] + Insert(ezeta, []);
  }

  /** Enumerating "zeta", "Alpha", "alpha" yields the keys "Alpha" then "zeta". */
  lemma GetFormFieldsExample(fieldType: string -> int, fieldValue: string -> string)
    ensures |FieldTable(["zeta", "Alpha", "alpha"], fieldType, fieldValue)| == 2
    ensures FieldTable(["zeta", "Alpha", "alpha"], fieldType, fieldValue)[0].key == "Alpha"
    ensures FieldTable(["zeta", "Alpha", "alpha"], fieldType, fieldValue)[1].key == "zeta"
  {
    ExampleRepresentatives();
    var described := Describe(["zeta", "Alpha"], fieldType, fieldValue);
    assert FieldTable(["zeta", "Alpha", "alpha"], fieldType, fieldValue) == SortByKey(described);
    assert described == [described[0], described[1]];
    ExampleSort(described[0], described[1]);
    assert SortByKey(described) == [described[1], described[0]];
  }
}
