/** Turning a submitted form into a label record: `dict(parse_qsl(...))` and
    the checkbox coercion loop of `save` (main.py:107-111). */
module Submission {
  import opened Schema

  /** A parsed form body: `parse_qsl(body, keep_blank_values=True)` as
      (name, value) pairs in body order. */
  type Pairs = seq<(string, string)>

  /** No later pair has the same name as pair `i`. */
  predicate LastOccurrence(pairs: Pairs, i: int)
    requires 0 <= i < |pairs|
  {
    forall j :: i < j < |pairs| ==> pairs[j].0 != pairs[i].0
  }

  function Names(pairs: Pairs): set<string>
  {
    set i | 0 <= i < |pairs| :: pairs[i].0
  }

  lemma NamesSnoc(pairs: Pairs)
    requires pairs != []
    ensures Names(pairs) == Names(pairs[..|pairs| - 1]) + {pairs[|pairs| - 1].0}
  {
    var init := pairs[..|pairs| - 1];
    forall k | k in Names(pairs) ensures k in Names(init) + {pairs[|pairs| - 1].0} {
      var i :| 0 <= i < |pairs| && pairs[i].0 == k;
      if i < |init| { assert init[i] == pairs[i]; }
    }
    forall k | k in Names(init) ensures k in Names(pairs) {
      var i :| 0 <= i < |init| && init[i].0 == k;
      assert pairs[i] == init[i];
    }
  }

  /** `m` is what `dict(pairs)` gives: every name once, with the value of its last occurrence. */
  predicate IsDictOf(m: Record, pairs: Pairs)
  {
    && m.Keys == Names(pairs)
    && (forall i :: 0 <= i < |pairs| && LastOccurrence(pairs, i) ==> m[pairs[i].0] == Str(pairs[i].1))
    && (forall k :: k in m ==> m[k].Str?)
  }

  /** A last occurrence before the final pair is a last occurrence among the
      earlier pairs, under a different name from the final pair's. */
  lemma LastOccurrenceInit(pairs: Pairs, i: nat)
    requires i < |pairs| - 1 && LastOccurrence(pairs, i)
    ensures LastOccurrence(pairs[..|pairs| - 1], i)
    ensures pairs[|pairs| - 1].0 != pairs[i].0
  {
    var init := pairs[..|pairs| - 1];
    forall j | i < j < |init| ensures init[j].0 != init[i].0 {
      assert init[j] == pairs[j] && init[i] == pairs[i];
    }
  }

  /** Assigning the last pair over the dictionary of the pairs before it gives
      the dictionary of all of them. */
  lemma DictSnoc(prev: Record, pairs: Pairs)
    requires pairs != [] && IsDictOf(prev, pairs[..|pairs| - 1])
    ensures IsDictOf(prev[pairs[|pairs| - 1].0 := Str(pairs[|pairs| - 1].1)], pairs)
  {
    var init, last := pairs[..|pairs| - 1], pairs[|pairs| - 1];
    var r := prev[last.0 := Str(last.1)];
    NamesSnoc(pairs);
    assert r.Keys == Names(pairs);
    forall i | 0 <= i < |pairs| && LastOccurrence(pairs, i)
      ensures pairs[i].0 in r && r[pairs[i].0] == Str(pairs[i].1)
    {
      if i < |init| {
        LastOccurrenceInit(pairs, i);
        assert init[i] == pairs[i];
        assert prev[init[i].0] == Str(init[i].1);
      }
    }
    forall k | k in r
      ensures r[k].Str?
    {
    }
  }

  /** `dict(pairs)`: one entry per submitted name, holding the value of its
      last occurrence; blank values are kept as "". */
  function DictFromPairs(pairs: Pairs): (r: Record)
    ensures IsDictOf(r, pairs)
    decreases |pairs|
  {
    if pairs == [] then map[]
    else
      var prev := DictFromPairs(pairs[..|pairs| - 1]);
      DictSnoc(prev, pairs);
      prev[pairs[|pairs| - 1].0 := Str(pairs[|pairs| - 1].1)]
  }

  /** One iteration of the coercion loop: a checkbox field's entry becomes
      whether its name is (at that moment) a key of the record. */
  function CoerceStep(key: Field, data: Record): Record
  {
    if IsCheckbox(key) then data[key.name := Bool(key.name in data)] else data
  }

  /** The record after the loop has run over `keys` in order. */
  function Coerce(keys: seq<Field>, data: Record): Record
    decreases |keys|
  {
    if keys == [] then data
    else CoerceStep(keys[|keys| - 1], Coerce(keys[..|keys| - 1], data))
  }

  /** Two checkbox descriptors share the name `n`. */
  predicate DuplicateCheckbox(keys: seq<Field>, n: string)
  {
    exists i, j :: 0 <= i < j < |keys| && IsCheckbox(keys[i]) && IsCheckbox(keys[j])
                   && keys[i].name == n && keys[j].name == n
  }

  lemma CheckboxNamesSnoc(keys: seq<Field>)
    requires keys != []
    ensures var key := keys[|keys| - 1];
      CheckboxNames(keys) == CheckboxNames(keys[..|keys| - 1]) + (if IsCheckbox(key) then {key.name} else {})
  {
    var init := keys[..|keys| - 1];
    assert forall i :: 0 <= i < |init| ==> init[i] == keys[i];
  }

  /** The loop adds exactly the checkbox names to the record's keys. */
  lemma {:induction false} CoerceKeys(keys: seq<Field>, data: Record)
    ensures Coerce(keys, data).Keys == data.Keys + CheckboxNames(keys)
    decreases |keys|
  {
    if keys != [] {
      CoerceKeys(keys[..|keys| - 1], data);
      CheckboxNamesSnoc(keys);
    }
  }

  /** Entries whose name is not a checkbox keep their submitted value. */
  lemma {:induction false} CoerceKeepsOthers(keys: seq<Field>, data: Record)
    ensures forall k :: k in data && k !in CheckboxNames(keys) ==> k in Coerce(keys, data) && Coerce(keys, data)[k] == data[k]
    decreases |keys|
  {
    if keys != [] {
      CoerceKeepsOthers(keys[..|keys| - 1], data);
      CheckboxNamesSnoc(keys);
    }
  }

  /** A pair of checkbox fields named `n` in `keys` lies within its first
      fields or ends with its last one. */
  lemma DuplicateSnocSplits(keys: seq<Field>, n: string)
    requires keys != [] && DuplicateCheckbox(keys, n)
    ensures var init, key := keys[..|keys| - 1], keys[|keys| - 1];
      DuplicateCheckbox(init, n) || (IsCheckbox(key) && key.name == n && n in CheckboxNames(init))
  {
    var init := keys[..|keys| - 1];
    var i, j :| 0 <= i < j < |keys| && IsCheckbox(keys[i]) && IsCheckbox(keys[j])
                && keys[i].name == n && keys[j].name == n;
    assert init[i] == keys[i];
    if j < |init| {
      assert init[j] == keys[j];
    }
  }

  lemma DuplicateSnocInit(keys: seq<Field>, n: string)
    requires keys != [] && DuplicateCheckbox(keys[..|keys| - 1], n)
    ensures DuplicateCheckbox(keys, n)
  {
    var init := keys[..|keys| - 1];
    var i, j :| 0 <= i < j < |init| && IsCheckbox(init[i]) && IsCheckbox(init[j])
                && init[i].name == n && init[j].name == n;
    assert keys[i] == init[i] && keys[j] == init[j];
  }

  lemma DuplicateSnocLast(keys: seq<Field>, n: string)
    requires keys != [] && IsCheckbox(keys[|keys| - 1]) && keys[|keys| - 1].name == n
    requires n in CheckboxNames(keys[..|keys| - 1])
    ensures DuplicateCheckbox(keys, n)
  {
    var init := keys[..|keys| - 1];
    var i :| 0 <= i < |init| && IsCheckbox(init[i]) && init[i].name == n;
    assert keys[i] == init[i];
  }

  lemma DuplicateSnoc(keys: seq<Field>, n: string)
    requires keys != []
    ensures var init, key := keys[..|keys| - 1], keys[|keys| - 1];
      DuplicateCheckbox(keys, n)
      <==> DuplicateCheckbox(init, n) || (IsCheckbox(key) && key.name == n && n in CheckboxNames(init))
  {
    var init, key := keys[..|keys| - 1], keys[|keys| - 1];
    if DuplicateCheckbox(keys, n) {
      DuplicateSnocSplits(keys, n);
    }
    if DuplicateCheckbox(init, n) {
      DuplicateSnocInit(keys, n);
    }
    if IsCheckbox(key) && key.name == n && n in CheckboxNames(init) {
      DuplicateSnocLast(keys, n);
    }
  }

  /** Each checkbox ends holding whether its name was submitted; because the
      loop tests membership in the record it is updating, a checkbox name
      declared twice always ends `true`. */
  lemma {:induction false} CoerceCheckboxValue(keys: seq<Field>, data: Record)
    ensures forall n :: n in CheckboxNames(keys) ==>
      n in Coerce(keys, data) && Coerce(keys, data)[n] == Bool(n in data || DuplicateCheckbox(keys, n))
    decreases |keys|
  {
    if keys != [] {
      var init, key := keys[..|keys| - 1], keys[|keys| - 1];
      CoerceCheckboxValue(init, data);
      CoerceKeys(init, data);
      CheckboxNamesSnoc(keys);
      forall n | n in CheckboxNames(keys)
        ensures n in Coerce(keys, data) && Coerce(keys, data)[n] == Bool(n in data || DuplicateCheckbox(keys, n))
      {
        DuplicateSnoc(keys, n);
      }
    }
  }

  /** With unique field names, every checkbox holds `true` exactly when its
      name was submitted (with any value, even an empty one). */
  lemma CheckboxIsPresence(keys: seq<Field>, data: Record)
    requires UniqueNames(keys)
    ensures forall n :: n in CheckboxNames(keys) ==> n in Coerce(keys, data) && Coerce(keys, data)[n] == Bool(n in data)
  {
    CoerceCheckboxValue(keys, data);
  }

  /** A checkbox name declared twice ends `true` whatever was submitted. */
  lemma DuplicateCheckboxIsTrue(keys: seq<Field>, data: Record, n: string)
    requires DuplicateCheckbox(keys, n)
    ensures n in Coerce(keys, data) && Coerce(keys, data)[n] == Bool(true)
  {
    CoerceCheckboxValue(keys, data);
    var i, j :| 0 <= i < j < |keys| && IsCheckbox(keys[i]) && IsCheckbox(keys[j])
                && keys[i].name == n && keys[j].name == n;
    assert n in CheckboxNames(keys);
  }

  /** The coercion loop of `save`, updating the record in place field by field. */
  method CoerceCheckboxes(keys: seq<Field>, submitted: Record) returns (data: Record)
    ensures data == Coerce(keys, submitted)
    ensures data.Keys == submitted.Keys + CheckboxNames(keys)
    ensures forall k :: k in submitted && k !in CheckboxNames(keys) ==> data[k] == submitted[k]
    ensures UniqueNames(keys) ==>
      forall n :: n in CheckboxNames(keys) ==> data[n] == Bool(n in submitted)
  {
    data := submitted;
    var i := 0;
    while i < |keys|
      invariant 0 <= i <= |keys|
      invariant data == Coerce(keys[..i], submitted)
    {
      var key := keys[i];
      if Kind(key) == "checkbox" {
        data := data[key.name := Bool(key.name in data)];
      }
      assert keys[..i + 1][..i] == keys[..i];
      i := i + 1;
    }
    assert keys[..|keys|] == keys;
    CoerceKeys(keys, submitted);
    CoerceKeepsOthers(keys, submitted);
    if UniqueNames(keys) {
      CheckboxIsPresence(keys, submitted);
    }
  }

  /** The record `save` stores for a submission. */
  function SubmittedRecord(keys: seq<Field>, pairs: Pairs): Record
  {
    Coerce(keys, DictFromPairs(pairs))
  }

  /** A stored record holds, for every checkbox (names unique), whether its
      name occurs in the body; for every other submitted name, the string of
      its last occurrence; and nothing else. */
  lemma SubmittedRecordFields(keys: seq<Field>, pairs: Pairs)
    requires UniqueNames(keys)
    ensures SubmittedRecord(keys, pairs).Keys == Names(pairs) + CheckboxNames(keys)
    ensures forall n :: n in CheckboxNames(keys) ==>
      SubmittedRecord(keys, pairs)[n] == Bool(n in Names(pairs))
    ensures forall i :: 0 <= i < |pairs| && LastOccurrence(pairs, i) && pairs[i].0 !in CheckboxNames(keys) ==>
      SubmittedRecord(keys, pairs)[pairs[i].0] == Str(pairs[i].1)
  {
    CoerceKeys(keys, DictFromPairs(pairs));
    CoerceKeepsOthers(keys, DictFromPairs(pairs));
    CheckboxIsPresence(keys, DictFromPairs(pairs));
  }

  /** The two-field schema of the examples below: a caption and a flag. */
  const CaptionAndFlag: seq<Field> :=
    [Field("caption", Some("str"), None, None), Field("flag", Some("checkbox"), None, None)]

  /** `caption=hello&flag=on` is stored as `{"caption": "hello", "flag": true}`. */
  lemma CheckedFlagExample()
    ensures SubmittedRecord(CaptionAndFlag, [("caption", "hello"), ("flag", "on")])
         == map["caption" := Str("hello"), "flag" := Bool(true)]
  {
    var pairs := [("caption", "hello"), ("flag", "on")];
    assert pairs[..1] == [("caption", "hello")];
    assert pairs[..1][..0] == [];
    var d := DictFromPairs(pairs);
    assert d == map["caption" := Str("hello"), "flag" := Str("on")];
    assert CaptionAndFlag[..1] == [CaptionAndFlag[0]];
    assert CaptionAndFlag[..1][..0] == [];
    assert Coerce(CaptionAndFlag[..1], d) == d;
  }

  /** `caption=` is stored as `{"caption": "", "flag": false}`. */
  lemma MissingFlagExample()
    ensures SubmittedRecord(CaptionAndFlag, [("caption", "")])
         == map["caption" := Str(""), "flag" := Bool(false)]
  {
    var pairs := [("caption", "")];
    assert pairs[..0] == [];
    var d := DictFromPairs(pairs);
    assert d == map["caption" := Str("")];
    assert CaptionAndFlag[..1] == [CaptionAndFlag[0]];
    assert CaptionAndFlag[..1][..0] == [];
    assert Coerce(CaptionAndFlag[..1], d) == d;
  }
}
