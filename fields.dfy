/** `checks.checkFields`: validates one table's field list and derives the store's
    key path and the fields to index.

    The closed-form description is `NormalizeFields`; `CheckFields` is the
    source's single pass with its running `fieldNames`, `keyPath`, `keyPathField`
    and `configFields`, proved to compute it. */
module FieldChecks {
  import opened Wrappers
  import opened Sequences
  import opened Schema

  /** The field declares `keyPath: true`. */
  predicate Marked(f: Field) {
    f.keyPath == Some(true)
  }

  /** The index of the first field marked `keyPath: true`, or |fs| when none is. */
  function MarkIndex(fs: seq<Field>): (m: nat)
    ensures m <= |fs|
    ensures forall k :: 0 <= k < m ==> !Marked(fs[k])
    ensures m < |fs| ==> Marked(fs[m])
  {
    if fs == [] || Marked(fs[0]) then 0 else 1 + MarkIndex(fs[1..])
  }

  /** The name of the last field declaring `keyPath: false`, or the default key path. */
  function LastFalseKeyName(fs: seq<Field>): string {
    if fs == [] then DefaultKeyPath
    else
      var f := fs[|fs| - 1];
      if f.keyPath == Some(false) && f.name.Some? then f.name.value
      else LastFalseKeyName(fs[..|fs| - 1])
  }

  /** The fields not named `n`, in order. */
  function Without(fs: seq<Field>, n: string): seq<Field> {
    if fs == [] then []
    else
      var rest := Without(fs[..|fs| - 1], n);
      if fs[|fs| - 1].name == Some(n) then rest else rest + [fs[|fs| - 1]]
  }

  ghost predicate NameSeenBefore(fs: seq<Field>, j: nat)
    requires j < |fs|
  {
    exists k :: 0 <= k < j && fs[k].name == fs[j].name
  }

  ghost predicate MarkedBefore(fs: seq<Field>, j: nat)
    requires j <= |fs|
  {
    exists k :: 0 <= k < j && Marked(fs[k])
  }

  /** The error field `j` raises when every field before it passed. */
  ghost function FieldFault(fs: seq<Field>, j: nat, table: string): Option<SchemaError>
    requires j < |fs|
  {
    match fs[j].name
    case None => Some(FieldNameMissing(table))
    case Some(n) =>
      if NameSeenBefore(fs, j) then Some(DuplicateFieldName(n, table))
      else if Marked(fs[j]) && MarkedBefore(fs, j) then Some(MultipleKeyPaths(table))
      else None
  }

  /** The error of the first faulty field at index `j` or later. */
  ghost function FirstFieldFault(fs: seq<Field>, table: string, j: nat): Option<SchemaError>
    requires j <= |fs|
    decreases |fs| - j
  {
    if j == |fs| then None
    else if FieldFault(fs, j, table).Some? then FieldFault(fs, j, table)
    else FirstFieldFault(fs, table, j + 1)
  }

  /** A field list `checkFields` accepts. */
  ghost predicate WellFormedFields(fs: seq<Field>) {
    && (forall j :: 0 <= j < |fs| ==> fs[j].name.Some?)
    && (forall j, k :: 0 <= j < k < |fs| ==> fs[j].name != fs[k].name)
    && (forall j, k :: 0 <= j < k < |fs| && Marked(fs[j]) ==> !Marked(fs[k]))
  }

  /** What `checkFields(fs, table)` returns or throws, in closed form. The first
      faulty field decides the error. Otherwise the key path is the last
      `keyPath: false` name before the first `keyPath: true` field (or "id").
      With a marked field, every field before it is kept and, from it on, fields
      bearing the key path name are dropped; without one, the field bearing the
      key path name is dropped. */
  ghost function NormalizeFields(fs: seq<Field>, table: string): Result<FieldConfig, SchemaError> {
    match FirstFieldFault(fs, table, 0)
    case Some(e) => Failure(e)
    case None =>
      var m := MarkIndex(fs);
      var key := LastFalseKeyName(fs[..m]);
      if m < |fs| then Success(FieldConfig(fs[..m] + Without(fs[m..], key), key))
      else Success(FieldConfig(Without(fs, key), key))
  }

  /** `checks.checkFields`, step by step as the source does it. */
  method CheckFields(fields: seq<Field>, tableName: string) returns (r: Result<FieldConfig, SchemaError>)
    ensures r == NormalizeFields(fields, tableName)
  {
    var fieldNames: seq<string> := [];
    var keyPath := false;
    var keyPathField := DefaultKeyPath;
    var configFields: seq<Field> := [];
    var i := 0;
    while i < |fields|
      invariant 0 <= i <= |fields|
      invariant Scanned(fields, tableName, i, fieldNames, keyPath, keyPathField, configFields)
    {
      var thrown;
      thrown, fieldNames, keyPath, keyPathField, configFields :=
        VisitField(fields[i], tableName, fieldNames, keyPath, keyPathField, configFields, fields, i);
      if thrown.Some? {
        return Failure(thrown.value);
      }
      i := i + 1;
    }

    LoopExit(fields, tableName, fieldNames, keyPath, keyPathField, configFields);
    if !keyPath {
      var idIndex := IndexOf(fieldNames, keyPathField);
      if idIndex != -1 {
        configFields := configFields[..idIndex] + configFields[idIndex + 1..];
      }
    }
    return Success(FieldConfig(configFields, keyPathField));
  }

  /** The `forEach` callback of `checks.checkFields` on `fields[i]`, with the
      variables it closes over passed in and returned. `thrown` is what it throws:
      the fault of field `i`, which is then what `checkFields` throws. Otherwise
      the running variables advance to cover field `i`. */
  method VisitField(field: Field, tableName: string, fieldNames: seq<string>, keyPath: bool,
                    keyPathField: string, configFields: seq<Field>, ghost fields: seq<Field>, ghost i: nat)
    returns (thrown: Option<SchemaError>, fieldNames': seq<string>, keyPath': bool,
             keyPathField': string, configFields': seq<Field>)
    requires i < |fields| && field == fields[i]
    requires Scanned(fields, tableName, i, fieldNames, keyPath, keyPathField, configFields)
    ensures thrown == FieldFault(fields, i, tableName)
    ensures thrown.Some? ==> NormalizeFields(fields, tableName) == Failure(thrown.value)
    ensures thrown.None? ==> Scanned(fields, tableName, i + 1, fieldNames', keyPath', keyPathField', configFields')
  {
    FieldFaultAt(fields, i, tableName, fieldNames, keyPath, keyPathField, configFields);
    fieldNames', keyPath', keyPathField', configFields' := fieldNames, keyPath, keyPathField, configFields;
    if field.name.None? {
      return Some(FieldNameMissing(tableName)), fieldNames', keyPath', keyPathField', configFields';
    }
    var name := field.name.value;
    if IndexOf(fieldNames', name) != -1 {
      return Some(DuplicateFieldName(name, tableName)), fieldNames', keyPath', keyPathField', configFields';
    }
    fieldNames' := fieldNames' + [name];

    if field.keyPath.Some? {
      if field.keyPath.value && keyPath' {
        return Some(MultipleKeyPaths(tableName)), fieldNames', keyPath', keyPathField', configFields';
      }
      keyPath' := if keyPath' == true then keyPath' else field.keyPath.value;
      keyPathField' := if keyPath' == true then keyPathField' else name;
    }

    if !(keyPath' && keyPathField' == name) {
      configFields' := configFields' + [field];
    }
    RunningStateStep(fields, i, keyPath, keyPathField, configFields, keyPath', keyPathField', configFields');
    thrown := None;
  }

  /** The loop state of `CheckFields` after `i` fields: none of them was at fault,
      and the running variables are as `NamesSoFar` and `RunningState` say. */
  ghost predicate Scanned(fs: seq<Field>, table: string, i: nat, names: seq<string>,
                          keyPath: bool, key: string, config: seq<Field>)
    requires i <= |fs|
  {
    && FirstFieldFault(fs, table, 0) == FirstFieldFault(fs, table, i)
    && NamesSoFar(fs, i, names)
    && RunningState(fs, i, keyPath, key, config)
  }

  /** `fieldNames` after `i` fields: their names, in order, all distinct. */
  ghost predicate NamesSoFar(fs: seq<Field>, i: nat, names: seq<string>)
    requires i <= |fs|
  {
    && |names| == i
    && (forall k :: 0 <= k < i ==> fs[k].name == Some(names[k]))
    && (forall a, b :: 0 <= a < b < i ==> names[a] != names[b])
  }

  /** The checks `CheckFields` makes on field `i`, phrased on its running
      variables, are those of `FieldFault`; when they pass, `fieldNames` grows. */
  lemma FieldFaultAt(fs: seq<Field>, i: nat, table: string, names: seq<string>,
                     keyPath: bool, key: string, config: seq<Field>)
    requires i < |fs| && NamesSoFar(fs, i, names) && RunningState(fs, i, keyPath, key, config)
    ensures FieldFault(fs, i, table) ==
      match fs[i].name
      case None => Some(FieldNameMissing(table))
      case Some(n) =>
        if n in names then Some(DuplicateFieldName(n, table))
        else if Marked(fs[i]) && keyPath then Some(MultipleKeyPaths(table))
        else None
    ensures fs[i].name.Some? && fs[i].name.value !in names ==> NamesSoFar(fs, i + 1, names + [fs[i].name.value])
    ensures fs[i].name.Some? && fs[i].name.value !in names && !(Marked(fs[i]) && keyPath) ==>
      FirstFieldFault(fs, table, i) == FirstFieldFault(fs, table, i + 1)
  {
    if fs[i].name.Some? {
      var n := fs[i].name.value;
      if n in names {
        var k :| 0 <= k < i && names[k] == n;
        assert fs[k].name == fs[i].name;
      } else {
        assert !NameSeenBefore(fs, i) by {
          forall k | 0 <= k < i ensures fs[k].name != fs[i].name {
            assert names[k] != n;
          }
        }
      }
      if keyPath {
        assert Marked(fs[MarkIndex(fs)]);
      }
    }
  }

  /** When the loop of `CheckFields` has run over every field: no field was at
      fault, and the pushed fields together with the key path give the closed form,
      after the final splice when no field was marked. */
  lemma LoopExit(fs: seq<Field>, table: string, names: seq<string>, keyPath: bool, key: string, config: seq<Field>)
    requires Scanned(fs, table, |fs|, names, keyPath, key, config)
    ensures keyPath ==> NormalizeFields(fs, table) == Success(FieldConfig(config, key))
    ensures !keyPath ==> config == fs && IndexOf(names, key) < |fs|
    ensures !keyPath && IndexOf(names, key) == -1 ==> NormalizeFields(fs, table) == Success(FieldConfig(fs, key))
    ensures !keyPath && IndexOf(names, key) != -1 ==>
      var idx := IndexOf(names, key);
      NormalizeFields(fs, table) == Success(FieldConfig(fs[..idx] + fs[idx + 1..], key))
  {
    var m := MarkIndex(fs);
    assert fs[m..|fs|] == fs[m..] && fs[..|fs|] == fs;
    if !keyPath {
      var idx := IndexOf(names, key);
      if idx != -1 {
        forall k | 0 <= k < |fs| && k != idx ensures fs[k].name != Some(key) {
          if k < idx { assert names[k] != key; } else { assert names[idx] != names[k]; }
        }
        WithoutSingle(fs, key, idx);
      } else {
        WithoutNone(fs, key);
      }
    }
  }

  /** The running variables of `CheckFields` after `i` fields: `keyPath` says a
      marked field was seen, `keyPathField` is the last `keyPath: false` name before
      it, and `configFields` holds the fields pushed so far. */
  ghost predicate RunningState(fs: seq<Field>, i: nat, keyPath: bool, key: string, config: seq<Field>)
    requires i <= |fs|
  {
    RunningStateAt(fs, i, MarkIndex(fs), keyPath, key, config)
  }

  /** `RunningState` with the index `m` of the first marked field given. */
  ghost predicate RunningStateAt(fs: seq<Field>, i: nat, m: nat, keyPath: bool, key: string, config: seq<Field>)
    requires i <= |fs| && m <= |fs|
  {
    && (keyPath <==> m < i)
    && key == LastFalseKeyName(fs[..if m < i then m else i])
    && config == if m < i then fs[..m] + Without(fs[m..i], key) else fs[..i]
  }

  /** One pass of the loop body of `CheckFields` over a field that passes the checks. */
  lemma RunningStateStep(fs: seq<Field>, i: nat, keyPath: bool, key: string, config: seq<Field>,
                         keyPath': bool, key': string, config': seq<Field>)
    requires i < |fs| && fs[i].name.Some?
    requires RunningState(fs, i, keyPath, key, config)
    requires !(Marked(fs[i]) && keyPath)
    requires keyPath' == match fs[i].keyPath
      case Some(b) => if keyPath then keyPath else b
      case None => keyPath
    requires key' == match fs[i].keyPath
      case Some(_) => if keyPath' then key else fs[i].name.value
      case None => key
    requires config' == if !(keyPath' && key' == fs[i].name.value) then config + [fs[i]] else config
    ensures RunningState(fs, i + 1, keyPath', key', config')
  {
    var m := MarkIndex(fs);
    if m < i {
      StepAfterMark(fs, i, m, key, config);
    } else if m == i {
      StepAtMark(fs, i, key, config);
    } else {
      StepBeforeMark(fs, i, m, key, config);
    }
  }

  lemma StepAfterMark(fs: seq<Field>, i: nat, m: nat, key: string, config: seq<Field>)
    requires m < i < |fs|
    requires RunningStateAt(fs, i, m, true, key, config)
    ensures RunningStateAt(fs, i + 1, m, true, key, if fs[i].name == Some(key) then config else config + [fs[i]])
  {
    var s := fs[m..i + 1];
    assert s[..|s| - 1] == fs[m..i] && s[|s| - 1] == fs[i];
    var w := Without(fs[m..i], key);
    assert Without(s, key) == if fs[i].name == Some(key) then w else w + [fs[i]];
    assert fs[..m] + (w + [fs[i]]) == (fs[..m] + w) + [fs[i]];
  }

  lemma StepAtMark(fs: seq<Field>, i: nat, key: string, config: seq<Field>)
    requires i < |fs|
    requires RunningStateAt(fs, i, i, false, key, config)
    ensures RunningStateAt(fs, i + 1, i, true, key, if fs[i].name == Some(key) then config else config + [fs[i]])
  {
    assert fs[i..i + 1] == [fs[i]];
    assert [fs[i]][..0] == [];
  }

  lemma StepBeforeMark(fs: seq<Field>, i: nat, m: nat, key: string, config: seq<Field>)
    requires i < m <= |fs| && fs[i].name.Some?
    requires RunningStateAt(fs, i, m, false, key, config)
    ensures RunningStateAt(fs, i + 1, m, false, if fs[i].keyPath == Some(false) then fs[i].name.value else key,
                           config + [fs[i]])
  {
    assert fs[..i + 1][..i] == fs[..i];
    assert fs[..i + 1] == fs[..i] + [fs[i]];
  }

  /** Removing the one field named `n` is what splicing out its index does. */
  lemma {:induction false} WithoutSingle(fs: seq<Field>, n: string, idx: nat)
    requires idx < |fs| && fs[idx].name == Some(n)
    requires forall k :: 0 <= k < |fs| && k != idx ==> fs[k].name != Some(n)
    ensures Without(fs, n) == fs[..idx] + fs[idx + 1..]
  {
    var init := fs[..|fs| - 1];
    if idx == |fs| - 1 {
      WithoutNone(init, n);
    } else {
      WithoutSingle(init, n, idx);
      assert init[..idx] + init[idx + 1..] + [fs[|fs| - 1]] == fs[..idx] + fs[idx + 1..];
    }
  }

  /** With no field named `n`, nothing is removed. */
  lemma {:induction false} WithoutNone(fs: seq<Field>, n: string)
    requires forall k :: 0 <= k < |fs| ==> fs[k].name != Some(n)
    ensures Without(fs, n) == fs
  {
    if fs != [] {
      WithoutNone(fs[..|fs| - 1], n);
      assert fs[..|fs| - 1] + [fs[|fs| - 1]] == fs;
    }
  }
}

/** What `checkFields` promises, proved about its closed form `NormalizeFields`. */
module FieldProperties {
  import opened Wrappers
  import opened Sequences
  import opened Schema
  import opened FieldChecks

  lemma {:induction false} FirstFieldFaultNone(fs: seq<Field>, table: string, j: nat)
    requires j <= |fs|
    ensures FirstFieldFault(fs, table, j).None? <==>
            forall k :: j <= k < |fs| ==> FieldFault(fs, k, table).None?
    decreases |fs| - j
  {
    if j < |fs| {
      FirstFieldFaultNone(fs, table, j + 1);
    }
  }

  /** `checkFields` throws exactly when a field has no name, two fields share a
      name, or a second field is marked `keyPath: true`. */
  lemma NormalizeFieldsSucceedsIff(fs: seq<Field>, table: string)
    ensures NormalizeFields(fs, table).Success? <==> WellFormedFields(fs)
  {
    FirstFieldFaultNone(fs, table, 0);
    if WellFormedFields(fs) {
      forall k | 0 <= k < |fs| ensures FieldFault(fs, k, table).None? {
        assert !NameSeenBefore(fs, k);
        assert !(Marked(fs[k]) && MarkedBefore(fs, k));
      }
    } else if NormalizeFields(fs, table).Success? {
      forall j | 0 <= j < |fs| ensures fs[j].name.Some? {
        assert FieldFault(fs, j, table).None?;
      }
      forall j, k | 0 <= j < k < |fs| ensures fs[j].name != fs[k].name {
        assert FieldFault(fs, k, table).None?;
      }
      forall j, k | 0 <= j < k < |fs| && Marked(fs[j]) ensures !Marked(fs[k]) {
        assert FieldFault(fs, k, table).None?;
      }
      assert false;
    }
  }

  /** The failing field is the first one at fault: every field before it passed. */
  lemma {:induction false} FirstFieldFaultIsFirst(fs: seq<Field>, table: string, j: nat)
    requires j <= |fs| && FirstFieldFault(fs, table, j).Some?
    ensures exists i :: j <= i < |fs| && FieldFault(fs, i, table) == FirstFieldFault(fs, table, j) &&
                        forall k :: j <= k < i ==> FieldFault(fs, k, table).None?
    decreases |fs| - j
  {
    if FieldFault(fs, j, table).None? {
      FirstFieldFaultIsFirst(fs, table, j + 1);
    }
  }

  /** The error `checkFields` throws names the table, and its kind matches the first
      field at fault: unnamed, a repeated name, or a second `keyPath: true`. */
  lemma NormalizeFieldsFailure(fs: seq<Field>, table: string)
    requires NormalizeFields(fs, table).Failure?
    ensures exists i :: (
      && 0 <= i < |fs|
      && (forall k :: 0 <= k < i ==> FieldFault(fs, k, table).None?)
      && match NormalizeFields(fs, table).error
         case FieldNameMissing(t) => t == table && fs[i].name.None?
         case DuplicateFieldName(n, t) =>
           t == table && fs[i].name == Some(n) && exists k :: 0 <= k < i && fs[k].name == Some(n)
         case MultipleKeyPaths(t) =>
           t == table && Marked(fs[i]) && exists k :: 0 <= k < i && Marked(fs[k])
         case _ => false)
  {
    FirstFieldFaultIsFirst(fs, table, 0);
  }

  /** `LastFalseKeyName` is "id" when no field declares `keyPath: false`, and the
      name of the last field that does otherwise. */
  lemma {:induction false} LastFalseKeyNameIsLast(fs: seq<Field>)
    requires forall j :: 0 <= j < |fs| ==> fs[j].name.Some?
    ensures (forall k :: 0 <= k < |fs| ==> fs[k].keyPath != Some(false)) ==>
            LastFalseKeyName(fs) == DefaultKeyPath
    ensures (exists k :: 0 <= k < |fs| && fs[k].keyPath == Some(false)) ==>
            exists j :: 0 <= j < |fs| && fs[j].keyPath == Some(false) &&
                        fs[j].name == Some(LastFalseKeyName(fs)) &&
                        forall k :: j < k < |fs| ==> fs[k].keyPath != Some(false)
  {
    if fs != [] {
      var init := fs[..|fs| - 1];
      LastFalseKeyNameIsLast(init);
      if fs[|fs| - 1].keyPath != Some(false) {
        if exists k :: 0 <= k < |fs| && fs[k].keyPath == Some(false) {
          var k :| 0 <= k < |fs| && fs[k].keyPath == Some(false);
          assert init[k].keyPath == Some(false);
          var j :| 0 <= j < |init| && init[j].keyPath == Some(false) &&
                   init[j].name == Some(LastFalseKeyName(init)) &&
                   forall k :: j < k < |init| ==> init[k].keyPath != Some(false);
          assert fs[j] == init[j];
        }
      } else {
        assert fs[|fs| - 1].name == Some(LastFalseKeyName(fs));
      }
    }
  }

  lemma {:induction false} WithoutIsSelect(fs: seq<Field>, n: string)
    ensures Without(fs, n) == Select(fs, seq(|fs|, k requires 0 <= k < |fs| => fs[k].name != Some(n)))
  {
    if fs != [] {
      var init := fs[..|fs| - 1];
      WithoutIsSelect(init, n);
      assert seq(|fs|, k requires 0 <= k < |fs| => fs[k].name != Some(n))[..|fs| - 1] ==
             seq(|init|, k requires 0 <= k < |init| => init[k].name != Some(n));
    }
  }

  lemma WithoutIsSubsequence(fs: seq<Field>, n: string)
    ensures IsSubsequence(Without(fs, n), fs)
  {
    WithoutIsSelect(fs, n);
  }

  /** Every field that `checkFields` keeps comes from the input, in input order. */
  lemma NormalizedOtherIsSubsequence(fs: seq<Field>, table: string)
    requires NormalizeFields(fs, table).Success?
    ensures IsSubsequence(NormalizeFields(fs, table).value.other, fs)
  {
    var m := MarkIndex(fs);
    var key := LastFalseKeyName(fs[..m]);
    if m < |fs| {
      var mask := seq(|fs[m..]|, k requires 0 <= k < |fs[m..]| => fs[m..][k].name != Some(key));
      WithoutIsSelect(fs[m..], key);
      SelectAll(fs[..m]);
      SelectConcat(fs[..m], fs[m..], AllKept(m), mask);
      assert fs[..m] + fs[m..] == fs;
      assert NormalizeFields(fs, table).value.other == Select(fs, AllKept(m) + mask);
    } else {
      WithoutIsSubsequence(fs, key);
    }
  }

  /** Without a `keyPath: true` field: the key path is the last `keyPath: false`
      name (or "id"), the one field bearing it is dropped, and every other field
      stays, in order. */
  lemma UnmarkedNormalization(fs: seq<Field>, table: string)
    requires forall k :: 0 <= k < |fs| ==> !Marked(fs[k])
    requires NormalizeFields(fs, table).Success?
    ensures var c := NormalizeFields(fs, table).value;
      && c.keyPathField == LastFalseKeyName(fs)
      && (forall f :: f in c.other ==> f.name != Some(c.keyPathField))
      && (forall f :: f in fs && f.name != Some(c.keyPathField) ==> f in c.other)
      && IsSubsequence(c.other, fs)
      && |c.other| == if exists k :: 0 <= k < |fs| && fs[k].name == Some(c.keyPathField) then |fs| - 1 else |fs|
  {
    NormalizeFieldsSucceedsIff(fs, table);
    var key := LastFalseKeyName(fs);
    assert MarkIndex(fs) == |fs| && fs[..|fs|] == fs;
    var other := Without(fs, key);
    assert NormalizeFields(fs, table).value == FieldConfig(other, key);
    WithoutIsSubsequence(fs, key);
    WithoutKeeps(fs, key);
    if exists k :: 0 <= k < |fs| && fs[k].name == Some(key) {
      var k :| 0 <= k < |fs| && fs[k].name == Some(key);
      WithoutSingle(fs, key, k);
    } else {
      WithoutNone(fs, key);
    }
  }

  /** With a `keyPath: true` field at index m: the key path keeps its value from
      before m, every field before m is kept, and from m on only the fields bearing
      the key path name are dropped. The marked field itself never becomes the key
      path, unless it happens to be named "id". */
  lemma MarkedNormalization(fs: seq<Field>, table: string, m: nat)
    requires m < |fs| && Marked(fs[m]) && forall k :: 0 <= k < m ==> !Marked(fs[k])
    requires NormalizeFields(fs, table).Success?
    ensures var c := NormalizeFields(fs, table).value;
      && c.keyPathField == LastFalseKeyName(fs[..m])
      && c.other[..m] == fs[..m]
      && (forall k :: m <= k < |fs| && fs[k].name != Some(c.keyPathField) ==> fs[k] in c.other[m..])
      && (forall f :: f in c.other[m..] ==> f.name != Some(c.keyPathField))
      && (fs[m].name == Some(c.keyPathField) ==> c.keyPathField == DefaultKeyPath)
  {
    NormalizeFieldsSucceedsIff(fs, table);
    assert MarkIndex(fs) == m;
    var key := LastFalseKeyName(fs[..m]);
    var c := NormalizeFields(fs, table).value;
    assert c.other == fs[..m] + Without(fs[m..], key);
    assert c.other[..m] == fs[..m];
    assert c.other[m..] == Without(fs[m..], key);
    WithoutKeeps(fs[m..], key);
    forall k | m <= k < |fs| && fs[k].name != Some(key) ensures fs[k] in c.other[m..] {
      assert fs[k] == fs[m..][k - m];
    }
    LastFalseKeyNameIsLast(fs[..m]);
  }

  /** `Without` drops exactly the fields bearing the name. */
  lemma {:induction false} WithoutKeeps(fs: seq<Field>, n: string)
    ensures forall f :: f in Without(fs, n) <==> f in fs && f.name != Some(n)
  {
    if fs != [] {
      var init := fs[..|fs| - 1];
      WithoutKeeps(init, n);
      assert fs == init + [fs[|fs| - 1]];
    }
  }

  lemma {:induction false} MarkIndexOfExtension(fs: seq<Field>, more: seq<Field>)
    requires MarkIndex(fs) < |fs|
    ensures MarkIndex(fs + more) == MarkIndex(fs)
  {
    if !Marked(fs[0]) {
      assert (fs + more)[1..] == fs[1..] + more;
      MarkIndexOfExtension(fs[1..], more);
    }
  }

  /** Once a field is marked `keyPath: true`, later fields cannot change the key path. */
  lemma KeyPathFrozenByMark(fs: seq<Field>, more: seq<Field>, table: string)
    requires exists k :: 0 <= k < |fs| && Marked(fs[k])
    requires NormalizeFields(fs, table).Success? && NormalizeFields(fs + more, table).Success?
    ensures NormalizeFields(fs + more, table).value.keyPathField == NormalizeFields(fs, table).value.keyPathField
  {
    var m := MarkIndex(fs);
    MarkIndexOfExtension(fs, more);
    assert (fs + more)[..m] == fs[..m];
  }

  /** The example: `[{name: "sku", keyPath: true}, {name: "qty"}]` keeps both fields
      and leaves the key path at "id". */
  lemma MarkedFieldExample()
    ensures NormalizeFields([Field(Some("sku"), Some(true)), Field(Some("qty"), None)], "items") ==
            Success(FieldConfig([Field(Some("sku"), Some(true)), Field(Some("qty"), None)], "id"))
  {
    var fs := [Field(Some("sku"), Some(true)), Field(Some("qty"), None)];
    assert FieldFault(fs, 0, "items").None?;
    assert FieldFault(fs, 1, "items").None? by {
      assert !NameSeenBefore(fs, 1);
    }
    assert FirstFieldFault(fs, "items", 2).None?;
    assert FirstFieldFault(fs, "items", 1).None?;
    assert FirstFieldFault(fs, "items", 0).None?;
    assert MarkIndex(fs) == 0;
    assert fs[..0] == [] && fs[0..] == fs;
    assert LastFalseKeyName(fs[..0]) == "id";
    assert Without(fs, "id") == fs by {
      WithoutNone(fs, "id");
    }
    assert [] + fs == fs;
    assert NormalizeFields(fs, "items") == Success(FieldConfig(fs, "id"));
  }

  /** An ordinary field named "id" disappears from the fields to index. */
  lemma IdFieldDroppedExample()
    ensures NormalizeFields([Field(Some("id"), None), Field(Some("qty"), None)], "items") ==
            Success(FieldConfig([Field(Some("qty"), None)], "id"))
  {
    var fs := [Field(Some("id"), None), Field(Some("qty"), None)];
    assert FieldFault(fs, 0, "items").None?;
    assert FieldFault(fs, 1, "items").None? by {
      assert !NameSeenBefore(fs, 1);
    }
    assert FirstFieldFault(fs, "items", 2).None?;
    assert FirstFieldFault(fs, "items", 1).None?;
    assert FirstFieldFault(fs, "items", 0).None?;
    assert MarkIndex(fs) == 2;
    assert fs[..2] == fs;
    assert fs[..1] == [fs[0]];
    assert LastFalseKeyName(fs[..1]) == "id";
    assert LastFalseKeyName(fs) == "id";
    assert Without(fs[..1], "id") == [];
    assert Without(fs, "id") == [fs[1]];
    assert NormalizeFields(fs, "items") == Success(FieldConfig([fs[1]], "id"));
  }
}
