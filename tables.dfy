/** `checks.checkTables`: validates the table list and normalizes each table's
    fields with `checkFields`. `NormalizeTables` is the closed form; `CheckTables`
    is the source's loop, proved to compute it. */
module TableChecks {
  import opened Wrappers
  import opened Sequences
  import opened Schema
  import opened FieldChecks
  import opened FieldProperties

  /** The error table `j` raises when every table before it passed. */
  ghost function TableFault(ts: seq<Table>, j: nat): Option<SchemaError>
    requires j < |ts|
  {
    match ts[j].name
    case None => Some(TableNameMissing)
    case Some(n) =>
      if exists k :: 0 <= k < j && ts[k].name == Some(n) then Some(DuplicateTableName(n))
      else match ts[j].fields
        case None => None
        case Some(fs) =>
          if NormalizeFields(fs, n).Failure? then Some(NormalizeFields(fs, n).error) else None
  }

  /** The error of the first faulty table at index `j` or later. */
  ghost function FirstTableFault(ts: seq<Table>, j: nat): Option<SchemaError>
    requires j <= |ts|
    decreases |ts| - j
  {
    if j == |ts| then None
    else if TableFault(ts, j).Some? then TableFault(ts, j)
    else FirstTableFault(ts, j + 1)
  }

  /** The entry `checkTables` builds for a table that passed its checks: a table
      without `fields` gets no indexed fields and the key path "id". */
  ghost function NormalizeTable(t: Table): NormalizedTable {
    var n := t.name.GetOr("");
    NormalizedTable(n, match t.fields
      case None => EmptyFieldConfig
      case Some(fs) => NormalizeFields(fs, n).GetOr(EmptyFieldConfig))
  }

  /** What `checkTables(ts)` returns or throws, in closed form. */
  ghost function NormalizeTables(ts: seq<Table>): Result<seq<NormalizedTable>, SchemaError> {
    match FirstTableFault(ts, 0)
    case Some(e) => Failure(e)
    case None => Success(seq(|ts|, j requires 0 <= j < |ts| => NormalizeTable(ts[j])))
  }

  /** A table list `checkTables` accepts. */
  ghost predicate WellFormedTables(ts: seq<Table>) {
    && (forall j :: 0 <= j < |ts| ==> ts[j].name.Some?)
    && (forall j, k :: 0 <= j < k < |ts| ==> ts[j].name != ts[k].name)
    && (forall j, fs :: 0 <= j < |ts| && ts[j].fields == Some(fs) ==> WellFormedFields(fs))
  }

  /** `checks.checkTables`, step by step as the source does it. On success there is
      exactly one entry per input table, in input order and under the same name. */
  method CheckTables(tables: seq<Table>) returns (r: Result<seq<NormalizedTable>, SchemaError>)
    ensures r == NormalizeTables(tables)
    ensures r.Success? ==> |r.value| == |tables|
    ensures r.Success? ==> forall j :: 0 <= j < |tables| ==>
      && tables[j].name == Some(r.value[j].name)
      && (tables[j].fields.None? ==> r.value[j].fields == EmptyFieldConfig)
      && (tables[j].fields.Some? ==>
            NormalizeFields(tables[j].fields.value, r.value[j].name) == Success(r.value[j].fields))
  {
    var tableNames: seq<string> := [];
    var configTables: seq<NormalizedTable> := [];
    var i := 0;
    while i < |tables|
      invariant 0 <= i <= |tables|
      invariant TablesScanned(tables, i, tableNames, configTables)
    {
      var thrown;
      thrown, tableNames, configTables := VisitTable(tables[i], tableNames, configTables, tables, i);
      if thrown.Some? {
        return Failure(thrown.value);
      }
      i := i + 1;
    }
    TablesExit(tables, tableNames, configTables);
    return Success(configTables);
  }

  /** The loop state of `CheckTables` after `i` tables: none of them was at fault,
      `tableNames` holds their names and `configTables` their entries, in order. */
  ghost predicate TablesScanned(ts: seq<Table>, i: nat, names: seq<string>, config: seq<NormalizedTable>)
    requires i <= |ts|
  {
    && FirstTableFault(ts, 0) == FirstTableFault(ts, i)
    && |names| == i && |config| == i
    && (forall k :: 0 <= k < i ==> ts[k].name == Some(names[k]))
    && (forall k :: 0 <= k < i ==> config[k] == NormalizeTable(ts[k]))
    && (forall k :: 0 <= k < i ==> TableFault(ts, k).None?)
  }

  /** The `forEach` callback of `checks.checkTables` on `tables[i]`, with the lists
      it closes over passed in and returned. `thrown` is the fault of table `i`,
      which is then what `checkTables` throws. Otherwise the table's entry is
      appended. */
  method VisitTable(table: Table, tableNames: seq<string>, configTables: seq<NormalizedTable>,
                    ghost tables: seq<Table>, ghost i: nat)
    returns (thrown: Option<SchemaError>, tableNames': seq<string>, configTables': seq<NormalizedTable>)
    requires i < |tables| && table == tables[i]
    requires TablesScanned(tables, i, tableNames, configTables)
    ensures thrown == TableFault(tables, i)
    ensures thrown.Some? ==> NormalizeTables(tables) == Failure(thrown.value)
    ensures thrown.None? ==> TablesScanned(tables, i + 1, tableNames', configTables')
  {
    tableNames', configTables' := tableNames, configTables;
    var configTable := NormalizedTable("", EmptyFieldConfig);
    if table.name.None? {
      return Some(TableNameMissing), tableNames', configTables';
    }
    var name := table.name.value;
    if IndexOf(tableNames', name) != -1 {
      ghost var k := IndexOf(tableNames, name);
      assert tables[k].name == Some(name);
      return Some(DuplicateTableName(name)), tableNames', configTables';
    }
    assert !exists k :: 0 <= k < i && tables[k].name == Some(name) by {
      forall k | 0 <= k < i ensures tables[k].name != Some(name) {
        assert tableNames[k] != name;
      }
    }
    tableNames' := tableNames' + [name];
    configTable := configTable.(name := name);
    if table.fields.Some? {
      var checked := CheckFields(table.fields.value, name);
      if checked.Failure? {
        return Some(checked.error), tableNames', configTables';
      }
      configTable := configTable.(fields := checked.value);
    }
    configTables' := configTables' + [configTable];
    thrown := None;
  }

  /** After the loop of `CheckTables` has visited every table, the entries are
      what `NormalizeTables` gives. */
  lemma TablesExit(ts: seq<Table>, names: seq<string>, config: seq<NormalizedTable>)
    requires TablesScanned(ts, |ts|, names, config)
    ensures NormalizeTables(ts) == Success(config)
    ensures forall j :: 0 <= j < |ts| ==>
      && ts[j].name == Some(config[j].name)
      && (ts[j].fields.None? ==> config[j].fields == EmptyFieldConfig)
      && (ts[j].fields.Some? ==> NormalizeFields(ts[j].fields.value, config[j].name) == Success(config[j].fields))
  {
    assert config == seq(|ts|, j requires 0 <= j < |ts| => NormalizeTable(ts[j]));
    forall j | 0 <= j < |ts| && ts[j].fields.Some?
      ensures NormalizeFields(ts[j].fields.value, config[j].name) == Success(config[j].fields)
    {
      assert TableFault(ts, j).None?;
    }
  }

  lemma {:induction false} FirstTableFaultNone(ts: seq<Table>, j: nat)
    requires j <= |ts|
    ensures FirstTableFault(ts, j).None? <==> forall k :: j <= k < |ts| ==> TableFault(ts, k).None?
    decreases |ts| - j
  {
    if j < |ts| {
      FirstTableFaultNone(ts, j + 1);
    }
  }

  /** `checkTables` throws exactly when a table has no name, two tables share a
      name, or some table's `fields` list is rejected by `checkFields`. */
  lemma NormalizeTablesSucceedsIff(ts: seq<Table>)
    ensures NormalizeTables(ts).Success? <==> WellFormedTables(ts)
  {
    FirstTableFaultNone(ts, 0);
    forall j, fs | 0 <= j < |ts| && ts[j].fields == Some(fs) && ts[j].name.Some?
      ensures NormalizeFields(fs, ts[j].name.value).Success? <==> WellFormedFields(fs)
    {
      NormalizeFieldsSucceedsIff(fs, ts[j].name.value);
    }
    if NormalizeTables(ts).Success? {
      forall j | 0 <= j < |ts| ensures ts[j].name.Some? {
        assert TableFault(ts, j).None?;
      }
      forall j, k | 0 <= j < k < |ts| ensures ts[j].name != ts[k].name {
        assert TableFault(ts, k).None?;
      }
      forall j, fs | 0 <= j < |ts| && ts[j].fields == Some(fs) ensures WellFormedFields(fs) {
        assert TableFault(ts, j).None?;
      }
    }
  }

  /** A normalized field configuration indexes only named fields. */
  lemma NormalizedFieldsNamed(fs: seq<Field>, table: string)
    requires NormalizeFields(fs, table).Success?
    ensures forall f :: f in NormalizeFields(fs, table).value.other ==> f.name.Some?
  {
    NormalizeFieldsSucceedsIff(fs, table);
    NormalizedOtherIsSubsequence(fs, table);
    SubsequenceElements(NormalizeFields(fs, table).value.other, fs);
  }

  /** What `checkTables` returns is ready for store creation: distinct table names
      and only named fields to index. */
  lemma NormalizedTablesReady(ts: seq<Table>)
    requires NormalizeTables(ts).Success?
    ensures Ready(NormalizeTables(ts).value)
  {
    NormalizeTablesSucceedsIff(ts);
    var out := NormalizeTables(ts).value;
    forall i, j | 0 <= i < j < |out| ensures out[i].name != out[j].name {
      assert ts[i].name != ts[j].name;
    }
    forall t, f | t in out && f in t.fields.other ensures f.name.Some? {
      var j :| 0 <= j < |out| && out[j] == t;
      var n := ts[j].name.value;
      if ts[j].fields.Some? {
        NormalizeFieldsSucceedsIff(ts[j].fields.value, n);
        NormalizedFieldsNamed(ts[j].fields.value, n);
      }
    }
  }
}
