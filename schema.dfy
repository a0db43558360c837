/** The table and field declarations the host hands to `setTables`, the
    normalized form the provider keeps, and the errors normalization throws. */
module Schema {
  import opened Wrappers
  import opened Sequences

  /** The key path a table gets when no field supplies one. */
  const DefaultKeyPath: string := "id"

  /** One entry of a table's `fields` list: `{name, keyPath}`, either may be missing. */
  datatype Field = Field(name: Option<string>, keyPath: Option<bool>)

  /** One entry of the `tables` list: `{name, fields}`, either may be missing. */
  datatype Table = Table(name: Option<string>, fields: Option<seq<Field>>)

  /** What `checkFields` returns: the fields to index and the store's key path. */
  datatype FieldConfig = FieldConfig(other: seq<Field>, keyPathField: string)

  /** The field configuration of a table declared without `fields`. */
  const EmptyFieldConfig: FieldConfig := FieldConfig([], DefaultKeyPath)

  /** One entry of the list `checkTables` returns. */
  datatype NormalizedTable = NormalizedTable(name: string, fields: FieldConfig)

  /** The strings `checkFields` and `checkTables` throw. */
  datatype SchemaError =
    | FieldNameMissing(table: string)
    | DuplicateFieldName(field: string, table: string)
    | MultipleKeyPaths(table: string)
    | TableNameMissing
    | DuplicateTableName(name: string)
  {
    /** The thrown text: the field errors end with the table's name, and a
        duplicate error carries the duplicated name right after its fixed opening. */
    function Message(): (r: string)
      ensures FieldNameMissing? || DuplicateFieldName? || MultipleKeyPaths? ==> EndsWith(r, table)
      ensures DuplicateFieldName? ==> StartsWith(r, "Multiple filed name " + field)
      ensures DuplicateTableName? ==> StartsWith(r, "Multiple table name " + name)
    {
      match this
      case FieldNameMissing(t) => "Field name not given for table " + t
      case DuplicateFieldName(f, t) => "Multiple filed name " + f + " used in table " + t
      case MultipleKeyPaths(t) => "Only one keyPath per table is allowed. Found in table " + t
      case TableNameMissing => "Table name not given"
      case DuplicateTableName(n) => "Multiple table name " + n + " used"
    }
  }

  /** The set of names of a list of normalized tables. */
  function TableNames(tables: seq<NormalizedTable>): set<string> {
    set t | t in tables :: t.name
  }

  /** What the store-creation code relies on: table names are distinct and every
      field to be indexed has a name. `checkTables` guarantees both. */
  ghost predicate Ready(tables: seq<NormalizedTable>) {
    && (forall i, j :: 0 <= i < j < |tables| ==> tables[i].name != tables[j].name)
    && (forall t, f :: t in tables && f in t.fields.other ==> f.name.Some?)
  }
}
