/** The provider's configuration surface: `setDbName`, `setTables` and `setVersion`
    validate their argument, then assign the module-level `dbName`, `dbTables` and
    `dbVersion` that `createDb` later opens the database with. */
module Provider {
  import opened Wrappers
  import opened Schema
  import opened Guards
  import opened TableChecks

  /** The strings the setters throw; schema errors come from `checkTables`. */
  datatype SetupError =
    | DbNameMissing
    | DbNameNotString
    | TablesMissing
    | TablesNotArray
    | VersionMissing
    | VersionNotNumber
    | VersionBelowOne
    | InvalidSchema(cause: SchemaError)
  {
    /** The setters' own texts, and for a schema error the text `checkTables`
        threw, unchanged. */
    function Message(): (r: string)
      ensures InvalidSchema? ==> r == cause.Message()
    {
      match this
      case DbNameMissing => "Database name not given"
      case DbNameNotString => "Database name must be a string type"
      case TablesMissing => "Tables parameter given is undefined"
      case TablesNotArray => "Tables parameter must be a type of array"
      case VersionMissing => "Database version not given"
      case VersionNotNumber => "Database version must be a number type"
      case VersionBelowOne => "Minimum version value must be 1"
      case InvalidSchema(cause) => cause.Message()
    }
  }

  class Provider {
    var dbName: string
    var dbVersion: int
    var dbTables: seq<NormalizedTable>

    /** The configuration `createDb` can rely on: a version of at least 1 and a
        table list that `checkTables` produced. */
    ghost predicate Valid()
      reads this
    {
      dbVersion >= 1 && Ready(dbTables)
    }

    /** The provider's defaults: database "testDb", version 1, no tables. */
    constructor ()
      ensures Valid()
      ensures dbName == "testDb" && dbVersion == 1 && dbTables == []
    {
      dbName := "testDb";
      dbVersion := 1;
      dbTables := [];
    }

    /** `setDbName(name)`. */
    method SetDbName(name: Arg<string>) returns (err: Option<SetupError>)
      requires Valid()
      modifies this`dbName
      ensures Valid()
      ensures name.Undefined? ==> err == Some(DbNameMissing)
      ensures name.OtherType? ==> err == Some(DbNameNotString)
      ensures err.None? <==> name.Given?
      ensures err.None? ==> dbName == name.value
      ensures err.Some? ==> dbName == old(dbName)
    {
      if name.Undefined? {
        return Some(DbNameMissing);
      }
      if !name.Given? {
        return Some(DbNameNotString);
      }
      dbName := name.value;
      return None;
    }

    /** `setTables(tables)`: the declared tables are normalized by `checkTables`,
        whose error propagates. */
    method SetTables(tables: Arg<seq<Table>>) returns (err: Option<SetupError>)
      requires Valid()
      modifies this`dbTables
      ensures Valid()
      ensures tables.Undefined? ==> err == Some(TablesMissing)
      ensures tables.OtherType? ==> err == Some(TablesNotArray)
      ensures tables.Given? ==> match NormalizeTables(tables.value)
        case Success(normalized) => err.None? && dbTables == normalized
        case Failure(e) => err == Some(InvalidSchema(e))
      ensures err.Some? ==> dbTables == old(dbTables)
    {
      if tables.Undefined? {
        return Some(TablesMissing);
      }
      if !tables.Given? {
        return Some(TablesNotArray);
      }
      var checked := CheckTables(tables.value);
      if checked.Failure? {
        return Some(InvalidSchema(checked.error));
      }
      NormalizedTablesReady(tables.value);
      dbTables := checked.value;
      return None;
    }

    /** `setVersion(version)`, for integer versions. */
    method SetVersion(version: Arg<int>) returns (err: Option<SetupError>)
      requires Valid()
      modifies this`dbVersion
      ensures Valid()
      ensures version.Undefined? ==> err == Some(VersionMissing)
      ensures version.OtherType? ==> err == Some(VersionNotNumber)
      ensures version.Given? && version.value < 1 ==> err == Some(VersionBelowOne)
      ensures err.None? <==> version.Given? && version.value >= 1
      ensures err.None? ==> dbVersion == version.value
      ensures err.Some? ==> dbVersion == old(dbVersion)
    {
      if version.Undefined? {
        return Some(VersionMissing);
      }
      if !version.Given? {
        return Some(VersionNotNumber);
      }
      if version.value < 1 {
        return Some(VersionBelowOne);
      }
      dbVersion := version.value;
      return None;
    }
  }
}
