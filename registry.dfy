/** The `createDb` handlers: the upgrade handler creates the object stores that are
    missing and registers a model for every declared table; the success handler
    registers a model only for tables that lack one. The browser's database is
    represented by its catalog of object stores. */
module Registry {
  import opened Wrappers
  import opened Schema

  /** A `ModelObject`: the record-operation handle of one table. */
  class ModelObject {
    const modelName: string

    constructor (modelName: string)
      ensures this.modelName == modelName
    {
      this.modelName := modelName;
    }
  }

  /** An object store as `createObjectStore` and `createIndex` leave it: its key
      path, its auto-increment flag and the names of its indexes, in creation order. */
  datatype Store = Store(keyPath: string, autoIncrement: bool, indexes: seq<string>)

  /** The store the upgrade handler creates for a table absent from the catalog:
      keyed on its key path field, auto-incrementing, one index per field to index. */
  function StoreFor(t: NormalizedTable): (s: Store)
    requires forall f :: f in t.fields.other ==> f.name.Some?
    ensures s.keyPath == t.fields.keyPathField && s.autoIncrement
    ensures |s.indexes| == |t.fields.other|
    ensures forall k :: 0 <= k < |s.indexes| ==> t.fields.other[k].name == Some(s.indexes[k])
  {
    Store(t.fields.keyPathField, true,
          seq(|t.fields.other|, k requires 0 <= k < |t.fields.other| => t.fields.other[k].name.value))
  }

  /** The index names the inner `forEach` of the upgrade handler creates, one per
      field to index, in order. */
  method CreateIndexes(other: seq<Field>) returns (indexes: seq<string>)
    requires forall f :: f in other ==> f.name.Some?
    ensures |indexes| == |other|
    ensures forall k :: 0 <= k < |other| ==> other[k].name == Some(indexes[k])
  {
    indexes := [];
    var j := 0;
    while j < |other|
      invariant 0 <= j <= |other|
      invariant |indexes| == j
      invariant forall k :: 0 <= k < j ==> other[k].name == Some(indexes[k])
    {
      indexes := indexes + [other[j].name.value];
      j := j + 1;
    }
  }

  lemma TableNamesSnoc(tables: seq<NormalizedTable>, i: nat)
    requires i < |tables|
    ensures TableNames(tables[..i + 1]) == TableNames(tables[..i]) + {tables[i].name}
  {
    assert tables[..i + 1] == tables[..i] + [tables[i]];
  }

  /** The catalog after the upgrade handler's `forEach` over `tables`: each table
      absent from the catalog at its turn gets its store. */
  ghost function CatalogAfterUpgrade(catalog: map<string, Store>, tables: seq<NormalizedTable>): map<string, Store>
    requires forall t, f :: t in tables && f in t.fields.other ==> f.name.Some?
  {
    if tables == [] then catalog
    else
      var before := CatalogAfterUpgrade(catalog, tables[..|tables| - 1]);
      var t := tables[|tables| - 1];
      if t.name in before then before else before[t.name := StoreFor(t)]
  }

  /** Every store the upgrade handler adds is the store of a declared table bearing
      that name; none comes from elsewhere. */
  lemma {:induction false} CatalogAfterUpgradeOrigin(catalog: map<string, Store>, tables: seq<NormalizedTable>)
    requires forall t, f :: t in tables && f in t.fields.other ==> f.name.Some?
    ensures forall n :: n in CatalogAfterUpgrade(catalog, tables) && n !in catalog ==>
      exists t :: t in tables && t.name == n && CatalogAfterUpgrade(catalog, tables)[n] == StoreFor(t)
  {
    if tables != [] {
      var init := tables[..|tables| - 1];
      var last := tables[|tables| - 1];
      CatalogAfterUpgradeOrigin(catalog, init);
      var before := CatalogAfterUpgrade(catalog, init);
      forall n | n in CatalogAfterUpgrade(catalog, tables) && n !in catalog
        ensures exists t :: t in tables && t.name == n && CatalogAfterUpgrade(catalog, tables)[n] == StoreFor(t)
      {
        if n in before && !(last.name == n && last.name !in before) {
          var t :| t in init && t.name == n && before[n] == StoreFor(t);
          assert t in tables;
        } else {
          assert last in tables;
        }
      }
    }
  }

  lemma ReadyPrefix(tables: seq<NormalizedTable>)
    requires Ready(tables) && tables != []
    ensures Ready(tables[..|tables| - 1])
    ensures tables[|tables| - 1].name !in TableNames(tables[..|tables| - 1])
  {
    var init := tables[..|tables| - 1];
    forall u | u in init ensures u in tables && u.name != tables[|tables| - 1].name {
      var k :| 0 <= k < |init| && init[k] == u;
      assert tables[k] == u;
    }
  }

  /** After the upgrade handler, the catalog holds the old stores and one for every
      declared table. */
  lemma {:induction false} CatalogAfterUpgradeKeys(catalog: map<string, Store>, tables: seq<NormalizedTable>)
    requires Ready(tables)
    ensures CatalogAfterUpgrade(catalog, tables).Keys == catalog.Keys + TableNames(tables)
  {
    if tables != [] {
      ReadyPrefix(tables);
      CatalogAfterUpgradeKeys(catalog, tables[..|tables| - 1]);
      TableNamesSnoc(tables, |tables| - 1);
      assert tables[..|tables|] == tables;
    }
  }

  /** The upgrade handler leaves every existing store as it was. */
  lemma {:induction false} CatalogAfterUpgradeKeeps(catalog: map<string, Store>, tables: seq<NormalizedTable>)
    requires Ready(tables)
    ensures forall n :: n in catalog ==> n in CatalogAfterUpgrade(catalog, tables) &&
                                         CatalogAfterUpgrade(catalog, tables)[n] == catalog[n]
  {
    if tables != [] {
      ReadyPrefix(tables);
      CatalogAfterUpgradeKeeps(catalog, tables[..|tables| - 1]);
    }
  }

  /** The store the upgrade handler creates for a table missing from the catalog is
      keyed on the table's key path field and indexes its other fields. */
  lemma {:induction false} CatalogAfterUpgradeCreates(catalog: map<string, Store>, tables: seq<NormalizedTable>)
    requires Ready(tables)
    ensures forall t :: t in tables && t.name !in catalog ==>
      t.name in CatalogAfterUpgrade(catalog, tables) && CatalogAfterUpgrade(catalog, tables)[t.name] == StoreFor(t)
  {
    if tables != [] {
      var init := tables[..|tables| - 1];
      var last := tables[|tables| - 1];
      ReadyPrefix(tables);
      CatalogAfterUpgradeKeys(catalog, init);
      CatalogAfterUpgradeCreates(catalog, init);
      forall t | t in tables && t.name !in catalog
        ensures t.name in CatalogAfterUpgrade(catalog, tables) && CatalogAfterUpgrade(catalog, tables)[t.name] == StoreFor(t)
      {
        if t != last {
          var k :| 0 <= k < |tables| && tables[k] == t;
          assert k < |tables| - 1;
          assert t in init;
        }
      }
    }
  }

  class Registry {
    /** The object stores of the open database, by name. */
    var catalog: map<string, Store>
    /** The provider's `models`: one handle per table name. */
    var models: map<string, ModelObject>

    /** Every handle is registered under its own table's name. */
    ghost predicate Valid()
      reads this
    {
      forall n :: n in models ==> models[n].modelName == n
    }

    /** A fresh database with no stores and no models. */
    constructor ()
      ensures Valid() && catalog == map[] && models == map[]
    {
      catalog := map[];
      models := map[];
    }

    /** `connection.onupgradeneeded`. */
    method OnUpgradeNeeded(tables: seq<NormalizedTable>)
      requires Valid() && Ready(tables)
      modifies this
      ensures Valid()
      ensures catalog == CatalogAfterUpgrade(old(catalog), tables)
      ensures catalog.Keys == old(catalog).Keys + TableNames(tables)
      ensures forall n :: n in old(catalog) ==> catalog[n] == old(catalog)[n]
      ensures forall t :: t in tables && t.name !in old(catalog) ==> catalog[t.name] == StoreFor(t)
      ensures models.Keys == old(models).Keys + TableNames(tables)
      ensures forall t :: t in tables ==> fresh(models[t.name])
      ensures forall n :: n in old(models) && n !in TableNames(tables) ==> models[n] == old(models)[n]
    {
      ghost var names: set<string> := {};
      var i := 0;
      while i < |tables|
        invariant 0 <= i <= |tables|
        invariant names == TableNames(tables[..i])
        invariant Valid()
        invariant catalog == CatalogAfterUpgrade(old(catalog), tables[..i])
        invariant models.Keys == old(models).Keys + names
        invariant forall n :: n in names ==> fresh(models[n])
        invariant forall n :: n in old(models) && n !in names ==> models[n] == old(models)[n]
      {
        var table := tables[i];
        assert tables[..i + 1][..i] == tables[..i];
        CreateStoreIfMissing(table);
        var model := new ModelObject(table.name);
        models := models[table.name := model];
        TableNamesSnoc(tables, i);
        names := names + {table.name};
        i := i + 1;
      }
      assert tables[..i] == tables;
      CatalogAfterUpgradeKeys(old(catalog), tables);
      CatalogAfterUpgradeKeeps(old(catalog), tables);
      CatalogAfterUpgradeCreates(old(catalog), tables);
    }

    /** The body of the upgrade handler's `if`: create the table's store unless the
        catalog already has one under its name. */
    method CreateStoreIfMissing(table: NormalizedTable)
      requires forall f :: f in table.fields.other ==> f.name.Some?
      modifies this`catalog
      ensures table.name in old(catalog) ==> catalog == old(catalog)
      ensures table.name !in old(catalog) ==> catalog == old(catalog)[table.name := StoreFor(table)]
    {
      if table.name !in catalog {
        var indexes := CreateIndexes(table.fields.other);
        assert indexes == StoreFor(table).indexes;
        catalog := catalog[table.name := Store(table.fields.keyPathField, true, indexes)];
      }
    }

    /** `connection.onsuccess`. */
    method OnSuccess(tables: seq<NormalizedTable>)
      requires Valid()
      modifies this
      ensures Valid()
      ensures catalog == old(catalog)
      ensures models.Keys == old(models).Keys + TableNames(tables)
      ensures forall n :: n in old(models) ==> models[n] == old(models)[n]
      ensures forall n :: n in models && n !in old(models) ==> fresh(models[n])
    {
      var i := 0;
      while i < |tables|
        invariant 0 <= i <= |tables|
        invariant Valid()
        invariant catalog == old(catalog)
        invariant models.Keys == old(models).Keys + TableNames(tables[..i])
        invariant forall n :: n in old(models) ==> models[n] == old(models)[n]
        invariant forall n :: n in models && n !in old(models) ==> fresh(models[n])
      {
        var table := tables[i];
        if table.name !in models {
          var model := new ModelObject(table.name);
          models := models[table.name := model];
        }
        TableNamesSnoc(tables, i);
        i := i + 1;
      }
      assert tables[..i] == tables;
    }

    /** `indexDb.open` on a ready table list: the upgrade handler runs when the
        browser asks for an upgrade, then the success handler runs. Afterwards every
        declared table has exactly one model, and, after an upgrade, a store. */
    method Open(tables: seq<NormalizedTable>, upgradeNeeded: bool)
      requires Valid() && Ready(tables)
      modifies this
      ensures Valid()
      ensures forall t :: t in tables ==> t.name in models && models[t.name].modelName == t.name
      ensures catalog == if upgradeNeeded then CatalogAfterUpgrade(old(catalog), tables) else old(catalog)
      ensures upgradeNeeded ==> catalog.Keys == old(catalog).Keys + TableNames(tables)
      ensures upgradeNeeded ==> forall n :: n in old(catalog) ==> catalog[n] == old(catalog)[n]
      ensures upgradeNeeded ==> forall t :: t in tables && t.name !in old(catalog) ==> catalog[t.name] == StoreFor(t)
      ensures models.Keys == old(models).Keys + TableNames(tables)
      ensures upgradeNeeded ==> forall t :: t in tables ==> fresh(models[t.name])
      ensures !upgradeNeeded ==> forall n :: n in old(models) ==> models[n] == old(models)[n]
      ensures forall n :: n in old(models) && n !in TableNames(tables) ==> n in models && models[n] == old(models)[n]
    {
      if upgradeNeeded {
        OnUpgradeNeeded(tables);
      }
      OnSuccess(tables);
    }
  }
}
