# IndexedDB provider configuration layer, modelled in Dafny

This project models the configuration layer of the AngularJS `indexDb` provider
(`dist/indexDb.js`). That layer checks the host's table declarations and the
database name and version. It translates bound descriptors into key ranges. It
also decides, when the database opens, which object stores to create and which
table models to register. Everything else in the provider forwards to the
browser's asynchronous IndexedDB store and is not modelled.

The modules follow the parts of the source:

- `Schema` (schema.dfy): field and table declarations (`{name, keyPath}`,
  `{name, fields}`, with missing entries as `None`), the normalized form
  `{other, keyPathField}`, and the strings `checkFields` and `checkTables` throw.
  Each error kind has a `Message()` that gives the exact text the source throws.
- `FieldChecks` and `FieldProperties` (fields.dfy): `checks.checkFields`.
  `NormalizeFields` describes its result in closed form. `CheckFields` is the
  source's single pass, with the running `fieldNames`, `keyPath`, `keyPathField`
  and `configFields` and the final `splice`; `VisitField` is its `forEach`
  callback, with the variables it closes over passed in and returned. It is proved to compute
  `NormalizeFields`, and the lemmas state what that result means.
- `TableChecks` (tables.dfy): `checks.checkTables`, in the same two forms
  (`NormalizeTables` and `CheckTables`).
- `Guards` (guards.dfy): `checkBaseCallbacks`. Its arguments are `Undefined`,
  a value of the expected type, or a defined value of another type.
- `Bounds` (bounds.dfy): `getBounds`. The result is a key range datatype, and
  `Admits` gives the meaning of each range over integer keys.
- `Registry` (registry.dfy): the `createDb` handlers. They act on a class
  whose two map fields are the catalog of object stores and the `models`
  registry.
- `Provider` (provider.dfy): `setDbName`, `setTables` and `setVersion`. They act
  on a class holding `dbName`, `dbVersion` and `dbTables`.
- `Wrappers` and `Sequences`: `Option`/`Result`, `Array.prototype.indexOf`, and
  order-preserving subsequences.

Behaviour kept exactly as the code has it, where the code comments or the
documented intent suggest otherwise:

- A field marked `keyPath: true` does not become the key path. Line 456 sets
  `keyPath` first, so line 457 keeps the earlier `keyPathField`. That is the
  name of the last `keyPath: false` field before it, or `"id"`. For example,
  `[{sku, keyPath: true}, {qty}]` gives key path `"id"` and keeps both fields
  (`FieldProperties.MarkedFieldExample`).
- A `keyPath: false` field does set the key path. Without a `keyPath: true`
  field, the field bearing the key path name is spliced out of `other`. So the
  dropped field is not always one named `"id"`. An ordinary field named `"id"`
  vanishes only when no `keyPath: false` field renames the key path
  (`FieldProperties.IdFieldDroppedExample`).
- `getBounds` builds an upper bound with the lower-bound flag, which is still
  `false` there. So an upper bound is always inclusive. Its missing-value error
  carries the text "Lower bound value not provided".
- `checkBaseCallbacks` only looks at the error callback when a success
  callback was given.

## Model

| member | source | states |
|---|---|---|
| `Sequences.IndexOf` | dist/indexDb.js:441 | `indexOf` gives -1 exactly when the value is absent, and otherwise the first index that holds it |
| `Schema.SchemaError.Message` | dist/indexDb.js:438-510 | the texts `checkFields` and `checkTables` throw, as written (including "filed"). The three field errors end with the table's name. A duplicate error carries the duplicated name right after its fixed opening |
| `FieldChecks.MarkIndex` | dist/indexDb.js:448-457 | the index of the first field marked `keyPath: true` (no earlier field is marked), or the list length when none is |
| `FieldChecks.CheckFields` | dist/indexDb.js:427-483 | the source's pass over the fields returns or throws exactly what the closed form `NormalizeFields` gives: the first faulty field decides the error; otherwise the key path and `other` follow the rules stated by the lemmas below |
| `FieldChecks.VisitField` | dist/indexDb.js:434-465 | the `forEach` callback throws exactly the fault of its field: no name, a name already in `fieldNames`, or a second `keyPath: true` field. That fault is then what `checkFields` throws. Otherwise `fieldNames`, `keyPath`, `keyPathField` and `configFields` advance to cover the field |
| `FieldChecks.WithoutSingle` | dist/indexDb.js:469-477 | splicing out the index that `fieldNames.indexOf(keyPathField)` finds removes exactly the fields bearing that name, because names are distinct |
| `FieldChecks.WithoutNone` | dist/indexDb.js:473-476 | when no field bears the key path name, nothing is spliced out |
| `FieldProperties.NormalizeFieldsSucceedsIff` | dist/indexDb.js:437-454 | `checkFields` succeeds if and only if every field has a name, no two fields share a name, and no two fields are marked `keyPath: true` |
| `FieldProperties.NormalizeFieldsFailure` | dist/indexDb.js:434-454 | the thrown error names the table. Its kind matches the first field at fault: it has no name, it repeats an earlier name, or it is a second `keyPath: true` field. Every field before it passed |
| `FieldProperties.LastFalseKeyNameIsLast` | dist/indexDb.js:429-457 | the running key path is `"id"` when no field says `keyPath: false`, and otherwise the name of the last field that does |
| `FieldProperties.NormalizedOtherIsSubsequence` | dist/indexDb.js:460-477 | `other` is always an order-preserving subsequence of the input fields |
| `FieldProperties.UnmarkedNormalization` | dist/indexDb.js:456-477 | with no `keyPath: true` field: the key path is the last `keyPath: false` name (or `"id"`); no kept field bears it; every other field is kept in input order; `other` is one shorter exactly when some field bears that name |
| `FieldProperties.MarkedNormalization` | dist/indexDb.js:452-477 | with a first `keyPath: true` field at m: the key path keeps its value from before m; `other` keeps every field before m; from m on, exactly the fields bearing the key path name are left out; the marked field itself becomes the key path only if it is literally named `"id"` |
| `FieldProperties.KeyPathFrozenByMark` | dist/indexDb.js:456-457 | once a field is marked `keyPath: true`, fields appended after it cannot change the key path |
| `FieldProperties.MarkedFieldExample` | dist/indexDb.js:452-482 | `[{sku, keyPath: true}, {qty}]` gives `other = [sku, qty]` and key path `"id"` |
| `FieldProperties.IdFieldDroppedExample` | dist/indexDb.js:469-477 | `[{id}, {qty}]` gives `other = [qty]` and key path `"id"`: the ordinary `id` field is dropped |
| `TableChecks.CheckTables` | dist/indexDb.js:490-524 | the source's loop returns or throws exactly what `NormalizeTables` gives. On success there is exactly one entry per input table, in input order and under the same name. A table without `fields` gets `{other: [], keyPathField: "id"}`; otherwise the entry holds what `checkFields` returns for it |
| `TableChecks.VisitTable` | dist/indexDb.js:494-521 | the `forEach` callback throws exactly the fault of its table: no name, a name already in `tableNames`, or the error `checkFields` throws for its `fields`. That fault is then what `checkTables` throws. Otherwise the table's name and entry are appended |
| `TableChecks.NormalizeTablesSucceedsIff` | dist/indexDb.js:505-518 | `checkTables` succeeds if and only if every table has a name, no two tables share a name, and `checkFields` accepts every `fields` list given |
| `TableChecks.NormalizedFieldsNamed` | dist/indexDb.js:460-463 | every field that `checkFields` keeps in `other` has a name |
| `TableChecks.NormalizedTablesReady` | dist/indexDb.js:509-520 | what `checkTables` returns has distinct table names and only named fields to index, which is what store creation relies on |
| `Guards.CheckBaseCallbacks` | dist/indexDb.js:48-60 | it throws the success-callback error exactly when the success callback is defined and not a function. It throws the error-callback error exactly when the success callback is a function and the error callback is defined and not a function. Otherwise it returns |
| `Guards.CallbackError.Message` | dist/indexDb.js:51-56 | both texts end with " callback must be a type of function" and begin with the callback at fault, "Success" or "Error" |
| `Guards.UncheckedErrorCallback` | dist/indexDb.js:49-58 | an error callback that is not a function is accepted when no success callback is given |
| `Bounds.GetBounds` | dist/indexDb.js:67-94 | `only` wins and admits exactly its value. Else a `lowerBound` fails without a `value`, and otherwise admits the keys above it, excluding the value exactly when `notInclude` is true. Else an `upperBound` fails without a `value`, and otherwise admits every key up to and including it, whatever `notInclude` says. Else there is no range and every key is admitted |
| `Bounds.BoundError.Message` | dist/indexDb.js:79-87 | both missing-value errors throw "Lower bound value not provided" |
| `Bounds.ExclusiveUpperBoundIgnored` | dist/indexDb.js:89-90 | `{upperBound: {value: 5, notInclude: true}}` still admits 5 |
| `Registry.StoreFor` | dist/indexDb.js:546-555 | the store created for a table is keyed on its `keyPathField`, auto-increments, and has one index per `other` field, named after that field, in field order |
| `Registry.CatalogAfterUpgradeOrigin` | dist/indexDb.js:541-556 | every store the upgrade handler's pass over the tables adds is the store of a declared table bearing that name |
| `Registry.CreateIndexes` | dist/indexDb.js:553-555 | one index per field to index, named after the field, in field order |
| `Registry.CatalogAfterUpgradeKeys` | dist/indexDb.js:541-556 | after the upgrade handler, the catalog's store names are the old ones plus every declared table name |
| `Registry.CatalogAfterUpgradeKeeps` | dist/indexDb.js:544 | the upgrade handler leaves every existing store unchanged |
| `Registry.CatalogAfterUpgradeCreates` | dist/indexDb.js:544-555 | a declared table missing from the catalog gets a store keyed on its `keyPathField`, auto-incrementing, with one index per `other` field |
| `Registry.ModelObject.constructor` | dist/indexDb.js:41-97 | a model handle records its table's name |
| `Registry.Registry.constructor` | dist/indexDb.js:12 | the registry starts with no stores and no models |
| `Registry.Registry.OnUpgradeNeeded` | dist/indexDb.js:538-561 | the catalog gains a store exactly for the declared tables it lacked, and existing stores are unchanged. Every declared table gets a newly allocated model, replacing any earlier one. Models of other tables are untouched. Every model stays registered under its own name |
| `Registry.Registry.CreateStoreIfMissing` | dist/indexDb.js:543-556 | a table's store is created only when the catalog has none under its name |
| `Registry.Registry.OnSuccess` | dist/indexDb.js:564-573 | the catalog is unchanged. Only tables lacking a model gain a newly allocated one. Existing models are never replaced |
| `Registry.Registry.Open` | dist/indexDb.js:532-581 | the open runs the upgrade handler when one is needed, then the success handler. Afterwards the model names are the old ones plus every declared table name, and every declared table has a model registered under its own name. After an upgrade the catalog is exactly what the upgrade handler gives: old stores unchanged, and `StoreFor` of each missing table added. Every declared table has a new model. Without an upgrade the catalog and every existing model are unchanged. Models of undeclared tables are always untouched |
| `Provider.SetupError.Message` | dist/indexDb.js:614-659 | the setters throw their own texts, as written. A schema error carries the text `checkTables` threw, unchanged |
| `Provider.Provider.constructor` | dist/indexDb.js:7-9 | the defaults are database `"testDb"`, version 1 and no tables |
| `Provider.Provider.SetDbName` | dist/indexDb.js:610-622 | an undefined name and a non-string name throw their own errors. A string becomes `dbName`. On error `dbName` is unchanged |
| `Provider.Provider.SetTables` | dist/indexDb.js:629-641 | undefined and non-array arguments throw their own errors. Otherwise `dbTables` becomes what `checkTables` returns, or its error propagates and `dbTables` is unchanged. `dbTables` always stays ready for store creation |
| `Provider.Provider.SetVersion` | dist/indexDb.js:647-663 | undefined, non-number and below-1 versions throw their own errors. Otherwise the version is stored. `dbVersion` is always at least 1 |

## Left out

- The `ModelObject` record operations `deleteId`, `update`, `getByIndex`, `getAll`, `findByIndex`, `find` and `create`. Each opens a connection and works through asynchronous request and cursor callbacks and `rootScope.$apply`, so their behaviour belongs to the browser's store. Only their argument checks are modelled: `checkBaseCallbacks`, which every one of them calls, and `getBounds`, which `getByIndex` uses.
- The argument checks inside those operations (`deleteId` and `findByIndex` reject an undefined key, `findByIndex` and `getByIndex` reject a non-string index, and `getByIndex` rejects bound values that are not an object, which is why `Bounds.BoundDescriptor` is always a record). They run inside the asynchronous operations, and `getByIndex` even runs them inside its `onsuccess` handler.
- `ModelDefination`, the opening of connections, and the `onerror` handlers that throw a connection error. These are I/O.
- `initialize`, the Angular module and provider registration, and the `$window` lookup of the IndexedDB factory. These are framework wiring.
- `console.log` in `createDb`.
- Whether opening the database triggers an upgrade is decided by the browser. It is the `upgradeNeeded` parameter of `Registry.Open`.
- The real `IDBKeyRange` objects and the real object stores. A store is its key path, its auto-increment flag and its index names. The ignored `unique: true` option and the empty `createIndex` options are not represented.
- Bounds.GetBounds: keys are integers, so the ordering of the other IndexedDB key types (dates, strings, binary, arrays) is not modelled, and neither are the exceptions the `IDBKeyRange` factories raise for an invalid key (such as `{lowerBound: {value: null}}`, which passes the `isUndefined` check).
- `parseInt` truncation of fractional versions and `NaN` versions. Versions are unbounded integers, so the cases that only JavaScript doubles have are not modelled: beyond 2^53 a version loses precision, and from 1e21 on `parseInt` reads its exponent notation (`"1e+21"`) and stores 1.
- JavaScript truthiness of non-boolean `keyPath` values. `keyPath` is missing, `true` or `false`.
- A `fields` value that is an object rather than an array, which `angular.forEach` would walk by property; `checkTables` never checks the type of `fields`. (A `tables` value is always an array, because `setTables` rejects anything else first.) Entries that a `Field` or `Table` record cannot hold are not modelled either: a `null` entry in `fields` or `tables` fails with a `TypeError` when `field.name` or `table.name` is read, not with a schema error. A `fields: null` passes the `angular.isDefined` test and reaches `angular.forEach`, which walks nothing, so the table ends up with the same entry as for `fields: []`.
- Registry.Registry.OnSuccess: `models` is a plain JavaScript object, modelled as a map. Table names that collide with `Object.prototype` properties (`"constructor"`, `"toString"`, `"hasOwnProperty"`, `"__proto__"`, …) are not modelled. For them `angular.isUndefined(models[name])` finds the inherited member, so no model is registered. Also, `models["__proto__"] = …` in the upgrade handler replaces the object's prototype rather than adding an entry. `checkTables` accepts these names.
- Registry.Registry.OnUpgradeNeeded: it is only specified for table lists that `checkTables` produced (distinct names, named fields). That is the only kind `createDb` receives. Store and index creation are assumed to accept every key path, and the browser's rejections are not modelled. Three cases are affected. A field name that is not a valid key path (`"first name"`) makes `createIndex` throw a `SyntaxError`. The same name used as the key path (`{name: "first name", keyPath: false}`) makes `createObjectStore` throw. An empty key path with auto-increment (`[{name: "", keyPath: false}]`) makes it throw an `InvalidAccessError`. In the source, such a throw aborts the upgrade: no store is created, `onerror` throws and `onsuccess` never runs, while `models` keeps the entries registered before the bad table.
- Registry.Registry.Open: for the same reason, it promises a store and a model for every declared table even for table lists that the browser would reject during the upgrade.
- Concurrency: several operations racing on the same store, and the Angular digest cycle.
