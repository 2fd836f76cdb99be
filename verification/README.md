# vs-mongo schema reconciliation and batched streaming, in Dafny

This project models the core of `vs-mongo`, a small MongoDB wrapper written
in JavaScript. The model has two halves.

- **Collection-schema reconciliation** (`lib/DB.js`):
  - the per-collection defaults that the `DB` constructor fills in;
  - the comparison of collection options (`DB.compareOptions`);
  - the normalization of index descriptions (`DB.normalizeIndex`);
  - index equivalence (`DB.compareIndexes.couple`);
  - the index diff (`DB.compareIndexes`), which returns either `true` or a `{ remove, create }` plan;
  - the dependency graph of driver calls `DB.setup.indexes` builds from that plan.
- **Collection helpers** (`lib/Collection.js`):
  - the pagination loop of the batched cursor `stream` and its per-fetch option merge;
  - `create`, `objectify`;
  - the argument normalization shared by `save`, `remove` and `refresh`.

JavaScript values are a datatype `JsValue.Value`: undefined, null, booleans,
integers, strings, and objects with a reference number. The coercions the code
relies on are written out explicitly:
- truthiness and `||`;
- `String(v)` and `Number(v)`;
- `+` with a number;
- `Array.prototype.join`;
- loose equality `==`;
- `for (name in v)`.

An object is the sequence of its own properties in enumeration order
(`JsObject.Props`). Assigning a new name appends it, and assigning an
existing name overwrites it in place. That order matters: the conventional
index name (`a_1_b_-1`) is built from the key's enumeration order.

The modules follow the source:

| file | module | models |
|---|---|---|
| `js_object.dfy` | `JsObject` | objects as ordered property lists; `o[k]`, `o[k] = v`, property copying |
| `decimal.dfy` | `Decimal` | decimal text of integers, and integer literals read as numbers |
| `js_value.dfy` | `JsValue` | values, coercions, loose equality, `for ... in` |
| `indexes.dfy` | `Indexes` | `DB.normalizeIndex`, `DB.compareIndexes.couple` |
| `reconcile.dfy` | `Reconcile` | `DB.compareIndexes`, with a reference specification, and the code as written |
| `collection_options.dfy` | `CollectionOptions` | `DB.compareOptions` |
| `db_config.dfy` | `DbConfig` | the `DB` constructor's defaults |
| `setup_plan.dfy` | `SetupPlan` | the drop/create task graph of `DB.setup.indexes` |
| `stream.dfy` | `Stream` | `Collection.prototype.stream` as a state machine over fetch answers |
| `documents.dfy` | `Documents` | `create`, `objectify`, the `save`/`remove`/`refresh` argument normalization |

`DB.compareIndexes` is specified twice: once by its two loops over name-keyed
tables, and once by a reference definition (`Reconcile.RemoveSlot` /
`Reconcile.CreateSlot`). In the reference, a position is dropped or created
when it is the last position its name is known by, and the other side's
winner under that name is not equivalent to it. The lemmas prove that the two
agree. The stream is a function from the sequence of answers `findAll` calls back
with for successive fetches to the sequence of observable events: a fetch at an
offset, `onBatch(docs)`, or the completion callback. It is also driven by a
loop (`Stream.Drive`) that is proved to produce the same events.

Two behaviours of the code that are easy to misread:
- An explicit `capped: false` is not the same as an absent `capped`, because `false == undefined` is false.
- `DB.setup.indexes` reports completion once the drops are done, without waiting for the creations (`lib/DB.js:104`).

## Model

| member | source | states |
|---|---|---|
| `JsObject.Put` | lib/DB.js:126 | assignment `o[k] = v` makes `k` read `v` and leaves every other name as it was |
| `JsObject.PutNames` | lib/DB.js:126 | assignment keeps the position of an existing name and appends a new one, which fixes a table's enumeration order |
| `JsObject.CopyInto` | lib/DB.js:174-176 | a copying loop leaves skipped names and names the source lacks as they were in the target, and loses no target name |
| `JsObject.CopyIntoCopies` | lib/DB.js:186 | every copied name ends with the source's value, and a well-formed target stays free of duplicates |
| `JsObject.CopyAppends` | lib/Collection.js:17-19 | copying into a target that shares no name with the source appends the source in its order |
| `JsObject.MemberIsLookup` | lib/DB.js:135-149 | in a duplicate-free object, a property pair belongs to the object exactly when lookup by its name finds its value |
| `Decimal.IntRoundTrip` | lib/DB.js:182-184 | reading back the decimal text an integer prints as gives the integer |
| `Decimal.NatToStringInjective` | lib/DB.js:182 | distinct positions print as distinct names, so a string key enumerates no name twice |
| `JsValue.LooseEqSymmetric` | lib/DB.js:112-115 | `==` is symmetric on every pair of values |
| `JsValue.LooseEqReflexive` | lib/DB.js:158 | every modelled value is `==` to itself (no NaN is a value) |
| `JsValue.LooseEqNotTransitive` | lib/DB.js:112-115 | `"" == 0` and `0 == "0"` yet `"" != "0"` |
| `JsValue.NumberEqualsItsText` | lib/DB.js:112-115 | every integer is `==` to its own decimal text |
| `JsValue.KeyTextMeansLooseEq` | lib/DB.js:126 | a name whose string form starts with `_` is `==` to that string, so the `!= '_id_'` test and the table key `_id_` agree |
| `JsValue.EnumerateDistinct` | lib/DB.js:174 | enumerating a string or a well-formed object yields no name twice |
| `Indexes.Normalize` | lib/DB.js:168-190 | the result is null exactly for a descriptor that is not an object; a descriptor gets `v` set to the position and no `ns`; a declaration gets `v`, `key` and `name` |
| `Indexes.NormalizePlain` | lib/DB.js:171-177 | a descriptor keeps every field except `v` and `ns`, and `v` becomes the list position |
| `Indexes.NormalizeDeclared` | lib/DB.js:179-187 | a declaration gets `v`, `key` and the derived name, each unless an option overrides it, then every option, and no other field |
| `Indexes.NormalizeExample` | lib/DB.js:179-187 | `[{ a: 1, b: -1 }, { unique: true }]` normalizes to name `a_1_b_-1`, the same key and `unique: true` |
| `Indexes.IndexName` | lib/DB.js:180-184 | the derived name starts with the first key field followed by `_`; an empty key gives the empty name |
| `Indexes.Tokens` | lib/DB.js:182 | the parts list holds each key field followed by its direction, in key order |
| `Indexes.NameRecoversKey` | lib/DB.js:182-184 | when no field or direction contains `_`, splitting the derived name on `_` gives back every field and direction in key order |
| `Indexes.SplitJoin` | lib/DB.js:184 | splitting a join of separator-free parts gives the parts back |
| `Indexes.Couple` | lib/DB.js:154-166 | two indexes couple exactly when both are present and every field other than `v`, `ns` and `key` is `==` on both sides |
| `Indexes.CoupleSymmetric` | lib/DB.js:154-166 | coupling is symmetric |
| `Indexes.CoupleReflexive` | lib/DB.js:154-166 | an index couples with itself exactly when it is present |
| `Reconcile.Admit` | lib/DB.js:124-126 | an index that enters a table is never keyed `_id_` |
| `Reconcile.TableIsLastAdmitted` | lib/DB.js:123-133 | the table holds, under every name, the last position admitted under it |
| `Reconcile.EnterLookup` | lib/DB.js:126 | entering an index into a table sets its name to that index and leaves every other name as it was |
| `Reconcile.RemovalLoopMembers` | lib/DB.js:135-141 | the removal loop pushes an entry exactly when some name it walks looks that entry up in the observed table and the desired table's entry under that name does not couple with it |
| `Reconcile.CreationLoopMembers` | lib/DB.js:143-149 | the creation loop pushes an entry exactly when some name it walks looks that entry up in the desired table and the observed table's entry under that name does not couple with it |
| `Reconcile.WinnerNotEarlier` | lib/DB.js:126 | an admitted position's name always has a winner, at that position or later |
| `Reconcile.RemovalsAreRemoveSlots` | lib/DB.js:135-141 | the removal loop yields exactly the entries of the positions the reference says to drop |
| `Reconcile.CreationsAreCreateSlots` | lib/DB.js:143-149 | the creation loop yields exactly the entries of the positions the reference says to create |
| `Reconcile.CompareIndexes` | lib/DB.js:120-152 | a plan is returned only when something is to be removed or created, every removal is an observed element and every creation a declared one |
| `Reconcile.CompareIndexesAsWritten` | lib/DB.js:120-152 | as written, a plan is returned only when something is to be removed or created, and each planned element is an element of its list or `undefined` |
| `Reconcile.PlanFrom` | lib/DB.js:135-151 | every removal is an observed element and every creation a desired one |
| `Reconcile.CompareIndexesUnchanged` | lib/DB.js:151 | the result is `true` exactly when no position is to be dropped and none to be created |
| `Reconcile.CompareIndexesRemove` | lib/DB.js:135-141 | `remove` holds exactly the raw observed elements at the positions to drop |
| `Reconcile.CompareIndexesCreate` | lib/DB.js:143-149 | `create` holds exactly the raw desired elements at the positions to create |
| `Reconcile.LaterPositionWins` | lib/DB.js:126 | when a name repeats in a list, an earlier position is neither dropped nor created |
| `Reconcile.CompareSelf` | lib/DB.js:120-152 | comparing a list with itself gives `true` |
| `Reconcile.ReservedNeverPlanned` | lib/DB.js:126 | every planned element is the element at some position that normalizes to an index whose name is not `==` `_id_` |
| `Reconcile.AsWrittenAgrees` | lib/DB.js:139 | while no declaration has an option `v`, reading positions back through `v` plans exactly what the reference plans |
| `Reconcile.AsWrittenMisplacesCreate` | lib/DB.js:147 | declaring `[{ a: 1 }, { v: 1 }]` on an empty collection should create that declaration; the code as written creates `undefined` |
| `CollectionOptions.OptionField` | lib/DB.js:110 | a falsy option set reads every field as undefined |
| `CollectionOptions.CompareOptions` | lib/DB.js:109-118 | the options agree exactly when `capped`, `max`, `size` and `autoIndexId` are each `==` on both sides |
| `CollectionOptions.CompareOptionsSymmetric` | lib/DB.js:109-118 | the comparison is symmetric |
| `CollectionOptions.CompareOptionsReflexive` | lib/DB.js:109-118 | every option set agrees with itself |
| `CollectionOptions.MissingIsEmpty` | lib/DB.js:110 | any falsy argument compares as `{ }` |
| `CollectionOptions.OtherFieldsIgnored` | lib/DB.js:112-115 | setting a field outside the four never changes the outcome |
| `CollectionOptions.ExplicitFalseDiffers` | lib/DB.js:112 | `{ capped: false }` differs from `{ }` |
| `CollectionOptions.CappedDiffers` | lib/DB.js:112 | a declaration with `capped: false` differs from a capped collection of size 1024 |
| `CollectionOptions.NumberMeetsText` | lib/DB.js:113 | `{ max: 5 }` agrees with `{ max: "5" }` |
| `DbConfig.WithDefaults` | lib/DB.js:14-19 | a batch size not greater than zero becomes 100 and a positive one is kept; a falsy `create` becomes `{ }`; missing `indexes` become `[ ]`; `dropSync` is kept |
| `DbConfig.WithDefaultsKeepsComplete` | lib/DB.js:14-19 | an entry that already has every default is left unchanged |
| `DbConfig.WithDefaultsIdempotent` | lib/DB.js:13-20 | filling in defaults twice is filling them in once |
| `DbConfig.Configure` | lib/DB.js:13-20 | construction keeps every name in place and fills in the defaults of each entry |
| `DbConfig.ConfigureLookup` | lib/DB.js:13-20 | after construction, lookup by name finds exactly the names it found before, with defaults filled in |
| `DbConfig.ConfigureComplete` | lib/DB.js:13-20 | after construction every entry has a positive batch size, a truthy `create` and an index list |
| `DbConfig.DefaultsExample` | lib/DB.js:14-19 | `{ }` gets everything; a batch size `"5"` is kept; a batch size 0 becomes 100 |
| `SetupPlan.Planned` | lib/DB.js:82-104 | the graph issued when every planned element is an object has one call per removal and creation, and completion waits for exactly the drops |
| `SetupPlan.IndexSetup` | lib/DB.js:79-106 | the whole graph, completion included, is set up exactly when the comparison is `true` or every planned element is an object; otherwise a `TypeError` leaves only a prefix of that graph issued |
| `SetupPlan.IndexSetupThrows` | lib/DB.js:86-101 | the loops stop at the first element that is not an object: a null or undefined removal throws before its `dropIndex` (line 88), any other removal after it (line 92), and a creation after its `createIndex` (line 101) |
| `SetupPlan.PositionKeepingNeverThrows` | lib/DB.js:79-106 | the setup of what the position-keeping comparison plans never throws |
| `SetupPlan.SingleCreationSetup` | lib/DB.js:95-104 | one creation and no removal: `createIndex` is issued, and completion is set up exactly when the index is an object |
| `SetupPlan.AsWrittenSetupThrows` | lib/DB.js:95-104 | declaring `[{ a: 1 }, { v: 1 }]` on an empty collection: as written, `createIndex(undefined)` is issued, then `index.name` throws and the completion is never set up; the position-keeping comparison creates the declaration and completes |
| `SetupPlan.IndexSetupTasks` | lib/DB.js:82-102 | in the graph issued when every element is an object, `true` schedules nothing; otherwise one `dropIndex(key)` per removal, then one `createIndex` per creation, in order |
| `SetupPlan.IndexSetupWaits` | lib/DB.js:88-104 | in the graph issued when every element is an object, drops wait for nothing; every creation waits for every drop; completion waits for exactly the drops |
| `SetupPlan.WrittenOrderIsSchedule` | lib/DB.js:86-102 | in that graph, running the steps in the order they are issued respects every dependency |
| `SetupPlan.DropsBeforeCreates` | lib/DB.js:97 | in every schedule of that graph, every drop runs before every creation |
| `SetupPlan.IndexSetupFromComparison` | lib/DB.js:80-97 | in that graph, every dropped key is the `key` of an observed index, and every created index is a declared one |
| `Stream.Start` | lib/Collection.js:134 | the first offset is `options.skip` when that is truthy, and 0 when it is falsy or `options` is missing; it is never undefined |
| `Stream.StreamRun` | lib/Collection.js:132-166 | the stream's first event is a fetch at `options.skip` when that is truthy, and at 0 otherwise |
| `Stream.Run` | lib/Collection.js:144-158 | every run from an offset begins with a fetch at that offset |
| `Stream.FillMissing` | lib/Collection.js:140-142 | a field that is neither null nor undefined is never overwritten by a caller option |
| `Stream.FetchOptions` | lib/Collection.js:137-142 | every fetch asks for the cursor's `limit`, and for its `skip` whenever that is set |
| `Stream.Receive` | lib/Collection.js:149-163 | the handler fetches again exactly when the answer succeeded with exactly `batchSize` documents |
| `Stream.ReceiveEvents` | lib/Collection.js:149-163 | the handler never fetches by itself; it hands over the documents exactly of a successful, non-empty answer; when it fetches again it does not complete |
| `Stream.LeadingFacts` | lib/Collection.js:157 | the answers counted as leading are full, and the next one is not |
| `Stream.RunFetches` | lib/Collection.js:137-146 | there is one fetch per leading full answer plus one, and the `k`-th is at the start offset advanced `k` times by the batch size |
| `Stream.OffsetNumeric` | lib/Collection.js:146 | from a numeric start `s`, the `k`-th fetch is at `s + k * batchSize` |
| `Stream.RunBatches` | lib/Collection.js:153-155 | `onBatch` receives exactly the documents of the successful, non-empty answers the run takes in, in order |
| `Stream.RunDoneLast` | lib/Collection.js:157-162 | the completion callback is never followed by another event |
| `Stream.RunEnds` | lib/Collection.js:157-162 | the run completes exactly when an answer is not full, with that answer's error or none; a failed fetch emits only the callback; otherwise it waits on a fetch |
| `Stream.ListOutcomesAt` | lib/Collection.js:137-146 | against a fixed list, the `k`-th answer is the list's slice at the `k`-th offset |
| `Stream.ListCount` | lib/Collection.js:157 | against a fixed list, the stream takes `(N - from) / batchSize + 1` answers |
| `Stream.ListBatches` | lib/Collection.js:132-166 | against a fixed list, the batches concatenate to the rest of the list |
| `Stream.ListRun` | lib/Collection.js:132-166 | against a fixed list: the whole rest handed over in order, `(N - from) / batchSize + 1` fetches at `from + k * batchSize`, completion without error |
| `Stream.StreamFromOffset` | lib/Collection.js:132-166 | `stream(query, { skip: from }, ...)` over a fixed list hands over the rest of the list in order, fetching at `from + k * batchSize`, and completes without error |
| `Stream.ListExample` | lib/Collection.js:132-166 | four documents in batches of two take fetches at 0, 2 and 4 |
| `Stream.ErrorExample` | lib/Collection.js:162 | a failure on the second fetch gives one batch, then the callback with the error, and no third fetch |
| `Stream.FillMissingFacts` | lib/Collection.js:140-142 | the merge leaves a set field alone, fills an unset one from the caller's option of that name, and touches nothing else |
| `Stream.FetchOptionsContract` | lib/Collection.js:137-142 | every fetch asks for the cursor's `skip` and `limit` whatever the caller passed under those names, and for every other caller option as given |
| `Stream.Drive` | lib/Collection.js:144-165 | driving the cursor through its callbacks produces exactly the run's events |
| `Documents.AsList` | lib/Collection.js:33 | an array is kept; a single value gives a one-element list exactly when it is truthy, and that element is the value |
| `Documents.AsListSettled` | lib/Collection.js:55 | normalizing an already normalized list changes nothing, and a single value never yields a falsy element |
| `Documents.Objectify` | lib/Collection.js:243-255 | an array objectifies to an array of the same length; anything else goes through the leaf constructor |
| `Documents.ObjectifyMaps` | lib/Collection.js:244-251 | objectify keeps the nesting shape, and its documents are the input's documents through the leaf constructor, in order |
| `Documents.ObjectifyAllAt` | lib/Collection.js:247-249 | the `i`-th element of an objectified array is the `i`-th element objectified |
| `Documents.CreateDoc` | lib/Collection.js:11-23 | every property other than `_id` is copied from `doc \|\| { }`; `_id` is kept when truthy, else it is the fresh id |
| `Documents.CreateNames` | lib/Collection.js:17-23 | the created document lists the source's properties in order, with `_id` appended only when the source lacks it |
| `Documents.CreateKeepsId` | lib/Collection.js:21-23 | with a truthy `_id`, the fresh id does not matter |
| `Documents.CreateIdempotent` | lib/Collection.js:11-23 | creating from a created document gives the same document back |

## Left out

- The `vs-bond` task executor is not part of this model. Its `run`, `dep`, `obj` and `callback` appear only as the dependency sets of `SetupPlan.Plan`. When a task actually runs, and what happens when one fails, are not modelled.
- All MongoDB driver calls are I/O against an external store and are left out. These are `connect`, `collection`, `options`, `indexes`, `drop`, `createCollection`, `dropIndex`, `createIndex`, `find().toArray`, `save`, `remove`, `findOne`, `count` and `close`. The store appears only through the answers handed to the stream. An answer is the array `findAll` calls back with: the store's documents after `Collection.objectify` (`lib/Collection.js:118-122`).
- `DB.prototype.connect`/`disconnect`, `DB.setup` and `DB.setup.options` are orchestration over the driver and are left out.
  - This includes the `dropSync` switch and the drop-and-recreate of a collection whose options differ.
  - `DB.setup` passes `setup.indexes` the index list it fetched before the options phase (`lib/DB.js:58-61`). Whether that list is stale after a recreate is not modelled.
- The per-document facade is left out, apart from its argument normalization: `save`, `remove`, `refresh`, `findOne`, `findAll`, `count`, `removeOne`, `removeAll`, `extend` and `Collection.wrap.*`.
- `create`'s optional `wrapper` argument and the copying of the wrapper methods onto it (`lib/Collection.js:13-15, 25-27`) are left out. `Documents.CreateDoc` is the new `doc` only.
- `new mongo.ObjectID()` is the parameter `newId`.
- Documents.Objectify: the leaf constructor (`new Class(doc)` or `collection.create(doc)`) is a parameter. The fresh id each `create` call draws is therefore not tracked per element.
- Logging is left out: `DB.log` and the log callbacks in `DB.setup.indexes`. The `normalizeIndex` calls there exist only to name an index in a log line, but reading `index.name` from them throws for an element that is not an object (`lib/DB.js:92, 101`); `SetupPlan.IndexSetup` models that throw.
- Numbers are integers only. There are no fractions, NaN values, infinities or floating-point rounding. `Number(s)` reads only an optional sign and decimal digits (`""` is 0). Whitespace, decimal points, exponents and hex are not modelled, and text that is none of these reads as NaN.
- For-in order is the property order as given. JavaScript's rule that integer-like names come first is not modelled.
- Arrays are not values. A declaration is `Indexes.RawIndex.Declared`, a configuration's `indexes` is an optional list, and an argument that may be an array is `Documents.Arg`. An array used as an index key, as options or as a document is not modelled.
- Stream.StreamRun: the batch size is a positive integer. The constructor guarantees `batchSize > 0`, but a numeric string such as `"5"` also passes that guard. The stream would then concatenate `skip += "5"`, and that case is not modelled.
- Stream.Run: `onBatch` and `callback` are taken to be present (the source guards both with `if`). The `query` and `Class` arguments are handed to `findAll` and are not modelled. `Class` is applied inside `findAll`, which calls back with the documents already objectified (`lib/Collection.js:118-122`), so the answers of the model are those objectified documents, not the store's raw ones. A fetch event records only its offset; the rest of its options is `Stream.FetchOptions`, the same for every fetch.
- Reconcile.CompareIndexesAsWritten: `idxA[a.v]` and `idxB[b.v]` are read only as list positions, and any other `v` gives undefined. In the code, a `v` that names an array member (`length`, `push`, `toString`, ...) yields that member: `[[{ a: 1 }, { v: "length" }]]` creates `1`. Such values of `v` are not modelled.
- DbConfig.CollectionConfig: a configuration entry is a record of exactly four fields. Three behaviours of the constructor loop cannot be represented:
  - a null or undefined entry makes `this.config[name].batchSize` throw (`lib/DB.js:14`);
  - a primitive entry silently keeps none of the three defaults;
  - any other property of an entry is dropped.
  `indexes` is `None` for a falsy value and the list otherwise; a truthy `indexes` that is not an array is not modelled.
- JsValue.Field: an object has only its own properties. Reading a name inherited from `Object.prototype` (`toString`, `constructor`, ...) gives undefined in the model, but the inherited member in the code. Assigning `__proto__` is an ordinary property in the model, but sets the prototype in the code. This matters for `hashA[hash]` and `hashB[hash]` (`lib/DB.js:136, 144`) and for `opts[name] == null` (`lib/Collection.js:141`). For example, an observed index `{ v, key, name: 'toString', ns }` with no declared counterpart meets `Object.prototype.toString` in the code, couples with it, and is kept; the model drops it. Index names and option names that collide with inherited members are therefore not modelled.

## Findings

| source | as written | input that shows it | evidently intended | confidence | as-written member | corrected member |
|---|---|---|---|---|---|---|
| lib/DB.js:139-147 | `remove` and `create` push `idxA[a.v]` and `idxB[b.v]`, reading each list position back from the normalized index's `v` field. A declared option `v` overrides that field (`lib/DB.js:184-186`). For a misplaced `undefined` creation, `DB.setup.indexes` issues `createIndex(undefined)` and then throws at lib/DB.js:101 reading `index.name`, so the completion callback is never set up | the desired list `[[{ a: 1 }, { v: 1 }]]` against an empty observed list: `create` is `[undefined]` (position 1 does not exist) | push the element at the position the index was normalized from, `[[{ a: 1 }, { v: 1 }]]` | not executed; the counterexample is proved in the model | `Reconcile.CompareIndexesAsWritten`, `Reconcile.AsWrittenMisplacesCreate`, `SetupPlan.AsWrittenSetupThrows` | `Reconcile.CompareIndexes`, `Reconcile.AsWrittenAgrees`, `SetupPlan.PositionKeepingNeverThrows` |
