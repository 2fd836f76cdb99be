/** The per-collection defaults the `DB` constructor fills in (lib/DB.js,
    lines 10-21): a batch size that is not greater than zero becomes 100, a
    falsy `create` becomes `{ }`, and a falsy `indexes` becomes `[ ]`. */
module DbConfig {
  import opened JsObject
  import opened JsValue
  import opened Indexes
  import opened Decimal

  const DefaultBatchSize: int := 100

  /** One entry of the configuration object, `config[name]`.  `indexes` is
      `None` for a falsy value and the array otherwise. */
  datatype CollectionConfig = CollectionConfig(
    batchSize: Value,
    dropSync: Value,
    create: Value,
    indexes: Option<seq<RawIndex>>)

  type Config = Props<CollectionConfig>

  /** `v > 0` */
  predicate Positive(v: Value) {
    ToNumber(v).Some? && ToNumber(v).value > 0
  }

  /** The body of the constructor's loop, for one entry. */
  function WithDefaults(c: CollectionConfig): (r: CollectionConfig)
    ensures Positive(r.batchSize) && Truthy(r.create) && r.indexes.Some?
    ensures Positive(c.batchSize) ==> r.batchSize == c.batchSize
    ensures !Positive(c.batchSize) ==> r.batchSize == Num(DefaultBatchSize)
    ensures Truthy(c.create) ==> r.create == c.create
    ensures !Truthy(c.create) ==> r.create == EmptyObject
    ensures c.indexes.Some? ==> r.indexes == c.indexes
    ensures c.indexes.None? ==> r.indexes == Some([])
    ensures r.dropSync == c.dropSync
  {
    var c1 := if !Positive(c.batchSize) then c.(batchSize := Num(DefaultBatchSize)) else c;
    var c2 := if !Truthy(c1.create) then c1.(create := EmptyObject) else c1;
    if c2.indexes.None? then c2.(indexes := Some([])) else c2
  }

  /** `new DB(uri, config)`: every entry, in place. */
  function Configure(config: Config): (r: Config)
    ensures Names(r) == Names(config)
    ensures forall i :: 0 <= i < |config| ==> r[i].1 == WithDefaults(config[i].1)
  {
    if |config| == 0 then []
    else [(config[0].0, WithDefaults(config[0].1))] + Configure(config[1..])
  }

  /** A complete entry: what every entry looks like after construction. */
  predicate Complete(c: CollectionConfig) {
    Positive(c.batchSize) && Truthy(c.create) && c.indexes.Some?
  }

  /** Defaults are only filled in where missing: a complete entry is left
      as it is, and filling in twice is filling in once. */
  lemma WithDefaultsKeepsComplete(c: CollectionConfig)
    requires Complete(c)
    ensures WithDefaults(c) == c
  {
  }

  lemma WithDefaultsIdempotent(c: CollectionConfig)
    ensures WithDefaults(WithDefaults(c)) == WithDefaults(c)
  {
    WithDefaultsKeepsComplete(WithDefaults(c));
  }

  /** After construction every entry is complete, under the same name, and
      lookup by name finds the entry with defaults filled in. */
  lemma {:induction false} ConfigureLookup(config: Config, name: string)
    ensures Get(Configure(config), name).Some? <==> Get(config, name).Some?
    ensures Get(config, name).Some? ==> Get(Configure(config), name) == Some(WithDefaults(Get(config, name).value))
  {
    if |config| > 0 && config[0].0 != name {
      ConfigureLookup(config[1..], name);
      assert Configure(config)[1..] == Configure(config[1..]);
    }
  }

  lemma ConfigureComplete(config: Config)
    ensures forall i :: 0 <= i < |Configure(config)| ==> Complete(Configure(config)[i].1)
  {
  }

  /** The examples: `{ }` gets everything, a string batch size that reads as
      a positive number is kept, and a zero batch size is replaced. */
  lemma DefaultsExample()
    ensures WithDefaults(CollectionConfig(Undefined, Bool(true), Undefined, None))
      == CollectionConfig(Num(100), Bool(true), EmptyObject, Some([]))
    ensures WithDefaults(CollectionConfig(Str("5"), Undefined, Undefined, None)).batchSize == Str("5")
    ensures WithDefaults(CollectionConfig(Num(0), Undefined, Undefined, Some([]))).batchSize == Num(100)
  {
    assert ToNumber(Str("5")) == Some(5) by {
      assert AllDigits("5");
      assert DigitsValue("5") == DigitsValue("") * 10 + 5;
    }
  }
}
