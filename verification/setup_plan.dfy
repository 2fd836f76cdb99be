/** The dependency graph of driver calls `DB.setup.indexes` (lib/DB.js, lines 79-106) builds from
    the outcome of `DB.compareIndexes`: one `dropIndex` task per index to
    remove, one `createIndex` task per index to create, each waiting for
    every `dropIndex`, and the completion callback waiting for the
    `dropIndex` tasks only.  A planned element that is not an object makes
    the loops throw a `TypeError` part-way, and the completion callback is
    then never set up.  The executor that runs the graph is not part of
    this model; a schedule is any order of the steps that respects what each
    one waits for. */
module SetupPlan {
  import opened JsObject
  import opened JsValue
  import opened Indexes
  import opened Reconcile

  datatype Task = DropIndex(key: Value) | CreateIndex(index: RawIndex)

  /** A task and the positions of the steps it waits for. */
  datatype Step = Step(task: Task, after: set<nat>)

  /** The steps, and the positions of those the completion callback waits for. */
  datatype Plan = Plan(steps: seq<Step>, done: set<nat>)

  /** What `DB.setup.indexes` leaves behind: the whole graph with its
      completion, or the steps issued before a `TypeError` ended the loops. */
  datatype Setup = Issued(plan: Plan) | Threw(issued: seq<Step>)

  /** `idxCmpr.remove[i].key`: a declaration is an array and has no `key`. */
  function KeyOf(index: RawIndex): Value {
    match index
    case Plain(v) => Member(v, "key")
    case Declared(_) => Undefined
  }

  /** `index instanceof Object`: `DB.normalizeIndex` gives null for anything else. */
  predicate IsObject(index: RawIndex) {
    index.Declared? || index.value.Obj?
  }

  /** The position of the first element that is not an object, or the length. */
  function FirstNonObject(list: seq<RawIndex>): (k: nat)
    ensures k <= |list|
    ensures forall i :: 0 <= i < k ==> IsObject(list[i])
    ensures k < |list| ==> !IsObject(list[k])
  {
    if |list| == 0 || !IsObject(list[0]) then 0 else 1 + FirstNonObject(list[1..])
  }

  /** The positions below `n`. */
  function Below(n: nat): (r: set<nat>)
    ensures forall i: nat :: i in r <==> i < n
  {
    if n == 0 then {} else Below(n - 1) + {n - 1}
  }

  /** The graph the two loops issue when every planned element is an object:
      `true` calls back at once; otherwise the drops come first, in `remove`
      order, then the creations, in `create` order. */
  function Planned(c: Comparison): (r: Plan)
    ensures c.Changes? ==> |r.steps| == |c.remove| + |c.create|
    ensures forall d: nat :: d in r.done <==> d < |r.steps| && r.steps[d].task.DropIndex?
  {
    match c
    case Unchanged => Plan([], {})
    case Changes(remove, create) =>
      var drops := seq(|remove|, i requires 0 <= i < |remove| => Step(DropIndex(KeyOf(remove[i])), {}));
      var creates := seq(|create|, j requires 0 <= j < |create| => Step(CreateIndex(create[j]), Below(|remove|)));
      Plan(drops + creates, Below(|remove|))
  }

  /** `DB.setup.indexes(collection, config, indexes, callback)` once the
      comparison is known.  For a removal that is not an object,
      `remove[i].key` throws at once when it is null or undefined, and
      otherwise `dropIndex` is issued and the log argument `index.name`
      throws; for a creation that is not an object, `createIndex` is issued
      and `index.name` throws. */
  function IndexSetup(c: Comparison): (r: Setup)
    ensures r.Issued? <==>
      || c.Unchanged?
      || ((forall x :: x in c.remove ==> IsObject(x)) && (forall x :: x in c.create ==> IsObject(x)))
    ensures r.Issued? ==> r.plan == Planned(c)
    ensures r.Threw? ==> r.issued <= Planned(c).steps
  {
    match c
    case Unchanged => Issued(Planned(c))
    case Changes(remove, create) =>
      var p := Planned(c);
      var i, j := FirstNonObject(remove), FirstNonObject(create);
      if i < |remove| then
        assert remove[i] in remove;
        Threw(p.steps[..if Nullish(remove[i].value) then i else i + 1])
      else if j < |create| then
        assert create[j] in create;
        Threw(p.steps[..|remove| + j + 1])
      else
        Issued(p)
  }

  /** A `TypeError` ends the loops at the first element that is not an
      object: every call before it is issued, and so is the one for that
      element unless it is a null or undefined removal. */
  lemma IndexSetupThrows(c: Comparison)
    requires c.Changes?
    ensures var i, j := FirstNonObject(c.remove), FirstNonObject(c.create);
      && (i < |c.remove| ==>
            IndexSetup(c).Threw? && |IndexSetup(c).issued| == (if Nullish(c.remove[i].value) then i else i + 1))
      && (i == |c.remove| && j < |c.create| ==>
            IndexSetup(c).Threw? && |IndexSetup(c).issued| == |c.remove| + j + 1)
  {
  }

  /** The position-keeping comparison plans only objects, so its setup never throws. */
  lemma PositionKeepingNeverThrows(observed: seq<RawIndex>, desired: seq<RawIndex>)
    ensures IndexSetup(CompareIndexes(observed, desired)).Issued?
  {
    var c := CompareIndexes(observed, desired);
    ReservedNeverPlanned(observed, desired);
    if c.Changes? {
      forall x | x in c.remove ensures IsObject(x) {
        var p: nat :| p < |observed| && x == observed[p] && Normalize(x, p).Some?;
      }
      forall x | x in c.create ensures IsObject(x) {
        var q: nat :| q < |desired| && x == desired[q] && Normalize(x, q).Some?;
      }
    }
  }

  /** On the declaration `[{ a: 1 }, { v: 1 }]` against an empty collection
      the comparison as written plans `createIndex(undefined)`, which is
      issued before `index.name` throws; the completion callback is never
      set up.  The position-keeping comparison issues the declaration and
      completes. */
  lemma AsWrittenSetupThrows()
    ensures var d := [Declared([Obj(1, [("a", Num(1))]), Obj(2, [("v", Num(1))])])];
      && IndexSetup(CompareIndexesAsWritten([], d)) == Threw([Step(CreateIndex(Plain(Undefined)), {})])
      && IndexSetup(CompareIndexes([], d)) == Issued(Plan([Step(CreateIndex(d[0]), {})], {}))
  {
    AsWrittenMisplacesCreate();
    MisplacedCreateSetup([Declared([Obj(1, [("a", Num(1))]), Obj(2, [("v", Num(1))])])]);
  }

  /** Setting up a single declaration that the code as written misplaces. */
  lemma MisplacedCreateSetup(d: seq<RawIndex>)
    requires |d| == 1 && d[0].Declared?
    requires CompareIndexes([], d) == Changes([], d)
    requires CompareIndexesAsWritten([], d) == Changes([], [Plain(Undefined)])
    ensures IndexSetup(CompareIndexesAsWritten([], d)) == Threw([Step(CreateIndex(Plain(Undefined)), {})])
    ensures IndexSetup(CompareIndexes([], d)) == Issued(Plan([Step(CreateIndex(d[0]), {})], {}))
  {
    SingleCreationSetup(Plain(Undefined));
    assert d == [d[0]];
    SingleCreationSetup(d[0]);
  }

  /** One index to create and none to remove: `createIndex` is issued, and
      the setup completes exactly when the index is an object. */
  lemma SingleCreationSetup(x: RawIndex)
    ensures IsObject(x) ==> IndexSetup(Changes([], [x])) == Issued(Plan([Step(CreateIndex(x), {})], {}))
    ensures !IsObject(x) ==> IndexSetup(Changes([], [x])) == Threw([Step(CreateIndex(x), {})])
  {
    var c := Changes([], [x]);
    assert Below(0) == {};
    assert Planned(c).steps == [Step(CreateIndex(x), {})];
    assert c.create[1..] == [];
  }

  predicate IsDrop(p: Plan, i: nat) {
    i < |p.steps| && p.steps[i].task.DropIndex?
  }

  predicate IsCreate(p: Plan, i: nat) {
    i < |p.steps| && p.steps[i].task.CreateIndex?
  }

  /** An order in which the steps may run: each task once, and none before a
      task it waits for. */
  predicate Schedule(p: Plan, order: seq<nat>) {
    && |order| == |p.steps|
    && (forall a :: 0 <= a < |order| ==> order[a] < |p.steps|)
    && (forall a, b :: 0 <= a < b < |order| ==> order[a] != order[b])
    && (forall a, b :: 0 <= a < b < |order| ==> order[b] !in p.steps[order[a]].after)
  }

  /** `0, 1, ..., n - 1` */
  function Iota(n: nat): (r: seq<nat>)
    ensures |r| == n && forall i :: 0 <= i < n ==> r[i] == i
  {
    if n == 0 then [] else Iota(n - 1) + [n - 1]
  }

  /** The steps in order: one drop per index to remove, with its `key`, then
      one creation per index to create, with the raw descriptor. */
  lemma IndexSetupTasks(c: Comparison)
    ensures c.Unchanged? ==> Planned(c) == Plan([], {})
    ensures c.Changes? ==> var p := Planned(c);
      && |p.steps| == |c.remove| + |c.create|
      && (forall i :: 0 <= i < |c.remove| ==> p.steps[i].task == DropIndex(KeyOf(c.remove[i])))
      && (forall j :: 0 <= j < |c.create| ==> p.steps[|c.remove| + j].task == CreateIndex(c.create[j]))
  {
  }

  /** No drop waits for anything, every creation waits for every drop, and
      the completion callback waits for exactly the drops: it does not wait
      for any creation. */
  lemma IndexSetupWaits(c: Comparison)
    ensures var p := Planned(c);
      && (forall i :: 0 <= i < |p.steps| && IsDrop(p, i) ==> p.steps[i].after == {})
      && (forall i :: 0 <= i < |p.steps| && IsCreate(p, i) ==> forall d: nat :: d in p.steps[i].after <==> IsDrop(p, d))
      && (forall d: nat :: d in p.done <==> IsDrop(p, d))
  {
  }

  /** The steps in the order they are written form a schedule: nothing waits
      for a later task. */
  lemma WrittenOrderIsSchedule(c: Comparison)
    ensures Schedule(Planned(c), Iota(|Planned(c).steps|))
  {
    var p := Planned(c);
    var order := Iota(|p.steps|);
    IndexSetupWaits(c);
    forall a, b | 0 <= a < b < |order| ensures order[b] !in p.steps[order[a]].after {
      if IsCreate(p, a) {
        assert !IsDrop(p, b);
      }
    }
  }

  /** In every schedule, no index is created before every drop has run. */
  lemma DropsBeforeCreates(c: Comparison, order: seq<nat>, a: nat, b: nat)
    requires Schedule(Planned(c), order)
    requires a < |order| && b < |order|
    requires IsDrop(Planned(c), order[a]) && IsCreate(Planned(c), order[b])
    ensures a < b
  {
    var p := Planned(c);
    IndexSetupWaits(c);
    if b < a {
      assert false;
    }
  }

  /** Every dropped key is the `key` of an observed index, and every created
      index is a declared one. */
  lemma IndexSetupFromComparison(observed: seq<RawIndex>, desired: seq<RawIndex>)
    ensures var p := Planned(CompareIndexes(observed, desired));
      forall i :: 0 <= i < |p.steps| ==>
        match p.steps[i].task
        case DropIndex(k) => exists x :: x in observed && k == KeyOf(x)
        case CreateIndex(x) => x in desired
  {
    var c := CompareIndexes(observed, desired);
    var p := Planned(c);
    IndexSetupTasks(c);
    if c.Changes? {
      forall i | 0 <= i < |p.steps|
        ensures match p.steps[i].task
          case DropIndex(k) => exists x :: x in observed && k == KeyOf(x)
          case CreateIndex(x) => x in desired
      {
        if i < |c.remove| {
          assert c.remove[i] in c.remove;
        } else {
          assert c.create[i - |c.remove|] in c.create;
        }
      }
    }
  }
}
