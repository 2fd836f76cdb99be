/** The batched cursor of `Collection.prototype.stream` (lib/Collection.js,
    lines 132-166) as a state machine.  Its state is the offset `skip` of
    the next fetch; each fetch asks the store for at most `batchSize`
    documents from that offset, and the store's answer decides what happens
    next: an error ends the stream with that error, a non-empty batch is
    handed to `onBatch`, and only a batch of exactly `batchSize` documents
    leads to another fetch.

    The asynchronous scheduling is replaced by a sequence of answers, one
    per fetch, in order; the run is the sequence of observable events. */
module Stream {
  import opened JsObject
  import opened JsValue

  /** A document as `findAll` calls back with it: already passed through
      `Collection.objectify` with the stream's `Class` (lib/Collection.js,
      lines 118-122).  The stream only passes it on. */
  type Doc = Value

  /** The `(error, value)` pair a fetch completes with. */
  datatype Outcome = Outcome(error: Value, value: Option<seq<Doc>>)

  datatype Event =
    | Fetch(skip: Value)         // `findAll(query, FetchOptions(skip, ...), ...)`
    | OnBatch(docs: seq<Doc>)    // `onBatch(value)`
    | Done(error: Option<Value>) // `callback()` or `callback(error)`

  predicate Failed(o: Outcome) {
    Truthy(o.error)
  }

  /** `value || [ ]` */
  function Docs(o: Outcome): seq<Doc> {
    if o.value.Some? then o.value.value else []
  }

  /** A successful answer of exactly `bs` documents: the one kind that fetches again. */
  predicate Full(bs: nat, o: Outcome) {
    !Failed(o) && |Docs(o)| == bs
  }

  /** `skip = (options || { }).skip || 0` */
  function Start(options: Value): (r: Value)
    ensures !r.Undefined?
    ensures Truthy(Member(Or(options, EmptyObject), "skip")) ==> r == Member(options, "skip")
    ensures !Truthy(Member(Or(options, EmptyObject), "skip")) ==> r == Num(0)
  {
    Or(Member(Or(options, EmptyObject), "skip"), Num(0))
  }

  /** `for (name in src) if (opts[name] == null) opts[name] = src[name]` */
  function FillMissing(opts: Props<Value>, src: Props<Value>): (r: Props<Value>)
    ensures forall n :: !Nullish(Field(opts, n)) ==> Field(r, n) == Field(opts, n)
    decreases |src|
  {
    if |src| == 0 then opts
    else
      var (name, value) := src[0];
      var next := if LooseEq(Field(opts, name), Null) then Put(opts, name, value) else opts;
      FillMissing(next, src[1..])
  }

  /** The options of one fetch: the cursor's `skip` and `limit`, then every
      caller option the cursor has not set. */
  function FetchOptions(skip: Value, bs: nat, options: Value): (r: Props<Value>)
    ensures !Nullish(skip) ==> Field(r, "skip") == skip
    ensures Field(r, "limit") == Num(bs)
  {
    var base := [("skip", skip), ("limit", Num(bs))];
    assert base[1..] == [("limit", Num(bs))] && Get(base[1..], "limit") == Some(Num(bs));
    assert Field(base, "skip") == skip && Field(base, "limit") == Num(bs);
    FillMissing(base, Enumerate(Or(options, EmptyObject)))
  }

  /** The `done` handler for one answer: the events it emits, and whether it
      fetches again. */
  function Receive(bs: nat, o: Outcome): (r: (seq<Event>, bool))
    ensures r.1 <==> Full(bs, o)
  {
    if Failed(o) then ([Done(Some(o.error))], false)
    else
      var docs := Docs(o);
      var batch := if |docs| > 0 then [OnBatch(docs)] else [];
      if |docs| == bs then (batch, true) else (batch + [Done(None)], false)
  }

  /** The run from a fetch at offset `skip`, given the answers to it and to
      every later fetch.  When the answers run out the stream is waiting for
      the last fetch. */
  function Run(skip: Value, bs: nat, outs: seq<Outcome>): (r: seq<Event>)
    requires bs > 0 && !skip.Undefined?
    ensures |r| > 0 && r[0] == Fetch(skip)
    decreases |outs|
  {
    var fetch := Fetch(skip);
    if |outs| == 0 then [fetch]
    else
      var (evs, again) := Receive(bs, outs[0]);
      if again then [fetch] + evs + Run(AddNumber(skip, bs), bs, outs[1..])
      else [fetch] + evs
  }

  /** `collection.stream(query, options, onBatch, callback)` with a batch size `bs`. */
  function StreamRun(bs: nat, options: Value, outs: seq<Outcome>): (r: seq<Event>)
    requires bs > 0
    ensures |r| > 0
    ensures Truthy(Member(Or(options, EmptyObject), "skip")) ==> r[0] == Fetch(Member(options, "skip"))
    ensures !Truthy(Member(Or(options, EmptyObject), "skip")) ==> r[0] == Fetch(Num(0))
  {
    Run(Start(options), bs, outs)
  }

  // ---------------------------------------------------------------------
  // Reference definitions.

  /** The offset of the `k`-th fetch: `skip += batchSize`, `k` times. */
  function Offset(start: Value, bs: nat, k: nat): (r: Value)
    requires !start.Undefined?
    ensures !r.Undefined?
  {
    if k == 0 then start else AddNumber(Offset(start, bs, k - 1), bs)
  }

  /** How many answers at the front are full. */
  function Leading(bs: nat, outs: seq<Outcome>): (n: nat)
    ensures n <= |outs|
  {
    if |outs| == 0 || !Full(bs, outs[0]) then 0 else 1 + Leading(bs, outs[1..])
  }

  /** The answers before `Leading` are full, and the one at it is not. */
  lemma {:induction false} LeadingFacts(bs: nat, outs: seq<Outcome>)
    ensures forall i :: 0 <= i < Leading(bs, outs) ==> Full(bs, outs[i])
    ensures Leading(bs, outs) < |outs| ==> !Full(bs, outs[Leading(bs, outs)])
  {
    if |outs| > 0 && Full(bs, outs[0]) {
      LeadingFacts(bs, outs[1..]);
      forall i | 0 < i < Leading(bs, outs) ensures Full(bs, outs[i]) {
        assert outs[i] == outs[1..][i - 1];
      }
    }
  }

  /** How many answers the run takes in: the full ones at the front and the
      one after them. */
  function Consumed(bs: nat, outs: seq<Outcome>): nat {
    if Leading(bs, outs) < |outs| then Leading(bs, outs) + 1 else |outs|
  }

  /** The documents of every successful, non-empty answer, in order. */
  function Delivered(outs: seq<Outcome>): seq<seq<Doc>> {
    if |outs| == 0 then []
    else (if !Failed(outs[0]) && |Docs(outs[0])| > 0 then [Docs(outs[0])] else []) + Delivered(outs[1..])
  }

  /** The offsets of the fetches of a run. */
  function FetchSkips(events: seq<Event>): seq<Value> {
    if |events| == 0 then []
    else if events[0].Fetch? then [events[0].skip] + FetchSkips(events[1..])
    else FetchSkips(events[1..])
  }

  /** The batches handed to `onBatch` in a run. */
  function Batches(events: seq<Event>): seq<seq<Doc>> {
    if |events| == 0 then []
    else if events[0].OnBatch? then [events[0].docs] + Batches(events[1..])
    else Batches(events[1..])
  }

  function Concat(parts: seq<seq<Doc>>): seq<Doc> {
    if |parts| == 0 then [] else parts[0] + Concat(parts[1..])
  }

  // ---------------------------------------------------------------------
  // Facts about a run.

  lemma {:induction false} FetchSkipsAppend(a: seq<Event>, b: seq<Event>)
    ensures FetchSkips(a + b) == FetchSkips(a) + FetchSkips(b)
  {
    if |a| == 0 {
      assert a + b == b;
    } else {
      FetchSkipsAppend(a[1..], b);
      assert (a + b)[1..] == a[1..] + b;
      assert (a + b)[0] == a[0];
      if a[0].Fetch? {
        var x, y, z := [a[0].skip], FetchSkips(a[1..]), FetchSkips(b);
        assert x + (y + z) == (x + y) + z;
      }
    }
  }

  lemma {:induction false} BatchesAppend(a: seq<Event>, b: seq<Event>)
    ensures Batches(a + b) == Batches(a) + Batches(b)
  {
    if |a| == 0 {
      assert a + b == b;
    } else {
      BatchesAppend(a[1..], b);
      assert (a + b)[1..] == a[1..] + b;
      assert (a + b)[0] == a[0];
      if a[0].OnBatch? {
        var x, y, z := [a[0].docs], Batches(a[1..]), Batches(b);
        assert x + (y + z) == (x + y) + z;
      }
    }
  }

  /** The `done` handler never fetches by itself, and hands over the answer's
      documents exactly when the answer is successful and non-empty. */
  lemma {:induction false} ReceiveEvents(bs: nat, o: Outcome)
    ensures var evs := Receive(bs, o).0;
      && FetchSkips(evs) == []
      && Batches(evs) == Delivered([o])
      && (forall i :: 0 <= i < |evs| ==> !evs[i].Fetch?)
      && (Receive(bs, o).1 ==> forall i :: 0 <= i < |evs| ==> !evs[i].Done?)
  {
    var evs := Receive(bs, o).0;
    assert Delivered([o]) == (if !Failed(o) && |Docs(o)| > 0 then [Docs(o)] else []) + Delivered([o][1..]);
    assert [o][1..] == [];
    if Failed(o) {
      assert evs == [Done(Some(o.error))];
    } else if |Docs(o)| > 0 && |Docs(o)| != bs {
      assert evs == [OnBatch(Docs(o)), Done(None)];
      assert evs[1..] == [Done(None)] && evs[1..][1..] == [];
      assert FetchSkips(evs[1..]) == [];
      assert Batches(evs[1..]) == [];
    } else if |Docs(o)| > 0 {
      assert evs == [OnBatch(Docs(o))];
    } else if |Docs(o)| != bs {
      assert evs == [Done(None)];
    } else {
      assert evs == [];
    }
  }

  /** One round of the loop: a fetch, the handler's events, and the rest of
      the run when the handler fetches again. */
  lemma {:induction false} RunStep(skip: Value, bs: nat, outs: seq<Outcome>)
    requires bs > 0 && !skip.Undefined? && |outs| > 0
    ensures var (evs, again) := Receive(bs, outs[0]);
      Run(skip, bs, outs) ==
        [Fetch(skip)] + evs
        + (if again then Run(AddNumber(skip, bs), bs, outs[1..]) else [])
  {
  }

  /** The offsets of a run's fetches: this round's, then those of the rest
      of the run when the handler fetches again. */
  lemma RunSkips(skip: Value, bs: nat, outs: seq<Outcome>)
    requires bs > 0 && !skip.Undefined?
    ensures |outs| == 0 || !Full(bs, outs[0]) ==> FetchSkips(Run(skip, bs, outs)) == [skip]
    ensures |outs| > 0 && Full(bs, outs[0]) ==>
      FetchSkips(Run(skip, bs, outs)) == [skip] + FetchSkips(Run(AddNumber(skip, bs), bs, outs[1..]))
  {
    var fetch := Fetch(skip);
    if |outs| == 0 {
      assert FetchSkips([fetch]) == [skip] + FetchSkips([fetch][1..]);
    } else {
      var (evs, again) := Receive(bs, outs[0]);
      ReceiveEvents(bs, outs[0]);
      RunStep(skip, bs, outs);
      FetchSkipsAppend([fetch], evs);
      assert FetchSkips([fetch]) == [skip] + FetchSkips([fetch][1..]);
      if again {
        FetchSkipsAppend([fetch] + evs, Run(AddNumber(skip, bs), bs, outs[1..]));
      } else {
        assert Run(skip, bs, outs) == [fetch] + evs + [];
      }
    }
  }

  /** There is one fetch per full answer at the front, plus one. */
  lemma {:induction false} RunFetchCount(skip: Value, bs: nat, outs: seq<Outcome>)
    requires bs > 0 && !skip.Undefined?
    ensures |FetchSkips(Run(skip, bs, outs))| == Leading(bs, outs) + 1
    decreases |outs|
  {
    RunSkips(skip, bs, outs);
    if |outs| > 0 && Full(bs, outs[0]) {
      RunFetchCount(AddNumber(skip, bs), bs, outs[1..]);
    }
  }

  /** The `k`-th fetch of a run uses offset `start` advanced `k` times by the
      batch size. */
  lemma {:induction false} RunFetchOffsets(skip: Value, bs: nat, outs: seq<Outcome>, k: nat)
    requires bs > 0 && !skip.Undefined?
    requires k < |FetchSkips(Run(skip, bs, outs))|
    ensures FetchSkips(Run(skip, bs, outs))[k] == Offset(skip, bs, k)
    decreases |outs|
  {
    RunSkips(skip, bs, outs);
    if k > 0 {
      var next := AddNumber(skip, bs);
      RunFetchOffsets(next, bs, outs[1..], k - 1);
      OffsetShift(skip, bs, k - 1);
    }
  }

  /** The fetches of a run: one per full answer at the front plus one, the
      `k`-th at offset `start` advanced `k` times by the batch size. */
  lemma RunFetches(skip: Value, bs: nat, outs: seq<Outcome>)
    requires bs > 0 && !skip.Undefined?
    ensures var fs := FetchSkips(Run(skip, bs, outs));
      && |fs| == Leading(bs, outs) + 1
      && forall k :: 0 <= k < |fs| ==> fs[k] == Offset(skip, bs, k)
  {
    RunFetchCount(skip, bs, outs);
    forall k | 0 <= k < |FetchSkips(Run(skip, bs, outs))| ensures FetchSkips(Run(skip, bs, outs))[k] == Offset(skip, bs, k) {
      RunFetchOffsets(skip, bs, outs, k);
    }
  }

  /** Advancing the start once shifts every later offset by one fetch. */
  lemma {:induction false} OffsetShift(start: Value, bs: nat, k: nat)
    requires !start.Undefined?
    ensures Offset(AddNumber(start, bs), bs, k) == Offset(start, bs, k + 1)
  {
    if k > 0 {
      OffsetShift(start, bs, k - 1);
    }
  }

  /** From a numeric start the `k`-th fetch reads at `start + k * batchSize`. */
  lemma {:induction false} OffsetNumeric(s: int, bs: nat, k: nat)
    ensures Offset(Num(s), bs, k) == Num(s + k * bs)
  {
    if k > 0 {
      OffsetNumeric(s, bs, k - 1);
    }
  }

  /** `onBatch` receives exactly the documents of the successful, non-empty
      answers the run takes in, in order: never an empty batch, never
      anything for a failed fetch. */
  lemma {:induction false} RunBatches(skip: Value, bs: nat, outs: seq<Outcome>)
    requires bs > 0 && !skip.Undefined?
    ensures Batches(Run(skip, bs, outs)) == Delivered(outs[..Consumed(bs, outs)])
    decreases |outs|
  {
    var fetch := Fetch(skip);
    if |outs| > 0 {
      var o := outs[0];
      var (evs, again) := Receive(bs, o);
      ReceiveEvents(bs, o);
      BatchesAppend([fetch], evs);
      if again {
        var next := AddNumber(skip, bs);
        RunBatches(next, bs, outs[1..]);
        BatchesAppend([fetch] + evs, Run(next, bs, outs[1..]));
        var c := Consumed(bs, outs[1..]);
        assert outs[..Consumed(bs, outs)] == [o] + outs[1..][..c];
        assert Delivered([o] + outs[1..][..c]) == Delivered([o]) + Delivered(outs[1..][..c]) by {
          assert ([o] + outs[1..][..c])[1..] == outs[1..][..c];
        }
      } else {
        assert outs[..Consumed(bs, outs)] == [o];
      }
    }
  }

  /** A run never calls `callback` before its last event. */
  lemma {:induction false} RunDoneLast(skip: Value, bs: nat, outs: seq<Outcome>)
    requires bs > 0 && !skip.Undefined?
    ensures var ev := Run(skip, bs, outs);
      |ev| > 0 && forall i :: 0 <= i < |ev| - 1 ==> !ev[i].Done?
    decreases |outs|
  {
    if |outs| > 0 {
      var (evs, again) := Receive(bs, outs[0]);
      ReceiveEvents(bs, outs[0]);
      RunStep(skip, bs, outs);
      if again {
        var next := AddNumber(skip, bs);
        RunDoneLast(next, bs, outs[1..]);
        var rest := Run(next, bs, outs[1..]);
        var ev := Run(skip, bs, outs);
        assert ev == [Fetch(skip)] + evs + rest;
        forall i | 0 <= i < |ev| - 1 ensures !ev[i].Done? {
          if i > |evs| { assert ev[i] == rest[i - 1 - |evs|]; }
        }
      }
    }
  }

  /** The run ends with `callback` exactly when some answer is not full, and
      then with that answer's error, or with none; a failed fetch emits
      nothing but the callback.  While every answer is full the run is left
      waiting on a fetch. */
  lemma {:induction false} RunEnds(skip: Value, bs: nat, outs: seq<Outcome>)
    requires bs > 0 && !skip.Undefined?
    ensures var ev := Run(skip, bs, outs);
      && |ev| > 0
      && (Leading(bs, outs) == |outs| ==> ev[|ev| - 1].Fetch?)
      && (Leading(bs, outs) < |outs| ==>
            var o := outs[Leading(bs, outs)];
            ev[|ev| - 1] == Done(if Failed(o) then Some(o.error) else None)
            && (Failed(o) ==> |ev| >= 2 && ev[|ev| - 2].Fetch?))
    decreases |outs|
  {
    if |outs| > 0 {
      var (evs, again) := Receive(bs, outs[0]);
      RunStep(skip, bs, outs);
      if again {
        var next := AddNumber(skip, bs);
        RunEnds(next, bs, outs[1..]);
        var rest := Run(next, bs, outs[1..]);
        var ev := Run(skip, bs, outs);
        assert ev == [Fetch(skip)] + evs + rest;
        assert ev[|ev| - 1] == rest[|rest| - 1];
        if |rest| >= 2 { assert ev[|ev| - 2] == rest[|rest| - 2]; }
      }
    }
  }

  // ---------------------------------------------------------------------
  // Against a fixed result list.

  /** The answer to a fetch at offset `from` when the query's results,
      as `findAll` objectifies them, are `list`. */
  function Answer(list: seq<Doc>, from: nat, bs: nat): Outcome {
    var lo := if from <= |list| then from else |list|;
    var hi := if from + bs <= |list| then from + bs else |list|;
    Outcome(Undefined, Some(list[lo..hi]))
  }

  /** The answers to successive fetches from offset `from` until the first
      short one. */
  function ListOutcomes(list: seq<Doc>, bs: nat, from: nat): seq<Outcome>
    requires bs > 0
    decreases |list| - from
  {
    if from + bs <= |list| then [Answer(list, from, bs)] + ListOutcomes(list, bs, from + bs)
    else [Answer(list, from, bs)]
  }

  /** The `k`-th answer is the store's answer at the `k`-th fetch offset. */
  lemma {:induction false} ListOutcomesAt(list: seq<Doc>, bs: nat, from: nat, k: nat)
    requires bs > 0 && k < |ListOutcomes(list, bs, from)|
    ensures ListOutcomes(list, bs, from)[k] == Answer(list, from + k * bs, bs)
    decreases |list| - from
  {
    if k > 0 {
      var outs := ListOutcomes(list, bs, from);
      assert from + bs <= |list|;
      var rest := ListOutcomes(list, bs, from + bs);
      assert outs == [Answer(list, from, bs)] + rest;
      ListOutcomesAt(list, bs, from + bs, k - 1);
      assert outs[k] == rest[k - 1];
      assert from + bs + (k - 1) * bs == from + k * bs;
    }
  }

  lemma MulNonneg(a: int, b: int)
    requires a >= 0 && b >= 0
    ensures a * b >= 0
  {
  }

  /** `q` is the integer quotient of `m` by `bs` when `q` batches fit and `q + 1` do not. */
  lemma FloorDiv(m: nat, bs: nat, q: nat)
    requires bs > 0 && q * bs <= m < q * bs + bs
    ensures m / bs == q
  {
    var d, r := m / bs, m % bs;
    assert m == d * bs + r && 0 <= r < bs;
    if d > q {
      assert (d - q - 1) * bs == d * bs - q * bs - bs;
      MulNonneg(d - q - 1, bs);
      assert false;
    } else if d < q {
      assert (q - d - 1) * bs == q * bs - d * bs - bs;
      MulNonneg(q - d - 1, bs);
      assert false;
    }
  }

  /** The number of answers from a list: one per full batch that fits, and one more. */
  lemma {:induction false} ListLength(list: seq<Doc>, bs: nat, from: nat)
    requires bs > 0 && from <= |list|
    ensures var n := |ListOutcomes(list, bs, from)|;
      n > 0 && (n - 1) * bs <= |list| - from < (n - 1) * bs + bs
    decreases |list| - from
  {
    if from + bs <= |list| {
      ListLength(list, bs, from + bs);
      var n := |ListOutcomes(list, bs, from)|;
      assert n == |ListOutcomes(list, bs, from + bs)| + 1;
      assert (n - 1) * bs == (n - 2) * bs + bs;
    }
  }

  /** An answer that fetches again adds one to the full answers at the front. */
  lemma LeadingCons(bs: nat, o: Outcome, rest: seq<Outcome>)
    requires Full(bs, o)
    ensures Leading(bs, [o] + rest) == 1 + Leading(bs, rest)
  {
    assert ([o] + rest)[1..] == rest;
  }

  /** The store's answer at `from` is successful, and full exactly when a
      whole batch fits in the list from there. */
  lemma AnswerFacts(list: seq<Doc>, from: nat, bs: nat)
    requires from <= |list|
    ensures !Failed(Answer(list, from, bs))
    ensures from + bs <= |list| ==> Docs(Answer(list, from, bs)) == list[from..from + bs]
    ensures from + bs > |list| ==> Docs(Answer(list, from, bs)) == list[from..]
  {
  }

  /** The last answer from a list is successful and short. */
  lemma {:induction false} ListLast(list: seq<Doc>, bs: nat, from: nat)
    requires bs > 0 && from <= |list|
    ensures var outs := ListOutcomes(list, bs, from);
      |outs| > 0 && !Failed(outs[|outs| - 1]) && !Full(bs, outs[|outs| - 1])
    decreases |list| - from
  {
    var outs := ListOutcomes(list, bs, from);
    if from + bs <= |list| {
      ListLast(list, bs, from + bs);
      var rest := ListOutcomes(list, bs, from + bs);
      assert outs == [Answer(list, from, bs)] + rest;
      assert outs[|outs| - 1] == rest[|rest| - 1];
    } else {
      AnswerFacts(list, from, bs);
      assert outs == [Answer(list, from, bs)];
    }
  }

  /** Every answer from a list but the last is full. */
  lemma {:induction false} ListLeading(list: seq<Doc>, bs: nat, from: nat)
    requires bs > 0 && from <= |list|
    ensures Leading(bs, ListOutcomes(list, bs, from)) == |ListOutcomes(list, bs, from)| - 1
    decreases |list| - from
  {
    var outs := ListOutcomes(list, bs, from);
    var a := Answer(list, from, bs);
    AnswerFacts(list, from, bs);
    if from + bs <= |list| {
      ListLeading(list, bs, from + bs);
      var rest := ListOutcomes(list, bs, from + bs);
      assert outs == [a] + rest;
      LeadingCons(bs, a, rest);
    } else {
      assert outs == [a];
      assert !Full(bs, a);
    }
  }

  /** The documents of the answers from a list are the rest of the list. */
  lemma {:induction false} ListDelivered(list: seq<Doc>, bs: nat, from: nat)
    requires bs > 0 && from <= |list|
    ensures Concat(Delivered(ListOutcomes(list, bs, from))) == list[from..]
    decreases |list| - from
  {
    if from + bs <= |list| {
      var batch := list[from..from + bs];
      var d := Delivered(ListOutcomes(list, bs, from + bs));
      DeliveredFull(list, bs, from);
      ListDelivered(list, bs, from + bs);
      ConcatCons(batch, d);
      SliceSplit(list, from, from + bs);
    } else {
      DeliveredShort(list, bs, from);
    }
  }

  /** A full batch is delivered ahead of the later answers' documents. */
  lemma DeliveredFull(list: seq<Doc>, bs: nat, from: nat)
    requires bs > 0 && from + bs <= |list|
    ensures Delivered(ListOutcomes(list, bs, from)) ==
      [list[from..from + bs]] + Delivered(ListOutcomes(list, bs, from + bs))
  {
    var outs := ListOutcomes(list, bs, from);
    AnswerFacts(list, from, bs);
    assert outs[0] == Answer(list, from, bs) && outs[1..] == ListOutcomes(list, bs, from + bs);
  }

  /** The short last answer delivers the rest of the list, if any. */
  lemma DeliveredShort(list: seq<Doc>, bs: nat, from: nat)
    requires bs > 0 && from <= |list| < from + bs
    ensures Concat(Delivered(ListOutcomes(list, bs, from))) == list[from..]
  {
    var outs := ListOutcomes(list, bs, from);
    AnswerFacts(list, from, bs);
    assert outs == [Answer(list, from, bs)];
    assert outs[1..] == [];
    if from < |list| {
      assert Delivered(outs) == [list[from..]];
      assert Concat([list[from..]]) == list[from..] + Concat([]);
    } else {
      assert Delivered(outs) == [];
    }
  }

  lemma ConcatCons(first: seq<Doc>, rest: seq<seq<Doc>>)
    ensures Concat([first] + rest) == first + Concat(rest)
  {
    assert ([first] + rest)[0] == first && ([first] + rest)[1..] == rest;
  }

  lemma SliceSplit(list: seq<Doc>, i: nat, j: nat)
    requires i <= j <= |list|
    ensures list[i..] == list[i..j] + list[j..]
  {
  }

  /** Streaming a list from offset `from` hands over the rest of the list, in order. */
  lemma ListBatches(list: seq<Doc>, bs: nat, from: nat)
    requires bs > 0 && from <= |list|
    ensures Concat(Batches(Run(Num(from), bs, ListOutcomes(list, bs, from)))) == list[from..]
  {
    var outs := ListOutcomes(list, bs, from);
    ListLast(list, bs, from);
    ListLeading(list, bs, from);
    RunBatches(Num(from), bs, outs);
    assert Consumed(bs, outs) == |outs|;
    assert outs[..|outs|] == outs;
    ListDelivered(list, bs, from);
  }

  /** Streaming a list from offset `from` takes one answer per full batch
      that fits, and one more. */
  lemma ListCount(list: seq<Doc>, bs: nat, from: nat)
    requires bs > 0 && from <= |list|
    ensures |ListOutcomes(list, bs, from)| == (|list| - from) / bs + 1
  {
    var n := |ListOutcomes(list, bs, from)|;
    ListLength(list, bs, from);
    FloorDiv(|list| - from, bs, n - 1);
  }

  /** Streaming a list from offset `from` fetches at `from`, `from + bs`,
      ..., once per answer. */
  lemma ListFetches(list: seq<Doc>, bs: nat, from: nat)
    requires bs > 0 && from <= |list|
    ensures var fs := FetchSkips(Run(Num(from), bs, ListOutcomes(list, bs, from)));
      && |fs| == |ListOutcomes(list, bs, from)|
      && forall k :: 0 <= k < |fs| ==> fs[k] == Num(from + k * bs)
  {
    var outs := ListOutcomes(list, bs, from);
    var fs := FetchSkips(Run(Num(from), bs, outs));
    ListLeading(list, bs, from);
    RunFetches(Num(from), bs, outs);
    forall k | 0 <= k < |fs| ensures fs[k] == Num(from + k * bs) {
      OffsetNumeric(from, bs, k);
    }
  }

  /** Streaming a list from offset `from` hands over the rest of the list,
      in order, in `(|list| - from) / bs + 1` fetches at `from`, `from + bs`,
      ..., and then completes without error; an exact multiple of the batch
      size costs one extra, empty fetch. */
  lemma ListRun(list: seq<Doc>, bs: nat, from: nat)
    requires bs > 0 && from <= |list|
    ensures var ev := Run(Num(from), bs, ListOutcomes(list, bs, from));
      && Concat(Batches(ev)) == list[from..]
      && |FetchSkips(ev)| == (|list| - from) / bs + 1
      && (forall k :: 0 <= k < |FetchSkips(ev)| ==> FetchSkips(ev)[k] == Num(from + k * bs))
      && ev[|ev| - 1] == Done(None)
  {
    var outs := ListOutcomes(list, bs, from);
    ListCount(list, bs, from);
    ListFetches(list, bs, from);
    ListBatches(list, bs, from);
    ListLast(list, bs, from);
    ListLeading(list, bs, from);
    RunEnds(Num(from), bs, outs);
  }

  /** `stream(query, { skip: from }, ...)` over a fixed list: the same run
      as from offset `from`, so the rest of the list is handed over in order
      and the stream completes without error. */
  lemma StreamFromOffset(list: seq<Doc>, bs: nat, from: nat, ref: nat)
    requires bs > 0 && from <= |list|
    ensures var ev := StreamRun(bs, Obj(ref, [("skip", Num(from))]), ListOutcomes(list, bs, from));
      && Concat(Batches(ev)) == list[from..]
      && |FetchSkips(ev)| == (|list| - from) / bs + 1
      && (forall k :: 0 <= k < |FetchSkips(ev)| ==> FetchSkips(ev)[k] == Num(from + k * bs))
      && ev[|ev| - 1] == Done(None)
  {
    assert Start(Obj(ref, [("skip", Num(from))])) == Num(from);
    ListRun(list, bs, from);
  }

  /** A list of four in batches of two: three fetches, at 0, 2 and 4, the
      last one empty, and the whole list handed over. */
  lemma ListExample(a: Doc, b: Doc, c: Doc, d: Doc)
    ensures var ev := Run(Num(0), 2, ListOutcomes([a, b, c, d], 2, 0));
      && FetchSkips(ev) == [Num(0), Num(2), Num(4)]
      && Concat(Batches(ev)) == [a, b, c, d]
  {
    ListRun([a, b, c, d], 2, 0);
    var fs := FetchSkips(Run(Num(0), 2, ListOutcomes([a, b, c, d], 2, 0)));
    assert |fs| == 3;
    assert fs[0] == Num(0) && fs[1] == Num(2) && fs[2] == Num(4);
  }

  /** A failure on the second fetch: one batch, then the callback with the
      error, and no third fetch. */
  lemma ErrorExample(a: Doc, b: Doc, e: string)
    requires e != ""
    ensures var outs := [Outcome(Undefined, Some([a, b])), Outcome(Str(e), None)];
      Run(Num(0), 2, outs) ==
        [Fetch(Num(0)), OnBatch([a, b]),
         Fetch(Num(2)), Done(Some(Str(e)))]
  {
    var outs := [Outcome(Undefined, Some([a, b])), Outcome(Str(e), None)];
    assert outs[1..] == [Outcome(Str(e), None)];
  }

  // ---------------------------------------------------------------------
  // The options of a fetch.

  /** The merge leaves a set field alone, fills an unset one from the first
      caller option of that name, and touches nothing else. */
  lemma {:induction false} FillMissingFacts(opts: Props<Value>, src: Props<Value>, n: string)
    requires Distinct(src)
    ensures n !in Names(src) ==> Get(FillMissing(opts, src), n) == Get(opts, n)
    ensures n in Names(src) && !Nullish(Field(opts, n)) ==> Get(FillMissing(opts, src), n) == Get(opts, n)
    ensures n in Names(src) && Nullish(Field(opts, n)) ==> Field(FillMissing(opts, src), n) == Field(src, n)
    ensures Distinct(opts) ==> Distinct(FillMissing(opts, src))
    decreases |src|
  {
    if |src| > 0 {
      var (name, value) := src[0];
      var fill := LooseEq(Field(opts, name), Null);
      var next := if fill then Put(opts, name, value) else opts;
      DistinctTail(src);
      FillMissingFacts(next, src[1..], n);
      assert Names(src) == [name] + Names(src[1..]);
      if Distinct(opts) && fill { PutDistinct(opts, name, value); }
      if n == name {
        assert n !in Names(src[1..]) by {
          forall j | 0 <= j < |src[1..]| ensures Names(src[1..])[j] != n {
            assert src[1..][j] == src[j + 1];
          }
        }
      }
    }
  }

  /** Every fetch asks for the cursor's `skip` and `limit`, whatever the
      caller passed under those names, and for every other caller option
      as given. */
  lemma FetchOptionsContract(skip: Value, bs: nat, options: Value)
    requires !Nullish(skip)
    requires options.Obj? ==> Distinct(options.props)
    ensures var r := FetchOptions(skip, bs, options);
      && Distinct(r)
      && Field(r, "skip") == skip
      && Field(r, "limit") == Num(bs)
      && forall n :: n != "skip" && n != "limit" ==> Field(r, n) == Field(Enumerate(Or(options, EmptyObject)), n)
  {
    var base := [("skip", skip), ("limit", Num(bs))];
    var src := Enumerate(Or(options, EmptyObject));
    EnumerateDistinct(Or(options, EmptyObject));
    assert Distinct(base);
    assert Get(base, "skip") == Some(skip);
    assert base[1..] == [("limit", Num(bs))];
    assert Get(base, "limit") == Some(Num(bs));
    FillMissingFacts(base, src, "skip");
    FillMissingFacts(base, src, "limit");
    forall n | n != "skip" && n != "limit"
      ensures Field(FillMissing(base, src), n) == Field(src, n)
    {
      assert Get(base[1..], n) == None;
      FillMissingFacts(base, src, n);
    }
  }

  // ---------------------------------------------------------------------
  // The loop, driven step by step.

  /** The cursor driven by its callbacks: issue a fetch, hand the answer to
      the `done` handler, and go on while it asks for another fetch. */
  method Drive(start: Value, bs: nat, outs: seq<Outcome>) returns (events: seq<Event>)
    requires bs > 0 && !start.Undefined?
    ensures events == Run(start, bs, outs)
  {
    var skip := start;
    var i := 0;
    var going := true;
    events := [];
    while going
      invariant 0 <= i <= |outs| && !skip.Undefined?
      invariant going ==> events + Run(skip, bs, outs[i..]) == Run(start, bs, outs)
      invariant !going ==> events == Run(start, bs, outs)
      decreases |outs| - i, going
    {
      var fetch := Fetch(skip);
      if i == |outs| {
        events := events + [fetch];
        going := false;
      } else {
        var (evs, again) := Receive(bs, outs[i]);
        RunStep(skip, bs, outs[i..]);
        assert outs[i..][0] == outs[i] && outs[i..][1..] == outs[i + 1..];
        if again {
          var next := AddNumber(skip, bs);
          assert Run(skip, bs, outs[i..]) == [fetch] + evs + Run(next, bs, outs[i + 1..]);
          events := events + ([fetch] + evs);
          skip := next;
          i := i + 1;
        } else {
          assert Run(skip, bs, outs[i..]) == [fetch] + evs + [];
          events := events + ([fetch] + evs);
          going := false;
        }
      }
    }
  }
}
