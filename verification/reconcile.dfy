/** The index half of schema reconciliation (lib/DB.js, `DB.compareIndexes`):
    both index lists are normalized into tables keyed by index name, the
    store's own primary-key index `_id_` is kept out of both, and every name
    whose two sides are not equivalent yields a removal of the observed index
    and a creation of the desired one. */
module Reconcile {
  import opened JsObject
  import opened JsValue
  import opened Decimal
  import opened Indexes

  /** The name of the index the store creates on `_id` by itself. */
  const Reserved: string := "_id_"

  /** A table entry: the list position an index came from, and its normalized form. */
  datatype Entry = Entry(pos: nat, idx: Props<Value>)

  /** The outcome of the comparison: `true`, or the raw descriptors to drop
      and to create. */
  datatype Comparison =
    | Unchanged
    | Changes(remove: seq<RawIndex>, create: seq<RawIndex>)

  /** The table key `hash[index.name]` of a normalized index. */
  function Key(idx: Props<Value>): string {
    ToStr(Field(idx, "name"))
  }

  /** The normalized index at position `p`, when it enters a table:
      `index && index.name != '_id_'`. */
  function Admit(list: seq<RawIndex>, p: nat): (r: Option<Props<Value>>)
    requires p < |list|
    ensures r.Some? ==> Key(r.value) != Reserved
  {
    var n := Normalize(list[p], p);
    if n.Some? && !LooseEq(Field(n.value, "name"), Str(Reserved)) then
      assert Key(n.value) != Reserved by {
        if Key(n.value) == Reserved { KeyTextMeansLooseEq(Field(n.value, "name"), Reserved); }
      }
      n
    else None
  }

  /** What position `p` contributes to a table: its key and normalized index,
      or nothing. */
  type Slot = Option<(string, Props<Value>)>

  function SlotAt(list: seq<RawIndex>, p: nat): (s: Slot)
    requires p < |list|
    ensures s.Some? <==> Admit(list, p).Some?
    ensures s.Some? ==> s.value == (Key(Admit(list, p).value), Admit(list, p).value) && s.value.0 != Reserved
  {
    match Admit(list, p)
    case Some(idx) => Some((Key(idx), idx))
    case None => None
  }

  function Slots(list: seq<RawIndex>): (ss: seq<Slot>)
    ensures |ss| == |list|
    ensures forall p :: 0 <= p < |list| ==> ss[p] == SlotAt(list, p)
  {
    seq(|list|, p requires 0 <= p < |list| => SlotAt(list, p))
  }

  /** The table `hash` after the first `n` slots have been entered:
      `hash[index.name] = index`, so a later position overwrites an earlier
      one of the same name in place. */
  function TableUpTo(slots: seq<Slot>, n: nat): Props<Entry>
    requires n <= |slots|
  {
    if n == 0 then [] else Enter(TableUpTo(slots, n - 1), slots[n - 1], n - 1)
  }

  /** One slot entered into the table at position `pos`. */
  function Enter(t: Props<Entry>, s: Slot, pos: nat): Props<Entry> {
    match s
    case Some((k, idx)) => Put(t, k, Entry(pos, idx))
    case None => t
  }

  function IdxOf(e: Option<Entry>): Option<Props<Value>> {
    match e
    case Some(x) => Some(x.idx)
    case None => None
  }

  /** `for (hash in hashA) if (!couple(hashA[hash], hashB[hash])) remove...`:
      the entries of the observed table to drop. */
  function Removals(observed: Props<Entry>, desired: Props<Entry>): seq<Entry> {
    RemovalLoop(Names(observed), observed, desired)
  }

  /** The removal loop over the remaining names `keys` of the observed table. */
  function RemovalLoop(keys: seq<string>, observed: Props<Entry>, desired: Props<Entry>): seq<Entry> {
    if |keys| == 0 then []
    else
      var a := Get(observed, keys[0]);
      (if a.Some? && !Couple(IdxOf(a), IdxOf(Get(desired, keys[0]))) then [a.value] else [])
        + RemovalLoop(keys[1..], observed, desired)
  }

  /** `for (hash in hashB) if (!couple(hashA[hash], hashB[hash])) create...`:
      the entries of the desired table to create. */
  function Creations(observed: Props<Entry>, desired: Props<Entry>): seq<Entry> {
    CreationLoop(Names(desired), observed, desired)
  }

  /** The creation loop over the remaining names `keys` of the desired table. */
  function CreationLoop(keys: seq<string>, observed: Props<Entry>, desired: Props<Entry>): seq<Entry> {
    if |keys| == 0 then []
    else
      var b := Get(desired, keys[0]);
      (if b.Some? && !Couple(IdxOf(Get(observed, keys[0])), IdxOf(b)) then [b.value] else [])
        + CreationLoop(keys[1..], observed, desired)
  }

  /** `idx[p]`: out of range reads as undefined. */
  function At(list: seq<RawIndex>, p: nat): RawIndex {
    if p < |list| then list[p] else Plain(Undefined)
  }

  function Pick(list: seq<RawIndex>, es: seq<Entry>): seq<RawIndex> {
    seq(|es|, j requires 0 <= j < |es| => At(list, es[j].pos))
  }

  // ---------------------------------------------------------------------
  // Reference definitions: which position of a list wins a name, and which
  // positions the plan must drop or create.

  /** The last slot below `n` that enters a table under key `k`. */
  ghost function LastAdmitted(slots: seq<Slot>, n: nat, k: string): Option<Entry>
    requires n <= |slots|
  {
    if n == 0 then None
    else if slots[n - 1].Some? && slots[n - 1].value.0 == k then Some(Entry(n - 1, slots[n - 1].value.1))
    else LastAdmitted(slots, n - 1, k)
  }

  ghost function Winner(slots: seq<Slot>, k: string): Option<Entry> {
    LastAdmitted(slots, |slots|, k)
  }

  /** Slot `p` of the observed side must be dropped: it is the one its name
      is known by, and the desired side has no equivalent index of that name. */
  ghost predicate RemoveSlot(sa: seq<Slot>, sb: seq<Slot>, p: nat) {
    && p < |sa|
    && sa[p].Some?
    && var (k, idx) := sa[p].value;
    && Winner(sa, k) == Some(Entry(p, idx))
    && !Couple(Some(idx), IdxOf(Winner(sb, k)))
  }

  /** Slot `q` of the desired side must be created, symmetrically. */
  ghost predicate CreateSlot(sa: seq<Slot>, sb: seq<Slot>, q: nat) {
    && q < |sb|
    && sb[q].Some?
    && var (k, idx) := sb[q].value;
    && Winner(sb, k) == Some(Entry(q, idx))
    && !Couple(IdxOf(Winner(sa, k)), Some(idx))
  }

  ghost predicate ToRemove(observed: seq<RawIndex>, desired: seq<RawIndex>, p: nat) {
    RemoveSlot(Slots(observed), Slots(desired), p)
  }

  ghost predicate ToCreate(observed: seq<RawIndex>, desired: seq<RawIndex>, q: nat) {
    CreateSlot(Slots(observed), Slots(desired), q)
  }

  // ---------------------------------------------------------------------
  // Facts about tables.

  lemma {:induction false} LastAdmittedFacts(slots: seq<Slot>, n: nat, k: string)
    requires n <= |slots|
    ensures var w := LastAdmitted(slots, n, k);
      w.Some? ==> w.value.pos < n && slots[w.value.pos] == Some((k, w.value.idx))
  {
    if n > 0 && !(slots[n - 1].Some? && slots[n - 1].value.0 == k) {
      LastAdmittedFacts(slots, n - 1, k);
    }
  }

  /** The table holds, for every name, the last position admitted under it. */
  lemma {:induction false} TableIsLastAdmitted(slots: seq<Slot>, n: nat)
    requires n <= |slots|
    ensures forall k :: Get(TableUpTo(slots, n), k) == LastAdmitted(slots, n, k)
  {
    forall k ensures Get(TableUpTo(slots, n), k) == LastAdmitted(slots, n, k) {
      TableLookup(slots, n, k);
    }
  }

  lemma {:induction false} TableLookup(slots: seq<Slot>, n: nat, k: string)
    requires n <= |slots|
    ensures Get(TableUpTo(slots, n), k) == LastAdmitted(slots, n, k)
  {
    if n > 0 {
      TableLookup(slots, n - 1, k);
      EnterLookup(TableUpTo(slots, n - 1), slots[n - 1], n - 1, k);
    }
  }

  /** Entering a slot sets its own name and leaves every other name alone. */
  lemma EnterLookup(t: Props<Entry>, s: Slot, pos: nat, k: string)
    ensures Get(Enter(t, s, pos), k) ==
      if s.Some? && s.value.0 == k then Some(Entry(pos, s.value.1)) else Get(t, k)
  {
    if s.Some? {
      var e := Entry(pos, s.value.1);
      if k == s.value.0 {
        assert Get(Put(t, k, e), k) == Some(e);
      } else {
        assert Get(Put(t, s.value.0, e), k) == Get(t, k);
      }
    }
  }

  /** An admitted slot's name always has a winner, at that slot or later. */
  lemma {:induction false} WinnerNotEarlier(slots: seq<Slot>, n: nat, q: nat)
    requires q < n <= |slots|
    requires slots[q].Some?
    ensures var w := LastAdmitted(slots, n, slots[q].value.0);
      w.Some? && w.value.pos >= q
  {
    var k := slots[q].value.0;
    if n - 1 != q && !(slots[n - 1].Some? && slots[n - 1].value.0 == k) {
      WinnerNotEarlier(slots, n - 1, q);
    }
  }

  // ---------------------------------------------------------------------
  // The two loops over the tables.

  lemma {:induction false} RemovalLoopMembers(keys: seq<string>, observed: Props<Entry>, desired: Props<Entry>, e: Entry)
    ensures e in RemovalLoop(keys, observed, desired) <==>
      exists i :: 0 <= i < |keys| && Get(observed, keys[i]) == Some(e) && !Couple(Some(e.idx), IdxOf(Get(desired, keys[i])))
  {
    if |keys| > 0 {
      RemovalLoopMembers(keys[1..], observed, desired, e);
      if e in RemovalLoop(keys[1..], observed, desired) {
        var i :| 0 <= i < |keys[1..]| && Get(observed, keys[1..][i]) == Some(e) && !Couple(Some(e.idx), IdxOf(Get(desired, keys[1..][i])));
        assert keys[i + 1] == keys[1..][i];
      }
      if exists i :: 0 <= i < |keys| && Get(observed, keys[i]) == Some(e) && !Couple(Some(e.idx), IdxOf(Get(desired, keys[i]))) {
        var i :| 0 <= i < |keys| && Get(observed, keys[i]) == Some(e) && !Couple(Some(e.idx), IdxOf(Get(desired, keys[i])));
        if i > 0 { assert keys[1..][i - 1] == keys[i]; }
      }
    }
  }

  lemma {:induction false} CreationLoopMembers(keys: seq<string>, observed: Props<Entry>, desired: Props<Entry>, e: Entry)
    ensures e in CreationLoop(keys, observed, desired) <==>
      exists i :: 0 <= i < |keys| && Get(desired, keys[i]) == Some(e) && !Couple(IdxOf(Get(observed, keys[i])), Some(e.idx))
  {
    if |keys| > 0 {
      CreationLoopMembers(keys[1..], observed, desired, e);
      if e in CreationLoop(keys[1..], observed, desired) {
        var i :| 0 <= i < |keys[1..]| && Get(desired, keys[1..][i]) == Some(e) && !Couple(IdxOf(Get(observed, keys[1..][i])), Some(e.idx));
        assert keys[i + 1] == keys[1..][i];
      }
      if exists i :: 0 <= i < |keys| && Get(desired, keys[i]) == Some(e) && !Couple(IdxOf(Get(observed, keys[i])), Some(e.idx)) {
        var i :| 0 <= i < |keys| && Get(desired, keys[i]) == Some(e) && !Couple(IdxOf(Get(observed, keys[i])), Some(e.idx));
        if i > 0 { assert keys[1..][i - 1] == keys[i]; }
      }
    }
  }

  /** A name of a table is found at some position of its name list. */
  lemma NameListed(t: Props<Entry>, k: string)
    requires Get(t, k).Some?
    ensures exists i :: 0 <= i < |Names(t)| && Names(t)[i] == k
  {
    var i :| 0 <= i < |Names(t)| && Names(t)[i] == k;
  }

  /** The removal loop yields exactly the entries of the slots to drop. */
  lemma RemovalsAreRemoveSlots(sa: seq<Slot>, sb: seq<Slot>, e: Entry)
    ensures e in Removals(TableUpTo(sa, |sa|), TableUpTo(sb, |sb|)) <==>
      RemoveSlot(sa, sb, e.pos) && sa[e.pos].value.1 == e.idx
  {
    RemovalsSound(sa, sb, e);
    RemovalsComplete(sa, sb, e);
  }

  lemma RemovalsSound(sa: seq<Slot>, sb: seq<Slot>, e: Entry)
    ensures e in Removals(TableUpTo(sa, |sa|), TableUpTo(sb, |sb|)) ==>
      RemoveSlot(sa, sb, e.pos) && sa[e.pos].value.1 == e.idx
  {
    var tA, tB := TableUpTo(sa, |sa|), TableUpTo(sb, |sb|);
    if e in Removals(tA, tB) {
      RemovalLoopMembers(Names(tA), tA, tB, e);
      var i :| 0 <= i < |Names(tA)| && Get(tA, Names(tA)[i]) == Some(e) && !Couple(Some(e.idx), IdxOf(Get(tB, Names(tA)[i])));
      var k := Names(tA)[i];
      TableLookup(sa, |sa|, k);
      TableLookup(sb, |sb|, k);
      LastAdmittedFacts(sa, |sa|, k);
    }
  }

  lemma RemovalsComplete(sa: seq<Slot>, sb: seq<Slot>, e: Entry)
    ensures RemoveSlot(sa, sb, e.pos) && sa[e.pos].value.1 == e.idx ==>
      e in Removals(TableUpTo(sa, |sa|), TableUpTo(sb, |sb|))
  {
    var tA, tB := TableUpTo(sa, |sa|), TableUpTo(sb, |sb|);
    if RemoveSlot(sa, sb, e.pos) && sa[e.pos].value.1 == e.idx {
      var k := sa[e.pos].value.0;
      TableLookup(sa, |sa|, k);
      TableLookup(sb, |sb|, k);
      NameListed(tA, k);
      RemovalLoopMembers(Names(tA), tA, tB, e);
    }
  }

  /** The creation loop yields exactly the entries of the slots to create. */
  lemma CreationsAreCreateSlots(sa: seq<Slot>, sb: seq<Slot>, e: Entry)
    ensures e in Creations(TableUpTo(sa, |sa|), TableUpTo(sb, |sb|)) <==>
      CreateSlot(sa, sb, e.pos) && sb[e.pos].value.1 == e.idx
  {
    CreationsSound(sa, sb, e);
    CreationsComplete(sa, sb, e);
  }

  lemma CreationsSound(sa: seq<Slot>, sb: seq<Slot>, e: Entry)
    ensures e in Creations(TableUpTo(sa, |sa|), TableUpTo(sb, |sb|)) ==>
      CreateSlot(sa, sb, e.pos) && sb[e.pos].value.1 == e.idx
  {
    var tA, tB := TableUpTo(sa, |sa|), TableUpTo(sb, |sb|);
    if e in Creations(tA, tB) {
      CreationLoopMembers(Names(tB), tA, tB, e);
      var i :| 0 <= i < |Names(tB)| && Get(tB, Names(tB)[i]) == Some(e) && !Couple(IdxOf(Get(tA, Names(tB)[i])), Some(e.idx));
      var k := Names(tB)[i];
      TableLookup(sa, |sa|, k);
      TableLookup(sb, |sb|, k);
      LastAdmittedFacts(sb, |sb|, k);
    }
  }

  lemma CreationsComplete(sa: seq<Slot>, sb: seq<Slot>, e: Entry)
    ensures CreateSlot(sa, sb, e.pos) && sb[e.pos].value.1 == e.idx ==>
      e in Creations(TableUpTo(sa, |sa|), TableUpTo(sb, |sb|))
  {
    var tA, tB := TableUpTo(sa, |sa|), TableUpTo(sb, |sb|);
    if CreateSlot(sa, sb, e.pos) && sb[e.pos].value.1 == e.idx {
      var k := sb[e.pos].value.0;
      TableLookup(sa, |sa|, k);
      TableLookup(sb, |sb|, k);
      NameListed(tB, k);
      CreationLoopMembers(Names(tB), tA, tB, e);
    }
  }

  /** Every planned entry comes from a slot inside its side. */
  lemma PlanInRange(sa: seq<Slot>, sb: seq<Slot>)
    ensures forall e :: e in Removals(TableUpTo(sa, |sa|), TableUpTo(sb, |sb|)) ==> e.pos < |sa|
    ensures forall e :: e in Creations(TableUpTo(sa, |sa|), TableUpTo(sb, |sb|)) ==> e.pos < |sb|
  {
    forall e | e in Removals(TableUpTo(sa, |sa|), TableUpTo(sb, |sb|)) ensures e.pos < |sa| {
      RemovalsAreRemoveSlots(sa, sb, e);
    }
    forall e | e in Creations(TableUpTo(sa, |sa|), TableUpTo(sb, |sb|)) ensures e.pos < |sb| {
      CreationsAreCreateSlots(sa, sb, e);
    }
  }

  /** The comparison over given slots of the two lists: the raw elements at
      the positions the two loops planned. */
  function PlanFrom(observed: seq<RawIndex>, desired: seq<RawIndex>, sa: seq<Slot>, sb: seq<Slot>): (r: Comparison)
    requires |sa| == |observed| && |sb| == |desired|
    ensures r.Changes? ==> (forall x :: x in r.remove ==> x in observed) && (forall x :: x in r.create ==> x in desired)
    ensures r.Changes? ==> |r.remove| > 0 || |r.create| > 0
  {
    var tA, tB := TableUpTo(sa, |sa|), TableUpTo(sb, |sb|);
    var rem, cre := Removals(tA, tB), Creations(tA, tB);
    PlanInRange(sa, sb);
    assert forall j :: 0 <= j < |rem| ==> rem[j] in rem;
    assert forall j :: 0 <= j < |cre| ==> cre[j] in cre;
    if |rem| > 0 || |cre| > 0 then Changes(Pick(observed, rem), Pick(desired, cre)) else Unchanged
  }

  /** `DB.compareIndexes(observed, desired)`, with the list position kept
      beside each normalized index (the source reads it back from the `v`
      field instead; see `CompareIndexesAsWritten`). */
  function CompareIndexes(observed: seq<RawIndex>, desired: seq<RawIndex>): (r: Comparison)
    ensures r.Changes? ==> (forall x :: x in r.remove ==> x in observed) && (forall x :: x in r.create ==> x in desired)
    ensures r.Changes? ==> |r.remove| > 0 || |r.create| > 0
  {
    PlanFrom(observed, desired, Slots(observed), Slots(desired))
  }

  lemma PlanUnchanged(observed: seq<RawIndex>, desired: seq<RawIndex>, sa: seq<Slot>, sb: seq<Slot>)
    requires |sa| == |observed| && |sb| == |desired|
    ensures PlanFrom(observed, desired, sa, sb).Unchanged? <==>
      (forall p: nat :: !RemoveSlot(sa, sb, p)) && (forall q: nat :: !CreateSlot(sa, sb, q))
  {
    var tA, tB := TableUpTo(sa, |sa|), TableUpTo(sb, |sb|);
    var rem, cre := Removals(tA, tB), Creations(tA, tB);
    forall p: nat | RemoveSlot(sa, sb, p) ensures |rem| > 0 {
      RemovalsAreRemoveSlots(sa, sb, Entry(p, sa[p].value.1));
    }
    forall q: nat | CreateSlot(sa, sb, q) ensures |cre| > 0 {
      CreationsAreCreateSlots(sa, sb, Entry(q, sb[q].value.1));
    }
    if |rem| > 0 {
      assert rem[0] in rem;
      RemovalsAreRemoveSlots(sa, sb, rem[0]);
    }
    if |cre| > 0 {
      assert cre[0] in cre;
      CreationsAreCreateSlots(sa, sb, cre[0]);
    }
  }

  lemma PlanRemove(observed: seq<RawIndex>, desired: seq<RawIndex>, sa: seq<Slot>, sb: seq<Slot>, x: RawIndex)
    requires |sa| == |observed| && |sb| == |desired|
    requires PlanFrom(observed, desired, sa, sb).Changes?
    ensures x in PlanFrom(observed, desired, sa, sb).remove <==>
      exists p: nat :: RemoveSlot(sa, sb, p) && x == observed[p]
  {
    var rem := Removals(TableUpTo(sa, |sa|), TableUpTo(sb, |sb|));
    var r := PlanFrom(observed, desired, sa, sb);
    assert r.remove == Pick(observed, rem);
    if x in r.remove {
      var j :| 0 <= j < |rem| && x == At(observed, rem[j].pos);
      assert rem[j] in rem;
      RemovalsAreRemoveSlots(sa, sb, rem[j]);
      assert RemoveSlot(sa, sb, rem[j].pos) && x == observed[rem[j].pos];
    }
    if exists p: nat :: RemoveSlot(sa, sb, p) && x == observed[p] {
      var p: nat :| RemoveSlot(sa, sb, p) && x == observed[p];
      var e := Entry(p, sa[p].value.1);
      RemovalsAreRemoveSlots(sa, sb, e);
      var j :| 0 <= j < |rem| && rem[j] == e;
      assert r.remove[j] == x;
    }
  }

  lemma PlanCreate(observed: seq<RawIndex>, desired: seq<RawIndex>, sa: seq<Slot>, sb: seq<Slot>, x: RawIndex)
    requires |sa| == |observed| && |sb| == |desired|
    requires PlanFrom(observed, desired, sa, sb).Changes?
    ensures x in PlanFrom(observed, desired, sa, sb).create <==>
      exists q: nat :: CreateSlot(sa, sb, q) && x == desired[q]
  {
    var cre := Creations(TableUpTo(sa, |sa|), TableUpTo(sb, |sb|));
    var r := PlanFrom(observed, desired, sa, sb);
    assert r.create == Pick(desired, cre);
    if x in r.create {
      var j :| 0 <= j < |cre| && x == At(desired, cre[j].pos);
      assert cre[j] in cre;
      CreationsAreCreateSlots(sa, sb, cre[j]);
      assert CreateSlot(sa, sb, cre[j].pos) && x == desired[cre[j].pos];
    }
    if exists q: nat :: CreateSlot(sa, sb, q) && x == desired[q] {
      var q: nat :| CreateSlot(sa, sb, q) && x == desired[q];
      var e := Entry(q, sb[q].value.1);
      CreationsAreCreateSlots(sa, sb, e);
      var j :| 0 <= j < |cre| && cre[j] == e;
      assert r.create[j] == x;
    }
  }

  /** The comparison is `true` exactly when no position has to be dropped or
      created. */
  lemma CompareIndexesUnchanged(observed: seq<RawIndex>, desired: seq<RawIndex>)
    ensures CompareIndexes(observed, desired).Unchanged? <==>
      (forall p: nat :: !ToRemove(observed, desired, p)) && (forall q: nat :: !ToCreate(observed, desired, q))
  {
    var sa, sb := Slots(observed), Slots(desired);
    PlanUnchanged(observed, desired, sa, sb);
    assert CompareIndexes(observed, desired) == PlanFrom(observed, desired, sa, sb);
    forall p: nat ensures ToRemove(observed, desired, p) == RemoveSlot(sa, sb, p) { }
    forall q: nat ensures ToCreate(observed, desired, q) == CreateSlot(sa, sb, q) { }
  }

  /** `remove` holds exactly the raw observed elements at the positions to drop. */
  lemma CompareIndexesRemove(observed: seq<RawIndex>, desired: seq<RawIndex>, x: RawIndex)
    requires CompareIndexes(observed, desired).Changes?
    ensures x in CompareIndexes(observed, desired).remove <==>
      exists p: nat :: ToRemove(observed, desired, p) && x == observed[p]
  {
    PlanRemove(observed, desired, Slots(observed), Slots(desired), x);
  }

  /** `create` holds exactly the raw desired elements at the positions to create. */
  lemma CompareIndexesCreate(observed: seq<RawIndex>, desired: seq<RawIndex>, x: RawIndex)
    requires CompareIndexes(observed, desired).Changes?
    ensures x in CompareIndexes(observed, desired).create <==>
      exists q: nat :: ToCreate(observed, desired, q) && x == desired[q]
  {
    PlanCreate(observed, desired, Slots(observed), Slots(desired), x);
  }

  /** When a name repeats in a list, only its last position can be planned:
      an earlier one is neither dropped nor created. */
  lemma LaterPositionWins(list: seq<RawIndex>, other: seq<RawIndex>, p: nat, q: nat)
    requires p < q < |list|
    requires Admit(list, p).Some? && Admit(list, q).Some?
    requires Key(Admit(list, p).value) == Key(Admit(list, q).value)
    ensures !ToRemove(list, other, p) && !ToCreate(other, list, p)
  {
    var s := Slots(list);
    assert s[p] == SlotAt(list, p) && s[q] == SlotAt(list, q);
    WinnerNotEarlier(s, |s|, q);
  }

  /** Comparing a list with itself needs no change. */
  lemma CompareSelf(list: seq<RawIndex>)
    ensures CompareIndexes(list, list) == Unchanged
  {
    var s := Slots(list);
    forall p: nat | p < |s| && s[p].Some? ensures !ToRemove(list, list, p) && !ToCreate(list, list, p) {
      CoupleReflexive(Some(s[p].value.1));
    }
    CompareIndexesUnchanged(list, list);
  }

  /** The store's own `_id_` index is never dropped or created: every planned
      element normalizes, at its position, to an index not named `_id_`. */
  lemma ReservedNeverPlanned(observed: seq<RawIndex>, desired: seq<RawIndex>)
    ensures var r := CompareIndexes(observed, desired);
      r.Changes? ==> forall x :: x in r.remove ==> exists p: nat :: (p < |observed| && x == observed[p] &&
        Normalize(x, p).Some? && !LooseEq(Field(Normalize(x, p).value, "name"), Str(Reserved)))
    ensures var r := CompareIndexes(observed, desired);
      r.Changes? ==> forall x :: x in r.create ==> exists q: nat :: (q < |desired| && x == desired[q] &&
        Normalize(x, q).Some? && !LooseEq(Field(Normalize(x, q).value, "name"), Str(Reserved)))
  {
    var r := CompareIndexes(observed, desired);
    if r.Changes? {
      forall x | x in r.remove ensures exists p: nat :: (p < |observed| && x == observed[p] &&
        Normalize(x, p).Some? && !LooseEq(Field(Normalize(x, p).value, "name"), Str(Reserved)))
      {
        CompareIndexesRemove(observed, desired, x);
        var p: nat :| ToRemove(observed, desired, p) && x == observed[p];
        assert Slots(observed)[p] == SlotAt(observed, p);
      }
      forall x | x in r.create ensures exists q: nat :: (q < |desired| && x == desired[q] &&
        Normalize(x, q).Some? && !LooseEq(Field(Normalize(x, q).value, "name"), Str(Reserved)))
      {
        CompareIndexesCreate(observed, desired, x);
        var q: nat :| ToCreate(observed, desired, q) && x == desired[q];
        assert Slots(desired)[q] == SlotAt(desired, q);
      }
    }
  }

  // ---------------------------------------------------------------------
  // The comparison as written reads each list position back from the
  // normalized index's `v` field, which a declared option `v` overrides.

  /** The array element `list[v]` names: a non-negative integer, or its
      canonical decimal text, selects a position.  Any other `v` reads as
      undefined here, although a name such as `length` or `push` would
      read an array member. */
  function PositionOf(v: Value): Option<nat> {
    match v
    case Num(n) => if n >= 0 then Some(n) else None
    case Str(s) =>
      if |s| > 0 && AllDigits(s) && NatToString(DigitsValue(s)) == s then Some(DigitsValue(s)) else None
    case _ => None
  }

  /** `list[v]` */
  function AtValue(list: seq<RawIndex>, v: Value): RawIndex {
    match PositionOf(v)
    case Some(p) => At(list, p)
    case None => Plain(Undefined)
  }

  /** `DB.compareIndexes` as written, over given slots: `idxA[a.v]`
      and `idxB[b.v]`. */
  function AsWrittenFrom(observed: seq<RawIndex>, desired: seq<RawIndex>, sa: seq<Slot>, sb: seq<Slot>): (r: Comparison)
    requires |sa| == |observed| && |sb| == |desired|
    ensures r.Changes? ==> |r.remove| > 0 || |r.create| > 0
    ensures r.Changes? ==>
      && (forall x :: x in r.remove ==> x in observed || x == Plain(Undefined))
      && (forall x :: x in r.create ==> x in desired || x == Plain(Undefined))
  {
    var tA, tB := TableUpTo(sa, |sa|), TableUpTo(sb, |sb|);
    var rem, cre := Removals(tA, tB), Creations(tA, tB);
    if |rem| > 0 || |cre| > 0 then Changes(ReadBack(observed, rem), ReadBack(desired, cre))
    else Unchanged
  }

  /** `idx[entry.v]` for each planned entry. */
  function ReadBack(list: seq<RawIndex>, es: seq<Entry>): (r: seq<RawIndex>)
    ensures |r| == |es|
    ensures forall x :: x in r ==> x in list || x == Plain(Undefined)
  {
    seq(|es|, j requires 0 <= j < |es| => AtValue(list, Field(es[j].idx, "v")))
  }

  /** Reading back through `v` picks the planned positions when every entry
      records its own position. */
  lemma ReadBackPick(list: seq<RawIndex>, es: seq<Entry>)
    requires forall e :: e in es ==> Field(e.idx, "v") == Num(e.pos)
    ensures ReadBack(list, es) == Pick(list, es)
  {
    forall j | 0 <= j < |es| ensures ReadBack(list, es)[j] == Pick(list, es)[j] {
      assert es[j] in es;
    }
  }

  function CompareIndexesAsWritten(observed: seq<RawIndex>, desired: seq<RawIndex>): (r: Comparison)
    ensures r.Changes? ==> |r.remove| > 0 || |r.create| > 0
    ensures r.Changes? ==>
      && (forall x :: x in r.remove ==> x in observed || x == Plain(Undefined))
      && (forall x :: x in r.create ==> x in desired || x == Plain(Undefined))
  {
    AsWrittenFrom(observed, desired, Slots(observed), Slots(desired))
  }

  /** Every admitted slot records its own position in `v`. */
  ghost predicate PositionsRecorded(slots: seq<Slot>) {
    forall p :: 0 <= p < |slots| && slots[p].Some? ==> Field(slots[p].value.1, "v") == Num(p)
  }

  /** No declaration in the list has an option named `v`. */
  predicate NoVersionOption(list: seq<RawIndex>) {
    forall p :: 0 <= p < |list| && list[p].Declared? ==> "v" !in Names(Enumerate(DeclaredOptions(list[p].elems)))
  }

  /** Without a `v` option, normalization records the list position in `v`. */
  lemma NormalizeVersion(index: RawIndex, i: nat)
    requires Normalize(index, i).Some?
    requires index.Declared? ==> "v" !in Names(Enumerate(DeclaredOptions(index.elems)))
    ensures Field(Normalize(index, i).value, "v") == Num(i)
  {
    if index.Declared? {
      var key := DeclaredKey(index.elems);
      var base := [("v", Num(i)), ("key", key), ("name", Str(IndexName(Enumerate(key))))];
      assert Get(base, "v") == Some(Num(i));
    }
  }

  /** Without a `v` option, every admitted slot carries its own position in `v`. */
  lemma SlotVersion(list: seq<RawIndex>, p: nat)
    requires NoVersionOption(list)
    requires p < |list| && Slots(list)[p].Some?
    ensures Field(Slots(list)[p].value.1, "v") == Num(p)
  {
    assert Slots(list)[p] == SlotAt(list, p);
    NormalizeVersion(list[p], p);
  }

  /** Reading positions back from `v` is harmless while every slot records its own. */
  lemma AsWrittenFromAgrees(observed: seq<RawIndex>, desired: seq<RawIndex>, sa: seq<Slot>, sb: seq<Slot>)
    requires |sa| == |observed| && |sb| == |desired|
    requires PositionsRecorded(sa) && PositionsRecorded(sb)
    ensures AsWrittenFrom(observed, desired, sa, sb) == PlanFrom(observed, desired, sa, sb)
  {
    var tA, tB := TableUpTo(sa, |sa|), TableUpTo(sb, |sb|);
    var rem, cre := Removals(tA, tB), Creations(tA, tB);
    forall e | e in rem ensures Field(e.idx, "v") == Num(e.pos) {
      RemovalsAreRemoveSlots(sa, sb, e);
    }
    forall e | e in cre ensures Field(e.idx, "v") == Num(e.pos) {
      CreationsAreCreateSlots(sa, sb, e);
    }
    ReadBackPick(observed, rem);
    ReadBackPick(desired, cre);
  }

  /** When no declaration overrides `v`, the code as written plans exactly
      what the position-keeping comparison plans. */
  lemma AsWrittenAgrees(observed: seq<RawIndex>, desired: seq<RawIndex>)
    requires NoVersionOption(observed) && NoVersionOption(desired)
    ensures CompareIndexesAsWritten(observed, desired) == CompareIndexes(observed, desired)
  {
    var sa, sb := Slots(observed), Slots(desired);
    forall p | 0 <= p < |sa| && sa[p].Some? ensures Field(sa[p].value.1, "v") == Num(p) {
      SlotVersion(observed, p);
    }
    forall p | 0 <= p < |sb| && sb[p].Some? ensures Field(sb[p].value.1, "v") == Num(p) {
      SlotVersion(desired, p);
    }
    AsWrittenFromAgrees(observed, desired, sa, sb);
  }

  /** The conventional name of `{ a: 1 }` is `a_1`. */
  lemma NameA1()
    ensures IndexName([("a", Num(1))]) == "a_1"
  {
    assert JoinText(Num(1)) == "1";
    assert Tokens([("a", Num(1))]) == ["a", "1"];
    assert ["a", "1"][1..] == ["1"];
  }

  /** The declaration `[{ a: 1 }, { v: 1 }]` normalizes to an index named
      `a_1` whose `v` is 1. */
  lemma VersionExampleIndex()
    ensures var n := Normalize(Declared([Obj(1, [("a", Num(1))]), Obj(2, [("v", Num(1))])]), 0);
      && n.Some? && Field(n.value, "name") == Str("a_1") && Field(n.value, "v") == Num(1)
  {
    var key := Obj(1, [("a", Num(1))]);
    var opts := [("v", Num(1))];
    var elems := [key, Obj(2, opts)];
    assert DeclaredKey(elems) == key && DeclaredOptions(elems) == Obj(2, opts);
    assert Names(opts) == ["v"];
    assert Field(opts, "v") == Num(1);
    NormalizeDeclared(elems, 0);
    NameA1();
  }

  /** The declaration `[{ a: 1 }, { v: 1 }]` alone enters the table, with `v` 1. */
  lemma VersionExampleAdmitted()
    ensures var d := [Declared([Obj(1, [("a", Num(1))]), Obj(2, [("v", Num(1))])])];
      Admit(d, 0).Some? && Field(Admit(d, 0).value, "v") == Num(1)
  {
    VersionExampleIndex();
    assert !LooseEq(Str("a_1"), Str(Reserved));
  }

  /** A single admitted desired slot against nothing observed is one creation. */
  lemma SingleCreation(sb: seq<Slot>, k: string, idx: Props<Value>)
    requires sb == [Some((k, idx))]
    ensures TableUpTo(sb, 1) == [(k, Entry(0, idx))]
    ensures Removals(TableUpTo([], 0), TableUpTo(sb, 1)) == []
    ensures Creations(TableUpTo([], 0), TableUpTo(sb, 1)) == [Entry(0, idx)]
  {
    assert TableUpTo(sb, 0) == [];
    var t := [(k, Entry(0, idx))];
    assert Names(t) == [k];
    assert Get(t, k) == Some(Entry(0, idx));
    assert CreationLoop([k][1..], [], t) == [];
  }

  lemma SinglePlanFrom(d: seq<RawIndex>, sb: seq<Slot>, k: string, idx: Props<Value>)
    requires |d| == 1 && sb == [Some((k, idx))]
    ensures PlanFrom([], d, [], sb) == Changes([], d)
    ensures AsWrittenFrom([], d, [], sb) == Changes([], [AtValue(d, Field(idx, "v"))])
  {
    SingleCreation(sb, k, idx);
    var cre := Creations(TableUpTo([], 0), TableUpTo(sb, 1));
    assert Pick(d, cre) == d;
    assert ReadBack(d, cre) == [AtValue(d, Field(idx, "v"))];
  }

  /** A single admitted index against an empty store is created, and the
      code as written creates whatever position its `v` names. */
  lemma SingleIndexPlan(d: seq<RawIndex>)
    requires |d| == 1 && Admit(d, 0).Some?
    ensures CompareIndexes([], d) == Changes([], d)
    ensures CompareIndexesAsWritten([], d) == Changes([], [AtValue(d, Field(Admit(d, 0).value, "v"))])
  {
    var sb := Slots(d);
    var idx := Admit(d, 0).value;
    assert Slots([]) == [];
    assert sb[0] == SlotAt(d, 0);
    assert sb == [Some((Key(idx), idx))];
    SinglePlanFrom(d, sb, Key(idx), idx);
  }

  /** Counterexample: declaring `[{ a: 1 }, { v: 1 }]` against a collection
      without that index should create the declaration, but the code as
      written reads position 1 from the option and creates `idxB[1]`, which
      is undefined. */
  lemma AsWrittenMisplacesCreate()
    ensures var d := [Declared([Obj(1, [("a", Num(1))]), Obj(2, [("v", Num(1))])])];
      && CompareIndexes([], d) == Changes([], d)
      && CompareIndexesAsWritten([], d) == Changes([], [Plain(Undefined)])
  {
    var d := [Declared([Obj(1, [("a", Num(1))]), Obj(2, [("v", Num(1))])])];
    VersionExampleAdmitted();
    SingleIndexPlan(d);
  }
}
