/** The document helpers of lib/Collection.js: the argument normalization of
    `save`, `remove` and `refresh`, `Collection.objectify`, and the document
    that `Collection.prototype.create` builds. */
module Documents {
  import opened JsObject
  import opened JsValue

  /** An argument that may be a JavaScript array. */
  datatype Arg = List(items: seq<Value>) | Single(value: Value)

  /** `docs instanceof Array ? docs : docs ? [ docs ] : [ ]` */
  function AsList(docs: Arg): (r: seq<Value>)
    ensures docs.List? ==> r == docs.items
    ensures docs.Single? ==> |r| <= 1 && forall i :: 0 <= i < |r| ==> r[i] == docs.value
    ensures docs.Single? ==> (|r| == 1 <==> Truthy(docs.value))
  {
    match docs
    case List(items) => items
    case Single(v) => if Truthy(v) then [v] else []
  }

  /** Normalizing an argument that is already a list changes nothing, and a
      single value never contributes a falsy element. */
  lemma AsListSettled(docs: Arg)
    ensures AsList(List(AsList(docs))) == AsList(docs)
    ensures docs.Single? ==> forall i :: 0 <= i < |AsList(docs)| ==> Truthy(AsList(docs)[i])
  {
  }

  // ---------------------------------------------------------------------
  // objectify

  /** What the store hands to `objectify`: a document, or an array of them
      (arrays may nest). */
  datatype Nested = Leaf(doc: Value) | Array(elems: seq<Nested>)

  /** `Collection.objectify(doc, collection, Class)`: an array is mapped
      element by element, in order; anything else is passed to the leaf
      constructor `make` (`new Class(doc)` or `collection.create(doc)`). */
  function Objectify(d: Nested, make: Value -> Value): (r: Nested)
    ensures d.Leaf? <==> r.Leaf?
    ensures d.Leaf? ==> r.doc == make(d.doc)
    ensures d.Array? ==> |r.elems| == |d.elems|
    decreases d
  {
    match d
    case Leaf(v) => Leaf(make(v))
    case Array(es) => Array(ObjectifyAll(es, make))
  }

  /** The loop `for (i = 0; i < doc.length; i += 1) docs.push(objectify(doc[i]))`. */
  function ObjectifyAll(es: seq<Nested>, make: Value -> Value): (r: seq<Nested>)
    ensures |r| == |es|
    decreases es
  {
    if |es| == 0 then [] else [Objectify(es[0], make)] + ObjectifyAll(es[1..], make)
  }

  /** The documents of a nested value, left to right. */
  function Leaves(d: Nested): seq<Value>
    decreases d
  {
    match d
    case Leaf(v) => [v]
    case Array(es) => LeavesAll(es)
  }

  function LeavesAll(es: seq<Nested>): seq<Value>
    decreases es
  {
    if |es| == 0 then [] else Leaves(es[0]) + LeavesAll(es[1..])
  }

  /** Two nested values with the same arrays in the same places. */
  predicate SameShape(a: Nested, b: Nested)
    decreases a
  {
    match a
    case Leaf(_) => b.Leaf?
    case Array(es) => b.Array? && SameShapeAll(es, b.elems)
  }

  predicate SameShapeAll(xs: seq<Nested>, ys: seq<Nested>)
    decreases xs
  {
    |xs| == |ys| && (|xs| == 0 || (SameShape(xs[0], ys[0]) && SameShapeAll(xs[1..], ys[1..])))
  }

  /** `list.map(make)` */
  function MapDocs(list: seq<Value>, make: Value -> Value): (r: seq<Value>)
    ensures |r| == |list| && forall i :: 0 <= i < |list| ==> r[i] == make(list[i])
  {
    if |list| == 0 then [] else [make(list[0])] + MapDocs(list[1..], make)
  }

  lemma {:induction false} MapDocsAppend(a: seq<Value>, b: seq<Value>, make: Value -> Value)
    ensures MapDocs(a + b, make) == MapDocs(a, make) + MapDocs(b, make)
  {
    var l, r := MapDocs(a + b, make), MapDocs(a, make) + MapDocs(b, make);
    assert |l| == |r|;
    forall i | 0 <= i < |l| ensures l[i] == r[i] {
      if i < |a| { assert (a + b)[i] == a[i]; } else { assert (a + b)[i] == b[i - |a|]; }
    }
  }

  /** `objectify` keeps the shape of its input, and its documents are the
      input's documents, each passed through `make`, in order. */
  lemma {:induction false} ObjectifyMaps(d: Nested, make: Value -> Value)
    ensures SameShape(d, Objectify(d, make))
    ensures Leaves(Objectify(d, make)) == MapDocs(Leaves(d), make)
    decreases d
  {
    match d
    case Leaf(v) =>
      assert MapDocs([v], make) == [make(v)];
    case Array(es) =>
      ObjectifyAllMaps(es, make);
  }

  lemma {:induction false} ObjectifyAllMaps(es: seq<Nested>, make: Value -> Value)
    ensures SameShapeAll(es, ObjectifyAll(es, make))
    ensures LeavesAll(ObjectifyAll(es, make)) == MapDocs(LeavesAll(es), make)
    decreases es
  {
    if |es| > 0 {
      var r := ObjectifyAll(es, make);
      ObjectifyMaps(es[0], make);
      ObjectifyAllMaps(es[1..], make);
      assert r[0] == Objectify(es[0], make) && r[1..] == ObjectifyAll(es[1..], make);
      MapDocsAppend(Leaves(es[0]), LeavesAll(es[1..]), make);
    }
  }

  /** The `i`-th element of an objectified array is the `i`-th element objectified. */
  lemma {:induction false} ObjectifyAllAt(es: seq<Nested>, make: Value -> Value, i: nat)
    requires i < |es|
    ensures ObjectifyAll(es, make)[i] == Objectify(es[i], make)
    decreases es
  {
    if i > 0 {
      ObjectifyAllAt(es[1..], make, i - 1);
    }
  }

  // ---------------------------------------------------------------------
  // create

  /** The own properties `for (name in doc || { })` visits. */
  function Source(doc: Value): Props<Value> {
    Enumerate(Or(doc, EmptyObject))
  }

  /** The runtime never hands out an object with a repeated property name. */
  predicate WellFormed(doc: Value) {
    doc.Obj? ==> Distinct(doc.props)
  }

  /** A well-formed source copies into `{ }` as itself. */
  lemma SourceCopied(doc: Value)
    requires WellFormed(doc)
    ensures Distinct(Source(doc)) && CopyInto([], Source(doc), {}) == Source(doc)
  {
    EnumerateDistinct(Or(doc, EmptyObject));
    CopyAppends([], Source(doc));
    assert [] + Source(doc) == Source(doc);
  }

  /** The `doc` of `collection.create(doc)`: a copy of every property of
      `doc || { }`, with `_id` set to the fresh id `newId` (a new `ObjectID`)
      when the copied `_id` is falsy. */
  function CreateDoc(doc: Value, newId: Value): (r: Props<Value>)
    requires WellFormed(doc)
    ensures forall n :: n != "_id" ==> Get(r, n) == Get(Source(doc), n)
    ensures Field(r, "_id") == Or(Field(Source(doc), "_id"), newId)
  {
    SourceCopied(doc);
    var copy := CopyInto([], Source(doc), {});
    if !Truthy(Field(copy, "_id")) then Put(copy, "_id", newId) else copy
  }

  /** The created document is well-formed and lists the properties of the
      source in their order, with `_id` appended when the source lacks it. */
  lemma CreateNames(doc: Value, newId: Value)
    requires WellFormed(doc)
    ensures Distinct(CreateDoc(doc, newId))
    ensures Names(CreateDoc(doc, newId)) ==
      Names(Source(doc)) + (if "_id" in Names(Source(doc)) then [] else ["_id"])
  {
    var src := Source(doc);
    SourceCopied(doc);
    if !Truthy(Field(src, "_id")) {
      PutNames(src, "_id", newId);
      PutDistinct(src, "_id", newId);
    } else {
      assert Names(src) + [] == Names(src);
    }
  }

  /** A truthy `_id` is kept, so the fresh id then does not matter. */
  lemma CreateKeepsId(doc: Value, id1: Value, id2: Value)
    requires WellFormed(doc) && Truthy(Field(Source(doc), "_id"))
    ensures CreateDoc(doc, id1) == CreateDoc(doc, id2)
  {
  }

  /** Creating from a created document (an `ObjectID` is truthy) gives the
      same document back. */
  lemma CreateIdempotent(doc: Value, newId: Value, ref: nat, again: Value)
    requires WellFormed(doc) && Truthy(newId)
    ensures WellFormed(Obj(ref, CreateDoc(doc, newId)))
    ensures CreateDoc(Obj(ref, CreateDoc(doc, newId)), again) == CreateDoc(doc, newId)
  {
    var r := CreateDoc(doc, newId);
    CreateNames(doc, newId);
    SourceCopied(Obj(ref, r));
  }
}
