/** Index descriptions and their normalized, comparable form (lib/DB.js,
    `DB.normalizeIndex` and `DB.compareIndexes.couple`).

    An element of an index list is either a declaration `[key, options]` (a
    JavaScript array) or whatever the store returned, normally a flat
    descriptor object such as `{ v: 1, key: { a: 1 }, name: "a_1", ns: "db.c" }`. */
module Indexes {
  import opened JsObject
  import opened JsValue
  import opened Decimal

  datatype RawIndex =
    | Declared(elems: seq<Value>)   // `[key, options]`
    | Plain(value: Value)           // a descriptor object, or a non-object

  /** `index[i]` of a declaration: a missing element reads as undefined. */
  function Elem(elems: seq<Value>, i: nat): Value {
    if i < |elems| then elems[i] else Undefined
  }

  /** The key object of a declaration, `index[0] || { }`. */
  function DeclaredKey(elems: seq<Value>): Value {
    Or(Elem(elems, 0), EmptyObject)
  }

  /** The options object of a declaration, `index[1] || { }`. */
  function DeclaredOptions(elems: seq<Value>): Value {
    Or(Elem(elems, 1), EmptyObject)
  }

  /** `parts` in `for (part in key) parts.push(part, key[part])`, each rendered
      as `join` renders it. */
  function Tokens(key: Props<Value>): (ts: seq<string>)
    ensures |ts| == 2 * |key|
    ensures forall i :: 0 <= i < |key| ==> ts[2 * i] == key[i].0 && ts[2 * i + 1] == JoinText(key[i].1)
  {
    if |key| == 0 then [] else [key[0].0, JoinText(key[0].1)] + Tokens(key[1..])
  }

  /** `parts.join(sep)` */
  function Join(sep: char, parts: seq<string>): string {
    if |parts| == 0 then ""
    else if |parts| == 1 then parts[0]
    else parts[0] + [sep] + Join(sep, parts[1..])
  }

  /** `s.split(sep)`, used only to state what a derived name contains. */
  function Split(sep: char, s: string): (r: seq<string>)
    ensures |r| > 0
  {
    if |s| == 0 then [""]
    else
      var rest := Split(sep, s[1..]);
      if s[0] == sep then [""] + rest else [[s[0]] + rest[0]] + rest[1..]
  }

  /** The conventional index name: every key field followed by its direction,
      in key order, joined by `_` (`{ a: 1, b: -1 }` gives `a_1_b_-1`). */
  function IndexName(key: Props<Value>): (r: string)
    ensures |key| == 0 ==> r == ""
    ensures |key| > 0 ==> key[0].0 + "_" <= r
  {
    var ts := Tokens(key);
    assert |key| > 0 ==> Join('_', ts) == ts[0] + ['_'] + Join('_', ts[1..]);
    Join('_', ts)
  }

  /** `DB.normalizeIndex(index, i)`.  A non-object gives null.  A flat
      descriptor is copied without `v` and `ns`, after `v` is set to the list
      position.  A declaration gives `{ v: i, key: key, name: <derived> }`
      followed by every option, so an option may override any of those three. */
  function Normalize(index: RawIndex, i: nat): (r: Option<Props<Value>>)
    ensures r.None? <==> index.Plain? && !index.value.Obj?
    ensures r.Some? && index.Plain? ==> Field(r.value, "v") == Num(i) && "ns" !in Names(r.value)
    ensures r.Some? && index.Declared? ==> "v" in Names(r.value) && "key" in Names(r.value) && "name" in Names(r.value)
  {
    match index
    case Plain(Obj(_, props)) =>
      var base := [("v", Num(i))];
      assert Get(base, "v") == Some(Num(i)) && Get(base, "ns") == None;
      var r := CopyInto(base, props, {"v", "ns"});
      assert Get(r, "v") == Some(Num(i)) && Get(r, "ns") == None;
      Some(r)
    case Plain(_) => None
    case Declared(elems) =>
      var key := DeclaredKey(elems);
      var base := [("v", Num(i)), ("key", key), ("name", Str(IndexName(Enumerate(key))))];
      assert Names(base) == ["v", "key", "name"];
      var r := CopyInto(base, Enumerate(DeclaredOptions(elems)), {});
      assert "v" in Names(base) && "key" in Names(base) && "name" in Names(base);
      Some(r)
  }

  /** The fields `couple` ignores: the list position, the namespace and the key. */
  predicate Ignored(n: string) {
    n == "v" || n == "ns" || n == "key"
  }

  /** The loop `for (i in a) if (!Ignored(i) && a[i] != b[i]) return false`,
      over the given names. */
  function AllAgree(names: seq<string>, a: Props<Value>, b: Props<Value>): (r: bool)
    ensures r <==> forall j :: 0 <= j < |names| && !Ignored(names[j]) ==> LooseEq(Field(a, names[j]), Field(b, names[j]))
  {
    if |names| == 0 then true
    else (Ignored(names[0]) || LooseEq(Field(a, names[0]), Field(b, names[0]))) && AllAgree(names[1..], a, b)
  }

  /** `DB.compareIndexes.couple(a, b)`: absent on either side means not
      equivalent; otherwise every field of either side, except the ignored
      ones, must be loosely equal on both sides. */
  function Couple(a: Option<Props<Value>>, b: Option<Props<Value>>): (r: bool)
    ensures r <==> a.Some? && b.Some? &&
                   forall n :: !Ignored(n) ==> LooseEq(Field(a.value, n), Field(b.value, n))
  {
    if a.None? || b.None? then false
    else
      var x, y := a.value, b.value;
      var r := AllAgree(Names(x), x, y) && AllAgree(Names(y), x, y);
      assert r ==> forall n :: !Ignored(n) ==> LooseEq(Field(x, n), Field(y, n)) by {
        if r {
          forall n | !Ignored(n) ensures LooseEq(Field(x, n), Field(y, n)) {
            if n in Names(x) {
              var j :| 0 <= j < |Names(x)| && Names(x)[j] == n;
            } else if n in Names(y) {
              var j :| 0 <= j < |Names(y)| && Names(y)[j] == n;
            }
          }
        }
      }
      r
  }

  /** A flat descriptor keeps every field except `v` and `ns`, and `v` becomes
      the list position. */
  lemma NormalizePlain(ref: nat, props: Props<Value>, i: nat)
    requires Distinct(props)
    ensures Normalize(Plain(Obj(ref, props)), i).Some?
    ensures var o := Normalize(Plain(Obj(ref, props)), i).value;
      && Distinct(o)
      && Field(o, "v") == Num(i) && "ns" !in Names(o)
      && forall n :: n != "v" && n != "ns" ==> Field(o, n) == Field(props, n)
  {
    CopyIntoCopies([("v", Num(i))], props, {"v", "ns"});
  }

  /** A declaration gives `v`, `key` and the derived `name`, each unless an
      option of the same name overrides it, and then every option. */
  lemma NormalizeDeclared(elems: seq<Value>, i: nat)
    requires Distinct(Enumerate(DeclaredOptions(elems)))
    ensures Normalize(Declared(elems), i).Some?
    ensures var o := Normalize(Declared(elems), i).value;
      var opts := Enumerate(DeclaredOptions(elems));
      && Distinct(o)
      && Field(o, "v") == (if "v" in Names(opts) then Field(opts, "v") else Num(i))
      && Field(o, "key") == (if "key" in Names(opts) then Field(opts, "key") else DeclaredKey(elems))
      && Field(o, "name") == (if "name" in Names(opts) then Field(opts, "name")
                              else Str(IndexName(Enumerate(DeclaredKey(elems)))))
      && (forall n :: n in Names(opts) ==> Field(o, n) == Field(opts, n))
      && forall n :: n != "v" && n != "key" && n != "name" && n !in Names(opts) ==> Field(o, n) == Undefined
  {
    var key := DeclaredKey(elems);
    var name := Str(IndexName(Enumerate(key)));
    var opts := Enumerate(DeclaredOptions(elems));
    DeclaredCopyNamed(Num(i), key, name, opts);
    DeclaredCopyOthers(Num(i), key, name, opts);
    assert Normalize(Declared(elems), i) == Some(CopyInto([("v", Num(i)), ("key", key), ("name", name)], opts, {}));
  }

  /** `result = { v: i, key: key, name: name }` followed by
      `for (name in options) result[name] = options[name]`: the three
      fields, each unless an option overrides it. */
  lemma DeclaredCopyNamed(v: Value, key: Value, name: Value, opts: Props<Value>)
    requires Distinct(opts)
    ensures var o := CopyInto([("v", v), ("key", key), ("name", name)], opts, {});
      && Distinct(o)
      && Field(o, "v") == (if "v" in Names(opts) then Field(opts, "v") else v)
      && Field(o, "key") == (if "key" in Names(opts) then Field(opts, "key") else key)
      && Field(o, "name") == (if "name" in Names(opts) then Field(opts, "name") else name)
  {
    var base := [("v", v), ("key", key), ("name", name)];
    ThreeFields("v", v, "key", key, "name", name);
    CopyIntoCopies(base, opts, {});
    CopyLookup(base, opts, "v");
    CopyLookup(base, opts, "key");
    CopyLookup(base, opts, "name");
  }

  /** The same copy: every option, and nothing beyond the three fields. */
  lemma DeclaredCopyOthers(v: Value, key: Value, name: Value, opts: Props<Value>)
    requires Distinct(opts)
    ensures var o := CopyInto([("v", v), ("key", key), ("name", name)], opts, {});
      && (forall n :: n in Names(opts) ==> Field(o, n) == Field(opts, n))
      && forall n :: n != "v" && n != "key" && n != "name" && n !in Names(opts) ==> Field(o, n) == Undefined
  {
    var base := [("v", v), ("key", key), ("name", name)];
    var o := CopyInto(base, opts, {});
    forall n | n in Names(opts) ensures Field(o, n) == Field(opts, n) {
      CopyLookup(base, opts, n);
    }
    forall n | n != "v" && n != "key" && n != "name" && n !in Names(opts) ensures Field(o, n) == Undefined {
      CopyLookup(base, opts, n);
      assert Get(base, n) == None;
    }
  }

  /** The object literal `{ a: x, b: y, c: z }` with three distinct names. */
  lemma ThreeFields(a: string, x: Value, b: string, y: Value, c: string, z: Value)
    requires a != b && b != c && a != c
    ensures var o := [(a, x), (b, y), (c, z)];
      && Names(o) == [a, b, c]
      && Distinct(o)
      && Field(o, a) == x && Field(o, b) == y && Field(o, c) == z
  {
    var o := [(a, x), (b, y), (c, z)];
    assert o[1..] == [(b, y), (c, z)];
    assert o[1..][1..] == [(c, z)];
    assert Get(o[1..][1..], c) == Some(z);
    assert Get(o[1..], c) == Some(z) && Get(o[1..], b) == Some(y);
  }

  lemma ExampleName()
    ensures IndexName([("a", Num(1)), ("b", Num(-1))]) == "a_1_b_-1"
  {
    var key := [("a", Num(1)), ("b", Num(-1))];
    assert JoinText(Num(1)) == "1";
    assert JoinText(Num(-1)) == "-1" by {
      assert IntToString(-1) == "-" + NatToString(1);
    }
    assert key[1..] == [("b", Num(-1))];
    assert Tokens(key[1..][1..]) == [];
    assert Tokens(key) == ["a", "1", "b", "-1"];
    var ts := ["a", "1", "b", "-1"];
    assert ts[1..] == ["1", "b", "-1"] && ts[1..][1..] == ["b", "-1"] && ts[1..][1..][1..] == ["-1"];
  }

  /** The example of the conventional naming: `[{ a: 1, b: -1 }, { unique: true }]`
      normalizes to name `a_1_b_-1`, the same key, and `unique: true`. */
  lemma NormalizeExample()
    ensures var key := Obj(1, [("a", Num(1)), ("b", Num(-1))]);
      var o := Normalize(Declared([key, Obj(2, [("unique", Bool(true))])]), 0);
      && o.Some?
      && Field(o.value, "name") == Str("a_1_b_-1")
      && Field(o.value, "key") == key
      && Field(o.value, "unique") == Bool(true)
  {
    var key := Obj(1, [("a", Num(1)), ("b", Num(-1))]);
    var opts := [("unique", Bool(true))];
    var elems := [key, Obj(2, opts)];
    assert DeclaredKey(elems) == key;
    assert DeclaredOptions(elems) == Obj(2, opts);
    assert Names(opts) == ["unique"];
    assert Field(opts, "unique") == Bool(true);
    NormalizeDeclared(elems, 0);
    ExampleName();
  }

  /** A text without separators splits into itself. */
  lemma {:induction false} SplitPlain(sep: char, p: string)
    requires sep !in p
    ensures Split(sep, p) == [p]
  {
    if |p| > 0 {
      SplitPlain(sep, p[1..]);
      assert [p[0]] + p[1..] == p;
    }
  }

  /** A separator-free part followed by a separator splits off as one part. */
  lemma {:induction false} SplitPrefix(sep: char, p: string, rest: string)
    requires sep !in p
    ensures Split(sep, p + [sep] + rest) == [p] + Split(sep, rest)
  {
    if |p| == 0 {
      assert p + [sep] + rest == [sep] + rest;
      assert ([sep] + rest)[1..] == rest;
    } else {
      SplitPrefix(sep, p[1..], rest);
      assert (p + [sep] + rest)[1..] == p[1..] + [sep] + rest;
      assert [p[0]] + p[1..] == p;
    }
  }

  /** Splitting a join of separator-free parts gives the parts back. */
  lemma {:induction false} SplitJoin(sep: char, parts: seq<string>)
    requires |parts| > 0
    requires forall i :: 0 <= i < |parts| ==> sep !in parts[i]
    ensures Split(sep, Join(sep, parts)) == parts
  {
    if |parts| == 1 {
      SplitPlain(sep, parts[0]);
    } else {
      SplitJoin(sep, parts[1..]);
      SplitPrefix(sep, parts[0], Join(sep, parts[1..]));
    }
  }

  /** The derived name determines the key: when no field name and no direction
      contains `_`, splitting the name on `_` gives back every field and its
      direction, in key order. */
  lemma NameRecoversKey(key: Props<Value>)
    requires |key| > 0
    requires forall i :: 0 <= i < |key| ==> '_' !in key[i].0 && '_' !in JoinText(key[i].1)
    ensures var parts := Split('_', IndexName(key));
      && |parts| == 2 * |key|
      && forall i :: 0 <= i < |key| ==> parts[2 * i] == key[i].0 && parts[2 * i + 1] == JoinText(key[i].1)
  {
    var ts := Tokens(key);
    forall j | 0 <= j < |ts| ensures '_' !in ts[j] {
      var i := j / 2;
      if j % 2 == 0 {
        assert j == 2 * i && ts[2 * i] == key[i].0;
      } else {
        assert j == 2 * i + 1 && ts[2 * i + 1] == JoinText(key[i].1);
      }
    }
    SplitJoin('_', ts);
  }

  lemma CoupleSymmetric(a: Option<Props<Value>>, b: Option<Props<Value>>)
    ensures Couple(a, b) == Couple(b, a)
  {
    if Couple(a, b) {
      forall n | !Ignored(n) ensures LooseEq(Field(b.value, n), Field(a.value, n)) {
        LooseEqSymmetric(Field(a.value, n), Field(b.value, n));
      }
    } else if Couple(b, a) {
      forall n | !Ignored(n) ensures LooseEq(Field(a.value, n), Field(b.value, n)) {
        LooseEqSymmetric(Field(a.value, n), Field(b.value, n));
      }
    }
  }

  /** Every normalized index is equivalent to itself; only absence is not. */
  lemma CoupleReflexive(a: Option<Props<Value>>)
    ensures Couple(a, a) <==> a.Some?
  {
    if a.Some? {
      forall n | !Ignored(n) ensures LooseEq(Field(a.value, n), Field(a.value, n)) {
        LooseEqReflexive(Field(a.value, n));
      }
    }
  }
}
