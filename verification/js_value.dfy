/** The JavaScript values that flow through the reconciliation and streaming
    code, and the coercions the code relies on: truthiness (`x || d`, `!x`),
    `String(x)`, `Number(x)`, `+` with a number, and loose equality `==`.

    Numbers are integers (no fractions, no NaN value: NaN only arises inside a
    coercion, where it is `None`).  An object carries a reference number, so
    that `==` between two objects is identity, as in JavaScript; two objects
    with the same reference always have the same properties. */
module JsValue {
  import opened JsObject
  import opened Decimal

  datatype Value =
    | Undefined
    | Null
    | Bool(b: bool)
    | Num(n: int)
    | Str(s: string)
    | Obj(ref: nat, props: seq<(string, Value)>)

  /** Objects the modelled code creates itself (`{ }`).  None of them is ever
      compared by identity, so they share one reference number. */
  const EmptyObject: Value := Obj(0, [])

  /** What `String(o)` and `o + ""` give for a plain object. */
  const ObjectText: string := "[object Object]"

  predicate Nullish(v: Value) {
    v.Undefined? || v.Null?
  }

  predicate Truthy(v: Value) {
    match v
    case Undefined => false
    case Null => false
    case Bool(b) => b
    case Num(n) => n != 0
    case Str(s) => s != ""
    case Obj(_, _) => true
  }

  /** `a || b` */
  function Or(a: Value, b: Value): (r: Value)
    ensures Truthy(a) ==> r == a
    ensures !Truthy(a) ==> r == b
  {
    if Truthy(a) then a else b
  }

  /** `o[n]` on an object's properties: an absent property reads as undefined. */
  function Field(o: Props<Value>, n: string): (r: Value)
    ensures n !in Names(o) ==> r == Undefined
  {
    match Get(o, n)
    case Some(v) => v
    case None => Undefined
  }

  /** `v.name` for any value: only objects have the properties modelled here. */
  function Member(v: Value, n: string): Value {
    if v.Obj? then Field(v.props, n) else Undefined
  }

  /** `Number(v)`; `None` is NaN. */
  function ToNumber(v: Value): Option<int> {
    match v
    case Undefined => None
    case Null => Some(0)
    case Bool(b) => Some(if b then 1 else 0)
    case Num(n) => Some(n)
    case Str(s) => StringToNumber(s)
    case Obj(_, _) => StringToNumber(ObjectText)
  }

  /** `String(v)`, also the property key `o[v]` uses. */
  function ToStr(v: Value): string {
    match v
    case Undefined => "undefined"
    case Null => "null"
    case Bool(b) => if b then "true" else "false"
    case Num(n) => IntToString(n)
    case Str(s) => s
    case Obj(_, _) => ObjectText
  }

  /** How `Array.prototype.join` renders an element: undefined and null as "". */
  function JoinText(v: Value): string {
    if Nullish(v) then "" else ToStr(v)
  }

  /** `v + n` for a number `n`: numeric addition, or string concatenation when
      `v` is (or converts to) a string.  `undefined + n` is NaN, which the
      callers never produce. */
  function AddNumber(v: Value, n: int): Value
    requires !v.Undefined?
  {
    match v
    case Null => Num(n)
    case Bool(b) => Num((if b then 1 else 0) + n)
    case Num(m) => Num(m + n)
    case Str(s) => Str(s + IntToString(n))
    case Obj(_, _) => Str(ObjectText + IntToString(n))
  }

  /** `x == y`, the abstract equality comparison restricted to these kinds of
      value: undefined and null equal each other and nothing else; values of
      one kind compare strictly (objects by identity); an object meets a
      string as its text; every other mixed pair compares as numbers. */
  function LooseEq(x: Value, y: Value): bool {
    if Nullish(x) || Nullish(y) then Nullish(x) && Nullish(y)
    else if x.Bool? && y.Bool? then x.b == y.b
    else if x.Num? && y.Num? then x.n == y.n
    else if x.Str? && y.Str? then x.s == y.s
    else if x.Obj? && y.Obj? then x.ref == y.ref
    else if x.Obj? && y.Str? then y.s == ObjectText
    else if x.Str? && y.Obj? then x.s == ObjectText
    else ToNumber(x).Some? && ToNumber(x) == ToNumber(y)
  }

  /** The iteration `for (var p in v) ... v[p]`: an object yields its own
      properties, a string its indices and characters, anything else nothing. */
  function Enumerate(v: Value): (r: Props<Value>)
    ensures v.Obj? ==> r == v.props
  {
    match v
    case Obj(_, props) => props
    case Str(s) => seq(|s|, i requires 0 <= i < |s| => (NatToString(i), Str([s[i]])))
    case _ => []
  }

  lemma LooseEqSymmetric(x: Value, y: Value)
    ensures LooseEq(x, y) == LooseEq(y, x)
  {
  }

  lemma LooseEqReflexive(x: Value)
    ensures LooseEq(x, x)
  {
  }

  /** `==` is not transitive: "" == 0 and 0 == "0", yet "" != "0". */
  lemma LooseEqNotTransitive()
    ensures LooseEq(Str(""), Num(0)) && LooseEq(Num(0), Str("0"))
    ensures !LooseEq(Str(""), Str("0"))
  {
    assert StringToNumber("0") == Some(0) by {
      assert AllDigits("0");
      assert DigitsValue("0") == DigitsValue("") * 10 + 0;
    }
  }

  /** A number equals its own decimal text: 1 == "1", -1 == "-1". */
  lemma NumberEqualsItsText(n: int)
    ensures LooseEq(Num(n), Str(IntToString(n)))
  {
    IntRoundTrip(n);
  }

  /** A value whose property key starts with `_` is loosely equal to that key:
      numbers print with a digit or `-` first, and the fixed words do not start
      with `_`.  So a filter by `==` and a table keyed by `String(v)` agree on
      such a name. */
  lemma KeyTextMeansLooseEq(v: Value, s: string)
    requires ToStr(v) == s
    requires |s| > 0 && s[0] == '_'
    ensures LooseEq(v, Str(s))
  {
  }

  /** A string's indices are distinct names, so enumerating any object-like
      value yields a well-formed object whenever the object itself is one. */
  lemma EnumerateDistinct(v: Value)
    requires v.Obj? ==> Distinct(v.props)
    ensures Distinct(Enumerate(v))
  {
    if v.Str? {
      var r := Enumerate(v);
      forall i, j | 0 <= i < j < |r| ensures r[i].0 != r[j].0 {
        if r[i].0 == r[j].0 { NatToStringInjective(i, j); }
      }
    }
  }
}
