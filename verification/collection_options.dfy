/** The option half of schema reconciliation (lib/DB.js, `DB.compareOptions`):
    the collection options the store reports are compared with the declared
    `create` options on exactly four fields, by loose equality, with a
    missing (falsy) argument read as `{ }`. */
module CollectionOptions {
  import opened JsObject
  import opened JsValue
  import opened Decimal

  /** The options that decide whether a collection must be recreated. */
  const Compared: seq<string> := ["capped", "max", "size", "autoIndexId"]

  /** `(opt || { }).f` */
  function OptionField(opt: Value, f: string): (r: Value)
    ensures !Truthy(opt) ==> r == Undefined
  {
    Member(Or(opt, EmptyObject), f)
  }

  /** Both option sets agree on field `f`. */
  predicate Agree(a: Value, b: Value, f: string) {
    LooseEq(OptionField(a, f), OptionField(b, f))
  }

  /** `DB.compareOptions(optA, optB)` */
  function CompareOptions(optA: Value, optB: Value): (r: bool)
    ensures r <==> forall i :: 0 <= i < |Compared| ==> Agree(optA, optB, Compared[i])
  {
    var cap := Agree(optA, optB, "capped");
    var max := Agree(optA, optB, "max");
    var size := Agree(optA, optB, "size");
    var auto := Agree(optA, optB, "autoIndexId");
    assert Compared[0] == "capped" && Compared[1] == "max" && Compared[2] == "size" && Compared[3] == "autoIndexId";
    cap && max && size && auto
  }

  lemma CompareOptionsSymmetric(a: Value, b: Value)
    ensures CompareOptions(a, b) == CompareOptions(b, a)
  {
    forall i | 0 <= i < |Compared| ensures Agree(a, b, Compared[i]) == Agree(b, a, Compared[i]) {
      LooseEqSymmetric(OptionField(a, Compared[i]), OptionField(b, Compared[i]));
    }
  }

  lemma CompareOptionsReflexive(a: Value)
    ensures CompareOptions(a, a)
  {
    forall i | 0 <= i < |Compared| ensures Agree(a, a, Compared[i]) {
      LooseEqReflexive(OptionField(a, Compared[i]));
    }
  }

  /** Any falsy argument (a missing one included) compares as `{ }`. */
  lemma MissingIsEmpty(a: Value, b: Value)
    requires !Truthy(a)
    ensures CompareOptions(a, b) == CompareOptions(EmptyObject, b)
  {
    forall i | 0 <= i < |Compared| ensures Agree(a, b, Compared[i]) == Agree(EmptyObject, b, Compared[i]) {
    }
  }

  /** A field outside the four never changes the outcome. */
  lemma OtherFieldsIgnored(ref: nat, props: Props<Value>, n: string, v: Value, b: Value)
    requires n !in Compared
    ensures CompareOptions(Obj(ref, Put(props, n, v)), b) == CompareOptions(Obj(ref, props), b)
  {
    forall i | 0 <= i < |Compared|
      ensures Agree(Obj(ref, Put(props, n, v)), b, Compared[i]) == Agree(Obj(ref, props), b, Compared[i])
    {
      assert Compared[i] != n;
    }
  }

  /** Absent and explicitly false are not the same: `false == undefined` is
      false, so `{ capped: false }` differs from `{ }`. */
  lemma ExplicitFalseDiffers()
    ensures !CompareOptions(Obj(1, [("capped", Bool(false))]), EmptyObject)
  {
    assert !Agree(Obj(1, [("capped", Bool(false))]), EmptyObject, Compared[0]);
  }

  /** Loose equality lets a number meet its text: `{ max: 5 }` and
      `{ max: "5" }` compare equal. */
  lemma NumberMeetsText()
    ensures CompareOptions(Obj(1, [("max", Num(5))]), Obj(2, [("max", Str("5"))]))
  {
    NumberEqualsItsText(5);
    assert IntToString(5) == "5";
    var a, b := Obj(1, [("max", Num(5))]), Obj(2, [("max", Str("5"))]);
    assert Agree(a, b, "max");
    forall i | 0 <= i < |Compared| ensures Agree(a, b, Compared[i]) {
    }
  }

  /** A capped declaration against an uncapped collection differs. */
  lemma CappedDiffers()
    ensures !CompareOptions(Obj(1, [("capped", Bool(false))]), Obj(2, [("capped", Bool(true)), ("size", Num(1024))]))
  {
    assert !Agree(Obj(1, [("capped", Bool(false))]), Obj(2, [("capped", Bool(true)), ("size", Num(1024))]), Compared[0]);
  }
}
