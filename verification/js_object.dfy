/** A JavaScript plain object, represented by its own enumerable properties as
    (name, value) pairs in for-in order.  Assignment `o[k] = v` overwrites an
    existing property in place and appends a new one at the end, which is what
    fixes the enumeration order of every object the modelled code builds. */
module JsObject {

  datatype Option<+T> = None | Some(value: T)

  type Props<T> = seq<(string, T)>

  /** The property names, in enumeration order. */
  function Names<T>(o: Props<T>): (ns: seq<string>)
    ensures |ns| == |o|
    ensures forall i :: 0 <= i < |o| ==> ns[i] == o[i].0
  {
    if |o| == 0 then [] else [o[0].0] + Names(o[1..])
  }

  /** No name occurs twice; every object the runtime hands out has this shape. */
  predicate Distinct<T>(o: Props<T>) {
    forall i, j :: 0 <= i < j < |o| ==> o[i].0 != o[j].0
  }

  /** `o[k]`: the value of the property named `k`, if any. */
  function Get<T>(o: Props<T>, k: string): (r: Option<T>)
    ensures r.Some? <==> k in Names(o)
  {
    if |o| == 0 then None
    else if o[0].0 == k then Some(o[0].1)
    else
      assert Names(o) == [o[0].0] + Names(o[1..]);
      Get(o[1..], k)
  }

  /** `o[k] = v`. */
  function Put<T>(o: Props<T>, k: string, v: T): (r: Props<T>)
    ensures Get(r, k) == Some(v)
    ensures forall n :: n != k ==> Get(r, n) == Get(o, n)
  {
    if |o| == 0 then [(k, v)]
    else if o[0].0 == k then [(k, v)] + o[1..]
    else [o[0]] + Put(o[1..], k, v)
  }

  /** Assignment keeps the position of an existing name and appends a new one. */
  lemma {:induction false} PutNames<T>(o: Props<T>, k: string, v: T)
    ensures k in Names(o) ==> Names(Put(o, k, v)) == Names(o)
    ensures k !in Names(o) ==> Names(Put(o, k, v)) == Names(o) + [k]
  {
    if |o| > 0 && o[0].0 != k {
      PutNames(o[1..], k, v);
      assert Put(o, k, v)[1..] == Put(o[1..], k, v);
    }
  }

  lemma PutDistinct<T>(o: Props<T>, k: string, v: T)
    requires Distinct(o)
    ensures Distinct(Put(o, k, v))
  {
    PutNames(o, k, v);
    var r := Put(o, k, v);
    forall i, j | 0 <= i < j < |r| ensures r[i].0 != r[j].0 {
      assert Names(r)[i] == r[i].0 && Names(r)[j] == r[j].0;
      if j < |o| {
        assert Names(o)[i] == o[i].0 && Names(o)[j] == o[j].0;
      } else {
        assert Names(o)[i] == o[i].0;
      }
    }
  }

  lemma DistinctTail<T>(o: Props<T>)
    requires Distinct(o) && |o| > 0
    ensures Distinct(o[1..])
  {
    forall i, j | 0 <= i < j < |o[1..]| ensures o[1..][i].0 != o[1..][j].0 {
      assert o[i + 1] == o[1..][i] && o[j + 1] == o[1..][j];
    }
  }

  /** In a Distinct object, a pair belongs to it exactly when lookup finds it. */
  lemma {:induction false} MemberIsLookup<T>(o: Props<T>, k: string, v: T)
    requires Distinct(o)
    ensures (k, v) in o <==> Get(o, k) == Some(v)
  {
    if |o| > 0 {
      DistinctTail(o);
      MemberIsLookup(o[1..], k, v);
      if o[0].0 == k {
        assert forall j :: 0 <= j < |o[1..]| ==> o[1..][j].0 != k by {
          forall j | 0 <= j < |o[1..]| ensures o[1..][j].0 != k {
            assert o[1..][j] == o[j + 1];
          }
        }
        assert (k, v) !in o[1..];
      }
      assert o == [o[0]] + o[1..];
    }
  }

  /** The assignments `for (name in src) if (name not in skip) target[name] = src[name]`. */
  function CopyInto<T>(target: Props<T>, src: Props<T>, skip: set<string>): (r: Props<T>)
    ensures forall n :: n in skip || n !in Names(src) ==> Get(r, n) == Get(target, n)
    ensures forall n :: n in Names(target) ==> n in Names(r)
    decreases |src|
  {
    if |src| == 0 then target
    else
      var (name, value) := src[0];
      var next := if name in skip then target else Put(target, name, value);
      assert forall n :: n in Names(target) ==> n in Names(next) by {
        if name !in skip { PutNames(target, name, value); }
      }
      CopyInto(next, src[1..], skip)
  }

  /** One name after copying everything from a well-formed source: the
      source's value if it has the name, the target's otherwise. */
  lemma CopyLookup<T>(target: Props<T>, src: Props<T>, n: string)
    requires Distinct(src)
    ensures Get(CopyInto(target, src, {}), n) == if n in Names(src) then Get(src, n) else Get(target, n)
  {
    CopyIntoCopies(target, src, {});
  }

  /** With a well-formed source, every copied name ends up with the source's
      value, and a well-formed target stays well-formed. */
  lemma {:induction false} CopyIntoCopies<T>(target: Props<T>, src: Props<T>, skip: set<string>)
    requires Distinct(src)
    ensures forall n :: n !in skip && n in Names(src) ==> Get(CopyInto(target, src, skip), n) == Get(src, n)
    ensures Distinct(target) ==> Distinct(CopyInto(target, src, skip))
    decreases |src|
  {
    if |src| > 0 {
      var (name, value) := src[0];
      var next := if name in skip then target else Put(target, name, value);
      DistinctTail(src);
      CopyIntoCopies(next, src[1..], skip);
      assert name !in Names(src[1..]) by {
        forall j | 0 <= j < |src[1..]| ensures Names(src[1..])[j] != name {
          assert src[1..][j] == src[j + 1];
        }
      }
      if Distinct(target) && name !in skip { PutDistinct(target, name, value); }
    }
  }

  /** Assigning a name the object does not have appends it. */
  lemma {:induction false} PutAppends<T>(o: Props<T>, k: string, v: T)
    requires forall j :: 0 <= j < |o| ==> o[j].0 != k
    ensures Put(o, k, v) == o + [(k, v)]
  {
    if |o| > 0 {
      forall j | 0 <= j < |o[1..]| ensures o[1..][j].0 != k {
        assert o[1..][j] == o[j + 1];
      }
      PutAppends(o[1..], k, v);
      assert Put(o, k, v) == [o[0]] + Put(o[1..], k, v);
      ConsAppend(o, [(k, v)]);
    }
  }

  lemma ConsAppend<T>(s: seq<T>, z: seq<T>)
    requires |s| > 0
    ensures [s[0]] + (s[1..] + z) == s + z
  {
    assert [s[0]] + s[1..] == s;
    assert [s[0]] + (s[1..] + z) == ([s[0]] + s[1..]) + z;
  }

  lemma AppendHead<T>(t: seq<T>, s: seq<T>)
    requires |s| > 0
    ensures t + [s[0]] + s[1..] == t + s
  {
    assert [s[0]] + s[1..] == s;
  }

  /** Copying a well-formed source into a target that shares no name with it
      appends the source, in its order. */
  lemma {:induction false} CopyAppends<T>(target: Props<T>, src: Props<T>)
    requires Distinct(src)
    requires forall i, j :: 0 <= i < |src| && 0 <= j < |target| ==> src[i].0 != target[j].0
    ensures CopyInto(target, src, {}) == target + src
    decreases |src|
  {
    if |src| == 0 {
      assert target + src == target;
    } else {
      var (name, value) := src[0];
      PutAppends(target, name, value);
      DistinctTail(src);
      var next := target + [src[0]];
      forall i, j | 0 <= i < |src[1..]| && 0 <= j < |next| ensures src[1..][i].0 != next[j].0 {
        assert src[1..][i] == src[i + 1];
        if j < |target| { assert next[j] == target[j]; } else { assert next[j] == src[0]; }
      }
      CopyAppends(next, src[1..]);
      AppendHead(target, src);
    }
  }
}
