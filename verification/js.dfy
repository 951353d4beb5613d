/** JavaScript values, exceptions and plain objects, as far as the validator and
    the reducer combinator observe them. */
module Js {

  datatype Option<+T> = None | Some(value: T)

  /** A JavaScript value that can reach a validation predicate. Numbers are the
      integer-valued ones. */
  datatype Value = Str(s: string) | Num(n: int) | Bool(b: bool) | Null | Undefined

  /** `!value` in JavaScript: the falsy values are "", 0, false, null and undefined. */
  predicate Falsy(v: Value) {
    match v
    case Str(s) => s == ""
    case Num(n) => n == 0
    case Bool(b) => !b
    case Null => true
    case Undefined => true
  }

  /** What a `throw` carries: a runtime TypeError, or an `Error` built by the code. */
  datatype JsError = TypeError | Error(message: string)

  /** How a JavaScript call ends: it returns a value or it throws. */
  datatype Completion<+T> = Normal(value: T) | Throw(error: JsError)

  predicate Distinct<T(==)>(s: seq<T>) {
    forall i, j | 0 <= i < j < |s| :: s[i] != s[j]
  }

  /** `a` is `b` with some elements left out, the rest in the same order. */
  predicate IsSubsequence<T(==)>(a: seq<T>, b: seq<T>)
    decreases |b|
  {
    if a == [] then true
    else if b == [] then false
    else if a[0] == b[0] then IsSubsequence(a[1..], b[1..])
    else IsSubsequence(a, b[1..])
  }

  /** A subsequence of the tail is a subsequence of the whole. */
  lemma {:induction false} SkipHead<T>(a: seq<T>, b: seq<T>)
    requires b != [] && IsSubsequence(a, b[1..])
    ensures IsSubsequence(a, b)
    decreases |b|, 0
  {
    if a != [] && a[0] == b[0] {
      DropHead(a, b[1..]);
    }
  }

  /** Leaving out the first element keeps a subsequence a subsequence. */
  lemma {:induction false} DropHead<T>(a: seq<T>, c: seq<T>)
    requires a != [] && IsSubsequence(a, c)
    ensures IsSubsequence(a[1..], c)
    decreases |c|, 1
  {
    if a[0] == c[0] {
      SkipHead(a[1..], c);
    } else {
      DropHead(a, c[1..]);
      SkipHead(a[1..], c);
    }
  }

  lemma {:induction false} SubsequenceMembers<T>(a: seq<T>, b: seq<T>)
    requires IsSubsequence(a, b)
    ensures forall x :: x in a ==> x in b
    decreases |b|
  {
    if a != [] && b != [] {
      if a[0] == b[0] {
        SubsequenceMembers(a[1..], b[1..]);
        forall x | x in a ensures x in b {
          if x != a[0] { assert x in a[1..]; }
        }
      } else {
        SubsequenceMembers(a, b[1..]);
      }
    }
  }

  lemma {:induction false} SubsequenceDistinct<T>(a: seq<T>, b: seq<T>)
    requires IsSubsequence(a, b) && Distinct(b)
    ensures Distinct(a)
    decreases |b|
  {
    if a != [] && b != [] {
      assert Distinct(b[1..]);
      if a[0] == b[0] {
        SubsequenceDistinct(a[1..], b[1..]);
        SubsequenceMembers(a[1..], b[1..]);
        forall j | 0 < j < |a| ensures a[0] != a[j] {
          assert a[j] in a[1..];
        }
      } else {
        SubsequenceDistinct(a, b[1..]);
      }
    }
  }

  /** Without its first element a distinct sequence stays distinct and no
      longer holds that element. */
  lemma DistinctTail<T>(s: seq<T>)
    requires s != [] && Distinct(s)
    ensures Distinct(s[1..]) && s[0] !in s[1..]
  {
  }

  lemma {:induction false} DistinctCardinality<T>(s: seq<T>)
    requires Distinct(s)
    ensures |set x | x in s| == |s|
  {
    if s != [] {
      assert Distinct(s[1..]);
      DistinctCardinality(s[1..]);
      assert (set x | x in s) == {s[0]} + (set x | x in s[1..]);
      assert s[0] !in s[1..];
    }
  }

  /** A plain JavaScript object: its own keys in `Object.keys` order and the
      value under each. */
  datatype Dict<V> = Dict(keys: seq<string>, entries: map<string, V>) {

    ghost predicate Valid() {
      && Distinct(keys)
      && (forall k :: k in entries <==> k in keys)
    }

    /** `obj[k] = v`: a new key goes to the end of the key order, an existing
        key keeps its place. */
    function Put(k: string, v: V): (d: Dict<V>)
      ensures Valid() ==> d.Valid()
      ensures d.entries == entries[k := v]
      ensures k in entries ==> d.keys == keys
      ensures k !in entries ==> d.keys == keys + [k]
    {
      if k in entries then Dict(keys, entries[k := v])
      else Dict(keys + [k], entries[k := v])
    }
  }

  /** `obj[k]` on a plain object: `undefined` (None) when the key is absent. */
  function Get<V>(m: map<string, V>, k: string): Option<V> {
    if k in m then Some(m[k]) else None
  }
}
