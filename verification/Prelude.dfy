/** Result types, byte strings and the lexicographic order that Python uses on `bytes` and `str`. */
module Prelude {

  datatype Option<+T> = None | Some(value: T)

  /** The exception classes that the modelled code raises. */
  datatype Fault = Stateless | Contextual | Malformed

  /** A computed value, or the exception raised instead. */
  datatype Result<+T> = Ok(value: T) | Err(fault: Fault) {
    predicate IsFailure() {
      Err?
    }

    function PropagateFailure<U>(): Result<U>
      requires Err?
    {
      Err(fault)
    }

    function Extract(): T
      requires Ok?
    {
      value
    }
  }

  type byte = b: int | 0 <= b < 256

  type Bytes = seq<byte>

  /** A `str`, represented by its UTF-8 encoding; code-point order is byte order. */
  type Text = Bytes

  /** The encoding of an ASCII literal. */
  function Ascii(s: string): (t: Text)
    ensures |t| == |s|
  {
    seq(|s|, i requires 0 <= i < |s| => if s[i] <= '\U{7F}' then s[i] as int else 0)
  }

  function Min(a: int, b: int): int {
    if a <= b then a else b
  }

  function Max(a: int, b: int): int {
    if a >= b then a else b
  }

  /** `dict.get(key, default)`. */
  function Get<K, V>(m: map<K, V>, key: K, default: V): V {
    if key in m then m[key] else default
  }

  function Lookup<K, V>(m: map<K, V>, key: K): Option<V> {
    if key in m then Some(m[key]) else None
  }

  function Sum(s: seq<int>): int {
    if s == [] then 0 else s[0] + Sum(s[1..])
  }

  lemma {:induction false} SumAppend(s: seq<int>, t: seq<int>)
    ensures Sum(s + t) == Sum(s) + Sum(t)
  {
    if s == [] {
      assert s + t == t;
    } else {
      assert (s + t)[1..] == s[1..] + t;
      SumAppend(s[1..], t);
    }
  }

  predicate NoDuplicates<T(==)>(s: seq<T>) {
    forall i, j :: 0 <= i < j < |s| ==> s[i] != s[j]
  }

  lemma SubsetSize<T>(a: set<T>, b: set<T>)
    requires a <= b
    ensures |a| <= |b|
  {
    assert b == a + (b - a);
  }

  function Flatten<T>(ss: seq<seq<T>>): seq<T> {
    if ss == [] then [] else ss[0] + Flatten(ss[1..])
  }

  /** Python's `<=` on byte strings. */
  predicate LexLe(a: Bytes, b: Bytes) {
    if a == [] then true
    else if b == [] then false
    else if a[0] != b[0] then a[0] < b[0]
    else LexLe(a[1..], b[1..])
  }

  predicate LexLess(a: Bytes, b: Bytes) {
    a != b && LexLe(a, b)
  }

  lemma {:induction false} LexReflexive(a: Bytes)
    ensures LexLe(a, a)
  {
    if a != [] { LexReflexive(a[1..]); }
  }

  lemma {:induction false} LexTotal(a: Bytes, b: Bytes)
    ensures LexLe(a, b) || LexLe(b, a)
  {
    if a != [] && b != [] && a[0] == b[0] { LexTotal(a[1..], b[1..]); }
  }

  lemma {:induction false} LexAntisymmetric(a: Bytes, b: Bytes)
    requires LexLe(a, b) && LexLe(b, a)
    ensures a == b
  {
    if a != [] {
      LexAntisymmetric(a[1..], b[1..]);
      assert a == [a[0]] + a[1..] && b == [b[0]] + b[1..];
    }
  }

  lemma {:induction false} LexTransitive(a: Bytes, b: Bytes, c: Bytes)
    requires LexLe(a, b) && LexLe(b, c)
    ensures LexLe(a, c)
  {
    if a != [] && a[0] == b[0] == c[0] { LexTransitive(a[1..], b[1..], c[1..]); }
  }

  lemma {:induction false} LeastExists(s: set<Text>)
    requires s != {}
    ensures exists m :: m in s && forall x :: x in s ==> LexLe(m, x)
    decreases s
  {
    hide LexLe;
    var e :| e in s;
    if s == {e} {
      LexReflexive(e);
      assert forall x :: x in s ==> LexLe(e, x);
    } else {
      LeastExists(s - {e});
      var m :| m in s - {e} && forall x :: x in s - {e} ==> LexLe(m, x);
      LexReflexive(e);
      if LexLe(e, m) {
        forall x | x in s ensures LexLe(e, x) {
          if x != e { LexTransitive(e, m, x); }
        }
      } else {
        LexTotal(e, m);
        assert forall x :: x in s ==> LexLe(m, x);
      }
    }
  }

  /** `sorted(s)` for a set of strings. */
  function SortedTexts(s: set<Text>): (r: seq<Text>)
    ensures forall x :: x in r <==> x in s
    decreases s
  {
    if s == {} then []
    else
      LeastExists(s);
      LeastUnique(s);
      var m :| m in s && forall x :: x in s ==> LexLe(m, x);
      [m] + SortedTexts(s - {m})
  }

  lemma LeastUnique(s: set<Text>)
    ensures forall a, b | a in s && b in s && (forall x :: x in s ==> LexLe(a, x)) && (forall x :: x in s ==> LexLe(b, x)) :: a == b
  {
    forall a, b | a in s && b in s && (forall x :: x in s ==> LexLe(a, x)) && (forall x :: x in s ==> LexLe(b, x)) ensures a == b {
      LexAntisymmetric(a, b);
    }
  }

  /** The sorted keys are distinct and in strictly increasing order. */
  lemma {:induction false} SortedTextsIncrease(s: set<Text>)
    ensures forall i, j :: 0 <= i < j < |SortedTexts(s)| ==> LexLess(SortedTexts(s)[i], SortedTexts(s)[j])
    ensures NoDuplicates(SortedTexts(s)) && |SortedTexts(s)| == |s|
    decreases s
  {
    if s != {} {
      var r := SortedTexts(s);
      SortedTextsIncrease(s - {r[0]});
      forall i, j | 0 <= i < j < |r| ensures LexLess(r[i], r[j]) {
        assert r[j] == SortedTexts(s - {r[0]})[j - 1];
        if i > 0 { assert r[i] == SortedTexts(s - {r[0]})[i - 1]; }
      }
    }
  }

  /** `int.from_bytes(b, "big")`. */
  function Number(b: Bytes): nat {
    if b == [] then 0 else Number(b[..|b| - 1]) * 256 + b[|b| - 1]
  }
}
