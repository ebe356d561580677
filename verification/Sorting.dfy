/** Python's stable `sorted`, specified by what makes its result unique. */
module Sorting {

  /** `le` is a total preorder. */
  ghost predicate Preorder<T(!new)>(le: (T, T) -> bool) {
    && (forall a, b :: le(a, b) || le(b, a))
    && (forall a, b, c :: le(a, b) && le(b, c) ==> le(a, c))
  }

  /** No two different elements of `s` tie. */
  ghost predicate Strict<T>(le: (T, T) -> bool, s: seq<T>) {
    forall a, b | a in multiset(s) && b in multiset(s) && le(a, b) && le(b, a) :: a == b
  }

  ghost predicate Sorted<T>(le: (T, T) -> bool, s: seq<T>) {
    forall i, j :: 0 <= i < j < |s| ==> le(s[i], s[j])
  }

  function Insert<T>(le: (T, T) -> bool, x: T, s: seq<T>): (r: seq<T>)
    ensures multiset(r) == multiset{x} + multiset(s)
    ensures r != [] && (r[0] == x || (s != [] && r[0] == s[0]))
  {
    if s == [] then [x]
    else if le(x, s[0]) then [x] + s
    else
      assert s == [s[0]] + s[1..];
      [s[0]] + Insert(le, x, s[1..])
  }

  /** `sorted(s)`: an element goes before the later elements it ties with. */
  function Sort<T>(le: (T, T) -> bool, s: seq<T>): (r: seq<T>)
    ensures multiset(r) == multiset(s)
  {
    if s == [] then []
    else
      assert s == [s[0]] + s[1..];
      Insert(le, s[0], Sort(le, s[1..]))
  }

  lemma SameElements<T>(s: seq<T>, t: seq<T>)
    requires multiset(s) == multiset(t)
    ensures |s| == |t|
    ensures forall x :: x in s <==> x in t
  {
    assert |multiset(s)| == |multiset(t)|;
    forall x ensures x in s <==> x in t {
      assert x in s <==> x in multiset(s);
      assert x in t <==> x in multiset(t);
    }
  }

  lemma SortMembers<T>(le: (T, T) -> bool, s: seq<T>)
    ensures |Sort(le, s)| == |s|
    ensures forall x :: x in Sort(le, s) <==> x in s
  {
    SameElements(Sort(le, s), s);
  }

  lemma SortedCons<T(!new)>(le: (T, T) -> bool, x: T, s: seq<T>)
    requires Preorder(le) && Sorted(le, s)
    requires s != [] ==> le(x, s[0])
    ensures Sorted(le, [x] + s)
  {
    var r := [x] + s;
    forall i, j | 0 <= i < j < |r| ensures le(r[i], r[j]) {
      if i == 0 {
        if j > 1 { assert le(s[0], s[j - 1]); }
      } else {
        assert le(s[i - 1], s[j - 1]);
      }
    }
  }

  lemma {:induction false} InsertSorted<T(!new)>(le: (T, T) -> bool, x: T, s: seq<T>)
    requires Preorder(le) && Sorted(le, s)
    ensures Sorted(le, Insert(le, x, s))
  {
    if s != [] {
      if le(x, s[0]) {
        SortedCons(le, x, s);
      } else {
        InsertSorted(le, x, s[1..]);
        assert le(s[0], x);
        assert |s| > 1 ==> le(s[0], s[1]);
        SortedCons(le, s[0], Insert(le, x, s[1..]));
      }
    }
  }

  lemma {:induction false} SortSorts<T(!new)>(le: (T, T) -> bool, s: seq<T>)
    requires Preorder(le)
    ensures Sorted(le, Sort(le, s))
  {
    if s != [] {
      SortSorts(le, s[1..]);
      InsertSorted(le, s[0], Sort(le, s[1..]));
    }
  }

  lemma HeadIsLeast<T(!new)>(le: (T, T) -> bool, s: seq<T>, x: T)
    requires Preorder(le) && Sorted(le, s) && x in multiset(s)
    ensures s != [] && le(s[0], x)
  {
    assert x in s;
    var i :| 0 <= i < |s| && s[i] == x;
    if i == 0 { assert le(x, x); }
  }

  lemma TailMultiset<T>(s: seq<T>)
    requires s != []
    ensures multiset(s[1..]) == multiset(s) - multiset{s[0]}
  {
    assert s == [s[0]] + s[1..];
  }

  lemma SameHead<T(!new)>(le: (T, T) -> bool, s: seq<T>, t: seq<T>)
    requires Preorder(le) && Sorted(le, s) && Sorted(le, t) && Strict(le, s)
    requires multiset(s) == multiset(t) && s != [] && t != []
    ensures s[0] == t[0]
  {
    assert s[0] in multiset(s) && t[0] in multiset(t);
    HeadIsLeast(le, s, t[0]);
    HeadIsLeast(le, t, s[0]);
  }

  lemma TailKeeps<T>(le: (T, T) -> bool, s: seq<T>)
    requires s != [] && Sorted(le, s) && Strict(le, s)
    ensures Sorted(le, s[1..]) && Strict(le, s[1..])
  {
    TailMultiset(s);
    assert forall x :: x in multiset(s[1..]) ==> x in multiset(s);
  }

  lemma StrictSame<T>(le: (T, T) -> bool, s: seq<T>, t: seq<T>)
    requires Strict(le, s) && multiset(s) == multiset(t)
    ensures Strict(le, t)
  {
  }

  /** Two sorted arrangements of the same elements are equal when no two elements tie. */
  lemma {:induction false} SortedUnique<T(!new)>(le: (T, T) -> bool, s: seq<T>, t: seq<T>)
    requires Preorder(le) && Sorted(le, s) && Sorted(le, t) && Strict(le, s) && Strict(le, t)
    requires multiset(s) == multiset(t)
    ensures s == t
  {
    SameElements(s, t);
    if s != [] {
      SameHead(le, s, t);
      TailMultiset(s);
      TailMultiset(t);
      TailKeeps(le, s);
      TailKeeps(le, t);
      SortedUnique(le, s[1..], t[1..]);
      assert s == [s[0]] + s[1..] && t == [t[0]] + t[1..];
    }
  }

  /** Sorting forgets the order of its input when no two elements tie. */
  lemma SortPermutation<T(!new)>(le: (T, T) -> bool, s: seq<T>, t: seq<T>)
    requires Preorder(le) && Strict(le, s)
    requires multiset(s) == multiset(t)
    ensures Sort(le, s) == Sort(le, t)
  {
    SortSorts(le, s);
    SortSorts(le, t);
    StrictSame(le, s, Sort(le, s));
    StrictSame(le, s, Sort(le, t));
    SortedUnique(le, Sort(le, s), Sort(le, t));
  }

  // ---- bags: what survives of a sequence when its order is forgotten ----

  /** The union of `f` over a sequence. */
  ghost function Bag<T, U>(f: T -> multiset<U>, s: seq<T>): multiset<U> {
    if s == [] then multiset{} else f(s[0]) + Bag(f, s[1..])
  }

  lemma {:induction false} BagExtract<T, U>(f: T -> multiset<U>, s: seq<T>, i: nat)
    requires i < |s|
    ensures Bag(f, s) == f(s[i]) + Bag(f, s[..i] + s[i + 1..])
  {
    if i == 0 {
      assert s[..0] + s[1..] == s[1..];
    } else {
      BagExtract(f, s[1..], i - 1);
      var rest := s[..i] + s[i + 1..];
      assert rest[1..] == s[1..][..i - 1] + s[1..][i..];
    }
  }

  lemma RemoveMultiset<T>(s: seq<T>, i: nat)
    requires i < |s|
    ensures multiset(s[..i] + s[i + 1..]) == multiset(s) - multiset{s[i]}
  {
    assert s == s[..i] + [s[i]] + s[i + 1..];
  }

  lemma {:induction false} BagPermutation<T, U>(f: T -> multiset<U>, s: seq<T>, t: seq<T>)
    requires multiset(s) == multiset(t)
    ensures Bag(f, s) == Bag(f, t)
  {
    SameElements(s, t);
    if s != [] {
      assert s[0] in t;
      var i :| 0 <= i < |t| && t[i] == s[0];
      BagExtract(f, t, i);
      RemoveMultiset(t, i);
      TailMultiset(s);
      BagPermutation(f, s[1..], t[..i] + t[i + 1..]);
    }
  }
}
