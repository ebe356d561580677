/** Deterministic check windows, verifier committees and ranking keys (epoch_settlement.py). */
module Assignment {
  import opened Prelude
  import opened Models
  import opened Oracles
  import opened Sorting

  // ---- orders ----

  datatype Scored<T> = Scored(score: Bytes, item: T)

  predicate WindowLe(a: Scored<int>, b: Scored<int>) {
    if a.score != b.score then LexLe(a.score, b.score) else a.item <= b.item
  }

  predicate SeatLe(a: Scored<Text>, b: Scored<Text>) {
    if a.score != b.score then LexLe(a.score, b.score) else LexLe(a.item, b.item)
  }

  predicate IntLe(a: int, b: int) {
    a <= b
  }

  /**
   * The tie-break key of one qualified node, best first: more passed windows, lower median sync
   * gap (doubled, so that it is an integer; None is the infinite gap of a node without
   * observations), lower hash rank, then node id and payout address.
   */
  datatype RankKey = RankKey(passed: nat, medianGap: Option<int>, score: Bytes, nodeId: Text, payout: Text)

  predicate GapLe(a: Option<int>, b: Option<int>) {
    b.None? || (a.Some? && a.value <= b.value)
  }

  predicate RankLe(a: RankKey, b: RankKey) {
    if a.passed != b.passed then a.passed > b.passed
    else if a.medianGap != b.medianGap then GapLe(a.medianGap, b.medianGap)
    else if a.score != b.score then LexLe(a.score, b.score)
    else if a.nodeId != b.nodeId then LexLe(a.nodeId, b.nodeId)
    else LexLe(a.payout, b.payout)
  }

  lemma LexLaws()
    ensures forall a, b :: LexLe(a, b) || LexLe(b, a)
    ensures forall a, b :: LexLe(a, b) && LexLe(b, a) ==> a == b
    ensures forall a, b, c :: LexLe(a, b) && LexLe(b, c) ==> LexLe(a, c)
  {
    forall a, b ensures LexLe(a, b) || LexLe(b, a) { LexTotal(a, b); }
    forall a, b | LexLe(a, b) && LexLe(b, a) ensures a == b { LexAntisymmetric(a, b); }
    forall a, b, c | LexLe(a, b) && LexLe(b, c) ensures LexLe(a, c) { LexTransitive(a, b, c); }
  }

  lemma WindowOrder()
    ensures Preorder(WindowLe)
    ensures forall a, b :: WindowLe(a, b) && WindowLe(b, a) ==> a == b
  {
    hide LexLe;
    LexLaws();
  }

  lemma RankOrder()
    ensures forall a, b :: RankLe(a, b) || RankLe(b, a)
    ensures forall a, b, c :: RankLe(a, b) && RankLe(b, c) ==> RankLe(a, c)
    ensures forall a, b :: RankLe(a, b) && RankLe(b, a) ==> a == b
  {
    hide LexLe;
    LexLaws();
  }

  // ---- check windows ----

  function ScoredWindows(o: Oracle, id: Text, seed: Bytes, p: Params): seq<Scored<int>> {
    seq(p.checkWindows, w => Scored(o.score(seed, CandidateWindow(w, id)), w))
  }

  function Items<T>(s: seq<Scored<T>>): seq<T> {
    seq(|s|, i requires 0 <= i < |s| => s[i].item)
  }

  /** The windows with the lowest scores, in increasing order; more targets than windows is an error. */
  function CheckWindows(o: Oracle, id: Text, seed: Bytes, p: Params): Result<seq<int>> {
    if p.targetChecks > p.checkWindows then Err(Malformed)
    else
      var best := Sort(WindowLe, ScoredWindows(o, id, seed, p));
      SortMembers(WindowLe, ScoredWindows(o, id, seed, p));
      Ok(Sort(IntLe, Items(best[..p.targetChecks])))
  }

  ghost predicate Increasing(s: seq<int>) {
    forall i, j :: 0 <= i < j < |s| ==> s[i] < s[j]
  }

  lemma ItemsDistinct<T>(all: seq<Scored<T>>, sorted: seq<Scored<T>>, n: nat)
    requires multiset(all) == multiset(sorted) && n <= |sorted|
    requires forall i, j :: 0 <= i < j < |all| ==> all[i].item != all[j].item
    ensures forall i, j :: 0 <= i < j < n ==> sorted[i].item != sorted[j].item
  {
    forall i, j | 0 <= i < j < n ensures sorted[i].item != sorted[j].item {
      if sorted[i].item == sorted[j].item {
        SameElements(all, sorted);
        assert sorted[i] in all && sorted[j] in all;
        var a :| 0 <= a < |all| && all[a] == sorted[i];
        var b :| 0 <= b < |all| && all[b] == sorted[j];
        assert a == b;
        TwiceInSequence(sorted, i, j);
        OnceInSequence(all, a);
        assert false;
      }
    }
  }

  lemma TwiceInSequence<T>(s: seq<T>, i: nat, j: nat)
    requires i < j < |s| && s[i] == s[j]
    ensures multiset(s)[s[i]] >= 2
  {
    assert s == s[..j] + [s[j]] + s[j + 1..];
    assert s[i] in s[..j];
  }

  lemma OnceInSequence<T>(s: seq<T>, i: nat)
    requires i < |s| && (forall j, k :: 0 <= j < k < |s| ==> s[j] != s[k])
    ensures multiset(s)[s[i]] == 1
  {
    assert s == s[..i] + [s[i]] + s[i + 1..];
    assert s[i] !in s[..i] && s[i] !in s[i + 1..];
  }

  lemma IntSortIncreasing(s: seq<int>)
    requires NoDuplicates(s)
    ensures Increasing(Sort(IntLe, s))
  {
    var r := Sort(IntLe, s);
    SortSorts(IntLe, s);
    forall i, j | 0 <= i < j < |r| ensures r[i] < r[j] {
      assert IntLe(r[i], r[j]);
      if r[i] == r[j] {
        TwiceInSequence(r, i, j);
        SameElements(r, s);
        assert r[i] in s;
        var k :| 0 <= k < |s| && s[k] == r[i];
        OnceInSequence(s, k);
        assert false;
      }
    }
  }

  /**
   * A candidate gets exactly the configured number of different windows of the epoch, and no
   * window left out scores below one that was picked.
   */
  lemma CheckWindowsAreBest(o: Oracle, id: Text, seed: Bytes, p: Params)
    requires p.targetChecks <= p.checkWindows
    ensures CheckWindows(o, id, seed, p).Ok?
    ensures var r := CheckWindows(o, id, seed, p).value;
            && |r| == p.targetChecks
            && Increasing(r)
            && (forall w :: w in r ==> 0 <= w < p.checkWindows)
            && (forall w, v :: w in r && 0 <= v < p.checkWindows && v !in r ==>
                  WindowLe(ScoredWindows(o, id, seed, p)[w], ScoredWindows(o, id, seed, p)[v]))
  {
    hide Sort, WindowLe, Preorder, Sorted;
    var all := ScoredWindows(o, id, seed, p);
    var best := Sort(WindowLe, all);
    SortMembers(WindowLe, all);
    WindowOrder();
    SortSorts(WindowLe, all);
    var n := p.targetChecks;
    var items := Items(best[..n]);
    ItemsDistinct(all, best, n);
    IntSortIncreasing(items);
    SortMembers(IntLe, items);
    PickedAreBest(all, best, n);
  }

  lemma PickedAreBest(all: seq<Scored<int>>, best: seq<Scored<int>>, n: nat)
    requires multiset(all) == multiset(best) && n <= |best| && Sorted(WindowLe, best)
    requires forall w :: 0 <= w < |all| ==> all[w].item == w
    ensures forall w :: w in Items(best[..n]) ==> 0 <= w < |all|
    ensures forall w, v :: w in Items(best[..n]) && 0 <= v < |all| && v !in Items(best[..n]) ==> WindowLe(all[w], all[v])
  {
    hide WindowLe;
    SameElements(all, best);
    var items := Items(best[..n]);
    assert forall k :: 0 <= k < n ==> items[k] == best[k].item && items[k] in items;
    forall w | w in items ensures 0 <= w < |all| && all[w] in best[..n] {
      var i :| 0 <= i < n && items[i] == w;
      assert best[i] in all;
    }
    forall w, v | w in items && 0 <= v < |all| && v !in items ensures WindowLe(all[w], all[v]) {
      assert all[v] in best;
      var i :| 0 <= i < |best| && best[i] == all[v];
      var j :| 0 <= j < n && best[j] == all[w];
    }
  }

  // ---- committees ----

  function Seats(o: Oracle, candidate: Text, ids: seq<Text>, window: int, seed: Bytes): seq<Scored<Text>> {
    if ids == [] then []
    else
      (if ids[0] == candidate then [] else [Scored(o.score(seed, VerifierSeat(window, candidate, ids[0])), ids[0])])
      + Seats(o, candidate, ids[1..], window, seed)
  }

  /** `verifier_committee`: the other active nodes with the lowest seat scores. */
  function Committee(o: Oracle, candidate: Text, ids: seq<Text>, window: int, seed: Bytes, p: Params): Result<seq<Text>> {
    if window < 0 || window >= p.checkWindows then Err(Malformed)
    else
      var ranked := Sort(SeatLe, Seats(o, candidate, ids, window, seed));
      Ok(Items(ranked[..Min(p.committeeSize, |ranked|)]))
  }

  lemma {:induction false} SeatsMembers(o: Oracle, candidate: Text, ids: seq<Text>, window: int, seed: Bytes)
    ensures forall s :: s in Seats(o, candidate, ids, window, seed) ==>
      s.item in ids && s.item != candidate && s.score == o.score(seed, VerifierSeat(window, candidate, s.item))
    ensures NoDuplicates(ids) ==>
      forall i, j :: 0 <= i < j < |Seats(o, candidate, ids, window, seed)| ==>
        Seats(o, candidate, ids, window, seed)[i].item != Seats(o, candidate, ids, window, seed)[j].item
  {
    if ids != [] {
      SeatsMembers(o, candidate, ids[1..], window, seed);
      var rest := Seats(o, candidate, ids[1..], window, seed);
      if NoDuplicates(ids) {
        assert NoDuplicates(ids[1..]);
        forall i | 0 <= i < |rest| ensures rest[i].item != ids[0] {
          assert rest[i] in rest;
          var k :| 0 <= k < |ids[1..]| && ids[1..][k] == rest[i].item;
          assert ids[k + 1] == rest[i].item;
        }
      }
    }
  }

  function SeatOf(o: Oracle, candidate: Text, id: Text, window: int, seed: Bytes): Scored<Text> {
    Scored(o.score(seed, VerifierSeat(window, candidate, id)), id)
  }

  lemma {:induction false} SeatsComplete(o: Oracle, candidate: Text, ids: seq<Text>, window: int, seed: Bytes)
    requires NoDuplicates(ids)
    ensures forall id :: id in ids && id != candidate ==> SeatOf(o, candidate, id, window, seed) in Seats(o, candidate, ids, window, seed)
    ensures |Seats(o, candidate, ids, window, seed)| == |ids| - (if candidate in ids then 1 else 0)
  {
    if ids != [] {
      assert NoDuplicates(ids[1..]);
      SeatsComplete(o, candidate, ids[1..], window, seed);
      assert forall id :: id in ids <==> id == ids[0] || id in ids[1..];
      assert forall k :: 0 <= k < |ids[1..]| ==> ids[1..][k] == ids[k + 1];
    }
  }

  lemma SeatOrder()
    ensures Preorder(SeatLe)
  {
    hide LexLe;
    LexLaws();
  }

  /** The first `n` of a ranking rank before the rest. */
  lemma SeatedAreBest(seats: seq<Scored<Text>>, ranked: seq<Scored<Text>>, n: nat, inside: Scored<Text>, outside: Scored<Text>)
    requires multiset(seats) == multiset(ranked) && Sorted(SeatLe, ranked) && n <= |ranked|
    requires forall i, j :: 0 <= i < j < |seats| ==> seats[i].item != seats[j].item
    requires inside in seats && inside.item in Items(ranked[..n]) && outside in seats && outside.item !in Items(ranked[..n])
    ensures SeatLe(inside, outside)
  {
    hide SeatLe;
    SameElements(seats, ranked);
    var seated := Items(ranked[..n]);
    assert forall k :: 0 <= k < n ==> seated[k] == ranked[k].item && seated[k] in seated;
    var i :| 0 <= i < n && seated[i] == inside.item;
    assert ranked[i] in seats;
    assert ranked[i] == inside;
    var j :| 0 <= j < |ranked| && ranked[j] == outside;
  }

  /**
   * A committee seats different active nodes, never the candidate, exactly as many as its size and the
   * nodes allow, and nobody left out has a lower seat score.
   */
  lemma CommitteeSound(o: Oracle, candidate: Text, ids: seq<Text>, window: int, seed: Bytes, p: Params)
    requires 0 <= window < p.checkWindows && NoDuplicates(ids)
    ensures Committee(o, candidate, ids, window, seed, p).Ok?
    ensures var c := Committee(o, candidate, ids, window, seed, p).value;
            && |c| == Min(p.committeeSize, |ids| - (if candidate in ids then 1 else 0))
            && NoDuplicates(c) && candidate !in c && (forall v :: v in c ==> v in ids)
            && (forall v, w :: v in c && w in ids && w != candidate && w !in c ==>
                  SeatLe(SeatOf(o, candidate, v, window, seed), SeatOf(o, candidate, w, window, seed)))
  {
    hide Sort, Seats, SeatLe, Preorder, Sorted;
    var seats := Seats(o, candidate, ids, window, seed);
    var ranked := Sort(SeatLe, seats);
    SortMembers(SeatLe, seats);
    SeatsMembers(o, candidate, ids, window, seed);
    SeatsComplete(o, candidate, ids, window, seed);
    SeatOrder();
    SortSorts(SeatLe, seats);
    var n := Min(p.committeeSize, |ranked|);
    ItemsDistinct(seats, ranked, n);
    var c := Items(ranked[..n]);
    forall v | v in c ensures v in ids && v != candidate {
      var i :| 0 <= i < n && ranked[i].item == v;
      assert ranked[i] in seats;
    }
    forall v, w | v in c && w in ids && w != candidate && w !in c
      ensures SeatLe(SeatOf(o, candidate, v, window, seed), SeatOf(o, candidate, w, window, seed))
    {
      SeatedAreBest(seats, ranked, n, SeatOf(o, candidate, v, window, seed), SeatOf(o, candidate, w, window, seed));
    }
  }

  // ---- medians ----

  /** Twice the median of the observed gaps; None stands for the infinite gap of an empty list. */
  function MedianGap(gaps: seq<int>): Option<int> {
    if gaps == [] then None
    else
      var s := Sort(IntLe, gaps);
      SortMembers(IntLe, gaps);
      var n := |s|;
      if n % 2 == 1 then Some(2 * s[n / 2]) else Some(s[n / 2 - 1] + s[n / 2])
  }

  /** The median does not depend on the order in which the gaps were collected. */
  lemma MedianPermutation(a: seq<int>, b: seq<int>)
    requires multiset(a) == multiset(b)
    ensures MedianGap(a) == MedianGap(b)
  {
    hide Sort;
    SameElements(a, b);
    SortPermutation(IntLe, a, b);
  }
}
