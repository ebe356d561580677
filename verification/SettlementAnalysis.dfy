/** `analyze_reward_settlement` as the loops the code runs, proved against the declarative settlement. */
module SettlementAnalysis {
  import opened Prelude
  import opened Models
  import opened Oracles
  import opened Sorting
  import opened Assignment
  import opened EpochSettlement

  // ---- grouping ----

  function GroupOf(s: seq<Attestation>, id: Text, window: int): seq<Attestation> {
    if s == [] then []
    else (if s[0].candidate == id && s[0].window == window then [s[0]] else []) + GroupOf(s[1..], id, window)
  }

  lemma {:induction false} GroupAppend(s: seq<Attestation>, a: Attestation, id: Text, window: int)
    ensures GroupOf(s + [a], id, window)
            == GroupOf(s, id, window) + (if a.candidate == id && a.window == window then [a] else [])
  {
    if s != [] {
      assert (s + [a])[1..] == s[1..] + [a];
      GroupAppend(s[1..], a, id, window);
    }
  }

  lemma {:induction false} GroupKeeps(s: seq<Attestation>, id: Text, window: int, jury: set<Text>, tolerance: int, seen: set<Text>)
    ensures FirstGaps(GroupOf(s, id, window), id, window, jury, tolerance, seen) == FirstGaps(s, id, window, jury, tolerance, seen)
    ensures PassingVerifiers(GroupOf(s, id, window), id, window, jury, tolerance) == PassingVerifiers(s, id, window, jury, tolerance)
  {
    if s != [] {
      var rest := GroupOf(s[1..], id, window);
      var here := s[0].candidate == id && s[0].window == window;
      GroupKeeps(s[1..], id, window, jury, tolerance, seen);
      assert s == [s[0]] + s[1..];
      if here {
        assert GroupOf(s, id, window) == [s[0]] + rest;
        assert GroupOf(s, id, window)[1..] == rest;
        GroupKeeps(s[1..], id, window, jury, tolerance, seen + {s[0].verifier});
        PassingCons(s[0], rest, id, window, jury, tolerance);
      } else {
        assert GroupOf(s, id, window) == rest;
      }
      PassingCons(s[0], s[1..], id, window, jury, tolerance);
    }
  }

  lemma PassingCons(a: Attestation, s: seq<Attestation>, id: Text, window: int, jury: set<Text>, tolerance: int)
    ensures PassingVerifiers([a] + s, id, window, jury, tolerance)
            == PassingVerifiers(s, id, window, jury, tolerance) + (if ValidPass(a, id, window, jury, tolerance) then {a.verifier} else {})
  {
    assert forall x :: x in [a] + s <==> x == a || x in s;
  }

  lemma PassingAppend(s: seq<Attestation>, a: Attestation, id: Text, window: int, jury: set<Text>, tolerance: int)
    ensures PassingVerifiers(s + [a], id, window, jury, tolerance)
            == PassingVerifiers(s, id, window, jury, tolerance) + (if ValidPass(a, id, window, jury, tolerance) then {a.verifier} else {})
  {
    assert forall x :: x in s + [a] <==> x in s || x == a;
  }

  type Groups = map<(Text, int), seq<Attestation>>

  ghost predicate GroupedBy(grouped: Groups, s: seq<Attestation>) {
    forall id, window :: Get(grouped, (id, window), []) == GroupOf(s, id, window)
  }

  method GroupAttestations(s: seq<Attestation>) returns (grouped: Groups)
    ensures GroupedBy(grouped, s)
  {
    grouped := map[];
    var k := 0;
    while k < |s|
      invariant 0 <= k <= |s|
      invariant GroupedBy(grouped, s[..k])
    {
      var key := (s[k].candidate, s[k].window);
      ghost var before := grouped;
      grouped := grouped[key := Get(grouped, key, []) + [s[k]]];
      assert s[..k + 1] == s[..k] + [s[k]];
      forall id, window ensures Get(grouped, (id, window), []) == GroupOf(s[..k + 1], id, window) {
        GroupAppend(s[..k], s[k], id, window);
        assert Get(before, (id, window), []) == GroupOf(s[..k], id, window);
      }
      k := k + 1;
    }
    assert s[..k] == s;
  }

  // ---- one window ----

  function GapsOf(s: seq<Attestation>): seq<int> {
    seq(|s|, i requires 0 <= i < |s| => s[i].syncGap)
  }

  lemma TallyStep(s: seq<Attestation>, id: Text, window: int, jury: set<Text>, tolerance: int, seen: set<Text>)
    ensures FirstGaps([], id, window, jury, tolerance, seen) == [] && PassingVerifiers([], id, window, jury, tolerance) == {}
    ensures s != [] && ValidPass(s[0], id, window, jury, tolerance) && s[0].verifier !in seen ==>
      FirstGaps(s, id, window, jury, tolerance, seen)
      == [s[0].syncGap] + FirstGaps(s[1..], id, window, jury, tolerance, seen + {s[0].verifier})
    ensures s != [] && !(ValidPass(s[0], id, window, jury, tolerance) && s[0].verifier !in seen) ==>
      FirstGaps(s, id, window, jury, tolerance, seen) == FirstGaps(s[1..], id, window, jury, tolerance, seen)
  {
  }

  /** Collects each committee member's first in-tolerance pass, in order of arrival. */
  method TallyWindow(group: seq<Attestation>, id: Text, window: int, jury: set<Text>, tolerance: int)
    returns (passedBy: seq<Attestation>)
    requires forall a :: a in group ==> a.candidate == id && a.window == window
    ensures GapsOf(passedBy) == FirstGaps(group, id, window, jury, tolerance, {})
    ensures |passedBy| == |PassingVerifiers(group, id, window, jury, tolerance)|
  {
    hide FirstGaps, PassingVerifiers;
    passedBy := [];
    var seen: set<Text> := {};
    var k := 0;
    TallyStep([], id, window, jury, tolerance, {});
    assert group[..0] == [] && group[0..] == group;
    while k < |group|
      invariant 0 <= k <= |group|
      invariant seen == PassingVerifiers(group[..k], id, window, jury, tolerance)
      invariant |passedBy| == |seen|
      invariant FirstGaps(group, id, window, jury, tolerance, {})
                == GapsOf(passedBy) + FirstGaps(group[k..], id, window, jury, tolerance, seen)
    {
      var a := group[k];
      assert a in group;
      assert group[..k + 1] == group[..k] + [a];
      assert group[k..][0] == a && group[k..][1..] == group[k + 1..];
      PassingAppend(group[..k], a, id, window, jury, tolerance);
      TallyStep(group[k..], id, window, jury, tolerance, seen);
      if a.verifier in jury && a.resultCode == PASS && a.syncGap <= tolerance && a.verifier !in seen {
        assert GapsOf(passedBy + [a]) == GapsOf(passedBy) + [a.syncGap];
        passedBy := passedBy + [a];
        seen := seen + {a.verifier};
      }
      k := k + 1;
    }
    TallyStep([], id, window, jury, tolerance, seen);
    assert group[..k] == group && group[k..] == [];
  }

  lemma {:induction false} GroupOfMembers(s: seq<Attestation>, id: Text, window: int)
    ensures forall a :: a in GroupOf(s, id, window) ==> a.candidate == id && a.window == window
  {
    if s != [] { GroupOfMembers(s[1..], id, window); }
  }

  // ---- one node ----

  method EvaluateNode(e: Epoch, id: Text, grouped: Groups) returns (passed: nat, gaps: seq<int>, confirmed: bool)
    requires GroupedBy(grouped, e.attestations)
    requires e.p.targetChecks <= e.p.checkWindows
    ensures passed == |PassedWindows(e, id, Windows(e, id))|
    ensures gaps == CollectedGaps(e, id, Windows(e, id))
    ensures confirmed == FinalConfirmation(e, id)
  {
    hide Passes, WindowGaps, CheckWindows;
    CheckWindowsAreBest(e.o, id, e.seed, e.p);
    var windows := Windows(e, id);
    passed, gaps, confirmed := 0, [], false;
    var k := 0;
    while k < |windows|
      invariant 0 <= k <= |windows|
      invariant passed + |PassedWindows(e, id, windows[k..])| == |PassedWindows(e, id, windows)|
      invariant gaps + CollectedGaps(e, id, windows[k..]) == CollectedGaps(e, id, windows)
      invariant confirmed == (k == |windows| && k > 0 && Passes(e, id, windows[|windows| - 1]))
    {
      var w := windows[k];
      assert windows[k..][0] == w && windows[k..][1..] == windows[k + 1..];
      var ok, found := EvaluateWindow(e, id, w, grouped);
      if ok {
        passed := passed + 1;
        gaps := gaps + found;
        if w == windows[|windows| - 1] {
          confirmed := true;
        }
      }
      k := k + 1;
    }
  }

  method EvaluateWindow(e: Epoch, id: Text, window: int, grouped: Groups) returns (ok: bool, gaps: seq<int>)
    requires GroupedBy(grouped, e.attestations)
    ensures ok == Passes(e, id, window)
    ensures gaps == WindowGaps(e, id, window)
  {
    hide Committee, FirstGaps, GroupOf;
    var jury := Jury(e, id, window);
    var group := Get(grouped, (id, window), []);
    GroupOfMembers(e.attestations, id, window);
    GroupKeeps(e.attestations, id, window, jury, e.p.syncLagTolerance, {});
    var passedBy := TallyWindow(group, id, window, jury, e.p.syncLagTolerance);
    var quorum := Min(e.p.quorum, |jury|);
    ok := quorum > 0 && |passedBy| >= quorum;
    gaps := GapsOf(passedBy);
  }

  // ---- concentration ----

  type Buckets = map<Text, seq<Candidate>>

  ghost predicate BucketedBy(buckets: Buckets, s: seq<Candidate>) {
    && (forall k :: k in buckets ==> buckets[k] != [])
    && (forall k, c :: k in buckets && c in buckets[k] ==> c in s && c.key == k)
    && (forall c :: c in s ==> c.key in buckets && c in buckets[c.key])
  }

  method BucketByConcentration(s: seq<Candidate>) returns (buckets: Buckets)
    ensures BucketedBy(buckets, s)
  {
    buckets := map[];
    var i := 0;
    while i < |s|
      invariant 0 <= i <= |s|
      invariant BucketedBy(buckets, s[..i])
    {
      var c := s[i];
      ghost var before := buckets;
      buckets := buckets[c.key := Get(buckets, c.key, []) + [c]];
      assert s[..i + 1] == s[..i] + [c];
      BucketStep(before, s[..i], c, buckets);
      i := i + 1;
    }
    assert s[..i] == s;
  }

  lemma BucketStep(before: Buckets, s: seq<Candidate>, c: Candidate, after: Buckets)
    requires BucketedBy(before, s)
    requires after == before[c.key := Get(before, c.key, []) + [c]]
    ensures BucketedBy(after, s + [c])
  {
    forall k, d | k in after && d in after[k] ensures d in s + [c] && d.key == k {
      if k == c.key && d != c { assert d in before[k]; }
    }
    forall d | d in s + [c] ensures d.key in after && d in after[d.key] {
      if d != c { assert d in before[d.key]; }
    }
  }

  /** The least candidate of a bucket wins its concentration key. */
  lemma BucketWinner(buckets: Buckets, all: seq<Candidate>, key: Text)
    requires BucketedBy(buckets, all) && key in buckets && DistinctNodes(all)
    ensures Sort(CandidateLe, buckets[key]) != []
    ensures var w := Sort(CandidateLe, buckets[key])[0];
            w in all && w.key == key && IsWinner(w, all)
    ensures forall c :: c in all && c.key == key && IsWinner(c, all) ==> c == Sort(CandidateLe, buckets[key])[0]
  {
    hide Sort, CandidateLe;
    SortMembers(CandidateLe, buckets[key]);
    CandidateOrder();
    SortSorts(CandidateLe, buckets[key]);
    var r := Sort(CandidateLe, buckets[key]);
    var w := r[0];
    assert w in r;
    forall d | d in all && d.key == key ensures CandidateLe(w, d) {
      assert d in buckets[key];
      assert d in multiset(r);
      HeadIsLeast(CandidateLe, r, d);
    }
    forall c | c in all && c.key == key && IsWinner(c, all) ensures c == w {
      assert CandidateLe(c, w) && CandidateLe(w, c);
    }
  }

  method ResolveConcentration(all: seq<Candidate>) returns (resolved: seq<Candidate>)
    requires DistinctNodes(all)
    ensures forall c :: c in resolved <==> c in all && IsWinner(c, all)
    ensures NoDuplicates(resolved)
  {
    hide Sort, CandidateLe, IsWinner, SortedTexts, LexLess, DistinctNodes;
    var buckets := BucketByConcentration(all);
    var keys := SortedTexts(buckets.Keys);
    SortedTextsIncrease(buckets.Keys);
    resolved := [];
    var i := 0;
    while i < |keys|
      invariant 0 <= i <= |keys| && |resolved| == i
      invariant forall j :: 0 <= j < i ==> resolved[j] in all && resolved[j].key == keys[j] && IsWinner(resolved[j], all)
      invariant forall j, c :: 0 <= j < i && c in all && c.key == keys[j] && IsWinner(c, all) ==> c == resolved[j]
    {
      assert keys[i] in buckets.Keys;
      BucketWinner(buckets, all, keys[i]);
      resolved := resolved + [Sort(CandidateLe, buckets[keys[i]])[0]];
      i := i + 1;
    }
    forall c | c in all && IsWinner(c, all) ensures c in resolved {
      assert c.key in keys;
      var j :| 0 <= j < |keys| && keys[j] == c.key;
      assert c == resolved[j];
    }
  }

  lemma {:induction false} SameMembersSameBag<T>(s: seq<T>, t: seq<T>)
    requires NoDuplicates(s) && NoDuplicates(t) && (forall x :: x in s <==> x in t)
    ensures multiset(s) == multiset(t)
  {
    forall x ensures multiset(s)[x] == multiset(t)[x] {
      if x in s {
        var i :| 0 <= i < |s| && s[i] == x;
        var j :| 0 <= j < |t| && t[j] == x;
        OnceInSequence(s, i);
        OnceInSequence(t, j);
      } else {
        assert x !in multiset(s) && x !in multiset(t);
      }
    }
  }

  /** The order in which concentration keys are resolved does not affect the ranking. */
  lemma ResolvedRanking(resolved: seq<Candidate>, all: seq<Candidate>)
    requires DistinctNodes(all) && NoDuplicates(resolved)
    requires forall c :: c in resolved <==> c in all && IsWinner(c, all)
    ensures Sort(CandidateLe, resolved) == Sort(CandidateLe, Winners(all, all))
  {
    hide Sort, CandidateLe, IsWinner, Winners;
    WinnersMembers(all, all);
    var winners := Winners(all, all);
    assert NoDuplicates(winners);
    SameMembersSameBag(resolved, winners);
    CandidateOrder();
    DistinctNodesStrict(winners);
    StrictSame(CandidateLe, winners, resolved);
    SortPermutation(CandidateLe, resolved, winners);
  }

  // ---- the whole analysis ----

  /** What the analysis returns: an error only when nodes are to be assigned more windows than exist. */
  function DerivedEntries(e: Epoch, pool: int): Result<seq<Entry>> {
    if e.active.Keys != {} && e.p.targetChecks > e.p.checkWindows then Err(Malformed)
    else Ok(SettlementEntries(e, pool))
  }

  method CollectQualified(e: Epoch) returns (r: Result<seq<Candidate>>)
    ensures e.active.Keys != {} && e.p.targetChecks > e.p.checkWindows ==> r == Err(Malformed)
    ensures !(e.active.Keys != {} && e.p.targetChecks > e.p.checkWindows) ==> r == Ok(AllQualified(e))
  {
    hide Qualifies, CandidateOf, Windows, PassedWindows, CollectedGaps, RankOf, ConcentrationKey, FinalConfirmation;
    var grouped := GroupAttestations(e.attestations);
    var ids := Ids(e);
    var qualified := [];
    var k := 0;
    while k < |ids|
      invariant 0 <= k <= |ids|
      invariant k > 0 ==> e.p.targetChecks <= e.p.checkWindows
      invariant qualified + Qualified(e, ids[k..]) == Qualified(e, ids)
    {
      var id := ids[k];
      assert id in ids;
      if e.p.targetChecks > e.p.checkWindows {
        return Err(Malformed);
      }
      assert ids[k..][0] == id && ids[k..][1..] == ids[k + 1..];
      var passed, gaps, confirmed := EvaluateNode(e, id, grouped);
      EvaluationIs(e, id);
      if passed >= e.p.minPassedChecks && confirmed {
        qualified := qualified + [Candidate(RankOf(e, id, passed, gaps), ConcentrationKey(e.attestations, id))];
      }
      k := k + 1;
    }
    assert ids[k..] == [] && qualified + [] == qualified;
    NoneLeft(e);
    r := Ok(qualified);
  }

  lemma NoneLeft(e: Epoch)
    ensures Ids(e) == [] <==> e.active.Keys == {}
  {
    SortedTextsIncrease(e.active.Keys);
  }

  lemma EvaluationIs(e: Epoch, id: Text)
    requires id in e.active
    ensures Qualifies(e, id) == (|PassedWindows(e, id, Windows(e, id))| >= e.p.minPassedChecks && FinalConfirmation(e, id))
    ensures CandidateOf(e, id)
            == Candidate(RankOf(e, id, |PassedWindows(e, id, Windows(e, id))|, CollectedGaps(e, id, Windows(e, id))),
                         ConcentrationKey(e.attestations, id))
  {
  }

  /** Equal shares in rank order, the remainder to the earlier ranks. */
  method SplitReward(ordered: seq<Candidate>, pool: int) returns (entries: seq<Entry>)
    ensures entries == EntriesFor(ordered, pool)
  {
    hide Share;
    entries := [];
    var n := |ordered|;
    if n == 0 || pool <= 0 { return; }
    while |entries| < n
      invariant |entries| <= n
      invariant entries == EntriesFor(ordered, pool)[..|entries|]
    {
      entries := entries + [EntryAt(ordered, pool, |entries|)];
    }
  }

  /** The loops compute the declarative settlement. */
  method AnalyzeRewardSettlement(e: Epoch, pool: int) returns (r: Result<seq<Entry>>)
    ensures r == DerivedEntries(e, pool)
  {
    hide Sort, Winners, Qualified, CandidateLe, IsWinner, EntriesFor, CandidateOf, Qualifies;
    var collected := CollectQualified(e);
    if collected.Err? { return Err(collected.fault); }
    var qualified := collected.value;
    SortedTextsIncrease(e.active.Keys);
    QualifiedMembers(e, Ids(e));
    var resolved := ResolveConcentration(qualified);
    ResolvedRanking(resolved, qualified);
    var ordered := Sort(CandidateLe, resolved);
    if |ordered| > e.p.maxRewardedNodes {
      ordered := ordered[..e.p.maxRewardedNodes];
    }
    assert ordered == Rewarded(e);
    var entries := SplitReward(ordered, pool);
    r := Ok(entries);
  }
}
