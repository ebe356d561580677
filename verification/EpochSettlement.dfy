/** Epoch settlement: quorum, one winner per concentration key, ranking, cap and exact split (epoch_settlement.py). */
module EpochSettlement {
  import opened Prelude
  import opened Arith
  import opened Models
  import opened Oracles
  import opened Sorting
  import opened Assignment
  import opened Nodes

  const PASS := Ascii("pass")
  const UNSCOPED := Ascii("unscoped:")

  /** Everything the settlement of one epoch depends on besides the pool. */
  datatype Epoch = Epoch(o: Oracle, active: Registry, seed: Bytes, attestations: seq<Attestation>, p: Params)

  function Ids(e: Epoch): seq<Text> {
    SortedTexts(e.active.Keys)
  }

  // ---- quorum ----

  function Windows(e: Epoch, id: Text): seq<int> {
    var r := CheckWindows(e.o, id, e.seed, e.p);
    if r.Ok? then r.value else []
  }

  function Jury(e: Epoch, id: Text, window: int): set<Text> {
    var r := Committee(e.o, id, Ids(e), window, e.seed, e.p);
    if r.Ok? then set v | v in r.value else {}
  }

  /** A committee member's in-tolerance pass for `id` in `window`. */
  predicate ValidPass(a: Attestation, id: Text, window: int, jury: set<Text>, tolerance: int) {
    && a.candidate == id && a.window == window
    && a.verifier in jury
    && a.resultCode == PASS
    && a.syncGap <= tolerance
  }

  function PassingVerifiers(s: seq<Attestation>, id: Text, window: int, jury: set<Text>, tolerance: int): set<Text> {
    set a | a in s && ValidPass(a, id, window, jury, tolerance) :: a.verifier
  }

  /** A window passes when enough different committee members passed it. */
  predicate Passes(e: Epoch, id: Text, window: int) {
    var jury := Jury(e, id, window);
    var quorum := Min(e.p.quorum, |jury|);
    quorum > 0 && |PassingVerifiers(e.attestations, id, window, jury, e.p.syncLagTolerance)| >= quorum
  }

  /** The gaps of each verifier's first valid pass, in order of arrival; `seen` have been counted already. */
  function FirstGaps(s: seq<Attestation>, id: Text, window: int, jury: set<Text>, tolerance: int, seen: set<Text>): seq<int> {
    if s == [] then []
    else if ValidPass(s[0], id, window, jury, tolerance) && s[0].verifier !in seen then
      [s[0].syncGap] + FirstGaps(s[1..], id, window, jury, tolerance, seen + {s[0].verifier})
    else FirstGaps(s[1..], id, window, jury, tolerance, seen)
  }

  function WindowGaps(e: Epoch, id: Text, window: int): seq<int> {
    FirstGaps(e.attestations, id, window, Jury(e, id, window), e.p.syncLagTolerance, {})
  }

  function PassedWindows(e: Epoch, id: Text, windows: seq<int>): seq<int> {
    if windows == [] then []
    else (if Passes(e, id, windows[0]) then [windows[0]] else []) + PassedWindows(e, id, windows[1..])
  }

  function CollectedGaps(e: Epoch, id: Text, windows: seq<int>): seq<int> {
    if windows == [] then []
    else (if Passes(e, id, windows[0]) then WindowGaps(e, id, windows[0]) else []) + CollectedGaps(e, id, windows[1..])
  }

  predicate FinalConfirmation(e: Epoch, id: Text) {
    var ws := Windows(e, id);
    ws != [] && Passes(e, id, ws[|ws| - 1])
  }

  predicate Qualifies(e: Epoch, id: Text) {
    |PassedWindows(e, id, Windows(e, id))| >= e.p.minPassedChecks && FinalConfirmation(e, id)
  }

  // ---- concentration and ranking ----

  /** The first concentration key attested for `id`, or a key of its own. */
  function ConcentrationKey(s: seq<Attestation>, id: Text): Text {
    if s == [] then UNSCOPED + id
    else if s[0].candidate == id && s[0].concentrationKey != [] then s[0].concentrationKey
    else ConcentrationKey(s[1..], id)
  }

  datatype Candidate = Candidate(rank: RankKey, key: Text)

  predicate CandidateLe(a: Candidate, b: Candidate) {
    RankLe(a.rank, b.rank)
  }

  /** `concentration_tiebreak_key`, extended by node id and payout address as both sorts extend it. */
  function RankOf(e: Epoch, id: Text, passed: nat, gaps: seq<int>): RankKey
    requires id in e.active
  {
    var payout := e.active[id].payout;
    RankKey(passed, MedianGap(gaps), e.o.score(e.seed, ConcentrationRank(id, payout)), id, payout)
  }

  function CandidateOf(e: Epoch, id: Text): Candidate
    requires id in e.active
  {
    var ws := Windows(e, id);
    Candidate(RankOf(e, id, |PassedWindows(e, id, ws)|, CollectedGaps(e, id, ws)), ConcentrationKey(e.attestations, id))
  }

  function Qualified(e: Epoch, ids: seq<Text>): seq<Candidate>
    requires forall id :: id in ids ==> id in e.active
  {
    if ids == [] then []
    else
      (if Qualifies(e, ids[0]) then [CandidateOf(e, ids[0])] else []) + Qualified(e, ids[1..])
  }

  function AllQualified(e: Epoch): seq<Candidate> {
    Qualified(e, Ids(e))
  }

  /** No qualified candidate of the same concentration key ranks before `c`. */
  predicate IsWinner(c: Candidate, all: seq<Candidate>) {
    forall d :: d in all && d.key == c.key ==> CandidateLe(c, d)
  }

  function Winners(s: seq<Candidate>, all: seq<Candidate>): seq<Candidate> {
    if s == [] then []
    else (if IsWinner(s[0], all) then [s[0]] else []) + Winners(s[1..], all)
  }

  /** The surviving candidates, best first, before the cap. */
  function Ranking(e: Epoch): seq<Candidate> {
    Sort(CandidateLe, Winners(AllQualified(e), AllQualified(e)))
  }

  function Rewarded(e: Epoch): seq<Candidate> {
    Ranking(e)[..Min(e.p.maxRewardedNodes, |Ranking(e)|)]
  }

  // ---- the split ----

  /** Rank `i`'s share of `pool` among `n`: the remainder goes to the earlier ranks. */
  function Share(pool: nat, n: pos, i: nat): nat {
    pool / n + (if i < pool % n then 1 else 0)
  }

  function EntriesFor(winners: seq<Candidate>, pool: int): seq<Entry> {
    if winners == [] || pool <= 0 then []
    else seq(|winners|, i requires 0 <= i < |winners| => EntryAt(winners, pool, i))
  }

  function EntryAt(winners: seq<Candidate>, pool: nat, i: nat): Entry
    requires i < |winners|
  {
    Entry(winners[i].rank.nodeId, winners[i].rank.payout, Share(pool, |winners|, i), i, winners[i].key, true)
  }

  /** `derive_reward_settlement_entries`. */
  function SettlementEntries(e: Epoch, pool: int): seq<Entry> {
    EntriesFor(Rewarded(e), pool)
  }

  function Rewards(entries: seq<Entry>): seq<int> {
    seq(|entries|, i requires 0 <= i < |entries| => entries[i].reward)
  }

  // ---- the entries are sound ----

  lemma {:induction false} QualifiedMembers(e: Epoch, ids: seq<Text>)
    requires (forall id :: id in ids ==> id in e.active) && NoDuplicates(ids)
    ensures forall c :: c in Qualified(e, ids) ==>
      c.rank.nodeId in ids && Qualifies(e, c.rank.nodeId) && c == CandidateOf(e, c.rank.nodeId)
    ensures forall id :: id in ids && Qualifies(e, id) ==> CandidateOf(e, id) in Qualified(e, ids)
    ensures DistinctNodes(Qualified(e, ids))
  {
    hide Qualifies, RankOf, Windows, PassedWindows, CollectedGaps, ConcentrationKey;
    if ids != [] {
      assert NoDuplicates(ids[1..]);
      QualifiedMembers(e, ids[1..]);
      assert CandidateOf(e, ids[0]).rank.nodeId == ids[0] by { RankNode(e, ids[0]); }
      var rest := Qualified(e, ids[1..]);
      forall i | 0 <= i < |rest| ensures rest[i].rank.nodeId != ids[0] {
        assert rest[i] in rest;
        var k :| 0 <= k < |ids[1..]| && ids[1..][k] == rest[i].rank.nodeId;
        assert ids[k + 1] == rest[i].rank.nodeId;
      }
    }
  }

  lemma RankNode(e: Epoch, id: Text)
    requires id in e.active
    ensures CandidateOf(e, id).rank.nodeId == id && CandidateOf(e, id).rank.payout == e.active[id].payout
    ensures CandidateOf(e, id).key == ConcentrationKey(e.attestations, id)
  {
  }

  ghost predicate DistinctNodes(s: seq<Candidate>) {
    forall i, j :: 0 <= i < j < |s| ==> s[i].rank.nodeId != s[j].rank.nodeId
  }

  lemma {:induction false} WinnersMembers(s: seq<Candidate>, all: seq<Candidate>)
    ensures forall c :: c in Winners(s, all) <==> c in s && IsWinner(c, all)
    ensures DistinctNodes(s) ==> DistinctNodes(Winners(s, all))
  {
    hide IsWinner;
    if s != [] {
      WinnersMembers(s[1..], all);
      if DistinctNodes(s) {
        assert DistinctNodes(s[1..]);
        var rest := Winners(s[1..], all);
        forall i | 0 <= i < |rest| ensures rest[i].rank.nodeId != s[0].rank.nodeId {
          assert rest[i] in s[1..];
          var k :| 0 <= k < |s[1..]| && s[1..][k] == rest[i];
          assert s[k + 1] == rest[i];
        }
      }
    }
  }

  lemma CandidateOrder()
    ensures Preorder(CandidateLe)
    ensures forall a, b :: CandidateLe(a, b) && CandidateLe(b, a) ==> a.rank == b.rank
  {
    hide RankLe;
    RankOrder();
  }

  lemma DistinctNodesStrict(s: seq<Candidate>)
    requires DistinctNodes(s)
    ensures Strict(CandidateLe, s)
  {
    hide RankLe;
    CandidateOrder();
    forall a, b | a in multiset(s) && b in multiset(s) && CandidateLe(a, b) && CandidateLe(b, a) ensures a == b {
      assert a in s && b in s;
    }
  }

  lemma DistinctAfterSort(s: seq<Candidate>)
    requires DistinctNodes(s)
    ensures DistinctNodes(Sort(CandidateLe, s))
  {
    hide Sort;
    var r := Sort(CandidateLe, s);
    SortMembers(CandidateLe, s);
    forall i, j | 0 <= i < j < |r| ensures r[i].rank.nodeId != r[j].rank.nodeId {
      if r[i].rank.nodeId == r[j].rank.nodeId {
        assert r[i] in s && r[j] in s;
        assert r[i] == r[j];
        TwiceInSequence(r, i, j);
        var k :| 0 <= k < |s| && s[k] == r[i];
        OnceInSequence(s, k);
        assert false;
      }
    }
  }

  /** The ranking lists each winner once, best first, and no two winners share a node or a concentration key. */
  lemma RankingSound(e: Epoch)
    ensures forall c :: c in Ranking(e) <==> c in AllQualified(e) && IsWinner(c, AllQualified(e))
    ensures DistinctNodes(Ranking(e))
    ensures Sorted(CandidateLe, Ranking(e))
    ensures forall i, j :: 0 <= i < j < |Ranking(e)| ==> Ranking(e)[i].key != Ranking(e)[j].key
  {
    hide Sort, Winners, Qualified, CandidateLe;
    var all := AllQualified(e);
    SortedTextsIncrease(e.active.Keys);
    QualifiedMembers(e, Ids(e));
    WinnersMembers(all, all);
    SortMembers(CandidateLe, Winners(all, all));
    CandidateOrder();
    SortSorts(CandidateLe, Winners(all, all));
    DistinctAfterSort(Winners(all, all));
    var r := Ranking(e);
    forall i, j | 0 <= i < j < |r| ensures r[i].key != r[j].key {
      assert CandidateLe(r[i], r[j]) && r[i] in r && r[j] in r;
    }
  }

  lemma {:induction false} SharesAddUp(pool: nat, n: pos, k: nat)
    requires k <= n
    ensures SumShares(pool, n, k) == (pool / n) * k + Min(k, pool % n)
  {
    if k > 0 {
      SharesAddUp(pool, n, k - 1);
      MulStep(k - 1, pool / n);
    }
  }

  function SumShares(pool: nat, n: pos, k: nat): nat {
    if k == 0 then 0 else SumShares(pool, n, k - 1) + Share(pool, n, k - 1)
  }

  lemma {:induction false} RewardsPrefix(winners: seq<Candidate>, pool: nat, k: nat)
    requires winners != [] && pool > 0 && k <= |winners|
    ensures |EntriesFor(winners, pool)| == |winners|
    ensures Sum(Rewards(EntriesFor(winners, pool))[..k]) == SumShares(pool, |winners|, k)
  {
    var r := Rewards(EntriesFor(winners, pool));
    if k > 0 {
      RewardsPrefix(winners, pool, k - 1);
      assert r[..k] == r[..k - 1] + [r[k - 1]];
      SumAppend(r[..k - 1], [r[k - 1]]);
      assert Sum([r[k - 1]]) == r[k - 1];
    }
  }

  /** The shares are exact: they add up to the pool, differ by at most one and never increase with rank. */
  lemma SplitExact(winners: seq<Candidate>, pool: int)
    ensures var entries := EntriesFor(winners, pool);
            && (entries != [] ==> Sum(Rewards(entries)) == pool)
            && (entries == [] <==> winners == [] || pool <= 0)
            && (forall i, j :: 0 <= i < j < |entries| ==> 0 <= entries[i].reward - entries[j].reward <= 1)
            && (forall i :: 0 <= i < |entries| ==> entries[i].rank == i && entries[i].reward >= 0)
  {
    if winners != [] && pool > 0 {
      var n: pos := |winners|;
      RewardsPrefix(winners, pool, n);
      SharesAddUp(pool, n, n);
      DivBounds(pool, n);
      var r := Rewards(EntriesFor(winners, pool));
      assert r[..n] == r;
    }
  }

  /** The candidate behind one entry. */
  lemma EntryCandidate(e: Epoch, pool: int, i: nat)
    requires i < |SettlementEntries(e, pool)|
    ensures i < |Rewarded(e)| && i < |Ranking(e)|
    ensures var entry := SettlementEntries(e, pool)[i];
            && entry.nodeId in e.active
            && Qualifies(e, entry.nodeId)
            && Ranking(e)[i] == CandidateOf(e, entry.nodeId)
            && IsWinner(CandidateOf(e, entry.nodeId), AllQualified(e))
            && entry.payout == e.active[entry.nodeId].payout
            && entry.concentrationKey == ConcentrationKey(e.attestations, entry.nodeId)
            && entry.finalConfirmation
  {
    hide Ranking, CandidateOf, Qualifies, CandidateLe, Qualified, ConcentrationKey, Share, IsWinner;
    RankingSound(e);
    SortedTextsIncrease(e.active.Keys);
    QualifiedMembers(e, Ids(e));
    assert Rewarded(e)[i] == Ranking(e)[i];
    assert Ranking(e)[i] in Ranking(e);
    assert SettlementEntries(e, pool)[i] == EntryAt(Rewarded(e), pool, i);
    RankNode(e, Ranking(e)[i].rank.nodeId);
  }

  /** Who is rewarded: qualified nodes only, at most the cap, each once and one per concentration key. */
  lemma EntriesSound(e: Epoch, pool: int)
    ensures var entries := SettlementEntries(e, pool);
            && |entries| <= e.p.maxRewardedNodes
            && (forall i, j :: 0 <= i < j < |entries| ==>
                  entries[i].nodeId != entries[j].nodeId && entries[i].concentrationKey != entries[j].concentrationKey)
            && (forall i :: 0 <= i < |entries| ==>
                  && entries[i].nodeId in e.active
                  && Qualifies(e, entries[i].nodeId)
                  && entries[i].payout == e.active[entries[i].nodeId].payout
                  && entries[i].concentrationKey == ConcentrationKey(e.attestations, entries[i].nodeId)
                  && entries[i].finalConfirmation)
  {
    hide Ranking, CandidateOf, Qualifies, CandidateLe, Qualified, ConcentrationKey, Share, EntriesFor, IsWinner;
    RankingSound(e);
    var entries := SettlementEntries(e, pool);
    EntryCount(Rewarded(e), pool);
    forall i | 0 <= i < |entries|
      ensures entries[i].nodeId in e.active && Qualifies(e, entries[i].nodeId) && entries[i].finalConfirmation
      ensures entries[i].payout == e.active[entries[i].nodeId].payout
      ensures entries[i].concentrationKey == ConcentrationKey(e.attestations, entries[i].nodeId)
      ensures entries[i].nodeId == Ranking(e)[i].rank.nodeId && entries[i].concentrationKey == Ranking(e)[i].key
    {
      EntryCandidate(e, pool, i);
      RankNode(e, entries[i].nodeId);
    }
  }

  lemma EntryCount(winners: seq<Candidate>, pool: int)
    ensures |EntriesFor(winners, pool)| <= |winners|
    ensures pool > 0 ==> |EntriesFor(winners, pool)| == |winners|
  {
  }

  /** Entries appear in rank order and each is the best-ranked qualified node of its concentration key. */
  lemma EntriesRanked(e: Epoch, pool: int, i: nat, id: Text)
    requires i < |SettlementEntries(e, pool)| && id in e.active && Qualifies(e, id)
    ensures SettlementEntries(e, pool)[i].nodeId in e.active
    ensures ConcentrationKey(e.attestations, id) == SettlementEntries(e, pool)[i].concentrationKey ==>
      CandidateLe(CandidateOf(e, SettlementEntries(e, pool)[i].nodeId), CandidateOf(e, id))
    ensures forall j :: i < j < |SettlementEntries(e, pool)| && SettlementEntries(e, pool)[j].nodeId == id ==>
      CandidateLe(CandidateOf(e, SettlementEntries(e, pool)[i].nodeId), CandidateOf(e, id))
  {
    hide Ranking, CandidateOf, Qualifies, CandidateLe, Qualified, ConcentrationKey, Share, EntriesFor;
    EntryCandidate(e, pool, i);
    var c := CandidateOf(e, SettlementEntries(e, pool)[i].nodeId);
    RankNode(e, SettlementEntries(e, pool)[i].nodeId);
    RankNode(e, id);
    SortedTextsIncrease(e.active.Keys);
    QualifiedMembers(e, Ids(e));
    assert CandidateOf(e, id) in AllQualified(e);
    RankingSound(e);
    forall j | i < j < |SettlementEntries(e, pool)| && SettlementEntries(e, pool)[j].nodeId == id
      ensures CandidateLe(c, CandidateOf(e, id))
    {
      EntryCandidate(e, pool, j);
    }
  }

  /** Nobody better is left out: a winner without an entry ranks after every entry, and only because the cap is reached. */
  lemma CapDropsTheLast(e: Epoch, pool: int, id: Text)
    requires id in e.active && Qualifies(e, id) && IsWinner(CandidateOf(e, id), AllQualified(e)) && pool > 0
    requires forall i :: 0 <= i < |SettlementEntries(e, pool)| ==> SettlementEntries(e, pool)[i].nodeId != id
    ensures |SettlementEntries(e, pool)| == e.p.maxRewardedNodes
    ensures forall i :: 0 <= i < |SettlementEntries(e, pool)| ==>
      CandidateLe(Rewarded(e)[i], CandidateOf(e, id))
  {
    hide Ranking, CandidateOf, Qualifies, CandidateLe, Qualified, ConcentrationKey, Share, IsWinner, EntriesFor;
    RankingSound(e);
    SortedTextsIncrease(e.active.Keys);
    QualifiedMembers(e, Ids(e));
    var all := Ranking(e);
    var c := CandidateOf(e, id);
    RankNode(e, id);
    var k :| 0 <= k < |all| && all[k] == c;
    EntryCount(Rewarded(e), pool);
    var entries := SettlementEntries(e, pool);
    forall i | 0 <= i < |entries| ensures entries[i].nodeId == all[i].rank.nodeId {
      EntryCandidate(e, pool, i);
      RankNode(e, entries[i].nodeId);
    }
    assert |entries| == |Rewarded(e)| <= k;
  }

  // ---- more attestations never hurt ----

  lemma PassesMonotone(e: Epoch, more: Epoch, id: Text, window: int)
    requires more == e.(attestations := more.attestations)
    requires forall a :: a in e.attestations ==> a in more.attestations
    ensures Passes(e, id, window) ==> Passes(more, id, window)
  {
    hide Committee;
    assert Jury(e, id, window) == Jury(more, id, window);
    var jury, t := Jury(e, id, window), e.p.syncLagTolerance;
    SubsetSize(PassingVerifiers(e.attestations, id, window, jury, t), PassingVerifiers(more.attestations, id, window, jury, t));
  }

  lemma {:induction false} PassedMonotone(e: Epoch, more: Epoch, id: Text, windows: seq<int>)
    requires more == e.(attestations := more.attestations)
    requires forall a :: a in e.attestations ==> a in more.attestations
    ensures |PassedWindows(e, id, windows)| <= |PassedWindows(more, id, windows)|
  {
    hide Passes;
    if windows != [] {
      PassesMonotone(e, more, id, windows[0]);
      PassedMonotone(e, more, id, windows[1..]);
    }
  }

  /** Adding attestations, of whatever content and in whatever place, never disqualifies a candidate. */
  lemma QualifiesMonotone(e: Epoch, more: Epoch, id: Text)
    requires more == e.(attestations := more.attestations)
    requires forall a :: a in e.attestations ==> a in more.attestations
    requires Qualifies(e, id)
    ensures Qualifies(more, id)
  {
    hide Passes, CheckWindows, PassedWindows;
    PassedMonotone(e, more, id, Windows(e, id));
    assert Windows(e, id) == Windows(more, id);
    var ws := Windows(e, id);
    PassesMonotone(e, more, id, ws[|ws| - 1]);
  }

  // ---- the order of the attestations does not matter ----

  /** Each verifier reports on a candidate's window at most once. */
  ghost predicate UniqueVotes(s: seq<Attestation>) {
    forall i, j :: 0 <= i < j < |s| ==>
      !(s[i].candidate == s[j].candidate && s[i].window == s[j].window && s[i].verifier == s[j].verifier)
  }

  /** The non-empty concentration keys attested for one candidate agree. */
  ghost predicate KeysAgree(s: seq<Attestation>) {
    forall a, b :: a in s && b in s && a.candidate == b.candidate && a.concentrationKey != [] && b.concentrationKey != [] ==>
      a.concentrationKey == b.concentrationKey
  }

  ghost function GapBag(id: Text, window: int, jury: set<Text>, tolerance: int): Attestation -> multiset<int> {
    a => if ValidPass(a, id, window, jury, tolerance) then multiset{a.syncGap} else multiset{}
  }

  lemma {:induction false} FirstGapsAreAllGaps(s: seq<Attestation>, id: Text, window: int, jury: set<Text>, tolerance: int, seen: set<Text>)
    requires UniqueVotes(s)
    requires forall a :: a in s && a.candidate == id && a.window == window ==> a.verifier !in seen
    ensures multiset(FirstGaps(s, id, window, jury, tolerance, seen)) == Bag(GapBag(id, window, jury, tolerance), s)
  {
    if s != [] {
      var rest := s[1..];
      assert UniqueVotes(rest);
      if ValidPass(s[0], id, window, jury, tolerance) {
        forall a | a in rest && a.candidate == id && a.window == window ensures a.verifier !in seen + {s[0].verifier} {
          var k :| 0 <= k < |rest| && rest[k] == a;
          assert s[k + 1] == a;
        }
        FirstGapsAreAllGaps(rest, id, window, jury, tolerance, seen + {s[0].verifier});
      } else {
        FirstGapsAreAllGaps(rest, id, window, jury, tolerance, seen);
      }
    }
  }

  ghost predicate Reordered(e: Epoch, f: Epoch) {
    && f == e.(attestations := f.attestations)
    && multiset(e.attestations) == multiset(f.attestations)
    && UniqueVotes(e.attestations) && UniqueVotes(f.attestations)
    && KeysAgree(e.attestations)
  }

  lemma UniqueVotesPermutation(s: seq<Attestation>, t: seq<Attestation>)
    requires UniqueVotes(s) && multiset(s) == multiset(t)
    ensures UniqueVotes(t)
  {
    SameElements(s, t);
    forall i, j | 0 <= i < j < |t| ensures !(t[i].candidate == t[j].candidate && t[i].window == t[j].window && t[i].verifier == t[j].verifier) {
      if t[i].candidate == t[j].candidate && t[i].window == t[j].window && t[i].verifier == t[j].verifier {
        assert t[i] in s && t[j] in s;
        assert t[i] == t[j];
        TwiceInSequence(t, i, j);
        var k :| 0 <= k < |s| && s[k] == t[i];
        OnceInSequence(s, k);
        assert false;
      }
    }
  }

  lemma PassesReordered(e: Epoch, f: Epoch, id: Text, window: int)
    requires Reordered(e, f)
    ensures Passes(e, id, window) == Passes(f, id, window)
    ensures multiset(WindowGaps(e, id, window)) == multiset(WindowGaps(f, id, window))
  {
    hide Committee, FirstGaps;
    SameElements(e.attestations, f.attestations);
    PassesMonotone(e, f, id, window);
    PassesMonotone(f, e, id, window);
    var jury, t := Jury(e, id, window), e.p.syncLagTolerance;
    assert jury == Jury(f, id, window);
    FirstGapsAreAllGaps(e.attestations, id, window, jury, t, {});
    FirstGapsAreAllGaps(f.attestations, id, window, jury, t, {});
    BagPermutation(GapBag(id, window, jury, t), e.attestations, f.attestations);
  }

  lemma {:induction false} GapsReordered(e: Epoch, f: Epoch, id: Text, windows: seq<int>)
    requires Reordered(e, f)
    ensures PassedWindows(e, id, windows) == PassedWindows(f, id, windows)
    ensures multiset(CollectedGaps(e, id, windows)) == multiset(CollectedGaps(f, id, windows))
  {
    hide Passes, WindowGaps, Reordered;
    if windows != [] {
      PassesReordered(e, f, id, windows[0]);
      GapsReordered(e, f, id, windows[1..]);
    }
  }

  /** The key found is one that was attested, unless none was. */
  lemma {:induction false} ConcentrationKeyIs(s: seq<Attestation>, id: Text)
    ensures (exists a :: a in s && a.candidate == id && a.concentrationKey != []) ==>
      exists a :: a in s && a.candidate == id && a.concentrationKey != [] && a.concentrationKey == ConcentrationKey(s, id)
    ensures !(exists a :: a in s && a.candidate == id && a.concentrationKey != []) ==> ConcentrationKey(s, id) == UNSCOPED + id
  {
    if s != [] {
      ConcentrationKeyIs(s[1..], id);
      assert forall a :: a in s <==> a == s[0] || a in s[1..];
    }
  }

  lemma KeyReordered(s: seq<Attestation>, t: seq<Attestation>, id: Text)
    requires multiset(s) == multiset(t) && KeysAgree(s)
    ensures ConcentrationKey(s, id) == ConcentrationKey(t, id)
  {
    hide ConcentrationKey;
    SameElements(s, t);
    ConcentrationKeyIs(s, id);
    ConcentrationKeyIs(t, id);
  }

  lemma CandidateReordered(e: Epoch, f: Epoch, id: Text)
    requires Reordered(e, f) && id in e.active
    ensures Qualifies(e, id) == Qualifies(f, id)
    ensures CandidateOf(e, id) == CandidateOf(f, id)
  {
    hide PassedWindows, CollectedGaps, Passes, CheckWindows, ConcentrationKey, MedianGap;
    var ws := Windows(e, id);
    assert ws == Windows(f, id);
    GapsReordered(e, f, id, ws);
    MedianPermutation(CollectedGaps(e, id, ws), CollectedGaps(f, id, ws));
    KeyReordered(e.attestations, f.attestations, id);
    if ws != [] { PassesReordered(e, f, id, ws[|ws| - 1]); }
  }

  lemma {:induction false} QualifiedReordered(e: Epoch, f: Epoch, ids: seq<Text>)
    requires Reordered(e, f) && (forall id :: id in ids ==> id in e.active)
    ensures Qualified(e, ids) == Qualified(f, ids)
  {
    hide Qualifies, CandidateOf, Reordered;
    if ids != [] {
      CandidateReordered(e, f, ids[0]);
      QualifiedReordered(e, f, ids[1..]);
    }
  }

  /**
   * Settlement does not depend on the order in which the attestations were collected, provided
   * each vote occurs once and the concentration keys attested for a candidate agree.
   */
  lemma SettlementOrderIndependent(e: Epoch, f: Epoch, pool: int)
    requires f == e.(attestations := f.attestations)
    requires multiset(e.attestations) == multiset(f.attestations)
    requires UniqueVotes(e.attestations) && KeysAgree(e.attestations)
    ensures SettlementEntries(e, pool) == SettlementEntries(f, pool)
  {
    hide Qualified, EntriesFor, Winners, Sort;
    UniqueVotesPermutation(e.attestations, f.attestations);
    QualifiedReordered(e, f, Ids(e));
  }
}
