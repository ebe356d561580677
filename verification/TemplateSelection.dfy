/** The selection loop of the block template (node/mining.py). */
module TemplateSelection {
  import opened Prelude
  import opened Models
  import opened Oracles
  import opened Sorting
  import opened Assignment
  import opened Nodes
  import opened Validation
  import opened MempoolPolicy
  import opened Mining

  // ---- one candidate ----

  /** `_has_unresolved_parent_dependency`. */
  method HasUnresolvedParent(env: Env, txids: set<Hash>, tx: Transaction) returns (r: bool)
    ensures r == !AllResolved(env, txids, tx)
  {
    hide Resolved;
    var k := 0;
    while k < |tx.inputs|
      invariant 0 <= k <= |tx.inputs|
      invariant forall j :: 0 <= j < k ==> Resolved(env, txids, tx.inputs[j].previousOutput.txid)
    {
      if !Resolved(env, txids, tx.inputs[k].previousOutput.txid) { return true; }
      k := k + 1;
    }
    return false;
  }

  function Tally(s: seq<Attestation>): WindowCounts {
    map key | key in KeysOf(s) :: VerifierCount(s, key.0, key.1)
  }

  lemma {:induction false} VerifierCountSnoc(s: seq<Attestation>, a: Attestation, window: int, verifier: Text)
    ensures VerifierCount(s + [a], window, verifier)
         == VerifierCount(s, window, verifier) + (if a.window == window && a.verifier == verifier then 1 else 0)
  {
    if s == [] {
      assert s + [a] == [a];
    } else {
      assert (s + [a])[1..] == s[1..] + [a];
      VerifierCountSnoc(s[1..], a, window, verifier);
    }
  }

  lemma TallySnoc(s: seq<Attestation>, a: Attestation)
    ensures var key := (a.window, a.verifier); Tally(s + [a]) == Tally(s)[key := Get(Tally(s), key, 0) + 1]
  {
    var key := (a.window, a.verifier);
    var next := Tally(s)[key := Get(Tally(s), key, 0) + 1];
    if key !in KeysOf(s) { AbsentCount(s, a.window, a.verifier); }
    assert KeysOf(s + [a]) == KeysOf(s) + {key};
    forall k | k in KeysOf(s + [a]) ensures VerifierCount(s + [a], k.0, k.1) == next[k] {
      VerifierCountSnoc(s, a, k.0, k.1);
    }
  }

  method TallyBundle(s: seq<Attestation>) returns (tally: WindowCounts)
    ensures tally == Tally(s)
  {
    hide Tally;
    tally := map[];
    NoTally();
    var k := 0;
    assert s[..0] == [];
    while k < |s|
      invariant 0 <= k <= |s| && tally == Tally(s[..k])
    {
      TallySnoc(s[..k], s[k]);
      assert s[..k + 1] == s[..k] + [s[k]];
      var key := (s[k].window, s[k].verifier);
      tally := tally[key := Get(tally, key, 0) + 1];
      k := k + 1;
    }
    assert s[..k] == s;
  }

  lemma NoTally()
    ensures Tally([]) == map[]
  {
  }

  lemma TallyAt(s: seq<Attestation>, key: WindowKey)
    ensures key in Tally(s) <==> key in KeysOf(s)
    ensures VerifierCount(s, key.0, key.1) == Get(Tally(s), key, 0)
  {
    if key !in KeysOf(s) { AbsentCount(s, key.0, key.1); }
  }

  /** The tally decides the emission check. */
  lemma TallyDecides(counts: WindowCounts, s: seq<Attestation>, limit: int)
    ensures CountsFit(counts, s, limit) <==> forall key :: key in Tally(s) ==> Get(counts, key, 0) + Tally(s)[key] <= limit
  {
    hide Tally, VerifierCount;
    forall key ensures (key in Tally(s) <==> key in KeysOf(s)) && VerifierCount(s, key.0, key.1) == Get(Tally(s), key, 0) {
      TallyAt(s, key);
    }
    if forall key :: key in Tally(s) ==> Get(counts, key, 0) + Tally(s)[key] <= limit {
      forall a | a in s ensures Get(counts, (a.window, a.verifier), 0) + VerifierCount(s, a.window, a.verifier) <= limit {
        assert (a.window, a.verifier) in Tally(s);
      }
    }
  }

  /** The tally gives the new counters. */
  lemma TallyAdds(counts: WindowCounts, s: seq<Attestation>)
    ensures AddCounts(counts, s) == map key | key in counts.Keys + Tally(s).Keys :: Get(counts, key, 0) + Get(Tally(s), key, 0)
  {
    hide Tally, VerifierCount, KeysOf;
    forall key ensures (key in Tally(s) <==> key in KeysOf(s)) && VerifierCount(s, key.0, key.1) == Get(Tally(s), key, 0) {
      TallyAt(s, key);
    }
  }

  /** The outcome for one candidate whose parents are in. */
  datatype Outcome = Skipped | Taken(t: Template) | Raised

  /** The attestation checks of one bundle, and the counters with it. */
  method CheckBundle(env: Env, t: Template, s: seq<Attestation>) returns (fits: bool, counts: WindowCounts)
    ensures fits <==> IdentitySet(s) !! t.identities && CountsFit(t.counts, s, env.p.maxAttestationsPerVerifierWindow)
    ensures fits ==> counts == AddCounts(t.counts, s)
  {
    hide Tally, IdentitySet, CountsFit, AddCounts;
    counts := t.counts;
    if !(IdentitySet(s) !! t.identities) { return false, counts; }
    var tally := TallyBundle(s);
    TallyDecides(t.counts, s, env.p.maxAttestationsPerVerifierWindow);
    TallyAdds(t.counts, s);
    fits := forall key :: key in tally ==> Get(t.counts, key, 0) + tally[key] <= env.p.maxAttestationsPerVerifierWindow;
    counts := map key | key in t.counts.Keys + tally.Keys :: Get(t.counts, key, 0) + Get(tally, key, 0);
  }

  lemma NowTurnedDown(env: Env, t: Template, tx: Transaction)
    requires StageSpecials(env, t.included) == Ok(t.registry) && IsSpecial(tx) && !SpecialOk(env, t.registry, tx)
    ensures TurnedDown(env, t.included, tx)
  {
    hide StageSpecials, SpecialOk, IsSpecial;
    assert t.included[..|t.included|] == t.included;
    assert TurnedDownAt(env, t.included, |t.included|, tx);
  }

  /** The body of the inner loop; a bundle that cannot be parsed raises. */
  method Consider(env: Env, t: Template, row: Row) returns (r: Outcome)
    requires StageSpecials(env, t.included) == Ok(t.registry)
    ensures r.Taken? <==> Fitting(env, t, row.transaction)
    ensures r.Taken? ==> r.t == Include(env, t, row)
    ensures r.Skipped? ==> Refused(env, t, row.transaction)
    ensures r.Raised? ==> IsBundle(row.transaction) && env.o.parseBundle(row.transaction.metadata).None?
  {
    hide IdentitySet, CountsFit, AddCounts, PqCost, TxStateless, ApplySpecial, IsBundle, IsSpecial, HasRoom, TurnedDown, StageSpecials;
    var tx := row.transaction;
    var s, counts := [], t.counts;
    NoCounts(counts);
    if IsBundle(tx) {
      if t.bundles >= env.p.maxBundlesPerBlock { return Skipped; }
      if env.o.parseBundle(tx.metadata).None? { return Raised; }
      s := env.o.parseBundle(tx.metadata).value.attestations;
      var fits;
      fits, counts := CheckBundle(env, t, s);
      if !fits { return Skipped; }
    }
    if !HasRoom(env, t, tx) { return Skipped; }
    var registry := t.registry;
    if IsSpecial(tx) {
      if !SpecialOk(env, registry, tx) {
        NowTurnedDown(env, t, tx);
        return Skipped;
      }
      registry := ApplySpecial(env.o, tx, registry, env.height, env.feeCount, env.p);
    }
    r := Taken(Template(t.included + [row], t.weight + env.o.weight(tx), t.pqCost + PqCost(tx),
                        t.bundles + (if IsBundle(tx) then 1 else 0), t.identities + IdentitySet(s), counts, registry));
  }

  // ---- the candidates still to be placed ----

  /** Candidates not yet in the template, each once. */
  ghost predicate Waiting(env: Env, t: Template, pending: seq<Selection>) {
    (forall i :: 0 <= i < |pending| ==> IsCandidate(env, t, pending[i])) && DistinctIds(pending)
  }

  ghost predicate DistinctIds(pending: seq<Selection>) {
    forall i, j :: 0 <= i < j < |pending| ==> pending[i].row.txid != pending[j].row.txid
  }

  ghost predicate IsCandidate(env: Env, t: Template, s: Selection) {
    s.weight == env.o.weight(s.row.transaction) && s.row.txid in env.selections && env.selections[s.row.txid] == s.row && s.row.txid !in Txids(t.included)
  }

  ghost predicate Among(h: Hash, pending: seq<Selection>) {
    exists i :: 0 <= i < |pending| && pending[i].row.txid == h
  }

  /** Every candidate is in the template, refused by it, or still to be placed. */
  ghost predicate Accounted(env: Env, t: Template, pending: seq<Selection>) {
    forall h :: h in env.selections ==> h in Txids(t.included) || Refused(env, t, env.selections[h].transaction) || Among(h, pending)
  }

  function Without(pending: seq<Selection>, i: nat): seq<Selection>
    requires i < |pending|
  {
    pending[..i] + pending[i + 1..]
  }

  lemma WithoutKeeps(env: Env, t: Template, pending: seq<Selection>, i: nat)
    requires i < |pending| && Waiting(env, t, pending)
    ensures Waiting(env, t, Without(pending, i))
    ensures forall j :: 0 <= j < |Without(pending, i)| ==> Without(pending, i)[j].row.txid != pending[i].row.txid
    ensures forall h :: Among(h, pending) ==> h == pending[i].row.txid || Among(h, Without(pending, i))
  {
    hide IsCandidate;
    var rest := Without(pending, i);
    assert forall j :: 0 <= j < |rest| ==> rest[j] == if j < i then pending[j] else pending[j + 1];
    forall h | Among(h, pending) && h != pending[i].row.txid ensures Among(h, rest) {
      var j :| 0 <= j < |pending| && pending[j].row.txid == h;
      assert rest[if j < i then j else j - 1].row.txid == h;
    }
  }

  lemma SkipStep(env: Env, t: Template, pending: seq<Selection>, i: nat)
    requires i < |pending| && Waiting(env, t, pending) && Accounted(env, t, pending)
    requires Refused(env, t, pending[i].row.transaction)
    ensures Waiting(env, t, Without(pending, i)) && Accounted(env, t, Without(pending, i))
  {
    hide Refused, Among, Without;
    WithoutKeeps(env, t, pending, i);
    assert IsCandidate(env, t, pending[i]);
  }

  lemma TakeStep(env: Env, t: Template, pending: seq<Selection>, i: nat)
    requires i < |pending| && Sound(env, t) && Waiting(env, t, pending) && Accounted(env, t, pending)
    requires Fitting(env, t, pending[i].row.transaction) && AllResolved(env, Txids(t.included), pending[i].row.transaction)
    ensures var u := Include(env, t, pending[i].row);
            Sound(env, u) && Waiting(env, u, Without(pending, i)) && Accounted(env, u, Without(pending, i))
  {
    hide Refused, Among, Without, Sound, Fitting, AllResolved, Include, Txids;
    var row := pending[i].row;
    var u := Include(env, t, row);
    WithoutKeeps(env, t, pending, i);
    assert IsCandidate(env, t, pending[i]);
    IncludeSound(env, t, row);
    IncludedTxids(env, t, row);
    var rest := Without(pending, i);
    forall j | 0 <= j < |rest| ensures IsCandidate(env, u, rest[j]) {
      assert IsCandidate(env, t, rest[j]);
    }
    forall h | h in env.selections
      ensures h in Txids(u.included) || Refused(env, u, env.selections[h].transaction) || Among(h, rest)
    {
      if Refused(env, t, env.selections[h].transaction) { RefusedStays(env, t, row, env.selections[h].transaction); }
    }
  }

  lemma IncludedTxids(env: Env, t: Template, row: Row)
    requires Fitting(env, t, row.transaction)
    ensures Txids(Include(env, t, row).included) == Txids(t.included) + {row.txid}
  {
    hide Fitting, ApplySpecial, AddCounts, IdentitySet;
    var rows := t.included + [row];
    forall h ensures h in Txids(rows) <==> h in Txids(t.included) || h == row.txid {
      if h == row.txid { assert row in rows; }
    }
  }

  // ---- fee-rate order ----

  /** No parent is waiting in the mempool, and every parent is confirmed. */
  predicate Free(env: Env, tx: Transaction) {
    AllResolved(env, {}, tx)
  }

  function SelectionOf(env: Env, row: Row): Selection {
    Selection(row, env.o.weight(row.transaction))
  }

  /** A transaction that waits for no parent stands behind everything ranked better, and only that. */
  ghost predicate RateOrdered(env: Env, rows: seq<Row>) {
    forall i, j :: 0 <= i < j < |rows| && Free(env, rows[j].transaction) ==> SelectionLe(SelectionOf(env, rows[i]), SelectionOf(env, rows[j]))
  }

  /** What is in ranks before whatever is pending and waits for no parent. */
  ghost predicate Ahead(env: Env, rows: seq<Row>, pending: seq<Selection>) {
    forall i, j :: 0 <= i < |rows| && 0 <= j < |pending| && Free(env, pending[j].row.transaction) ==>
      SelectionLe(SelectionOf(env, rows[i]), pending[j])
  }

  ghost predicate Ordered(env: Env, t: Template, pending: seq<Selection>) {
    RateOrdered(env, t.included) && Ahead(env, t.included, pending)
  }

  ghost predicate NoneFree(env: Env, pending: seq<Selection>) {
    forall i :: 0 <= i < |pending| ==> !Free(env, pending[i].row.transaction)
  }

  lemma FreeResolves(env: Env, txids: set<Hash>, tx: Transaction)
    requires Free(env, tx)
    ensures AllResolved(env, txids, tx)
  {
    forall i | i in tx.inputs ensures Resolved(env, txids, i.previousOutput.txid) {
      assert Resolved(env, {}, i.previousOutput.txid);
    }
  }

  lemma SkipOrdered(env: Env, t: Template, pending: seq<Selection>, i: nat)
    requires i < |pending| && Ordered(env, t, pending)
    ensures Ordered(env, t, Without(pending, i))
  {
    hide Free, SelectionLe;
    var rest := Without(pending, i);
    assert forall j :: 0 <= j < |rest| ==> rest[j] == if j < i then pending[j] else pending[j + 1];
  }

  lemma TakeOrdered(env: Env, t: Template, pending: seq<Selection>, i: nat)
    requires i < |pending| && Ordered(env, t, pending) && Fitting(env, t, pending[i].row.transaction)
    requires pending[i] == SelectionOf(env, pending[i].row)
    requires forall j :: 0 <= j < |pending| && j != i && Free(env, pending[j].row.transaction) ==> SelectionLe(pending[i], pending[j])
    ensures Ordered(env, Include(env, t, pending[i].row), Without(pending, i))
  {
    hide Free, SelectionLe, Fitting, ApplySpecial, AddCounts, IdentitySet;
    var rest := Without(pending, i);
    assert forall j :: 0 <= j < |rest| ==> rest[j] == if j < i then pending[j] else pending[j + 1];
    var rows := t.included + [pending[i].row];
    assert Include(env, t, pending[i].row).included == rows;
    assert forall j :: 0 <= j < |t.included| ==> rows[j] == t.included[j];
  }

  /** The rest of a ranked round ranks behind its head; the ones put back are not free. */
  lemma HeadAhead(env: Env, pending: seq<Selection>, next: seq<Selection>, k: nat)
    requires k < |pending| && NoneFree(env, next) && InTurn(env, pending)
    ensures var rows := next + pending[k..];
            forall j :: 0 <= j < |rows| && j != |next| && Free(env, rows[j].row.transaction) ==> SelectionLe(rows[|next|], rows[j])
  {
    hide Free, SelectionLe;
    var rows := next + pending[k..];
    assert rows[|next|] == pending[k];
    assert forall j :: 0 <= j < |next| ==> rows[j] == next[j];
    assert forall j :: |next| < j < |rows| ==> rows[j] == pending[k + (j - |next|)];
  }

  /** No candidate of `pending` has all its parents in. */
  ghost predicate Stuck(env: Env, t: Template, pending: seq<Selection>) {
    forall i :: 0 <= i < |pending| ==> !AllResolved(env, Txids(t.included), pending[i].row.transaction)
  }

  /** What holds throughout the selection. */
  ghost predicate Underway(env: Env, t: Template, pending: seq<Selection>) {
    Sound(env, t) && Waiting(env, t, pending) && Accounted(env, t, pending) && Ordered(env, t, pending)
  }

  lemma UnderwayStaged(env: Env, t: Template, pending: seq<Selection>)
    requires Underway(env, t, pending)
    ensures StageSpecials(env, t.included) == Ok(t.registry)
  {
  }

  lemma SkipUnderway(env: Env, t: Template, pending: seq<Selection>, i: nat)
    requires i < |pending| && Underway(env, t, pending) && Refused(env, t, pending[i].row.transaction)
    ensures Underway(env, t, Without(pending, i))
  {
    hide Sound, Waiting, Accounted, Ordered, Refused, Without;
    SkipStep(env, t, pending, i);
    SkipOrdered(env, t, pending, i);
  }

  lemma TakeUnderway(env: Env, t: Template, pending: seq<Selection>, i: nat)
    requires i < |pending| && Underway(env, t, pending)
    requires Fitting(env, t, pending[i].row.transaction) && AllResolved(env, Txids(t.included), pending[i].row.transaction)
    requires forall j :: 0 <= j < |pending| && j != i && Free(env, pending[j].row.transaction) ==> SelectionLe(pending[i], pending[j])
    ensures Underway(env, Include(env, t, pending[i].row), Without(pending, i))
  {
    hide Sound, Accounted, Ordered, Fitting, AllResolved, Include, Without, Free, SelectionLe, Txids;
    assert IsCandidate(env, t, pending[i]);
    TakeOrdered(env, t, pending, i);
    TakeStep(env, t, pending, i);
  }

  /** Best fee rate first, unless all of them wait for a parent. */
  ghost predicate InTurn(env: Env, pending: seq<Selection>) {
    Sorted(SelectionLe, pending) || NoneFree(env, pending)
  }

  datatype Round = Round(t: Template, next: seq<Selection>, progressed: bool)

  /** One round over the pending candidates. */
  method Pass(env: Env, start: Template, pending: seq<Selection>) returns (r: Result<Round>)
    requires Underway(env, start, pending) && InTurn(env, pending)
    ensures r.Ok? ==>
      && Underway(env, r.value.t, r.value.next) && NoneFree(env, r.value.next)
      && (r.value.progressed ==> |r.value.next| < |pending|)
      && (!r.value.progressed ==> Stuck(env, r.value.t, r.value.next))
    ensures r.Err? ==> exists i :: 0 <= i < |pending| && Unparsable(env, pending[i].row.transaction)
  {
    hide Underway, InTurn, Fitting, Refused, AllResolved, Include, Txids, IsBundle, Free, SelectionLe;
    var t, next, progressed, k := start, [], false, 0;
    assert [] + pending[0..] == pending;
    while k < |pending|
      invariant 0 <= k <= |pending| && |next| <= k && (progressed ==> |next| < k)
      invariant Underway(env, t, next + pending[k..]) && NoneFree(env, next)
      invariant !progressed ==> Stuck(env, t, next)
    {
      var rows := next + pending[k..];
      assert rows[|next|] == pending[k];
      assert Without(rows, |next|) == next + pending[k + 1..];
      var row := pending[k].row;
      var waits := HasUnresolvedParent(env, Txids(t.included), row.transaction);
      if waits {
        if Free(env, row.transaction) { FreeResolves(env, Txids(t.included), row.transaction); }
        assert next + [pending[k]] + pending[k + 1..] == rows;
        next := next + [pending[k]];
      } else {
        UnderwayStaged(env, t, rows);
        var outcome := Consider(env, t, row);
        match outcome {
          case Raised => return Err(Malformed);
          case Skipped => SkipUnderway(env, t, rows, |next|);
          case Taken(u) =>
            HeadAhead(env, pending, next, k);
            TakeUnderway(env, t, rows, |next|);
            t, progressed := u, true;
        }
      }
      k := k + 1;
    }
    assert next + pending[k..] == next;
    r := Ok(Round(t, next, progressed));
  }

  predicate Unparsable(env: Env, tx: Transaction) {
    IsBundle(tx) && env.o.parseBundle(tx.metadata).None?
  }

  // ---- the whole selection ----

  ghost predicate EnvOk(env: Env) {
    forall h :: h in env.selections ==> env.selections[h].txid == h && env.o.txid(env.selections[h].transaction) == h
  }

  function Candidates(env: Env, keys: seq<Hash>): seq<Selection>
    requires forall k :: k in keys ==> k in env.selections
  {
    seq(|keys|, i requires 0 <= i < |keys| => Selection(env.selections[keys[i]], env.o.weight(env.selections[keys[i]].transaction)))
  }

  /** The pending list at the start: every candidate, best fee rate first. */
  function Ranking(env: Env): seq<Selection> {
    Sort(SelectionLe, Candidates(env, SortedTexts(env.selections.Keys)))
  }

  lemma RankingWaits(env: Env)
    requires EnvOk(env)
    ensures Sorted(SelectionLe, Ranking(env)) && Ordered(env, Start(env), Ranking(env))
    ensures Waiting(env, Start(env), Ranking(env)) && Accounted(env, Start(env), Ranking(env))
  {
    hide Refused, SelectionLe, Sort, Free, Preorder, Sorted, SortedTexts, IsCandidate, Among, DistinctIds, Candidates;
    var all := Candidates(env, SortedTexts(env.selections.Keys));
    SelectionOrder();
    SortSorts(SelectionLe, all);
    CandidatesDistinct(env);
    SortDistinct(all);
    RankingCandidates(env);
    forall h | h in env.selections ensures Among(h, Ranking(env)) {
      RankingComplete(env, h);
    }
  }

  lemma RankingCandidates(env: Env)
    requires EnvOk(env)
    ensures forall i :: 0 <= i < |Ranking(env)| ==> IsCandidate(env, Start(env), Ranking(env)[i])
  {
    hide SelectionLe, Sort, SortedTexts;
    var all := Candidates(env, SortedTexts(env.selections.Keys));
    SortMembers(SelectionLe, all);
    forall i | 0 <= i < |Ranking(env)| ensures IsCandidate(env, Start(env), Ranking(env)[i]) {
      assert Ranking(env)[i] in all;
    }
  }

  lemma RankingComplete(env: Env, h: Hash)
    requires EnvOk(env) && h in env.selections
    ensures Among(h, Ranking(env))
  {
    hide SelectionLe, Sort, SortedTexts, Candidates;
    var all := Candidates(env, SortedTexts(env.selections.Keys));
    SortMembers(SelectionLe, all);
    CandidatesDistinct(env);
    var i :| 0 <= i < |all| && all[i].row.txid == h;
    assert all[i] in Ranking(env);
    var j :| 0 <= j < |Ranking(env)| && Ranking(env)[j] == all[i];
    assert Ranking(env)[j].row.txid == h;
  }

  lemma CandidatesDistinct(env: Env)
    requires EnvOk(env)
    ensures var all := Candidates(env, SortedTexts(env.selections.Keys));
            && DistinctIds(all)
            && (forall h :: h in env.selections ==> exists i :: 0 <= i < |all| && all[i].row.txid == h)
  {
    var keys := SortedTexts(env.selections.Keys);
    SortedTextsIncrease(env.selections.Keys);
    hide SortedTexts;
    var all := Candidates(env, keys);
    forall h | h in env.selections ensures exists i :: 0 <= i < |all| && all[i].row.txid == h {
      assert h in keys;
      var i :| 0 <= i < |keys| && keys[i] == h;
      assert all[i].row.txid == h;
    }
  }

  lemma SortDistinct(all: seq<Selection>)
    requires DistinctIds(all)
    ensures DistinctIds(Sort(SelectionLe, all))
  {
    hide Sort;
    var r := Sort(SelectionLe, all);
    SortMembers(SelectionLe, all);
    forall i, j | 0 <= i < j < |r| ensures r[i].row.txid != r[j].row.txid {
      if r[i].row.txid == r[j].row.txid {
        assert r[i] in all && r[j] in all;
        TwiceInSequence(r, i, j);
        var k :| 0 <= k < |all| && all[k] == r[i];
        OnceInSequence(all, k);
      }
    }
  }

  /**
   * `_select_mempool_entries`: it ends with a sound template, and every candidate left out either
   * waits for a parent that is not in, or is refused by the finished template.
   */
  method SelectMempoolEntries(env: Env) returns (r: Result<Template>)
    requires EnvOk(env)
    ensures r.Ok? ==> Sound(env, r.value) && RateOrdered(env, r.value.included)
    ensures r.Ok? ==> forall h :: h in env.selections ==>
      || h in Txids(r.value.included)
      || Refused(env, r.value, env.selections[h].transaction)
      || !AllResolved(env, Txids(r.value.included), env.selections[h].transaction)
    ensures r.Err? ==> exists h :: h in env.selections && Unparsable(env, env.selections[h].transaction)
  {
    hide Sound, Ranking, Refused, AllResolved, Txids, Sorted, RateOrdered, Ahead;
    var t, pending := Start(env), Ranking(env);
    StartSound(env);
    RankingWaits(env);
    while pending != []
      invariant Underway(env, t, pending) && InTurn(env, pending)
      decreases |pending|
    {
      var round := Pass(env, t, pending);
      if round.Err? {
        var i :| 0 <= i < |pending| && Unparsable(env, pending[i].row.transaction);
        assert IsCandidate(env, t, pending[i]);
        return Err(round.fault);
      }
      t, pending := round.value.t, round.value.next;
      if !round.value.progressed { break; }
    }
    r := Ok(t);
  }
}
