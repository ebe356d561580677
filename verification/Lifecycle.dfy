/** Settlements and attestations along a chain: built ones pass, each epoch settles once, no vote counts twice. */
module Lifecycle {
  import opened Prelude
  import opened Arith
  import opened Models
  import opened Oracles
  import opened Economics
  import opened Sorting
  import opened Nodes
  import opened EpochSettlement
  import opened SettlementAnalysis
  import opened Utxo
  import opened UtxoValue
  import opened Validation
  import opened Supply
  import opened Conservation

  // ---- building a settlement and paying it ----

  /** `build_reward_settlement`. */
  function BuildSettlement(e: Epoch, epochIndex: int, startHeight: int, endHeight: int, pool: int): Result<Settlement> {
    var derived := DerivedEntries(e, pool);
    if derived.Err? then Err(derived.fault)
    else
      var distributed := Sum(Rewards(derived.value));
      Ok(Settlement(epochIndex, startHeight, endHeight, e.seed, |derived.value|, distributed, pool - distributed, derived.value))
  }

  lemma RecipientsDistinct(entries: seq<Entry>)
    requires forall i, j :: 0 <= i < j < |entries| ==> entries[i].nodeId != entries[j].nodeId
    ensures NoDuplicates(Recipients(entries))
  {
  }

  /** A settlement built on the scheduled pool passes the contextual check of the block that closes its epoch. */
  lemma BuiltSettlementPasses(ctx: Context, registry: Registry, bundles: seq<Bundle>, settled: set<int>, epoch: nat)
    requires ctx.height >= ctx.p.nodeRewardActivation && epoch !in settled && epoch in ctx.seeds
    requires ctx.height == CloseHeight(epoch, ctx.p)
    ensures var pool := SubsidySplit(ctx.height, ctx.p).1;
            var built := BuildSettlement(EpochAt(ctx, registry, bundles, ctx.seeds[epoch], epoch), epoch,
                                         epoch * ctx.p.epochLength, ctx.height, pool);
            built.Ok? ==>
              && SettlementAdmissible(ctx, registry, bundles, settled, built.value)
              && SettlementSound(built.value)
              && built.value.distributed in {0, pool} && built.value.undistributed >= 0
  {
    hide SettlementEntries, SubsidySplit, EpochAt;
    var pool := SubsidySplit(ctx.height, ctx.p).1;
    var e := EpochAt(ctx, registry, bundles, ctx.seeds[epoch], epoch);
    EpochSeed(ctx, registry, bundles, ctx.seeds[epoch], epoch);
    var entries := SettlementEntries(e, pool);
    EntriesExact(e, pool);
    EntriesSound(e, pool);
    RecipientsDistinct(entries);
  }

  lemma EpochSeed(ctx: Context, registry: Registry, bundles: seq<Bundle>, seed: Bytes, epoch: int)
    ensures EpochAt(ctx, registry, bundles, seed, epoch).seed == seed
  {
  }

  lemma EntriesExact(e: Epoch, pool: int)
    ensures var entries := SettlementEntries(e, pool);
            && (entries != [] ==> Sum(Rewards(entries)) == pool)
            && (entries == [] ==> Sum(Rewards(entries)) == 0)
            && (forall i :: 0 <= i < |entries| ==> entries[i].rank == i)
  {
    hide Rewarded, EntriesFor;
    SplitExact(Rewarded(e), pool);
  }

  /** `_reward_outputs_for_settlement`: the outputs a miner's coinbase owes. */
  function RewardOutputs(settlement: Option<Settlement>): seq<TxOutput> {
    var owed := OwedEntries(settlement);
    seq(|owed|, i requires 0 <= i < |owed| => TxOutput(owed[i].reward, owed[i].payout))
  }

  /** The coinbase that the miner assembles for an admitted settlement is the one validation demands. */
  lemma TemplateCoinbasePasses(ctx: Context, registry: Registry, bundles: seq<Bundle>, settled: set<int>, s: Settlement,
                               coinbase: Transaction, miner: Text, fees: int)
    requires SettlementAdmissible(ctx, registry, bundles, settled, s) && SettlementSound(s) && s.undistributed >= 0
    requires coinbase.outputs == [TxOutput(SubsidySplit(ctx.height, ctx.p).0 + fees, miner)] + RewardOutputs(Some(s))
    ensures CoinbaseOk(coinbase, ctx.height, fees, Some(s), ctx.p) <==> s.entries == [] || s.undistributed == 0
  {
    hide DerivedEntries, Sort;
    RankOrderKept(s.entries);
    ClosingHeight(s.epochIndex, ctx.height, ctx.p);
    if s.entries == [] { assert Sum(Rewards(s.entries)) == 0; }
  }

  lemma ClosingHeight(epoch: int, height: nat, p: Params)
    requires height == CloseHeight(epoch, p)
    ensures ClosesEpoch(height, p) && CurrentEpoch(height, p) == epoch
  {
    DivShift(0, epoch + 1, p.epochLength);
    MulStep(epoch, p.epochLength);
    DivIs(height, p.epochLength, epoch);
  }

  // ---- one block settles at most its own epoch ----

  /** The epochs settled by transactions `k..` of a block. */
  function SettledIn(o: Oracle, txs: seq<Transaction>, k: nat): seq<int>
    requires AllScreened(o, txs) && 1 <= k <= |txs|
    decreases |txs| - k
  {
    if k == |txs| then []
    else (if IsSettlement(txs[k]) then [SettlementOf(o, txs[k]).epochIndex] else []) + SettledIn(o, txs, k + 1)
  }

  lemma StageOneSettles(ctx: Context, st: Stage, tx: Transaction)
    requires Screened(ctx.o, tx) && StageOne(ctx, st, tx).Ok?
    ensures var next := StageOne(ctx, st, tx).value;
            && (!IsSettlement(tx) ==> next.ledger.settled == st.ledger.settled)
            && (IsSettlement(tx) ==>
                  var e := SettlementOf(ctx.o, tx).epochIndex;
                  && e !in st.ledger.settled && e >= 0 && ctx.height == CloseHeight(e, ctx.p)
                  && next.ledger.settled == st.ledger.settled + {e})
  {
    hide PaymentFee, AfterTx, CountAttestations, RecordSpends, SpecialAccepted, BundleAdmissible, DerivedEntries;
    KindsExclusive(tx);
  }

  /** The settlements of a block: at most one, of the epoch its height closes, and not settled before. */
  lemma {:induction false} StageSettles(ctx: Context, st: Stage, txs: seq<Transaction>, k: nat)
    requires AllScreened(ctx.o, txs) && 1 <= k <= |txs| && StageFrom(ctx, st, txs, k).Ok?
    ensures var epochs := SettledIn(ctx.o, txs, k);
            && |epochs| <= 1
            && (epochs != [] ==>
                  && epochs[0] !in st.ledger.settled && epochs[0] >= 0
                  && ctx.height == CloseHeight(epochs[0], ctx.p))
            && StageFrom(ctx, st, txs, k).value.ledger.settled == st.ledger.settled + (set e | e in epochs)
    decreases |txs| - k
  {
    hide StageOne, CloseHeight;
    if k < |txs| {
      StageOneSettles(ctx, st, txs[k]);
      StageSettles(ctx, StageOne(ctx, st, txs[k]).value, txs, k + 1);
      var rest := SettledIn(ctx.o, txs, k + 1);
      if IsSettlement(txs[k]) && rest != [] {
        SameEpoch(rest[0], SettlementOf(ctx.o, txs[k]).epochIndex, ctx.height, ctx.p);
        assert false;
      }
    }
  }

  lemma SameEpoch(a: int, b: int, height: nat, p: Params)
    requires height == CloseHeight(a, p) && height == CloseHeight(b, p)
    ensures a == b
  {
    ClosingHeight(a, height, p);
    ClosingHeight(b, height, p);
  }

  // ---- attestations on chain are unique ----

  function AllAttestations(bundles: seq<Bundle>): seq<Attestation> {
    if bundles == [] then [] else AllAttestations(bundles[..|bundles| - 1]) + bundles[|bundles| - 1].attestations
  }

  ghost predicate VotesOk(l: Ledger) {
    && NoDuplicates(Identities(AllAttestations(l.bundles)))
    && IdentitySet(AllAttestations(l.bundles)) == l.identities
    && (forall b, a :: b in l.bundles && a in b.attestations ==> a.epochIndex == b.epochIndex)
  }

  lemma DistinctConcat(s: seq<Attestation>, t: seq<Attestation>)
    requires NoDuplicates(Identities(s)) && NoDuplicates(Identities(t))
    requires forall a :: a in t ==> IdentityOf(a) !in IdentitySet(s)
    ensures NoDuplicates(Identities(s + t))
    ensures IdentitySet(s + t) == IdentitySet(s) + IdentitySet(t)
  {
    var ids := Identities(s + t);
    forall i, j | 0 <= i < j < |ids| ensures ids[i] != ids[j] {
      if j < |s| {
        assert Identities(s)[i] != Identities(s)[j];
      } else if i >= |s| {
        assert Identities(t)[i - |s|] != Identities(t)[j - |s|];
      } else {
        assert t[j - |s|] in t && s[i] in s;
      }
    }
    assert forall a :: a in s + t <==> a in s || a in t;
  }

  lemma StageOneVotes(ctx: Context, st: Stage, tx: Transaction)
    requires Screened(ctx.o, tx) && StageOne(ctx, st, tx).Ok? && VotesOk(st.ledger)
    ensures VotesOk(StageOne(ctx, st, tx).value.ledger)
  {
    hide VotesOk, PaymentFee, AfterTx, CountAttestations, RecordSpends, SpecialAccepted, SettlementAdmissible, AttestationAdmissible;
    KindsExclusive(tx);
    var l, l' := st.ledger, StageOne(ctx, st, tx).value.ledger;
    if IsBundle(tx) {
      BundleVotes(ctx, l, BundleOf(ctx.o, tx), l');
    } else {
      SameVotes(l, l');
    }
  }

  lemma SameVotes(l: Ledger, l': Ledger)
    requires VotesOk(l) && l'.bundles == l.bundles && l'.identities == l.identities
    ensures VotesOk(l')
  {
  }

  lemma BundleVotes(ctx: Context, l: Ledger, b: Bundle, l': Ledger)
    requires VotesOk(l) && BundleAdmissible(ctx, l.registry, l.identities, b)
    requires forall a :: a in b.attestations ==> a.epochIndex == b.epochIndex
    requires l'.bundles == l.bundles + [b] && l'.identities == l.identities + IdentitySet(b.attestations)
    ensures VotesOk(l')
  {
    assert l'.bundles[..|l'.bundles| - 1] == l.bundles;
    forall a | a in b.attestations ensures IdentityOf(a) !in l.identities {
      assert AttestationAdmissible(ctx, ActiveRewardNodes(l.registry, ctx.height, ctx.p), ctx.seeds[b.epochIndex], l.identities, a);
    }
    DistinctConcat(AllAttestations(l.bundles), b.attestations);
  }

  lemma {:induction false} EpochAttestationsAppend(bundles: seq<Bundle>, b: Bundle, epoch: int)
    ensures EpochAttestations(bundles + [b], epoch)
            == EpochAttestations(bundles, epoch) + (if b.epochIndex == epoch then b.attestations else [])
  {
    if bundles != [] {
      assert (bundles + [b])[1..] == bundles[1..] + [b];
      EpochAttestationsAppend(bundles[1..], b, epoch);
    }
  }

  /** The attestations of one epoch are a selection of those on chain. */
  lemma {:induction false} EpochVotesDistinct(bundles: seq<Bundle>, epoch: int)
    requires NoDuplicates(Identities(AllAttestations(bundles)))
    requires forall b, a :: b in bundles && a in b.attestations ==> a.epochIndex == b.epochIndex
    ensures NoDuplicates(Identities(EpochAttestations(bundles, epoch)))
    ensures forall a :: a in EpochAttestations(bundles, epoch) ==> a in AllAttestations(bundles) && a.epochIndex == epoch
  {
    if bundles != [] {
      var init, b := bundles[..|bundles| - 1], bundles[|bundles| - 1];
      assert bundles == init + [b];
      var all := AllAttestations(init);
      DistinctParts(all, b.attestations);
      EpochVotesDistinct(init, epoch);
      EpochAttestationsAppend(init, b, epoch);
      if b.epochIndex == epoch {
        forall a | a in b.attestations ensures IdentityOf(a) !in IdentitySet(EpochAttestations(init, epoch)) {
        }
        DistinctConcat(EpochAttestations(init, epoch), b.attestations);
      } else {
        assert EpochAttestations(bundles, epoch) == EpochAttestations(init, epoch);
      }
    }
  }

  lemma DistinctParts(s: seq<Attestation>, t: seq<Attestation>)
    requires NoDuplicates(Identities(s + t))
    ensures NoDuplicates(Identities(s)) && NoDuplicates(Identities(t))
    ensures forall a :: a in t ==> IdentityOf(a) !in IdentitySet(s)
  {
    var ids := Identities(s + t);
    forall i, j | 0 <= i < j < |t| ensures Identities(t)[i] != Identities(t)[j] {
      assert ids[|s| + i] != ids[|s| + j];
    }
    forall i, j | 0 <= i < j < |s| ensures Identities(s)[i] != Identities(s)[j] {
      assert ids[i] != ids[j];
    }
    forall a, c | a in t && c in s ensures IdentityOf(a) != IdentityOf(c) {
      var i :| 0 <= i < |t| && t[i] == a;
      var j :| 0 <= j < |s| && s[j] == c;
      assert ids[j] != ids[|s| + i];
    }
  }

  /** What settlement reads from an accepted chain never contains the same vote twice. */
  lemma ChainVotesUnique(l: Ledger, epoch: int)
    requires VotesOk(l)
    ensures UniqueVotes(EpochAttestations(l.bundles, epoch))
  {
    EpochVotesDistinct(l.bundles, epoch);
    var s := EpochAttestations(l.bundles, epoch);
    forall i, j | 0 <= i < j < |s| ensures !(s[i].candidate == s[j].candidate && s[i].window == s[j].window && s[i].verifier == s[j].verifier) {
      assert Identities(s)[i] != Identities(s)[j];
      assert s[i] in s && s[j] in s;
    }
  }

  // ---- what every accepted chain keeps ----

  ghost predicate LedgerOk(l: Ledger, height: nat, p: Params) {
    && NonNegative(l.utxo)
    && RegistryOk(l.registry, height)
    && VotesOk(l)
    && (forall e :: e in l.settled ==> e >= 0 && CloseHeight(e, p) < height)
  }

  lemma StageOneRegistry(ctx: Context, st: Stage, tx: Transaction, height: nat)
    requires Screened(ctx.o, tx) && StageOne(ctx, st, tx).Ok?
    requires RegistryOk(st.ledger.registry, height) && height <= ctx.height
    ensures RegistryOk(StageOne(ctx, st, tx).value.ledger.registry, ctx.height)
    ensures Preserves(st.ledger.registry, StageOne(ctx, st, tx).value.ledger.registry)
  {
    hide PaymentFee, AfterTx, CountAttestations, RecordSpends, SettlementAdmissible, BundleAdmissible, RegistryOk, Preserves, SpecialAdmissible, SpecialStateless;
    KindsExclusive(tx);
    if IsSpecial(tx) {
      SpecialKeeps(ctx.o, tx, st.ledger.registry, height, ctx.height, ctx.feeCount, ctx.p);
    } else {
      RegistryAges(st.ledger.registry, height, ctx.height);
    }
  }

  lemma RegistryAges(reg: Registry, height: nat, now: nat)
    requires RegistryOk(reg, height) && height <= now
    ensures RegistryOk(reg, now) && Preserves(reg, reg)
  {
    forall id | id in reg ensures RecordOk(id, reg[id], now) {
      assert RecordOk(id, reg[id], height);
    }
  }

  lemma PreservesTransitive(a: Registry, b: Registry, c: Registry)
    requires Preserves(a, b) && Preserves(b, c)
    ensures Preserves(a, c)
  {
  }

  lemma {:induction false} StageKeeps(ctx: Context, st: Stage, txs: seq<Transaction>, k: nat)
    requires AllScreened(ctx.o, txs) && 1 <= k <= |txs| && StageFrom(ctx, st, txs, k).Ok?
    requires RegistryOk(st.ledger.registry, ctx.height) && VotesOk(st.ledger)
    ensures var end := StageFrom(ctx, st, txs, k).value;
            && RegistryOk(end.ledger.registry, ctx.height) && VotesOk(end.ledger)
            && Preserves(st.ledger.registry, end.ledger.registry)
    decreases |txs| - k
  {
    hide StageOne, RegistryOk, VotesOk, Preserves;
    RegistryAges(st.ledger.registry, ctx.height, ctx.height);
    if k < |txs| {
      var next := StageOne(ctx, st, txs[k]).value;
      StageOneRegistry(ctx, st, txs[k], ctx.height);
      StageOneVotes(ctx, st, txs[k]);
      StageKeeps(ctx, next, txs, k + 1);
      PreservesTransitive(st.ledger.registry, next.ledger.registry, StageFrom(ctx, next, txs, k + 1).value.ledger.registry);
    }
  }

  /** One accepted block keeps the chain state sound and settles at most the epoch it closes. */
  lemma BlockKeeps(ctx: Context, ledger: Ledger, block: Block)
    requires Accepts(ctx, ledger, block) && LedgerOk(ledger, ctx.height, ctx.p)
    ensures LedgerOk(Connect(ctx, ledger, block), ctx.height + 1, ctx.p)
    ensures Preserves(ledger.registry, Connect(ctx, ledger, block).registry)
    ensures block.transactions != [] && AllScreened(ctx.o, block.transactions)
    ensures var epochs := SettledIn(ctx.o, block.transactions, 1);
            && |epochs| <= 1
            && (epochs != [] ==> epochs[0] !in ledger.settled && ctx.height == CloseHeight(epochs[0], ctx.p))
            && Connect(ctx, ledger, block).settled == ledger.settled + (set e | e in epochs)
  {
    hide StageFrom, ValidatedStage, CoinbaseOk, RegistryOk, VotesOk, Preserves, CloseHeight, SettledIn, NonNegative;
    AcceptedParts(ctx, ledger, block);
    BlockNeverInflates(ctx, ledger, block);
    var txs := block.transactions;
    StageKeeps(ctx, InitialStage(ledger), txs, 1);
    StageSettles(ctx, InitialStage(ledger), txs, 1);
    var l := Connect(ctx, ledger, block);
    RegistryAges(l.registry, ctx.height, ctx.height + 1);
    SameVotes(ValidatedStage(ctx, ledger, block).value.ledger, l);
  }

  /** The epochs settled along a chain, in order. */
  ghost function SettledOver(o: Oracle, p: Params, ledger: Ledger, height: nat, links: seq<Link>): seq<int>
    requires AcceptedChain(o, p, ledger, height, links) && LedgerOk(ledger, height, p)
    decreases links
  {
    if links == [] then []
    else
      var l := links[0];
      BlockKeeps(l.ctx, ledger, l.block);
      SettledIn(o, l.block.transactions, 1) + SettledOver(o, p, Connect(l.ctx, ledger, l.block), height + 1, links[1..])
  }

  /**
   * Along every accepted chain: the registry stays sound and no node changes hands, no vote is
   * recorded twice, and each epoch is settled at most once.
   */
  lemma {:induction false} ChainKeeps(o: Oracle, p: Params, ledger: Ledger, height: nat, links: seq<Link>)
    requires AcceptedChain(o, p, ledger, height, links) && LedgerOk(ledger, height, p)
    ensures LedgerOk(FinalLedger(o, p, ledger, height, links), height + |links|, p)
    ensures Preserves(ledger.registry, FinalLedger(o, p, ledger, height, links).registry)
    ensures NoDuplicates(SettledOver(o, p, ledger, height, links))
    ensures forall e :: e in SettledOver(o, p, ledger, height, links) ==>
      e !in ledger.settled && height <= CloseHeight(e, p) < height + |links|
    decreases links
  {
    hide Accepts, Connect, LedgerOk, Preserves, CloseHeight, SettledIn;
    if links == [] {
      RegistryStays(ledger, height, p);
    } else {
      var l := links[0];
      BlockKeeps(l.ctx, ledger, l.block);
      var next := Connect(l.ctx, ledger, l.block);
      ChainKeeps(o, p, next, height + 1, links[1..]);
      PreservesTransitive(ledger.registry, next.registry, FinalLedger(o, p, next, height + 1, links[1..]).registry);
      ConcatSettled(SettledIn(o, l.block.transactions, 1), SettledOver(o, p, next, height + 1, links[1..]), ledger.settled, next.settled);
    }
  }

  lemma RegistryStays(l: Ledger, height: nat, p: Params)
    requires LedgerOk(l, height, p)
    ensures Preserves(l.registry, l.registry)
  {
  }

  lemma ConcatSettled(head: seq<int>, tail: seq<int>, before: set<int>, after: set<int>)
    requires |head| <= 1 && NoDuplicates(tail)
    requires after == before + (set e | e in head)
    requires forall e :: e in tail ==> e !in after
    ensures NoDuplicates(head + tail)
    ensures forall e :: e in tail ==> e !in before
  {
    var all := head + tail;
    forall i, j | 0 <= i < j < |all| ensures all[i] != all[j] {
      if i < |head| {
        assert all[j] in tail && all[i] in head;
      } else {
        assert all[i] == tail[i - |head|] && all[j] == tail[j - |head|];
      }
    }
  }

  lemma GenesisOk(p: Params)
    ensures LedgerOk(GENESIS, 0, p)
  {
    assert AllAttestations([]) == [];
  }

  /**
   * On every chain accepted from genesis: the registry is sound, no vote of an epoch is recorded twice,
   * and each epoch is settled at most once, at its closing height.
   */
  lemma ChainFromGenesis(o: Oracle, p: Params, links: seq<Link>)
    requires AcceptedChain(o, p, GENESIS, 0, links)
    ensures var end := FinalLedger(o, p, GENESIS, 0, links);
            && LedgerOk(end, |links|, p)
            && (forall epoch :: UniqueVotes(EpochAttestations(end.bundles, epoch)))
    ensures NoDuplicates(SettledOver(o, p, GENESIS, 0, links))
    ensures forall e :: e in SettledOver(o, p, GENESIS, 0, links) ==> 0 <= CloseHeight(e, p) < |links|
  {
    hide AcceptedChain, FinalLedger, SettledOver, EpochAttestations, UniqueVotes;
    GenesisOk(p);
    ChainKeeps(o, p, GENESIS, 0, links);
    var end := FinalLedger(o, p, GENESIS, 0, links);
    forall epoch ensures UniqueVotes(EpochAttestations(end.bundles, epoch)) {
      ChainVotesUnique(end, epoch);
    }
  }
}
