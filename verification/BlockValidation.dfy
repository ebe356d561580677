/** `validate_block_stateful` as it runs: one pass over the transactions, staged on cloned views. */
module BlockValidation {
  import opened Prelude
  import opened Models
  import opened Oracles
  import opened Nodes
  import opened EpochSettlement
  import opened Utxo
  import opened Validation

  /** The parts of the chain state that are not behind a view. */
  datatype Rewards = Rewards(identities: set<Identity>, bundles: seq<Bundle>, settled: set<int>)

  ghost function LedgerOf(view: OverlayUtxoView, registry: InMemoryNodeRegistryView, r: Rewards): Ledger
    reads view, view.base, registry
  {
    Ledger(view.View(), registry.entries, r.identities, r.bundles, r.settled)
  }

  function FeesOf(r: Result<Stage>): Result<int> {
    if r.Ok? then Ok(r.value.fees) else Err(r.fault)
  }

  method SumInputs(ctx: Context, view: OverlayUtxoView, tx: Transaction) returns (r: Result<int>)
    requires view.Valid()
    ensures r == InputTotal(ctx, view.View(), tx, 0)
  {
    var total, k := 0, 0;
    while k < |tx.inputs|
      invariant 0 <= k <= |tx.inputs|
      invariant InputTotal(ctx, view.View(), tx, 0)
                == var rest := InputTotal(ctx, view.View(), tx, k); if rest.Err? then rest else Ok(total + rest.value)
    {
      var entry := view.Get(tx.inputs[k].previousOutput);
      if !InputOk(ctx, tx, k, entry) { return Err(Contextual); }
      total := total + entry.value.output.value;
      k := k + 1;
    }
    r := Ok(total);
  }

  method ValidateTransactionStateful(ctx: Context, view: OverlayUtxoView, registry: InMemoryNodeRegistryView, rewards: Rewards, tx: Transaction)
    returns (r: Result<int>)
    requires view.Valid()
    ensures r == TxFee(ctx, LedgerOf(view, registry, rewards), tx)
  {
    hide SpecialAccepted, BundleAdmissible, SettlementAdmissible, InputTotal, SpecialRaises, BundleRaises, SettlementRaises;
    if !OutputsActive(ctx, tx) { return Err(Contextual); }
    if IsCoinbase(tx) { return Ok(0); }
    if IsControl(tx) {
      var l := Ledger(map[], registry.entries, rewards.identities, rewards.bundles, rewards.settled);
      return if ControlAdmissible(ctx, l, tx) then Ok(0) else Err(ControlFault(ctx, l, tx));
    }
    var total := SumInputs(ctx, view, tx);
    if total.Err? { return total; }
    if total.value < OutputTotal(tx.outputs) { return Err(Contextual); }
    r := Ok(total.value - OutputTotal(tx.outputs));
  }

  method CountBundle(seen: set<Identity>, counts: WindowCounts, s: seq<Attestation>, limit: int)
    returns (r: Result<(set<Identity>, WindowCounts)>)
    ensures r == CountAttestations(seen, counts, s, 0, limit)
  {
    var seen', counts', k := seen, counts, 0;
    while k < |s|
      invariant 0 <= k <= |s|
      invariant CountAttestations(seen, counts, s, 0, limit) == CountAttestations(seen', counts', s, k, limit)
    {
      if IdentityOf(s[k]) in seen' { return Err(Contextual); }
      seen' := seen' + {IdentityOf(s[k])};
      var key := (s[k].window, s[k].verifier);
      counts' := counts'[key := Get(counts', key, 0) + 1];
      if counts'[key] > limit { return Err(Contextual); }
      k := k + 1;
    }
    r := Ok((seen', counts'));
  }

  method RecordInputs(spends: set<OutPoint>, inputs: seq<TxInput>) returns (r: Result<set<OutPoint>>)
    ensures r == RecordSpends(spends, inputs, 0)
  {
    var spends', k := spends, 0;
    while k < |inputs|
      invariant 0 <= k <= |inputs|
      invariant RecordSpends(spends, inputs, 0) == RecordSpends(spends', inputs, k)
    {
      if inputs[k].previousOutput in spends' { return Err(Contextual); }
      spends' := spends' + {inputs[k].previousOutput};
      k := k + 1;
    }
    r := Ok(spends');
  }

  method CheckFirst(ctx: Context, ghost st: Stage, seen: set<Identity>, counts: WindowCounts, spends: set<OutPoint>, tx: Transaction)
    returns (r: Result<(set<Identity>, WindowCounts, set<OutPoint>)>)
    requires Screened(ctx.o, tx)
    requires st.seen == seen && st.counts == counts && st.spends == spends
    ensures r.Err? ==> Prechecks(ctx, st, tx) == Err(r.fault)
    ensures r.Ok? ==> Prechecks(ctx, st, tx) == Ok(st.(seen := r.value.0, counts := r.value.1, spends := r.value.2))
  {
    hide CountAttestations, RecordSpends, Screened, TxStateless;
    var counted := Ok((seen, counts));
    if IsBundle(tx) {
      counted := CountBundle(seen, counts, BundleOf(ctx.o, tx).attestations, ctx.p.maxAttestationsPerVerifierWindow);
      if counted.Err? { return Err(counted.fault); }
    }
    var spent := Ok(spends);
    if !IsSpecial(tx) {
      spent := RecordInputs(spends, tx.inputs);
      if spent.Err? { return Err(spent.fault); }
    }
    r := Ok((counted.value.0, counted.value.1, spent.value));
  }

  /** Applies an admitted transaction to the staged views and reward state. */
  method ApplyEffect(ctx: Context, view: OverlayUtxoView, registry: InMemoryNodeRegistryView, rewards: Rewards, tx: Transaction, ghost st: Stage, fee: int)
    returns (rewards': Rewards)
    requires view.Valid() && Screened(ctx.o, tx)
    requires st.ledger == LedgerOf(view, registry, rewards) && TxFee(ctx, st.ledger, tx) == Ok(fee)
    modifies view, registry
    ensures view.Valid()
    ensures LedgerOf(view, registry, rewards') == Effect(ctx, st, tx, fee).ledger
  {
    hide BundleAdmissible, SettlementAdmissible, PaymentFee, AfterTx, TxStateless, Materialize;
    KindsExclusive(tx);
    rewards' := rewards;
    if IsSpecial(tx) {
      registry.ApplySpecialTransaction(ctx.o, tx, ctx.height, ctx.feeCount, ctx.p);
    } else if IsBundle(tx) {
      var b := BundleOf(ctx.o, tx);
      rewards' := rewards.(bundles := rewards.bundles + [b], identities := rewards.identities + IdentitySet(b.attestations));
    } else if IsSettlement(tx) {
      rewards' := rewards.(settled := rewards.settled + {SettlementOf(ctx.o, tx).epochIndex});
    } else {
      view.ApplyTransaction(tx, ctx.o.txid, ctx.height, false);
    }
  }

  /** The pass over a block computes the specified verdict and leaves the caller's views alone. */
  method ValidateBlockStateful(ctx: Context, view: OverlayUtxoView, registry: InMemoryNodeRegistryView, rewards: Rewards, block: Block)
    returns (r: Result<int>)
    requires view.Valid()
    requires block.transactions != [] && AllScreened(ctx.o, block.transactions)
    ensures r == FeesOf(BlockStage(ctx, LedgerOf(view, registry, rewards), block))
  {
    hide Prechecks, TxFee, Effect, CoinbaseOk, Materialize, TxStateless, IsCoinbase, HeaderLinks, SettlementOf;
    if !HeaderLinks(ctx, block) { return Err(Contextual); }
    var stagedView := view.Clone();
    var stagedRegistry := registry.Clone();
    var staged := rewards;
    var fees := 0;
    var spends: set<OutPoint> := {};
    var seen: set<Identity> := {};
    var counts: WindowCounts := map[];
    var settlement := None;
    ghost var st := InitialStage(LedgerOf(view, registry, rewards));
    var txs := block.transactions;
    var k := 1;
    while k < |txs|
      invariant 1 <= k <= |txs|
      invariant fresh(stagedView) && fresh(stagedRegistry) && stagedView.Valid() && stagedView.base == view.base
      invariant st == Stage(LedgerOf(stagedView, stagedRegistry, staged), fees, spends, seen, counts, settlement)
      invariant StageFrom(ctx, InitialStage(LedgerOf(view, registry, rewards)), txs, 1) == StageFrom(ctx, st, txs, k)
    {
      var tx := txs[k];
      var first := CheckFirst(ctx, st, seen, counts, spends, tx);
      if first.Err? { return Err(first.fault); }
      seen, counts, spends := first.value.0, first.value.1, first.value.2;
      ghost var checked := st.(seen := seen, counts := counts, spends := spends);
      var fee := ValidateTransactionStateful(ctx, stagedView, stagedRegistry, staged, tx);
      if fee.Err? { return Err(fee.fault); }
      fees := fees + fee.value;
      staged := ApplyEffect(ctx, stagedView, stagedRegistry, staged, tx, checked, fee.value);
      if IsSettlement(tx) && SettlementOf(ctx.o, tx).endHeight == ctx.height {
        settlement := Some(SettlementOf(ctx.o, tx));
      }
      EffectRest(ctx, checked, tx, fee.value);
      st := Effect(ctx, checked, tx, fee.value);
      k := k + 1;
    }
    if !CoinbaseOk(txs[0], ctx.height, fees, settlement, ctx.p) { return Err(Contextual); }
    r := Ok(fees);
  }

  lemma EffectRest(ctx: Context, st: Stage, tx: Transaction, fee: int)
    requires Screened(ctx.o, tx) && TxFee(ctx, st.ledger, tx) == Ok(fee)
    ensures var after := Effect(ctx, st, tx, fee);
            after == Stage(after.ledger, st.fees + fee, st.spends, st.seen, st.counts,
                           if IsSettlement(tx) && SettlementOf(ctx.o, tx).endHeight == ctx.height
                           then Some(SettlementOf(ctx.o, tx)) else st.settlement)
  {
    hide SpecialAccepted, BundleAdmissible, SettlementAdmissible, PaymentFee, ControlEffect, AfterTx;
    KindsExclusive(tx);
  }
}
