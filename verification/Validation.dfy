/** Transaction and block rules, stateless and contextual (validation.py). */
module Validation {
  import opened Prelude
  import opened Models
  import opened Oracles
  import opened Economics
  import opened Sorting
  import opened Assignment
  import opened Nodes
  import opened EpochSettlement
  import opened SettlementAnalysis
  import opened Utxo

  type Identity = (int, int, Text, Text)

  /** The chain state that validation reads and connecting a block changes. */
  datatype Ledger = Ledger(
    utxo: UtxoMap,
    registry: Registry,
    identities: set<Identity>,
    bundles: seq<Bundle>,
    settled: set<int>)

  /** The fixed surroundings of one block's validation. */
  datatype Context = Context(
    o: Oracle,
    p: Params,
    height: nat,
    seeds: map<int, Bytes>,
    feeCount: nat,
    enforceMaturity: bool,
    expectedPrevious: Option<Hash>,
    expectedBits: Option<int>,
    medianTimePast: int)

  const COINBASE := Ascii("coinbase")
  const TRUE := Ascii("true")

  predicate IsCoinbase(tx: Transaction) {
    tx.inputs == [] && Lookup(tx.metadata, COINBASE) == Some(TRUE)
  }

  function IdentityOf(a: Attestation): Identity {
    (a.epochIndex, a.window, a.candidate, a.verifier)
  }

  function Identities(s: seq<Attestation>): seq<Identity> {
    seq(|s|, i requires 0 <= i < |s| => IdentityOf(s[i]))
  }

  function IdentitySet(s: seq<Attestation>): set<Identity> {
    set a | a in s :: IdentityOf(a)
  }

  // ---- stateless rules ----

  predicate BundleStateless(o: Oracle, tx: Transaction) {
    && tx.inputs == [] && tx.outputs == []
    && o.parseBundle(tx.metadata).Some?
    && var b := o.parseBundle(tx.metadata).value;
       forall a :: a in b.attestations ==> a.epochIndex == b.epochIndex && a.window == b.window
  }

  predicate SettlementStateless(o: Oracle, tx: Transaction) {
    && tx.inputs == [] && tx.outputs == []
    && o.settlementShapeOk(tx.metadata)
    && o.parseSettlement(tx.metadata).Some?
    && var s := o.parseSettlement(tx.metadata).value;
       && s.rewardedCount == |s.entries|
       && s.distributed >= 0 && s.undistributed >= 0
       && (forall i :: 0 <= i < |s.entries| ==> s.entries[i].rank == i)
  }

  function Outpoints(inputs: seq<TxInput>): seq<OutPoint> {
    seq(|inputs|, i requires 0 <= i < |inputs| => inputs[i].previousOutput)
  }

  predicate PaymentStateless(o: Oracle, tx: Transaction) {
    && tx.outputs != [] && tx.locktime >= 0
    && (forall out :: out in tx.outputs ==> out.value >= 0 && out.recipient != [])
    && (!IsCoinbase(tx) ==>
          && tx.inputs != []
          && NoDuplicates(Outpoints(tx.inputs))
          && (forall i :: i in tx.inputs ==> i.previousOutput.index >= 0 && o.inputShapeOk(tx, i)))
  }

  /** `validate_transaction_stateless`. */
  predicate TxStateless(o: Oracle, tx: Transaction) {
    tx.version > 0 &&
    if IsSpecial(tx) then SpecialStateless(o, tx)
    else if IsBundle(tx) then BundleStateless(o, tx)
    else if IsSettlement(tx) then SettlementStateless(o, tx)
    else PaymentStateless(o, tx)
  }

  function BundleCount(txs: seq<Transaction>): nat {
    if txs == [] then 0 else (if IsBundle(txs[0]) then 1 else 0) + BundleCount(txs[1..])
  }

  function WeightTotal(o: Oracle, txs: seq<Transaction>): int {
    if txs == [] then 0 else o.weight(txs[0]) + WeightTotal(o, txs[1..])
  }

  /** `validate_block_stateless`; the Merkle root, timestamp and proof of work are the oracle's `headerOk`. */
  predicate BlockStateless(ctx: Context, block: Block) {
    var txs := block.transactions;
    && txs != []
    && IsCoinbase(txs[0])
    && (forall k :: 1 <= k < |txs| ==> !IsCoinbase(txs[k]))
    && (forall tx :: tx in txs ==> TxStateless(ctx.o, tx))
    && BundleCount(txs) <= ctx.p.maxBundlesPerBlock
    && WeightTotal(ctx.o, txs) <= ctx.p.maxBlockWeight
    && ctx.o.headerOk(block, ctx.medianTimePast)
  }

  // ---- contextual rules, one transaction ----

  predicate IsMature(entry: UtxoEntry, spendHeight: int, p: Params) {
    !entry.isCoinbase || spendHeight - entry.height >= p.coinbaseMaturity
  }

  /** Why input `i` may not be spent, if it may not. */
  predicate InputOk(ctx: Context, tx: Transaction, i: nat, entry: Option<UtxoEntry>) {
    && entry.Some?
    && (ctx.enforceMaturity ==> IsMature(entry.value, ctx.height, ctx.p))
    && ctx.o.inputSigned(tx, i, entry.value.output, ctx.height)
  }

  /** The value of inputs `k..`, when all of them may be spent. */
  function InputTotal(ctx: Context, utxo: UtxoMap, tx: Transaction, k: nat): Result<int>
    requires k <= |tx.inputs|
    decreases |tx.inputs| - k
  {
    if k == |tx.inputs| then Ok(0)
    else
      var entry := Lookup(utxo, tx.inputs[k].previousOutput);
      if !InputOk(ctx, tx, k, entry) then Err(Contextual)
      else
        var rest := InputTotal(ctx, utxo, tx, k + 1);
        if rest.Err? then rest else Ok(entry.value.output.value + rest.value)
  }

  function PaymentFee(ctx: Context, utxo: UtxoMap, tx: Transaction): Result<int> {
    var total := InputTotal(ctx, utxo, tx, 0);
    if total.Err? then total
    else if total.value < OutputTotal(tx.outputs) then Err(Contextual)
    else Ok(total.value - OutputTotal(tx.outputs))
  }

  /** Attestations of one verifier in one window. */
  function VerifierCount(s: seq<Attestation>, window: int, verifier: Text): nat {
    if s == [] then 0
    else (if s[0].window == window && s[0].verifier == verifier then 1 else 0) + VerifierCount(s[1..], window, verifier)
  }

  /** `bundle_rule_violations` finds nothing. */
  predicate BundleRulesOk(b: Bundle, p: Params) {
    && |b.attestations| <= p.maxAttestationsPerBundle
    && NoDuplicates(Identities(b.attestations))
    && (forall a :: a in b.attestations ==>
          VerifierCount(b.attestations, a.window, a.verifier) <= p.maxAttestationsPerVerifierWindow)
  }

  predicate WindowAssigned(ctx: Context, candidate: Text, seed: Bytes, window: int) {
    var windows := CheckWindows(ctx.o, candidate, seed, ctx.p);
    windows.Ok? && window in windows.value
  }

  predicate VerifierSeated(ctx: Context, active: Registry, seed: Bytes, a: Attestation) {
    var jury := Committee(ctx.o, a.candidate, SortedTexts(active.Keys), a.window, seed, ctx.p);
    jury.Ok? && a.verifier in jury.value
  }

  predicate AttestationAdmissible(ctx: Context, active: Registry, seed: Bytes, identities: set<Identity>, a: Attestation) {
    && IdentityOf(a) !in identities
    && a.candidate in active && a.verifier in active
    && WindowAssigned(ctx, a.candidate, seed, a.window)
    && VerifierSeated(ctx, active, seed, a)
    && active[a.verifier].nodeKey.Some?
    && ctx.o.attestationSigned(a, active[a.verifier].nodeKey.value)
  }

  /** `_validate_reward_attestation_bundle_transaction_with_params`. */
  predicate BundleAdmissible(ctx: Context, registry: Registry, identities: set<Identity>, b: Bundle) {
    && BundleRulesOk(b, ctx.p)
    && ctx.height >= ctx.p.nodeRewardActivation
    && b.epochIndex == CurrentEpoch(ctx.height, ctx.p)
    && b.epochIndex in ctx.seeds
    && var active := ActiveRewardNodes(registry, ctx.height, ctx.p);
       && b.submitter in active
       && (forall a :: a in b.attestations ==> AttestationAdmissible(ctx, active, ctx.seeds[b.epochIndex], identities, a))
  }

  function EpochAttestations(bundles: seq<Bundle>, epoch: int): seq<Attestation> {
    if bundles == [] then []
    else (if bundles[0].epochIndex == epoch then bundles[0].attestations else []) + EpochAttestations(bundles[1..], epoch)
  }

  function CloseHeight(epoch: int, p: Params): int {
    (epoch + 1) * p.epochLength - 1
  }

  function Recipients(entries: seq<Entry>): seq<(Text, Text)> {
    seq(|entries|, i requires 0 <= i < |entries| => (entries[i].nodeId, entries[i].payout))
  }

  /** What the settlement of an epoch is derived from, at block `ctx.height`. */
  function EpochAt(ctx: Context, registry: Registry, bundles: seq<Bundle>, seed: Bytes, epoch: int): Epoch {
    Epoch(ctx.o, ActiveRewardNodes(registry, ctx.height, ctx.p), seed, EpochAttestations(bundles, epoch), ctx.p)
  }

  /** `_validate_reward_settle_epoch_transaction_with_params`. */
  predicate SettlementAdmissible(ctx: Context, registry: Registry, bundles: seq<Bundle>, settled: set<int>, s: Settlement) {
    && ctx.height >= ctx.p.nodeRewardActivation
    && s.epochIndex !in settled
    && ctx.height == s.endHeight
    && s.epochIndex >= 0
    && s.endHeight == CloseHeight(s.epochIndex, ctx.p)
    && s.startHeight == s.epochIndex * ctx.p.epochLength
    && s.epochIndex in ctx.seeds && s.seed == ctx.seeds[s.epochIndex]
    && Sum(Rewards(s.entries)) == s.distributed
    && var pool := SubsidySplit(ctx.height, ctx.p).1;
       && s.distributed + s.undistributed == pool
       && s.rewardedCount == |s.entries|
       && NoDuplicates(Recipients(s.entries))
       && if s.entries != [] then
            DerivedEntries(EpochAt(ctx, registry, bundles, s.seed, s.epochIndex), s.distributed) == Ok(s.entries)
          else s.undistributed == pool
  }

  // ---- checks that raise instead of refusing ----

  /** The window assignment of the first attestation is asked for more windows than there are. */
  predicate BundleRaises(ctx: Context, registry: Registry, identities: set<Identity>, b: Bundle) {
    && BundleRulesOk(b, ctx.p)
    && ctx.height >= ctx.p.nodeRewardActivation
    && b.epochIndex == CurrentEpoch(ctx.height, ctx.p)
    && b.epochIndex in ctx.seeds
    && var active := ActiveRewardNodes(registry, ctx.height, ctx.p);
       && b.submitter in active
       && b.attestations != []
       && IdentityOf(b.attestations[0]) !in identities
       && b.attestations[0].candidate in active && b.attestations[0].verifier in active
       && ctx.p.targetChecks > ctx.p.checkWindows
  }

  /** A negative epoch, or recipients that cannot be derived, at the height the settlement declares. */
  predicate SettlementRaises(ctx: Context, registry: Registry, bundles: seq<Bundle>, settled: set<int>, s: Settlement) {
    && ctx.height >= ctx.p.nodeRewardActivation
    && s.epochIndex !in settled
    && ctx.height == s.endHeight
    && (s.epochIndex < 0 ||
        (&& s.endHeight == CloseHeight(s.epochIndex, ctx.p)
         && s.startHeight == s.epochIndex * ctx.p.epochLength
         && s.epochIndex in ctx.seeds && s.seed == ctx.seeds[s.epochIndex]
         && Sum(Rewards(s.entries)) == s.distributed
         && s.distributed + s.undistributed == SubsidySplit(ctx.height, ctx.p).1
         && s.rewardedCount == |s.entries|
         && NoDuplicates(Recipients(s.entries))
         && s.entries != []
         && DerivedEntries(EpochAt(ctx, registry, bundles, s.seed, s.epochIndex), s.distributed).Err?))
  }

  /** A control transaction that is not admitted is refused, or its check raises a `ValueError`. */
  function ControlFault(ctx: Context, ledger: Ledger, tx: Transaction): Fault {
    if IsSpecial(tx) then
      if SpecialStateless(ctx.o, tx) && SpecialRaises(ctx.o, tx, ledger.registry, ctx.height, ctx.feeCount, ctx.p) then Malformed else Contextual
    else if IsBundle(tx) then
      var b := ctx.o.parseBundle(tx.metadata);
      if b.Some? && BundleRaises(ctx, ledger.registry, ledger.identities, b.value) then Malformed else Contextual
    else
      var s := ctx.o.parseSettlement(tx.metadata);
      if s.Some? && SettlementRaises(ctx, ledger.registry, ledger.bundles, ledger.settled, s.value) then Malformed else Contextual
  }

  /** The two verdicts exclude each other: what raises is never admitted. */
  lemma RaisesMeansRefused(ctx: Context, ledger: Ledger, tx: Transaction)
    requires IsControl(tx) && ControlFault(ctx, ledger, tx) == Malformed
    ensures !ControlAdmissible(ctx, ledger, tx)
  {
    hide BundleRulesOk, ActiveRewardNodes, Committee, SettlementEntries, AdaptiveFee, NoDuplicates;
    if IsBundle(tx) && !IsSpecial(tx) {
      var b := ctx.o.parseBundle(tx.metadata).value;
      assert b.attestations[0] in b.attestations;
    }
  }

  predicate OutputsActive(ctx: Context, tx: Transaction) {
    forall out :: out in tx.outputs ==> ctx.o.recipientActive(out.recipient, ctx.height)
  }

  /** `validate_transaction_stateful` for a control transaction. */
  predicate ControlAdmissible(ctx: Context, ledger: Ledger, tx: Transaction) {
    if IsSpecial(tx) then SpecialAccepted(ctx.o, tx, ledger.registry, ctx.height, ctx.feeCount, ctx.p)
    else if IsBundle(tx) then
      && ctx.o.parseBundle(tx.metadata).Some?
      && BundleAdmissible(ctx, ledger.registry, ledger.identities, ctx.o.parseBundle(tx.metadata).value)
    else
      && ctx.o.parseSettlement(tx.metadata).Some?
      && SettlementAdmissible(ctx, ledger.registry, ledger.bundles, ledger.settled, ctx.o.parseSettlement(tx.metadata).value)
  }

  predicate IsControl(tx: Transaction) {
    IsSpecial(tx) || IsBundle(tx) || IsSettlement(tx)
  }

  /** `validate_transaction_stateful`: the fee, or the rule that was broken. */
  function TxFee(ctx: Context, ledger: Ledger, tx: Transaction): Result<int> {
    if !OutputsActive(ctx, tx) then Err(Contextual)
    else if IsCoinbase(tx) then Ok(0)
    else if IsControl(tx) then
      if ControlAdmissible(ctx, ledger, tx) then Ok(0) else Err(ControlFault(ctx, ledger, tx))
    else PaymentFee(ctx, ledger.utxo, tx)
  }

  // ---- contextual rules, one block ----

  type WindowCounts = map<(int, Text), int>

  /** What `validate_block_stateful` accumulates while it walks the transactions. */
  datatype Stage = Stage(
    ledger: Ledger,
    fees: int,
    spends: set<OutPoint>,
    seen: set<Identity>,
    counts: WindowCounts,
    settlement: Option<Settlement>)

  /** The duplicate and emission checks over attestations `k..` of one bundle. */
  function CountAttestations(seen: set<Identity>, counts: WindowCounts, s: seq<Attestation>, k: nat, limit: int)
    : Result<(set<Identity>, WindowCounts)>
    requires k <= |s|
    decreases |s| - k
  {
    if k == |s| then Ok((seen, counts))
    else
      var key := (s[k].window, s[k].verifier);
      var n := Get(counts, key, 0) + 1;
      if IdentityOf(s[k]) in seen || n > limit then Err(Contextual)
      else CountAttestations(seen + {IdentityOf(s[k])}, counts[key := n], s, k + 1, limit)
  }

  /** The double-spend check over inputs `k..`. */
  function RecordSpends(spends: set<OutPoint>, inputs: seq<TxInput>, k: nat): Result<set<OutPoint>>
    requires k <= |inputs|
    decreases |inputs| - k
  {
    if k == |inputs| then Ok(spends)
    else if inputs[k].previousOutput in spends then Err(Contextual)
    else RecordSpends(spends + {inputs[k].previousOutput}, inputs, k + 1)
  }

  /** A transaction after the first of a block that passed the stateless rules. */
  predicate Screened(o: Oracle, tx: Transaction) {
    TxStateless(o, tx) && !IsCoinbase(tx)
  }

  function BundleOf(o: Oracle, tx: Transaction): Bundle
    requires IsBundle(tx) && Screened(o, tx)
  {
    KindsExclusive(tx);
    o.parseBundle(tx.metadata).value
  }

  function SettlementOf(o: Oracle, tx: Transaction): Settlement
    requires IsSettlement(tx) && Screened(o, tx)
  {
    KindsExclusive(tx);
    o.parseSettlement(tx.metadata).value
  }

  /** The bookkeeping that precedes a transaction's own validation. */
  function Prechecks(ctx: Context, st: Stage, tx: Transaction): Result<Stage>
    requires Screened(ctx.o, tx)
  {
    var counted :=
      if IsBundle(tx) then
        CountAttestations(st.seen, st.counts, BundleOf(ctx.o, tx).attestations, 0, ctx.p.maxAttestationsPerVerifierWindow)
      else Ok((st.seen, st.counts));
    if counted.Err? then Err(counted.fault)
    else
      var spent := if IsSpecial(tx) then Ok(st.spends) else RecordSpends(st.spends, tx.inputs, 0);
      if spent.Err? then Err(spent.fault)
      else Ok(st.(seen := counted.value.0, counts := counted.value.1, spends := spent.value))
  }

  /** The effect of an admitted control transaction on the chain state. */
  function ControlEffect(ctx: Context, l: Ledger, tx: Transaction): Ledger
    requires Screened(ctx.o, tx) && IsControl(tx) && ControlAdmissible(ctx, l, tx)
  {
    KindsExclusive(tx);
    if IsSpecial(tx) then l.(registry := ApplySpecial(ctx.o, tx, l.registry, ctx.height, ctx.feeCount, ctx.p))
    else if IsBundle(tx) then
      var b := BundleOf(ctx.o, tx);
      l.(bundles := l.bundles + [b], identities := l.identities + IdentitySet(b.attestations))
    else l.(settled := l.settled + {SettlementOf(ctx.o, tx).epochIndex})
  }

  /** The staged effect of a transaction that passed with `fee`. */
  function Effect(ctx: Context, st: Stage, tx: Transaction, fee: int): Stage
    requires Screened(ctx.o, tx) && TxFee(ctx, st.ledger, tx) == Ok(fee)
  {
    var st := st.(fees := st.fees + fee);
    if IsControl(tx) then
      var s := st.(ledger := ControlEffect(ctx, st.ledger, tx));
      if IsSettlement(tx) && SettlementOf(ctx.o, tx).endHeight == ctx.height then s.(settlement := Some(SettlementOf(ctx.o, tx))) else s
    else st.(ledger := st.ledger.(utxo := AfterTx(st.ledger.utxo, tx, ctx.o.txid, ctx.height, false)))
  }

  function StageOne(ctx: Context, st: Stage, tx: Transaction): Result<Stage>
    requires Screened(ctx.o, tx)
  {
    var checked := Prechecks(ctx, st, tx);
    if checked.Err? then checked
    else
      var fee := TxFee(ctx, checked.value.ledger, tx);
      if fee.Err? then Err(fee.fault) else Ok(Effect(ctx, checked.value, tx, fee.value))
  }

  predicate AllScreened(o: Oracle, txs: seq<Transaction>) {
    forall i :: 1 <= i < |txs| ==> Screened(o, txs[i])
  }

  function StageFrom(ctx: Context, st: Stage, txs: seq<Transaction>, k: nat): Result<Stage>
    requires AllScreened(ctx.o, txs) && 1 <= k <= |txs|
    decreases |txs| - k
  {
    if k == |txs| then Ok(st)
    else
      var next := StageOne(ctx, st, txs[k]);
      if next.Err? then next else StageFrom(ctx, next.value, txs, k + 1)
  }

  function InitialStage(ledger: Ledger): Stage {
    Stage(ledger, 0, {}, {}, map[], None)
  }

  predicate EntryRankLe(a: Entry, b: Entry) {
    a.rank <= b.rank
  }

  /** The coinbase outputs owed to reward nodes. */
  function OwedEntries(settlement: Option<Settlement>): seq<Entry> {
    if settlement.None? then [] else Sort(EntryRankLe, settlement.value.entries)
  }

  function DistributedBy(settlement: Option<Settlement>): int {
    if settlement.None? then 0 else settlement.value.distributed
  }

  /** `_validate_coinbase_distribution`. */
  predicate CoinbaseOk(coinbase: Transaction, height: nat, fees: int, settlement: Option<Settlement>, p: Params) {
    var split := SubsidySplit(height, p);
    var owed := OwedEntries(settlement);
    && coinbase.outputs != []
    && (!ClosesEpoch(height, p) ==> split.1 == 0 && owed == [])
    && |coinbase.outputs| == 1 + |owed|
    && coinbase.outputs[0].value == split.0 + fees
    && (forall i :: 0 <= i < |owed| ==>
          coinbase.outputs[i + 1].recipient == owed[i].payout && coinbase.outputs[i + 1].value == owed[i].reward)
    && (owed != [] ==> DistributedBy(settlement) == split.1)
    && (owed == [] ==> DistributedBy(settlement) == 0)
  }

  predicate HeaderLinks(ctx: Context, block: Block) {
    && (ctx.expectedPrevious.Some? ==> block.header.previousHash == ctx.expectedPrevious.value)
    && (ctx.expectedBits.Some? ==> block.header.bits == ctx.expectedBits.value)
  }

  /** `validate_block_stateful`, down to the final stage, for a block that passed the stateless rules. */
  function BlockStage(ctx: Context, ledger: Ledger, block: Block): Result<Stage>
    requires block.transactions != [] && AllScreened(ctx.o, block.transactions)
  {
    if !HeaderLinks(ctx, block) then Err(Contextual)
    else
      var st := StageFrom(ctx, InitialStage(ledger), block.transactions, 1);
      if st.Err? then st
      else if CoinbaseOk(block.transactions[0], ctx.height, st.value.fees, st.value.settlement, ctx.p) then st
      else Err(Contextual)
  }

  /** The whole of `validate_block`: the final stage of an accepted block. */
  function ValidatedStage(ctx: Context, ledger: Ledger, block: Block): Result<Stage> {
    if !BlockStateless(ctx, block) then Err(Stateless) else BlockStage(ctx, ledger, block)
  }

  predicate Accepts(ctx: Context, ledger: Ledger, block: Block) {
    ValidatedStage(ctx, ledger, block).Ok?
  }

  /** The chain state after connecting an accepted block; the UTXO set is rebuilt from the block, coinbase included. */
  function Connect(ctx: Context, ledger: Ledger, block: Block): Ledger
    requires Accepts(ctx, ledger, block)
  {
    var st := ValidatedStage(ctx, ledger, block).value;
    st.ledger.(utxo := AfterBlock(ledger.utxo, block, ctx.o.txid, ctx.height))
  }
}
