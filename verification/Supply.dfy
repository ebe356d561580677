/** Whole-chain value conservation: economics.py, validation.py and utxo.py put together. */
module Supply {
  import opened Prelude
  import opened Models
  import opened Oracles
  import opened Economics
  import opened Nodes
  import opened Sorting
  import opened EpochSettlement
  import opened Utxo
  import opened UtxoValue
  import opened Validation

  // ---- one payment ----

  lemma {:induction false} InputsValue(ctx: Context, utxo: UtxoMap, tx: Transaction, k: nat)
    requires k <= |tx.inputs| && NoDuplicates(Outpoints(tx.inputs))
    requires InputTotal(ctx, utxo, tx, k).Ok?
    ensures Value(Restrict(utxo, Spends(tx.inputs[k..]))) == InputTotal(ctx, utxo, tx, k).value
    decreases |tx.inputs| - k
  {
    hide InputOk, Value;
    if k == |tx.inputs| {
      assert Restrict(utxo, Spends(tx.inputs[k..])) == map[];
      ValueEmpty();
    } else {
      InputsValue(ctx, utxo, tx, k + 1);
      var o := tx.inputs[k].previousOutput;
      InputKnown(ctx, utxo, tx, k);
      SpendsHead(tx.inputs, k);
      var here := Restrict(utxo, Spends(tx.inputs[k..]));
      ValueRemove(here, o);
      assert here - {o} == Restrict(utxo, Spends(tx.inputs[k + 1..]));
    }
  }

  lemma InputKnown(ctx: Context, utxo: UtxoMap, tx: Transaction, k: nat)
    requires k < |tx.inputs| && InputTotal(ctx, utxo, tx, k).Ok?
    ensures tx.inputs[k].previousOutput in utxo
  {
  }

  lemma SpendsHead(inputs: seq<TxInput>, k: nat)
    requires k < |inputs| && NoDuplicates(Outpoints(inputs))
    ensures Spends(inputs[k..]) == Spends(inputs[k + 1..]) + {inputs[k].previousOutput}
    ensures inputs[k].previousOutput !in Spends(inputs[k + 1..])
  {
    assert inputs[k..] == [inputs[k]] + inputs[k + 1..];
    forall i | i in inputs[k + 1..] ensures i.previousOutput != inputs[k].previousOutput {
      var j :| k + 1 <= j < |inputs| && inputs[j] == i;
      assert Outpoints(inputs)[j] != Outpoints(inputs)[k];
    }
  }

  /** Entries of `m` that a transaction would overwrite. */
  ghost function Overwritten(m: UtxoMap, tx: Transaction, txid: Txid): UtxoMap {
    Restrict(m - Spends(tx.inputs), Creates(txid(tx), tx.outputs, 0, false).Keys)
  }

  lemma CreatesKeys(txid: Hash, outputs: seq<TxOutput>, h: int, cb: bool, h': int, cb': bool)
    ensures Creates(txid, outputs, h, cb).Keys == Creates(txid, outputs, h', cb').Keys
  {
    forall o ensures o in Creates(txid, outputs, h, cb) <==> o in Creates(txid, outputs, h', cb') {
    }
  }

  /** A payment removes its fee, and any value it overwrites, from the set. */
  lemma PaymentValue(ctx: Context, utxo: UtxoMap, tx: Transaction, fee: int, height: int)
    requires NoDuplicates(Outpoints(tx.inputs)) && PaymentFee(ctx, utxo, tx) == Ok(fee)
    ensures Value(AfterTx(utxo, tx, ctx.o.txid, height, false)) == Value(utxo) - fee - Value(Overwritten(utxo, tx, ctx.o.txid))
  {
    hide Value, InputTotal, Spends, Creates, Restrict;
    var kept := utxo - Spends(tx.inputs);
    var created := Creates(ctx.o.txid(tx), tx.outputs, height, false);
    InputsValue(ctx, utxo, tx, 0);
    assert tx.inputs[0..] == tx.inputs;
    ValueWithout(utxo, Spends(tx.inputs));
    ValueOverwrite(kept, created);
    ValueCreates(ctx.o.txid(tx), tx.outputs, height, false);
    CreatesKeys(ctx.o.txid(tx), tx.outputs, height, false, 0, false);
  }

  lemma AfterTxNonNegative(m: UtxoMap, tx: Transaction, txid: Txid, height: int, cb: bool)
    requires NonNegative(m) && (forall out :: out in tx.outputs ==> out.value >= 0)
    ensures NonNegative(AfterTx(m, tx, txid, height, cb))
  {
    var after := AfterTx(m, tx, txid, height, cb);
    forall o | o in after ensures after[o].output.value >= 0 {
      if o in Creates(txid(tx), tx.outputs, height, cb) {
        var i :| 0 <= i < |tx.outputs| && o == OutPoint(txid(tx), i);
        assert tx.outputs[i] in tx.outputs;
      }
    }
  }

  lemma ControlInert(o: Oracle, tx: Transaction, m: UtxoMap, txid: Txid, height: int, cb: bool)
    requires Screened(o, tx) && IsControl(tx)
    ensures tx.inputs == [] && tx.outputs == []
    ensures AfterTx(m, tx, txid, height, cb) == m
  {
    KindsExclusive(tx);
  }

  lemma PaymentShape(o: Oracle, tx: Transaction)
    requires Screened(o, tx) && !IsControl(tx)
    ensures NoDuplicates(Outpoints(tx.inputs)) && (forall out :: out in tx.outputs ==> out.value >= 0)
  {
  }

  // ---- one staged transaction ----

  /** How one staged transaction moves the UTXO set and the fee total. */
  lemma StageOneUtxo(ctx: Context, st: Stage, tx: Transaction)
    requires Screened(ctx.o, tx) && StageOne(ctx, st, tx).Ok?
    ensures var next := StageOne(ctx, st, tx).value;
            && next.ledger.utxo == AfterTx(st.ledger.utxo, tx, ctx.o.txid, ctx.height, false)
            && (IsControl(tx) ==> next.fees == st.fees && next.ledger.utxo == st.ledger.utxo)
            && (!IsControl(tx) ==> PaymentFee(ctx, st.ledger.utxo, tx) == Ok(next.fees - st.fees))
  {
    hide ControlAdmissible, PaymentFee, AfterTx, CountAttestations, RecordSpends, TxStateless;
    var checked := Prechecks(ctx, st, tx).value;
    if IsControl(tx) {
      ControlUtxo(ctx, checked.ledger, tx);
      ControlInert(ctx.o, tx, st.ledger.utxo, ctx.o.txid, ctx.height, false);
    }
  }

  lemma ControlUtxo(ctx: Context, l: Ledger, tx: Transaction)
    requires Screened(ctx.o, tx) && IsControl(tx) && ControlAdmissible(ctx, l, tx)
    ensures ControlEffect(ctx, l, tx).utxo == l.utxo
  {
  }

  /** Fees plus unspent value never grow while a block is staged. */
  lemma StageOneValue(ctx: Context, st: Stage, tx: Transaction)
    requires Screened(ctx.o, tx) && StageOne(ctx, st, tx).Ok? && NonNegative(st.ledger.utxo)
    ensures var next := StageOne(ctx, st, tx).value;
            && NonNegative(next.ledger.utxo)
            && Value(next.ledger.utxo) + next.fees <= Value(st.ledger.utxo) + st.fees
            && (Overwritten(st.ledger.utxo, tx, ctx.o.txid) == map[] || IsControl(tx) ==>
                  Value(next.ledger.utxo) + next.fees == Value(st.ledger.utxo) + st.fees)
  {
    hide StageOne, Value, PaymentFee, AfterTx, Overwritten, Screened;
    StageOneUtxo(ctx, st, tx);
    if !IsControl(tx) {
      var next := StageOne(ctx, st, tx).value;
      PaymentShape(ctx.o, tx);
      PaymentValue(ctx, st.ledger.utxo, tx, next.fees - st.fees, ctx.height);
      AfterTxNonNegative(st.ledger.utxo, tx, ctx.o.txid, ctx.height, false);
      OverwrittenNonNegative(st.ledger.utxo, tx, ctx.o.txid);
      ValueEmpty();
    }
  }

  lemma OverwrittenNonNegative(m: UtxoMap, tx: Transaction, txid: Txid)
    requires NonNegative(m)
    ensures Value(Overwritten(m, tx, txid)) >= 0
  {
    ValueNonNegative(Overwritten(m, tx, txid));
  }

  lemma {:induction false} StageValue(ctx: Context, st: Stage, txs: seq<Transaction>, k: nat)
    requires AllScreened(ctx.o, txs) && 1 <= k <= |txs| && StageFrom(ctx, st, txs, k).Ok?
    requires NonNegative(st.ledger.utxo)
    ensures var end := StageFrom(ctx, st, txs, k).value;
            NonNegative(end.ledger.utxo) && Value(end.ledger.utxo) + end.fees <= Value(st.ledger.utxo) + st.fees
    decreases |txs| - k
  {
    hide StageOne, Value;
    if k < |txs| {
      StageOneValue(ctx, st, txs[k]);
      StageValue(ctx, StageOne(ctx, st, txs[k]).value, txs, k + 1);
    }
  }

  // ---- the block as connected, coinbase first ----

  /** Every entry of `a` carries the value that `s` or the coinbase outputs `c` give it. */
  ghost predicate Under(a: UtxoMap, s: UtxoMap, c: UtxoMap) {
    forall o :: o in a ==>
      (o in s && a[o].output.value == s[o].output.value) || (o in c && a[o].output.value == c[o].output.value)
  }

  lemma UnderStep(a: UtxoMap, s: UtxoMap, c: UtxoMap, tx: Transaction, txid: Txid, height: int)
    requires Under(a, s, c)
    ensures Under(AfterTx(a, tx, txid, height, false), AfterTx(s, tx, txid, height, false), c)
  {
  }

  lemma UnderValue(a: UtxoMap, s: UtxoMap, c: UtxoMap)
    requires Under(a, s, c) && NonNegative(s) && NonNegative(c)
    ensures Value(a) <= Value(s) + Value(c)
  {
    hide Value;
    var fromS := set o | o in a && o in s && a[o].output.value == s[o].output.value;
    ValueWithout(a, fromS);
    ValueSubmap(Restrict(a, fromS), s);
    ValueSubmap(a - fromS, c);
  }

  lemma {:induction false} AppliedUnder(ctx: Context, st: Stage, txs: seq<Transaction>, k: nat, a: UtxoMap, c: UtxoMap)
    requires AllScreened(ctx.o, txs) && 1 <= k <= |txs| && StageFrom(ctx, st, txs, k).Ok?
    requires Under(a, st.ledger.utxo, c)
    ensures Under(AfterTxs(a, txs, k, ctx.o.txid, ctx.height), StageFrom(ctx, st, txs, k).value.ledger.utxo, c)
    decreases |txs| - k
  {
    hide StageOne, AfterTx, Under;
    if k < |txs| {
      StageOneUtxo(ctx, st, txs[k]);
      UnderStep(a, st.ledger.utxo, c, txs[k], ctx.o.txid, ctx.height);
      AppliedUnder(ctx, StageOne(ctx, st, txs[k]).value, txs, k + 1, AfterTx(a, txs[k], ctx.o.txid, ctx.height, false), c);
    }
  }

  // ---- the coinbase ----

  /** A settlement staged in a block paid what its entries add up to, in rank order. */
  ghost predicate SettlementSound(s: Settlement) {
    && Sum(Rewards(s.entries)) == s.distributed
    && (forall i :: 0 <= i < |s.entries| ==> s.entries[i].rank == i)
  }

  lemma StageOneSettlement(ctx: Context, st: Stage, tx: Transaction)
    requires Screened(ctx.o, tx) && StageOne(ctx, st, tx).Ok?
    requires st.settlement.Some? ==> SettlementSound(st.settlement.value)
    ensures var next := StageOne(ctx, st, tx).value;
            next.settlement.Some? ==> SettlementSound(next.settlement.value)
  {
    hide PaymentFee, AfterTx, CountAttestations, RecordSpends, SpecialAccepted, BundleAdmissible;
    KindsExclusive(tx);
  }

  lemma {:induction false} StageSettlement(ctx: Context, st: Stage, txs: seq<Transaction>, k: nat)
    requires AllScreened(ctx.o, txs) && 1 <= k <= |txs| && StageFrom(ctx, st, txs, k).Ok?
    requires st.settlement.Some? ==> SettlementSound(st.settlement.value)
    ensures var end := StageFrom(ctx, st, txs, k).value;
            end.settlement.Some? ==> SettlementSound(end.settlement.value)
    decreases |txs| - k
  {
    hide StageOne, SettlementSound;
    if k < |txs| {
      StageOneSettlement(ctx, st, txs[k]);
      StageSettlement(ctx, StageOne(ctx, st, txs[k]).value, txs, k + 1);
    }
  }

  /** Entries already in rank order are paid in the order they are listed. */
  lemma RankOrderKept(entries: seq<Entry>)
    requires forall i :: 0 <= i < |entries| ==> entries[i].rank == i
    ensures Sort(EntryRankLe, entries) == entries
  {
    assert Sorted(EntryRankLe, entries);
    SortSorts(EntryRankLe, entries);
    forall a, b | a in multiset(entries) && b in multiset(entries) && EntryRankLe(a, b) && EntryRankLe(b, a) ensures a == b {
      assert a in entries && b in entries;
    }
    StrictSame(EntryRankLe, entries, Sort(EntryRankLe, entries));
    SortedUnique(EntryRankLe, entries, Sort(EntryRankLe, entries));
  }

  lemma {:induction false} OutputTotalMatches(outputs: seq<TxOutput>, entries: seq<Entry>)
    requires |outputs| == |entries| && (forall i :: 0 <= i < |entries| ==> outputs[i].value == entries[i].reward)
    ensures OutputTotal(outputs) == Sum(Rewards(entries))
  {
    if outputs != [] {
      OutputTotalMatches(outputs[1..], entries[1..]);
      assert Rewards(entries)[1..] == Rewards(entries[1..]);
    }
  }

  /** A valid coinbase pays out exactly its subsidy, the block's fees and the settled rewards. */
  lemma CoinbaseTotal(coinbase: Transaction, height: nat, fees: int, settlement: Option<Settlement>, p: Params)
    requires CoinbaseOk(coinbase, height, fees, settlement, p)
    requires settlement.Some? ==> SettlementSound(settlement.value)
    ensures OutputTotal(coinbase.outputs) == SubsidySplit(height, p).0 + fees + DistributedBy(settlement)
    ensures DistributedBy(settlement) == 0 || DistributedBy(settlement) == SubsidySplit(height, p).1
  {
    hide SubsidySplit, Sort;
    var owed := OwedEntries(settlement);
    if settlement.Some? { RankOrderKept(settlement.value.entries); }
    OutputTotalMatches(coinbase.outputs[1..], owed);
  }

  // ---- one block ----

  /** What an accepted block issues: its miner subsidy and the node rewards it distributes. */
  function IssuedBy(ctx: Context, ledger: Ledger, block: Block): int
    requires Accepts(ctx, ledger, block)
  {
    SubsidySplit(ctx.height, ctx.p).0 + DistributedBy(ValidatedStage(ctx, ledger, block).value.settlement)
  }

  function CoinbaseOutputs(ctx: Context, block: Block): UtxoMap
    requires block.transactions != []
  {
    Creates(ctx.o.txid(block.transactions[0]), block.transactions[0].outputs, ctx.height, true)
  }

  lemma AcceptedParts(ctx: Context, ledger: Ledger, block: Block)
    requires Accepts(ctx, ledger, block)
    ensures block.transactions != [] && AllScreened(ctx.o, block.transactions)
    ensures block.transactions[0].inputs == []
    ensures StageFrom(ctx, InitialStage(ledger), block.transactions, 1) == ValidatedStage(ctx, ledger, block)
    ensures var st := ValidatedStage(ctx, ledger, block).value;
            CoinbaseOk(block.transactions[0], ctx.height, st.fees, st.settlement, ctx.p)
    ensures NonNegative(CoinbaseOutputs(ctx, block))
  {
    hide StageFrom, CoinbaseOk;
    var coinbase := block.transactions[0];
    assert TxStateless(ctx.o, coinbase);
    forall out | out in coinbase.outputs ensures out.value >= 0 {
      CoinbaseOutputsNonNegative(ctx.o, coinbase);
    }
    AfterTxNonNegative(map[], coinbase, ctx.o.txid, ctx.height, true);
    assert AfterTx(map[], coinbase, ctx.o.txid, ctx.height, true) == CoinbaseOutputs(ctx, block);
  }

  lemma CoinbaseOutputsNonNegative(o: Oracle, tx: Transaction)
    requires TxStateless(o, tx)
    ensures forall out :: out in tx.outputs ==> out.value >= 0
  {
  }

  /** The block's issuance, spelled out, and the node reward is all or nothing. */
  lemma BlockIssuance(ctx: Context, ledger: Ledger, block: Block)
    requires Accepts(ctx, ledger, block)
    ensures var st := ValidatedStage(ctx, ledger, block).value;
            Value(CoinbaseOutputs(ctx, block)) == st.fees + IssuedBy(ctx, ledger, block)
    ensures IssuedBy(ctx, ledger, block) in
              {SubsidySplit(ctx.height, ctx.p).0, SubsidySplit(ctx.height, ctx.p).0 + SubsidySplit(ctx.height, ctx.p).1}
  {
    hide Value, StageFrom, ValidatedStage, CoinbaseOk, SubsidySplit;
    AcceptedParts(ctx, ledger, block);
    var st := ValidatedStage(ctx, ledger, block).value;
    StageSettlement(ctx, InitialStage(ledger), block.transactions, 1);
    CoinbaseTotal(block.transactions[0], ctx.height, st.fees, st.settlement, ctx.p);
    ValueCreates(ctx.o.txid(block.transactions[0]), block.transactions[0].outputs, ctx.height, true);
  }

  lemma ConnectedUtxo(ctx: Context, ledger: Ledger, block: Block)
    requires Accepts(ctx, ledger, block)
    ensures block.transactions != []
    ensures Connect(ctx, ledger, block).utxo
            == AfterTxs(ledger.utxo + CoinbaseOutputs(ctx, block), block.transactions, 1, ctx.o.txid, ctx.height)
  {
    hide ValidatedStage;
    AcceptedParts(ctx, ledger, block);
    assert AfterTx(ledger.utxo, block.transactions[0], ctx.o.txid, ctx.height, true) == ledger.utxo + CoinbaseOutputs(ctx, block);
  }

  /** No accepted block creates more value than it issues, even when transaction ids repeat. */
  lemma BlockNeverInflates(ctx: Context, ledger: Ledger, block: Block)
    requires Accepts(ctx, ledger, block) && NonNegative(ledger.utxo)
    ensures NonNegative(Connect(ctx, ledger, block).utxo)
    ensures Value(Connect(ctx, ledger, block).utxo) <= Value(ledger.utxo) + IssuedBy(ctx, ledger, block)
  {
    hide Value, StageFrom, ValidatedStage, AfterTxs, CoinbaseOk, IssuedBy, Connect;
    AcceptedParts(ctx, ledger, block);
    BlockIssuance(ctx, ledger, block);
    ConnectedUtxo(ctx, ledger, block);
    var start := InitialStage(ledger);
    var c := CoinbaseOutputs(ctx, block);
    StageValue(ctx, start, block.transactions, 1);
    AppliedUnder(ctx, start, block.transactions, 1, ledger.utxo + c, c);
    var end := ValidatedStage(ctx, ledger, block).value.ledger.utxo;
    UnderValue(Connect(ctx, ledger, block).utxo, end, c);
    UnderNonNegative(Connect(ctx, ledger, block).utxo, end, c);
  }

  lemma UnderNonNegative(a: UtxoMap, s: UtxoMap, c: UtxoMap)
    requires Under(a, s, c) && NonNegative(s) && NonNegative(c)
    ensures NonNegative(a)
  {
  }
}
