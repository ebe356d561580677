/** Exactly when a block conserves value, and the supply of every accepted chain. */
module Conservation {
  import opened Prelude
  import opened Models
  import opened Oracles
  import opened Economics
  import opened Nodes
  import opened EpochSettlement
  import opened Utxo
  import opened UtxoValue
  import opened Validation
  import opened Supply

  // ---- the transactions after the coinbase, replayed without it ----

  /** Value that transactions `k..` write over, starting from the set `s`. */
  ghost function TailLoss(s: UtxoMap, txs: seq<Transaction>, k: nat, txid: Txid, height: int): int
    requires k <= |txs|
    decreases |txs| - k
  {
    if k == |txs| then 0
    else Value(Overwritten(s, txs[k], txid)) + TailLoss(AfterTx(s, txs[k], txid, height, false), txs, k + 1, txid, height)
  }

  /** No transaction from `k` on writes over an unspent output that is worth something. */
  ghost predicate TailHarmless(s: UtxoMap, txs: seq<Transaction>, k: nat, txid: Txid, height: int)
    requires k <= |txs|
    decreases |txs| - k
  {
    k < |txs| ==>
      && Worthless(Overwritten(s, txs[k], txid))
      && TailHarmless(AfterTx(s, txs[k], txid, height, false), txs, k + 1, txid, height)
  }

  ghost predicate Worthless(m: UtxoMap) {
    forall o :: o in m ==> m[o].output.value == 0
  }

  /** Staging replays the transactions, and unspent value plus fees drops by what they write over. */
  lemma {:induction false} StageReplays(ctx: Context, st: Stage, txs: seq<Transaction>, k: nat)
    requires AllScreened(ctx.o, txs) && 1 <= k <= |txs| && StageFrom(ctx, st, txs, k).Ok?
    ensures var end := StageFrom(ctx, st, txs, k).value;
            && end.ledger.utxo == AfterTxs(st.ledger.utxo, txs, k, ctx.o.txid, ctx.height)
            && Value(end.ledger.utxo) + end.fees == Value(st.ledger.utxo) + st.fees - TailLoss(st.ledger.utxo, txs, k, ctx.o.txid, ctx.height)
    decreases |txs| - k
  {
    hide StageOne, Value, Overwritten, AfterTx, PaymentFee, Screened;
    if k < |txs| {
      var next := StageOne(ctx, st, txs[k]).value;
      StageOneUtxo(ctx, st, txs[k]);
      if IsControl(txs[k]) {
        ControlWritesNothing(ctx.o, txs[k], st.ledger.utxo);
      } else {
        PaymentShape(ctx.o, txs[k]);
        PaymentValue(ctx, st.ledger.utxo, txs[k], next.fees - st.fees, ctx.height);
      }
      StageReplays(ctx, next, txs, k + 1);
    }
  }

  lemma ControlWritesNothing(o: Oracle, tx: Transaction, m: UtxoMap)
    requires Screened(o, tx) && IsControl(tx)
    ensures Value(Overwritten(m, tx, o.txid)) == 0
  {
    hide Value;
    ControlInert(o, tx, m, o.txid, 0, false);
    assert Overwritten(m, tx, o.txid) == map[];
    ValueEmpty();
  }

  /** The loss is never negative, and zero exactly when nothing of value is written over. */
  lemma {:induction false} TailLossZero(o: Oracle, s: UtxoMap, txs: seq<Transaction>, k: nat, height: int)
    requires AllScreened(o, txs) && 1 <= k <= |txs| && NonNegative(s)
    ensures TailLoss(s, txs, k, o.txid, height) >= 0
    ensures TailLoss(s, txs, k, o.txid, height) == 0 <==> TailHarmless(s, txs, k, o.txid, height)
    decreases |txs| - k
  {
    hide Value, AfterTx, Screened, Worthless, Overwritten;
    if k < |txs| {
      ScreenedOutputs(o, txs[k]);
      AfterTxNonNegative(s, txs[k], o.txid, height, false);
      TailLossZero(o, AfterTx(s, txs[k], o.txid, height, false), txs, k + 1, height);
      OverwrittenWorth(s, txs[k], o.txid);
    }
  }

  lemma ScreenedOutputs(o: Oracle, tx: Transaction)
    requires Screened(o, tx)
    ensures forall out :: out in tx.outputs ==> out.value >= 0
  {
    if IsControl(tx) { ControlInert(o, tx, map[], o.txid, 0, false); }
  }

  lemma OverwrittenWorth(m: UtxoMap, tx: Transaction, txid: Txid)
    requires NonNegative(m)
    ensures Value(Overwritten(m, tx, txid)) >= 0
    ensures Value(Overwritten(m, tx, txid)) == 0 <==> Worthless(Overwritten(m, tx, txid))
  {
    hide Value;
    WorthZero(Overwritten(m, tx, txid));
  }

  lemma WorthZero(m: UtxoMap)
    requires NonNegative(m)
    ensures Value(m) >= 0
    ensures Value(m) == 0 <==> Worthless(m)
  {
    hide Value;
    ValueNonNegative(m);
    if Worthless(m) { ValueAllZero(m); }
  }

  // ---- the coinbase among them ----

  function Makes(tx: Transaction, txid: Txid): set<OutPoint> {
    Creates(txid(tx), tx.outputs, 0, false).Keys
  }

  /** Every outpoint that transactions `k..` spend or write. */
  function Touched(txs: seq<Transaction>, k: nat, txid: Txid): set<OutPoint>
    requires k <= |txs|
    decreases |txs| - k
  {
    if k == |txs| then {} else Spends(txs[k].inputs) + Makes(txs[k], txid) + Touched(txs, k + 1, txid)
  }

  /** Entries laid over a set stay over it, but for those the transaction touches. */
  lemma OverlayStep(s: UtxoMap, c: UtxoMap, tx: Transaction, txid: Txid, height: int)
    ensures AfterTx(s + c, tx, txid, height, false) == AfterTx(s, tx, txid, height, false) + (c - Spends(tx.inputs) - Makes(tx, txid))
  {
    hide Spends, Creates;
    CreatesKeys(txid(tx), tx.outputs, height, false, 0, false);
  }

  /** Connecting coinbase-first is the replay, with the untouched coinbase outputs written over the result. */
  lemma {:induction false} OverlayTail(s: UtxoMap, c: UtxoMap, txs: seq<Transaction>, k: nat, txid: Txid, height: int)
    requires 1 <= k <= |txs|
    ensures AfterTxs(s + c, txs, k, txid, height) == AfterTxs(s, txs, k, txid, height) + (c - Touched(txs, k, txid))
    decreases |txs| - k
  {
    hide AfterTx, Makes, Spends;
    if k == |txs| {
      assert c - Touched(txs, k, txid) == c;
    } else {
      OverlayStep(s, c, txs[k], txid, height);
      var kept := c - Spends(txs[k].inputs) - Makes(txs[k], txid);
      OverlayTail(AfterTx(s, txs[k], txid, height, false), kept, txs, k + 1, txid, height);
      assert kept - Touched(txs, k + 1, txid) == c - Touched(txs, k, txid);
    }
  }

  lemma UntouchedStep(s: UtxoMap, tx: Transaction, txid: Txid, height: int, o: OutPoint)
    requires o !in Spends(tx.inputs) && o !in Makes(tx, txid)
    ensures Lookup(AfterTx(s, tx, txid, height, false), o) == Lookup(s, o)
  {
    hide Spends, Creates;
    CreatesKeys(txid(tx), tx.outputs, height, false, 0, false);
  }

  lemma {:induction false} UntouchedStays(s: UtxoMap, txs: seq<Transaction>, k: nat, txid: Txid, height: int, o: OutPoint)
    requires 1 <= k <= |txs| && o !in Touched(txs, k, txid)
    ensures Lookup(AfterTxs(s, txs, k, txid, height), o) == Lookup(s, o)
    decreases |txs| - k
  {
    hide AfterTx, Makes, Spends;
    if k < |txs| {
      UntouchedStep(s, txs[k], txid, height, o);
      UntouchedStays(AfterTx(s, txs[k], txid, height, false), txs, k + 1, txid, height, o);
    }
  }

  lemma UntouchedPart(s: UtxoMap, keys: set<OutPoint>, txs: seq<Transaction>, txid: Txid, height: int)
    requires txs != []
    ensures Restrict(AfterTxs(s, txs, 1, txid, height), keys - Touched(txs, 1, txid)) == Restrict(s, keys - Touched(txs, 1, txid))
  {
    hide AfterTxs, Touched;
    var end := AfterTxs(s, txs, 1, txid, height);
    forall o | o in keys && o !in Touched(txs, 1, txid) ensures Lookup(end, o) == Lookup(s, o) {
      UntouchedStays(s, txs, 1, txid, height, o);
    }
    SameLookups(end, s, keys - Touched(txs, 1, txid));
  }

  lemma SameLookups(a: UtxoMap, b: UtxoMap, keys: set<OutPoint>)
    requires forall o :: o in keys ==> Lookup(a, o) == Lookup(b, o)
    ensures Restrict(a, keys) == Restrict(b, keys)
  {
    forall o | o in keys ensures (o in a <==> o in b) && (o in a ==> a[o] == b[o]) {
      assert Lookup(a, o) == Lookup(b, o);
    }
  }

  // ---- conservation, exactly ----

  /**
   * What connecting a block destroys: outputs its later transactions write over, live outputs its
   * coinbase writes over, and coinbase outputs that its own block spends or writes over.
   */
  ghost function LostBy(ctx: Context, m: UtxoMap, block: Block): int
    requires block.transactions != []
  {
    var txs, c := block.transactions, CoinbaseOutputs(ctx, block);
    var touched := Touched(txs, 1, ctx.o.txid);
    TailLoss(m, txs, 1, ctx.o.txid, ctx.height) + Value(Restrict(m, c.Keys - touched)) + Value(Restrict(c, touched))
  }

  /** Checkable before connecting, by replaying ids: no transaction of the block writes over an output worth something. */
  ghost predicate Harmless(ctx: Context, m: UtxoMap, block: Block)
    requires block.transactions != []
  {
    var txs, c := block.transactions, CoinbaseOutputs(ctx, block);
    var touched := Touched(txs, 1, ctx.o.txid);
    && TailHarmless(m, txs, 1, ctx.o.txid, ctx.height)
    && (forall o :: o in c && o !in touched && o in m ==> m[o].output.value == 0)
    && (forall o :: o in c && o in touched ==> c[o].output.value == 0)
  }

  /** An accepted block adds what it issues less what it destroys. */
  lemma BlockBalance(ctx: Context, ledger: Ledger, block: Block)
    requires Accepts(ctx, ledger, block)
    ensures block.transactions != []
    ensures Value(Connect(ctx, ledger, block).utxo)
            == Value(ledger.utxo) + IssuedBy(ctx, ledger, block) - LostBy(ctx, ledger.utxo, block)
  {
    hide Value, StageFrom, ValidatedStage, AfterTxs, CoinbaseOk, IssuedBy, Connect, CoinbaseOutputs, Touched, TailLoss, AllScreened;
    AcceptedParts(ctx, ledger, block);
    BlockIssuance(ctx, ledger, block);
    ConnectedUtxo(ctx, ledger, block);
    var txs, m := block.transactions, ledger.utxo;
    StageReplays(ctx, InitialStage(ledger), txs, 1);
    var c, touched := CoinbaseOutputs(ctx, block), Touched(txs, 1, ctx.o.txid);
    var end := AfterTxs(m, txs, 1, ctx.o.txid, ctx.height);
    OverlayTail(m, c, txs, 1, ctx.o.txid, ctx.height);
    ValueOverwrite(end, c - touched);
    ValueWithout(c, touched);
    UntouchedPart(m, c.Keys, txs, ctx.o.txid, ctx.height);
    assert (c - touched).Keys == c.Keys - touched;
  }

  /** The loss of an accepted block is never negative, and zero exactly when the block is harmless. */
  lemma LostExactlyWhen(ctx: Context, ledger: Ledger, block: Block)
    requires Accepts(ctx, ledger, block) && NonNegative(ledger.utxo)
    ensures block.transactions != []
    ensures LostBy(ctx, ledger.utxo, block) >= 0
    ensures LostBy(ctx, ledger.utxo, block) == 0 <==> Harmless(ctx, ledger.utxo, block)
  {
    hide Value, StageFrom, ValidatedStage, CoinbaseOk, CoinbaseOutputs, Touched, TailLoss, TailHarmless, AllScreened;
    AcceptedParts(ctx, ledger, block);
    var txs, m := block.transactions, ledger.utxo;
    var c, touched := CoinbaseOutputs(ctx, block), Touched(txs, 1, ctx.o.txid);
    TailLossZero(ctx.o, m, txs, 1, ctx.height);
    WorthZero(Restrict(m, c.Keys - touched));
    WorthZero(Restrict(c, touched));
    PartWorthless(m, c.Keys - touched);
    PartWorthless(c, touched);
  }

  lemma PartWorthless(m: UtxoMap, keys: set<OutPoint>)
    ensures Worthless(Restrict(m, keys)) <==> forall o :: o in m && o in keys ==> m[o].output.value == 0
  {
    var part := Restrict(m, keys);
    assert forall o :: o in part <==> o in m && o in keys;
    assert forall o :: o in part ==> part[o] == m[o];
  }

  /** A block conserves value exactly when none of its transactions writes over an output worth something. */
  lemma ConservesExactlyWhen(ctx: Context, ledger: Ledger, block: Block)
    requires Accepts(ctx, ledger, block) && NonNegative(ledger.utxo)
    ensures block.transactions != []
    ensures Value(Connect(ctx, ledger, block).utxo) == Value(ledger.utxo) + IssuedBy(ctx, ledger, block)
            <==> Harmless(ctx, ledger.utxo, block)
  {
    hide Value, Accepts, IssuedBy, Connect, LostBy, Harmless;
    BlockBalance(ctx, ledger, block);
    LostExactlyWhen(ctx, ledger, block);
  }

  // ---- chains ----

  datatype Link = Link(ctx: Context, block: Block)

  /** A block, in the context it was checked in, is accepted on top of the ones before it. */
  ghost predicate AcceptedChain(o: Oracle, p: Params, ledger: Ledger, height: nat, links: seq<Link>)
    decreases links
  {
    links != [] ==>
      && links[0].ctx.o == o && links[0].ctx.p == p && links[0].ctx.height == height
      && Accepts(links[0].ctx, ledger, links[0].block)
      && AcceptedChain(o, p, Connect(links[0].ctx, ledger, links[0].block), height + 1, links[1..])
  }

  ghost function FinalLedger(o: Oracle, p: Params, ledger: Ledger, height: nat, links: seq<Link>): Ledger
    requires AcceptedChain(o, p, ledger, height, links)
    decreases links
  {
    if links == [] then ledger
    else FinalLedger(o, p, Connect(links[0].ctx, ledger, links[0].block), height + 1, links[1..])
  }

  /** The subsidies and node rewards of a chain, block by block. */
  ghost function IssuedOver(o: Oracle, p: Params, ledger: Ledger, height: nat, links: seq<Link>): int
    requires AcceptedChain(o, p, ledger, height, links)
    decreases links
  {
    if links == [] then 0
    else
      IssuedBy(links[0].ctx, ledger, links[0].block)
      + IssuedOver(o, p, Connect(links[0].ctx, ledger, links[0].block), height + 1, links[1..])
  }

  const GENESIS := Ledger(map[], map[], {}, [], {})

  lemma {:induction false} ChainNeverInflates(o: Oracle, p: Params, ledger: Ledger, height: nat, links: seq<Link>)
    requires AcceptedChain(o, p, ledger, height, links) && NonNegative(ledger.utxo)
    ensures Value(FinalLedger(o, p, ledger, height, links).utxo) <= Value(ledger.utxo) + IssuedOver(o, p, ledger, height, links)
    ensures IssuedOver(o, p, ledger, height, links) <= TotalMinted(height + |links|, p) - TotalMinted(height, p)
    decreases links
  {
    hide Value, Accepts, Connect, IssuedBy, TotalMinted, SubsidySplit;
    if links != [] {
      var l := links[0];
      BlockNeverInflates(l.ctx, ledger, l.block);
      BlockIssuance(l.ctx, ledger, l.block);
      SupplyCapHolds(height, p);
      ChainNeverInflates(o, p, Connect(l.ctx, ledger, l.block), height + 1, links[1..]);
    }
  }

  lemma NoneMinted(p: Params)
    ensures TotalMinted(0, p) == 0
  {
  }

  /** For every accepted chain: unspent value <= issuance <= scheduled total <= the supply cap. */
  lemma SupplyIsCapped(o: Oracle, p: Params, links: seq<Link>)
    requires AcceptedChain(o, p, GENESIS, 0, links)
    ensures Value(FinalLedger(o, p, GENESIS, 0, links).utxo) <= IssuedOver(o, p, GENESIS, 0, links)
            <= TotalMinted(|links|, p) <= p.maxMoney
  {
    hide Value, AcceptedChain, FinalLedger, IssuedOver, TotalMinted, SubsidySplit;
    ValueEmpty();
    NoneMinted(p);
    ChainNeverInflates(o, p, GENESIS, 0, links);
    SupplyCapHolds(|links|, p);
  }

  /** What a chain destroys, block by block. */
  ghost function LostOver(o: Oracle, p: Params, ledger: Ledger, height: nat, links: seq<Link>): int
    requires AcceptedChain(o, p, ledger, height, links)
    decreases links
  {
    if links == [] then 0
    else
      NotEmpty(links[0].ctx, ledger, links[0].block);
      LostBy(links[0].ctx, ledger.utxo, links[0].block)
      + LostOver(o, p, Connect(links[0].ctx, ledger, links[0].block), height + 1, links[1..])
  }

  ghost predicate HarmlessChain(o: Oracle, p: Params, ledger: Ledger, height: nat, links: seq<Link>)
    requires AcceptedChain(o, p, ledger, height, links)
    decreases links
  {
    if links == [] then true
    else
      NotEmpty(links[0].ctx, ledger, links[0].block);
      && Harmless(links[0].ctx, ledger.utxo, links[0].block)
      && HarmlessChain(o, p, Connect(links[0].ctx, ledger, links[0].block), height + 1, links[1..])
  }

  lemma NotEmpty(ctx: Context, ledger: Ledger, block: Block)
    requires Accepts(ctx, ledger, block)
    ensures block.transactions != []
  {
  }

  /** Over every accepted chain: unspent value is issuance less what was destroyed. */
  lemma {:induction false} ChainBalance(o: Oracle, p: Params, ledger: Ledger, height: nat, links: seq<Link>)
    requires AcceptedChain(o, p, ledger, height, links)
    ensures Value(FinalLedger(o, p, ledger, height, links).utxo)
            == Value(ledger.utxo) + IssuedOver(o, p, ledger, height, links) - LostOver(o, p, ledger, height, links)
    decreases links
  {
    hide Value, Accepts, Connect, IssuedBy, LostBy;
    if links != [] {
      BlockBalance(links[0].ctx, ledger, links[0].block);
      ChainBalance(o, p, Connect(links[0].ctx, ledger, links[0].block), height + 1, links[1..]);
    }
  }

  lemma {:induction false} ChainLoss(o: Oracle, p: Params, ledger: Ledger, height: nat, links: seq<Link>)
    requires AcceptedChain(o, p, ledger, height, links) && NonNegative(ledger.utxo)
    ensures LostOver(o, p, ledger, height, links) >= 0
    ensures LostOver(o, p, ledger, height, links) == 0 <==> HarmlessChain(o, p, ledger, height, links)
    decreases links
  {
    hide Value, Accepts, Connect, LostBy, Harmless;
    if links != [] {
      BlockNeverInflates(links[0].ctx, ledger, links[0].block);
      LostExactlyWhen(links[0].ctx, ledger, links[0].block);
      ChainLoss(o, p, Connect(links[0].ctx, ledger, links[0].block), height + 1, links[1..]);
    }
  }

  /** On every accepted chain the unspent value grows by the issuance if and only if every block is harmless. */
  lemma ChainConservesExactlyWhen(o: Oracle, p: Params, ledger: Ledger, height: nat, links: seq<Link>)
    requires AcceptedChain(o, p, ledger, height, links) && NonNegative(ledger.utxo)
    ensures Value(FinalLedger(o, p, ledger, height, links).utxo) == Value(ledger.utxo) + IssuedOver(o, p, ledger, height, links)
            <==> HarmlessChain(o, p, ledger, height, links)
  {
    hide AcceptedChain, FinalLedger, IssuedOver, LostOver, HarmlessChain;
    ChainBalance(o, p, ledger, height, links);
    ChainLoss(o, p, ledger, height, links);
  }

  // ---- fresh ids are enough ----

  /** Each later transaction's id is new to the UTXO set and to the block. */
  ghost predicate TailFresh(m: UtxoMap, txs: seq<Transaction>, txid: Txid) {
    forall k :: 1 <= k < |txs| && txs[k].outputs != [] ==>
      && (forall o :: o in m ==> o.txid != txid(txs[k]))
      && (forall j :: 0 <= j < k && txs[j].outputs != [] ==> txid(txs[j]) != txid(txs[k]))
  }

  /** Every entry of `s` is an untouched entry of `m` or an output of transactions 1..k-1. */
  ghost predicate Origin(s: UtxoMap, m: UtxoMap, txs: seq<Transaction>, k: nat, txid: Txid) {
    forall o :: o in s ==> (o in m && s[o] == m[o]) || MadeBy(o, txs, k, txid)
  }

  ghost predicate MadeBy(o: OutPoint, txs: seq<Transaction>, k: nat, txid: Txid) {
    exists j :: 1 <= j < k && j < |txs| && txs[j].outputs != [] && o.txid == txid(txs[j])
  }

  lemma OriginStep(s: UtxoMap, m: UtxoMap, txs: seq<Transaction>, k: nat, txid: Txid, height: int)
    requires Origin(s, m, txs, k, txid) && 1 <= k < |txs|
    ensures Origin(AfterTx(s, txs[k], txid, height, false), m, txs, k + 1, txid)
  {
    var after := AfterTx(s, txs[k], txid, height, false);
    forall o | o in after ensures (o in m && after[o] == m[o]) || MadeBy(o, txs, k + 1, txid) {
      if o in Creates(txid(txs[k]), txs[k].outputs, height, false) {
        assert txs[k].outputs != [] && o.txid == txid(txs[k]);
      } else {
        assert o in s && after[o] == s[o];
        if MadeBy(o, txs, k, txid) {
          var j :| 1 <= j < k && j < |txs| && txs[j].outputs != [] && o.txid == txid(txs[j]);
        }
      }
    }
  }

  lemma NothingOverwritten(s: UtxoMap, m: UtxoMap, txs: seq<Transaction>, k: nat, txid: Txid)
    requires Origin(s, m, txs, k, txid) && TailFresh(m, txs, txid) && 1 <= k < |txs|
    ensures Overwritten(s, txs[k], txid) == map[]
  {
    assert forall o :: o !in Overwritten(s, txs[k], txid);
  }

  /** No transaction id of the block, coinbase included, names a live output or repeats in the block. */
  ghost predicate FreshBlock(ctx: Context, ledger: Ledger, block: Block) {
    var txs := block.transactions;
    && TailFresh(ledger.utxo, txs, ctx.o.txid)
    && (txs != [] ==> forall o :: o in ledger.utxo ==> o.txid != ctx.o.txid(txs[0]))
  }

  ghost predicate FreshChain(o: Oracle, p: Params, ledger: Ledger, height: nat, links: seq<Link>)
    requires AcceptedChain(o, p, ledger, height, links)
    decreases links
  {
    links != [] ==>
      && FreshBlock(links[0].ctx, ledger, links[0].block)
      && FreshChain(o, p, Connect(links[0].ctx, ledger, links[0].block), height + 1, links[1..])
  }

  lemma {:induction false} FreshTail(ctx: Context, st: Stage, m: UtxoMap, txs: seq<Transaction>, k: nat)
    requires AllScreened(ctx.o, txs) && 1 <= k <= |txs| && StageFrom(ctx, st, txs, k).Ok?
    requires Origin(st.ledger.utxo, m, txs, k, ctx.o.txid) && TailFresh(m, txs, ctx.o.txid)
    ensures TailHarmless(st.ledger.utxo, txs, k, ctx.o.txid, ctx.height)
    decreases |txs| - k
  {
    hide StageOne, Origin, TailFresh, Overwritten, AfterTx;
    if k < |txs| {
      StageOneUtxo(ctx, st, txs[k]);
      NothingOverwritten(st.ledger.utxo, m, txs, k, ctx.o.txid);
      OriginStep(st.ledger.utxo, m, txs, k, ctx.o.txid, ctx.height);
      FreshTail(ctx, StageOne(ctx, st, txs[k]).value, m, txs, k + 1);
    }
  }

  /** An outpoint named by no live output and by no later transaction is touched by none. */
  lemma {:induction false} NeverTouched(ctx: Context, st: Stage, m: UtxoMap, txs: seq<Transaction>, k: nat, o: OutPoint)
    requires AllScreened(ctx.o, txs) && 1 <= k <= |txs| && StageFrom(ctx, st, txs, k).Ok?
    requires Origin(st.ledger.utxo, m, txs, k, ctx.o.txid) && o !in m
    requires forall j :: 1 <= j < |txs| && txs[j].outputs != [] ==> o.txid != ctx.o.txid(txs[j])
    ensures o !in Touched(txs, k, ctx.o.txid)
    decreases |txs| - k
  {
    hide StageOne, Origin, AfterTx, Makes, Spends;
    if k < |txs| {
      StageOneUtxo(ctx, st, txs[k]);
      OriginStep(st.ledger.utxo, m, txs, k, ctx.o.txid, ctx.height);
      NeverTouched(ctx, StageOne(ctx, st, txs[k]).value, m, txs, k + 1, o);
      MakesIds(txs[k], ctx.o.txid, o);
      if o in Spends(txs[k].inputs) {
        SpentIsKnown(ctx, st, txs[k], o);
        OriginAt(st.ledger.utxo, m, txs, k, ctx.o.txid, o);
      }
    }
  }

  lemma MakesIds(tx: Transaction, txid: Txid, o: OutPoint)
    ensures o in Makes(tx, txid) ==> o.txid == txid(tx) && tx.outputs != []
  {
  }

  lemma OriginAt(s: UtxoMap, m: UtxoMap, txs: seq<Transaction>, k: nat, txid: Txid, o: OutPoint)
    requires Origin(s, m, txs, k, txid) && o in s
    requires forall j :: 1 <= j < |txs| && txs[j].outputs != [] ==> o.txid != txid(txs[j])
    ensures o in m && s[o] == m[o]
  {
  }

  lemma SpentIsKnown(ctx: Context, st: Stage, tx: Transaction, o: OutPoint)
    requires Screened(ctx.o, tx) && StageOne(ctx, st, tx).Ok? && o in Spends(tx.inputs)
    ensures o in st.ledger.utxo
  {
    hide StageOne, AfterTx;
    StageOneUtxo(ctx, st, tx);
    if IsControl(tx) {
      ControlInert(ctx.o, tx, map[], ctx.o.txid, 0, false);
    } else {
      var i :| 0 <= i < |tx.inputs| && tx.inputs[i].previousOutput == o;
      InputsAllKnown(ctx, st.ledger.utxo, tx, 0, i);
    }
  }

  lemma {:induction false} InputsAllKnown(ctx: Context, utxo: UtxoMap, tx: Transaction, k: nat, i: nat)
    requires k <= i < |tx.inputs| && InputTotal(ctx, utxo, tx, k).Ok?
    ensures tx.inputs[i].previousOutput in utxo
    decreases i - k
  {
    if k < i { InputsAllKnown(ctx, utxo, tx, k + 1, i); }
  }

  lemma CoinbaseIds(ctx: Context, block: Block, o: OutPoint)
    requires block.transactions != [] && o in CoinbaseOutputs(ctx, block)
    ensures o.txid == ctx.o.txid(block.transactions[0]) && block.transactions[0].outputs != []
  {
  }

  lemma CoinbaseApart(ctx: Context, ledger: Ledger, block: Block)
    requires block.transactions != [] && TailFresh(ledger.utxo, block.transactions, ctx.o.txid)
    ensures forall j, o :: 1 <= j < |block.transactions| && block.transactions[j].outputs != [] && o in CoinbaseOutputs(ctx, block) ==>
      o.txid != ctx.o.txid(block.transactions[j])
  {
    hide CoinbaseOutputs;
    forall j, o | 1 <= j < |block.transactions| && block.transactions[j].outputs != [] && o in CoinbaseOutputs(ctx, block)
      ensures o.txid != ctx.o.txid(block.transactions[j])
    {
      CoinbaseIds(ctx, block, o);
    }
  }

  /** A block whose ids are all new is harmless. */
  lemma FreshHarmless(ctx: Context, ledger: Ledger, block: Block)
    requires Accepts(ctx, ledger, block) && FreshBlock(ctx, ledger, block)
    ensures block.transactions != [] && Harmless(ctx, ledger.utxo, block)
  {
    hide StageFrom, ValidatedStage, CoinbaseOk, TailFresh, CoinbaseOutputs, Touched, TailHarmless;
    AcceptedParts(ctx, ledger, block);
    FreshTail(ctx, InitialStage(ledger), ledger.utxo, block.transactions, 1);
    CoinbaseApart(ctx, ledger, block);
    forall o | o in CoinbaseOutputs(ctx, block) ensures o !in ledger.utxo && o !in Touched(block.transactions, 1, ctx.o.txid) {
      CoinbaseIds(ctx, block, o);
      NeverTouched(ctx, InitialStage(ledger), ledger.utxo, block.transactions, 1, o);
    }
  }

  lemma {:induction false} FreshChainHarmless(o: Oracle, p: Params, ledger: Ledger, height: nat, links: seq<Link>)
    requires AcceptedChain(o, p, ledger, height, links) && FreshChain(o, p, ledger, height, links)
    ensures HarmlessChain(o, p, ledger, height, links)
    decreases links
  {
    hide Accepts, Connect, FreshBlock, Harmless;
    if links != [] {
      FreshHarmless(links[0].ctx, ledger, links[0].block);
      FreshChainHarmless(o, p, Connect(links[0].ctx, ledger, links[0].block), height + 1, links[1..]);
    }
  }

  /** With fresh ids the unspent value grows by exactly the issuance, whatever the chain. */
  lemma ChainConserves(o: Oracle, p: Params, ledger: Ledger, height: nat, links: seq<Link>)
    requires AcceptedChain(o, p, ledger, height, links) && NonNegative(ledger.utxo) && FreshChain(o, p, ledger, height, links)
    ensures Value(FinalLedger(o, p, ledger, height, links).utxo) == Value(ledger.utxo) + IssuedOver(o, p, ledger, height, links)
  {
    hide AcceptedChain, FinalLedger, IssuedOver, HarmlessChain, FreshChain;
    FreshChainHarmless(o, p, ledger, height, links);
    ChainConservesExactlyWhen(o, p, ledger, height, links);
  }
}
