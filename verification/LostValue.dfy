/** Two accepted chains on which value is lost: a repeated coinbase, and a payment replayed after its input came back. */
module LostValue {
  import opened Prelude
  import opened Arith
  import opened Models
  import opened Oracles
  import opened Economics
  import opened Headers
  import opened Utxo
  import opened UtxoValue
  import opened Validation
  import opened Supply
  import opened Conservation

  // ---- a small network ----

  const BITS := 0x207f_ffff

  /** An oracle that approves everything, over any transaction-id function. */
  function Permissive(txid: Txid): Oracle {
    Oracle(txid, tx => 1, (seed, tag) => [], t => None, t => None, t => true, tx => true, (tx, h) => true,
           (tx, i) => true, (t, h) => true, (tx, i, out, h) => true, (a, k) => true, m => None, m => None, m => true, (b, t) => true)
  }

  const SMALL_NET := Params(0, 100, 50, 0, 1000, 1, None, 0, 1, BITS, 1000, 1000, 1, 1, 0, 0, 0, 0, 0, 0, 0, 0, 0, 0, 0, 0)

  lemma {:induction false} FlatSplits(h: nat, p: Params)
    requires p.initialMinerSubsidy > 0 && h < p.halvingInterval && h + 1 < p.epochLength
    requires p.maxMoney >= (h + 1) * p.initialMinerSubsidy
    ensures Minted(h, p) == (h * p.initialMinerSubsidy, 0) && SubsidySplit(h, p) == (p.initialMinerSubsidy, 0)
  {
    hide RegularMiner, ScheduledNode, Minted, SubsidySplit;
    FlatSchedule(h, p);
    MulStep(h, p.initialMinerSubsidy);
    if h > 0 {
      MulStep(h - 1, p.initialMinerSubsidy);
      FlatSplits(h - 1, p);
      MintedStep(h - 1, p);
    } else {
      NothingMinted(p);
    }
    SplitFrom(h, h * p.initialMinerSubsidy, p);
  }

  lemma MintedStep(h: nat, p: Params)
    ensures Minted(h + 1, p) == (Minted(h, p).0 + SubsidySplit(h, p).0, Minted(h, p).1 + SubsidySplit(h, p).1)
  {
  }

  lemma SplitFrom(h: nat, minted: nat, p: Params)
    requires Minted(h, p) == (minted, 0) && RegularMiner(h, p) == p.initialMinerSubsidy > 0 && ScheduledNode(h, p) == 0
    requires p.maxMoney >= minted + p.initialMinerSubsidy
    ensures SubsidySplit(h, p) == (p.initialMinerSubsidy, 0)
  {
    hide RegularMiner, ScheduledNode, Minted;
  }

  lemma FlatSchedule(h: nat, p: Params)
    requires h < p.halvingInterval && h + 1 < p.epochLength
    ensures RegularMiner(h, p) == p.initialMinerSubsidy && ScheduledNode(h, p) == 0
  {
    assert Era(h, p) == 0;
    assert (h + 1) % p.epochLength == h + 1;
  }

  lemma EarlySplits(h: nat)
    requires h < 4
    ensures SubsidySplit(h, SMALL_NET) == (50, 0)
  {
    hide Minted, SubsidySplit;
    FlatSplits(h, SMALL_NET);
  }

  const HEIGHT := Ascii("height")
  const REWARD := TxOutput(50, [67])

  /** The coinbase that the template builds for a height; validation does not look at the height it names. */
  function CoinbaseFor(height: Text): Transaction {
    Transaction(1, [], [REWARD], 0, map[COINBASE := TRUE, HEIGHT := height])
  }

  /** The context a node validates in: previous hash and bits are pinned. */
  function ContextAt(txid: Txid, height: nat, previous: Hash): Context {
    Context(Permissive(txid), SMALL_NET, height, map[], 0, true, Some(previous), Some(BITS), 0)
  }

  function BlockOn(previous: Hash, nonce: int, txs: seq<Transaction>): Block {
    Block(BlockHeader(1, previous, ZERO_HASH, 0, BITS, nonce), txs)
  }

  function LinkOn(txid: Txid, previous: Hash, height: nat, txs: seq<Transaction>): Link {
    Link(ContextAt(txid, height, previous), BlockOn(previous, height, txs))
  }

  /** Each block names the hash of the one before it, and its context demands that. */
  ghost predicate Linked(hash: HeaderHash, links: seq<Link>) {
    forall i :: 0 <= i < |links| ==>
      var previous := if i == 0 then ZERO_HASH else hash(links[i - 1].block.header);
      links[i].block.header.previousHash == previous && links[i].ctx.expectedPrevious == Some(previous)
  }

  // ---- single blocks ----

  function Out(txid: Txid, tx: Transaction): OutPoint {
    OutPoint(txid(tx), 0)
  }

  lemma CoinbaseShape(txid: Txid, height: Text)
    ensures var tx := CoinbaseFor(height); IsCoinbase(tx) && KindOf(tx) == None && TxStateless(Permissive(txid), tx)
  {
    assert |KIND| == 4 && |COINBASE| == 8 && |HEIGHT| == 6;
    assert COINBASE != HEIGHT;
  }

  lemma SoloAccepted(txid: Txid, previous: Hash, h: nat, name: Text, ledger: Ledger)
    requires SubsidySplit(h, SMALL_NET) == (50, 0)
    ensures var l := LinkOn(txid, previous, h, [CoinbaseFor(name)]);
            && Accepts(l.ctx, ledger, l.block) && IssuedBy(l.ctx, ledger, l.block) == 50
            && Connect(l.ctx, ledger, l.block).utxo == ledger.utxo[Out(txid, CoinbaseFor(name)) := UtxoEntry(REWARD, h, true)]
  {
    hide SubsidySplit, TxStateless;
    var l := LinkOn(txid, previous, h, [CoinbaseFor(name)]);
    var tx := CoinbaseFor(name);
    CoinbaseShape(txid, name);
    assert BundleCount([tx]) == 0;
    assert WeightTotal(l.ctx.o, [tx]) == 1 by {
      assert [tx][1..] == [];
      assert WeightTotal(l.ctx.o, []) == 0;
    }
    ConnectedUtxo(l.ctx, ledger, l.block);
    assert CoinbaseOutputs(l.ctx, l.block) == map[Out(txid, tx) := UtxoEntry(REWARD, h, true)];
  }

  /** Spends the reward of the coinbase `source` back to its owner. */
  function Payment(txid: Txid, source: Transaction): Transaction {
    Transaction(1, [TxInput(Out(txid, source), [], [], 0, 0)], [REWARD], 0, map[])
  }

  lemma PaymentPasses(txid: Txid, previous: Hash, h: nat, source: Transaction, ledger: Ledger)
    requires Out(txid, source) in ledger.utxo && ledger.utxo[Out(txid, source)].output == REWARD
    requires ledger.utxo[Out(txid, source)].height <= h
    ensures var ctx, tx := ContextAt(txid, h, previous), Payment(txid, source);
            && Screened(ctx.o, tx) && !IsControl(tx)
            && TxFee(ctx, ledger, tx) == Ok(0)
  {
    var ctx, tx := ContextAt(txid, h, previous), Payment(txid, source);
    assert KindOf(tx) == None;
    assert InputTotal(ctx, ledger.utxo, tx, 1) == Ok(0);
    assert OutputTotal(tx.outputs[1..]) == 0;
  }

  lemma PaidStage(txid: Txid, previous: Hash, h: nat, name: Text, source: Transaction, ledger: Ledger)
    requires Out(txid, source) in ledger.utxo && ledger.utxo[Out(txid, source)].output == REWARD
    requires ledger.utxo[Out(txid, source)].height <= h
    ensures var ctx, txs := ContextAt(txid, h, previous), [CoinbaseFor(name), Payment(txid, source)];
            && AllScreened(ctx.o, txs)
            && StageFrom(ctx, InitialStage(ledger), txs, 1).Ok?
            && StageFrom(ctx, InitialStage(ledger), txs, 1).value.fees == 0
            && StageFrom(ctx, InitialStage(ledger), txs, 1).value.settlement == None
  {
    hide TxStateless, TxFee, AfterTx;
    var ctx, tx := ContextAt(txid, h, previous), Payment(txid, source);
    PaymentPasses(txid, previous, h, source, ledger);
    var st := InitialStage(ledger);
    assert RecordSpends({} + {tx.inputs[0].previousOutput}, tx.inputs, 1).Ok?;
    assert RecordSpends({}, tx.inputs, 0).Ok?;
  }

  lemma PaidPasses(txid: Txid, previous: Hash, h: nat, name: Text, source: Transaction, ledger: Ledger)
    requires SubsidySplit(h, SMALL_NET) == (50, 0)
    requires Out(txid, source) in ledger.utxo && ledger.utxo[Out(txid, source)].output == REWARD
    requires ledger.utxo[Out(txid, source)].height <= h
    ensures var l := LinkOn(txid, previous, h, [CoinbaseFor(name), Payment(txid, source)]);
            Accepts(l.ctx, ledger, l.block) && IssuedBy(l.ctx, ledger, l.block) == 50
  {
    hide SubsidySplit, TxStateless, StageFrom, BundleCount, WeightTotal, CoinbaseOk, Payment, CoinbaseFor, IsControl;
    var cb, tx := CoinbaseFor(name), Payment(txid, source);
    var l := LinkOn(txid, previous, h, [cb, tx]);
    CoinbaseShape(txid, name);
    PaymentPasses(txid, previous, h, source, ledger);
    PaymentKind(txid, source);
    PaidStage(txid, previous, h, name, source, ledger);
    TwoLight(l.ctx.o, cb, tx);
    RewardOk(h, name);
  }

  lemma PaymentKind(txid: Txid, source: Transaction)
    ensures KindOf(Payment(txid, source)) == None && !IsCoinbase(Payment(txid, source))
  {
  }

  lemma RewardOk(h: nat, name: Text)
    requires SubsidySplit(h, SMALL_NET) == (50, 0)
    ensures CoinbaseOk(CoinbaseFor(name), h, 0, None, SMALL_NET)
  {
    hide SubsidySplit;
  }

  lemma PaidAccepted(txid: Txid, previous: Hash, h: nat, name: Text, source: Transaction, ledger: Ledger)
    requires SubsidySplit(h, SMALL_NET) == (50, 0)
    requires Out(txid, source) in ledger.utxo && ledger.utxo[Out(txid, source)].output == REWARD
    requires ledger.utxo[Out(txid, source)].height <= h
    ensures var tx := Payment(txid, source);
            var l := LinkOn(txid, previous, h, [CoinbaseFor(name), tx]);
            && Accepts(l.ctx, ledger, l.block) && IssuedBy(l.ctx, ledger, l.block) == 50
            && Connect(l.ctx, ledger, l.block).utxo
               == (ledger.utxo[Out(txid, CoinbaseFor(name)) := UtxoEntry(REWARD, h, true)] - {Out(txid, source)})
                    [Out(txid, tx) := UtxoEntry(REWARD, h, false)]
  {
    hide SubsidySplit, Accepts, Connect, IssuedBy, AfterTxs, Payment, CoinbaseFor, CoinbaseOutputs;
    var cb, tx := CoinbaseFor(name), Payment(txid, source);
    var l := LinkOn(txid, previous, h, [cb, tx]);
    PaidPasses(txid, previous, h, name, source, ledger);
    ConnectedUtxo(l.ctx, ledger, l.block);
    RewardOutput(txid, previous, h, name, [tx]);
    assert [cb] + [tx] == [cb, tx];
    PaidUtxo(txid, h, cb, source, ledger.utxo + CoinbaseOutputs(l.ctx, l.block));
  }

  lemma RewardOutput(txid: Txid, previous: Hash, h: nat, name: Text, rest: seq<Transaction>)
    ensures var l := LinkOn(txid, previous, h, [CoinbaseFor(name)] + rest);
            CoinbaseOutputs(l.ctx, l.block) == map[Out(txid, CoinbaseFor(name)) := UtxoEntry(REWARD, h, true)]
  {
  }

  lemma TwoLight(o: Oracle, cb: Transaction, tx: Transaction)
    requires KindOf(cb) == None && KindOf(tx) == None
    ensures BundleCount([cb, tx]) == 0 && WeightTotal(o, [cb, tx]) == o.weight(cb) + o.weight(tx)
  {
    assert [cb, tx][1..] == [tx] && [tx][1..] == [];
    assert BundleCount([tx]) == 0 && WeightTotal(o, [tx]) == o.weight(tx) by {
      assert BundleCount([]) == 0 && WeightTotal(o, []) == 0;
    }
  }

  lemma PaidUtxo(txid: Txid, h: nat, cb: Transaction, source: Transaction, m: UtxoMap)
    ensures var tx := Payment(txid, source);
            AfterTxs(m, [cb, tx], 1, txid, h) == (m - {Out(txid, source)})[Out(txid, tx) := UtxoEntry(REWARD, h, false)]
  {
    var tx := Payment(txid, source);
    assert Spends(tx.inputs) == {Out(txid, source)} by { assert tx.inputs[0] in tx.inputs; }
    assert Creates(txid(tx), tx.outputs, h, false) == map[Out(txid, tx) := UtxoEntry(REWARD, h, false)];
    assert AfterTxs(AfterTx(m, tx, txid, h, false), [cb, tx], 2, txid, h) == AfterTx(m, tx, txid, h, false);
  }

  // ---- chains ----

  lemma Prepend(o: Oracle, p: Params, ledger: Ledger, height: nat, a: Link, rest: seq<Link>)
    requires a.ctx.o == o && a.ctx.p == p && a.ctx.height == height && Accepts(a.ctx, ledger, a.block)
    requires AcceptedChain(o, p, Connect(a.ctx, ledger, a.block), height + 1, rest)
    ensures AcceptedChain(o, p, ledger, height, [a] + rest)
    ensures var next := Connect(a.ctx, ledger, a.block);
            && IssuedOver(o, p, ledger, height, [a] + rest) == IssuedBy(a.ctx, ledger, a.block) + IssuedOver(o, p, next, height + 1, rest)
            && FinalLedger(o, p, ledger, height, [a] + rest) == FinalLedger(o, p, next, height + 1, rest)
  {
    hide Accepts, Connect, IssuedBy;
    assert ([a] + rest)[0] == a && ([a] + rest)[1..] == rest;
  }

  lemma Nothing(o: Oracle, p: Params, ledger: Ledger, height: nat)
    ensures AcceptedChain(o, p, ledger, height, [])
    ensures IssuedOver(o, p, ledger, height, []) == 0 && FinalLedger(o, p, ledger, height, []) == ledger
    ensures CoinbasesLandClear(o, p, ledger, height, [])
  {
  }

  lemma LinkParts(txid: Txid, previous: Hash, h: nat, txs: seq<Transaction>)
    ensures var l := LinkOn(txid, previous, h, txs);
            && l.ctx.o == Permissive(txid) && l.ctx.p == SMALL_NET && l.ctx.height == h
            && l.ctx.expectedPrevious == Some(previous) && l.block.header.previousHash == previous
  {
  }

  /** Two blocks, the second linked to the first, with one and the same coinbase. */
  function TwiceCoined(txid: Txid, hash: HeaderHash): seq<Link> {
    var first := LinkOn(txid, ZERO_HASH, 0, [CoinbaseFor([48])]);
    [first, LinkOn(txid, hash(first.block.header), 1, [CoinbaseFor([48])])]
  }

  /** Whatever the hashes, the second block erases the first one's reward: 100 issued, 50 left. */
  lemma RepeatedCoinbaseLosesValue(txid: Txid, hash: HeaderHash)
    ensures var links := TwiceCoined(txid, hash);
            && Linked(hash, links) && AcceptedChain(Permissive(txid), SMALL_NET, GENESIS, 0, links)
            && IssuedOver(Permissive(txid), SMALL_NET, GENESIS, 0, links) == 100
            && Value(FinalLedger(Permissive(txid), SMALL_NET, GENESIS, 0, links).utxo) == 50
  {
    hide Accepts, Connect, IssuedBy, Value, AcceptedChain, IssuedOver, FinalLedger, LinkOn, Permissive, CoinbaseFor;
    var links := TwiceCoined(txid, hash);
    var a, b := links[0], links[1];
    LinkParts(txid, ZERO_HASH, 0, [CoinbaseFor([48])]);
    LinkParts(txid, hash(a.block.header), 1, [CoinbaseFor([48])]);
    TwiceCoinedRun(txid, hash(a.block.header));
    var middle := Connect(a.ctx, GENESIS, a.block);
    Nothing(Permissive(txid), SMALL_NET, Connect(b.ctx, middle, b.block), 2);
    Prepend(Permissive(txid), SMALL_NET, middle, 1, b, []);
    Prepend(Permissive(txid), SMALL_NET, GENESIS, 0, a, [b] + []);
    assert [a] + ([b] + []) == links;
  }

  lemma TwiceCoinedRun(txid: Txid, previous: Hash)
    ensures var c := CoinbaseFor([48]);
            var a, b := LinkOn(txid, ZERO_HASH, 0, [c]), LinkOn(txid, previous, 1, [c]);
            && Accepts(a.ctx, GENESIS, a.block) && IssuedBy(a.ctx, GENESIS, a.block) == 50
            && var middle := Connect(a.ctx, GENESIS, a.block);
            && Accepts(b.ctx, middle, b.block) && IssuedBy(b.ctx, middle, b.block) == 50
            && Value(Connect(b.ctx, middle, b.block).utxo) == 50
  {
    hide Accepts, Connect, IssuedBy, LinkOn, Permissive, SubsidySplit, CoinbaseFor, Value;
    var c := CoinbaseFor([48]);
    EarlySplits(0);
    EarlySplits(1);
    SoloAccepted(txid, ZERO_HASH, 0, [48], GENESIS);
    var a, b := LinkOn(txid, ZERO_HASH, 0, [c]), LinkOn(txid, previous, 1, [c]);
    var middle := Connect(a.ctx, GENESIS, a.block);
    SoloAccepted(txid, previous, 1, [48], middle);
    OneReward(Connect(b.ctx, middle, b.block).utxo, Out(txid, c));
  }

  lemma OneReward(m: UtxoMap, a: OutPoint)
    requires m.Keys == {a} && m[a].output == REWARD
    ensures Value(m) == 50
  {
    hide Value;
    ValueRemove(m, a);
    assert m - {a} == map[];
    ValueEmpty();
  }

  /** Coinbase C, then C's payment T, then C again, then T again; the other coinbases are D and E. */
  function TwicePaid(txid: Txid, hash: HeaderHash): seq<Link> {
    var c, t := CoinbaseFor([48]), Payment(txid, CoinbaseFor([48]));
    var l0 := LinkOn(txid, ZERO_HASH, 0, [c]);
    var l1 := LinkOn(txid, hash(l0.block.header), 1, [CoinbaseFor([49]), t]);
    var l2 := LinkOn(txid, hash(l1.block.header), 2, [c]);
    var l3 := LinkOn(txid, hash(l2.block.header), 3, [CoinbaseFor([51]), t]);
    [l0, l1, l2, l3]
  }

  /** The four different transactions of that chain have four different ids. */
  ghost predicate IdsDiffer(txid: Txid) {
    var c := CoinbaseFor([48]);
    NoDuplicates([txid(c), txid(CoinbaseFor([49])), txid(CoinbaseFor([51])), txid(Payment(txid, c))])
  }

  /** No coinbase of the chain is written over a live output. */
  ghost predicate CoinbasesLandClear(o: Oracle, p: Params, ledger: Ledger, height: nat, links: seq<Link>)
    requires AcceptedChain(o, p, ledger, height, links)
    decreases links
  {
    if links == [] then true
    else
      NotEmpty(links[0].ctx, ledger, links[0].block);
      && CoinbaseOutputs(links[0].ctx, links[0].block).Keys !! ledger.utxo.Keys
      && CoinbasesLandClear(o, p, Connect(links[0].ctx, ledger, links[0].block), height + 1, links[1..])
  }

  lemma PrependClear(o: Oracle, p: Params, ledger: Ledger, height: nat, a: Link, rest: seq<Link>)
    requires a.ctx.o == o && a.ctx.p == p && a.ctx.height == height && Accepts(a.ctx, ledger, a.block)
    requires AcceptedChain(o, p, Connect(a.ctx, ledger, a.block), height + 1, rest)
    requires CoinbasesLandClear(o, p, Connect(a.ctx, ledger, a.block), height + 1, rest)
    requires a.block.transactions != [] && CoinbaseOutputs(a.ctx, a.block).Keys !! ledger.utxo.Keys
    ensures AcceptedChain(o, p, ledger, height, [a] + rest) && CoinbasesLandClear(o, p, ledger, height, [a] + rest)
  {
    hide Accepts, Connect, CoinbaseOutputs;
    assert ([a] + rest)[0] == a && ([a] + rest)[1..] == rest;
  }

  lemma LandsClear(txid: Txid, previous: Hash, h: nat, name: Text, rest: seq<Transaction>, m: UtxoMap)
    requires Out(txid, CoinbaseFor(name)) !in m
    ensures var l := LinkOn(txid, previous, h, [CoinbaseFor(name)] + rest);
            l.block.transactions != [] && CoinbaseOutputs(l.ctx, l.block).Keys !! m.Keys
  {
  }

  lemma TwicePaidLinks(txid: Txid, hash: HeaderHash)
    ensures var links := TwicePaid(txid, hash);
            && Linked(hash, links)
            && forall i :: 0 <= i < 4 ==>
                 links[i].ctx.o == Permissive(txid) && links[i].ctx.p == SMALL_NET && links[i].ctx.height == i
  {
    hide Permissive;
  }

  lemma ThreeRewards(m: UtxoMap, a: OutPoint, b: OutPoint, c: OutPoint)
    requires a != b && a != c && b != c && m.Keys == {a, b, c}
    requires m[a].output == m[b].output == m[c].output == REWARD
    ensures Value(m) == 150
  {
    hide Value;
    ValueRemove(m, a);
    ValueRemove(m - {a}, b);
    ValueRemove(m - {a} - {b}, c);
    assert m - {a} - {b} - {c} == map[];
    ValueEmpty();
  }

  /** The four blocks one after another, and the UTXO set they leave. */
  lemma TwicePaidRun(txid: Txid, hash: HeaderHash)
    requires IdsDiffer(txid)
    ensures var k := TwicePaid(txid, hash);
            && Accepts(k[0].ctx, GENESIS, k[0].block) && IssuedBy(k[0].ctx, GENESIS, k[0].block) == 50
            && var l1 := Connect(k[0].ctx, GENESIS, k[0].block);
            && Accepts(k[1].ctx, l1, k[1].block) && IssuedBy(k[1].ctx, l1, k[1].block) == 50
            && var l2 := Connect(k[1].ctx, l1, k[1].block);
            && Accepts(k[2].ctx, l2, k[2].block) && IssuedBy(k[2].ctx, l2, k[2].block) == 50
            && var l3 := Connect(k[2].ctx, l2, k[2].block);
            && Accepts(k[3].ctx, l3, k[3].block) && IssuedBy(k[3].ctx, l3, k[3].block) == 50
            && Value(Connect(k[3].ctx, l3, k[3].block).utxo) == 150
            && Out(txid, CoinbaseFor([48])) !in l2.utxo && Out(txid, CoinbaseFor([49])) !in l1.utxo && Out(txid, CoinbaseFor([51])) !in l3.utxo
  {
    hide Accepts, Connect, IssuedBy, Value, LinkOn, Permissive, Payment, CoinbaseFor;
    var links := TwicePaid(txid, hash);
    FirstTwo(txid, hash(links[0].block.header));
    LastTwo(txid, hash(links[1].block.header), hash(links[2].block.header),
            Connect(links[1].ctx, Connect(links[0].ctx, GENESIS, links[0].block), links[1].block));
    IdsDistinct(txid);
  }

  lemma FirstTwo(txid: Txid, previous: Hash)
    requires IdsDiffer(txid)
    ensures var c, d := CoinbaseFor([48]), CoinbaseFor([49]);
            var t := Payment(txid, c);
            var a, b := LinkOn(txid, ZERO_HASH, 0, [c]), LinkOn(txid, previous, 1, [d, t]);
            && Accepts(a.ctx, GENESIS, a.block) && IssuedBy(a.ctx, GENESIS, a.block) == 50
            && var middle := Connect(a.ctx, GENESIS, a.block);
            && middle.utxo.Keys == {Out(txid, c)}
            && Accepts(b.ctx, middle, b.block) && IssuedBy(b.ctx, middle, b.block) == 50
            && HalfWay(txid, Connect(b.ctx, middle, b.block).utxo)
  {
    hide Accepts, Connect, IssuedBy, LinkOn, Permissive, SubsidySplit, Minted, Payment, CoinbaseFor;
    var c := CoinbaseFor([48]);
    IdsDistinct(txid);
    EarlySplits(0);
    EarlySplits(1);
    SoloAccepted(txid, ZERO_HASH, 0, [48], GENESIS);
    var a := LinkOn(txid, ZERO_HASH, 0, [c]);
    PaidAccepted(txid, previous, 1, [49], c, Connect(a.ctx, GENESIS, a.block));
  }

  /** Live after the second block: the reward of D and the payment T. */
  ghost predicate HalfWay(txid: Txid, m: UtxoMap) {
    var d, t := Out(txid, CoinbaseFor([49])), Out(txid, Payment(txid, CoinbaseFor([48])));
    m.Keys == {d, t} && m[d].output == REWARD && m[t].output == REWARD
  }

  lemma LastTwo(txid: Txid, previous: Hash, last: Hash, ledger: Ledger)
    requires IdsDiffer(txid) && HalfWay(txid, ledger.utxo)
    ensures var c, e := CoinbaseFor([48]), CoinbaseFor([51]);
            var t := Payment(txid, c);
            var a, b := LinkOn(txid, previous, 2, [c]), LinkOn(txid, last, 3, [e, t]);
            && Accepts(a.ctx, ledger, a.block) && IssuedBy(a.ctx, ledger, a.block) == 50
            && var middle := Connect(a.ctx, ledger, a.block);
            && Out(txid, e) !in middle.utxo
            && Accepts(b.ctx, middle, b.block) && IssuedBy(b.ctx, middle, b.block) == 50
            && Value(Connect(b.ctx, middle, b.block).utxo) == 150
  {
    hide Accepts, Connect, IssuedBy, LinkOn, Permissive, SubsidySplit, Minted, Payment, CoinbaseFor, Value;
    var c, d, e := CoinbaseFor([48]), CoinbaseFor([49]), CoinbaseFor([51]);
    var t := Payment(txid, c);
    IdsDistinct(txid);
    EarlySplits(2);
    EarlySplits(3);
    SoloAccepted(txid, previous, 2, [48], ledger);
    var a, b := LinkOn(txid, previous, 2, [c]), LinkOn(txid, last, 3, [e, t]);
    var middle := Connect(a.ctx, ledger, a.block);
    PaidAccepted(txid, last, 3, [51], c, middle);
    var end := Connect(b.ctx, middle, b.block).utxo;
    assert end.Keys == {Out(txid, d), Out(txid, e), Out(txid, t)};
    ThreeRewards(end, Out(txid, d), Out(txid, e), Out(txid, t));
  }

  lemma IdsDistinct(txid: Txid)
    requires IdsDiffer(txid)
    ensures var c, d, e := Out(txid, CoinbaseFor([48])), Out(txid, CoinbaseFor([49])), Out(txid, CoinbaseFor([51]));
            var t := Out(txid, Payment(txid, CoinbaseFor([48])));
            c != d && c != e && c != t && d != e && d != t && e != t
  {
    hide CoinbaseFor, Payment;
    var c := CoinbaseFor([48]);
    var ids := [txid(c), txid(CoinbaseFor([49])), txid(CoinbaseFor([51])), txid(Payment(txid, c))];
    assert ids[0] != ids[1] && ids[0] != ids[2] && ids[0] != ids[3] && ids[1] != ids[2] && ids[1] != ids[3] && ids[2] != ids[3];
  }

  /**
   * No coinbase of this chain lands on a live output, and still 50 of 200 are lost: the payment is
   * valid again once its input is live again, and writes over its own unspent output.
   */
  lemma ReplayedPaymentLosesValue(txid: Txid, hash: HeaderHash)
    requires IdsDiffer(txid)
    ensures var links := TwicePaid(txid, hash);
            && Linked(hash, links) && AcceptedChain(Permissive(txid), SMALL_NET, GENESIS, 0, links)
            && CoinbasesLandClear(Permissive(txid), SMALL_NET, GENESIS, 0, links)
            && IssuedOver(Permissive(txid), SMALL_NET, GENESIS, 0, links) == 200
            && Value(FinalLedger(Permissive(txid), SMALL_NET, GENESIS, 0, links).utxo) == 150
  {
    hide Accepts, Connect, IssuedBy, Value, AcceptedChain, IssuedOver, FinalLedger, CoinbasesLandClear, LinkOn, Permissive, Payment, CoinbaseFor,
      Linked, CoinbaseOutputs;
    var links := TwicePaid(txid, hash);
    TwicePaidLinks(txid, hash);
    TwicePaidRun(txid, hash);
    TwicePaidClear(txid, hash);
    var o := Permissive(txid);
    var l1 := Connect(links[0].ctx, GENESIS, links[0].block);
    var l2 := Connect(links[1].ctx, l1, links[1].block);
    var l3 := Connect(links[2].ctx, l2, links[2].block);
    var l4 := Connect(links[3].ctx, l3, links[3].block);
    Nothing(o, SMALL_NET, l4, 4);
    Prepend(o, SMALL_NET, l3, 3, links[3], []);
    PrependClear(o, SMALL_NET, l3, 3, links[3], []);
    var r3 := [links[3]] + [];
    Prepend(o, SMALL_NET, l2, 2, links[2], r3);
    PrependClear(o, SMALL_NET, l2, 2, links[2], r3);
    var r2 := [links[2]] + r3;
    Prepend(o, SMALL_NET, l1, 1, links[1], r2);
    PrependClear(o, SMALL_NET, l1, 1, links[1], r2);
    var r1 := [links[1]] + r2;
    Prepend(o, SMALL_NET, GENESIS, 0, links[0], r1);
    PrependClear(o, SMALL_NET, GENESIS, 0, links[0], r1);
    assert [links[0]] + r1 == links;
  }

  lemma TwicePaidClear(txid: Txid, hash: HeaderHash)
    requires IdsDiffer(txid)
    ensures var k := TwicePaid(txid, hash);
            && (forall i :: 0 <= i < 4 ==> k[i].block.transactions != [])
            && CoinbaseOutputs(k[0].ctx, k[0].block).Keys !! GENESIS.utxo.Keys
            && Accepts(k[0].ctx, GENESIS, k[0].block)
            && var l1 := Connect(k[0].ctx, GENESIS, k[0].block);
            && CoinbaseOutputs(k[1].ctx, k[1].block).Keys !! l1.utxo.Keys
            && Accepts(k[1].ctx, l1, k[1].block)
            && var l2 := Connect(k[1].ctx, l1, k[1].block);
            && CoinbaseOutputs(k[2].ctx, k[2].block).Keys !! l2.utxo.Keys
            && Accepts(k[2].ctx, l2, k[2].block)
            && var l3 := Connect(k[2].ctx, l2, k[2].block);
            && CoinbaseOutputs(k[3].ctx, k[3].block).Keys !! l3.utxo.Keys
  {
    hide Accepts, Connect, IssuedBy, Value, LinkOn, Permissive, CoinbaseFor, CoinbaseOutputs, Payment;
    var k, t := TwicePaid(txid, hash), Payment(txid, CoinbaseFor([48]));
    TwicePaidRun(txid, hash);
    var l1 := Connect(k[0].ctx, GENESIS, k[0].block);
    var l2 := Connect(k[1].ctx, l1, k[1].block);
    var l3 := Connect(k[2].ctx, l2, k[2].block);
    LandsClear(txid, ZERO_HASH, 0, [48], [], GENESIS.utxo);
    LandsClear(txid, hash(k[0].block.header), 1, [49], [t], l1.utxo);
    LandsClear(txid, hash(k[1].block.header), 2, [48], [], l2.utxo);
    LandsClear(txid, hash(k[2].block.header), 3, [51], [t], l3.utxo);
    var c := CoinbaseFor([48]);
    assert [c] + [] == [c] && [CoinbaseFor([49])] + [t] == [CoinbaseFor([49]), t] && [CoinbaseFor([51])] + [t] == [CoinbaseFor([51]), t];
  }
}
