/** UTXO views: the plain in-memory map and the lazy overlay staged over it (utxo.py). */
module Utxo {
  import opened Prelude
  import opened Models

  datatype UtxoEntry = UtxoEntry(output: TxOutput, height: int, isCoinbase: bool)

  type UtxoMap = map<OutPoint, UtxoEntry>

  /** The transaction identifier: a digest of the serialized transaction. */
  type Txid = Transaction -> Hash

  function Spends(inputs: seq<TxInput>): set<OutPoint> {
    set i | i in inputs :: i.previousOutput
  }

  function Creates(txid: Hash, outputs: seq<TxOutput>, height: int, isCoinbase: bool): UtxoMap {
    map i | 0 <= i < |outputs| :: OutPoint(txid, i) := UtxoEntry(outputs[i], height, isCoinbase)
  }

  /** What a transaction does to a full copy of the UTXO set. */
  function AfterTx(m: UtxoMap, tx: Transaction, txid: Txid, height: int, isCoinbase: bool): UtxoMap {
    (m - Spends(tx.inputs)) + Creates(txid(tx), tx.outputs, height, isCoinbase)
  }

  /** Transactions `k..` of a block, in order; only the first transaction of a block is its coinbase. */
  function AfterTxs(m: UtxoMap, txs: seq<Transaction>, k: nat, txid: Txid, height: int): UtxoMap
    requires k <= |txs|
    decreases |txs| - k
  {
    if k == |txs| then m
    else AfterTxs(AfterTx(m, txs[k], txid, height, k == 0), txs, k + 1, txid, height)
  }

  function AfterBlock(m: UtxoMap, block: Block, txid: Txid, height: int): UtxoMap {
    AfterTxs(m, block.transactions, 0, txid, height)
  }

  lemma SpendsStep(inputs: seq<TxInput>, k: nat)
    requires k < |inputs|
    ensures Spends(inputs[..k + 1]) == Spends(inputs[..k]) + {inputs[k].previousOutput}
  {
    assert inputs[..k + 1] == inputs[..k] + [inputs[k]];
  }

  lemma CreatesStep(txid: Hash, outputs: seq<TxOutput>, k: nat, height: int, isCoinbase: bool)
    requires k < |outputs|
    ensures Creates(txid, outputs[..k + 1], height, isCoinbase)
            == Creates(txid, outputs[..k], height, isCoinbase)[OutPoint(txid, k) := UtxoEntry(outputs[k], height, isCoinbase)]
  {
    var a, b := Creates(txid, outputs[..k + 1], height, isCoinbase), Creates(txid, outputs[..k], height, isCoinbase);
    var e := UtxoEntry(outputs[k], height, isCoinbase);
    forall o | o in a ensures o in b[OutPoint(txid, k) := e] && a[o] == b[OutPoint(txid, k) := e][o] {
      var i :| 0 <= i <= k && o == OutPoint(txid, i);
      if i < k { assert o in b; }
    }
    forall o | o in b[OutPoint(txid, k) := e] ensures o in a {
      if o == OutPoint(txid, k) {
        assert 0 <= k < |outputs[..k + 1]|;
      } else {
        var i :| 0 <= i < k && o == OutPoint(txid, i);
        assert 0 <= i < |outputs[..k + 1]|;
      }
    }
  }

  lemma RemoveStep(m: UtxoMap, gone: set<OutPoint>, o: OutPoint)
    ensures m - gone - {o} == m - (gone + {o})
  {
  }

  lemma InsertStep(m: UtxoMap, more: UtxoMap, o: OutPoint, e: UtxoEntry)
    ensures (m + more)[o := e] == m + more[o := e]
  {
  }

  lemma NothingApplied(id: Hash, height: int, isCoinbase: bool)
    ensures Spends([]) == {} && Creates(id, [], height, isCoinbase) == map[]
  {
  }

  class InMemoryUtxoView {
    var entries: UtxoMap

    constructor (initial: UtxoMap)
      ensures entries == initial
    {
      entries := initial;
    }

    method Get(o: OutPoint) returns (r: Option<UtxoEntry>)
      ensures r == Lookup(entries, o)
    {
      r := Lookup(entries, o);
    }

    method ApplyTransaction(tx: Transaction, txid: Txid, height: int, isCoinbase: bool)
      modifies this
      ensures entries == AfterTx(old(entries), tx, txid, height, isCoinbase)
    {
      hide Spends, Creates;
      NothingApplied(txid(tx), height, isCoinbase);
      var k := 0;
      assert tx.inputs[..0] == [] && tx.outputs[..0] == [];
      while k < |tx.inputs|
        invariant 0 <= k <= |tx.inputs|
        invariant entries == old(entries) - Spends(tx.inputs[..k])
      {
        SpendsStep(tx.inputs, k);
        RemoveStep(old(entries), Spends(tx.inputs[..k]), tx.inputs[k].previousOutput);
        entries := entries - {tx.inputs[k].previousOutput};
        k := k + 1;
      }
      assert tx.inputs[..k] == tx.inputs;
      var id := txid(tx);
      ghost var kept := entries;
      k := 0;
      while k < |tx.outputs|
        invariant 0 <= k <= |tx.outputs|
        invariant entries == kept + Creates(id, tx.outputs[..k], height, isCoinbase)
      {
        CreatesStep(id, tx.outputs, k, height, isCoinbase);
        InsertStep(kept, Creates(id, tx.outputs[..k], height, isCoinbase), OutPoint(id, k), UtxoEntry(tx.outputs[k], height, isCoinbase));
        entries := entries[OutPoint(id, k) := UtxoEntry(tx.outputs[k], height, isCoinbase)];
        k := k + 1;
      }
      assert tx.outputs[..k] == tx.outputs;
    }

    method ApplyBlock(block: Block, txid: Txid, height: int)
      modifies this
      ensures entries == AfterBlock(old(entries), block, txid, height)
    {
      var k := 0;
      while k < |block.transactions|
        invariant 0 <= k <= |block.transactions|
        invariant AfterTxs(entries, block.transactions, k, txid, height) == AfterBlock(old(entries), block, txid, height)
      {
        ApplyTransaction(block.transactions[k], txid, height, k == 0);
        k := k + 1;
      }
    }

    method Clone() returns (copy: InMemoryUtxoView)
      ensures fresh(copy) && copy.entries == entries
    {
      copy := new InMemoryUtxoView(entries);
    }
  }

  // ---- the overlay ----

  /** What an overlay remembers: outputs created and outpoints spent since it was opened. */
  datatype Staged = Staged(added: UtxoMap, spent: set<OutPoint>)

  /** No outpoint is both live and spent in the overlay. */
  ghost predicate Coherent(s: Staged) {
    s.added.Keys !! s.spent
  }

  /** The full UTXO set that an overlay over `base` stands for. */
  function Materialize(base: UtxoMap, s: Staged): UtxoMap {
    (base - s.spent) + s.added
  }

  function StageSpends(s: Staged, inputs: seq<TxInput>): Staged {
    Staged(s.added - Spends(inputs), s.spent + Spends(inputs))
  }

  function StageCreates(s: Staged, created: UtxoMap): Staged {
    Staged(s.added + created, s.spent - created.Keys)
  }

  function StageTx(s: Staged, tx: Transaction, txid: Txid, height: int, isCoinbase: bool): Staged {
    StageCreates(StageSpends(s, tx.inputs), Creates(txid(tx), tx.outputs, height, isCoinbase))
  }

  lemma StageNothing(s: Staged, txid: Hash, height: int, isCoinbase: bool)
    ensures StageSpends(s, []) == s
    ensures StageCreates(s, Creates(txid, [], height, isCoinbase)) == s
  {
  }

  lemma StageSpendsStep(s: Staged, inputs: seq<TxInput>, k: nat)
    requires k < |inputs|
    ensures var s' := StageSpends(s, inputs[..k]); var o := inputs[k].previousOutput;
            StageSpends(s, inputs[..k + 1]) == Staged(s'.added - {o}, s'.spent + {o})
  {
    SpendsStep(inputs, k);
  }

  lemma StageCreatesStep(s: Staged, created: UtxoMap, o: OutPoint, e: UtxoEntry)
    ensures var s' := StageCreates(s, created);
            StageCreates(s, created[o := e]) == Staged(s'.added[o := e], s'.spent - {o})
  {
  }

  lemma SpendsRefine(base: UtxoMap, s: Staged, inputs: seq<TxInput>)
    requires Coherent(s)
    ensures Coherent(StageSpends(s, inputs))
    ensures Materialize(base, StageSpends(s, inputs)) == Materialize(base, s) - Spends(inputs)
  {
    hide Spends;
  }

  lemma CreatesRefine(base: UtxoMap, s: Staged, created: UtxoMap)
    requires Coherent(s)
    ensures Coherent(StageCreates(s, created))
    ensures Materialize(base, StageCreates(s, created)) == Materialize(base, s) + created
  {
  }

  /** Staging a transaction is applying it to the full copy. */
  lemma StageTxRefines(base: UtxoMap, s: Staged, tx: Transaction, txid: Txid, height: int, isCoinbase: bool)
    requires Coherent(s)
    ensures Coherent(StageTx(s, tx, txid, height, isCoinbase))
    ensures Materialize(base, StageTx(s, tx, txid, height, isCoinbase))
            == AfterTx(Materialize(base, s), tx, txid, height, isCoinbase)
  {
    hide Coherent, Materialize, StageSpends, StageCreates, Spends, Creates;
    SpendsRefine(base, s, tx.inputs);
    CreatesRefine(base, StageSpends(s, tx.inputs), Creates(txid(tx), tx.outputs, height, isCoinbase));
  }

  class OverlayUtxoView {
    const base: InMemoryUtxoView
    var added: UtxoMap
    var spent: set<OutPoint>

    ghost function State(): Staged
      reads this
    {
      Staged(added, spent)
    }

    ghost predicate Valid()
      reads this
    {
      Coherent(State())
    }

    ghost function View(): UtxoMap
      reads this, base
    {
      Materialize(base.entries, State())
    }

    constructor (base: InMemoryUtxoView, initial: Staged)
      ensures this.base == base && State() == initial
    {
      this.base := base;
      added, spent := initial.added, initial.spent;
    }

    /** A lookup answers as the full copy would. */
    method Get(o: OutPoint) returns (r: Option<UtxoEntry>)
      requires Valid()
      ensures r == Lookup(View(), o)
    {
      if o in spent { return None; }
      if o in added { return Some(added[o]); }
      r := base.Get(o);
    }

    /** The base is not in the frame: staging never writes through. */
    method ApplyTransaction(tx: Transaction, txid: Txid, height: int, isCoinbase: bool)
      requires Valid()
      modifies this
      ensures Valid()
      ensures State() == StageTx(old(State()), tx, txid, height, isCoinbase)
      ensures View() == AfterTx(old(View()), tx, txid, height, isCoinbase)
    {
      hide StageSpends, StageCreates, Creates, Spends, Materialize, AfterTx;
      StageTxRefines(base.entries, State(), tx, txid, height, isCoinbase);
      ghost var start := State();
      var k := 0;
      StageNothing(start, [], height, isCoinbase);
      assert tx.inputs[..0] == [];
      while k < |tx.inputs|
        invariant 0 <= k <= |tx.inputs|
        invariant Staged(added, spent) == StageSpends(start, tx.inputs[..k])
      {
        StageSpendsStep(start, tx.inputs, k);
        added := added - {tx.inputs[k].previousOutput};
        spent := spent + {tx.inputs[k].previousOutput};
        k := k + 1;
      }
      assert tx.inputs[..k] == tx.inputs;
      var id := txid(tx);
      ghost var middle := State();
      StageNothing(middle, id, height, isCoinbase);
      assert tx.outputs[..0] == [];
      k := 0;
      while k < |tx.outputs|
        invariant 0 <= k <= |tx.outputs|
        invariant Staged(added, spent) == StageCreates(middle, Creates(id, tx.outputs[..k], height, isCoinbase))
      {
        CreatesStep(id, tx.outputs, k, height, isCoinbase);
        var e := UtxoEntry(tx.outputs[k], height, isCoinbase);
        StageCreatesStep(middle, Creates(id, tx.outputs[..k], height, isCoinbase), OutPoint(id, k), e);
        spent := spent - {OutPoint(id, k)};
        added := added[OutPoint(id, k) := e];
        k := k + 1;
      }
      assert tx.outputs[..k] == tx.outputs;
    }

    method ApplyBlock(block: Block, txid: Txid, height: int)
      requires Valid()
      modifies this
      ensures Valid() && View() == AfterBlock(old(View()), block, txid, height)
    {
      var k := 0;
      while k < |block.transactions|
        invariant 0 <= k <= |block.transactions| && Valid()
        invariant AfterTxs(View(), block.transactions, k, txid, height) == AfterBlock(old(View()), block, txid, height)
      {
        ApplyTransaction(block.transactions[k], txid, height, k == 0);
        k := k + 1;
      }
    }

    /** The clone shares the base and nothing else. */
    method Clone() returns (copy: OverlayUtxoView)
      requires Valid()
      ensures fresh(copy) && copy.base == base && copy.State() == State() && copy.Valid()
    {
      copy := new OverlayUtxoView(base, Staged(added, spent));
    }
  }

  // ---- runs over a family of clones ----

  datatype Step =
    | Apply(view: nat, tx: Transaction, height: int, isCoinbase: bool)
    | Clone(view: nat)

  ghost predicate Runnable(views: nat, steps: seq<Step>)
    decreases steps
  {
    steps == [] || (steps[0].view < views && Runnable(if steps[0].Clone? then views + 1 else views, steps[1..]))
  }

  /** Overlays opened on one base: a clone starts from its original's state, a transaction changes one overlay. */
  function RunOverlays(views: seq<Staged>, steps: seq<Step>, txid: Txid): (r: seq<Staged>)
    requires Runnable(|views|, steps)
    decreases steps
  {
    if steps == [] then views
    else
      var s := steps[0];
      match s
      case Apply(v, tx, h, cb) => RunOverlays(views[v := StageTx(views[v], tx, txid, h, cb)], steps[1..], txid)
      case Clone(v) => RunOverlays(views + [views[v]], steps[1..], txid)
  }

  /** The same run on full copies of the UTXO set. */
  function RunCopies(views: seq<UtxoMap>, steps: seq<Step>, txid: Txid): (r: seq<UtxoMap>)
    requires Runnable(|views|, steps)
    decreases steps
  {
    if steps == [] then views
    else
      match steps[0]
      case Apply(v, tx, h, cb) => RunCopies(views[v := AfterTx(views[v], tx, txid, h, cb)], steps[1..], txid)
      case Clone(v) => RunCopies(views + [views[v]], steps[1..], txid)
  }

  ghost predicate Mirrors(base: UtxoMap, overlays: seq<Staged>, copies: seq<UtxoMap>) {
    && |overlays| == |copies|
    && (forall i :: 0 <= i < |overlays| ==> Coherent(overlays[i]) && Materialize(base, overlays[i]) == copies[i])
  }

  /** After any run of transactions and clones every overlay still answers as its own full copy. */
  lemma {:induction false} OverlaysMirrorCopies(base: UtxoMap, overlays: seq<Staged>, copies: seq<UtxoMap>, steps: seq<Step>, txid: Txid)
    requires Mirrors(base, overlays, copies) && Runnable(|overlays|, steps)
    ensures Mirrors(base, RunOverlays(overlays, steps, txid), RunCopies(copies, steps, txid))
    decreases steps
  {
    if steps != [] {
      match steps[0]
      case Apply(v, tx, h, cb) =>
        StageTxRefines(base, overlays[v], tx, txid, h, cb);
        OverlaysMirrorCopies(base, overlays[v := StageTx(overlays[v], tx, txid, h, cb)],
                             copies[v := AfterTx(copies[v], tx, txid, h, cb)], steps[1..], txid);
      case Clone(v) =>
        OverlaysMirrorCopies(base, overlays + [overlays[v]], copies + [copies[v]], steps[1..], txid);
    }
  }

  ghost predicate Touches(steps: seq<Step>, v: nat) {
    exists i :: 0 <= i < |steps| && steps[i].Apply? && steps[i].view == v
  }

  /** A run changes only the overlays it applies transactions to, whatever its clones do. */
  lemma {:induction false} SiblingsUntouched(overlays: seq<Staged>, steps: seq<Step>, txid: Txid, v: nat)
    requires Runnable(|overlays|, steps) && v < |overlays|
    requires !Touches(steps, v)
    ensures v < |RunOverlays(overlays, steps, txid)|
    ensures RunOverlays(overlays, steps, txid)[v] == overlays[v]
    decreases steps
  {
    if steps != [] {
      forall i | 0 <= i < |steps[1..]| ensures !(steps[1..][i].Apply? && steps[1..][i].view == v) {
        assert steps[1..][i] == steps[i + 1];
      }
      match steps[0]
      case Apply(w, tx, h, cb) =>
        SiblingsUntouched(overlays[w := StageTx(overlays[w], tx, txid, h, cb)], steps[1..], txid, v);
      case Clone(w) =>
        SiblingsUntouched(overlays + [overlays[w]], steps[1..], txid, v);
    }
  }
}
