/** `MempoolManager`: admission, replacement, expiry, eviction and reconciliation (node/mempool.py). */
module Mempool {
  import opened Prelude
  import opened Models
  import opened Oracles
  import opened Sorting
  import opened Nodes
  import opened Utxo
  import opened Validation
  import opened Serialization
  import opened MempoolPolicy

  // ---- the admission checks as the code runs them ----

  method CheckSpecialPolicy(policy: Policy, tx: Transaction, rows: seq<Row>) returns (ok: bool)
    ensures ok == SpecialPolicyOk(policy, tx, rows)
  {
    hide Count, RegistrationsCompatible, RenewalsCompatible;
    if !IsSpecial(tx) { return true; }
    if Count(SpecialTx, rows) >= policy.maxSpecial { return false; }
    KindsExclusive(tx);
    if InClass(RegisterTx, tx) {
      if Count(RegisterTx, rows) >= policy.maxRegister { return false; }
      var k := 0;
      while k < |rows|
        invariant 0 <= k <= |rows|
        invariant forall j :: 0 <= j < k ==> RegistrationsCompatible(rows[j].transaction, tx)
      {
        if !RegistrationsCompatible(rows[k].transaction, tx) { return false; }
        k := k + 1;
      }
      return true;
    }
    if InClass(RenewTx, tx) {
      if Count(RenewTx, rows) >= policy.maxRenew { return false; }
      var k := 0;
      while k < |rows|
        invariant 0 <= k <= |rows|
        invariant forall j :: 0 <= j < k ==> RenewalsCompatible(rows[j].transaction, tx)
      {
        if !RenewalsCompatible(rows[k].transaction, tx) { return false; }
        k := k + 1;
      }
    }
    return true;
  }

  /** Where the accumulated identities come from. */
  ghost predicate Gathered(o: Oracle, rows: seq<Row>, k: nat, existing: set<Identity>)
    requires k <= |rows|
  {
    && (forall j :: 0 <= j < k ==> CoveredBy(o, rows[j].transaction) <= existing)
    && (forall i :: i in existing ==> exists j :: 0 <= j < k && i in CoveredBy(o, rows[j].transaction))
  }

  predicate KeyFree(o: Oracle, tx: Transaction, bundle: Bundle) {
    IsBundle(tx) && o.parseBundle(tx.metadata).Some? ==> BundleKey(o.parseBundle(tx.metadata).value) != BundleKey(bundle)
  }

  lemma GatherStep(o: Oracle, rows: seq<Row>, k: nat, existing: set<Identity>)
    requires k < |rows| && Gathered(o, rows, k, existing)
    ensures Gathered(o, rows, k + 1, existing + CoveredBy(o, rows[k].transaction))
  {
    hide CoveredBy;
    var more := existing + CoveredBy(o, rows[k].transaction);
    forall i | i in more ensures exists j :: 0 <= j < k + 1 && i in CoveredBy(o, rows[j].transaction) {
      if i in existing {
        var j :| 0 <= j < k && i in CoveredBy(o, rows[j].transaction);
      } else {
        assert i in CoveredBy(o, rows[k].transaction);
      }
    }
  }

  lemma GatheredDecides(o: Oracle, tx: Transaction, rows: seq<Row>, bundle: Bundle, existing: set<Identity>)
    requires IsBundle(tx) && o.parseBundle(tx.metadata) == Some(bundle)
    requires Gathered(o, rows, |rows|, existing)
    requires forall j :: 0 <= j < |rows| ==> KeyFree(o, rows[j].transaction, bundle)
    ensures (existing !! IdentitySet(bundle.attestations)) <==> (forall e :: e in rows ==> BundlesCompatible(o, e.transaction, tx))
  {
    hide IdentitySet;
    var ids := IdentitySet(bundle.attestations);
    if existing !! ids {
      forall e | e in rows ensures BundlesCompatible(o, e.transaction, tx) {
        var j :| 0 <= j < |rows| && rows[j] == e;
        assert KeyFree(o, e.transaction, bundle);
        assert CoveredBy(o, e.transaction) <= existing;
      }
    } else {
      var i :| i in existing && i in ids;
      var j :| 0 <= j < |rows| && i in CoveredBy(o, rows[j].transaction);
      assert !BundlesCompatible(o, rows[j].transaction, tx);
    }
  }

  method CheckBundlePolicy(o: Oracle, policy: Policy, tx: Transaction, rows: seq<Row>) returns (ok: bool)
    ensures ok == BundlePolicyOk(o, policy, tx, rows)
  {
    hide Count, IdentitySet, Gathered, BundlesCompatible, CoveredBy;
    if !IsBundle(tx) { return true; }
    if o.parseBundle(tx.metadata).None? { return false; }
    var bundle := o.parseBundle(tx.metadata).value;
    if Count(BundleTx, rows) >= policy.maxBundles { return false; }
    var existing: set<Identity>, k := {}, 0;
    GatherNone(o, rows);
    while k < |rows|
      invariant 0 <= k <= |rows|
      invariant Gathered(o, rows, k, existing)
      invariant forall j :: 0 <= j < k ==> KeyFree(o, rows[j].transaction, bundle)
    {
      if !KeyFree(o, rows[k].transaction, bundle) {
        KeyTaken(o, rows[k].transaction, tx);
        assert rows[k] in rows;
        return false;
      }
      GatherStep(o, rows, k, existing);
      existing := existing + CoveredBy(o, rows[k].transaction);
      k := k + 1;
    }
    GatheredDecides(o, tx, rows, bundle, existing);
    ok := existing !! IdentitySet(bundle.attestations);
  }

  lemma GatherNone(o: Oracle, rows: seq<Row>)
    ensures Gathered(o, rows, 0, {})
  {
  }

  lemma KeyTaken(o: Oracle, a: Transaction, b: Transaction)
    requires IsBundle(b) && o.parseBundle(b.metadata).Some? && !KeyFree(o, a, o.parseBundle(b.metadata).value)
    ensures !BundlesCompatible(o, a, b)
  {
  }

  method CheckSpends(tx: Transaction, rows: seq<Row>) returns (ok: bool)
    ensures ok == SpendPolicyOk(tx, rows)
  {
    hide Spends;
    var reserved: set<OutPoint>, k := {}, 0;
    while k < |rows|
      invariant 0 <= k <= |rows|
      invariant forall j :: 0 <= j < k ==> Spends(rows[j].transaction.inputs) <= reserved
      invariant forall x :: x in reserved ==> exists j :: 0 <= j < k && x in Spends(rows[j].transaction.inputs)
    {
      reserved := reserved + Spends(rows[k].transaction.inputs);
      k := k + 1;
    }
    ok := reserved !! Spends(tx.inputs);
    if !ok {
      var x :| x in reserved && x in Spends(tx.inputs);
      var j :| 0 <= j < |rows| && x in Spends(rows[j].transaction.inputs);
      assert rows[j] in rows;
    }
  }

  /** What the rows seen so far contribute to a replacement. */
  ghost predicate Scanned(o: Oracle, rows: seq<Row>, k: nat, incoming: Bundle, keys: set<Hash>, ids: set<Identity>)
    requires k <= |rows|
  {
    && keys == (set j | 0 <= j < k && Superseded(o, rows[j].transaction, incoming) :: rows[j].txid)
    && ids == (set j, i | 0 <= j < k && Superseded(o, rows[j].transaction, incoming) && i in CoveredBy(o, rows[j].transaction) :: i)
    && (forall j :: 0 <= j < k ==> !Overlaps(o, rows[j].transaction, incoming))
  }

  lemma ScanStep(o: Oracle, rows: seq<Row>, k: nat, incoming: Bundle, keys: set<Hash>, ids: set<Identity>)
    requires k < |rows| && Scanned(o, rows, k, incoming, keys, ids) && !Overlaps(o, rows[k].transaction, incoming)
    ensures Superseded(o, rows[k].transaction, incoming) ==>
      Scanned(o, rows, k + 1, incoming, keys + {rows[k].txid}, ids + CoveredBy(o, rows[k].transaction))
    ensures !Superseded(o, rows[k].transaction, incoming) ==> Scanned(o, rows, k + 1, incoming, keys, ids)
  {
    hide Superseded, Overlaps, CoveredBy;
  }

  lemma ScanComplete(o: Oracle, repository: Repository, rows: seq<Row>, incoming: Bundle, keys: set<Hash>, ids: set<Identity>)
    requires Keyed(o, repository) && Lists(repository, rows) && Scanned(o, rows, |rows|, incoming, keys, ids)
    ensures keys == SupersededKeys(o, repository, incoming) && ids == SupersededIdentities(o, repository, incoming)
    ensures forall t :: t in repository ==> !Overlaps(o, repository[t].transaction, incoming)
  {
    hide Superseded, Overlaps, CoveredBy;
    forall t | t in repository ensures exists j :: 0 <= j < |rows| && rows[j] == repository[t] && rows[j].txid == t {
      RowOf(o, repository, rows, t);
    }
  }

  lemma RowOf(o: Oracle, repository: Repository, rows: seq<Row>, t: Hash)
    requires Keyed(o, repository) && Lists(repository, rows) && t in repository
    ensures exists j :: 0 <= j < |rows| && rows[j] == repository[t] && rows[j].txid == t
  {
    assert repository[t] in rows;
  }

  /** `_reward_attestation_bundle_replacement_txids`. */
  method FindReplaced(o: Oracle, repository: Repository, tx: Transaction) returns (keys: set<Hash>)
    requires Keyed(o, repository)
    ensures keys == Replaced(o, repository, tx)
  {
    hide ListAll, Lists, Scanned, Superseded, Overlaps, CoveredBy, IdentitySet, SupersededKeys, SupersededIdentities;
    if !IsBundle(tx) || o.parseBundle(tx.metadata).None? { return {}; }
    var incoming := o.parseBundle(tx.metadata).value;
    if !Aggregate(incoming) { return {}; }
    var rows := ListAll(repository);
    ListAllLists(o, repository);
    var ids: set<Identity>, k := {}, 0;
    keys := {};
    ScanNone(o, rows, incoming);
    while k < |rows|
      invariant 0 <= k <= |rows| && Scanned(o, rows, k, incoming, keys, ids)
    {
      if Overlaps(o, rows[k].transaction, incoming) {
        ListedIsStored(repository, rows, k);
        return {};
      }
      ScanStep(o, rows, k, incoming, keys, ids);
      if Superseded(o, rows[k].transaction, incoming) {
        keys, ids := keys + {rows[k].txid}, ids + CoveredBy(o, rows[k].transaction);
      }
      k := k + 1;
    }
    ScanComplete(o, repository, rows, incoming, keys, ids);
    if !(|keys| > 1 || |IdentitySet(incoming.attestations)| > |ids|) { keys := {}; }
  }

  lemma ScanNone(o: Oracle, rows: seq<Row>, incoming: Bundle)
    ensures Scanned(o, rows, 0, incoming, {}, {})
  {
  }

  lemma ListedIsStored(repository: Repository, rows: seq<Row>, k: nat)
    requires Lists(repository, rows) && k < |rows|
    ensures rows[k].txid in repository && repository[rows[k].txid] == rows[k]
  {
    assert rows[k] in rows;
  }

  // ---- eviction ----

  /** The rows of `before` without the first `n` of `order`. */
  ghost predicate Dropped(before: Repository, order: seq<Row>, n: nat, after: Repository)
    requires n <= |order|
  {
    && (forall t :: t in after ==> t in before && after[t] == before[t])
    && (forall t :: t in before && t !in after ==> exists i :: 0 <= i < n && order[i].txid == t)
    && (forall i :: 0 <= i < n ==> order[i].txid !in after)
    && |after| == |before| - n
  }

  lemma DropStep(before: Repository, order: seq<Row>, n: nat, after: Repository)
    requires n < |order| && Lists(before, order) && Dropped(before, order, n, after)
    ensures Dropped(before, order, n + 1, after - {order[n].txid})
  {
    var t := order[n].txid;
    ListedIsStored(before, order, n);
    assert t in after;
    var rest := after - {t};
    assert rest.Keys == after.Keys - {t};
    assert |rest.Keys| == |after.Keys| - 1;
    forall u | u in before && u !in rest ensures exists i :: 0 <= i < n + 1 && order[i].txid == u {
      if u != t {
        var i :| 0 <= i < n && order[i].txid == u;
      }
    }
  }

  lemma DropsLowest(o: Oracle, before: Repository, order: seq<Row>, n: nat, after: Repository, capacity: nat)
    requires Keyed(o, before) && Lists(before, order) && Sorted(EvictLe, order)
    requires n <= |order| && n == |order| - capacity && Dropped(before, order, n, after)
    ensures EvictedTo(before, after, capacity)
  {
    hide EvictLe;
    forall t, u | t in after && u in before && u !in after ensures EvictLe(before[u], before[t]) {
      var i :| 0 <= i < n && order[i].txid == u;
      ListedIsStored(before, order, i);
      RowOf(o, before, order, t);
      var j :| 0 <= j < |order| && order[j] == before[t] && order[j].txid == t;
      assert j >= n;
    }
  }

  /** `MempoolManager` over its repository. */
  class MempoolManager {
    const o: Oracle
    const policy: Policy
    var repository: Repository

    ghost predicate Valid()
      reads this
    {
      RepositoryOk(o, policy, repository) && |repository| <= policy.capacity
    }

    constructor (o: Oracle, policy: Policy)
      ensures Valid() && this.o == o && this.policy == policy && repository == map[]
    {
      this.o, this.policy, repository := o, policy, map[];
      EmptyOk(o, policy);
    }

    /** `_prune_expired`. */
    method PruneExpired(now: int)
      requires Keyed(o, repository)
      modifies this
      ensures repository == Unexpired(old(repository), now, policy.ttl)
    {
      hide ListAll, Lists;
      var rows := ListAll(repository);
      ListAllLists(o, repository);
      var k := 0;
      while k < |rows|
        invariant 0 <= k <= |rows|
        invariant forall t :: t in repository ==> t in old(repository) && repository[t] == old(repository)[t]
        invariant forall t :: t in old(repository) && t !in repository ==> now - old(repository)[t].addedAt >= policy.ttl
        invariant forall j :: 0 <= j < k && now - rows[j].addedAt >= policy.ttl ==> rows[j].txid !in repository
      {
        ListedIsStored(old(repository), rows, k);
        if now - rows[k].addedAt >= policy.ttl { repository := repository - {rows[k].txid}; }
        k := k + 1;
      }
      forall t | t in repository ensures now - repository[t].addedAt < policy.ttl {
        RowOf(o, old(repository), rows, t);
      }
    }

    /** `_evict_if_needed`. */
    method EvictIfNeeded()
      requires Keyed(o, repository)
      modifies this
      ensures EvictedTo(old(repository), repository, policy.capacity)
    {
      hide ListAll, Sort, Lists, Dropped, EvictedTo, Keyed, Sorted;
      var rows := ListAll(repository);
      EvictionOrder(o, repository);
      if |rows| <= policy.capacity {
        EvictNone(repository, policy.capacity);
        return;
      }
      var order := Sort(EvictLe, rows);
      var k := 0;
      DropNone(repository, order);
      while k < |order| - policy.capacity
        invariant 0 <= k <= |order| - policy.capacity
        invariant Dropped(old(repository), order, k, repository)
      {
        DropStep(old(repository), order, k, repository);
        repository := repository - {order[k].txid};
        k := k + 1;
      }
      DropsLowest(o, old(repository), order, k, repository, policy.capacity);
    }

    /** `accept`: in or out exactly by the rules; then replacement, expiry and eviction, and nothing else. */
    method Accept(ctx: Context, ledger: Ledger, confirmed: set<Hash>, tx: Transaction, addedAt: int, now: int) returns (r: Result<int>)
      requires Valid() && ctx.o == o
      modifies this
      ensures Valid()
      ensures r.Ok? <==> Admissible(policy, ctx, ledger, confirmed, old(repository), tx)
      ensures r.Err? ==> repository == old(repository)
      ensures r.Ok? ==> r == FeeAfter(ctx, ledger, ListAll(old(repository)), tx)
      ensures r.Ok? ==>
        EvictedTo(Unexpired(Admitted(o, old(repository), Row(o.txid(tx), tx, r.value, addedAt)), now, policy.ttl), repository, policy.capacity)
    {
      hide RepositoryOk, Replaced, ListAll, PoliciesOk, FeeAfter, StandardOk, FeeOk, IsCoinbase, EvictedTo, Unexpired;
      if IsCoinbase(tx) { return Err(Stateless); }
      if !StandardOk(o, policy, tx) { return Err(Stateless); }
      var txid := o.txid(tx);
      if txid in repository || txid in confirmed { return Err(Contextual); }
      OkKeyed(o, policy, repository);
      var replaced := FindReplaced(o, repository, tx);
      var rows := Effective(ListAll(repository), replaced);
      var ok := CheckPolicies(o, policy, tx, rows);
      if !ok { return Err(Contextual); }
      var fee := FeeWithMempool(ctx, ledger, ListAll(repository), tx);
      if fee.Err? { return fee; }
      if !FeeOk(policy, tx, fee.value) { return Err(Contextual); }
      Install(replaced, Row(txid, tx, fee.value, addedAt));
      AdmittedKeeps(policy, ctx, ledger, confirmed, old(repository), Row(txid, tx, fee.value, addedAt));
      Trim(now);
      r := fee;
    }

    method Install(replaced: set<Hash>, row: Row)
      modifies this
      ensures repository == (old(repository) - replaced)[row.txid := row]
    {
      repository := repository - replaced;
      repository := repository[row.txid := row];
    }

    /** Expiry, then eviction. */
    method Trim(now: int)
      requires RepositoryOk(o, policy, repository)
      modifies this
      ensures Valid()
      ensures EvictedTo(Unexpired(old(repository), now, policy.ttl), repository, policy.capacity)
    {
      hide RepositoryOk;
      OkKeyed(o, policy, repository);
      PruneExpired(now);
      SubsetKeeps(o, policy, old(repository), repository);
      OkKeyed(o, policy, repository);
      ghost var kept := repository;
      EvictIfNeeded();
      SubsetKeeps(o, policy, kept, repository);
    }

    /**
     * `reconcile` rebuilds the repository from its own rows and the extra transactions. It raises exactly
     * when a `ValueError` escapes from one of them, and then keeps what it had taken back so far.
     */
    method Reconcile(ctx: Context, ledger: Ledger, confirmed: set<Hash>, extras: seq<Transaction>, now: int)
      returns (raised: bool, ghost at: nat)
      requires Valid() && ctx.o == o
      modifies this
      ensures RepositoryOk(o, policy, repository) && (!raised ==> Valid())
      ensures var queue := Queue(ListAll(old(repository)), extras, now);
              && at <= |queue| && raised == (at < |queue|)
              && (forall i :: 0 <= i < at ==> !EscapesAt(policy, ctx, ledger, confirmed, now, queue, i))
              && (raised ==> EscapesAt(policy, ctx, ledger, confirmed, now, queue, at))
              && (raised ==> repository == Latest(ReadmitAll(policy, ctx, ledger, confirmed, now, queue[..at])))
              && (!raised ==>
                    EvictedTo(Latest(ReadmitAll(policy, ctx, ledger, confirmed, now, queue)), repository, policy.capacity))
    {
      hide RepositoryOk, ListAll, EvictedTo, EscapesAt, Latest, ReadmitAll, Queue, Keyed;
      var queue := Queue(ListAll(repository), extras, now);
      raised, at := ReadmitQueue(ctx, ledger, confirmed, now, queue);
      if raised { return; }
      OkKeyed(o, policy, repository);
      ghost var kept := repository;
      EvictIfNeeded();
      EvictKeeps(o, policy, kept, repository);
      assert queue[..at] == queue;
    }

    /** The readmission loop, on a cleared repository; it stops where an exception escapes. */
    method ReadmitQueue(ctx: Context, ledger: Ledger, confirmed: set<Hash>, now: int, queue: seq<Queued>) returns (raised: bool, ghost at: nat)
      requires ctx.o == o
      modifies this
      ensures RepositoryOk(o, policy, repository)
      ensures at <= |queue| && raised == (at < |queue|)
      ensures forall i :: 0 <= i < at ==> !EscapesAt(policy, ctx, ledger, confirmed, now, queue, i)
      ensures raised ==> EscapesAt(policy, ctx, ledger, confirmed, now, queue, at)
      ensures repository == Latest(ReadmitAll(policy, ctx, ledger, confirmed, now, queue[..at]))
    {
      hide RepositoryOk, Readmissible, TransactionFits, Latest, ReadmitAll, ReadmitOne, Replay, Escapes;
      repository := map[];
      var pending: seq<Row>, view, k := [], ledger.utxo, 0;
      at := 0;
      ReadmitNone(policy, ctx, ledger, confirmed, now, queue);
      while k < |queue|
        invariant 0 <= k <= |queue| && at == k
        invariant forall i :: 0 <= i < k ==> !EscapesAt(policy, ctx, ledger, confirmed, now, queue, i)
        invariant pending == ReadmitAll(policy, ctx, ledger, confirmed, now, queue[..k]) && repository == Latest(pending)
        invariant view == Replay(ledger.utxo, pending, o.txid, ctx.height)
      {
        ReadmitStep(policy, ctx, ledger, confirmed, now, queue, k);
        var rows, next, escaped := Readmit(ctx, ledger, confirmed, now, pending, view, queue[k]);
        if escaped {
          ReadmittedOk(policy, ctx, ledger, confirmed, now, queue[..k]);
          return true, at;
        }
        pending, view := rows, next;
        k, at := k + 1, at + 1;
      }
      ReadmittedOk(policy, ctx, ledger, confirmed, now, queue[..k]);
      return false, at;
    }

    /** `readmit_fast`; `escaped` tells that a `ValueError` got out of it. */
    method Readmit(ctx: Context, ledger: Ledger, confirmed: set<Hash>, now: int, pending: seq<Row>, view: UtxoMap, q: Queued)
      returns (rows: seq<Row>, next: UtxoMap, escaped: bool)
      requires ctx.o == o && repository == Latest(pending) && view == Replay(ledger.utxo, pending, o.txid, ctx.height)
      modifies this
      ensures escaped == Escapes(policy, ctx, ledger, confirmed, now, pending, q)
      ensures escaped ==> repository == old(repository)
      ensures !escaped ==> rows == ReadmitOne(policy, ctx, ledger, confirmed, now, pending, q)
      ensures !escaped ==> repository == Latest(rows) && next == Replay(ledger.utxo, rows, o.txid, ctx.height)
    {
      hide PoliciesOk, FeeOn, TransactionFits, FeeOk, AfterTx;
      rows, next, escaped := pending, view, false;
      if now - q.1 >= policy.ttl { return; }
      if !TransactionFits(q.0) { return pending, view, true; }
      if !StandardOk(o, policy, q.0) { return; }
      if o.txid(q.0) in confirmed { return; }
      var ok := CheckPolicies(o, policy, q.0, pending);
      if !ok { return; }
      var fee := FeeOn(ctx, ledger, view, q.0);
      if fee == Err(Malformed) { return pending, view, true; }
      if fee.Err? || !FeeOk(policy, q.0, fee.value) { return; }
      next := AfterTx(view, q.0, o.txid, ctx.height, false);
      var row := Row(o.txid(q.0), q.0, fee.value, q.1);
      repository := repository[row.txid := row];
      rows := pending + [row];
      assert rows[..|rows| - 1] == pending;
    }
  }

  method CheckPolicies(o: Oracle, policy: Policy, tx: Transaction, rows: seq<Row>) returns (ok: bool)
    ensures ok == PoliciesOk(o, policy, tx, rows)
  {
    hide SpecialPolicyOk, BundlePolicyOk, SpendPolicyOk;
    ok := CheckSpecialPolicy(policy, tx, rows);
    if !ok { return; }
    ok := CheckBundlePolicy(o, policy, tx, rows);
    if !ok { return; }
    ok := CheckSpends(tx, rows);
  }

  /** `_snapshot_with_mempool_applied`, then `validate_transaction`. */
  method FeeWithMempool(ctx: Context, ledger: Ledger, rows: seq<Row>, tx: Transaction) returns (r: Result<int>)
    ensures r == FeeAfter(ctx, ledger, rows, tx)
  {
    hide FeeOn, AfterTx;
    var view, k := ledger.utxo, 0;
    while k < |rows|
      invariant 0 <= k <= |rows|
      invariant view == Replay(ledger.utxo, rows[..k], ctx.o.txid, ctx.height)
    {
      assert rows[..k + 1][..k] == rows[..k];
      view := AfterTx(view, rows[k].transaction, ctx.o.txid, ctx.height, false);
      k := k + 1;
    }
    assert rows[..k] == rows;
    r := FeeOn(ctx, ledger, view, tx);
  }

  /** What is taken back, oldest row first, then the extra transactions at the current time. */
  function Queue(rows: seq<Row>, extras: seq<Transaction>, now: int): seq<Queued> {
    seq(|rows| + |extras|, i requires 0 <= i < |rows| + |extras| =>
      if i < |rows| then (rows[i].transaction, rows[i].addedAt) else (extras[i - |rows|], now))
  }

  ghost predicate EscapesAt(policy: Policy, ctx: Context, ledger: Ledger, confirmed: set<Hash>, now: int, queue: seq<Queued>, i: nat)
    requires i < |queue|
  {
    Escapes(policy, ctx, ledger, confirmed, now, ReadmitAll(policy, ctx, ledger, confirmed, now, queue[..i]), queue[i])
  }

  /** A serializable transaction that is neither a reward nor a special-node one never lets an exception escape. */
  lemma PaymentsNeverEscape(policy: Policy, ctx: Context, ledger: Ledger, confirmed: set<Hash>, now: int, rows: seq<Row>, q: Queued)
    requires TransactionFits(q.0) && !IsControl(q.0)
    ensures !Escapes(policy, ctx, ledger, confirmed, now, rows, q)
  {
    hide TransactionFits, StandardOk, PoliciesOk, Replay, TxStateless;
    TotalIsContextual(ctx, Replay(ledger.utxo, rows, ctx.o.txid, ctx.height), q.0, 0);
  }

  lemma {:induction false} TotalIsContextual(ctx: Context, utxo: UtxoMap, tx: Transaction, k: nat)
    requires k <= |tx.inputs|
    ensures InputTotal(ctx, utxo, tx, k).Err? ==> InputTotal(ctx, utxo, tx, k).fault == Contextual
    decreases |tx.inputs| - k
  {
    if k < |tx.inputs| { TotalIsContextual(ctx, utxo, tx, k + 1); }
  }

  lemma ReadmitNone(policy: Policy, ctx: Context, ledger: Ledger, confirmed: set<Hash>, now: int, queue: seq<Queued>)
    ensures ReadmitAll(policy, ctx, ledger, confirmed, now, queue[..0]) == [] && Latest([]) == map[]
    ensures Replay(ledger.utxo, [], ctx.o.txid, ctx.height) == ledger.utxo
  {
  }

  lemma ReadmitStep(policy: Policy, ctx: Context, ledger: Ledger, confirmed: set<Hash>, now: int, queue: seq<Queued>, k: nat)
    requires k < |queue|
    ensures ReadmitAll(policy, ctx, ledger, confirmed, now, queue[..k + 1])
         == ReadmitOne(policy, ctx, ledger, confirmed, now, ReadmitAll(policy, ctx, ledger, confirmed, now, queue[..k]), queue[k])
  {
    hide ReadmitOne;
    assert queue[..k + 1][..k] == queue[..k];
  }

  lemma EvictKeeps(o: Oracle, policy: Policy, before: Repository, after: Repository)
    requires RepositoryOk(o, policy, before) && EvictedTo(before, after, policy.capacity)
    ensures RepositoryOk(o, policy, after) && |after| <= policy.capacity
  {
    hide RepositoryOk;
    SubsetKeeps(o, policy, before, after);
  }

  lemma EvictionOrder(o: Oracle, repository: Repository)
    requires Keyed(o, repository)
    ensures |ListAll(repository)| == |repository| == |Sort(EvictLe, ListAll(repository))|
    ensures Lists(repository, Sort(EvictLe, ListAll(repository)))
    ensures Sorted(EvictLe, Sort(EvictLe, ListAll(repository)))
  {
    hide ListAll, Sort, EvictLe;
    ListAllLists(o, repository);
    SortLists(repository, EvictLe, ListAll(repository));
    Orders();
    SortSorts(EvictLe, ListAll(repository));
  }

  lemma EvictNone(repository: Repository, capacity: nat)
    requires |repository| <= capacity
    ensures EvictedTo(repository, repository, capacity)
  {
  }

  lemma DropNone(repository: Repository, order: seq<Row>)
    ensures Dropped(repository, order, 0, repository)
  {
  }
}
