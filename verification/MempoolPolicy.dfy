/** What the mempool admits beside what it already holds, and what its repository keeps (node/mempool.py, storage/mempool.py). */
module MempoolPolicy {
  import opened Prelude
  import opened Models
  import opened Oracles
  import opened Sorting
  import opened Assignment
  import opened Nodes
  import opened Utxo
  import opened Validation
  import opened Serialization

  /** Node-local limits; `pqOk` is the post-quantum precheck. */
  datatype Policy = Policy(
    minFee: int,
    maxSize: int,
    maxInputs: int,
    maxOutputs: int,
    capacity: nat,
    maxSpecial: nat,
    maxRegister: nat,
    maxRenew: nat,
    maxBundles: nat,
    ttl: int,
    pqOk: Transaction -> bool)

  /** A repository row. */
  datatype Row = Row(txid: Hash, transaction: Transaction, fee: int, addedAt: int)

  type Repository = map<Hash, Row>

  // ---- classes of transactions with a limit of their own ----

  datatype Class = SpecialTx | RegisterTx | RenewTx | BundleTx

  predicate InClass(c: Class, tx: Transaction) {
    match c
    case SpecialTx => IsSpecial(tx)
    case RegisterTx => KindOf(tx) == Some(REGISTER_REWARD_NODE)
    case RenewTx => KindOf(tx) == Some(RENEW_REWARD_NODE)
    case BundleTx => IsBundle(tx)
  }

  function Limit(policy: Policy, c: Class): nat {
    match c
    case SpecialTx => policy.maxSpecial
    case RegisterTx => policy.maxRegister
    case RenewTx => policy.maxRenew
    case BundleTx => policy.maxBundles
  }

  function Count(c: Class, rows: seq<Row>): nat {
    if rows == [] then 0 else (if InClass(c, rows[0].transaction) then 1 else 0) + Count(c, rows[1..])
  }

  // ---- pairs of transactions ----

  function BundleKey(b: Bundle): (int, int, Text) {
    (b.epochIndex, b.window, b.submitter)
  }

  predicate BundlesCompatible(o: Oracle, a: Transaction, b: Transaction) {
    IsBundle(a) && IsBundle(b) && o.parseBundle(a.metadata).Some? && o.parseBundle(b.metadata).Some? ==>
      var x, y := o.parseBundle(a.metadata).value, o.parseBundle(b.metadata).value;
      BundleKey(x) != BundleKey(y) && IdentitySet(x.attestations) !! IdentitySet(y.attestations)
  }

  predicate RegistrationsCompatible(a: Transaction, b: Transaction) {
    InClass(RegisterTx, a) && InClass(RegisterTx, b) ==>
      && Lookup(a.metadata, NODE_ID) != Lookup(b.metadata, NODE_ID)
      && Lookup(a.metadata, OWNER) != Lookup(b.metadata, OWNER)
      && Lookup(a.metadata, NODE_KEY) != Lookup(b.metadata, NODE_KEY)
  }

  predicate RenewalsCompatible(a: Transaction, b: Transaction) {
    InClass(RenewTx, a) && InClass(RenewTx, b) ==>
      !(Lookup(a.metadata, NODE_ID) == Lookup(b.metadata, NODE_ID) && Lookup(a.metadata, RENEWAL_EPOCH) == Lookup(b.metadata, RENEWAL_EPOCH))
  }

  /** Two transactions that may wait side by side. */
  predicate Compatible(o: Oracle, a: Transaction, b: Transaction) {
    && Spends(a.inputs) !! Spends(b.inputs)
    && BundlesCompatible(o, a, b)
    && RegistrationsCompatible(a, b)
    && RenewalsCompatible(a, b)
  }

  // ---- admission checks ----

  /** `_enforce_special_node_mempool_policy`. */
  predicate SpecialPolicyOk(policy: Policy, tx: Transaction, rows: seq<Row>) {
    IsSpecial(tx) ==>
      && Count(SpecialTx, rows) < policy.maxSpecial
      && (InClass(RegisterTx, tx) ==>
            Count(RegisterTx, rows) < policy.maxRegister && forall e :: e in rows ==> RegistrationsCompatible(e.transaction, tx))
      && (InClass(RenewTx, tx) ==>
            Count(RenewTx, rows) < policy.maxRenew && forall e :: e in rows ==> RenewalsCompatible(e.transaction, tx))
  }

  /** `_enforce_reward_attestation_bundle_mempool_policy`. */
  predicate BundlePolicyOk(o: Oracle, policy: Policy, tx: Transaction, rows: seq<Row>) {
    IsBundle(tx) ==>
      && o.parseBundle(tx.metadata).Some?
      && Count(BundleTx, rows) < policy.maxBundles
      && forall e :: e in rows ==> BundlesCompatible(o, e.transaction, tx)
  }

  /** `_ensure_no_mempool_double_spend`. */
  predicate SpendPolicyOk(tx: Transaction, rows: seq<Row>) {
    forall e :: e in rows ==> Spends(e.transaction.inputs) !! Spends(tx.inputs)
  }

  predicate PoliciesOk(o: Oracle, policy: Policy, tx: Transaction, rows: seq<Row>) {
    SpecialPolicyOk(policy, tx, rows) && BundlePolicyOk(o, policy, tx, rows) && SpendPolicyOk(tx, rows)
  }

  /** `_enforce_pre_validation_policy`, for a transaction that can be serialized. */
  predicate StandardOk(o: Oracle, policy: Policy, tx: Transaction) {
    && TransactionFits(tx)
    && |TransactionBytes(tx)| <= policy.maxSize
    && |tx.inputs| <= policy.maxInputs && |tx.outputs| <= policy.maxOutputs
    && policy.pqOk(tx)
    && (forall out :: out in tx.outputs ==> out.value > 0 && o.addressValid(out.recipient))
  }

  /** `_enforce_policy`, beyond the checks above. */
  predicate FeeOk(policy: Policy, tx: Transaction, fee: int) {
    fee >= 0 && (IsBundle(tx) || IsSettlement(tx) || IsSpecial(tx) || fee >= policy.minFee)
  }

  /** `validate_transaction` on the chain state with `utxo` in place of its UTXO set. */
  function FeeOn(ctx: Context, ledger: Ledger, utxo: UtxoMap, tx: Transaction): Result<int> {
    if !TxStateless(ctx.o, tx) then Err(Stateless) else TxFee(ctx, ledger.(utxo := utxo), tx)
  }

  // ---- the repository invariant ----

  ghost predicate Keyed(o: Oracle, repository: Repository) {
    forall t :: t in repository ==> repository[t].txid == t && o.txid(repository[t].transaction) == t
  }

  ghost predicate Parsable(o: Oracle, tx: Transaction) {
    IsBundle(tx) ==> o.parseBundle(tx.metadata).Some?
  }

  /** No two waiting transactions get in each other's way. */
  ghost predicate PairwiseCompatible(o: Oracle, repository: Repository) {
    forall s, t :: s in repository && t in repository && s != t ==> Compatible(o, repository[s].transaction, repository[t].transaction)
  }

  ghost function Members(repository: Repository, c: Class): set<Hash> {
    set t | t in repository && InClass(c, repository[t].transaction)
  }

  ghost predicate WithinLimits(policy: Policy, repository: Repository) {
    forall c :: |Members(repository, c)| <= Limit(policy, c)
  }

  /** Everything but the capacity, which holds between operations. */
  ghost predicate RepositoryOk(o: Oracle, policy: Policy, repository: Repository) {
    && Keyed(o, repository)
    && (forall t :: t in repository ==> Parsable(o, repository[t].transaction) && TransactionFits(repository[t].transaction))
    && PairwiseCompatible(o, repository)
    && WithinLimits(policy, repository)
  }

  lemma CompatibleSymmetric(o: Oracle, a: Transaction, b: Transaction)
    ensures Compatible(o, a, b) == Compatible(o, b, a)
  {
  }

  /** Removing rows keeps the invariant. */
  lemma SubsetKeeps(o: Oracle, policy: Policy, before: Repository, after: Repository)
    requires RepositoryOk(o, policy, before)
    requires forall t :: t in after ==> t in before && after[t] == before[t]
    ensures RepositoryOk(o, policy, after)
  {
    hide Compatible, TransactionFits, InClass, Parsable;
    forall c ensures |Members(after, c)| <= Limit(policy, c) {
      SubsetSize(Members(after, c), Members(before, c));
      assert |Members(before, c)| <= Limit(policy, c);
    }
  }

  /** Rows that cover a class of the repository count at least its members. */
  lemma {:induction false} CountCovers(o: Oracle, c: Class, repository: Repository, keys: set<Hash>, rows: seq<Row>)
    requires Keyed(o, repository)
    requires forall t :: t in keys ==> t in repository && repository[t] in rows && InClass(c, repository[t].transaction)
    ensures |keys| <= Count(c, rows)
  {
    hide InClass;
    if rows == [] {
      assert keys == {};
    } else {
      var rest := keys - {rows[0].txid};
      forall t | t in rest ensures repository[t] in rows[1..] {
        assert repository[t] != rows[0];
      }
      CountCovers(o, c, repository, rest, rows[1..]);
      if rows[0].txid in keys {
        if repository[rows[0].txid] != rows[0] {
          assert repository[rows[0].txid] in rows[1..];
          CountCovers(o, c, repository, keys, rows[1..]);
        }
        assert keys == rest + {rows[0].txid};
      } else {
        assert keys == rest;
      }
    }
  }

  /** The checks against some rows make the newcomer compatible with each of them. */
  lemma PoliciesCompatible(o: Oracle, policy: Policy, tx: Transaction, rows: seq<Row>, e: Row)
    requires PoliciesOk(o, policy, tx, rows) && e in rows
    ensures Compatible(o, e.transaction, tx)
  {
    KindsExclusive(tx);
  }

  lemma PoliciesLeaveRoom(o: Oracle, policy: Policy, tx: Transaction, rows: seq<Row>, c: Class)
    requires PoliciesOk(o, policy, tx, rows) && InClass(c, tx)
    ensures Count(c, rows) < Limit(policy, c)
  {
    KindsExclusive(tx);
  }

  /** Adding a row that passed the checks against rows covering the repository keeps the invariant. */
  lemma AddKeeps(o: Oracle, policy: Policy, repository: Repository, rows: seq<Row>, e: Row)
    requires RepositoryOk(o, policy, repository)
    requires forall t :: t in repository ==> repository[t] in rows
    requires e.txid == o.txid(e.transaction) && TransactionFits(e.transaction)
    requires PoliciesOk(o, policy, e.transaction, rows)
    ensures RepositoryOk(o, policy, repository[e.txid := e])
  {
    hide Compatible, InClass, PoliciesOk, TransactionFits, Count, Limit, Parsable;
    var after := repository[e.txid := e];
    assert Parsable(o, e.transaction) by { AddParsable(o, policy, rows, e); }
    forall s, t | s in after && t in after && s != t ensures Compatible(o, after[s].transaction, after[t].transaction) {
      if s == e.txid {
        PoliciesCompatible(o, policy, e.transaction, rows, repository[t]);
        CompatibleSymmetric(o, repository[t].transaction, e.transaction);
      } else if t == e.txid {
        PoliciesCompatible(o, policy, e.transaction, rows, repository[s]);
      }
    }
    forall c ensures |Members(after, c)| <= Limit(policy, c) {
      AddWithin(o, policy, repository, rows, e, c);
    }
  }

  lemma AddParsable(o: Oracle, policy: Policy, rows: seq<Row>, e: Row)
    requires PoliciesOk(o, policy, e.transaction, rows)
    ensures Parsable(o, e.transaction)
  {
  }

  lemma AddWithin(o: Oracle, policy: Policy, repository: Repository, rows: seq<Row>, e: Row, c: Class)
    requires Keyed(o, repository) && WithinLimits(policy, repository)
    requires forall t :: t in repository ==> repository[t] in rows
    requires PoliciesOk(o, policy, e.transaction, rows)
    ensures |Members(repository[e.txid := e], c)| <= Limit(policy, c)
  {
    hide InClass, PoliciesOk, Count, Limit;
    var after := Members(repository[e.txid := e], c);
    var before := Members(repository, c);
    if InClass(c, e.transaction) {
      PoliciesLeaveRoom(o, policy, e.transaction, rows, c);
      CountCovers(o, c, repository, before, rows);
      SubsetSize(after, before + {e.txid});
    } else {
      SubsetSize(after, before);
      assert |before| <= Limit(policy, c);
    }
  }

  // ---- bundle replacement ----

  function CoveredBy(o: Oracle, tx: Transaction): set<Identity> {
    if IsBundle(tx) && o.parseBundle(tx.metadata).Some? then IdentitySet(o.parseBundle(tx.metadata).value.attestations) else {}
  }

  /** The attestation identities that waiting bundles cover. */
  ghost function Covered(o: Oracle, repository: Repository): set<Identity> {
    set t, i | t in repository && i in CoveredBy(o, repository[t].transaction) :: i
  }

  predicate SameWindow(o: Oracle, tx: Transaction, incoming: Bundle) {
    && IsBundle(tx) && o.parseBundle(tx.metadata).Some?
    && o.parseBundle(tx.metadata).value.epochIndex == incoming.epochIndex
    && o.parseBundle(tx.metadata).value.window == incoming.window
  }

  /** A non-empty bundle of the same window, all of whose identities are in the newcomer. */
  predicate Superseded(o: Oracle, tx: Transaction, incoming: Bundle) {
    SameWindow(o, tx, incoming) && CoveredBy(o, tx) != {} && CoveredBy(o, tx) <= IdentitySet(incoming.attestations)
  }

  /** A bundle of the same window that shares some identities with the newcomer but not all of its own. */
  predicate Overlaps(o: Oracle, tx: Transaction, incoming: Bundle) {
    && SameWindow(o, tx, incoming)
    && !(CoveredBy(o, tx) <= IdentitySet(incoming.attestations))
    && CoveredBy(o, tx) * IdentitySet(incoming.attestations) != {}
  }

  predicate Aggregate(incoming: Bundle) {
    var ids := IdentitySet(incoming.attestations);
    |ids| == |incoming.attestations| && |ids| > 1
  }

  ghost function SupersededKeys(o: Oracle, repository: Repository, incoming: Bundle): set<Hash> {
    set t | t in repository && Superseded(o, repository[t].transaction, incoming)
  }

  ghost function SupersededIdentities(o: Oracle, repository: Repository, incoming: Bundle): set<Identity> {
    set t, i | t in repository && Superseded(o, repository[t].transaction, incoming) && i in CoveredBy(o, repository[t].transaction) :: i
  }

  /** `_reward_attestation_bundle_replacement_txids`: what a strictly better aggregate replaces. */
  ghost function Replaced(o: Oracle, repository: Repository, tx: Transaction): set<Hash> {
    if !IsBundle(tx) || o.parseBundle(tx.metadata).None? then {}
    else
      var incoming := o.parseBundle(tx.metadata).value;
      var keys := SupersededKeys(o, repository, incoming);
      if !Aggregate(incoming) || (exists t :: t in repository && Overlaps(o, repository[t].transaction, incoming)) then {}
      else if |keys| > 1 || |IdentitySet(incoming.attestations)| > |SupersededIdentities(o, repository, incoming)| then keys
      else {}
  }

  /** Replacing bundles never uncovers an attestation. */
  lemma ReplacementKeepsCoverage(o: Oracle, repository: Repository, e: Row)
    requires e.txid !in repository
    ensures Covered(o, repository) <= Covered(o, Admitted(o, repository, e))
  {
    hide IdentitySet, SameWindow;
    var gone := Replaced(o, repository, e.transaction);
    var after := (repository - gone)[e.txid := e];
    forall i | i in Covered(o, repository) ensures i in Covered(o, after) {
      var t :| t in repository && i in CoveredBy(o, repository[t].transaction);
      if t in gone {
        assert Superseded(o, repository[t].transaction, o.parseBundle(e.transaction.metadata).value);
        assert i in CoveredBy(o, after[e.txid].transaction);
      } else {
        assert i in CoveredBy(o, after[t].transaction);
      }
    }
  }

  /** A replacement either merges several bundles or covers more than the one it replaces. */
  lemma ReplacementGains(o: Oracle, repository: Repository, tx: Transaction, t: Hash)
    requires Replaced(o, repository, tx) == {t}
    ensures t in repository && CoveredBy(o, repository[t].transaction) < CoveredBy(o, tx)
  {
    hide IdentitySet, SupersededKeys, SupersededIdentities, Overlaps, Superseded;
    assert t in Replaced(o, repository, tx);
    SupersededAlone(o, repository, o.parseBundle(tx.metadata).value, t);
    if CoveredBy(o, tx) <= CoveredBy(o, repository[t].transaction) {
      SubsetSize(CoveredBy(o, tx), CoveredBy(o, repository[t].transaction));
    }
  }

  lemma SupersededAlone(o: Oracle, repository: Repository, incoming: Bundle, t: Hash)
    requires SupersededKeys(o, repository, incoming) == {t}
    ensures t in repository && CoveredBy(o, repository[t].transaction) <= IdentitySet(incoming.attestations)
    ensures SupersededIdentities(o, repository, incoming) == CoveredBy(o, repository[t].transaction)
    ensures |SupersededKeys(o, repository, incoming)| == 1
  {
    hide IdentitySet, SameWindow, CoveredBy;
    assert t in SupersededKeys(o, repository, incoming);
    var ids := SupersededIdentities(o, repository, incoming);
    forall i | i in ids ensures i in CoveredBy(o, repository[t].transaction) {
      var u :| u in repository && Superseded(o, repository[u].transaction, incoming) && i in CoveredBy(o, repository[u].transaction);
      assert u in SupersededKeys(o, repository, incoming);
    }
  }

  // ---- listing and eviction ----

  /** Age order: `ORDER BY added_at, txid`. */
  predicate AgeLe(a: Row, b: Row) {
    if a.addedAt != b.addedAt then a.addedAt < b.addedAt else LexLe(a.txid, b.txid)
  }

  /** Lowest priority first. */
  predicate EvictLe(a: Row, b: Row) {
    if a.fee != b.fee then a.fee < b.fee else AgeLe(a, b)
  }

  function RowsAt(repository: Repository, keys: seq<Hash>): seq<Row>
    requires forall k :: k in keys ==> k in repository
  {
    seq(|keys|, i requires 0 <= i < |keys| => repository[keys[i]])
  }

  function ListAll(repository: Repository): seq<Row> {
    Sort(AgeLe, RowsAt(repository, SortedTexts(repository.Keys)))
  }

  lemma Orders()
    ensures Preorder(AgeLe) && Preorder(EvictLe)
  {
    hide LexLe;
    LexLaws();
  }

  /** An arrangement of the repository's rows, each once. */
  ghost predicate Lists(repository: Repository, rows: seq<Row>) {
    && (forall e :: e in rows <==> e.txid in repository && repository[e.txid] == e)
    && (forall i, j :: 0 <= i < j < |rows| ==> rows[i].txid != rows[j].txid)
    && |rows| == |repository|
  }

  lemma RowsList(o: Oracle, repository: Repository)
    requires Keyed(o, repository)
    ensures Lists(repository, RowsAt(repository, SortedTexts(repository.Keys)))
  {
    var keys := SortedTexts(repository.Keys);
    SortedTextsIncrease(repository.Keys);
    hide SortedTexts;
    var rows := RowsAt(repository, keys);
    forall e ensures e in rows <==> e.txid in repository && repository[e.txid] == e {
      if e.txid in repository && repository[e.txid] == e {
        assert e.txid in keys;
        var i :| 0 <= i < |keys| && keys[i] == e.txid;
        assert rows[i] == e;
      }
    }
  }

  lemma SortLists(repository: Repository, le: (Row, Row) -> bool, rows: seq<Row>)
    requires Lists(repository, rows)
    ensures Lists(repository, Sort(le, rows))
  {
    hide Sort;
    var sorted := Sort(le, rows);
    SortMembers(le, rows);
    forall i, j | 0 <= i < j < |sorted| ensures sorted[i].txid != sorted[j].txid {
      if sorted[i].txid == sorted[j].txid {
        assert sorted[i] in rows && sorted[j] in rows;
        TwiceInSequence(sorted, i, j);
        var k :| 0 <= k < |rows| && rows[k] == sorted[i];
        OnceInSequence(rows, k);
      }
    }
  }

  lemma ListAllLists(o: Oracle, repository: Repository)
    requires Keyed(o, repository)
    ensures Lists(repository, ListAll(repository))
  {
    hide Sort, RowsAt, Lists;
    RowsList(o, repository);
    SortLists(repository, AgeLe, RowsAt(repository, SortedTexts(repository.Keys)));
  }

  ghost function Unexpired(repository: Repository, now: int, ttl: int): Repository {
    map t | t in repository && now - repository[t].addedAt < ttl :: repository[t]
  }

  /** `_evict_if_needed`: the lowest rows go until the rest fit. */
  ghost predicate EvictedTo(before: Repository, after: Repository, capacity: nat) {
    && (forall t :: t in after ==> t in before && after[t] == before[t])
    && |after| == Min(|before|, capacity)
    && (forall t, u :: t in after && u in before && u !in after ==> EvictLe(before[u], before[t]))
  }

  // ---- admission ----

  /** The rows that are not about to be replaced. */
  function Effective(rows: seq<Row>, gone: set<Hash>): (r: seq<Row>)
    ensures forall e :: e in r <==> e in rows && e.txid !in gone
  {
    if rows == [] then [] else (if rows[0].txid in gone then [] else [rows[0]]) + Effective(rows[1..], gone)
  }

  /** The UTXO set with waiting transactions applied in order. */
  function Replay(utxo: UtxoMap, rows: seq<Row>, txid: Txid, height: int): UtxoMap {
    if rows == [] then utxo
    else AfterTx(Replay(utxo, rows[..|rows| - 1], txid, height), rows[|rows| - 1].transaction, txid, height, false)
  }

  function FeeAfter(ctx: Context, ledger: Ledger, rows: seq<Row>, tx: Transaction): Result<int> {
    FeeOn(ctx, ledger, Replay(ledger.utxo, rows, ctx.o.txid, ctx.height), tx)
  }

  /** Exactly what `accept` lets in. */
  ghost predicate Admissible(policy: Policy, ctx: Context, ledger: Ledger, confirmed: set<Hash>, repository: Repository, tx: Transaction) {
    && !IsCoinbase(tx) && StandardOk(ctx.o, policy, tx)
    && ctx.o.txid(tx) !in repository && ctx.o.txid(tx) !in confirmed
    && PoliciesOk(ctx.o, policy, tx, Effective(ListAll(repository), Replaced(ctx.o, repository, tx)))
    && FeeAfter(ctx, ledger, ListAll(repository), tx).Ok?
    && FeeOk(policy, tx, FeeAfter(ctx, ledger, ListAll(repository), tx).value)
  }

  /** The repository with a row in place of what it replaces. */
  ghost function Admitted(o: Oracle, repository: Repository, e: Row): Repository {
    (repository - Replaced(o, repository, e.transaction))[e.txid := e]
  }

  lemma AdmittedKeeps(policy: Policy, ctx: Context, ledger: Ledger, confirmed: set<Hash>, repository: Repository, e: Row)
    requires RepositoryOk(ctx.o, policy, repository) && Admissible(policy, ctx, ledger, confirmed, repository, e.transaction)
    requires e.txid == ctx.o.txid(e.transaction)
    ensures RepositoryOk(ctx.o, policy, Admitted(ctx.o, repository, e))
  {
    hide RepositoryOk, PoliciesOk, FeeAfter, Replaced, ListAll, TransactionFits, FeeOk;
    var gone := Replaced(ctx.o, repository, e.transaction);
    var rows := ListAll(repository);
    OkKeyed(ctx.o, policy, repository);
    ListAllLists(ctx.o, repository);
    SubsetKeeps(ctx.o, policy, repository, repository - gone);
    AddKeeps(ctx.o, policy, repository - gone, Effective(rows, gone), e);
  }

  lemma OkKeyed(o: Oracle, policy: Policy, repository: Repository)
    requires RepositoryOk(o, policy, repository)
    ensures Keyed(o, repository)
  {
  }

  // ---- reconciliation ----

  type Queued = (Transaction, int)

  /** Exactly what `reconcile` takes back after the rows `rows`. */
  predicate Readmissible(policy: Policy, ctx: Context, ledger: Ledger, confirmed: set<Hash>, now: int, rows: seq<Row>, q: Queued) {
    && now - q.1 < policy.ttl
    && StandardOk(ctx.o, policy, q.0)
    && ctx.o.txid(q.0) !in confirmed
    && PoliciesOk(ctx.o, policy, q.0, rows)
    && FeeAfter(ctx, ledger, rows, q.0).Ok?
    && FeeOk(policy, q.0, FeeAfter(ctx, ledger, rows, q.0).value)
  }

  /**
   * A `ValueError` escapes from taking `q` back: it cannot be serialized, or it passes every earlier
   * check and its validation raises instead of refusing.
   */
  predicate Escapes(policy: Policy, ctx: Context, ledger: Ledger, confirmed: set<Hash>, now: int, rows: seq<Row>, q: Queued) {
    && now - q.1 < policy.ttl
    && (TransactionFits(q.0) ==>
          && StandardOk(ctx.o, policy, q.0)
          && ctx.o.txid(q.0) !in confirmed
          && PoliciesOk(ctx.o, policy, q.0, rows)
          && FeeAfter(ctx, ledger, rows, q.0) == Err(Malformed))
  }

  function ReadmitOne(policy: Policy, ctx: Context, ledger: Ledger, confirmed: set<Hash>, now: int, rows: seq<Row>, q: Queued): seq<Row> {
    if Readmissible(policy, ctx, ledger, confirmed, now, rows, q) then
      rows + [Row(ctx.o.txid(q.0), q.0, FeeAfter(ctx, ledger, rows, q.0).value, q.1)]
    else rows
  }

  function ReadmitAll(policy: Policy, ctx: Context, ledger: Ledger, confirmed: set<Hash>, now: int, queue: seq<Queued>): seq<Row> {
    if queue == [] then []
    else
      ReadmitOne(policy, ctx, ledger, confirmed, now, ReadmitAll(policy, ctx, ledger, confirmed, now, queue[..|queue| - 1]), queue[|queue| - 1])
  }

  /** The rows as the repository keeps them: a later one replaces an earlier one of the same id. */
  function Latest(rows: seq<Row>): Repository {
    if rows == [] then map[] else Latest(rows[..|rows| - 1])[rows[|rows| - 1].txid := rows[|rows| - 1]]
  }

  /** Each row is valid, at its recorded fee, on the chain state with all earlier rows applied. */
  ghost predicate Replayable(ctx: Context, ledger: Ledger, rows: seq<Row>) {
    forall i :: 0 <= i < |rows| ==> FeeAfter(ctx, ledger, rows[..i], rows[i].transaction) == Ok(rows[i].fee)
  }

  /** What reconciliation keeps is valid together, in its order, on the new chain. */
  lemma {:induction false} ReadmittedReplayable(policy: Policy, ctx: Context, ledger: Ledger, confirmed: set<Hash>, now: int, queue: seq<Queued>)
    ensures Replayable(ctx, ledger, ReadmitAll(policy, ctx, ledger, confirmed, now, queue))
  {
    hide FeeAfter, StandardOk, PoliciesOk;
    if queue != [] {
      var front := queue[..|queue| - 1];
      ReadmittedReplayable(policy, ctx, ledger, confirmed, now, front);
      var before := ReadmitAll(policy, ctx, ledger, confirmed, now, front);
      var rows := ReadmitAll(policy, ctx, ledger, confirmed, now, queue);
      forall i | 0 <= i < |rows| ensures FeeAfter(ctx, ledger, rows[..i], rows[i].transaction) == Ok(rows[i].fee) {
        if i < |before| {
          assert rows[i] == before[i] && rows[..i] == before[..i];
        } else {
          assert rows[..i] == before;
        }
      }
    }
  }

  lemma {:induction false} LatestCovered(rows: seq<Row>)
    ensures forall t :: t in Latest(rows) ==> Latest(rows)[t] in rows
  {
    if rows != [] { LatestCovered(rows[..|rows| - 1]); }
  }

  /** What reconciliation keeps satisfies the invariant. */
  lemma {:induction false} ReadmittedOk(policy: Policy, ctx: Context, ledger: Ledger, confirmed: set<Hash>, now: int, queue: seq<Queued>)
    ensures RepositoryOk(ctx.o, policy, Latest(ReadmitAll(policy, ctx, ledger, confirmed, now, queue)))
  {
    hide FeeAfter, RepositoryOk, PoliciesOk, TransactionFits;
    if queue == [] {
      EmptyOk(ctx.o, policy);
    } else {
      var front := queue[..|queue| - 1];
      ReadmittedOk(policy, ctx, ledger, confirmed, now, front);
      var before := ReadmitAll(policy, ctx, ledger, confirmed, now, front);
      var q := queue[|queue| - 1];
      LatestCovered(before);
      if Readmissible(policy, ctx, ledger, confirmed, now, before, q) {
        var e := Row(ctx.o.txid(q.0), q.0, FeeAfter(ctx, ledger, before, q.0).value, q.1);
        AddKeeps(ctx.o, policy, Latest(before), before, e);
        assert (before + [e])[..|before|] == before;
      }
    }
  }

  lemma EmptyOk(o: Oracle, policy: Policy)
    ensures RepositoryOk(o, policy, map[])
  {
    forall c ensures |Members(map[], c)| <= Limit(policy, c) {
      assert Members(map[], c) == {};
    }
  }
}
