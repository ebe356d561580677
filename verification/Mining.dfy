/** Block template selection (node/mining.py). */
module Mining {
  import opened Prelude
  import opened Arith
  import opened Models
  import opened Oracles
  import opened Sorting
  import opened Assignment
  import opened Nodes
  import opened Utxo
  import opened Validation
  import opened MempoolPolicy

  // ---- the fee-rate order ----

  /** `TransactionSelection`; the weight is the length of a serialization, so it is positive. */
  datatype Selection = Selection(row: Row, weight: pos)

  /** `_compare_transaction_selection` returns at most 0: higher fee rate, then fee, then age, then id. */
  predicate SelectionLe(a: Selection, b: Selection) {
    var x, y := a.row.fee * b.weight, b.row.fee * a.weight;
    if x != y then x > y
    else if a.row.fee != b.row.fee then a.row.fee > b.row.fee
    else AgeLe(a.row, b.row)
  }

  lemma CrossMultiply(f: int, g: int, h: int, u: pos, v: pos, w: pos)
    requires f * v >= g * u && g * w >= h * v
    ensures f * w >= h * u
    ensures f * v > g * u || g * w > h * v ==> f * w > h * u
  {
    MulLe(g * u, f * v, w);
    MulLe(h * v, g * w, u);
    assert (f * v) * w == (f * w) * v;
    assert (g * u) * w == (g * w) * u;
    assert (h * v) * u == (h * u) * v;
    Scale(h * u, f * w, v);
    if f * v > g * u {
      MulPositive(f * v - g * u, w);
      assert (f * v - g * u) * w == (f * v) * w - (g * u) * w;
    } else if g * w > h * v {
      MulPositive(g * w - h * v, u);
      assert (g * w - h * v) * u == (g * w) * u - (h * v) * u;
    }
  }

  lemma Scale(a: int, b: int, d: pos)
    ensures a * d <= b * d ==> a <= b
    ensures a * d < b * d ==> a < b
  {
    if b <= a { MulLe(b, a, d); }
  }

  lemma SelectionTransitive(a: Selection, b: Selection, c: Selection)
    requires SelectionLe(a, b) && SelectionLe(b, c)
    ensures SelectionLe(a, c)
  {
    hide LexLe;
    LexLaws();
    CrossMultiply(a.row.fee, b.row.fee, c.row.fee, a.weight, b.weight, c.weight);
  }

  /** The order is total and transitive. */
  lemma SelectionOrder()
    ensures Preorder(SelectionLe)
  {
    forall a, b ensures SelectionLe(a, b) || SelectionLe(b, a) {
      LexTotal(a.row.txid, b.row.txid);
    }
    forall a, b, c | SelectionLe(a, b) && SelectionLe(b, c) ensures SelectionLe(a, c) {
      SelectionTransitive(a, b, c);
    }
  }

  /** Candidates with different ids never tie, so the order among them is strict. */
  lemma SelectionStrict(a: Selection, b: Selection)
    requires SelectionLe(a, b) && SelectionLe(b, a)
    ensures a.row.txid == b.row.txid
  {
    LexAntisymmetric(a.row.txid, b.row.txid);
  }

  // ---- what a template carries ----

  const ML_DSA_44 := 10
  const PQ_SIGOP_COST := 16
  const MAX_PQ_COST := 256 * 16

  function SigopCount(inputs: seq<TxInput>): nat {
    if inputs == [] then 0 else (if inputs[0].schemeId == ML_DSA_44 then 1 else 0) + SigopCount(inputs[1..])
  }

  /** `pq_signature_cost`. */
  function PqCost(tx: Transaction): nat {
    SigopCount(tx.inputs) * PQ_SIGOP_COST
  }

  /** What does not change while one template is filled. */
  datatype Env = Env(
    o: Oracle,
    p: Params,
    height: nat,
    feeCount: nat,
    registry: Registry,
    selections: Repository,
    confirmed: set<Hash>,
    maxWeight: nat)

  /** The local variables of the selection loop. */
  datatype Template = Template(
    included: seq<Row>,
    weight: nat,
    pqCost: nat,
    bundles: nat,
    identities: set<Identity>,
    counts: WindowCounts,
    registry: Registry)

  function Start(env: Env): Template {
    Template([], 0, 0, 0, {}, map[], env.registry)
  }

  function Txids(rows: seq<Row>): set<Hash> {
    set e | e in rows :: e.txid
  }

  /** `_has_unresolved_parent_dependency` for one input. */
  predicate Resolved(env: Env, txids: set<Hash>, parent: Hash) {
    if parent in env.selections then parent in txids else parent in env.confirmed
  }

  predicate AllResolved(env: Env, txids: set<Hash>, tx: Transaction) {
    forall i :: i in tx.inputs ==> Resolved(env, txids, i.previousOutput.txid)
  }

  type WindowKey = (int, Text)

  function KeysOf(s: seq<Attestation>): set<WindowKey> {
    set a | a in s :: (a.window, a.verifier)
  }

  /** The counters after a bundle: `included_verifier_window_counts`. */
  function AddCounts(counts: WindowCounts, s: seq<Attestation>): WindowCounts {
    map key | key in counts.Keys + KeysOf(s) :: Get(counts, key, 0) + VerifierCount(s, key.0, key.1)
  }

  predicate CountsFit(counts: WindowCounts, s: seq<Attestation>, limit: int) {
    forall a :: a in s ==> Get(counts, (a.window, a.verifier), 0) + VerifierCount(s, a.window, a.verifier) <= limit
  }

  /** The bundle checks. */
  predicate BundleFits(env: Env, t: Template, b: Bundle) {
    && IdentitySet(b.attestations) !! t.identities
    && CountsFit(t.counts, b.attestations, env.p.maxAttestationsPerVerifierWindow)
  }

  /** The weight and signature-cost checks. */
  predicate HasRoom(env: Env, t: Template, tx: Transaction) {
    t.weight + env.o.weight(tx) <= env.maxWeight && t.pqCost + PqCost(tx) <= MAX_PQ_COST
  }

  predicate SpecialOk(env: Env, registry: Registry, tx: Transaction) {
    TxStateless(env.o, tx) && SpecialAccepted(env.o, tx, registry, env.height, env.feeCount, env.p)
  }

  /** A candidate whose parents are in, judged against the template so far. */
  predicate Fitting(env: Env, t: Template, tx: Transaction) {
    && (IsBundle(tx) ==>
          && t.bundles < env.p.maxBundlesPerBlock
          && env.o.parseBundle(tx.metadata).Some?
          && BundleFits(env, t, env.o.parseBundle(tx.metadata).value))
    && HasRoom(env, t, tx)
    && (IsSpecial(tx) ==> SpecialOk(env, t.registry, tx))
  }

  function Include(env: Env, t: Template, row: Row): Template
    requires Fitting(env, t, row.transaction)
  {
    var tx := row.transaction;
    var bundle := if IsBundle(tx) then env.o.parseBundle(tx.metadata).value.attestations else [];
    Template(
      t.included + [row],
      t.weight + env.o.weight(tx),
      t.pqCost + PqCost(tx),
      t.bundles + (if IsBundle(tx) then 1 else 0),
      t.identities + IdentitySet(bundle),
      AddCounts(t.counts, bundle),
      if IsSpecial(tx) then ApplySpecial(env.o, tx, t.registry, env.height, env.feeCount, env.p) else t.registry)
  }

  // ---- what the block will check of the included transactions ----

  function Weights(o: Oracle, rows: seq<Row>): nat {
    if rows == [] then 0 else Weights(o, rows[..|rows| - 1]) + o.weight(rows[|rows| - 1].transaction)
  }

  function PqCosts(rows: seq<Row>): nat {
    if rows == [] then 0 else PqCosts(rows[..|rows| - 1]) + PqCost(rows[|rows| - 1].transaction)
  }

  /** The special-node transactions in order, each admitted by the registry the earlier ones left. */
  function StageSpecials(env: Env, rows: seq<Row>): Result<Registry> {
    if rows == [] then Ok(env.registry)
    else
      var before :- StageSpecials(env, rows[..|rows| - 1]);
      var tx := rows[|rows| - 1].transaction;
      if !IsSpecial(tx) then Ok(before)
      else if !SpecialOk(env, before, tx) then Err(Contextual)
      else Ok(ApplySpecial(env.o, tx, before, env.height, env.feeCount, env.p))
  }

  function AttestationsOf(o: Oracle, tx: Transaction): seq<Attestation> {
    if IsBundle(tx) && o.parseBundle(tx.metadata).Some? then o.parseBundle(tx.metadata).value.attestations else []
  }

  /** The duplicate and emission checks that block validation runs over the bundles in order. */
  function CountBundles(env: Env, rows: seq<Row>): Result<(set<Identity>, WindowCounts)> {
    if rows == [] then Ok(({}, map[]))
    else
      var before :- CountBundles(env, rows[..|rows| - 1]);
      CountAttestations(before.0, before.1, AttestationsOf(env.o, rows[|rows| - 1].transaction), 0, env.p.maxAttestationsPerVerifierWindow)
  }

  predicate SelfConsistent(o: Oracle, rows: seq<Row>) {
    forall i :: 0 <= i < |rows| ==> NoDuplicates(Identities(AttestationsOf(o, rows[i].transaction)))
  }

  predicate ParentsFirst(env: Env, rows: seq<Row>) {
    forall i :: 0 <= i < |rows| ==> AllResolved(env, Txids(rows[..i]), rows[i].transaction)
  }

  function BundlesIn(rows: seq<Row>): nat {
    if rows == [] then 0 else BundlesIn(rows[..|rows| - 1]) + (if IsBundle(rows[|rows| - 1].transaction) then 1 else 0)
  }

  // ---- the bundle checks agree with block validation's ----

  lemma CountsStep(counts: WindowCounts, s: seq<Attestation>)
    requires s != []
    ensures var key := (s[0].window, s[0].verifier);
            AddCounts(counts, s) == AddCounts(counts[key := Get(counts, key, 0) + 1], s[1..])
  {
    var key := (s[0].window, s[0].verifier);
    var one := counts[key := Get(counts, key, 0) + 1];
    assert s == [s[0]] + s[1..];
    assert counts.Keys + KeysOf(s) == one.Keys + KeysOf(s[1..]);
  }

  lemma {:induction false} AbsentCount(s: seq<Attestation>, window: int, verifier: Text)
    requires (window, verifier) !in KeysOf(s)
    ensures VerifierCount(s, window, verifier) == 0
  {
    if s != [] {
      assert s[0] in s;
      assert KeysOf(s[1..]) <= KeysOf(s);
      AbsentCount(s[1..], window, verifier);
    }
  }

  lemma TailCountsFit(counts: WindowCounts, s: seq<Attestation>, limit: int)
    requires s != [] && CountsFit(counts, s, limit)
    ensures var key := (s[0].window, s[0].verifier);
            && Get(counts, key, 0) + 1 <= limit
            && CountsFit(counts[key := Get(counts, key, 0) + 1], s[1..], limit)
  {
    var key := (s[0].window, s[0].verifier);
    var one := counts[key := Get(counts, key, 0) + 1];
    assert s[0] in s;
    assert VerifierCount(s, s[0].window, s[0].verifier) >= 1;
    forall a | a in s[1..] ensures Get(one, (a.window, a.verifier), 0) + VerifierCount(s[1..], a.window, a.verifier) <= limit {
      assert a in s;
      assert Get(counts, (a.window, a.verifier), 0) + VerifierCount(s, a.window, a.verifier) <= limit;
    }
  }

  /** A bundle that passes selection and does not repeat itself passes the block's checks, with the same counters. */
  lemma {:induction false} CountSelected(seen: set<Identity>, counts: WindowCounts, s: seq<Attestation>, k: nat, limit: int)
    requires k <= |s| && NoDuplicates(Identities(s))
    requires IdentitySet(s[k..]) !! seen && CountsFit(counts, s[k..], limit)
    ensures CountAttestations(seen, counts, s, k, limit) == Ok((seen + IdentitySet(s[k..]), AddCounts(counts, s[k..])))
    decreases |s| - k
  {
    hide CountsFit, AddCounts, VerifierCount, IdentitySet;
    if k == |s| {
      assert s[k..] == [];
      NoIdentities();
      assert seen + IdentitySet(s[k..]) == seen;
      NoCounts(counts);
    } else {
      var rest := s[k..];
      assert rest[0] == s[k] && rest[1..] == s[k + 1..];
      TailCountsFit(counts, rest, limit);
      CountsStep(counts, rest);
      IdentityStep(s, k);
      var key := (s[k].window, s[k].verifier);
      CountSelected(seen + {IdentityOf(s[k])}, counts[key := Get(counts, key, 0) + 1], s, k + 1, limit);
      assert seen + {IdentityOf(s[k])} + IdentitySet(s[k + 1..]) == seen + IdentitySet(rest);
      assert IdentityOf(s[k]) in IdentitySet(rest);
    }
  }

  lemma NoIdentities()
    ensures IdentitySet([]) == {}
  {
  }

  lemma NoCounts(counts: WindowCounts)
    ensures AddCounts(counts, []) == counts
  {
  }

  lemma IdentityStep(s: seq<Attestation>, k: nat)
    requires k < |s|
    ensures IdentitySet(s[k..]) == {IdentityOf(s[k])} + IdentitySet(s[k + 1..])
    ensures NoDuplicates(Identities(s)) ==> IdentityOf(s[k]) !in IdentitySet(s[k + 1..])
  {
    assert s[k..] == [s[k]] + s[k + 1..];
    forall a | a in s[k + 1..] ensures NoDuplicates(Identities(s)) ==> IdentityOf(a) != IdentityOf(s[k]) {
      var j :| 0 <= j < |s[k + 1..]| && s[k + 1..][j] == a;
      assert Identities(s)[k + 1 + j] == IdentityOf(a) && Identities(s)[k] == IdentityOf(s[k]);
    }
  }

  /** A bundle that repeats itself never passes the block's checks. */
  lemma {:induction false} CountRefusesRepeats(seen: set<Identity>, counts: WindowCounts, s: seq<Attestation>, k: nat, limit: int)
    requires k <= |s| && CountAttestations(seen, counts, s, k, limit).Ok?
    ensures forall i :: k <= i < |s| ==> IdentityOf(s[i]) !in seen
    ensures forall i, j :: k <= i < j < |s| ==> IdentityOf(s[i]) != IdentityOf(s[j])
    decreases |s| - k
  {
    if k < |s| {
      var key := (s[k].window, s[k].verifier);
      CountRefusesRepeats(seen + {IdentityOf(s[k])}, counts[key := Get(counts, key, 0) + 1], s, k + 1, limit);
    }
  }

  // ---- soundness of a template ----

  /** The included rows are candidates, each once. */
  predicate Drawn(env: Env, rows: seq<Row>) {
    && (forall i :: 0 <= i < |rows| ==> rows[i].txid in env.selections && env.selections[rows[i].txid] == rows[i])
    && (forall i, j :: 0 <= i < j < |rows| ==> rows[i].txid != rows[j].txid)
  }

  /** Weight, signature cost and bundle count are what they claim and within their limits. */
  predicate Bounded(env: Env, t: Template) {
    && t.weight == Weights(env.o, t.included) <= env.maxWeight
    && t.pqCost == PqCosts(t.included) <= MAX_PQ_COST
    && t.bundles == BundlesIn(t.included) <= Max(0, env.p.maxBundlesPerBlock)
  }

  /** The block's own bundle checks pass over the template exactly when no included bundle repeats itself. */
  predicate BundlesCounted(env: Env, t: Template) {
    && (SelfConsistent(env.o, t.included) ==> CountBundles(env, t.included) == Ok((t.identities, t.counts)))
    && (CountBundles(env, t.included).Ok? ==> SelfConsistent(env.o, t.included))
  }

  /** However far one goes, bundles that do not repeat themselves pass the block's counters. */
  predicate PrefixesCounted(env: Env, rows: seq<Row>) {
    forall k :: 0 <= k <= |rows| && SelfConsistent(env.o, rows[..k]) ==> CountBundles(env, rows[..k]).Ok?
  }

  predicate Sound(env: Env, t: Template) {
    && Drawn(env, t.included)
    && ParentsFirst(env, t.included)
    && Bounded(env, t)
    && BundlesCounted(env, t) && PrefixesCounted(env, t.included)
    && StageSpecials(env, t.included) == Ok(t.registry)
  }

  lemma StartSound(env: Env)
    ensures Sound(env, Start(env))
  {
  }

  lemma IncludeDrawn(env: Env, t: Template, row: Row)
    requires Drawn(env, t.included) && ParentsFirst(env, t.included) && Fitting(env, t, row.transaction)
    requires row.txid in env.selections && env.selections[row.txid] == row && row.txid !in Txids(t.included)
    requires AllResolved(env, Txids(t.included), row.transaction)
    ensures Drawn(env, Include(env, t, row).included) && ParentsFirst(env, Include(env, t, row).included)
  {
    hide Fitting, AllResolved;
    var rows := t.included + [row];
    forall i | 0 <= i < |t.included| ensures rows[i].txid != row.txid {
      assert t.included[i] in t.included;
    }
    forall i | 0 <= i < |rows| ensures AllResolved(env, Txids(rows[..i]), rows[i].transaction) {
      if i < |t.included| {
        assert rows[..i] == t.included[..i];
      } else {
        assert rows[..i] == t.included;
      }
    }
  }

  lemma IncludeBounded(env: Env, t: Template, row: Row)
    requires Bounded(env, t) && Fitting(env, t, row.transaction)
    ensures Bounded(env, Include(env, t, row))
  {
    hide SpecialOk, BundleFits, AddCounts, IdentitySet, ApplySpecial;
    var rows := t.included + [row];
    assert rows[..|rows| - 1] == t.included;
  }

  lemma IncludeSpecials(env: Env, t: Template, row: Row)
    requires StageSpecials(env, t.included) == Ok(t.registry) && Fitting(env, t, row.transaction)
    ensures StageSpecials(env, Include(env, t, row).included) == Ok(Include(env, t, row).registry)
  {
    hide SpecialOk, BundleFits, AddCounts, IdentitySet, HasRoom;
    var rows := t.included + [row];
    assert rows[..|rows| - 1] == t.included;
  }

  lemma IncludeCounted(env: Env, t: Template, row: Row)
    requires BundlesCounted(env, t) && Fitting(env, t, row.transaction)
    ensures BundlesCounted(env, Include(env, t, row))
  {
    hide SpecialOk, AddCounts, IdentitySet, HasRoom, NoDuplicates, CountAttestations, CountsFit, ApplySpecial;
    var rows := t.included + [row];
    assert rows[..|rows| - 1] == t.included;
    var s, limit := AttestationsOf(env.o, row.transaction), env.p.maxAttestationsPerVerifierWindow;
    if SelfConsistent(env.o, rows) {
      assert forall i :: 0 <= i < |t.included| ==> rows[i] == t.included[i];
      assert rows[|t.included|] == row;
      NothingFits(t, limit);
      assert s[0..] == s;
      CountSelected(t.identities, t.counts, s, 0, limit);
    }
    if CountBundles(env, rows).Ok? {
      var before := CountBundles(env, t.included).value;
      CountRefusesRepeats(before.0, before.1, s, 0, limit);
      Distinct(s);
      forall i | 0 <= i < |rows| ensures NoDuplicates(Identities(AttestationsOf(env.o, rows[i].transaction))) {
        if i < |t.included| { assert rows[i] == t.included[i]; }
      }
    }
  }

  lemma IncludePrefixes(env: Env, t: Template, row: Row)
    requires BundlesCounted(env, t) && PrefixesCounted(env, t.included) && Fitting(env, t, row.transaction)
    ensures PrefixesCounted(env, Include(env, t, row).included)
  {
    hide Fitting, SelfConsistent, CountBundles, ApplySpecial, AddCounts, IdentitySet;
    IncludeCounted(env, t, row);
    var rows := t.included + [row];
    assert Include(env, t, row).included == rows;
    forall k | 0 <= k <= |rows| && SelfConsistent(env.o, rows[..k]) ensures CountBundles(env, rows[..k]).Ok? {
      if k <= |t.included| {
        assert rows[..k] == t.included[..k];
      } else {
        assert rows[..k] == rows;
      }
    }
  }

  lemma NothingFits(t: Template, limit: int)
    ensures IdentitySet([]) !! t.identities && CountsFit(t.counts, [], limit)
  {
  }

  lemma Distinct(s: seq<Attestation>)
    requires forall i, j :: 0 <= i < j < |s| ==> IdentityOf(s[i]) != IdentityOf(s[j])
    ensures NoDuplicates(Identities(s))
  {
  }

  lemma IncludeSound(env: Env, t: Template, row: Row)
    requires Sound(env, t) && Fitting(env, t, row.transaction)
    requires row.txid in env.selections && env.selections[row.txid] == row && row.txid !in Txids(t.included)
    requires AllResolved(env, Txids(t.included), row.transaction)
    ensures Sound(env, Include(env, t, row))
  {
    hide Drawn, ParentsFirst, Bounded, BundlesCounted, PrefixesCounted, StageSpecials, Fitting, Include, AllResolved;
    IncludePrefixes(env, t, row);
    IncludeDrawn(env, t, row);
    IncludeBounded(env, t, row);
    IncludeSpecials(env, t, row);
    IncludeCounted(env, t, row);
  }

  // ---- why a candidate is left out ----

  /** The registry after the first `k` included rows does not admit a special-node transaction. */
  ghost predicate TurnedDownAt(env: Env, rows: seq<Row>, k: nat, tx: Transaction) {
    && k <= |rows| && IsSpecial(tx) && StageSpecials(env, rows[..k]).Ok?
    && !SpecialOk(env, StageSpecials(env, rows[..k]).value, tx)
  }

  ghost predicate TurnedDown(env: Env, rows: seq<Row>, tx: Transaction) {
    exists k :: TurnedDownAt(env, rows, k, tx)
  }

  /** A candidate that the finished template has no place for, or that the staged registry turned down on the way. */
  ghost predicate Refused(env: Env, t: Template, tx: Transaction) {
    || TurnedDown(env, t.included, tx)
    || !HasRoom(env, t, tx)
    || (IsBundle(tx) && t.bundles >= env.p.maxBundlesPerBlock)
    || (IsBundle(tx) && env.o.parseBundle(tx.metadata).Some? && !BundleFits(env, t, env.o.parseBundle(tx.metadata).value))
  }

  lemma CountsGrow(counts: WindowCounts, more: seq<Attestation>, s: seq<Attestation>, limit: int)
    requires CountsFit(AddCounts(counts, more), s, limit)
    ensures CountsFit(counts, s, limit)
  {
    forall a | a in s ensures Get(counts, (a.window, a.verifier), 0) + VerifierCount(s, a.window, a.verifier) <= limit {
      assert Get(AddCounts(counts, more), (a.window, a.verifier), 0) >= Get(counts, (a.window, a.verifier), 0);
    }
  }

  /** A template only fills up, so a refusal stands. */
  lemma RefusedStays(env: Env, t: Template, row: Row, tx: Transaction)
    requires Fitting(env, t, row.transaction) && Refused(env, t, tx)
    ensures Refused(env, Include(env, t, row), tx)
  {
    hide SpecialOk, AddCounts, IdentitySet, CountsFit, ApplySpecial, PqCost, Include, TurnedDown;
    if TurnedDown(env, t.included, tx) { TurnedDownStays(env, t.included, row, tx); }
    var more := if IsBundle(row.transaction) then env.o.parseBundle(row.transaction.metadata).value.attestations else [];
    IncludeGrows(env, t, row);
    if env.o.parseBundle(tx.metadata).Some? {
      var s := env.o.parseBundle(tx.metadata).value.attestations;
      var limit := env.p.maxAttestationsPerVerifierWindow;
      if CountsFit(Include(env, t, row).counts, s, limit) { CountsGrow(t.counts, more, s, limit); }
    }
  }

  lemma TurnedDownStays(env: Env, rows: seq<Row>, row: Row, tx: Transaction)
    requires TurnedDown(env, rows, tx)
    ensures TurnedDown(env, rows + [row], tx)
  {
    hide StageSpecials, SpecialOk;
    var k: nat :| TurnedDownAt(env, rows, k, tx);
    assert (rows + [row])[..k] == rows[..k];
    assert TurnedDownAt(env, rows + [row], k, tx);
  }

  lemma IncludeGrows(env: Env, t: Template, row: Row)
    requires Fitting(env, t, row.transaction)
    ensures var u := Include(env, t, row);
            var more := if IsBundle(row.transaction) then env.o.parseBundle(row.transaction.metadata).value.attestations else [];
            && u.weight >= t.weight && u.pqCost >= t.pqCost && u.bundles >= t.bundles
            && t.identities <= u.identities && u.counts == AddCounts(t.counts, more)
            && u.included == t.included + [row]
  {
    hide SpecialOk, AddCounts, IdentitySet, CountsFit, ApplySpecial, PqCost;
  }

  // ---- the template inside block validation ----

  /** The surroundings of the selection are those of the block that will carry it. */
  ghost predicate SameBlock(env: Env, ctx: Context) {
    ctx.o == env.o && ctx.p == env.p && ctx.height == env.height && ctx.feeCount == env.feeCount
  }

  /** Block validation has reached the state that the template staged. */
  predicate Agrees(env: Env, st: Stage, rows: seq<Row>) {
    CountBundles(env, rows) == Ok((st.seen, st.counts)) && StageSpecials(env, rows) == Ok(st.ledger.registry)
  }

  lemma StartAgrees(env: Env, ledger: Ledger)
    requires ledger.registry == env.registry
    ensures Agrees(env, InitialStage(ledger), [])
  {
  }

  /** The bundle counters of the next template transaction pass, and a special-node transaction passes as a whole. */
  lemma NextPasses(env: Env, ctx: Context, st: Stage, rows: seq<Row>, k: nat)
    requires SameBlock(env, ctx) && k < |rows| && Screened(ctx.o, rows[k].transaction)
    requires Agrees(env, st, rows[..k])
    requires CountBundles(env, rows[..k + 1]).Ok? && StageSpecials(env, rows[..k + 1]).Ok?
    ensures var tx := rows[k].transaction;
            && (IsBundle(tx) ==> CountAttestations(st.seen, st.counts, BundleOf(ctx.o, tx).attestations, 0, ctx.p.maxAttestationsPerVerifierWindow).Ok?)
            && (IsSpecial(tx) ==> StageOne(ctx, st, tx).Ok?)
  {
    hide CountAttestations, TxStateless, SpecialAccepted, SpecialStateless;
    var tx := rows[k].transaction;
    KindsExclusive(tx);
    assert rows[..k + 1][..k] == rows[..k] && rows[..k + 1][k] == rows[k];
    if IsSpecial(tx) { SpecialNoOutputs(ctx, tx); }
    if IsBundle(tx) { BundleParses(ctx.o, tx); }
  }

  lemma BundleParses(o: Oracle, tx: Transaction)
    requires IsBundle(tx) && Screened(o, tx)
    ensures o.parseBundle(tx.metadata).Some?
  {
    KindsExclusive(tx);
  }

  lemma SpecialNoOutputs(ctx: Context, tx: Transaction)
    requires IsSpecial(tx) && TxStateless(ctx.o, tx)
    ensures tx.outputs == [] && OutputsActive(ctx, tx)
  {
  }

  /** Validation and template stay in step. */
  lemma NextAgrees(env: Env, ctx: Context, st: Stage, rows: seq<Row>, k: nat)
    requires SameBlock(env, ctx) && k < |rows| && Screened(ctx.o, rows[k].transaction)
    requires Agrees(env, st, rows[..k])
    requires StageOne(ctx, st, rows[k].transaction).Ok?
    ensures Agrees(env, StageOne(ctx, st, rows[k].transaction).value, rows[..k + 1])
  {
    hide CountAttestations, TxStateless, RecordSpends, AfterTx, BundleAdmissible, SettlementAdmissible, PaymentFee, OutputsActive;
    var tx := rows[k].transaction;
    KindsExclusive(tx);
    assert rows[..k + 1][..k] == rows[..k] && rows[..k + 1][k] == rows[k];
    if !IsBundle(tx) { assert AttestationsOf(env.o, tx) == []; CountNothing(st, env.p.maxAttestationsPerVerifierWindow); }
  }

  lemma CountNothing(st: Stage, limit: int)
    ensures CountAttestations(st.seen, st.counts, [], 0, limit) == Ok((st.seen, st.counts))
  {
  }

  /** Bundles that pass the block's counters do not repeat themselves. */
  lemma {:induction false} CountedIsConsistent(env: Env, rows: seq<Row>)
    requires CountBundles(env, rows).Ok?
    ensures SelfConsistent(env.o, rows)
  {
    hide CountAttestations, NoDuplicates;
    if rows != [] {
      var front := rows[..|rows| - 1];
      CountedIsConsistent(env, front);
      var before := CountBundles(env, front).value;
      var s := AttestationsOf(env.o, rows[|rows| - 1].transaction);
      CountRefusesRepeats(before.0, before.1, s, 0, env.p.maxAttestationsPerVerifierWindow);
      Distinct(s);
      forall i | 0 <= i < |rows| ensures NoDuplicates(Identities(AttestationsOf(env.o, rows[i].transaction))) {
        if i < |front| { assert rows[i] == front[i]; }
      }
    }
  }

  lemma ConsistentStep(o: Oracle, rows: seq<Row>, k: nat)
    requires k < |rows| && SelfConsistent(o, rows[..k]) && NoDuplicates(Identities(AttestationsOf(o, rows[k].transaction)))
    ensures SelfConsistent(o, rows[..k + 1])
  {
    hide NoDuplicates;
    var longer := rows[..k + 1];
    forall i | 0 <= i < |longer| ensures NoDuplicates(Identities(AttestationsOf(o, longer[i].transaction))) {
      if i < k { assert longer[i] == rows[..k][i]; }
    }
  }

  lemma {:induction false} SpecialsPrefix(env: Env, rows: seq<Row>, k: nat)
    requires k <= |rows| && StageSpecials(env, rows).Ok?
    ensures StageSpecials(env, rows[..k]).Ok?
  {
    hide SpecialOk, ApplySpecial;
    if k < |rows| {
      assert rows[..|rows| - 1][..k] == rows[..k];
      SpecialsPrefix(env, rows[..|rows| - 1], k);
    } else {
      assert rows[..k] == rows;
    }
  }

  /**
   * In step with the template, the next special-node transaction passes altogether, and so do the counters of
   * the next bundle unless it repeats an attestation.
   */
  lemma TemplatePasses(env: Env, ctx: Context, t: Template, st: Stage, k: nat)
    requires Sound(env, t) && SameBlock(env, ctx)
    requires k < |t.included| && Screened(ctx.o, t.included[k].transaction) && Agrees(env, st, t.included[..k])
    ensures var tx := t.included[k].transaction;
            && (IsBundle(tx) && NoDuplicates(Identities(BundleOf(ctx.o, tx).attestations)) ==>
                  CountAttestations(st.seen, st.counts, BundleOf(ctx.o, tx).attestations, 0, ctx.p.maxAttestationsPerVerifierWindow).Ok?)
            && (IsSpecial(tx) ==> StageOne(ctx, st, tx).Ok?)
  {
    hide CountBundles, StageSpecials, Screened, SelfConsistent, Bounded, Drawn, ParentsFirst, BundlesCounted, NoDuplicates, StageOne, CountAttestations;
    var tx := t.included[k].transaction;
    KindsExclusive(tx);
    SpecialsPrefix(env, t.included, k + 1);
    CountedIsConsistent(env, t.included[..k]);
    if IsBundle(tx) {
      BundleParses(ctx.o, tx);
      if NoDuplicates(Identities(BundleOf(ctx.o, tx).attestations)) {
        ConsistentStep(env.o, t.included, k);
        NextPasses(env, ctx, st, t.included, k);
      }
    } else {
      NoAttestationsIn(env.o, tx);
      ConsistentStep(env.o, t.included, k);
      NextPasses(env, ctx, st, t.included, k);
    }
  }

  lemma NoAttestationsIn(o: Oracle, tx: Transaction)
    requires !IsBundle(tx)
    ensures NoDuplicates(Identities(AttestationsOf(o, tx)))
  {
  }

  // ---- the template through the whole of staging ----

  /** The stage that validation is in when it comes to transaction `n`. */
  function StageUntil(ctx: Context, st: Stage, txs: seq<Transaction>, k: nat, n: nat): Result<Stage>
    requires AllScreened(ctx.o, txs) && 1 <= k <= n <= |txs|
    decreases n - k
  {
    if k == n then Ok(st)
    else
      var next :- StageOne(ctx, st, txs[k]);
      StageUntil(ctx, next, txs, k + 1, n)
  }

  /** A double spend or an unpayable payment, a bundle or a settlement that the chain state does not admit. */
  predicate FailsOnChain(ctx: Context, st: Stage, tx: Transaction)
    requires Screened(ctx.o, tx)
  {
    if IsSpecial(tx) then false
    else if IsBundle(tx) then !BundleAdmissible(ctx, st.ledger.registry, st.ledger.identities, BundleOf(ctx.o, tx))
    else if IsSettlement(tx) then
      !SettlementAdmissible(ctx, st.ledger.registry, st.ledger.bundles, st.ledger.settled, SettlementOf(ctx.o, tx))
    else RecordSpends(st.spends, tx.inputs, 0).Err? || TxFee(ctx, st.ledger, tx).Err?
  }

  /** A bundle that repeats an attestation is not admitted. */
  lemma RepeatsAreRefused(ctx: Context, st: Stage, tx: Transaction)
    requires Screened(ctx.o, tx) && IsBundle(tx) && !NoDuplicates(Identities(BundleOf(ctx.o, tx).attestations))
    ensures FailsOnChain(ctx, st, tx)
  {
    hide NoDuplicates, TxStateless;
    KindsExclusive(tx);
  }

  /** When its counters pass, a transaction that is not a special-node one fails only on the chain state. */
  lemma FailureIsOnChain(ctx: Context, st: Stage, tx: Transaction)
    requires Screened(ctx.o, tx) && StageOne(ctx, st, tx).Err? && !IsSpecial(tx)
    requires IsBundle(tx) ==> CountAttestations(st.seen, st.counts, BundleOf(ctx.o, tx).attestations, 0, ctx.p.maxAttestationsPerVerifierWindow).Ok?
    ensures FailsOnChain(ctx, st, tx)
  {
    hide CountAttestations, BundleAdmissible, SettlementAdmissible, PaymentFee, SpecialAccepted, TxStateless;
    KindsExclusive(tx);
    if IsBundle(tx) { BundleParses(ctx.o, tx); }
    if IsSettlement(tx) { SettlementParses(ctx.o, tx); }
    if IsControl(tx) { ControlHasNothing(ctx, st, tx); }
  }

  lemma SettlementParses(o: Oracle, tx: Transaction)
    requires IsSettlement(tx) && Screened(o, tx)
    ensures o.parseSettlement(tx.metadata).Some?
  {
    KindsExclusive(tx);
  }

  lemma ControlHasNothing(ctx: Context, st: Stage, tx: Transaction)
    requires IsControl(tx) && Screened(ctx.o, tx)
    ensures OutputsActive(ctx, tx) && RecordSpends(st.spends, tx.inputs, 0).Ok?
  {
    KindsExclusive(tx);
  }

  /** The template's transactions behind a coinbase. */
  ghost predicate CarriedBy(t: Template, txs: seq<Transaction>) {
    |txs| == |t.included| + 1 && forall i :: 0 <= i < |t.included| ==> txs[i + 1] == t.included[i].transaction
  }

  lemma {:induction false} StagesOrFails(env: Env, ctx: Context, t: Template, txs: seq<Transaction>, st: Stage, k: nat)
    returns (n: nat, end: Stage)
    requires Sound(env, t) && SameBlock(env, ctx)
    requires CarriedBy(t, txs) && AllScreened(ctx.o, txs) && 1 <= k <= |txs| && Agrees(env, st, t.included[..k - 1])
    ensures k <= n <= |txs| && StageUntil(ctx, st, txs, k, n) == Ok(end) && Agrees(env, end, t.included[..n - 1])
    ensures n == |txs| ==> StageFrom(ctx, st, txs, k) == Ok(end)
    ensures n < |txs| ==> StageFrom(ctx, st, txs, k).Err? && StageOne(ctx, end, txs[n]).Err? && FailsOnChain(ctx, end, txs[n])
    decreases |txs| - k
  {
    hide StageOne, Agrees, Sound, Screened, FailsOnChain, NoDuplicates, CountAttestations;
    n, end := k, st;
    if k < |txs| {
      var row := t.included[k - 1];
      assert Screened(ctx.o, txs[k]) && txs[k - 1 + 1] == row.transaction;
      if StageOne(ctx, st, txs[k]).Ok? {
        NextAgrees(env, ctx, st, t.included, k - 1);
        n, end := StagesOrFails(env, ctx, t, txs, StageOne(ctx, st, txs[k]).value, k + 1);
      } else {
        TemplatePasses(env, ctx, t, st, k - 1);
        if IsBundle(txs[k]) && !NoDuplicates(Identities(BundleOf(ctx.o, txs[k]).attestations)) {
          RepeatsAreRefused(ctx, st, txs[k]);
        } else {
          FailureIsOnChain(ctx, st, txs[k]);
        }
      }
    }
  }

  /**
   * A block of a coinbase and a selected template, staged on a ledger with the template's registry: staging
   * stays in step with the template, every special-node transaction passes, and if staging stops, it stops at
   * a payment, or at a bundle or settlement that the chain state does not admit.
   */
  lemma TemplateStages(env: Env, ctx: Context, ledger: Ledger, t: Template, txs: seq<Transaction>) returns (n: nat, end: Stage)
    requires Sound(env, t) && SameBlock(env, ctx) && ledger.registry == env.registry
    requires CarriedBy(t, txs) && AllScreened(ctx.o, txs)
    ensures 1 <= n <= |txs| && StageUntil(ctx, InitialStage(ledger), txs, 1, n) == Ok(end)
    ensures Agrees(env, end, t.included[..n - 1])
    ensures StageFrom(ctx, InitialStage(ledger), txs, 1).Ok? <==> n == |txs|
    ensures n < |txs| ==> StageOne(ctx, end, txs[n]).Err? && FailsOnChain(ctx, end, txs[n])
  {
    hide StageOne, Agrees, Sound, StageFrom, StageUntil, FailsOnChain, InitialStage;
    StartAgrees(env, ledger);
    assert t.included[..0] == [];
    n, end := StagesOrFails(env, ctx, t, txs, InitialStage(ledger), 1);
  }
}
