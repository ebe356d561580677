/** The on-chain node registry: registration, renewal, warm-up and activity (nodes.py). */
module Nodes {
  import opened Prelude
  import opened Arith
  import opened Models
  import opened Oracles
  import opened Economics

  datatype NodeRecord = NodeRecord(
    nodeId: Text,
    payout: Text,
    owner: Bytes,
    registeredHeight: nat,
    lastRenewedHeight: nat,
    nodeKey: Option<Bytes>,
    host: Option<Text>,
    port: Option<int>,
    rewardRegistration: bool)

  type Registry = map<Text, NodeRecord>

  const NODE_ID := Ascii("node_id")
  const PAYOUT := Ascii("payout_address")
  const OWNER := Ascii("owner_pubkey_hex")
  const NODE_KEY := Ascii("node_pubkey_hex")
  const HOST := Ascii("declared_host")
  const PORT := Ascii("declared_port")
  const REGISTRATION_FEE := Ascii("registration_fee_chipbits")
  const RENEWAL_FEE := Ascii("renewal_fee_chipbits")
  const RENEWAL_EPOCH := Ascii("renewal_epoch")

  const MIN_REGISTER_FEE := 10_000
  const MIN_RENEW_FEE := 1_000

  // ---- warm-up and activity ----

  function CurrentEpoch(height: nat, p: Params): nat {
    height / p.epochLength
  }

  function WarmupCompleteEpoch(r: NodeRecord, p: Params): nat {
    if !r.rewardRegistration then CurrentEpoch(r.registeredHeight, p)
    else CurrentEpoch(r.registeredHeight, p) + p.warmupEpochs
  }

  function EligibleFromHeight(r: NodeRecord, p: Params): int {
    if !r.rewardRegistration then r.lastRenewedHeight + 1
    else Max(r.lastRenewedHeight + 1, WarmupCompleteEpoch(r, p) * p.epochLength)
  }

  predicate WarmupSatisfied(r: NodeRecord, height: nat, p: Params) {
    !r.rewardRegistration || CurrentEpoch(height, p) >= WarmupCompleteEpoch(r, p)
  }

  /** `reward_node_is_active`. */
  predicate IsActive(r: NodeRecord, height: nat, p: Params) {
    && r.lastRenewedHeight < height
    && CurrentEpoch(r.lastRenewedHeight, p) == CurrentEpoch(height, p)
    && WarmupSatisfied(r, height, p)
  }

  /** A record is active exactly from its eligible height to the end of the epoch it was renewed in. */
  lemma ActiveExactly(r: NodeRecord, height: nat, p: Params)
    ensures IsActive(r, height, p)
            <==> height >= EligibleFromHeight(r, p) && CurrentEpoch(height, p) == CurrentEpoch(r.lastRenewedHeight, p)
  {
    DivReaches(height, p.epochLength, WarmupCompleteEpoch(r, p));
  }

  /**
   * A reward node stays inactive through the warm-up epochs counted from its recorded registration height,
   * however often it renews. `WarmupFromReward` says when that is the height of its reward registration.
   */
  lemma WarmupDelays(r: NodeRecord, height: nat, p: Params)
    requires r.rewardRegistration && IsActive(r, height, p)
    ensures height >= (CurrentEpoch(r.registeredHeight, p) + p.warmupEpochs) * p.epochLength
  {
    ActiveExactly(r, height, p);
  }

  /** The active reward nodes that settlement and committees draw from, by node id. */
  function ActiveRewardNodes(reg: Registry, height: nat, p: Params): Registry {
    map id | id in reg && IsActive(reg[id], height, p) && reg[id].rewardRegistration :: reg[id]
  }

  // ---- special transactions ----

  predicate EndpointOk(o: Oracle, tx: Transaction) {
    && Field(tx, HOST) != []
    && o.integer(Field(tx, PORT)).Some?
    && 0 < o.integer(Field(tx, PORT)).value <= 65535
  }

  predicate DeclaredFeeOk(o: Oracle, tx: Transaction, key: Text) {
    o.integer(Field(tx, key)).Some? && o.integer(Field(tx, key)).value >= 0
  }

  /** `validate_special_node_transaction_stateless`. */
  predicate SpecialStateless(o: Oracle, tx: Transaction) {
    && tx.inputs == [] && tx.outputs == []
    && Field(tx, NODE_ID) != []
    && o.publicKey(Field(tx, OWNER)).Some?
    && o.ownerSigned(tx)
    && (KindOf(tx) == Some(REGISTER_NODE) ==> o.addressValid(Field(tx, PAYOUT)))
    && (KindOf(tx) == Some(RENEW_NODE) ==> Field(tx, RENEWAL_EPOCH) != [])
    && (KindOf(tx) == Some(REGISTER_REWARD_NODE) ==>
          && o.addressValid(Field(tx, PAYOUT))
          && o.publicKey(Field(tx, NODE_KEY)).Some?
          && EndpointOk(o, tx)
          && DeclaredFeeOk(o, tx, REGISTRATION_FEE))
    && (KindOf(tx) == Some(RENEW_REWARD_NODE) ==>
          && Field(tx, RENEWAL_EPOCH) != []
          && EndpointOk(o, tx)
          && DeclaredFeeOk(o, tx, RENEWAL_FEE))
  }

  /** Another record than `id` already holds this owner key. */
  predicate OwnerHeldElsewhere(reg: Registry, owner: Bytes, id: Text) {
    exists k :: k in reg && reg[k].owner == owner && reg[k].nodeId != id
  }

  predicate NodeKeyHeldElsewhere(reg: Registry, key: Bytes, id: Text) {
    exists k :: k in reg && reg[k].nodeKey == Some(key) && reg[k].nodeId != id
  }

  predicate RenewalEpochMatches(tx: Transaction, height: nat, p: Params) {
    Lookup(tx.metadata, RENEWAL_EPOCH) == Some(Decimal(CurrentEpoch(height, p)))
  }

  predicate FeeMatches(declared: Option<int>, expected: Result<int>) {
    declared.Some? && expected.Ok? && declared.value == expected.value
  }

  /** `_validate_special_node_transaction_stateful`, for a transaction that passed the stateless rules. */
  predicate SpecialAdmissible(o: Oracle, tx: Transaction, reg: Registry, height: nat, feeCount: nat, p: Params)
    requires SpecialStateless(o, tx)
  {
    var id, owner := Field(tx, NODE_ID), o.publicKey(Field(tx, OWNER)).value;
    && o.ownerSignedAt(tx, height)
    && if KindOf(tx) == Some(REGISTER_NODE) then
         && id !in reg
         && !(exists k :: k in reg && reg[k].owner == owner)
       else if KindOf(tx) == Some(REGISTER_REWARD_NODE) then
         && (id in reg ==> !reg[id].rewardRegistration && reg[id].owner == owner)
         && !OwnerHeldElsewhere(reg, owner, id)
         && !NodeKeyHeldElsewhere(reg, o.publicKey(Field(tx, NODE_KEY)).value, id)
         && FeeMatches(o.integer(Field(tx, REGISTRATION_FEE)), AdaptiveFee(feeCount, p.registerFee, MIN_REGISTER_FEE))
       else if KindOf(tx) == Some(RENEW_NODE) then
         && id in reg && reg[id].owner == owner
         && RenewalEpochMatches(tx, height, p)
       else
         && KindOf(tx) == Some(RENEW_REWARD_NODE)
         && id in reg && reg[id].owner == owner
         && RenewalEpochMatches(tx, height, p)
         && FeeMatches(o.integer(Field(tx, RENEWAL_FEE)), AdaptiveFee(feeCount, p.renewFee, MIN_RENEW_FEE))
  }

  /** The fee schedule of a reward registration or renewal that passed all other checks is unusable, which raises. */
  predicate SpecialRaises(o: Oracle, tx: Transaction, reg: Registry, height: nat, feeCount: nat, p: Params)
    requires SpecialStateless(o, tx)
  {
    var id, owner := Field(tx, NODE_ID), o.publicKey(Field(tx, OWNER)).value;
    && o.ownerSignedAt(tx, height)
    && if KindOf(tx) == Some(REGISTER_REWARD_NODE) then
         && (id in reg ==> !reg[id].rewardRegistration && reg[id].owner == owner)
         && !OwnerHeldElsewhere(reg, owner, id)
         && !NodeKeyHeldElsewhere(reg, o.publicKey(Field(tx, NODE_KEY)).value, id)
         && AdaptiveFee(feeCount, p.registerFee, MIN_REGISTER_FEE).Err?
       else
         && KindOf(tx) == Some(RENEW_REWARD_NODE)
         && id in reg && reg[id].owner == owner
         && RenewalEpochMatches(tx, height, p)
         && AdaptiveFee(feeCount, p.renewFee, MIN_RENEW_FEE).Err?
  }

  /** The record that `apply_special_node_transaction` writes. */
  function UpdatedRecord(o: Oracle, tx: Transaction, reg: Registry, height: nat): NodeRecord
    requires SpecialStateless(o, tx)
    requires IsSpecial(tx)
    requires KindOf(tx) in {Some(RENEW_NODE), Some(RENEW_REWARD_NODE)} ==> Field(tx, NODE_ID) in reg
  {
    var id := Field(tx, NODE_ID);
    if KindOf(tx) == Some(REGISTER_NODE) then
      NodeRecord(id, Field(tx, PAYOUT), o.publicKey(Field(tx, OWNER)).value, height, height, None, None, None, false)
    else if KindOf(tx) == Some(REGISTER_REWARD_NODE) then
      NodeRecord(id, Field(tx, PAYOUT), o.publicKey(Field(tx, OWNER)).value,
                 if id in reg then reg[id].registeredHeight else height, height,
                 o.publicKey(Field(tx, NODE_KEY)), Some(Field(tx, HOST)), o.integer(Field(tx, PORT)), true)
    else if KindOf(tx) == Some(RENEW_NODE) then
      NodeRecord(reg[id].nodeId, reg[id].payout, reg[id].owner, reg[id].registeredHeight, height, None, None, None, false)
    else
      NodeRecord(reg[id].nodeId, reg[id].payout, reg[id].owner, reg[id].registeredHeight, height,
                 reg[id].nodeKey, Some(Field(tx, HOST)), o.integer(Field(tx, PORT)), reg[id].rewardRegistration)
  }

  predicate SpecialAccepted(o: Oracle, tx: Transaction, reg: Registry, height: nat, feeCount: nat, p: Params) {
    IsSpecial(tx) && SpecialStateless(o, tx) && SpecialAdmissible(o, tx, reg, height, feeCount, p)
  }

  /** An accepted special transaction's effect on the registry. */
  function ApplySpecial(o: Oracle, tx: Transaction, reg: Registry, height: nat, feeCount: nat, p: Params): Registry
    requires SpecialAccepted(o, tx, reg, height, feeCount, p)
  {
    KindsExclusive(tx);
    var r := UpdatedRecord(o, tx, reg, height);
    reg[r.nodeId := r]
  }

  /**
   * An accepted reward registration starts the warm-up at its own epoch if and only if the node is new or
   * was first registered in that epoch: a reward registration over a legacy record keeps the old height.
   */
  lemma WarmupFromReward(o: Oracle, tx: Transaction, reg: Registry, height: nat, feeCount: nat, p: Params)
    requires SpecialAccepted(o, tx, reg, height, feeCount, p) && KindOf(tx) == Some(REGISTER_REWARD_NODE)
    ensures var r := ApplySpecial(o, tx, reg, height, feeCount, p)[Field(tx, NODE_ID)];
            WarmupCompleteEpoch(r, p) == CurrentEpoch(height, p) + p.warmupEpochs
            <==> (Field(tx, NODE_ID) in reg ==> CurrentEpoch(reg[Field(tx, NODE_ID)].registeredHeight, p) == CurrentEpoch(height, p))
  {
    hide SpecialStateless, SpecialAdmissible;
    KindsExclusive(tx);
  }

  /** So a legacy node old enough is an active reward node one block after its reward registration. */
  lemma WarmupSkipped(o: Oracle, tx: Transaction, reg: Registry, height: nat, feeCount: nat, p: Params)
    requires SpecialAccepted(o, tx, reg, height, feeCount, p) && KindOf(tx) == Some(REGISTER_REWARD_NODE)
    requires Field(tx, NODE_ID) in reg && CurrentEpoch(height + 1, p) == CurrentEpoch(height, p)
    requires CurrentEpoch(reg[Field(tx, NODE_ID)].registeredHeight, p) + p.warmupEpochs <= CurrentEpoch(height, p)
    ensures Field(tx, NODE_ID) in ActiveRewardNodes(ApplySpecial(o, tx, reg, height, feeCount, p), height + 1, p)
  {
    hide SpecialStateless, SpecialAdmissible;
    KindsExclusive(tx);
  }

  class InMemoryNodeRegistryView {
    var entries: Registry

    constructor (initial: Registry)
      ensures entries == initial
    {
      entries := initial;
    }

    method GetByOwner(owner: Bytes) returns (r: Option<NodeRecord>)
      ensures r.Some? ==> r.value in entries.Values && r.value.owner == owner
      ensures r.None? ==> forall id :: id in entries ==> entries[id].owner != owner
      ensures OwnersUnique(entries) ==> forall id :: id in entries && entries[id].owner == owner ==> r == Some(entries[id])
    {
      var left := entries.Keys;
      while left != {}
        invariant left <= entries.Keys
        invariant forall id :: id in entries && id !in left ==> entries[id].owner != owner
        decreases |left|
      {
        var id :| id in left;
        if entries[id].owner == owner { return Some(entries[id]); }
        left := left - {id};
      }
      r := None;
    }

    method Upsert(record: NodeRecord)
      modifies this
      ensures entries == old(entries)[record.nodeId := record]
    {
      entries := entries[record.nodeId := record];
    }

    method Clone() returns (copy: InMemoryNodeRegistryView)
      ensures fresh(copy) && copy.entries == entries
    {
      copy := new InMemoryNodeRegistryView(entries);
    }

    method ApplySpecialTransaction(o: Oracle, tx: Transaction, height: nat, ghost feeCount: nat, ghost p: Params)
      requires SpecialAccepted(o, tx, entries, height, feeCount, p)
      modifies this
      ensures entries == ApplySpecial(o, tx, old(entries), height, feeCount, p)
    {
      KindsExclusive(tx);
      Upsert(UpdatedRecord(o, tx, entries, height));
    }
  }

  // ---- what every run of accepted transactions keeps ----

  ghost predicate OwnersUnique(reg: Registry) {
    forall a, b :: a in reg && b in reg && reg[a].owner == reg[b].owner ==> a == b
  }

  ghost predicate NodeKeysUnique(reg: Registry) {
    forall a, b :: a in reg && b in reg && reg[a].nodeKey.Some? && reg[a].nodeKey == reg[b].nodeKey ==> a == b
  }

  ghost predicate RecordOk(id: Text, r: NodeRecord, height: nat) {
    && r.nodeId == id
    && r.registeredHeight <= r.lastRenewedHeight <= height
    && (r.rewardRegistration ==> r.nodeKey.Some?)
  }

  ghost predicate RegistryOk(reg: Registry, height: nat) {
    && OwnersUnique(reg)
    && NodeKeysUnique(reg)
    && (forall id :: id in reg ==> RecordOk(id, reg[id], height))
  }

  /** No node disappears, changes hands or moves its registration height. */
  ghost predicate Preserves(before: Registry, after: Registry) {
    forall id :: id in before ==>
      id in after && after[id].owner == before[id].owner && after[id].registeredHeight == before[id].registeredHeight
  }

  /** One registration or renewal: its transaction, its block height and the fee count of its block. */
  datatype NodeStep = NodeStep(tx: Transaction, height: nat, feeCount: nat)

  /** Every step is accepted against the registry left by the ones before it, at non-decreasing heights. */
  ghost predicate AcceptedRun(o: Oracle, reg: Registry, height: nat, steps: seq<NodeStep>, p: Params)
    decreases steps
  {
    steps == [] ||
    var s := steps[0];
    && height <= s.height
    && SpecialAccepted(o, s.tx, reg, s.height, s.feeCount, p)
    && AcceptedRun(o, ApplySpecial(o, s.tx, reg, s.height, s.feeCount, p), s.height, steps[1..], p)
  }

  ghost function RunRegistry(o: Oracle, reg: Registry, height: nat, steps: seq<NodeStep>, p: Params): (Registry, nat)
    requires AcceptedRun(o, reg, height, steps, p)
    decreases steps
  {
    if steps == [] then (reg, height)
    else
      var s := steps[0];
      RunRegistry(o, ApplySpecial(o, s.tx, reg, s.height, s.feeCount, p), s.height, steps[1..], p)
  }

  /** Writing a record keeps the registry sound when its keys are its own. */
  lemma UpsertKeeps(reg: Registry, r: NodeRecord, height: nat, now: nat)
    requires RegistryOk(reg, height) && height <= now
    requires RecordOk(r.nodeId, r, now)
    requires !OwnerHeldElsewhere(reg, r.owner, r.nodeId)
    requires r.nodeKey.Some? ==> !NodeKeyHeldElsewhere(reg, r.nodeKey.value, r.nodeId)
    requires r.nodeId in reg ==> r.owner == reg[r.nodeId].owner && r.registeredHeight == reg[r.nodeId].registeredHeight
    ensures RegistryOk(reg[r.nodeId := r], now) && Preserves(reg, reg[r.nodeId := r])
  {
    assert forall k :: k in reg ==> RecordOk(k, reg[k], height);
  }

  /** One accepted special transaction keeps the registry sound. */
  lemma SpecialKeeps(o: Oracle, tx: Transaction, reg: Registry, height: nat, now: nat, feeCount: nat, p: Params)
    requires RegistryOk(reg, height) && height <= now
    requires SpecialAccepted(o, tx, reg, now, feeCount, p)
    ensures RegistryOk(ApplySpecial(o, tx, reg, now, feeCount, p), now)
    ensures Preserves(reg, ApplySpecial(o, tx, reg, now, feeCount, p))
  {
    KindsExclusive(tx);
    var r := UpdatedRecord(o, tx, reg, now);
    var id := Field(tx, NODE_ID);
    assert id in reg ==> RecordOk(id, reg[id], height);
    assert r.nodeId == id;
    forall k | k in reg && k != id ensures reg[k].owner != r.owner && (r.nodeKey.Some? ==> reg[k].nodeKey != r.nodeKey) {
      assert RecordOk(k, reg[k], height);
    }
    UpsertKeeps(reg, r, height, now);
  }

  /** Over every run: unique owners and node keys, records under their own id, ordered heights, fixed ownership. */
  lemma {:induction false} RegistryRunKeeps(o: Oracle, reg: Registry, height: nat, steps: seq<NodeStep>, p: Params)
    requires RegistryOk(reg, height) && AcceptedRun(o, reg, height, steps, p)
    ensures RegistryOk(RunRegistry(o, reg, height, steps, p).0, RunRegistry(o, reg, height, steps, p).1)
    ensures Preserves(reg, RunRegistry(o, reg, height, steps, p).0)
    ensures height <= RunRegistry(o, reg, height, steps, p).1
    decreases steps
  {
    if steps != [] {
      var s := steps[0];
      SpecialKeeps(o, s.tx, reg, height, s.height, s.feeCount, p);
      RegistryRunKeeps(o, ApplySpecial(o, s.tx, reg, s.height, s.feeCount, p), s.height, steps[1..], p);
    }
  }
}
