/**
 * Reward payloads, and the library code the model does not look inside: hashing, signature
 * checks, text parsing and JSON decoding are arbitrary functions, so what is proved holds for all of them.
 */
module Oracles {
  import opened Prelude
  import opened Arith
  import opened Models

  datatype Attestation = Attestation(
    epochIndex: int,
    window: int,
    candidate: Text,
    verifier: Text,
    resultCode: Text,
    syncGap: int,
    endpointCommitment: Text,
    concentrationKey: Text,
    signature: Text)

  datatype Bundle = Bundle(epochIndex: int, window: int, submitter: Text, attestations: seq<Attestation>)

  datatype Entry = Entry(
    nodeId: Text,
    payout: Text,
    reward: int,
    rank: int,
    concentrationKey: Text,
    finalConfirmation: bool)

  datatype Settlement = Settlement(
    epochIndex: int,
    startHeight: int,
    endHeight: int,
    seed: Bytes,
    rewardedCount: int,
    distributed: int,
    undistributed: int,
    entries: seq<Entry>)

  /** The strings hashed with the epoch seed to score windows, verifiers and winners. */
  datatype ScoreTag =
    | CandidateWindow(window: int, node: Text)
    | VerifierSeat(window: int, candidate: Text, verifier: Text)
    | ConcentrationRank(node: Text, payout: Text)

  datatype Oracle = Oracle(
    txid: Transaction -> Hash,
    weight: Transaction -> pos,
    score: (Bytes, ScoreTag) -> Bytes,
    publicKey: Text -> Option<Bytes>,
    integer: Text -> Option<int>,
    addressValid: Text -> bool,
    ownerSigned: Transaction -> bool,
    ownerSignedAt: (Transaction, int) -> bool,
    inputShapeOk: (Transaction, TxInput) -> bool,
    recipientActive: (Text, int) -> bool,
    inputSigned: (Transaction, nat, TxOutput, int) -> bool,
    attestationSigned: (Attestation, Bytes) -> bool,
    parseBundle: Metadata -> Option<Bundle>,
    parseSettlement: Metadata -> Option<Settlement>,
    settlementShapeOk: Metadata -> bool,
    headerOk: (Block, int) -> bool)

  const KIND := Ascii("kind")
  const REGISTER_NODE := Ascii("register_node")
  const RENEW_NODE := Ascii("renew_node")
  const REGISTER_REWARD_NODE := Ascii("register_reward_node")
  const RENEW_REWARD_NODE := Ascii("renew_reward_node")
  const REWARD_ATTESTATION_BUNDLE := Ascii("reward_attestation_bundle")
  const REWARD_SETTLE_EPOCH := Ascii("reward_settle_epoch")

  /** `metadata.get("kind")`. */
  function KindOf(tx: Transaction): Option<Text> {
    Lookup(tx.metadata, KIND)
  }

  function Field(tx: Transaction, key: Text): Text {
    Get(tx.metadata, key, [])
  }

  predicate IsBundle(tx: Transaction) {
    KindOf(tx) == Some(REWARD_ATTESTATION_BUNDLE)
  }

  predicate IsSettlement(tx: Transaction) {
    KindOf(tx) == Some(REWARD_SETTLE_EPOCH)
  }

  predicate IsSpecial(tx: Transaction) {
    || KindOf(tx) == Some(REGISTER_NODE)
    || KindOf(tx) == Some(RENEW_NODE)
    || KindOf(tx) == Some(REGISTER_REWARD_NODE)
    || KindOf(tx) == Some(RENEW_REWARD_NODE)
  }

  /** The control kinds exclude each other. */
  lemma KindsExclusive(tx: Transaction)
    ensures !(IsBundle(tx) && IsSettlement(tx)) && !(IsBundle(tx) && IsSpecial(tx)) && !(IsSettlement(tx) && IsSpecial(tx))
    ensures NoDuplicates([REGISTER_NODE, RENEW_NODE, REGISTER_REWARD_NODE, RENEW_REWARD_NODE])
  {
    assert |REGISTER_NODE| == 13 && |RENEW_NODE| == 10 && |REGISTER_REWARD_NODE| == 20 && |RENEW_REWARD_NODE| == 17;
    assert |REWARD_ATTESTATION_BUNDLE| == 25 && |REWARD_SETTLE_EPOCH| == 19;
  }

  /** `str(n)`. */
  function Decimal(n: nat): Text {
    if n < 10 then [48 + n] else Decimal(n / 10) + [48 + n % 10]
  }
}
