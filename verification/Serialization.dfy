/** The binary codec for transactions, headers and blocks (serialization.py). */
module Serialization {
  import opened Prelude
  import opened Arith
  import opened Models
  import opened Pow

  const U32 := 0x1_0000_0000
  const U64 := 0x1_0000_0000_0000_0000

  /** Which byte strings `bytes.decode("utf-8")` accepts. */
  type Utf8 = Bytes -> bool

  /** A decoded value and the offset after it. */
  datatype Parsed<+T> = Parsed(value: T, next: nat)

  /** `piece` stands in `payload` at `offset`; anything may come before and after. */
  predicate At(payload: Bytes, offset: nat, piece: Bytes) {
    offset + |piece| <= |payload| && payload[offset..offset + |piece|] == piece
  }

  lemma AtConcat(payload: Bytes, offset: nat, a: Bytes, b: Bytes)
    requires At(payload, offset, a + b)
    ensures At(payload, offset, a) && At(payload, offset + |a|, b)
  {
    var whole := payload[offset..offset + |a + b|];
    assert payload[offset..offset + |a|] == whole[..|a|] == a;
    assert payload[offset + |a|..offset + |a| + |b|] == whole[|a|..] == b;
  }

  // ---- fixed-width integers ----

  function LittleEndian(v: nat, n: nat): (b: Bytes)
    ensures |b| == n
  {
    if n == 0 then [] else [v % 256] + LittleEndian(v / 256, n - 1)
  }

  function LeValue(b: Bytes): nat {
    if b == [] then 0 else b[0] + 256 * LeValue(b[1..])
  }

  /** `unpack_from`. */
  function Unpack(payload: Bytes, offset: nat, n: nat): Result<Parsed<nat>> {
    if offset + n > |payload| then Err(Malformed) else Ok(Parsed(LeValue(payload[offset..offset + n]), offset + n))
  }

  /** `pack`. */
  function Pack(v: int, n: nat): Result<Bytes> {
    if 0 <= v < Pow256(n) then Ok(LittleEndian(v, n)) else Err(Malformed)
  }

  lemma Widths()
    ensures Pow256(1) == 256 && Pow256(2) == 0x1_0000 && Pow256(4) == U32 && Pow256(8) == U64
  {
    assert Pow256(3) == 0x100_0000;
    assert Pow256(6) == 0x1_0000_0000_0000;
  }

  lemma {:induction false} LeRoundTrip(v: nat, n: nat)
    requires v < Pow256(n)
    ensures LeValue(LittleEndian(v, n)) == v
  {
    if n > 0 { LeRoundTrip(v / 256, n - 1); }
  }

  lemma {:induction false} LeBack(b: Bytes)
    ensures LeValue(b) < Pow256(|b|) && LittleEndian(LeValue(b), |b|) == b
  {
    if b != [] {
      LeBack(b[1..]);
      DivShift(b[0], LeValue(b[1..]), 256);
      assert b == [b[0]] + b[1..];
    }
  }

  lemma UnpackAt(payload: Bytes, offset: nat, v: nat, n: nat)
    requires v < Pow256(n) && At(payload, offset, LittleEndian(v, n))
    ensures Unpack(payload, offset, n) == Ok(Parsed(v, offset + n))
  {
    LeRoundTrip(v, n);
  }

  // ---- varints ----

  function Varint(v: nat): Bytes {
    if v < 0xFD then [v]
    else if v <= 0xFFFF then [0xFD] + LittleEndian(v, 2)
    else if v <= 0xFFFF_FFFF then [0xFE] + LittleEndian(v, 4)
    else [0xFF] + LittleEndian(v, 8)
  }

  /** `_encode_varint`. */
  function EncodeVarint(v: int): Result<Bytes> {
    if v < 0 || v >= U64 then Err(Malformed) else Ok(Varint(v))
  }

  /** `_decode_varint`; longer forms than needed are accepted. */
  function ParseVarint(payload: Bytes, offset: nat): Result<Parsed<nat>> {
    if offset >= |payload| then Err(Malformed)
    else
      var lead := payload[offset];
      if lead < 0xFD then Ok(Parsed(lead, offset + 1))
      else Unpack(payload, offset + 1, if lead == 0xFD then 2 else if lead == 0xFE then 4 else 8)
  }

  lemma VarintAt(payload: Bytes, offset: nat, v: nat)
    requires v < U64 && At(payload, offset, Varint(v))
    ensures ParseVarint(payload, offset) == Ok(Parsed(v, offset + |Varint(v)|))
  {
    hide LittleEndian, LeValue, Pow256;
    Widths();
    var whole := payload[offset..offset + |Varint(v)|];
    assert payload[offset] == whole[0] == Varint(v)[0];
    if v >= 0xFD {
      var n := if v <= 0xFFFF then 2 else if v <= 0xFFFF_FFFF then 4 else 8;
      AtConcat(payload, offset, [Varint(v)[0]], LittleEndian(v, n));
      UnpackAt(payload, offset + 1, v, n);
    }
  }

  /** A decoded varint re-encodes to the bytes it was read from exactly when no shorter form exists. */
  lemma VarintCanonical(payload: Bytes, offset: nat)
    requires ParseVarint(payload, offset).Ok?
    ensures var r := ParseVarint(payload, offset).value;
            && r.value < U64 && r.next <= |payload|
            && |Varint(r.value)| <= r.next - offset
            && (payload[offset..r.next] == Varint(r.value) <==> |Varint(r.value)| == r.next - offset)
  {
    hide LittleEndian, LeValue, Pow256;
    Widths();
    var r := ParseVarint(payload, offset).value;
    var body := payload[offset + 1..r.next];
    LeBack(body);
    assert payload[offset..r.next] == [payload[offset]] + body;
  }

  // ---- byte strings and text ----

  function BytesField(b: Bytes): Bytes {
    Varint(|b|) + b
  }

  /** `_decode_bytes`. */
  function ParseBytes(payload: Bytes, offset: nat): Result<Parsed<Bytes>> {
    var length :- ParseVarint(payload, offset);
    if length.next + length.value > |payload| then Err(Malformed)
    else Ok(Parsed(payload[length.next..length.next + length.value], length.next + length.value))
  }

  /** `_decode_string`. */
  function ParseText(utf8: Utf8, payload: Bytes, offset: nat): Result<Parsed<Text>> {
    var raw :- ParseBytes(payload, offset);
    if utf8(raw.value) then Ok(raw) else Err(Malformed)
  }

  lemma BytesAt(payload: Bytes, offset: nat, b: Bytes)
    requires |b| < U64 && At(payload, offset, BytesField(b))
    ensures ParseBytes(payload, offset) == Ok(Parsed(b, offset + |BytesField(b)|))
  {
    hide Varint, ParseVarint;
    AtConcat(payload, offset, Varint(|b|), b);
    VarintAt(payload, offset, |b|);
  }

  // ---- inputs ----

  predicate Fits(v: int, bound: int) {
    0 <= v < bound
  }

  predicate InputFits(version: int, i: TxInput) {
    && |i.previousOutput.txid| == 32 && Fits(i.previousOutput.index, U32)
    && (if version >= 2 then Fits(i.schemeId, 256) else i.schemeId == 0)
    && |i.signature| < U64 && |i.publicKey| < U64 && Fits(i.sequence, U32)
  }

  /** The signature scheme byte exists from version 2 on. */
  function SchemeField(version: int, i: TxInput): Bytes
    requires InputFits(version, i)
  {
    if version >= 2 then [i.schemeId] else []
  }

  function InputBytes(version: int, i: TxInput): Bytes
    requires InputFits(version, i)
  {
    i.previousOutput.txid + (LittleEndian(i.previousOutput.index, 4) + (SchemeField(version, i)
    + (BytesField(i.signature) + (BytesField(i.publicKey) + LittleEndian(i.sequence, 4)))))
  }

  function ParseScheme(version: nat, payload: Bytes, offset: nat): Result<Parsed<int>> {
    if version < 2 then Ok(Parsed(0, offset))
    else if offset >= |payload| then Err(Malformed)
    else Ok(Parsed(payload[offset], offset + 1))
  }

  function ParseInput(version: nat, payload: Bytes, offset: nat): Result<Parsed<TxInput>> {
    var index :- Unpack(payload, offset + 32, 4);
    var scheme :- ParseScheme(version, payload, index.next);
    var signature :- ParseBytes(payload, scheme.next);
    var publicKey :- ParseBytes(payload, signature.next);
    var sequence :- Unpack(payload, publicKey.next, 4);
    Ok(Parsed(TxInput(OutPoint(payload[offset..offset + 32], index.value), signature.value, publicKey.value, sequence.value, scheme.value),
              sequence.next))
  }

  lemma InputAt(version: nat, i: TxInput, payload: Bytes, offset: nat)
    requires InputFits(version, i) && At(payload, offset, InputBytes(version, i))
    ensures ParseInput(version, payload, offset) == Ok(Parsed(i, offset + |InputBytes(version, i)|))
  {
    hide LittleEndian, ParseBytes, BytesField, Unpack, Pow256;
    Widths();
    var last := LittleEndian(i.sequence, 4);
    var fourth := BytesField(i.publicKey) + last;
    var third := BytesField(i.signature) + fourth;
    var second := SchemeField(version, i) + third;
    var first := LittleEndian(i.previousOutput.index, 4) + second;
    AtConcat(payload, offset, i.previousOutput.txid, first);
    AtConcat(payload, offset + 32, LittleEndian(i.previousOutput.index, 4), second);
    UnpackAt(payload, offset + 32, i.previousOutput.index, 4);
    AtConcat(payload, offset + 36, SchemeField(version, i), third);
    var here := offset + 36 + |SchemeField(version, i)|;
    assert ParseScheme(version, payload, offset + 36) == Ok(Parsed(i.schemeId, here));
    AtConcat(payload, here, BytesField(i.signature), fourth);
    BytesAt(payload, here, i.signature);
    AtConcat(payload, here + |BytesField(i.signature)|, BytesField(i.publicKey), last);
    BytesAt(payload, here + |BytesField(i.signature)|, i.publicKey);
    UnpackAt(payload, here + |BytesField(i.signature)| + |BytesField(i.publicKey)|, i.sequence, 4);
  }

  predicate InputsFit(version: int, inputs: seq<TxInput>) {
    forall k :: 0 <= k < |inputs| ==> InputFits(version, inputs[k])
  }

  function InputsBytes(version: int, inputs: seq<TxInput>): Bytes
    requires InputsFit(version, inputs)
  {
    if inputs == [] then [] else InputBytes(version, inputs[0]) + InputsBytes(version, inputs[1..])
  }

  function ParseInputs(version: nat, payload: Bytes, offset: nat, count: nat): Result<Parsed<seq<TxInput>>>
    decreases count
  {
    if count == 0 then Ok(Parsed([], offset))
    else
      var head :- ParseInput(version, payload, offset);
      var tail :- ParseInputs(version, payload, head.next, count - 1);
      Ok(Parsed([head.value] + tail.value, tail.next))
  }

  lemma {:induction false} InputsAt(version: nat, inputs: seq<TxInput>, payload: Bytes, offset: nat)
    requires InputsFit(version, inputs) && At(payload, offset, InputsBytes(version, inputs))
    ensures ParseInputs(version, payload, offset, |inputs|) == Ok(Parsed(inputs, offset + |InputsBytes(version, inputs)|))
  {
    hide InputFits, InputBytes, ParseInput;
    if inputs != [] {
      var head := InputBytes(version, inputs[0]);
      AtConcat(payload, offset, head, InputsBytes(version, inputs[1..]));
      InputAt(version, inputs[0], payload, offset);
      InputsAt(version, inputs[1..], payload, offset + |head|);
      assert [inputs[0]] + inputs[1..] == inputs;
    }
  }

  // ---- outputs ----

  predicate OutputFits(o: TxOutput) {
    Fits(o.value, U64) && |o.recipient| < U64
  }

  function OutputBytes(o: TxOutput): Bytes
    requires OutputFits(o)
  {
    LittleEndian(o.value, 8) + BytesField(o.recipient)
  }

  predicate OutputsFit(outputs: seq<TxOutput>) {
    forall k :: 0 <= k < |outputs| ==> OutputFits(outputs[k])
  }

  predicate OutputsReadable(utf8: Utf8, outputs: seq<TxOutput>) {
    forall k :: 0 <= k < |outputs| ==> utf8(outputs[k].recipient)
  }

  function OutputsBytes(outputs: seq<TxOutput>): Bytes
    requires OutputsFit(outputs)
  {
    if outputs == [] then [] else OutputBytes(outputs[0]) + OutputsBytes(outputs[1..])
  }

  function ParseOutput(utf8: Utf8, payload: Bytes, offset: nat): Result<Parsed<TxOutput>> {
    var value :- Unpack(payload, offset, 8);
    var recipient :- ParseText(utf8, payload, value.next);
    Ok(Parsed(TxOutput(value.value, recipient.value), recipient.next))
  }

  function ParseOutputs(utf8: Utf8, payload: Bytes, offset: nat, count: nat): Result<Parsed<seq<TxOutput>>>
    decreases count
  {
    if count == 0 then Ok(Parsed([], offset))
    else
      var head :- ParseOutput(utf8, payload, offset);
      var tail :- ParseOutputs(utf8, payload, head.next, count - 1);
      Ok(Parsed([head.value] + tail.value, tail.next))
  }

  lemma OutputAt(utf8: Utf8, o: TxOutput, payload: Bytes, offset: nat)
    requires OutputFits(o) && utf8(o.recipient) && At(payload, offset, OutputBytes(o))
    ensures ParseOutput(utf8, payload, offset) == Ok(Parsed(o, offset + |OutputBytes(o)|))
  {
    hide LittleEndian, ParseBytes, BytesField, Unpack, Pow256;
    Widths();
    AtConcat(payload, offset, LittleEndian(o.value, 8), BytesField(o.recipient));
    UnpackAt(payload, offset, o.value, 8);
    BytesAt(payload, offset + 8, o.recipient);
  }

  lemma {:induction false} OutputsAt(utf8: Utf8, outputs: seq<TxOutput>, payload: Bytes, offset: nat)
    requires OutputsFit(outputs) && OutputsReadable(utf8, outputs) && At(payload, offset, OutputsBytes(outputs))
    ensures ParseOutputs(utf8, payload, offset, |outputs|) == Ok(Parsed(outputs, offset + |OutputsBytes(outputs)|))
  {
    hide OutputFits, OutputBytes, ParseOutput;
    if outputs != [] {
      var head := OutputBytes(outputs[0]);
      AtConcat(payload, offset, head, OutputsBytes(outputs[1..]));
      OutputAt(utf8, outputs[0], payload, offset);
      OutputsAt(utf8, outputs[1..], payload, offset + |head|);
      assert [outputs[0]] + outputs[1..] == outputs;
    }
  }

  // ---- metadata ----

  predicate PairFits(key: Text, value: Text) {
    |key| < U64 && |value| < U64
  }

  predicate MetadataFits(m: Metadata) {
    |m| < U64 && forall k :: k in m ==> PairFits(k, m[k])
  }

  predicate MetadataReadable(utf8: Utf8, m: Metadata) {
    forall k :: k in m ==> utf8(k) && utf8(m[k])
  }

  function PairsBytes(m: Metadata, keys: seq<Text>): Bytes
    requires forall k :: k in keys ==> k in m
  {
    if keys == [] then [] else BytesField(keys[0]) + (BytesField(m[keys[0]]) + PairsBytes(m, keys[1..]))
  }

  /** The pairs in increasing key order. */
  function MetadataBytes(m: Metadata): Bytes {
    Varint(|m|) + PairsBytes(m, SortedTexts(m.Keys))
  }

  function ParsePairs(utf8: Utf8, payload: Bytes, offset: nat, count: nat, m: Metadata): Result<Parsed<Metadata>>
    decreases count
  {
    if count == 0 then Ok(Parsed(m, offset))
    else
      var key :- ParseText(utf8, payload, offset);
      var value :- ParseText(utf8, payload, key.next);
      ParsePairs(utf8, payload, value.next, count - 1, m[key.value := value.value])
  }

  /** `_decode_metadata`; a repeated key keeps its last value. */
  function ParseMetadata(utf8: Utf8, payload: Bytes, offset: nat): Result<Parsed<Metadata>> {
    var count :- ParseVarint(payload, offset);
    ParsePairs(utf8, payload, count.next, count.value, map[])
  }

  lemma {:induction false} PairsAt(utf8: Utf8, m: Metadata, keys: seq<Text>, done: Metadata, payload: Bytes, offset: nat)
    requires MetadataFits(m) && MetadataReadable(utf8, m)
    requires forall k :: k in keys ==> k in m
    requires forall k :: k in m <==> k in keys || k in done
    requires forall k :: k in done ==> k in m && done[k] == m[k]
    requires At(payload, offset, PairsBytes(m, keys))
    ensures ParsePairs(utf8, payload, offset, |keys|, done) == Ok(Parsed(m, offset + |PairsBytes(m, keys)|))
    decreases |keys|
  {
    hide ParseBytes, BytesField, MetadataFits;
    if keys == [] {
      assert done == m;
    } else {
      var key := keys[0];
      FitsAt(m, key);
      var rest := PairsBytes(m, keys[1..]);
      AtConcat(payload, offset, BytesField(key), BytesField(m[key]) + rest);
      AtConcat(payload, offset + |BytesField(key)|, BytesField(m[key]), rest);
      BytesAt(payload, offset, key);
      BytesAt(payload, offset + |BytesField(key)|, m[key]);
      forall k ensures k in m <==> k in keys[1..] || k in done[key := m[key]] {
        assert k in keys <==> k == key || k in keys[1..];
      }
      PairsAt(utf8, m, keys[1..], done[key := m[key]], payload, offset + |BytesField(key)| + |BytesField(m[key])|);
    }
  }

  lemma FitsAt(m: Metadata, key: Text)
    requires MetadataFits(m) && key in m
    ensures |key| < U64 && |m[key]| < U64
  {
    assert PairFits(key, m[key]);
  }

  lemma MetadataAt(utf8: Utf8, m: Metadata, payload: Bytes, offset: nat)
    requires MetadataFits(m) && MetadataReadable(utf8, m) && At(payload, offset, MetadataBytes(m))
    ensures ParseMetadata(utf8, payload, offset) == Ok(Parsed(m, offset + |MetadataBytes(m)|))
  {
    hide Varint, ParseVarint, PairsBytes, ParsePairs, SortedTexts;
    var keys := SortedTexts(m.Keys);
    SortedTextsIncrease(m.Keys);
    AtConcat(payload, offset, Varint(|m|), PairsBytes(m, keys));
    VarintAt(payload, offset, |m|);
    PairsAt(utf8, m, keys, map[], payload, offset + |Varint(|m|)|);
  }

  // ---- transactions ----

  /** Exactly what `serialize_transaction` can write. */
  predicate TransactionFits(tx: Transaction) {
    && Fits(tx.version, U32) && Fits(tx.locktime, U32)
    && |tx.inputs| < U64 && InputsFit(tx.version, tx.inputs)
    && |tx.outputs| < U64 && OutputsFit(tx.outputs)
    && MetadataFits(tx.metadata)
  }

  /** Every string is valid UTF-8, as every Python `str` that can be encoded is. */
  predicate Readable(utf8: Utf8, tx: Transaction) {
    OutputsReadable(utf8, tx.outputs) && MetadataReadable(utf8, tx.metadata)
  }

  function TransactionBytes(tx: Transaction): Bytes
    requires TransactionFits(tx)
  {
    LittleEndian(tx.version, 4) + (Varint(|tx.inputs|) + (InputsBytes(tx.version, tx.inputs)
    + (Varint(|tx.outputs|) + (OutputsBytes(tx.outputs) + (LittleEndian(tx.locktime, 4) + MetadataBytes(tx.metadata))))))
  }

  function ParseTransaction(utf8: Utf8, payload: Bytes, offset: nat): Result<Parsed<Transaction>> {
    var version :- Unpack(payload, offset, 4);
    var inputCount :- ParseVarint(payload, version.next);
    var inputs :- ParseInputs(version.value, payload, inputCount.next, inputCount.value);
    var outputCount :- ParseVarint(payload, inputs.next);
    var outputs :- ParseOutputs(utf8, payload, outputCount.next, outputCount.value);
    var locktime :- Unpack(payload, outputs.next, 4);
    var metadata :- ParseMetadata(utf8, payload, locktime.next);
    Ok(Parsed(Transaction(version.value, inputs.value, outputs.value, locktime.value, metadata.value), metadata.next))
  }

  /** Parsing undoes printing, wherever the bytes stand and whatever follows them. */
  lemma TransactionAt(utf8: Utf8, tx: Transaction, payload: Bytes, offset: nat)
    requires TransactionFits(tx) && Readable(utf8, tx) && At(payload, offset, TransactionBytes(tx))
    ensures ParseTransaction(utf8, payload, offset) == Ok(Parsed(tx, offset + |TransactionBytes(tx)|))
  {
    hide At, LittleEndian, Varint, ParseVarint, Unpack, InputsBytes, ParseInputs, OutputsBytes, ParseOutputs, MetadataBytes, ParseMetadata,
      Pow256, InputsFit, OutputsFit, MetadataFits, OutputsReadable, MetadataReadable;
    Widths();
    var fifth := LittleEndian(tx.locktime, 4) + MetadataBytes(tx.metadata);
    var fourth := OutputsBytes(tx.outputs) + fifth;
    var third := Varint(|tx.outputs|) + fourth;
    var second := InputsBytes(tx.version, tx.inputs) + third;
    AtConcat(payload, offset, LittleEndian(tx.version, 4), Varint(|tx.inputs|) + second);
    UnpackAt(payload, offset, tx.version, 4);
    var o1 := offset + 4;
    AtConcat(payload, o1, Varint(|tx.inputs|), second);
    VarintAt(payload, o1, |tx.inputs|);
    var o2 := o1 + |Varint(|tx.inputs|)|;
    AtConcat(payload, o2, InputsBytes(tx.version, tx.inputs), third);
    InputsAt(tx.version, tx.inputs, payload, o2);
    var o3 := o2 + |InputsBytes(tx.version, tx.inputs)|;
    AtConcat(payload, o3, Varint(|tx.outputs|), fourth);
    VarintAt(payload, o3, |tx.outputs|);
    var o4 := o3 + |Varint(|tx.outputs|)|;
    AtConcat(payload, o4, OutputsBytes(tx.outputs), fifth);
    OutputsAt(utf8, tx.outputs, payload, o4);
    var o5 := o4 + |OutputsBytes(tx.outputs)|;
    AtConcat(payload, o5, LittleEndian(tx.locktime, 4), MetadataBytes(tx.metadata));
    UnpackAt(payload, o5, tx.locktime, 4);
    MetadataAt(utf8, tx.metadata, payload, o5 + 4);
  }

  /** No serialization is a proper prefix of another, and equal serializations mean equal transactions. */
  lemma TransactionsPrefixFree(a: Transaction, b: Transaction)
    requires TransactionFits(a) && TransactionFits(b) && TransactionBytes(a) <= TransactionBytes(b)
    ensures a == b
  {
    hide TransactionFits, TransactionBytes, ParseTransaction, Readable;
    var utf8: Utf8 := _ => true;
    AllReadable(utf8, a);
    AllReadable(utf8, b);
    var payload := TransactionBytes(b);
    assert At(payload, 0, TransactionBytes(a));
    assert At(payload, 0, TransactionBytes(b));
    TransactionAt(utf8, a, payload, 0);
    TransactionAt(utf8, b, payload, 0);
  }

  lemma AllReadable(utf8: Utf8, tx: Transaction)
    requires forall b :: utf8(b)
    ensures Readable(utf8, tx)
  {
  }

  // ---- headers and blocks ----

  predicate HeaderFits(h: BlockHeader) {
    && Fits(h.version, U32) && |h.previousHash| == 32 && |h.merkleRoot| == 32
    && Fits(h.timestamp, U32) && Fits(h.bits, U32) && Fits(h.nonce, U32)
  }

  function HeaderBytes(h: BlockHeader): (b: Bytes)
    requires HeaderFits(h)
    ensures |b| == 80
  {
    LittleEndian(h.version, 4) + (h.previousHash + (h.merkleRoot
    + (LittleEndian(h.timestamp, 4) + (LittleEndian(h.bits, 4) + LittleEndian(h.nonce, 4)))))
  }

  function ParseHeader(payload: Bytes, offset: nat): Result<Parsed<BlockHeader>> {
    var version :- Unpack(payload, offset, 4);
    var timestamp :- Unpack(payload, offset + 68, 4);
    var bits :- Unpack(payload, offset + 72, 4);
    var nonce :- Unpack(payload, offset + 76, 4);
    Ok(Parsed(BlockHeader(version.value, payload[offset + 4..offset + 36], payload[offset + 36..offset + 68],
                          timestamp.value, bits.value, nonce.value), offset + 80))
  }

  lemma HeaderAt(h: BlockHeader, payload: Bytes, offset: nat)
    requires HeaderFits(h) && At(payload, offset, HeaderBytes(h))
    ensures ParseHeader(payload, offset) == Ok(Parsed(h, offset + 80))
  {
    hide LittleEndian, Unpack, Pow256;
    Widths();
    var fourth := LittleEndian(h.bits, 4) + LittleEndian(h.nonce, 4);
    var third := LittleEndian(h.timestamp, 4) + fourth;
    var second := h.merkleRoot + third;
    AtConcat(payload, offset, LittleEndian(h.version, 4), h.previousHash + second);
    AtConcat(payload, offset + 4, h.previousHash, second);
    AtConcat(payload, offset + 36, h.merkleRoot, third);
    AtConcat(payload, offset + 68, LittleEndian(h.timestamp, 4), fourth);
    AtConcat(payload, offset + 72, LittleEndian(h.bits, 4), LittleEndian(h.nonce, 4));
    UnpackAt(payload, offset, h.version, 4);
    UnpackAt(payload, offset + 68, h.timestamp, 4);
    UnpackAt(payload, offset + 72, h.bits, 4);
    UnpackAt(payload, offset + 76, h.nonce, 4);
  }

  predicate TransactionsFit(txs: seq<Transaction>) {
    forall k :: 0 <= k < |txs| ==> TransactionFits(txs[k])
  }

  function TransactionsBytes(txs: seq<Transaction>): Bytes
    requires TransactionsFit(txs)
  {
    if txs == [] then [] else TransactionBytes(txs[0]) + TransactionsBytes(txs[1..])
  }

  function ParseTransactions(utf8: Utf8, payload: Bytes, offset: nat, count: nat): Result<Parsed<seq<Transaction>>>
    decreases count
  {
    if count == 0 then Ok(Parsed([], offset))
    else
      var head :- ParseTransaction(utf8, payload, offset);
      var tail :- ParseTransactions(utf8, payload, head.next, count - 1);
      Ok(Parsed([head.value] + tail.value, tail.next))
  }

  predicate BlockFits(block: Block) {
    HeaderFits(block.header) && |block.transactions| < U64 && TransactionsFit(block.transactions)
  }

  predicate BlockReadable(utf8: Utf8, block: Block) {
    forall k :: 0 <= k < |block.transactions| ==> Readable(utf8, block.transactions[k])
  }

  function BlockBytes(block: Block): Bytes
    requires BlockFits(block)
  {
    HeaderBytes(block.header) + (Varint(|block.transactions|) + TransactionsBytes(block.transactions))
  }

  function ParseBlock(utf8: Utf8, payload: Bytes, offset: nat): Result<Parsed<Block>> {
    var header :- ParseHeader(payload, offset);
    var count :- ParseVarint(payload, header.next);
    var transactions :- ParseTransactions(utf8, payload, count.next, count.value);
    Ok(Parsed(Block(header.value, transactions.value), transactions.next))
  }

  lemma {:induction false} TransactionsAt(utf8: Utf8, txs: seq<Transaction>, payload: Bytes, offset: nat)
    requires TransactionsFit(txs) && At(payload, offset, TransactionsBytes(txs))
    requires forall k :: 0 <= k < |txs| ==> Readable(utf8, txs[k])
    ensures ParseTransactions(utf8, payload, offset, |txs|) == Ok(Parsed(txs, offset + |TransactionsBytes(txs)|))
  {
    hide TransactionFits, TransactionBytes, ParseTransaction, Readable;
    if txs != [] {
      var head := TransactionBytes(txs[0]);
      AtConcat(payload, offset, head, TransactionsBytes(txs[1..]));
      TransactionAt(utf8, txs[0], payload, offset);
      TransactionsAt(utf8, txs[1..], payload, offset + |head|);
      assert [txs[0]] + txs[1..] == txs;
    }
  }

  lemma BlockAt(utf8: Utf8, block: Block, payload: Bytes, offset: nat)
    requires BlockFits(block) && BlockReadable(utf8, block) && At(payload, offset, BlockBytes(block))
    ensures ParseBlock(utf8, payload, offset) == Ok(Parsed(block, offset + |BlockBytes(block)|))
  {
    hide HeaderFits, HeaderBytes, ParseHeader, Varint, ParseVarint, TransactionsFit, TransactionsBytes, ParseTransactions, Readable;
    var body := Varint(|block.transactions|) + TransactionsBytes(block.transactions);
    AtConcat(payload, offset, HeaderBytes(block.header), body);
    HeaderAt(block.header, payload, offset);
    AtConcat(payload, offset + 80, Varint(|block.transactions|), TransactionsBytes(block.transactions));
    VarintAt(payload, offset + 80, |block.transactions|);
    TransactionsAt(utf8, block.transactions, payload, offset + 80 + |Varint(|block.transactions|)|);
  }

  lemma BlocksPrefixFree(a: Block, b: Block)
    requires BlockFits(a) && BlockFits(b) && BlockBytes(a) <= BlockBytes(b)
    ensures a == b
  {
    hide BlockFits, BlockBytes, ParseBlock, Readable;
    var utf8: Utf8 := _ => true;
    forall k | 0 <= k < |a.transactions| ensures Readable(utf8, a.transactions[k]) { AllReadable(utf8, a.transactions[k]); }
    forall k | 0 <= k < |b.transactions| ensures Readable(utf8, b.transactions[k]) { AllReadable(utf8, b.transactions[k]); }
    var payload := BlockBytes(b);
    assert At(payload, 0, BlockBytes(a));
    assert At(payload, 0, BlockBytes(b));
    BlockAt(utf8, a, payload, 0);
    BlockAt(utf8, b, payload, 0);
  }

  // ---- what parsing can return ----

  lemma UnpackFits(payload: Bytes, offset: nat, n: nat)
    requires Unpack(payload, offset, n).Ok?
    ensures Unpack(payload, offset, n).value.value < Pow256(n)
  {
    LeBack(payload[offset..offset + n]);
  }

  lemma ParsedBytesFit(payload: Bytes, offset: nat)
    requires ParseBytes(payload, offset).Ok?
    ensures |ParseBytes(payload, offset).value.value| < U64
  {
    hide Varint, ParseVarint;
    VarintCanonical(payload, offset);
  }

  lemma ParsedInputFits(version: nat, payload: Bytes, offset: nat)
    requires ParseInput(version, payload, offset).Ok?
    ensures InputFits(version, ParseInput(version, payload, offset).value.value)
  {
    hide LeValue, Pow256, ParseBytes;
    Widths();
    UnpackFits(payload, offset + 32, 4);
    var scheme := ParseScheme(version, payload, offset + 36).value;
    ParsedBytesFit(payload, scheme.next);
    var signature := ParseBytes(payload, scheme.next).value;
    ParsedBytesFit(payload, signature.next);
    UnpackFits(payload, ParseBytes(payload, signature.next).value.next, 4);
  }

  lemma {:induction false} ParsedInputsFit(version: nat, payload: Bytes, offset: nat, count: nat)
    requires ParseInputs(version, payload, offset, count).Ok?
    ensures var r := ParseInputs(version, payload, offset, count).value.value; |r| == count && InputsFit(version, r)
    decreases count
  {
    hide InputFits, ParseInput;
    if count > 0 {
      ParsedInputFits(version, payload, offset);
      ParsedInputsFit(version, payload, ParseInput(version, payload, offset).value.next, count - 1);
    }
  }

  lemma ParsedOutputFits(utf8: Utf8, payload: Bytes, offset: nat)
    requires ParseOutput(utf8, payload, offset).Ok?
    ensures var o := ParseOutput(utf8, payload, offset).value.value; OutputFits(o) && utf8(o.recipient)
  {
    hide LeValue, Pow256, ParseBytes;
    Widths();
    UnpackFits(payload, offset, 8);
    ParsedBytesFit(payload, offset + 8);
  }

  lemma {:induction false} ParsedOutputsFit(utf8: Utf8, payload: Bytes, offset: nat, count: nat)
    requires ParseOutputs(utf8, payload, offset, count).Ok?
    ensures var r := ParseOutputs(utf8, payload, offset, count).value.value;
            |r| == count && OutputsFit(r) && OutputsReadable(utf8, r)
    decreases count
  {
    hide OutputFits, ParseOutput;
    if count > 0 {
      ParsedOutputFits(utf8, payload, offset);
      ParsedOutputsFit(utf8, payload, ParseOutput(utf8, payload, offset).value.next, count - 1);
    }
  }

  lemma {:induction false} ParsedPairsFit(utf8: Utf8, payload: Bytes, offset: nat, count: nat, m: Metadata)
    requires ParsePairs(utf8, payload, offset, count, m).Ok?
    requires forall k :: k in m ==> PairFits(k, m[k]) && utf8(k) && utf8(m[k])
    ensures var r := ParsePairs(utf8, payload, offset, count, m).value.value;
            |r| <= |m| + count && forall k :: k in r ==> PairFits(k, r[k]) && utf8(k) && utf8(r[k])
    decreases count
  {
    hide ParseBytes;
    if count > 0 {
      var key := ParseText(utf8, payload, offset).value;
      var value := ParseText(utf8, payload, key.next).value;
      ParsedBytesFit(payload, offset);
      ParsedBytesFit(payload, key.next);
      assert m[key.value := value.value].Keys == m.Keys + {key.value};
      ParsedPairsFit(utf8, payload, value.next, count - 1, m[key.value := value.value]);
    }
  }

  lemma ParsedMetadataFits(utf8: Utf8, payload: Bytes, offset: nat)
    requires ParseMetadata(utf8, payload, offset).Ok?
    ensures var m := ParseMetadata(utf8, payload, offset).value.value; MetadataFits(m) && MetadataReadable(utf8, m)
  {
    hide ParsePairs, ParseVarint, Varint;
    VarintCanonical(payload, offset);
    var count := ParseVarint(payload, offset).value;
    ParsedPairsFit(utf8, payload, count.next, count.value, map[]);
  }

  /** Whatever parses can be written again, so parsing its serialization gives it back. */
  lemma ParsedTransactionFits(utf8: Utf8, payload: Bytes, offset: nat, tx: Transaction, next: nat)
    requires ParseTransaction(utf8, payload, offset) == Ok(Parsed(tx, next))
    ensures TransactionFits(tx) && Readable(utf8, tx)
    ensures ParseTransaction(utf8, TransactionBytes(tx), 0) == Ok(Parsed(tx, |TransactionBytes(tx)|))
  {
    hide TransactionFits, Readable, TransactionBytes, ParseTransaction;
    ParsedParts(utf8, payload, offset);
    assert At(TransactionBytes(tx), 0, TransactionBytes(tx));
    TransactionAt(utf8, tx, TransactionBytes(tx), 0);
  }

  lemma ParsedParts(utf8: Utf8, payload: Bytes, offset: nat)
    requires ParseTransaction(utf8, payload, offset).Ok?
    ensures var tx := ParseTransaction(utf8, payload, offset).value.value; TransactionFits(tx) && Readable(utf8, tx)
  {
    hide Unpack, ParseVarint, Varint, ParseInputs, ParseOutputs, ParseMetadata, Pow256,
      InputsFit, OutputsFit, MetadataFits, OutputsReadable, MetadataReadable;
    Widths();
    UnpackFits(payload, offset, 4);
    var version := Unpack(payload, offset, 4).value;
    VarintCanonical(payload, version.next);
    var inputCount := ParseVarint(payload, version.next).value;
    ParsedInputsFit(version.value, payload, inputCount.next, inputCount.value);
    var inputs := ParseInputs(version.value, payload, inputCount.next, inputCount.value).value;
    VarintCanonical(payload, inputs.next);
    var outputCount := ParseVarint(payload, inputs.next).value;
    ParsedOutputsFit(utf8, payload, outputCount.next, outputCount.value);
    var outputs := ParseOutputs(utf8, payload, outputCount.next, outputCount.value).value;
    UnpackFits(payload, outputs.next, 4);
    ParsedMetadataFits(utf8, payload, Unpack(payload, outputs.next, 4).value.next);
  }
}
