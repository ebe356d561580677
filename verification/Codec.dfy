/** The serializers and deserializers as loops over a growing buffer or an advancing offset (serialization.py). */
module Codec {
  import opened Prelude
  import opened Models
  import opened Pow
  import opened Serialization

  // ---- writing ----

  /** `_encode_bytes` and `_encode_string`. */
  method WriteBytes(encoded: Bytes, b: Bytes) returns (r: Result<Bytes>)
    ensures r == if |b| < U64 then Ok(encoded + BytesField(b)) else Err(Malformed)
  {
    hide Varint;
    var length :- EncodeVarint(|b|);
    r := Ok(encoded + (length + b));
  }

  method WriteInput(version: nat, i: TxInput) returns (r: Result<Bytes>)
    ensures r == if InputFits(version, i) then Ok(InputBytes(version, i)) else Err(Malformed)
  {
    hide LittleEndian, BytesField, Pow256;
    Widths();
    if |i.previousOutput.txid| != 32 { return Err(Malformed); }
    var index :- Pack(i.previousOutput.index, 4);
    var encoded := i.previousOutput.txid + index;
    if version >= 2 {
      if i.schemeId < 0 || i.schemeId > 0xFF { return Err(Malformed); }
      encoded := encoded + [i.schemeId];
    } else if i.schemeId != 0 {
      return Err(Malformed);
    }
    ghost var head := encoded;
    encoded :- WriteBytes(encoded, i.signature);
    encoded :- WriteBytes(encoded, i.publicKey);
    var sequence :- Pack(i.sequence, 4);
    assert head == i.previousOutput.txid + (index + SchemeField(version, i));
    assert encoded + sequence == InputBytes(version, i);
    r := Ok(encoded + sequence);
  }

  method WriteInputs(encoded: Bytes, version: nat, inputs: seq<TxInput>) returns (r: Result<Bytes>)
    ensures r == if InputsFit(version, inputs) then Ok(encoded + InputsBytes(version, inputs)) else Err(Malformed)
  {
    hide InputFits, InputBytes;
    var out, k := encoded, 0;
    while k < |inputs|
      invariant 0 <= k <= |inputs|
      invariant forall j :: 0 <= j < k ==> InputFits(version, inputs[j])
      invariant InputsFit(version, inputs) ==> out + InputsBytes(version, inputs[k..]) == encoded + InputsBytes(version, inputs)
    {
      var piece :- WriteInput(version, inputs[k]);
      assert inputs[k..][0] == inputs[k] && inputs[k..][1..] == inputs[k + 1..];
      out := out + piece;
      k := k + 1;
    }
    assert inputs[k..] == [] && out + [] == out;
    r := Ok(out);
  }

  method WriteOutput(o: TxOutput) returns (r: Result<Bytes>)
    ensures r == if OutputFits(o) then Ok(OutputBytes(o)) else Err(Malformed)
  {
    hide LittleEndian, BytesField, Pow256;
    Widths();
    var value :- Pack(o.value, 8);
    r := WriteBytes(value, o.recipient);
  }

  method WriteOutputs(encoded: Bytes, outputs: seq<TxOutput>) returns (r: Result<Bytes>)
    ensures r == if OutputsFit(outputs) then Ok(encoded + OutputsBytes(outputs)) else Err(Malformed)
  {
    hide OutputFits, OutputBytes;
    var out, k := encoded, 0;
    while k < |outputs|
      invariant 0 <= k <= |outputs|
      invariant forall j :: 0 <= j < k ==> OutputFits(outputs[j])
      invariant OutputsFit(outputs) ==> out + OutputsBytes(outputs[k..]) == encoded + OutputsBytes(outputs)
    {
      var piece :- WriteOutput(outputs[k]);
      assert outputs[k..][0] == outputs[k] && outputs[k..][1..] == outputs[k + 1..];
      out := out + piece;
      k := k + 1;
    }
    assert outputs[k..] == [] && out + [] == out;
    r := Ok(out);
  }

  method WritePair(encoded: Bytes, key: Text, value: Text) returns (r: Result<Bytes>)
    ensures r == if PairFits(key, value) then Ok(encoded + (BytesField(key) + BytesField(value))) else Err(Malformed)
  {
    hide BytesField;
    var out :- WriteBytes(encoded, key);
    out :- WriteBytes(out, value);
    assert encoded + BytesField(key) + BytesField(value) == encoded + (BytesField(key) + BytesField(value));
    r := Ok(out);
  }

  /** `_encode_metadata`. */
  method WriteMetadata(encoded: Bytes, m: Metadata) returns (r: Result<Bytes>)
    ensures r == if MetadataFits(m) then Ok(encoded + MetadataBytes(m)) else Err(Malformed)
  {
    hide BytesField, Varint, SortedTexts, PairFits, PairsBytes, LexLess, NoDuplicates;
    var keys := SortedTexts(m.Keys);
    SortedTextsIncrease(m.Keys);
    var count :- EncodeVarint(|keys|);
    var out, k := encoded + count, 0;
    while k < |keys|
      invariant 0 <= k <= |keys|
      invariant forall j :: 0 <= j < k ==> PairFits(keys[j], m[keys[j]])
      invariant out + PairsBytes(m, keys[k..]) == encoded + (count + PairsBytes(m, keys))
    {
      PairsStep(m, keys, k, out);
      out :- WritePair(out, keys[k], m[keys[k]]);
      k := k + 1;
    }
    NoPairs(m);
    assert keys[k..] == [] && out + [] == out;
    r := Ok(out);
  }

  lemma PairsStep(m: Metadata, keys: seq<Text>, k: nat, out: Bytes)
    requires k < |keys| && forall x :: x in keys ==> x in m
    ensures out + PairsBytes(m, keys[k..])
         == out + (BytesField(keys[k]) + BytesField(m[keys[k]])) + PairsBytes(m, keys[k + 1..])
  {
    hide BytesField;
    assert keys[k..][0] == keys[k] && keys[k..][1..] == keys[k + 1..];
  }

  lemma NoPairs(m: Metadata)
    ensures PairsBytes(m, []) == []
  {
  }

  /** `serialize_transaction` succeeds exactly on the transactions that fit, and writes their serialization. */
  method SerializeTransaction(tx: Transaction) returns (r: Result<Bytes>)
    ensures r == if TransactionFits(tx) then Ok(TransactionBytes(tx)) else Err(Malformed)
  {
    hide LittleEndian, Varint, InputsBytes, OutputsBytes, MetadataBytes, Pow256, InputsFit, OutputsFit, MetadataFits;
    Widths();
    var version :- Pack(tx.version, 4);
    var inputCount :- EncodeVarint(|tx.inputs|);
    var encoded :- WriteInputs(version + inputCount, tx.version, tx.inputs);
    var outputCount :- EncodeVarint(|tx.outputs|);
    encoded :- WriteOutputs(encoded + outputCount, tx.outputs);
    var locktime :- Pack(tx.locktime, 4);
    r := WriteMetadata(encoded + locktime, tx.metadata);
    if r.Ok? { assert r.value == TransactionBytes(tx); }
  }

  /** `serialize_block_header`. */
  method SerializeHeader(h: BlockHeader) returns (r: Result<Bytes>)
    ensures r == if HeaderFits(h) then Ok(HeaderBytes(h)) else Err(Malformed)
  {
    hide LittleEndian, Pow256;
    Widths();
    var version :- Pack(h.version, 4);
    if |h.previousHash| != 32 || |h.merkleRoot| != 32 { return Err(Malformed); }
    var timestamp :- Pack(h.timestamp, 4);
    var bits :- Pack(h.bits, 4);
    var nonce :- Pack(h.nonce, 4);
    r := Ok(version + (h.previousHash + (h.merkleRoot + (timestamp + (bits + nonce)))));
  }

  /** `serialize_block`. */
  method SerializeBlock(block: Block) returns (r: Result<Bytes>)
    ensures r == if BlockFits(block) then Ok(BlockBytes(block)) else Err(Malformed)
  {
    hide Varint, HeaderFits, HeaderBytes, TransactionFits, TransactionBytes;
    var header :- SerializeHeader(block.header);
    var txs := block.transactions;
    var count :- EncodeVarint(|txs|);
    var out, k := header + count, 0;
    while k < |txs|
      invariant 0 <= k <= |txs|
      invariant forall j :: 0 <= j < k ==> TransactionFits(txs[j])
      invariant TransactionsFit(txs) ==> out + TransactionsBytes(txs[k..]) == header + (count + TransactionsBytes(txs))
    {
      var piece :- SerializeTransaction(txs[k]);
      assert txs[k..][0] == txs[k] && txs[k..][1..] == txs[k + 1..];
      out := out + piece;
      k := k + 1;
    }
    assert txs[k..] == [] && out + [] == out;
    r := Ok(out);
  }

  // ---- reading ----

  /** The result of a list parser whose first elements are already read. */
  ghost function Prepend<T>(items: seq<T>, rest: Result<Parsed<seq<T>>>): Result<Parsed<seq<T>>> {
    if rest.Err? then rest else Ok(Parsed(items + rest.value.value, rest.value.next))
  }

  lemma PrependStep<T>(items: seq<T>, x: T, rest: Result<Parsed<seq<T>>>)
    ensures Prepend(items, Prepend([x], rest)) == Prepend(items + [x], rest)
  {
    if rest.Ok? { assert items + ([x] + rest.value.value) == items + [x] + rest.value.value; }
  }

  lemma PrependNothing<T>(items: seq<T>, rest: Result<Parsed<seq<T>>>, n: nat)
    ensures Prepend([], rest) == rest
    ensures Prepend(items, Ok(Parsed([], n))) == Ok(Parsed(items, n))
  {
    if rest.Ok? { assert [] + rest.value.value == rest.value.value; }
    assert items + [] == items;
  }

  method ReadInputs(version: nat, payload: Bytes, start: nat, count: nat) returns (r: Result<Parsed<seq<TxInput>>>)
    ensures r == ParseInputs(version, payload, start, count)
  {
    hide ParseInput;
    var inputs, offset, k := [], start, 0;
    PrependNothing(inputs, ParseInputs(version, payload, start, count), start);
    while k < count
      invariant 0 <= k <= count
      invariant ParseInputs(version, payload, start, count) == Prepend(inputs, ParseInputs(version, payload, offset, count - k))
    {
      var input :- ParseInput(version, payload, offset);
      PrependStep(inputs, input.value, ParseInputs(version, payload, input.next, count - k - 1));
      inputs, offset, k := inputs + [input.value], input.next, k + 1;
    }
    PrependNothing(inputs, Ok(Parsed([], offset)), offset);
    r := Ok(Parsed(inputs, offset));
  }

  method ReadOutputs(utf8: Utf8, payload: Bytes, start: nat, count: nat) returns (r: Result<Parsed<seq<TxOutput>>>)
    ensures r == ParseOutputs(utf8, payload, start, count)
  {
    hide ParseOutput;
    var outputs, offset, k := [], start, 0;
    PrependNothing(outputs, ParseOutputs(utf8, payload, start, count), start);
    while k < count
      invariant 0 <= k <= count
      invariant ParseOutputs(utf8, payload, start, count) == Prepend(outputs, ParseOutputs(utf8, payload, offset, count - k))
    {
      var output :- ParseOutput(utf8, payload, offset);
      PrependStep(outputs, output.value, ParseOutputs(utf8, payload, output.next, count - k - 1));
      outputs, offset, k := outputs + [output.value], output.next, k + 1;
    }
    PrependNothing(outputs, Ok(Parsed([], offset)), offset);
    r := Ok(Parsed(outputs, offset));
  }

  /** `_decode_metadata`. */
  method ReadMetadata(utf8: Utf8, payload: Bytes, start: nat) returns (r: Result<Parsed<Metadata>>)
    ensures r == ParseMetadata(utf8, payload, start)
  {
    hide ParseText, ParseVarint;
    var count :- ParseVarint(payload, start);
    var metadata: Metadata, offset, k := map[], count.next, 0;
    while k < count.value
      invariant 0 <= k <= count.value
      invariant ParseMetadata(utf8, payload, start) == ParsePairs(utf8, payload, offset, count.value - k, metadata)
    {
      var key :- ParseText(utf8, payload, offset);
      var value :- ParseText(utf8, payload, key.next);
      metadata, offset, k := metadata[key.value := value.value], value.next, k + 1;
    }
    r := Ok(Parsed(metadata, offset));
  }

  /** `deserialize_transaction`. */
  method DeserializeTransaction(utf8: Utf8, payload: Bytes, offset: nat) returns (r: Result<Parsed<Transaction>>)
    ensures r == ParseTransaction(utf8, payload, offset)
  {
    hide Unpack, ParseVarint, ParseInputs, ParseOutputs, ParseMetadata;
    var version :- Unpack(payload, offset, 4);
    var inputCount :- ParseVarint(payload, version.next);
    var inputs :- ReadInputs(version.value, payload, inputCount.next, inputCount.value);
    var outputCount :- ParseVarint(payload, inputs.next);
    var outputs :- ReadOutputs(utf8, payload, outputCount.next, outputCount.value);
    var locktime :- Unpack(payload, outputs.next, 4);
    var metadata :- ReadMetadata(utf8, payload, locktime.next);
    r := Ok(Parsed(Transaction(version.value, inputs.value, outputs.value, locktime.value, metadata.value), metadata.next));
  }

  /** `deserialize_block`. */
  method DeserializeBlock(utf8: Utf8, payload: Bytes, start: nat) returns (r: Result<Parsed<Block>>)
    ensures r == ParseBlock(utf8, payload, start)
  {
    hide ParseHeader, ParseVarint, ParseTransaction;
    var header :- ParseHeader(payload, start);
    var count :- ParseVarint(payload, header.next);
    var transactions, offset, k := [], count.next, 0;
    PrependNothing(transactions, ParseTransactions(utf8, payload, count.next, count.value), offset);
    while k < count.value
      invariant 0 <= k <= count.value
      invariant ParseTransactions(utf8, payload, count.next, count.value)
                == Prepend(transactions, ParseTransactions(utf8, payload, offset, count.value - k))
    {
      var transaction :- DeserializeTransaction(utf8, payload, offset);
      PrependStep(transactions, transaction.value, ParseTransactions(utf8, payload, transaction.next, count.value - k - 1));
      transactions, offset, k := transactions + [transaction.value], transaction.next, k + 1;
    }
    PrependNothing(transactions, Ok(Parsed([], offset)), offset);
    r := Ok(Parsed(Block(header.value, transactions), offset));
  }
}
