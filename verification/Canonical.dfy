/** Which byte strings are the serialization of the transaction they parse to (serialization.py). */
module Canonical {
  import opened Prelude
  import opened Models
  import opened Pow
  import opened Serialization

  lemma AtJoin(payload: Bytes, offset: nat, a: Bytes, b: Bytes)
    requires At(payload, offset, a) && At(payload, offset + |a|, b)
    ensures At(payload, offset, a + b)
  {
    assert payload[offset..offset + |a + b|] == payload[offset..offset + |a|] + payload[offset + |a|..offset + |a| + |b|];
  }

  // ---- canonical encodings, along the parse ----

  /** The varint at `offset` is in its shortest form. */
  predicate MinimalAt(payload: Bytes, offset: nat) {
    var r := ParseVarint(payload, offset);
    r.Ok? && r.value.next - offset == |Varint(r.value.value)|
  }

  predicate CanonicalInput(version: nat, payload: Bytes, offset: nat) {
    var scheme := ParseScheme(version, payload, offset + 36);
    && scheme.Ok? && MinimalAt(payload, scheme.value.next)
    && var signature := ParseBytes(payload, scheme.value.next);
    && signature.Ok? && MinimalAt(payload, signature.value.next)
  }

  predicate CanonicalInputs(version: nat, payload: Bytes, offset: nat, count: nat)
    decreases count
  {
    count > 0 ==>
      var head := ParseInput(version, payload, offset);
      head.Ok? && CanonicalInput(version, payload, offset) && CanonicalInputs(version, payload, head.value.next, count - 1)
  }

  predicate CanonicalOutputs(utf8: Utf8, payload: Bytes, offset: nat, count: nat)
    decreases count
  {
    count > 0 ==>
      var head := ParseOutput(utf8, payload, offset);
      head.Ok? && MinimalAt(payload, offset + 8) && CanonicalOutputs(utf8, payload, head.value.next, count - 1)
  }

  /** Minimal lengths, and keys that strictly increase. */
  predicate CanonicalPairs(utf8: Utf8, payload: Bytes, offset: nat, count: nat, previous: Option<Text>)
    decreases count
  {
    count > 0 ==>
      var key := ParseText(utf8, payload, offset);
      && key.Ok? && MinimalAt(payload, offset) && MinimalAt(payload, key.value.next)
      && (previous.Some? ==> LexLess(previous.value, key.value.value))
      && var value := ParseText(utf8, payload, key.value.next);
      && value.Ok? && CanonicalPairs(utf8, payload, value.value.next, count - 1, Some(key.value.value))
  }

  predicate CanonicalMetadata(utf8: Utf8, payload: Bytes, offset: nat) {
    MinimalAt(payload, offset) &&
    var count := ParseVarint(payload, offset).value;
    CanonicalPairs(utf8, payload, count.next, count.value, None)
  }

  predicate CanonicalTransaction(utf8: Utf8, payload: Bytes, offset: nat)
    requires ParseTransaction(utf8, payload, offset).Ok?
  {
    var version := Unpack(payload, offset, 4).value;
    var inputCount := ParseVarint(payload, version.next).value;
    var inputs := ParseInputs(version.value, payload, inputCount.next, inputCount.value).value;
    var outputCount := ParseVarint(payload, inputs.next).value;
    var outputs := ParseOutputs(utf8, payload, outputCount.next, outputCount.value).value;
    && MinimalAt(payload, version.next) && CanonicalInputs(version.value, payload, inputCount.next, inputCount.value)
    && MinimalAt(payload, inputs.next) && CanonicalOutputs(utf8, payload, outputCount.next, outputCount.value)
    && CanonicalMetadata(utf8, payload, outputs.next + 4)
  }

  // ---- canonical bytes are the serialization ----

  lemma UnpackedIs(payload: Bytes, offset: nat, n: nat)
    requires Unpack(payload, offset, n).Ok?
    ensures var r := Unpack(payload, offset, n).value; r.next == offset + n && At(payload, offset, LittleEndian(r.value, n))
  {
    LeBack(payload[offset..offset + n]);
  }

  lemma MinimalIs(payload: Bytes, offset: nat)
    requires MinimalAt(payload, offset)
    ensures var r := ParseVarint(payload, offset).value;
            r.value < U64 && r.next == offset + |Varint(r.value)| && At(payload, offset, Varint(r.value))
  {
    hide Varint, ParseVarint;
    VarintCanonical(payload, offset);
  }

  lemma FieldIs(payload: Bytes, offset: nat)
    requires MinimalAt(payload, offset) && ParseBytes(payload, offset).Ok?
    ensures var r := ParseBytes(payload, offset).value;
            r.next == offset + |BytesField(r.value)| && At(payload, offset, BytesField(r.value))
  {
    hide Varint, ParseVarint, MinimalAt;
    MinimalIs(payload, offset);
    var length := ParseVarint(payload, offset).value;
    var r := ParseBytes(payload, offset).value;
    assert At(payload, length.next, r.value);
    AtJoin(payload, offset, Varint(|r.value|), r.value);
  }

  lemma InputIs(version: nat, payload: Bytes, offset: nat)
    requires ParseInput(version, payload, offset).Ok? && CanonicalInput(version, payload, offset)
    ensures var r := ParseInput(version, payload, offset).value;
            InputFits(version, r.value) && r.next == offset + |InputBytes(version, r.value)| && At(payload, offset, InputBytes(version, r.value))
  {
    hide At, LittleEndian, ParseBytes, BytesField, Unpack, MinimalAt, InputFits;
    ParsedInputFits(version, payload, offset);
    var i := ParseInput(version, payload, offset).value.value;
    UnpackedIs(payload, offset + 32, 4);
    var here := ParseScheme(version, payload, offset + 36).value.next;
    FieldIs(payload, here);
    var signature := ParseBytes(payload, here).value;
    FieldIs(payload, signature.next);
    var publicKey := ParseBytes(payload, signature.next).value;
    UnpackedIs(payload, publicKey.next, 4);
    SchemeIs(version, i, payload, offset);
    HashIs(version, payload, offset);
    var last := LittleEndian(i.sequence, 4);
    AtJoin(payload, signature.next, BytesField(i.publicKey), last);
    var fourth := BytesField(i.publicKey) + last;
    AtJoin(payload, here, BytesField(i.signature), fourth);
    var third := BytesField(i.signature) + fourth;
    AtJoin(payload, offset + 36, SchemeField(version, i), third);
    var second := SchemeField(version, i) + third;
    AtJoin(payload, offset + 32, LittleEndian(i.previousOutput.index, 4), second);
    AtJoin(payload, offset, i.previousOutput.txid, LittleEndian(i.previousOutput.index, 4) + second);
  }

  lemma SchemeIs(version: nat, i: TxInput, payload: Bytes, offset: nat)
    requires InputFits(version, i) && ParseScheme(version, payload, offset + 36).Ok? && i.schemeId == ParseScheme(version, payload, offset + 36).value.value
    requires offset + 36 <= |payload|
    ensures At(payload, offset + 36, SchemeField(version, i))
    ensures ParseScheme(version, payload, offset + 36).value.next == offset + 36 + |SchemeField(version, i)|
  {
  }

  lemma HashIs(version: nat, payload: Bytes, offset: nat)
    requires ParseInput(version, payload, offset).Ok?
    ensures offset + 36 <= |payload|
    ensures var txid := ParseInput(version, payload, offset).value.value.previousOutput.txid; |txid| == 32 && At(payload, offset, txid)
  {
    hide LeValue, ParseBytes;
  }

  lemma {:induction false} InputsAre(version: nat, payload: Bytes, offset: nat, count: nat)
    requires ParseInputs(version, payload, offset, count).Ok? && CanonicalInputs(version, payload, offset, count) && offset <= |payload|
    ensures var r := ParseInputs(version, payload, offset, count).value;
            InputsFit(version, r.value) && r.next == offset + |InputsBytes(version, r.value)| && At(payload, offset, InputsBytes(version, r.value))
    decreases count
  {
    hide ParseInput, InputFits, InputBytes, CanonicalInput;
    if count > 0 {
      var head := ParseInput(version, payload, offset).value;
      InputIs(version, payload, offset);
      InputsAre(version, payload, head.next, count - 1);
      var tail := ParseInputs(version, payload, head.next, count - 1).value.value;
      assert ([head.value] + tail)[1..] == tail;
      AtJoin(payload, offset, InputBytes(version, head.value), InputsBytes(version, tail));
    }
  }

  lemma OutputIs(utf8: Utf8, payload: Bytes, offset: nat)
    requires ParseOutput(utf8, payload, offset).Ok? && MinimalAt(payload, offset + 8)
    ensures var r := ParseOutput(utf8, payload, offset).value;
            OutputFits(r.value) && r.next == offset + |OutputBytes(r.value)| && At(payload, offset, OutputBytes(r.value))
  {
    hide At, LittleEndian, ParseBytes, BytesField, Unpack, MinimalAt, OutputFits;
    ParsedOutputFits(utf8, payload, offset);
    var o := ParseOutput(utf8, payload, offset).value.value;
    UnpackedIs(payload, offset, 8);
    FieldIs(payload, offset + 8);
    AtJoin(payload, offset, LittleEndian(o.value, 8), BytesField(o.recipient));
  }

  lemma {:induction false} OutputsAre(utf8: Utf8, payload: Bytes, offset: nat, count: nat)
    requires ParseOutputs(utf8, payload, offset, count).Ok? && CanonicalOutputs(utf8, payload, offset, count) && offset <= |payload|
    ensures var r := ParseOutputs(utf8, payload, offset, count).value;
            OutputsFit(r.value) && r.next == offset + |OutputsBytes(r.value)| && At(payload, offset, OutputsBytes(r.value))
    decreases count
  {
    hide ParseOutput, OutputFits, OutputBytes, MinimalAt;
    if count > 0 {
      var head := ParseOutput(utf8, payload, offset).value;
      OutputIs(utf8, payload, offset);
      OutputsAre(utf8, payload, head.next, count - 1);
      var tail := ParseOutputs(utf8, payload, head.next, count - 1).value.value;
      assert ([head.value] + tail)[1..] == tail;
      AtJoin(payload, offset, OutputBytes(head.value), OutputsBytes(tail));
    }
  }

  // ---- metadata ----

  ghost predicate Increasing(keys: seq<Text>) {
    forall i, j :: 0 <= i < j < |keys| ==> LexLess(keys[i], keys[j])
  }

  /** Strictly increasing keys are the sorted keys. */
  lemma {:induction false} IncreasingIsSorted(keys: seq<Text>, s: set<Text>)
    requires Increasing(keys) && (forall k :: k in keys <==> k in s)
    ensures keys == SortedTexts(s)
    decreases |keys|
  {
    hide LexLe;
    var sorted := SortedTexts(s);
    SortedTextsIncrease(s);
    if keys == [] {
      assert s == {};
    } else {
      assert keys[0] in s;
      assert sorted != [];
      FirstIsLeast(keys, sorted[0]);
      FirstIsLeast(sorted, keys[0]);
      if keys[0] != sorted[0] { LexAntisymmetric(keys[0], sorted[0]); }
      SortedTail(s);
      var rest := s - {keys[0]};
      forall k ensures k in keys[1..] <==> k in rest { InTail(keys, k); }
      IncreasingIsSorted(keys[1..], rest);
      assert keys == [keys[0]] + keys[1..] && sorted == [sorted[0]] + sorted[1..];
    }
  }

  lemma FirstIsLeast(keys: seq<Text>, k: Text)
    requires Increasing(keys) && k in keys
    ensures k == keys[0] || LexLess(keys[0], k)
  {
    hide LexLess;
    var i :| 0 <= i < |keys| && keys[i] == k;
  }

  lemma InTail(keys: seq<Text>, k: Text)
    requires keys != [] && Increasing(keys)
    ensures k in keys[1..] <==> k in keys && k != keys[0]
  {
    hide LexLe;
    assert k in keys <==> k == keys[0] || k in keys[1..];
    if k in keys[1..] {
      var i :| 0 <= i < |keys[1..]| && keys[1..][i] == k;
      assert LexLess(keys[0], keys[i + 1]);
    }
  }

  lemma SortedTail(s: set<Text>)
    requires SortedTexts(s) != []
    ensures SortedTexts(s)[1..] == SortedTexts(s - {SortedTexts(s)[0]})
  {
  }

  /** What pairs with increasing keys leave in the map, and the bytes they are. */
  lemma {:induction false} PairsAre(utf8: Utf8, payload: Bytes, offset: nat, count: nat, done: Metadata, previous: Option<Text>) returns (keys: seq<Text>)
    requires ParsePairs(utf8, payload, offset, count, done).Ok? && CanonicalPairs(utf8, payload, offset, count, previous) && offset <= |payload|
    requires forall k :: k in done ==> previous.Some? && LexLe(k, previous.value)
    ensures var r := ParsePairs(utf8, payload, offset, count, done).value;
            && |keys| == count && Increasing(keys)
            && (forall k :: k in keys ==> k in r.value && k !in done && (previous.Some? ==> LexLess(previous.value, k)))
            && (forall k :: k in r.value <==> k in keys || k in done)
            && (forall k :: k in done ==> r.value[k] == done[k])
            && r.next == offset + |PairsBytes(r.value, keys)| && At(payload, offset, PairsBytes(r.value, keys))
    decreases count
  {
    hide LexLe, ParseBytes, BytesField, MinimalAt, At;
    keys := [];
    if count == 0 {
      NothingAt(payload, offset);
    } else {
      var key := ParseText(utf8, payload, offset).value;
      var value := ParseText(utf8, payload, key.next).value;
      FieldIs(payload, offset);
      FieldIs(payload, key.next);
      var more := done[key.value := value.value];
      forall k | k in more ensures LexLe(k, key.value) { Below(k, key.value, previous, done); }
      AtEnd(payload, value.next, key.next, BytesField(value.value));
      var rest := PairsAre(utf8, payload, value.next, count - 1, more, Some(key.value));
      var r := ParsePairs(utf8, payload, offset, count, done).value;
      keys := [key.value] + rest;
      ConsIncreasing(key.value, rest, previous);
      FreshKey(key.value, previous, done);
      assert keys[1..] == rest;
      assert r.value[key.value] == value.value;
      AtJoin(payload, key.next, BytesField(value.value), PairsBytes(r.value, rest));
      AtJoin(payload, offset, BytesField(key.value), BytesField(value.value) + PairsBytes(r.value, rest));
    }
  }

  lemma NothingAt(payload: Bytes, offset: nat)
    requires offset <= |payload|
    ensures At(payload, offset, [])
  {
  }

  lemma AtEnd(payload: Bytes, next: nat, offset: nat, piece: Bytes)
    requires At(payload, offset, piece) && next == offset + |piece|
    ensures next <= |payload|
  {
  }

  lemma Below(k: Text, key: Text, previous: Option<Text>, done: Metadata)
    requires k in done || k == key
    requires forall d :: d in done ==> previous.Some? && LexLe(d, previous.value)
    requires previous.Some? ==> LexLess(previous.value, key)
    ensures LexLe(k, key)
  {
    LexReflexive(key);
    if k in done { LexTransitive(k, previous.value, key); }
  }

  lemma FreshKey(key: Text, previous: Option<Text>, done: Metadata)
    requires forall d :: d in done ==> previous.Some? && LexLe(d, previous.value)
    requires previous.Some? ==> LexLess(previous.value, key)
    ensures key !in done
  {
    if key in done { LexAntisymmetric(key, previous.value); }
  }

  lemma ConsIncreasing(key: Text, rest: seq<Text>, previous: Option<Text>)
    requires Increasing(rest) && (forall k :: k in rest ==> LexLess(key, k))
    requires previous.Some? ==> LexLess(previous.value, key)
    ensures Increasing([key] + rest)
    ensures previous.Some? ==> forall k :: k in [key] + rest ==> LexLess(previous.value, k)
  {
    hide LexLe;
    var keys := [key] + rest;
    forall i, j | 0 <= i < j < |keys| ensures LexLess(keys[i], keys[j]) {
      assert keys[j] == rest[j - 1] && rest[j - 1] in rest;
    }
    if previous.Some? {
      forall k | k in keys ensures LexLess(previous.value, k) {
        if k != key { LessTransitive(previous.value, key, k); }
      }
    }
  }

  lemma LessTransitive(a: Text, b: Text, c: Text)
    requires LexLess(a, b) && LexLess(b, c)
    ensures LexLess(a, c)
  {
    LexTransitive(a, b, c);
    if a == c { LexAntisymmetric(a, b); }
  }

  lemma MetadataIs(utf8: Utf8, payload: Bytes, offset: nat)
    requires ParseMetadata(utf8, payload, offset).Ok? && CanonicalMetadata(utf8, payload, offset)
    ensures var r := ParseMetadata(utf8, payload, offset).value;
            r.next == offset + |MetadataBytes(r.value)| && At(payload, offset, MetadataBytes(r.value))
  {
    hide ParseVarint, Varint, MinimalAt, PairsBytes, ParsePairs, CanonicalPairs, SortedTexts;
    MinimalIs(payload, offset);
    var count := ParseVarint(payload, offset).value;
    var keys := PairsAre(utf8, payload, count.next, count.value, map[], None);
    var m := ParseMetadata(utf8, payload, offset).value.value;
    IncreasingIsSorted(keys, m.Keys);
    SortedTextsIncrease(m.Keys);
    AtJoin(payload, offset, Varint(|m|), PairsBytes(m, keys));
  }

  /** Canonical bytes are the serialization of what they parse to. */
  lemma CanonicalIs(utf8: Utf8, payload: Bytes, offset: nat, tx: Transaction, next: nat)
    requires ParseTransaction(utf8, payload, offset) == Ok(Parsed(tx, next)) && CanonicalTransaction(utf8, payload, offset)
    ensures TransactionFits(tx) && next == offset + |TransactionBytes(tx)| && At(payload, offset, TransactionBytes(tx))
  {
    hide At, LittleEndian, Varint, ParseVarint, MinimalAt, Unpack, InputsBytes, ParseInputs, CanonicalInputs, OutputsBytes, ParseOutputs,
      CanonicalOutputs, MetadataBytes, ParseMetadata, CanonicalMetadata, TransactionFits, InputsFit, OutputsFit;
    ParsedParts(utf8, payload, offset);
    UnpackedIs(payload, offset, 4);
    var o1 := offset + 4;
    MinimalIs(payload, o1);
    var inputCount := ParseVarint(payload, o1).value;
    var o2 := inputCount.next;
    AtEnd(payload, o2, o1, Varint(inputCount.value));
    InputsAre(tx.version, payload, o2, inputCount.value);
    ParsedInputsFit(tx.version, payload, o2, inputCount.value);
    var o3 := ParseInputs(tx.version, payload, o2, inputCount.value).value.next;
    MinimalIs(payload, o3);
    var outputCount := ParseVarint(payload, o3).value;
    var o4 := outputCount.next;
    AtEnd(payload, o4, o3, Varint(outputCount.value));
    OutputsAre(utf8, payload, o4, outputCount.value);
    ParsedOutputsFit(utf8, payload, o4, outputCount.value);
    var o5 := ParseOutputs(utf8, payload, o4, outputCount.value).value.next;
    UnpackedIs(payload, o5, 4);
    MetadataIs(utf8, payload, o5 + 4);
    AtJoin(payload, o5, LittleEndian(tx.locktime, 4), MetadataBytes(tx.metadata));
    var fifth := LittleEndian(tx.locktime, 4) + MetadataBytes(tx.metadata);
    AtJoin(payload, o4, OutputsBytes(tx.outputs), fifth);
    var fourth := OutputsBytes(tx.outputs) + fifth;
    AtJoin(payload, o3, Varint(|tx.outputs|), fourth);
    var third := Varint(|tx.outputs|) + fourth;
    AtJoin(payload, o2, InputsBytes(tx.version, tx.inputs), third);
    var second := InputsBytes(tx.version, tx.inputs) + third;
    AtJoin(payload, o1, Varint(|tx.inputs|), second);
    AtJoin(payload, offset, LittleEndian(tx.version, 4), Varint(|tx.inputs|) + second);
  }

  // ---- a serialization is canonical ----

  lemma MinimalFrom(payload: Bytes, offset: nat, v: nat)
    requires v < U64 && At(payload, offset, Varint(v))
    ensures MinimalAt(payload, offset)
  {
    hide Varint, ParseVarint, At;
    VarintAt(payload, offset, v);
  }

  lemma FieldFrom(payload: Bytes, offset: nat, b: Bytes)
    requires |b| < U64 && At(payload, offset, BytesField(b))
    ensures MinimalAt(payload, offset) && ParseBytes(payload, offset) == Ok(Parsed(b, offset + |BytesField(b)|))
  {
    hide Varint, ParseVarint, At, MinimalAt, ParseBytes;
    AtConcat(payload, offset, Varint(|b|), b);
    MinimalFrom(payload, offset, |b|);
    BytesAt(payload, offset, b);
  }

  lemma InputFrom(version: nat, i: TxInput, payload: Bytes, offset: nat)
    requires InputFits(version, i) && At(payload, offset, InputBytes(version, i))
    ensures CanonicalInput(version, payload, offset)
  {
    hide LittleEndian, ParseBytes, BytesField, MinimalAt;
    var last := LittleEndian(i.sequence, 4);
    var fourth := BytesField(i.publicKey) + last;
    var third := BytesField(i.signature) + fourth;
    var second := SchemeField(version, i) + third;
    AtConcat(payload, offset, i.previousOutput.txid, LittleEndian(i.previousOutput.index, 4) + second);
    AtConcat(payload, offset + 32, LittleEndian(i.previousOutput.index, 4), second);
    AtConcat(payload, offset + 36, SchemeField(version, i), third);
    var here := offset + 36 + |SchemeField(version, i)|;
    assert ParseScheme(version, payload, offset + 36) == Ok(Parsed(i.schemeId, here));
    AtConcat(payload, here, BytesField(i.signature), fourth);
    FieldFrom(payload, here, i.signature);
    AtConcat(payload, here + |BytesField(i.signature)|, BytesField(i.publicKey), last);
    FieldFrom(payload, here + |BytesField(i.signature)|, i.publicKey);
  }

  lemma {:induction false} InputsFrom(version: nat, inputs: seq<TxInput>, payload: Bytes, offset: nat)
    requires InputsFit(version, inputs) && At(payload, offset, InputsBytes(version, inputs))
    ensures CanonicalInputs(version, payload, offset, |inputs|)
  {
    hide InputFits, InputBytes, ParseInput, CanonicalInput;
    if inputs != [] {
      var head := InputBytes(version, inputs[0]);
      AtConcat(payload, offset, head, InputsBytes(version, inputs[1..]));
      InputAt(version, inputs[0], payload, offset);
      InputFrom(version, inputs[0], payload, offset);
      InputsFrom(version, inputs[1..], payload, offset + |head|);
    }
  }

  lemma {:induction false} OutputsFrom(utf8: Utf8, outputs: seq<TxOutput>, payload: Bytes, offset: nat)
    requires OutputsFit(outputs) && OutputsReadable(utf8, outputs) && At(payload, offset, OutputsBytes(outputs))
    ensures CanonicalOutputs(utf8, payload, offset, |outputs|)
  {
    hide OutputFits, OutputBytes, ParseOutput, MinimalAt;
    if outputs != [] {
      var head := OutputBytes(outputs[0]);
      AtConcat(payload, offset, head, OutputsBytes(outputs[1..]));
      OutputAt(utf8, outputs[0], payload, offset);
      OutputFrom(outputs[0], payload, offset);
      OutputsFrom(utf8, outputs[1..], payload, offset + |head|);
    }
  }

  lemma OutputFrom(o: TxOutput, payload: Bytes, offset: nat)
    requires OutputFits(o) && At(payload, offset, OutputBytes(o))
    ensures MinimalAt(payload, offset + 8)
  {
    hide LittleEndian, BytesField, MinimalAt, ParseBytes;
    AtConcat(payload, offset, LittleEndian(o.value, 8), BytesField(o.recipient));
    FieldFrom(payload, offset + 8, o.recipient);
  }

  lemma {:induction false} PairsFrom(utf8: Utf8, m: Metadata, keys: seq<Text>, previous: Option<Text>, payload: Bytes, offset: nat)
    requires MetadataFits(m) && MetadataReadable(utf8, m) && (forall k :: k in keys ==> k in m) && Increasing(keys)
    requires keys != [] && previous.Some? ==> LexLess(previous.value, keys[0])
    requires At(payload, offset, PairsBytes(m, keys))
    ensures CanonicalPairs(utf8, payload, offset, |keys|, previous)
    decreases |keys|
  {
    hide ParseBytes, BytesField, MetadataFits, MinimalAt, LexLe;
    if keys != [] {
      var key := keys[0];
      FitsAt(m, key);
      var rest := PairsBytes(m, keys[1..]);
      AtConcat(payload, offset, BytesField(key), BytesField(m[key]) + rest);
      AtConcat(payload, offset + |BytesField(key)|, BytesField(m[key]), rest);
      FieldFrom(payload, offset, key);
      FieldFrom(payload, offset + |BytesField(key)|, m[key]);
      assert forall i :: 0 <= i < |keys[1..]| ==> keys[1..][i] == keys[i + 1];
      PairsFrom(utf8, m, keys[1..], Some(key), payload, offset + |BytesField(key)| + |BytesField(m[key])|);
    }
  }

  lemma MetadataFrom(utf8: Utf8, m: Metadata, payload: Bytes, offset: nat)
    requires MetadataFits(m) && MetadataReadable(utf8, m) && At(payload, offset, MetadataBytes(m))
    ensures CanonicalMetadata(utf8, payload, offset)
  {
    hide Varint, ParseVarint, MinimalAt, PairsBytes, SortedTexts, CanonicalPairs;
    var keys := SortedTexts(m.Keys);
    SortedTextsIncrease(m.Keys);
    AtConcat(payload, offset, Varint(|m|), PairsBytes(m, keys));
    VarintAt(payload, offset, |m|);
    MinimalFrom(payload, offset, |m|);
    PairsFrom(utf8, m, keys, None, payload, offset + |Varint(|m|)|);
  }

  lemma SerializationIsCanonical(utf8: Utf8, payload: Bytes, offset: nat, tx: Transaction)
    requires TransactionFits(tx) && Readable(utf8, tx) && At(payload, offset, TransactionBytes(tx))
    ensures ParseTransaction(utf8, payload, offset).Ok? && CanonicalTransaction(utf8, payload, offset)
  {
    hide At, LittleEndian, Varint, ParseVarint, MinimalAt, Unpack, InputsBytes, ParseInputs, CanonicalInputs, OutputsBytes, ParseOutputs,
      CanonicalOutputs, MetadataBytes, ParseMetadata, CanonicalMetadata, InputsFit, OutputsFit, MetadataFits, OutputsReadable,
      MetadataReadable, Pow256;
    TransactionAt(utf8, tx, payload, offset);
    Widths();
    var fifth := LittleEndian(tx.locktime, 4) + MetadataBytes(tx.metadata);
    var fourth := OutputsBytes(tx.outputs) + fifth;
    var third := Varint(|tx.outputs|) + fourth;
    var second := InputsBytes(tx.version, tx.inputs) + third;
    AtConcat(payload, offset, LittleEndian(tx.version, 4), Varint(|tx.inputs|) + second);
    UnpackAt(payload, offset, tx.version, 4);
    var o1 := offset + 4;
    AtConcat(payload, o1, Varint(|tx.inputs|), second);
    VarintAt(payload, o1, |tx.inputs|);
    MinimalFrom(payload, o1, |tx.inputs|);
    var o2 := o1 + |Varint(|tx.inputs|)|;
    AtConcat(payload, o2, InputsBytes(tx.version, tx.inputs), third);
    InputsAt(tx.version, tx.inputs, payload, o2);
    InputsFrom(tx.version, tx.inputs, payload, o2);
    var o3 := o2 + |InputsBytes(tx.version, tx.inputs)|;
    AtConcat(payload, o3, Varint(|tx.outputs|), fourth);
    VarintAt(payload, o3, |tx.outputs|);
    MinimalFrom(payload, o3, |tx.outputs|);
    var o4 := o3 + |Varint(|tx.outputs|)|;
    AtConcat(payload, o4, OutputsBytes(tx.outputs), fifth);
    OutputsAt(utf8, tx.outputs, payload, o4);
    OutputsFrom(utf8, tx.outputs, payload, o4);
    var o5 := o4 + |OutputsBytes(tx.outputs)|;
    AtConcat(payload, o5, LittleEndian(tx.locktime, 4), MetadataBytes(tx.metadata));
    MetadataFrom(utf8, tx.metadata, payload, o5 + 4);
  }

  /**
   * Serializing a parsed transaction gives back the bytes it was parsed from if and only if their varints
   * are minimal and their metadata keys strictly increase.
   */
  lemma ReserializesExactlyWhen(utf8: Utf8, payload: Bytes, offset: nat, tx: Transaction, next: nat)
    requires ParseTransaction(utf8, payload, offset) == Ok(Parsed(tx, next))
    ensures TransactionFits(tx)
    ensures (offset <= next <= |payload| && payload[offset..next] == TransactionBytes(tx)) <==> CanonicalTransaction(utf8, payload, offset)
  {
    hide TransactionFits, TransactionBytes, ParseTransaction, CanonicalTransaction, Readable;
    ParsedParts(utf8, payload, offset);
    if CanonicalTransaction(utf8, payload, offset) {
      CanonicalIs(utf8, payload, offset, tx, next);
    }
    if offset <= next <= |payload| && payload[offset..next] == TransactionBytes(tx) {
      assert At(payload, offset, TransactionBytes(tx));
      SerializationIsCanonical(utf8, payload, offset, tx);
    }
  }
}
