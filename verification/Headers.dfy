/** Header-first ingestion and its difficulty rules (sync.py, storage/headers.py). */
module Headers {
  import opened Prelude
  import opened Models
  import opened Pow

  datatype HeaderRecord = HeaderRecord(hash: Hash, header: BlockHeader, height: nat, work: nat)

  type HeaderStore = map<Hash, HeaderRecord>

  /** The digest of a serialized header. */
  type HeaderHash = BlockHeader -> Hash

  predicate IsRoot(header: BlockHeader) {
    header.previousHash == ZERO_HASH
  }

  /** Every record is filed under its hash, and hangs off a root or off a record one lower. */
  ghost predicate Rooted(hash: HeaderHash, store: HeaderStore) {
    forall h :: h in store ==> RecordRooted(hash, store, h)
  }

  ghost predicate RecordRooted(hash: HeaderHash, store: HeaderStore, h: Hash)
    requires h in store
  {
    var r := store[h];
    && r.hash == h && hash(r.header) == h
    && (IsRoot(r.header) ==> r.height == 0)
    && (!IsRoot(r.header) ==> r.header.previousHash in store && store[r.header.previousHash].height + 1 == r.height)
  }

  /** Ancestor hashes from the root to `h`. */
  function Path(hash: HeaderHash, store: HeaderStore, h: Hash): (path: seq<Hash>)
    requires Rooted(hash, store) && h in store
    ensures |path| == store[h].height + 1
    ensures forall i :: 0 <= i < |path| ==> path[i] in store && store[path[i]].height == i
    ensures path[store[h].height] == h
    decreases store[h].height
  {
    assert RecordRooted(hash, store, h);
    if IsRoot(store[h].header) then [h] else Path(hash, store, store[h].header.previousHash) + [h]
  }

  function Reverse<T>(s: seq<T>): seq<T> {
    if s == [] then [] else [s[|s| - 1]] + Reverse(s[..|s| - 1])
  }

  lemma ReverseSnoc<T>(s: seq<T>, x: T)
    ensures Reverse<T>([]) == [] && Reverse(s + [x]) == [x] + Reverse(s)
  {
    assert (s + [x])[..|s|] == s;
  }

  lemma PathStep(hash: HeaderHash, store: HeaderStore, h: Hash, tail: seq<Hash>)
    requires Rooted(hash, store) && h in store
    ensures RecordRooted(hash, store, h)
    ensures Path(hash, store, h) + tail
         == if IsRoot(store[h].header) then [h] + tail else Path(hash, store, store[h].header.previousHash) + ([h] + tail)
  {
    assert RecordRooted(hash, store, h);
  }

  /** `path_to_root`: walk back to a root, then reverse. */
  method PathToRoot(hash: HeaderHash, store: HeaderStore, h: Hash) returns (r: Result<seq<Hash>>)
    requires Rooted(hash, store)
    ensures r == if h in store then Ok(Path(hash, store, h)) else Err(Malformed)
  {
    hide Path, Reverse, IsRoot;
    if h !in store { return Err(Malformed); }
    var path, current := [], h;
    ReverseSnoc([], h);
    while true
      invariant current in store
      invariant Path(hash, store, h) == Path(hash, store, current) + Reverse(path)
      decreases store[current].height
    {
      assert RecordRooted(hash, store, current);
      PathStep(hash, store, current, Reverse(path));
      ReverseSnoc(path, current);
      path := path + [current];
      if IsRoot(store[current].header) { break; }
      current := store[current].header.previousHash;
    }
    return Ok(Reverse(path));
  }

  // ---- header-only checks ----

  function ParentOf(store: HeaderStore, header: BlockHeader): Option<HeaderRecord> {
    if IsRoot(header) then None else Lookup(store, header.previousHash)
  }

  function HeightAfter(parent: Option<HeaderRecord>): nat {
    if parent.None? then 0 else parent.value.height + 1
  }

  function WorkBefore(parent: Option<HeaderRecord>): nat {
    if parent.None? then 0 else parent.value.work
  }

  /** A header that starts a chain or whose parent is stored. */
  predicate Attached(store: HeaderStore, header: BlockHeader) {
    IsRoot(header) || header.previousHash in store
  }

  /** `_expected_bits_for_candidate_header`. */
  function ExpectedBits(hash: HeaderHash, store: HeaderStore, header: BlockHeader, p: Params): Result<nat>
    requires Rooted(hash, store) && Attached(store, header)
  {
    if IsRoot(header) then Ok(p.genesisBits)
    else
      var parent := store[header.previousHash];
      var height := parent.height + 1;
      if height % p.difficultyWindow != 0 then Ok(parent.header.bits)
      else
        var path := Path(hash, store, header.previousHash);
        var first := store[path[Max(0, height - p.difficultyWindow)]].header;
        NextBits(parent.header.bits, Max(1, parent.header.timestamp - first.timestamp), height, p)
  }

  /** `_validate_header_candidate` raises nothing. */
  predicate HeaderOk(hash: HeaderHash, store: HeaderStore, header: BlockHeader, p: Params)
    requires Rooted(hash, store) && Attached(store, header)
  {
    && header.timestamp >= 0
    && ProofOfWork(header.bits, Number(hash(header))) == Ok(true)
    && (!IsRoot(header) ==> header.timestamp >= store[header.previousHash].header.timestamp)
    && ExpectedBits(hash, store, header, p) == Ok(header.bits)
  }

  // ---- ingestion ----

  datatype Outcome = Done | ParentUnknown(hash: Hash) | Raised

  /** The record stored for an accepted header. */
  function RecordFor(hash: HeaderHash, store: HeaderStore, header: BlockHeader): HeaderRecord
    requires HeaderWork(header.bits).Ok?
  {
    var parent := ParentOf(store, header);
    HeaderRecord(hash(header), header, HeightAfter(parent), WorkBefore(parent) + HeaderWork(header.bits).value)
  }

  /** What becomes of the next header of a batch. */
  datatype Verdict = Known | Stored(record: HeaderRecord) | Refused(outcome: Outcome)

  function Judge(hash: HeaderHash, store: HeaderStore, previous: Option<BlockHeader>, header: BlockHeader, p: Params): Verdict
    requires Rooted(hash, store)
  {
    if hash(header) in store then Known
    else if previous.Some? && header.previousHash != hash(previous.value) then Refused(Raised)
    else if !Attached(store, header) then Refused(ParentUnknown(header.previousHash))
    else if !HeaderOk(hash, store, header, p) then Refused(Raised)
    else
      WorkPositive(header.bits, Number(hash(header)));
      Stored(RecordFor(hash, store, header))
  }

  function Store(store: HeaderStore, v: Verdict): HeaderStore {
    if v.Stored? then store[v.record.hash := v.record] else store
  }

  /** The header loop of `ingest_headers`, from header `k` on. */
  function Ingest(hash: HeaderHash, store: HeaderStore, previous: Option<BlockHeader>, headers: seq<BlockHeader>, k: nat, p: Params)
    : (r: (HeaderStore, Outcome))
    requires Rooted(hash, store) && k <= |headers|
    ensures Rooted(hash, r.0)
    decreases |headers| - k
  {
    if k == |headers| then (store, Done)
    else
      var v := Judge(hash, store, previous, headers[k], p);
      StoreRooted(hash, store, previous, headers[k], p);
      if v.Refused? then (store, v.outcome)
      else Ingest(hash, Store(store, v), Some(headers[k]), headers, k + 1, p)
  }

  lemma StoreRooted(hash: HeaderHash, store: HeaderStore, previous: Option<BlockHeader>, header: BlockHeader, p: Params)
    requires Rooted(hash, store)
    ensures Rooted(hash, Store(store, Judge(hash, store, previous, header, p)))
  {
    hide HeaderOk;
    var after := Store(store, Judge(hash, store, previous, header, p));
    forall h | h in after ensures RecordRooted(hash, after, h) {
      if h in store { assert RecordRooted(hash, store, h); }
    }
  }

  /** Batches fed one after another; the run stops at the first that does not complete. */
  function IngestAll(hash: HeaderHash, store: HeaderStore, batches: seq<seq<BlockHeader>>, p: Params): (r: (HeaderStore, Outcome))
    requires Rooted(hash, store)
    ensures Rooted(hash, r.0)
    decreases batches
  {
    if batches == [] then (store, Done)
    else
      var first := Ingest(hash, store, None, batches[0], 0, p);
      if first.1 != Done then first else IngestAll(hash, first.0, batches[1..], p)
  }

  // ---- what every ingested store keeps ----

  /** The record satisfied the header checks against its own ancestors. */
  ghost predicate RecordSound(hash: HeaderHash, store: HeaderStore, h: Hash, p: Params)
    requires Rooted(hash, store) && h in store
  {
    && Attached(store, store[h].header)
    && HeaderOk(hash, store, store[h].header, p)
    && HeaderWork(store[h].header.bits).Ok?
    && store[h].work == WorkBefore(ParentOf(store, store[h].header)) + HeaderWork(store[h].header.bits).value
  }

  ghost predicate Sound(hash: HeaderHash, store: HeaderStore, p: Params)
    requires Rooted(hash, store)
  {
    forall h :: h in store ==> RecordSound(hash, store, h, p)
  }

  ghost predicate Extends(small: HeaderStore, large: HeaderStore) {
    forall h :: h in small ==> h in large && large[h] == small[h]
  }

  /** Growing a store does not change the paths in it. */
  lemma {:induction false} PathStable(hash: HeaderHash, small: HeaderStore, large: HeaderStore, h: Hash)
    requires Rooted(hash, small) && Rooted(hash, large) && Extends(small, large) && h in small
    ensures Path(hash, small, h) == Path(hash, large, h)
    decreases small[h].height
  {
    assert RecordRooted(hash, small, h);
    if !IsRoot(small[h].header) { PathStable(hash, small, large, small[h].header.previousHash); }
  }

  lemma ExpectedStable(hash: HeaderHash, small: HeaderStore, large: HeaderStore, header: BlockHeader, p: Params)
    requires Rooted(hash, small) && Rooted(hash, large) && Extends(small, large) && Attached(small, header)
    ensures ExpectedBits(hash, small, header, p) == ExpectedBits(hash, large, header, p)
  {
    hide NextBits, IsRoot, Path, RecordRooted;
    if !IsRoot(header) {
      PathStable(hash, small, large, header.previousHash);
      var path := Path(hash, small, header.previousHash);
      assert path[Max(0, |path| - p.difficultyWindow)] in small;
    }
  }

  lemma RecordStable(hash: HeaderHash, small: HeaderStore, large: HeaderStore, h: Hash, p: Params)
    requires Rooted(hash, small) && Rooted(hash, large) && Extends(small, large)
    requires h in large && Attached(small, large[h].header)
    requires HeaderOk(hash, small, large[h].header, p) && HeaderWork(large[h].header.bits).Ok?
    requires large[h].work == WorkBefore(ParentOf(small, large[h].header)) + HeaderWork(large[h].header.bits).value
    ensures RecordSound(hash, large, h, p)
  {
    hide ExpectedBits, ProofOfWork, HeaderWork, IsRoot;
    ExpectedStable(hash, small, large, large[h].header, p);
  }

  lemma AcceptedWork(hash: HeaderHash, store: HeaderStore, header: BlockHeader, p: Params)
    requires Rooted(hash, store) && Attached(store, header) && HeaderOk(hash, store, header, p)
    ensures HeaderWork(header.bits).Ok?
  {
    WorkPositive(header.bits, Number(hash(header)));
  }

  lemma SoundStep(hash: HeaderHash, store: HeaderStore, previous: Option<BlockHeader>, header: BlockHeader, p: Params)
    requires Rooted(hash, store) && Sound(hash, store, p)
    ensures Rooted(hash, Store(store, Judge(hash, store, previous, header, p)))
    ensures Sound(hash, Store(store, Judge(hash, store, previous, header, p)), p)
    ensures Extends(store, Store(store, Judge(hash, store, previous, header, p)))
  {
    hide HeaderOk, HeaderWork, IsRoot;
    StoreRooted(hash, store, previous, header, p);
    var after := Store(store, Judge(hash, store, previous, header, p));
    forall h | h in after ensures RecordSound(hash, after, h, p) {
      if h in store {
        assert RecordSound(hash, store, h, p) && RecordRooted(hash, store, h);
      } else {
        AcceptedWork(hash, store, header, p);
      }
      RecordStable(hash, store, after, h, p);
    }
  }

  /** Every header that ingestion stores satisfied the rules, whatever was fed and in whatever order. */
  lemma {:induction false} IngestSound(hash: HeaderHash, store: HeaderStore, previous: Option<BlockHeader>, headers: seq<BlockHeader>, k: nat, p: Params)
    requires Rooted(hash, store) && Sound(hash, store, p) && k <= |headers|
    ensures Sound(hash, Ingest(hash, store, previous, headers, k, p).0, p)
    ensures Extends(store, Ingest(hash, store, previous, headers, k, p).0)
    ensures forall h :: h in Ingest(hash, store, previous, headers, k, p).0 ==> h in store || exists i :: k <= i < |headers| && h == hash(headers[i])
    decreases |headers| - k
  {
    hide Sound, HeaderOk, RecordFor;
    if k < |headers| {
      SoundStep(hash, store, previous, headers[k], p);
      var v := Judge(hash, store, previous, headers[k], p);
      if !v.Refused? {
        IngestSound(hash, Store(store, v), Some(headers[k]), headers, k + 1, p);
        assert forall h :: h in Store(store, v) ==> h in store || h == hash(headers[k]) by { StoredIs(hash, store, previous, headers[k], p); }
      }
    }
  }

  lemma StoredIs(hash: HeaderHash, store: HeaderStore, previous: Option<BlockHeader>, header: BlockHeader, p: Params)
    requires Rooted(hash, store)
    ensures var v := Judge(hash, store, previous, header, p);
            v.Stored? ==> v.record.hash == hash(header) && v.record.header == header
  {
    hide HeaderOk;
  }

  lemma {:induction false} IngestAllSound(hash: HeaderHash, store: HeaderStore, batches: seq<seq<BlockHeader>>, p: Params)
    requires Rooted(hash, store) && Sound(hash, store, p)
    ensures Sound(hash, IngestAll(hash, store, batches, p).0, p)
    ensures Extends(store, IngestAll(hash, store, batches, p).0)
    ensures forall h :: h in IngestAll(hash, store, batches, p).0 ==> h in store || exists header :: header in Flatten(batches) && h == hash(header)
    decreases batches
  {
    hide Sound, Ingest;
    if batches != [] {
      IngestSound(hash, store, None, batches[0], 0, p);
      var first := Ingest(hash, store, None, batches[0], 0, p);
      IngestAllSound(hash, first.0, batches[1..], p);
      assert forall x :: x in Flatten(batches) <==> x in batches[0] || x in Flatten(batches[1..]);
    }
  }

  lemma RecordFacts(hash: HeaderHash, store: HeaderStore, h: Hash, p: Params)
    requires Rooted(hash, store) && Sound(hash, store, p) && h in store
    ensures RecordRooted(hash, store, h) && RecordSound(hash, store, h, p)
  {
  }

  /**
   * In every ingested store a header's target is positive, at most the network limit and at most
   * four times its parent's, changes only at window boundaries, and its work strictly exceeds its parent's.
   */
  lemma {:induction false} IngestedDifficulty(hash: HeaderHash, store: HeaderStore, h: Hash, p: Params)
    requires Rooted(hash, store) && Sound(hash, store, p) && h in store
    ensures BitsToTarget(p.genesisBits).Ok? && BitsToTarget(store[h].header.bits).Ok?
    ensures 0 < BitsToTarget(store[h].header.bits).value <= BitsToTarget(p.genesisBits).value
    ensures store[h].work > 0
    ensures !IsRoot(store[h].header) ==>
      && store[h].header.previousHash in store
      && BitsToTarget(store[store[h].header.previousHash].header.bits).Ok?
      && BitsToTarget(store[h].header.bits).value <= 4 * BitsToTarget(store[store[h].header.previousHash].header.bits).value
      && store[h].work > store[store[h].header.previousHash].work
      && (store[h].height % p.difficultyWindow != 0 ==> store[h].header.bits == store[store[h].header.previousHash].header.bits)
    decreases store[h].height
  {
    hide BitsToTarget, Sound, Rooted, Path, NextBits;
    RecordFacts(hash, store, h, p);
    var r := store[h];
    WorkPositive(r.header.bits, Number(hash(r.header)));
    TargetPositive(r.header.bits, Number(hash(r.header)));
    if !IsRoot(r.header) {
      var parent := store[r.header.previousHash];
      RecordFacts(hash, store, r.header.previousHash, p);
      IngestedDifficulty(hash, store, r.header.previousHash, p);
      if r.height % p.difficultyWindow == 0 {
        var path := Path(hash, store, r.header.previousHash);
        var first := store[path[Max(0, r.height - p.difficultyWindow)]].header;
        RetargetBounds(parent.header.bits, Max(1, parent.header.timestamp - first.timestamp), r.height, p);
      }
    }
  }

  lemma TargetPositive(bits: nat, hash: nat)
    requires ProofOfWork(bits, hash) == Ok(true)
    ensures BitsToTarget(bits).Ok? && 0 < BitsToTarget(bits).value
  {
  }
}
