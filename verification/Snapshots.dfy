/** The snapshot header validator, and its agreement with header ingestion (snapshots.py). */
module Snapshots {
  import opened Prelude
  import opened Models
  import opened Pow
  import opened Headers

  datatype SnapshotRecord = SnapshotRecord(header: BlockHeader, height: int, work: int)

  function WorkAt(r: SnapshotRecord): nat {
    var w := HeaderWork(r.header.bits);
    if w.Ok? then w.value else 0
  }

  /** The work of the first `k` headers. */
  function WorkSum(recs: seq<SnapshotRecord>, k: nat): nat
    requires k <= |recs|
  {
    if k == 0 then 0 else WorkSum(recs, k - 1) + WorkAt(recs[k - 1])
  }

  function SnapshotBits(recs: seq<SnapshotRecord>, i: nat, p: Params): Result<nat>
    requires i < |recs|
  {
    if i == 0 then Ok(p.genesisBits)
    else if i % p.difficultyWindow != 0 then Ok(recs[i - 1].header.bits)
    else
      var first := recs[Max(0, i - p.difficultyWindow)].header;
      NextBits(recs[i - 1].header.bits, Max(1, recs[i - 1].header.timestamp - first.timestamp), i, p)
  }

  /** Record `i` continues the chain of the records before it. */
  predicate RecordOk(hash: HeaderHash, recs: seq<SnapshotRecord>, i: nat, p: Params)
    requires i < |recs|
  {
    var header := recs[i].header;
    && recs[i].height == i
    && header.timestamp >= 0
    && ProofOfWork(header.bits, Number(hash(header))) == Ok(true)
    && header.previousHash == (if i == 0 then ZERO_HASH else hash(recs[i - 1].header))
    && (i > 0 ==> header.timestamp >= recs[i - 1].header.timestamp)
    && SnapshotBits(recs, i, p) == Ok(header.bits)
    && recs[i].work == WorkSum(recs, i + 1)
  }

  ghost predicate SnapshotOk(hash: HeaderHash, recs: seq<SnapshotRecord>, p: Params) {
    forall i :: 0 <= i < |recs| ==> RecordOk(hash, recs, i, p)
  }

  /** The body of the validation loop, given what it has accumulated. */
  method CheckRecord(hash: HeaderHash, recs: seq<SnapshotRecord>, i: nat, previous: Option<BlockHeader>, validated: seq<BlockHeader>, total: nat, p: Params)
    returns (ok: bool)
    requires i < |recs| && |validated| == i
    requires forall j :: 0 <= j < i ==> validated[j] == recs[j].header
    requires previous == if i == 0 then None else Some(recs[i - 1].header)
    requires total == WorkSum(recs, i + 1)
    ensures ok == RecordOk(hash, recs, i, p)
  {
    hide NextBits, ProofOfWork, WorkSum;
    var header := recs[i].header;
    if recs[i].height != i { return false; }
    if header.timestamp < 0 { return false; }
    if ProofOfWork(header.bits, Number(hash(header))) != Ok(true) { return false; }
    var expected := Ok(p.genesisBits);
    if previous.None? {
      if header.previousHash != ZERO_HASH { return false; }
    } else {
      if header.previousHash != hash(previous.value) { return false; }
      if header.timestamp < previous.value.timestamp { return false; }
      expected := Ok(previous.value.bits);
      if i % p.difficultyWindow == 0 {
        var first := validated[Max(0, i - p.difficultyWindow)];
        expected := NextBits(previous.value.bits, Max(1, previous.value.timestamp - first.timestamp), i, p);
      }
    }
    ok := expected == Ok(header.bits) && recs[i].work == total;
  }

  /** `_validate_snapshot_headers`: one pass with a running header, running work and the headers so far. */
  method ValidateSnapshotHeaders(hash: HeaderHash, recs: seq<SnapshotRecord>, p: Params) returns (ok: bool)
    ensures ok <==> SnapshotOk(hash, recs, p)
  {
    hide RecordOk, WorkAt;
    var previous: Option<BlockHeader> := None;
    var total := 0;
    var validated: seq<BlockHeader> := [];
    var i := 0;
    while i < |recs|
      invariant 0 <= i <= |recs| && |validated| == i
      invariant forall j :: 0 <= j < i ==> validated[j] == recs[j].header
      invariant forall j :: 0 <= j < i ==> RecordOk(hash, recs, j, p)
      invariant previous == if i == 0 then None else Some(recs[i - 1].header)
      invariant total == WorkSum(recs, i)
    {
      total := total + WorkAt(recs[i]);
      var good := CheckRecord(hash, recs, i, previous, validated, total, p);
      if !good { return false; }
      previous := Some(recs[i].header);
      validated := validated + [recs[i].header];
      i := i + 1;
    }
    ok := true;
  }

  // ---- agreement with ingestion ----

  ghost predicate CollisionFree(hash: HeaderHash) {
    && (forall a, b :: hash(a) == hash(b) ==> a == b)
    && (forall a :: hash(a) != ZERO_HASH)
  }

  /** The store holds exactly the first `k` headers, at their positions, with the work summed so far. */
  ghost predicate Mirrors(hash: HeaderHash, store: HeaderStore, recs: seq<SnapshotRecord>, k: nat)
    requires k <= |recs|
  {
    && (forall i :: 0 <= i < k ==> hash(recs[i].header) in store)
    && (forall i :: 0 <= i < k ==>
          store[hash(recs[i].header)] == HeaderRecord(hash(recs[i].header), recs[i].header, i, WorkSum(recs, i + 1)))
    && (forall h :: h in store ==> exists i :: 0 <= i < k && h == hash(recs[i].header))
  }

  /** A chain of collision-free links never repeats a header. */
  lemma {:induction false} HeadersDiffer(hash: HeaderHash, recs: seq<SnapshotRecord>, i: nat, j: nat, p: Params)
    requires CollisionFree(hash) && i < j < |recs|
    requires forall k :: 0 <= k <= j ==> RecordOk(hash, recs, k, p)
    ensures recs[i].header != recs[j].header
  {
    assert RecordOk(hash, recs, i, p) && RecordOk(hash, recs, j, p);
    if i > 0 { HeadersDiffer(hash, recs, i - 1, j - 1, p); }
  }

  lemma {:induction false} MirrorPath(hash: HeaderHash, store: HeaderStore, recs: seq<SnapshotRecord>, k: nat, i: nat)
    requires k <= |recs| && i < k && Rooted(hash, store) && Mirrors(hash, store, recs, k)
    requires forall j :: 0 <= j < k ==> recs[j].header.previousHash == (if j == 0 then ZERO_HASH else hash(recs[j - 1].header))
    requires CollisionFree(hash)
    ensures hash(recs[i].header) in store
    ensures |Path(hash, store, hash(recs[i].header))| == i + 1
    ensures forall j :: 0 <= j <= i ==> Path(hash, store, hash(recs[i].header))[j] == hash(recs[j].header)
  {
    var h := hash(recs[i].header);
    assert store[h].header == recs[i].header;
    if i > 0 {
      assert !IsRoot(store[h].header);
      MirrorPath(hash, store, recs, k, i - 1);
    }
  }

  /** In a mirrored store the two implementations expect the same bits. */
  lemma SameBits(hash: HeaderHash, store: HeaderStore, recs: seq<SnapshotRecord>, k: nat, p: Params)
    requires k < |recs| && Rooted(hash, store) && Mirrors(hash, store, recs, k) && CollisionFree(hash)
    requires forall j :: 0 <= j < k ==> recs[j].header.previousHash == (if j == 0 then ZERO_HASH else hash(recs[j - 1].header))
    requires recs[k].header.previousHash == (if k == 0 then ZERO_HASH else hash(recs[k - 1].header))
    ensures Attached(store, recs[k].header)
    ensures ExpectedBits(hash, store, recs[k].header, p) == SnapshotBits(recs, k, p)
  {
    hide NextBits, Rooted, Path;
    if k > 0 {
      MirrorPath(hash, store, recs, k, k - 1);
      assert !IsRoot(recs[k].header);
      assert store[hash(recs[k - 1].header)].header == recs[k - 1].header;
      var first := Max(0, k - p.difficultyWindow);
      assert store[hash(recs[first].header)].header == recs[first].header;
    }
  }

  /** The links of a valid snapshot up to record `k`. */
  lemma Linked(hash: HeaderHash, recs: seq<SnapshotRecord>, k: nat, p: Params)
    requires SnapshotOk(hash, recs, p) && k < |recs|
    ensures forall j :: 0 <= j <= k ==> recs[j].header.previousHash == (if j == 0 then ZERO_HASH else hash(recs[j - 1].header))
  {
    forall j | 0 <= j <= k ensures recs[j].header.previousHash == (if j == 0 then ZERO_HASH else hash(recs[j - 1].header)) {
      assert RecordOk(hash, recs, j, p);
    }
  }

  lemma NotYetStored(hash: HeaderHash, store: HeaderStore, recs: seq<SnapshotRecord>, k: nat, p: Params)
    requires CollisionFree(hash) && SnapshotOk(hash, recs, p) && k < |recs| && Mirrors(hash, store, recs, k)
    ensures hash(recs[k].header) !in store
  {
    hide RecordOk;
    if hash(recs[k].header) in store {
      var i :| 0 <= i < k && hash(recs[k].header) == hash(recs[i].header);
      HeadersDiffer(hash, recs, i, k, p);
      assert false;
    }
  }

  lemma NextHeaderOk(hash: HeaderHash, store: HeaderStore, recs: seq<SnapshotRecord>, k: nat, p: Params)
    requires CollisionFree(hash) && SnapshotOk(hash, recs, p) && k < |recs|
    requires Rooted(hash, store) && Mirrors(hash, store, recs, k)
    ensures Attached(store, recs[k].header) && IsRoot(recs[k].header) == (k == 0)
    ensures HeaderOk(hash, store, recs[k].header, p)
  {
    hide NextBits, ProofOfWork, ExpectedBits, SnapshotBits, Rooted;
    assert RecordOk(hash, recs, k, p);
    Linked(hash, recs, k, p);
    SameBits(hash, store, recs, k, p);
    if k > 0 {
      assert hash(recs[k - 1].header) != ZERO_HASH;
    }
  }

  lemma MirrorsNext(hash: HeaderHash, store: HeaderStore, recs: seq<SnapshotRecord>, k: nat)
    requires k < |recs| && Mirrors(hash, store, recs, k) && hash(recs[k].header) !in store
    ensures Mirrors(hash, store[hash(recs[k].header) := HeaderRecord(hash(recs[k].header), recs[k].header, k, WorkSum(recs, k + 1))], recs, k + 1)
  {
    hide WorkSum;
    var after := store[hash(recs[k].header) := HeaderRecord(hash(recs[k].header), recs[k].header, k, WorkSum(recs, k + 1))];
    forall h | h in after ensures exists i :: 0 <= i < k + 1 && h == hash(recs[i].header) {
      if h in store {
        var i :| 0 <= i < k && h == hash(recs[i].header);
      }
    }
  }

  /** A valid snapshot's next header is stored at its own height with its own work. */
  lemma JudgeNext(hash: HeaderHash, store: HeaderStore, recs: seq<SnapshotRecord>, k: nat, previous: Option<BlockHeader>, p: Params)
    requires CollisionFree(hash) && SnapshotOk(hash, recs, p) && k < |recs|
    requires Rooted(hash, store) && Mirrors(hash, store, recs, k)
    requires previous == None || (k > 0 && previous == Some(recs[k - 1].header))
    ensures Judge(hash, store, previous, recs[k].header, p)
            == Stored(HeaderRecord(hash(recs[k].header), recs[k].header, k, WorkSum(recs, k + 1)))
    ensures Mirrors(hash, Store(store, Judge(hash, store, previous, recs[k].header, p)), recs, k + 1)
  {
    hide HeaderOk, HeaderWork, Rooted, SnapshotOk, IsRoot;
    NotYetStored(hash, store, recs, k, p);
    NextHeaderOk(hash, store, recs, k, p);
    LinkedTo(hash, recs, k, p);
    AcceptedWork(hash, store, recs[k].header, p);
    MirrorsNext(hash, store, recs, k);
  }

  lemma LinkedTo(hash: HeaderHash, recs: seq<SnapshotRecord>, k: nat, p: Params)
    requires SnapshotOk(hash, recs, p) && k < |recs|
    ensures k > 0 ==> recs[k].header.previousHash == hash(recs[k - 1].header)
  {
    assert RecordOk(hash, recs, k, p);
  }

  function HeadersOf(recs: seq<SnapshotRecord>): seq<BlockHeader> {
    seq(|recs|, i requires 0 <= i < |recs| => recs[i].header)
  }

  /** Feeding one batch, a slice of a valid snapshot, extends the mirrored store by that slice. */
  lemma {:induction false} IngestSlice(hash: HeaderHash, store: HeaderStore, recs: seq<SnapshotRecord>, k: nat, previous: Option<BlockHeader>,
                                       batch: seq<BlockHeader>, j: nat, p: Params)
    requires CollisionFree(hash) && SnapshotOk(hash, recs, p)
    requires j <= |batch| && k + (|batch| - j) <= |recs|
    requires forall i :: j <= i < |batch| ==> batch[i] == recs[k + (i - j)].header
    requires Rooted(hash, store) && Mirrors(hash, store, recs, k)
    requires previous == None || (k > 0 && previous == Some(recs[k - 1].header))
    ensures Ingest(hash, store, previous, batch, j, p).1 == Done
    ensures Mirrors(hash, Ingest(hash, store, previous, batch, j, p).0, recs, k + (|batch| - j))
    decreases |batch| - j
  {
    hide Mirrors, SnapshotOk, Judge;
    if j < |batch| {
      assert batch[j] == recs[k].header;
      JudgeNext(hash, store, recs, k, previous, p);
      StoreRooted(hash, store, previous, batch[j], p);
      var v := Judge(hash, store, previous, batch[j], p);
      IngestSlice(hash, Store(store, v), recs, k + 1, Some(batch[j]), batch, j + 1, p);
    }
  }

  lemma {:induction false} IngestMirrors(hash: HeaderHash, store: HeaderStore, recs: seq<SnapshotRecord>, k: nat, batches: seq<seq<BlockHeader>>, p: Params)
    requires CollisionFree(hash) && SnapshotOk(hash, recs, p) && k <= |recs|
    requires Flatten(batches) == HeadersOf(recs)[k..]
    requires Rooted(hash, store) && Mirrors(hash, store, recs, k)
    ensures IngestAll(hash, store, batches, p).1 == Done
    ensures Mirrors(hash, IngestAll(hash, store, batches, p).0, recs, |recs|)
    decreases batches
  {
    hide Mirrors, SnapshotOk, Ingest;
    if batches == [] {
      assert |HeadersOf(recs)[k..]| == |recs| - k;
    } else {
      var n := |batches[0]|;
      var rest := HeadersOf(recs)[k..];
      assert rest[..n] == batches[0] && rest[n..] == Flatten(batches[1..]);
      assert rest[n..] == HeadersOf(recs)[k + n..];
      forall i | 0 <= i < n ensures batches[0][i] == recs[k + i].header {
        assert rest[i] == HeadersOf(recs)[k + i];
      }
      IngestSlice(hash, store, recs, k, None, batches[0], 0, p);
      IngestMirrors(hash, Ingest(hash, store, None, batches[0], 0, p).0, recs, k + n, batches[1..], p);
    }
  }

  /** Ingesting the batches stores every header with the height and work its record declares, heights in order. */
  ghost predicate IngestsAs(hash: HeaderHash, recs: seq<SnapshotRecord>, batches: seq<seq<BlockHeader>>, p: Params) {
    var (store, outcome) := IngestAll(hash, map[], batches, p);
    && outcome == Done
    && (forall i :: 0 <= i < |recs| ==> hash(recs[i].header) in store)
    && (forall i :: 0 <= i < |recs| ==>
          store[hash(recs[i].header)].height == recs[i].height == i && store[hash(recs[i].header)].work == recs[i].work)
  }

  // ---- from a sound store back to a valid snapshot ----

  ghost predicate Listed(hash: HeaderHash, recs: seq<SnapshotRecord>, h: Hash) {
    exists j :: 0 <= j < |recs| && h == hash(recs[j].header)
  }

  /** In an ingested store whose headers sit at their list positions, each header's parent is the one listed before it. */
  lemma ListedParent(hash: HeaderHash, store: HeaderStore, recs: seq<SnapshotRecord>, i: nat)
    requires CollisionFree(hash) && Rooted(hash, store) && i < |recs|
    requires forall j :: 0 <= j < |recs| ==> hash(recs[j].header) in store && store[hash(recs[j].header)].height == j
    requires forall h :: h in store ==> Listed(hash, recs, h)
    ensures store[hash(recs[i].header)].header == recs[i].header
    ensures recs[i].header.previousHash == if i == 0 then ZERO_HASH else hash(recs[i - 1].header)
  {
    hide CollisionFree, Listed, Rooted;
    var h := hash(recs[i].header);
    StoredIsRooted(hash, store, h);
    Same(hash, store[h].header, recs[i].header);
    if !IsRoot(recs[i].header) { ListedAtHeight(hash, store, recs, recs[i].header.previousHash); }
  }

  lemma StoredIsRooted(hash: HeaderHash, store: HeaderStore, h: Hash)
    requires Rooted(hash, store) && h in store
    ensures RecordRooted(hash, store, h)
  {
  }

  lemma ListedAtHeight(hash: HeaderHash, store: HeaderStore, recs: seq<SnapshotRecord>, h: Hash)
    requires forall j :: 0 <= j < |recs| ==> hash(recs[j].header) in store && store[hash(recs[j].header)].height == j
    requires h in store && Listed(hash, recs, h)
    ensures store[h].height < |recs| && h == hash(recs[store[h].height].header)
  {
    var j :| 0 <= j < |recs| && h == hash(recs[j].header);
  }

  lemma Same(hash: HeaderHash, a: BlockHeader, b: BlockHeader)
    requires CollisionFree(hash) && hash(a) == hash(b)
    ensures a == b
  {
  }

  lemma SoundBack(hash: HeaderHash, store: HeaderStore, recs: seq<SnapshotRecord>, i: nat, p: Params)
    requires CollisionFree(hash) && Rooted(hash, store) && Sound(hash, store, p) && i < |recs|
    requires forall j :: 0 <= j < |recs| ==> hash(recs[j].header) in store
    requires forall j :: 0 <= j < |recs| ==>
      store[hash(recs[j].header)].height == recs[j].height == j && store[hash(recs[j].header)].work == recs[j].work
    requires forall h :: h in store ==> Listed(hash, recs, h)
    requires forall j :: 0 <= j < i ==> RecordOk(hash, recs, j, p)
    ensures RecordOk(hash, recs, i, p)
  {
    hide Rooted, CollisionFree, Listed, RecordOk, RecordSound, ExpectedBits, SnapshotBits, Attached;
    forall j | 0 <= j < |recs|
      ensures store[hash(recs[j].header)].header == recs[j].header
      ensures recs[j].header.previousHash == if j == 0 then ZERO_HASH else hash(recs[j - 1].header)
    {
      ListedParent(hash, store, recs, j);
    }
    assert RecordSound(hash, store, hash(recs[i].header), p);
    BitsBack(hash, store, recs, i, p);
    ListedParent(hash, store, recs, i);
    RecordBack(hash, store, recs, i, p);
  }

  /** One record, when its bits and its link are known to agree. */
  lemma RecordBack(hash: HeaderHash, store: HeaderStore, recs: seq<SnapshotRecord>, i: nat, p: Params)
    requires CollisionFree(hash) && Rooted(hash, store) && i < |recs|
    requires hash(recs[i].header) in store && store[hash(recs[i].header)].header == recs[i].header
    requires recs[i].height == i && store[hash(recs[i].header)].work == recs[i].work
    requires recs[i].header.previousHash == if i == 0 then ZERO_HASH else hash(recs[i - 1].header)
    requires i > 0 ==> var q := hash(recs[i - 1].header);
      q in store && store[q].header == recs[i - 1].header && store[q].work == recs[i - 1].work && RecordOk(hash, recs, i - 1, p)
    requires RecordSound(hash, store, hash(recs[i].header), p)
    requires ExpectedBits(hash, store, recs[i].header, p) == SnapshotBits(recs, i, p)
    ensures RecordOk(hash, recs, i, p)
  {
    hide ProofOfWork, HeaderWork, ExpectedBits, SnapshotBits, Rooted;
    if i > 0 { assert !IsRoot(recs[i].header); }
    assert WorkSum(recs, i + 1) == WorkSum(recs, i) + WorkAt(recs[i]);
  }

  lemma BitsBack(hash: HeaderHash, store: HeaderStore, recs: seq<SnapshotRecord>, i: nat, p: Params)
    requires CollisionFree(hash) && Rooted(hash, store) && i < |recs|
    requires forall j :: 0 <= j < |recs| ==>
      hash(recs[j].header) in store && store[hash(recs[j].header)].header == recs[j].header && store[hash(recs[j].header)].height == j
    requires forall j :: 0 <= j < |recs| ==> recs[j].header.previousHash == if j == 0 then ZERO_HASH else hash(recs[j - 1].header)
    ensures Attached(store, recs[i].header)
    ensures ExpectedBits(hash, store, recs[i].header, p) == SnapshotBits(recs, i, p)
  {
    hide NextBits, Rooted;
    if i > 0 {
      assert recs[i].header.previousHash == hash(recs[i - 1].header) != ZERO_HASH;
      PathBack(hash, store, recs, i - 1);
    }
  }

  lemma {:induction false} PathBack(hash: HeaderHash, store: HeaderStore, recs: seq<SnapshotRecord>, i: nat)
    requires CollisionFree(hash) && Rooted(hash, store) && i < |recs|
    requires forall j :: 0 <= j < |recs| ==>
      hash(recs[j].header) in store && store[hash(recs[j].header)].header == recs[j].header && store[hash(recs[j].header)].height == j
    requires forall j :: 0 <= j < |recs| ==> recs[j].header.previousHash == if j == 0 then ZERO_HASH else hash(recs[j - 1].header)
    ensures forall j :: 0 <= j <= i ==> Path(hash, store, hash(recs[i].header))[j] == hash(recs[j].header)
  {
    if i > 0 {
      assert !IsRoot(recs[i].header);
      PathBack(hash, store, recs, i - 1);
    }
  }

  lemma {:induction false} AllBack(hash: HeaderHash, store: HeaderStore, recs: seq<SnapshotRecord>, k: nat, p: Params)
    requires CollisionFree(hash) && Rooted(hash, store) && Sound(hash, store, p) && k <= |recs|
    requires forall j :: 0 <= j < |recs| ==> hash(recs[j].header) in store
    requires forall j :: 0 <= j < |recs| ==>
      store[hash(recs[j].header)].height == recs[j].height == j && store[hash(recs[j].header)].work == recs[j].work
    requires forall h :: h in store ==> Listed(hash, recs, h)
    ensures forall i :: 0 <= i < k ==> RecordOk(hash, recs, i, p)
  {
    hide RecordOk, Sound, Rooted;
    if k > 0 {
      AllBack(hash, store, recs, k - 1, p);
      SoundBack(hash, store, recs, k - 1, p);
    }
  }

  /**
   * With a collision-free hash the snapshot validator accepts a list exactly when ingesting its
   * headers, split into any batches, stores every one of them with the declared heights and work.
   */
  lemma SnapshotAgreesWithIngestion(hash: HeaderHash, recs: seq<SnapshotRecord>, batches: seq<seq<BlockHeader>>, p: Params)
    requires CollisionFree(hash) && Flatten(batches) == HeadersOf(recs)
    ensures SnapshotOk(hash, recs, p) <==> IngestsAs(hash, recs, batches, p)
  {
    hide IngestAll, RecordOk;
    assert HeadersOf(recs)[0..] == HeadersOf(recs);
    if SnapshotOk(hash, recs, p) {
      IngestMirrors(hash, map[], recs, 0, batches, p);
      forall i | 0 <= i < |recs| ensures recs[i].height == i && recs[i].work == WorkSum(recs, i + 1) {
        DeclaredOk(hash, recs, i, p);
      }
    }
    if IngestsAs(hash, recs, batches, p) {
      IngestAllSound(hash, map[], batches, p);
      var store := IngestAll(hash, map[], batches, p).0;
      forall h | h in store ensures Listed(hash, recs, h) {
        var header :| header in Flatten(batches) && h == hash(header);
        var j :| 0 <= j < |recs| && HeadersOf(recs)[j] == header;
      }
      AllBack(hash, store, recs, |recs|, p);
    }
  }

  lemma DeclaredOk(hash: HeaderHash, recs: seq<SnapshotRecord>, i: nat, p: Params)
    requires i < |recs| && RecordOk(hash, recs, i, p)
    ensures recs[i].height == i && recs[i].work == WorkSum(recs, i + 1)
  {
  }
}
