/** `SyncManager`: header ingestion, memoized scans, block reception and activation (sync.py). */
module Sync {
  import opened Prelude
  import opened Models
  import opened Pow
  import opened Headers
  import opened SyncScan
  import opened Orphans
  import opened Downloads

  type MissingCache = map<(Hash, Option<Hash>), seq<Hash>>
  type ReadyCache = map<(Hash, Option<Hash>, set<Hash>), Option<Hash>>

  /** Every memoized list of missing blocks is what a fresh scan returns. */
  ghost predicate MissingCacheOk(hash: HeaderHash, headers: HeaderStore, blocks: BlockStore, anchor: Option<Anchor>, cache: MissingCache)
    requires Rooted(hash, headers)
  {
    forall k :: k in cache ==> MissingScan(hash, headers, blocks, anchor, k.0) == Ok(cache[k])
  }

  /** Every memoized ready tip whose key can still be asked for is what a fresh scan returns. */
  ghost predicate ReadyCacheOk(hash: HeaderHash, headers: HeaderStore, blocks: BlockStore, anchor: Option<Anchor>, cache: ReadyCache)
    requires Rooted(hash, headers)
  {
    forall k :: k in cache ==> cache[k] == ReadyScan(hash, headers, blocks, anchor, k.1, k.2)
  }

  ghost predicate StoresOk(hash: HeaderHash, headers: HeaderStore, blocks: BlockStore, tip: Option<Hash>) {
    && Rooted(hash, headers)
    && blocks.Keys <= headers.Keys
    && (forall h :: h in blocks ==> hash(blocks[h].header) == h)
    && (tip.Some? ==> tip.value in headers)
  }

  /** The hashes on the path to `failed` that are not on the path to the active tip. */
  function OffChain(hash: HeaderHash, headers: HeaderStore, tip: Option<Hash>, failed: Hash): set<Hash>
    requires Rooted(hash, headers) && failed in headers && (tip.Some? ==> tip.value in headers)
  {
    set h | h in Path(hash, headers, failed) && (tip.None? || h !in Path(hash, headers, tip.value))
  }

  /** Every block that was waiting still waits or has been stored. */
  ghost predicate NoneLost(before: set<(Hash, Hash)>, after: set<(Hash, Hash)>, blocks: BlockStore) {
    forall w :: w in before ==> w in after || w.1 in blocks
  }

  lemma NoneLostStep(a: set<(Hash, Hash)>, b: set<(Hash, Hash)>, c: set<(Hash, Hash)>, earlier: BlockStore, later: BlockStore)
    requires NoneLost(a, b, earlier) && NoneLost(b, c, later) && earlier.Keys <= later.Keys
    ensures NoneLost(a, c, later)
  {
  }

  /** What receiving one block reports. */
  datatype BlockIngest = BlockIngest(accepted: nat, parentUnknown: Option<Hash>, raised: bool)

  /** `HeaderIngestResult`. */
  datatype HeaderReport = HeaderReport(
    received: int,
    parentUnknown: Option<Hash>,
    bestHash: Option<Hash>,
    bestHeight: Option<nat>,
    missing: seq<Hash>,
    needsMore: bool)

  /** What a fresh look at the stores reports. */
  function ReportOn(hash: HeaderHash, headers: HeaderStore, blocks: BlockStore, anchor: Option<Anchor>,
                    received: int, outcome: Outcome, needsMore: bool): Result<HeaderReport>
    requires Rooted(hash, headers)
  {
    var best := BestTip(headers);
    var unknown := if outcome.ParentUnknown? then Some(outcome.hash) else None;
    if best.None? then Ok(HeaderReport(received, unknown, None, None, [], needsMore))
    else
      var missing :- MissingScan(hash, headers, blocks, anchor, best.value.hash);
      Ok(HeaderReport(received, unknown, Some(best.value.hash), Some(best.value.height), missing, needsMore))
  }

  class SyncManager {
    const hash: HeaderHash
    const p: Params
    const anchor: Option<Anchor>
    var headers: HeaderStore
    var blocks: BlockStore
    var tip: Option<Hash>
    var invalid: set<Hash>
    var pool: Pool
    var missingCache: MissingCache
    var readyCache: ReadyCache
    var inflight: Inflight
    var stalled: Counts
    var served: Counts

    ghost predicate ValidBut(waived: Option<Hash>)
      reads this`headers, this`blocks, this`tip, this`pool, this`missingCache, this`readyCache
    {
      && StoresOk(hash, headers, blocks, tip)
      && PoolOk(hash, pool, blocks, waived)
      && MissingCacheOk(hash, headers, blocks, anchor, missingCache)
      && ReadyCacheOk(hash, headers, blocks, anchor, readyCache)
    }

    ghost predicate Valid()
      reads this`headers, this`blocks, this`tip, this`pool, this`missingCache, this`readyCache
    {
      ValidBut(None)
    }

    /** A manager over the node's stores, whatever sound state they are in. */
    constructor (hash: HeaderHash, p: Params, anchor: Option<Anchor>, headers: HeaderStore, blocks: BlockStore, tip: Option<Hash>)
      requires StoresOk(hash, headers, blocks, tip)
      ensures Valid() && this.headers == headers && this.blocks == blocks && this.tip == tip && invalid == {} && pool == EMPTY_POOL
      ensures inflight == map[] && stalled == map[] && served == map[]
      ensures this.hash == hash && this.p == p && this.anchor == anchor
    {
      this.hash, this.p, this.anchor := hash, p, anchor;
      this.headers, this.blocks, this.tip, invalid, pool := headers, blocks, tip, {}, EMPTY_POOL;
      missingCache, readyCache := map[], map[];
      inflight, stalled, served := map[], map[], map[];
    }

    method ClearCaches()
      modifies this`missingCache, this`readyCache
      ensures missingCache == map[] && readyCache == map[]
    {
      missingCache, readyCache := map[], map[];
    }

    method SelectAbsent(path: seq<Hash>) returns (missing: seq<Hash>)
      ensures missing == Absent(path, blocks)
    {
      missing := [];
      var k := 0;
      while k < |path|
        invariant 0 <= k <= |path|
        invariant missing + Absent(path[k..], blocks) == Absent(path, blocks)
      {
        assert path[k..][0] == path[k] && path[k..][1..] == path[k + 1..];
        if path[k] !in blocks { missing := missing + [path[k]]; }
        k := k + 1;
      }
      assert path[k..] == [];
    }

    /** The memoized answer is always the fresh one. */
    method MissingBlocksForTip(tipHash: Hash) returns (r: Result<seq<Hash>>)
      requires Valid()
      modifies this`missingCache
      ensures Valid()
      ensures r == MissingScan(hash, headers, blocks, anchor, tipHash)
    {
      hide PoolOk, ReadyScan, Absent;
      var key := (tipHash, tip);
      if key in missingCache { return Ok(missingCache[key]); }
      var path := PathToRoot(hash, headers, tipHash);
      if path.Err? { return path; }
      var above := AboveAnchor(path.value, anchor);
      if above.Err? { return above; }
      var missing := SelectAbsent(above.value);
      missingCache := map[key := missing];
      return Ok(missing);
    }

    /** The walk over the stored prefix of a path. */
    method StoredPrefix(path: seq<Hash>, start: Option<Hash>) returns (r: Option<Hash>)
      ensures r == LastStored(path, blocks, start)
    {
      r := start;
      var k := 0;
      while k < |path| && path[k] in blocks
        invariant 0 <= k <= |path|
        invariant LastStored(path, blocks, start) == LastStored(path[k..], blocks, r)
      {
        assert path[k..][0] == path[k] && path[k..][1..] == path[k + 1..];
        r := Some(path[k]);
        k := k + 1;
      }
    }

    /** One candidate of the ready-tip scan. */
    method ReadyCandidate(candidate: HeaderRecord) returns (r: Option<Hash>)
      requires StoresOk(hash, headers, blocks, tip) && candidate.hash in headers
      ensures r == ReadyFor(hash, headers, blocks, anchor, tip, invalid, candidate)
    {
      hide Path, Rooted, Improves, AboveAnchor;
      if !Improves(headers, tip, candidate) { return None; }
      var path := PathToRoot(hash, headers, candidate.hash);
      var above := AboveAnchor(path.value, anchor);
      if above.Err? { return None; }
      if exists h :: h in above.value && h in invalid { return None; }
      r := StoredPrefix(above.value, if anchor.Some? then Some(anchor.value.hash) else None);
      if r.None? || r.value in invalid || r.value !in headers || !Improves(headers, tip, headers[r.value]) {
        r := None;
      }
    }

    /** The memoized ready tip is always the fresh one. */
    method BestReadyTip() returns (r: Option<Hash>)
      requires Valid()
      modifies this`readyCache
      ensures Valid()
      ensures r == ReadyScan(hash, headers, blocks, anchor, tip, invalid)
    {
      hide ReadyFor, CandidateTips, PoolOk, MissingScan;
      CandidatesKnown(hash, headers);
      var candidates := CandidateTips(headers);
      if candidates == [] { return None; }
      var key := (candidates[0].hash, tip, invalid);
      if key in readyCache { return readyCache[key]; }
      r := None;
      var k := 0;
      while k < |candidates|
        invariant 0 <= k <= |candidates|
        invariant r.None?
        invariant ReadyScan(hash, headers, blocks, anchor, tip, invalid)
                  == ReadyFrom(hash, headers, blocks, anchor, tip, invalid, candidates, k)
      {
        r := ReadyCandidate(candidates[k]);
        if r.Some? { break; }
        k := k + 1;
      }
      readyCache := map[key := r];
    }

    /** The loop of `ingest_headers`. */
    method IngestBatch(batch: seq<BlockHeader>) returns (outcome: Outcome, stored: nat)
      requires Valid()
      modifies this`headers, this`missingCache, this`readyCache
      ensures Valid()
      ensures (headers, outcome) == Ingest(hash, old(headers), None, batch, 0, p)
      ensures old(headers).Keys <= headers.Keys && stored == |headers| - |old(headers)|
    {
      hide PoolOk, Judge, MissingScan, ReadyScan;
      stored := 0;
      if batch == [] { return Done, 0; }
      ClearCaches();
      var previous: Option<BlockHeader> := None;
      var k := 0;
      while k < |batch|
        invariant 0 <= k <= |batch|
        invariant Rooted(hash, headers) && missingCache == map[] && readyCache == map[]
        invariant Ingest(hash, old(headers), None, batch, 0, p) == Ingest(hash, headers, previous, batch, k, p)
        invariant old(headers).Keys <= headers.Keys && stored == |headers| - |old(headers)|
      {
        var verdict := Judge(hash, headers, previous, batch[k], p);
        StoreRooted(hash, headers, previous, batch[k], p);
        NewRecord(hash, headers, previous, batch[k], p);
        match verdict {
          case Refused(o) => return o, stored;
          case Stored(r) =>
            headers := headers[r.hash := r];
            stored := stored + 1;
          case Known =>
        }
        previous := Some(batch[k]);
        k := k + 1;
      }
      outcome := Done;
    }

    /** `ingest_headers`: the batch, then the report on the best tip; nothing is reported when the batch raises. */
    method IngestHeaders(batch: seq<BlockHeader>, maxHeaders: int) returns (outcome: Outcome, report: Result<HeaderReport>)
      requires Valid()
      modifies this`headers, this`missingCache, this`readyCache
      ensures Valid()
      ensures (headers, outcome) == Ingest(hash, old(headers), None, batch, 0, p)
      ensures old(headers).Keys <= headers.Keys
      ensures outcome == Raised ==> report.Err?
      ensures outcome != Raised ==>
        report == ReportOn(hash, headers, blocks, anchor, |headers| - |old(headers)|, outcome, |batch| >= maxHeaders)
    {
      hide ValidBut, Ingest, BestTip, MissingScan;
      var stored;
      outcome, stored := IngestBatch(batch);
      if outcome == Raised { return outcome, Err(Malformed); }
      var best := BestTip(headers);
      var unknown := if outcome.ParentUnknown? then Some(outcome.hash) else None;
      if best.None? { return outcome, Ok(HeaderReport(stored, unknown, None, None, [], |batch| >= maxHeaders)); }
      var missing := MissingBlocksForTip(best.value.hash);
      if missing.Err? { return outcome, Err(missing.fault); }
      report := Ok(HeaderReport(stored, unknown, Some(best.value.hash), Some(best.value.height), missing.value, |batch| >= maxHeaders));
    }

    /** What the scan offers for activation, when the best header chain is an improvement. */
    ghost function Offered(): Option<Hash>
      requires StoresOk(hash, headers, blocks, tip)
      reads this`headers, this`blocks, this`tip, this`invalid
    {
      if BestTip(headers).None? || !Improves(headers, tip, BestTip(headers).value) then None
      else ReadyScan(hash, headers, blocks, anchor, tip, invalid)
    }

    /**
     * `activate_best_chain_if_ready`; `activates` says which tips the node's validation lets through.
     * The offered tip becomes the active one, or its blocks off the active chain become invalid.
     * The code checks the offer once more; `Offer` shows that those checks cannot fail.
     */
    method ActivateBestChain(activates: Hash -> bool) returns (raised: bool)
      requires Valid()
      modifies this`tip, this`invalid, this`missingCache, this`readyCache
      ensures Valid()
      ensures raised == (old(Offered()).Some? && !activates(old(Offered()).value))
      ensures tip == if old(Offered()).Some? && !raised then old(Offered()) else old(tip)
      ensures old(Offered()).Some? ==> Activatable(hash, headers, blocks, anchor, old(tip), old(invalid), old(Offered()).value)
      ensures invalid == if raised then old(invalid) + OffChain(hash, headers, old(tip), old(Offered()).value) else old(invalid)
    {
      hide PoolOk, MissingScan, CandidateTips, Activatable, Improves, BestTip, ReadyScan, OffChain;
      var best := BestTip(headers);
      if best.None? || !Improves(headers, tip, best.value) { return false; }
      var ready := BestReadyTip();
      if ready.None? { return false; }
      Offer(ready.value);
      if activates(ready.value) {
        tip := ready;
        return false;
      }
      var off := MarkInvalid(ready.value);
      invalid := invalid + off;
      readyCache := map[];
      return true;
    }

    lemma Offer(h: Hash)
      requires Valid() && ReadyScan(hash, headers, blocks, anchor, tip, invalid) == Some(h)
      ensures h in headers && Activatable(hash, headers, blocks, anchor, tip, invalid, h)
    {
      hide PoolOk, MissingScan, CandidateTips, MissingCacheOk, ReadyCacheOk;
      CandidatesKnown(hash, headers);
      ReadyActivatable(hash, headers, blocks, anchor, tip, invalid, CandidateTips(headers), 0);
    }

    /** The blocks on the path to a failed tip that are not on the active chain. */
    method MarkInvalid(failed: Hash) returns (off: set<Hash>)
      requires StoresOk(hash, headers, blocks, tip) && failed in headers
      ensures off == OffChain(hash, headers, tip, failed)
    {
      hide Path;
      var path := PathToRoot(hash, headers, failed);
      var current: seq<Hash> := [];
      if tip.Some? {
        var active := PathToRoot(hash, headers, tip.value);
        current := active.value;
      }
      off := set h | h in path.value && h !in current;
    }

    /** `_remember_orphan`. */
    method RememberOrphan(block: Block)
      requires Valid()
      requires block.header.previousHash != ZERO_HASH && block.header.previousHash !in blocks
      modifies this`pool
      ensures Valid()
      ensures (block.header.previousHash, hash(block.header)) in Waiting(pool)
      ensures |pool.order| <= MAX_ORPHAN_BUCKETS
    {
      hide Remember, Waiting, MissingCacheOk, ReadyCacheOk, StoresOk, Without;
      RememberKeeps(hash, pool, blocks, block);
      RememberedIsPooled(hash, pool, blocks, block);
      pool := Remember(pool, block.header.previousHash, hash(block.header), block);
      while |pool.order| > MAX_ORPHAN_BUCKETS
        invariant pool.order != []
        invariant |pool.order| > MAX_ORPHAN_BUCKETS ==>
          pool == Remember(old(pool), block.header.previousHash, hash(block.header), block)
        invariant |pool.order| <= MAX_ORPHAN_BUCKETS ==>
          PoolOk(hash, pool, blocks, None) && (block.header.previousHash, hash(block.header)) in Waiting(pool)
        decreases |pool.order|
      {
        pool := DropOldest(pool);
      }
    }

    /**
     * `receive_block`. When no activation raises, it reports exactly the blocks it stored, loses no
     * pooled block, and leaves none waiting for a stored parent.
     */
    method ReceiveBlock(block: Block, activates: Hash -> bool) returns (r: BlockIngest)
      requires Valid()
      modifies this
      ensures Valid()
      ensures Advances(old(headers), old(blocks), old(inflight), headers, blocks, inflight,
                       {hash(block.header)} + Children(old(Waiting(pool))))
      ensures !r.raised ==> r.accepted == |blocks| - |old(blocks)|
      ensures !r.raised ==> (hash(block.header) in blocks <==> r.parentUnknown.None?)
      ensures r.parentUnknown.Some? ==>
        !r.raised && blocks == old(blocks) && r.parentUnknown == Some(block.header.previousHash)
        && (block.header.previousHash, hash(block.header)) in Waiting(pool)
      ensures IsRoot(block.header) || block.header.previousHash in old(headers) || hash(block.header) in old(blocks) ==>
        r.parentUnknown.None? && Waiting(pool) <= old(Waiting(pool))
      ensures !r.raised && r.parentUnknown.None? ==> NoneLost(old(Waiting(pool)), Waiting(pool), blocks)
      ensures !r.raised && r.parentUnknown.None? ==> DescendantsIn(old(pool), hash(block.header), blocks)
      decreases Waiting(pool), 2
    {
      hide ValidBut, Waiting, IsRoot, DescendantsIn, NoneLost, Children;
      var h := hash(block.header);
      Forget();
      ClearBlockRequest(h);
      if h in blocks {
        KnownHeader(h);
        var raised := Activate(activates);
        if raised { return BlockIngest(0, None, true); }
        Waive(h);
        r := AcceptPendingChildren(h, activates);
        if !r.raised { Adopted(old(pool), h); }
        return;
      }
      var parent := block.header.previousHash;
      if !IsRoot(block.header) && parent !in headers {
        NotRoot(block.header);
        KnownHeader(parent);
        RememberOrphan(block);
        return BlockIngest(0, Some(parent), false);
      }
      var filed := FileBlock(block);
      if !filed { return BlockIngest(0, None, true); }
      r := AcceptPendingChildren(h, activates);
      if r.raised { return; }
      r := r.(accepted := r.accepted + 1);
      var raised := Activate(activates);
      if raised { return r.(raised := true); }
      Adopted(old(pool), h);
    }

    /** Activation, as far as receiving blocks depends on it. */
    method Activate(activates: Hash -> bool) returns (raised: bool)
      requires Valid()
      modifies this`tip, this`invalid, this`missingCache, this`readyCache
      ensures Valid()
    {
      raised := ActivateBestChain(activates);
    }

    /** Drops the memoized scans. */
    method Forget()
      requires Valid()
      modifies this`missingCache, this`readyCache
      ensures Valid() && missingCache == map[] && readyCache == map[]
    {
      ClearCaches();
    }

    lemma KnownHeader(h: Hash)
      requires Valid()
      ensures h in blocks ==> h in headers
    {
    }

    /** Nothing lost and nothing left waiting for a stored parent: all pooled descendants are in. */
    lemma Adopted(before: Pool, root: Hash)
      requires Valid() && root in blocks && NoneLost(Waiting(before), Waiting(pool), blocks)
      ensures DescendantsIn(before, root, blocks)
    {
      AllDescendantsStored(hash, before, pool, blocks, root);
    }

    lemma Waive(h: Hash)
      requires Valid()
      ensures ValidBut(Some(h))
    {
      WaiveKeeps(hash, pool, blocks, h);
    }

    /** Stores a block, and its header when it is new, without the header-only checks; fails on unusable bits. */
    method FileBlock(block: Block) returns (filed: bool)
      requires Valid() && missingCache == map[] && readyCache == map[]
      requires hash(block.header) !in blocks
      requires IsRoot(block.header) || block.header.previousHash in headers
      modifies this`headers, this`blocks
      ensures !filed ==> Valid() && headers == old(headers) && blocks == old(blocks)
      ensures filed ==> ValidBut(Some(hash(block.header))) && hash(block.header) in headers
      ensures filed ==> blocks == old(blocks)[hash(block.header) := block] && |blocks| == |old(blocks)| + 1
      ensures old(headers).Keys <= headers.Keys && old(blocks).Keys <= blocks.Keys
    {
      hide PoolOk, MissingScan, ReadyScan, IsRoot, StoresOk, HeaderWork, RecordFor;
      var h := hash(block.header);
      if h !in headers {
        if HeaderWork(block.header.bits).Err? { return false; }
        HeaderFiled(hash, headers, blocks, tip, block.header);
        headers := headers[h := RecordFor(hash, headers, block.header)];
      }
      BlockFiled(hash, headers, blocks, tip, block);
      StoreKeeps(hash, pool, blocks, h, block);
      blocks := blocks[h := block];
      assert blocks.Keys == old(blocks).Keys + {h};
      return true;
    }

    /** `_accept_pending_children`: the bucket is taken, then its blocks are received in hash order. */
    method AcceptPendingChildren(parent: Hash, activates: Hash -> bool) returns (r: BlockIngest)
      requires ValidBut(Some(parent)) && parent in headers
      modifies this
      ensures Valid()
      ensures Advances(old(headers), old(blocks), old(inflight), headers, blocks, inflight, Children(old(Waiting(pool))))
      ensures r.parentUnknown.None? && Waiting(pool) <= old(Waiting(pool))
      ensures !r.raised ==> r.accepted == |blocks| - |old(blocks)|
      ensures !r.raised ==> NoneLost(old(Waiting(pool)), Waiting(pool), blocks)
      decreases Waiting(pool), 1
    {
      hide ValidBut, Waiting, SortedTexts, NoneLost, Children, Advances;
      var pending := TakeBucket(parent);
      ghost var taken := Waiting(pool);
      ChildrenWithin(taken, old(Waiting(pool)));
      assert |SortedTexts(pending.Keys)| > 0 ==> SortedTexts(pending.Keys)[0] in pending.Keys;
      r := ReceiveChildren(parent, pending, SortedTexts(pending.Keys), old(Waiting(pool)), Children(old(Waiting(pool))), activates);
      if r.raised { return; }
      PendingStored(old(Waiting(pool)), taken, Waiting(pool), pending, blocks);
    }

    method ReceiveChildren(parent: Hash, pending: BlockStore, children: seq<Hash>, ghost bound: set<(Hash, Hash)>, ghost source: set<Hash>, activates: Hash -> bool)
      returns (r: BlockIngest)
      requires Valid() && parent in headers
      requires forall c :: c in children <==> c in pending
      requires forall c :: c in pending ==> hash(pending[c].header) == c && pending[c].header.previousHash == parent
      requires children != [] ==> Waiting(pool) < bound
      requires pending.Keys <= source && Children(Waiting(pool)) <= source
      modifies this
      ensures Valid()
      ensures Advances(old(headers), old(blocks), old(inflight), headers, blocks, inflight, source)
      ensures r.parentUnknown.None? && Waiting(pool) <= old(Waiting(pool))
      ensures !r.raised ==> r.accepted == |blocks| - |old(blocks)| && pending.Keys <= blocks.Keys
      ensures !r.raised ==> NoneLost(old(Waiting(pool)), Waiting(pool), blocks)
      decreases bound, 0
    {
      hide ValidBut, Waiting, IsRoot, NoneLost, DescendantsIn, OnlyRemoves, Advances, Children;
      StartsEmpty(blocks);
      ghost var waiting, requests := Waiting(pool), inflight;
      AdvanceStep(headers, blocks, requests, headers, blocks, requests, headers, blocks, requests, source);
      var accepted: nat, k := 0, 0;
      while k < |children|
        invariant 0 <= k <= |children| && Valid() && parent in headers
        invariant Advances(old(headers), old(blocks), requests, headers, blocks, inflight, source)
        invariant Waiting(pool) <= waiting && NoneLost(waiting, Waiting(pool), blocks)
        invariant accepted == |blocks| - |old(blocks)|
        invariant forall j :: 0 <= j < k ==> children[j] in blocks
      {
        label Child:
        var child := ReceiveChild(parent, pending[children[k]], waiting, bound, source, activates);
        AdvanceStep(old(headers), old(blocks), requests, old@Child(headers), old@Child(blocks), old@Child(inflight), headers, blocks, inflight, source);
        if child.raised { return BlockIngest(accepted, None, true); }
        accepted := accepted + child.accepted;
        k := k + 1;
      }
      return BlockIngest(accepted, None, false);
    }

    /** One step of the loop above: a pooled child whose parent is known. */
    method ReceiveChild(parent: Hash, child: Block, ghost waiting: set<(Hash, Hash)>, ghost bound: set<(Hash, Hash)>, ghost source: set<Hash>, activates: Hash -> bool)
      returns (r: BlockIngest)
      requires Valid() && parent in headers && child.header.previousHash == parent
      requires Waiting(pool) <= waiting < bound && NoneLost(waiting, Waiting(pool), blocks)
      requires hash(child.header) in source && Children(waiting) <= source
      modifies this
      ensures Valid() && parent in headers
      ensures Advances(old(headers), old(blocks), old(inflight), headers, blocks, inflight, source)
      ensures Waiting(pool) <= waiting
      ensures !r.raised ==> r.accepted == |blocks| - |old(blocks)| && hash(child.header) in blocks
      ensures !r.raised ==> NoneLost(waiting, Waiting(pool), blocks)
      decreases waiting, 3
    {
      hide ValidBut, Waiting, IsRoot, NoneLost, DescendantsIn, OnlyRemoves, Children;
      ChildrenWithin(Waiting(pool), waiting);
      r := ReceiveBlock(child, activates);
      if !r.raised { NoneLostStep(waiting, old(Waiting(pool)), Waiting(pool), old(blocks), blocks); }
    }

    method TakeBucket(parent: Hash) returns (pending: BlockStore)
      requires ValidBut(Some(parent))
      modifies this`pool
      ensures Valid()
      ensures forall c :: c in pending ==> hash(pending[c].header) == c && pending[c].header.previousHash == parent
      ensures Waiting(pool) <= old(Waiting(pool)) && (pending.Keys != {} ==> Waiting(pool) < old(Waiting(pool)))
      ensures forall w :: w in old(Waiting(pool)) ==> w in Waiting(pool) || w.1 in pending
      ensures pending.Keys <= Children(old(Waiting(pool)))
    {
      hide MissingScan, ReadyScan, Waiting;
      pending := Get(pool.buckets, parent, map[]);
      TakeKeeps(hash, pool, blocks, parent);
      forall c | c in pending ensures hash(pending[c].header) == c && pending[c].header.previousHash == parent {
        ChildIs(hash, pool, blocks, Some(parent), parent, c);
      }
      BucketChildren(pool, parent);
      pool := Take(pool, parent);
    }

    // ---- block downloads ----

    /** `clear_block_request`. */
    method ClearBlockRequest(h: Hash)
      modifies this`inflight
      ensures inflight == old(inflight) - {h}
      ensures Step(Clear(h), old(inflight), inflight)
    {
      inflight := inflight - {h};
    }

    /** The loop of `reserve_block_downloads`; `stop` is the first window block left without a request. */
    method ReserveWindow(window: seq<Hash>, peers: seq<Text>, peerHeights: map<Text, int>, cap: nat, timeout: real, now: real)
      returns (granted: seq<Assigned>, ghost stop: nat)
      modifies this`inflight, this`served
      ensures Reserved(window, blocks.Keys, headers, old(inflight), inflight, peers, peerHeights, granted, now, timeout)
      ensures NeverOverfills(old(inflight), inflight, cap)
      ensures ServedBy(old(served), served, granted)
      ensures FirstUncovered(window, blocks.Keys, inflight, stop)
      ensures forall i :: 0 <= i < |granted| ==> granted[i].block in window[..stop]
      ensures stop < |window| && AllMissing(window, blocks.Keys) ==>
        NoRoom(inflight, peers, peerHeights, HeightOf(headers, window[stop]), cap)
      ensures AllMissing(window, blocks.Keys) ==>
        Step(Reserve(Ask(peers, peerHeights, headers, cap, now, timeout), granted), old(inflight), inflight)
    {
      hide Reserved, NeverOverfills, Load, NoRoom, Tall, HeightOf, RankPeer, PeerRankLe, ServedBy, CountsCover, CountsExact, Step, Filling,
        AllMissing, FirstUncovered;
      ghost var ask := Ask(peers, peerHeights, headers, cap, now, timeout);
      var counts := CountByPeer(peers, inflight);
      FillStart(window, blocks.Keys, ask, inflight, counts, served);
      granted, stop := [], 0;
      var k := 0;
      while k < |window|
        invariant 0 <= k <= |window| && stop == k
        invariant Filling(window, blocks.Keys, ask, old(inflight), inflight, counts, old(served), served, granted, k)
      {
        var h := window[k];
        if h in blocks {
          FillDrop(window, blocks.Keys, ask, old(inflight), inflight, counts, old(served), served, granted, k);
          inflight := inflight - {h};
        } else if h in inflight {
          FillSkip(window, blocks.Keys, ask, old(inflight), inflight, counts, old(served), served, granted, k);
        } else {
          var peer := PickPeer(peers, peerHeights, HeightOf(headers, h), counts, stalled, cap);
          if peer.None? {
            FillStops(window, blocks.Keys, ask, old(inflight), inflight, counts, old(served), served, granted, k);
            return;
          }
          var a := Assigned(h, peer.value, now + timeout, 1);
          FillGrant(window, blocks.Keys, ask, old(inflight), inflight, counts, old(served), served, granted, k, a);
          inflight := inflight[h := Request(peer.value, now, now + timeout, 1)];
          counts := counts[peer.value := counts[peer.value] + 1];
          served := served[peer.value := Get(served, peer.value, 0) + 1];
          granted := granted + [a];
        }
        k, stop := k + 1, stop + 1;
      }
      FillStops(window, blocks.Keys, ask, old(inflight), inflight, counts, old(served), served, granted, k);
    }

    /** `reserve_block_downloads`. */
    method ReserveBlockDownloads(peers: seq<Text>, peerHeights: map<Text, int>, maxWindow: int, maxInflight: int, timeout: real, now: real)
      returns (r: Result<seq<Assigned>>, ghost window: seq<Hash>, ghost stop: nat)
      requires Valid()
      modifies this`inflight, this`served, this`missingCache
      ensures Valid()
      ensures NeverOverfills(old(inflight), inflight, Max(1, maxInflight))
      ensures r.Ok? ==> ServedBy(old(served), served, r.value)
      ensures r.Err? ==> inflight == old(inflight)
      ensures r.Ok? ==> Step(Reserve(Ask(peers, peerHeights, headers, Max(1, maxInflight), now, timeout), r.value), old(inflight), inflight)
      ensures r.Ok? ==> Reserved(window, blocks.Keys, headers, old(inflight), inflight, peers, peerHeights, r.value, now, timeout)
      ensures r.Ok? && peers != [] && BestTip(headers).Some? && Improves(headers, tip, BestTip(headers).value) ==>
        var missing := MissingScan(hash, headers, blocks, anchor, BestTip(headers).value.hash);
        && missing.Ok? && window == missing.value[..Min(Max(1, maxWindow), |missing.value|)]
        && FirstUncovered(window, blocks.Keys, inflight, stop)
        && (stop < |window| ==> NoRoom(inflight, peers, peerHeights, HeightOf(headers, window[stop]), Max(1, maxInflight)))
      ensures r.Ok? && (peers == [] || BestTip(headers).None? || !Improves(headers, tip, BestTip(headers).value)) ==> r.value == []
    {
      hide Reserved, NeverOverfills, NoRoom, HeightOf, BestTip, Improves, ValidBut, FirstUncovered, MissingScan, ServedBy;
      NoneServed(served);
      hide LegalGrants, AfterGrants;
      NothingGranted(inflight, Ask(peers, peerHeights, headers, Max(1, maxInflight), now, timeout));
      window, stop := [], 0;
      NothingReserved([], blocks.Keys, headers, inflight, peers, peerHeights, Max(1, maxInflight), now, timeout);
      if peers == [] { return Ok([]), window, stop; }
      var best := BestTip(headers);
      if best.None? || !Improves(headers, tip, best.value) { return Ok([]), window, stop; }
      var missing := MissingBlocksForTip(best.value.hash);
      if missing.Err? { return Err(missing.fault), window, stop; }
      window := missing.value[..Min(Max(1, maxWindow), |missing.value|)];
      WindowMissing(best.value.hash, window);
      if missing.value == [] {
        FirstOfNone(blocks.Keys, inflight);
        return Ok([]), [], 0;
      }
      var wanted := missing.value[..Min(Max(1, maxWindow), |missing.value|)];
      var granted: seq<Assigned>;
      granted, stop := ReserveWindow(wanted, peers, peerHeights, Max(1, maxInflight), timeout, now);
      r := Ok(granted);
    }

    lemma WindowMissing(t: Hash, window: seq<Hash>)
      requires Valid()
      requires MissingScan(hash, headers, blocks, anchor, t).Ok? && window <= MissingScan(hash, headers, blocks, anchor, t).value
      ensures AllMissing(window, blocks.Keys)
    {
      hide PoolOk, ReadyScan, MissingCacheOk, Absent;
      var above := AboveAnchor(Path(hash, headers, t), anchor);
      AbsentIs(above.value, blocks);
      forall i | 0 <= i < |window| ensures window[i] !in blocks.Keys {
        assert window[i] in Absent(above.value, blocks);
      }
    }

    /** `expire_block_requests`: overdue requests go, each charged once to its peer. */
    method ExpireBlockRequests(now: real) returns (expired: Inflight)
      modifies this`inflight, this`stalled
      ensures inflight == map h | h in old(inflight) && old(inflight)[h].deadline > now :: old(inflight)[h]
      ensures expired == map h | h in old(inflight) && old(inflight)[h].deadline <= now :: old(inflight)[h]
      ensures Step(Expire(now), old(inflight), inflight)
      ensures forall q :: Get(stalled, q, 0) == Get(old(stalled), q, 0) + Load(expired, q)
    {
      hide Load, Kept, Swept;
      ghost var keep := (r: Request) => r.deadline > now;
      expired := map[];
      var left := inflight.Keys;
      NoLoad(expired);
      SweepStarts(inflight, keep);
      while left != {}
        invariant left <= old(inflight).Keys
        invariant inflight == Kept(old(inflight), left, keep) && expired == Swept(old(inflight), left, keep)
        invariant forall q :: Get(stalled, q, 0) == Get(old(stalled), q, 0) + Load(expired, q)
        decreases left
      {
        var h :| h in left;
        SweepStep(old(inflight), left, h, keep);
        var request := inflight[h];
        if request.deadline <= now {
          forall q ensures Load(expired[h := request], q) == Load(expired, q) + (if request.peer == q then 1 else 0) {
            LoadAdd(expired, h, request, q);
          }
          expired := expired[h := request];
          inflight := inflight - {h};
          stalled := stalled[request.peer := Get(stalled, request.peer, 0) + 1];
        }
        left := left - {h};
      }
      SweepEnds(old(inflight), keep);
    }

    /** `release_unavailable_peer_requests`: exactly the requests at the active peers stay. */
    method ReleaseUnavailable(active: seq<Text>) returns (released: Inflight)
      modifies this`inflight
      ensures inflight == map h | h in old(inflight) && old(inflight)[h].peer in active :: old(inflight)[h]
      ensures released == map h | h in old(inflight) && old(inflight)[h].peer !in active :: old(inflight)[h]
      ensures Step(Operation.ReleaseUnavailable(active), old(inflight), inflight)
    {
      hide Kept, Swept;
      ghost var keep := (r: Request) => r.peer in active;
      released := map[];
      var left := inflight.Keys;
      SweepStarts(inflight, keep);
      while left != {}
        invariant left <= old(inflight).Keys
        invariant inflight == Kept(old(inflight), left, keep) && released == Swept(old(inflight), left, keep)
        decreases left
      {
        var h :| h in left;
        SweepStep(old(inflight), left, h, keep);
        if inflight[h].peer !in active {
          released := released[h := inflight[h]];
          inflight := inflight - {h};
        }
        left := left - {h};
      }
      SweepEnds(old(inflight), keep);
    }

    /** `release_peer_requests`: the peer is left without requests and the others keep theirs. */
    method ReleasePeer(peer: Text) returns (released: Inflight)
      modifies this`inflight
      ensures inflight == map h | h in old(inflight) && old(inflight)[h].peer != peer :: old(inflight)[h]
      ensures released == map h | h in old(inflight) && old(inflight)[h].peer == peer :: old(inflight)[h]
      ensures Step(Operation.ReleasePeer(peer), old(inflight), inflight)
    {
      hide Kept, Swept;
      ghost var keep := (r: Request) => r.peer != peer;
      released := map[];
      var left := inflight.Keys;
      SweepStarts(inflight, keep);
      while left != {}
        invariant left <= old(inflight).Keys
        invariant inflight == Kept(old(inflight), left, keep) && released == Swept(old(inflight), left, keep)
        decreases left
      {
        var h :| h in left;
        SweepStep(old(inflight), left, h, keep);
        if inflight[h].peer == peer {
          released := released[h := inflight[h]];
          inflight := inflight - {h};
        }
        left := left - {h};
      }
      SweepEnds(old(inflight), keep);
    }
  }

  ghost function Children(waiting: set<(Hash, Hash)>): set<Hash> {
    set w | w in waiting :: w.1
  }

  lemma ChildrenWithin(a: set<(Hash, Hash)>, b: set<(Hash, Hash)>)
    requires a <= b
    ensures Children(a) <= Children(b)
  {
  }

  lemma BucketChildren(pool: Pool, parent: Hash)
    ensures Get(pool.buckets, parent, map[]).Keys <= Children(Waiting(pool))
  {
    forall c | c in Get(pool.buckets, parent, map[]) ensures c in Children(Waiting(pool)) {
      assert (parent, c) in Waiting(pool);
    }
  }

  /** The stores only grow, new blocks come from `source`, and the requests in flight only shrink. */
  ghost predicate Advances(headers: HeaderStore, blocks: BlockStore, inflight: Inflight,
                           laterHeaders: HeaderStore, laterBlocks: BlockStore, laterInflight: Inflight, source: set<Hash>) {
    && headers.Keys <= laterHeaders.Keys
    && blocks.Keys <= laterBlocks.Keys <= blocks.Keys + source
    && OnlyRemoves(inflight, laterInflight)
  }

  lemma AdvanceStep(h0: HeaderStore, b0: BlockStore, f0: Inflight, h1: HeaderStore, b1: BlockStore, f1: Inflight,
                    h2: HeaderStore, b2: BlockStore, f2: Inflight, source: set<Hash>)
    ensures Advances(h0, b0, f0, h0, b0, f0, source)
    ensures Advances(h0, b0, f0, h1, b1, f1, source) && Advances(h1, b1, f1, h2, b2, f2, source) ==>
      Advances(h0, b0, f0, h2, b2, f2, source)
    ensures Advances(h1, b1, f1, h2, b2, f2, source) ==> b1.Keys <= b2.Keys
  {
  }

  lemma PendingStored(before: set<(Hash, Hash)>, taken: set<(Hash, Hash)>, after: set<(Hash, Hash)>, pending: BlockStore, blocks: BlockStore)
    requires forall w :: w in before ==> w in taken || w.1 in pending
    requires NoneLost(taken, after, blocks) && pending.Keys <= blocks.Keys
    ensures NoneLost(before, after, blocks)
  {
  }

  lemma StartsEmpty(blocks: BlockStore)
    ensures forall s: set<(Hash, Hash)> :: NoneLost(s, s, blocks)
  {
  }

  lemma NotRoot(header: BlockHeader)
    requires !IsRoot(header)
    ensures header.previousHash != ZERO_HASH
  {
  }

  lemma NewRecord(hash: HeaderHash, headers: HeaderStore, previous: Option<BlockHeader>, header: BlockHeader, p: Params)
    requires Rooted(hash, headers)
    ensures var v := Judge(hash, headers, previous, header, p);
            v.Stored? ==> v.record.hash !in headers && Store(headers, v) == headers[v.record.hash := v.record]
  {
    hide HeaderOk;
  }

  lemma HeaderFiled(hash: HeaderHash, headers: HeaderStore, blocks: BlockStore, tip: Option<Hash>, header: BlockHeader)
    requires StoresOk(hash, headers, blocks, tip) && hash(header) !in headers && HeaderWork(header.bits).Ok?
    requires IsRoot(header) || header.previousHash in headers
    ensures StoresOk(hash, headers[hash(header) := RecordFor(hash, headers, header)], blocks, tip)
  {
    hide Rooted, HeaderWork, RecordFor, IsRoot;
    AttachRooted(hash, headers, header);
  }

  lemma BlockFiled(hash: HeaderHash, headers: HeaderStore, blocks: BlockStore, tip: Option<Hash>, block: Block)
    requires StoresOk(hash, headers, blocks, tip) && hash(block.header) in headers
    ensures StoresOk(hash, headers, blocks[hash(block.header) := block], tip)
  {
    hide Rooted;
  }

  /** A block's header may be filed when its parent is known. */
  lemma AttachRooted(hash: HeaderHash, headers: HeaderStore, header: BlockHeader)
    requires Rooted(hash, headers) && hash(header) !in headers && HeaderWork(header.bits).Ok?
    requires IsRoot(header) || header.previousHash in headers
    ensures Rooted(hash, headers[hash(header) := RecordFor(hash, headers, header)])
  {
    var after := headers[hash(header) := RecordFor(hash, headers, header)];
    forall h | h in after ensures RecordRooted(hash, after, h) {
      if h in headers { assert RecordRooted(hash, headers, h); }
    }
  }
}
