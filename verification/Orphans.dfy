/** The orphan pool: blocks waiting for a parent, in insertion-ordered buckets (sync.py). */
module Orphans {
  import opened Prelude
  import opened Models
  import opened Headers

  const MAX_ORPHAN_BUCKETS := 256

  type BlockStore = map<Hash, Block>

  /** An `OrderedDict` of buckets: `order` lists the parent hashes, oldest first. */
  datatype Pool = Pool(order: seq<Hash>, buckets: map<Hash, BlockStore>)

  const EMPTY_POOL := Pool([], map[])

  ghost predicate BucketOk(hash: HeaderHash, parent: Hash, bucket: BlockStore) {
    && bucket != map[]
    && parent != ZERO_HASH
    && (forall c :: c in bucket ==> hash(bucket[c].header) == c && bucket[c].header.previousHash == parent)
  }

  /** A sound pool; `waived` names a bucket whose parent may have been stored already. */
  ghost predicate PoolOk(hash: HeaderHash, pool: Pool, blocks: BlockStore, waived: Option<Hash>) {
    && NoDuplicates(pool.order)
    && (forall h :: h in pool.order <==> h in pool.buckets)
    && |pool.order| <= MAX_ORPHAN_BUCKETS
    && (forall parent :: parent in pool.buckets ==> BucketOk(hash, parent, pool.buckets[parent]))
    && (forall parent :: parent in pool.buckets && parent in blocks ==> waived == Some(parent))
  }

  /** Who waits for whom: (parent, child) pairs. */
  ghost function Waiting(pool: Pool): set<(Hash, Hash)> {
    set parent, child | parent in pool.buckets && child in pool.buckets[parent] :: (parent, child)
  }

  function Without(order: seq<Hash>, h: Hash): (r: seq<Hash>)
    ensures |r| <= |order|
    ensures forall x :: x in r <==> x in order && x != h
    ensures NoDuplicates(order) ==> NoDuplicates(r)
  {
    if order == [] then []
    else
      assert NoDuplicates(order) ==> NoDuplicates(order[1..]);
      assert NoDuplicates(order) ==> order[0] !in order[1..];
      if order[0] == h then Without(order[1..], h) else [order[0]] + Without(order[1..], h)
  }

  /** `setdefault`, insert and `move_to_end`. */
  function Remember(pool: Pool, parent: Hash, child: Hash, block: Block): Pool {
    Pool(Without(pool.order, parent) + [parent], pool.buckets[parent := Get(pool.buckets, parent, map[])[child := block]])
  }

  /** `popitem(last=False)`. */
  function DropOldest(pool: Pool): Pool
    requires pool.order != []
  {
    Pool(pool.order[1..], pool.buckets - {pool.order[0]})
  }

  /** `pop(parent, {})`. */
  function Take(pool: Pool, parent: Hash): Pool {
    Pool(Without(pool.order, parent), pool.buckets - {parent})
  }

  lemma RememberBucket(hash: HeaderHash, pool: Pool, blocks: BlockStore, block: Block, q: Hash)
    requires PoolOk(hash, pool, blocks, None) && block.header.previousHash != ZERO_HASH
    requires q in Remember(pool, block.header.previousHash, hash(block.header), block).buckets
    ensures BucketOk(hash, q, Remember(pool, block.header.previousHash, hash(block.header), block).buckets[q])
  {
    hide Without;
    var after := Remember(pool, block.header.previousHash, hash(block.header), block);
    if q in pool.buckets { assert BucketOk(hash, q, pool.buckets[q]); }
    if q == block.header.previousHash { assert hash(block.header) in after.buckets[q]; }
  }

  lemma RememberOrder(hash: HeaderHash, pool: Pool, blocks: BlockStore, block: Block)
    requires PoolOk(hash, pool, blocks, None)
    ensures var after := Remember(pool, block.header.previousHash, hash(block.header), block);
            && after.order != [] && after.order[|after.order| - 1] == block.header.previousHash
            && |after.order| <= MAX_ORPHAN_BUCKETS + 1
            && NoDuplicates(after.order) && (forall h :: h in after.order <==> h in after.buckets)
            && (forall h :: h in DropOldest(after).order <==> h in DropOldest(after).buckets)
  {
    hide Without, BucketOk;
    var after := Remember(pool, block.header.previousHash, hash(block.header), block);
    var rest := DropOldest(after);
    forall h ensures h in rest.order <==> h in rest.buckets {
      assert h in after.order <==> h == after.order[0] || h in rest.order;
    }
  }

  lemma RememberKeeps(hash: HeaderHash, pool: Pool, blocks: BlockStore, block: Block)
    requires PoolOk(hash, pool, blocks, None)
    requires block.header.previousHash != ZERO_HASH && block.header.previousHash !in blocks
    ensures var after := Remember(pool, block.header.previousHash, hash(block.header), block);
            && after.order != []
            && (|after.order| <= MAX_ORPHAN_BUCKETS ==> PoolOk(hash, after, blocks, None))
            && (|after.order| > MAX_ORPHAN_BUCKETS ==> PoolOk(hash, DropOldest(after), blocks, None))
            && |after.order| <= MAX_ORPHAN_BUCKETS + 1
            && after.order[|after.order| - 1] == block.header.previousHash
  {
    hide Without, BucketOk;
    RememberOrder(hash, pool, blocks, block);
    var after := Remember(pool, block.header.previousHash, hash(block.header), block);
    forall q | q in after.buckets ensures BucketOk(hash, q, after.buckets[q]) {
      RememberBucket(hash, pool, blocks, block, q);
    }
  }

  /** The newest bucket survives the eviction, so the block just remembered is pooled. */
  lemma RememberedIsPooled(hash: HeaderHash, pool: Pool, blocks: BlockStore, block: Block)
    requires PoolOk(hash, pool, blocks, None)
    requires block.header.previousHash != ZERO_HASH && block.header.previousHash !in blocks
    ensures var after := Remember(pool, block.header.previousHash, hash(block.header), block);
            var kept := if |after.order| > MAX_ORPHAN_BUCKETS then DropOldest(after) else after;
            (block.header.previousHash, hash(block.header)) in Waiting(kept)
  {
    var parent := block.header.previousHash;
    var after := Remember(pool, parent, hash(block.header), block);
    RememberKeeps(hash, pool, blocks, block);
    if |after.order| > MAX_ORPHAN_BUCKETS {
      assert after.order[0] != parent;
    }
  }

  lemma TakeKeeps(hash: HeaderHash, pool: Pool, blocks: BlockStore, parent: Hash)
    requires PoolOk(hash, pool, blocks, Some(parent))
    ensures PoolOk(hash, Take(pool, parent), blocks, None)
    ensures Waiting(Take(pool, parent)) <= Waiting(pool)
    ensures parent in pool.buckets ==> Waiting(Take(pool, parent)) < Waiting(pool)
    ensures forall w :: w in Waiting(pool) ==> w in Waiting(Take(pool, parent)) || (w.0 == parent && parent in pool.buckets && w.1 in pool.buckets[parent])
  {
    var after := Take(pool, parent);
    forall q | q in after.buckets ensures BucketOk(hash, q, after.buckets[q]) {
      assert BucketOk(hash, q, pool.buckets[q]);
    }
    if parent in pool.buckets {
      assert BucketOk(hash, parent, pool.buckets[parent]);
      assert pool.buckets[parent].Keys != {};
      var c :| c in pool.buckets[parent];
      assert (parent, c) in Waiting(pool) && (parent, c) !in Waiting(after);
    }
  }

  /** Storing a block can only waive its own bucket. */
  lemma StoreKeeps(hash: HeaderHash, pool: Pool, blocks: BlockStore, h: Hash, block: Block)
    requires PoolOk(hash, pool, blocks, None)
    ensures PoolOk(hash, pool, blocks[h := block], Some(h))
  {
  }

  lemma WaiveKeeps(hash: HeaderHash, pool: Pool, blocks: BlockStore, h: Hash)
    requires PoolOk(hash, pool, blocks, None)
    ensures PoolOk(hash, pool, blocks, Some(h))
  {
  }

  /** A pooled child of a bucket. */
  lemma ChildIs(hash: HeaderHash, pool: Pool, blocks: BlockStore, waived: Option<Hash>, parent: Hash, child: Hash)
    requires PoolOk(hash, pool, blocks, waived) && parent in pool.buckets && child in pool.buckets[parent]
    ensures hash(pool.buckets[parent][child].header) == child && pool.buckets[parent][child].header.previousHash == parent
    ensures parent != ZERO_HASH
  {
    assert BucketOk(hash, parent, pool.buckets[parent]);
  }

  /** `block` is pooled under a chain of pooled blocks that starts at `root`. */
  ghost predicate Descends(pool: Pool, root: Hash, chain: seq<Hash>)
    decreases |chain|
  {
    if chain == [] then true
    else (root, chain[0]) in Waiting(pool) && Descends(pool, chain[0], chain[1..])
  }

  /**
   * When nothing pooled was dropped and no bucket waits for a stored block, every pooled
   * descendant of a stored block has been stored.
   */
  lemma {:induction false} DescendantsStored(hash: HeaderHash, before: Pool, after: Pool, blocks: BlockStore, root: Hash, chain: seq<Hash>)
    requires PoolOk(hash, after, blocks, None) && root in blocks
    requires forall w :: w in Waiting(before) ==> w in Waiting(after) || w.1 in blocks
    requires Descends(before, root, chain)
    ensures forall i :: 0 <= i < |chain| ==> chain[i] in blocks
    decreases |chain|
  {
    if chain != [] {
      assert (root, chain[0]) in Waiting(before);
      assert (root, chain[0]) !in Waiting(after);
      DescendantsStored(hash, before, after, blocks, chain[0], chain[1..]);
      forall i | 0 <= i < |chain| ensures chain[i] in blocks {
        if i > 0 { assert chain[i] == chain[1..][i - 1]; }
      }
    }
  }

  /** Every pooled descendant of `root` is stored. */
  ghost predicate DescendantsIn(pool: Pool, root: Hash, blocks: BlockStore) {
    forall chain :: Descends(pool, root, chain) ==> forall i :: 0 <= i < |chain| ==> chain[i] in blocks
  }

  lemma AllDescendantsStored(hash: HeaderHash, before: Pool, after: Pool, blocks: BlockStore, root: Hash)
    requires PoolOk(hash, after, blocks, None) && root in blocks
    requires forall w :: w in Waiting(before) ==> w in Waiting(after) || w.1 in blocks
    ensures DescendantsIn(before, root, blocks)
  {
    hide PoolOk, Waiting;
    forall chain | Descends(before, root, chain) ensures forall i :: 0 <= i < |chain| ==> chain[i] in blocks {
      DescendantsStored(hash, before, after, blocks, root, chain);
    }
  }
}
