/** Block download scheduling: per-peer loads, peer choice and what a reservation promises (sync.py). */
module Downloads {
  import opened Prelude
  import opened Models
  import opened Sorting
  import opened Assignment
  import opened Headers

  /** A tracked in-flight request; the source also repeats the block hash it is keyed by. */
  datatype Request = Request(peer: Text, requestedAt: real, deadline: real, attempt: nat)

  datatype Assigned = Assigned(block: Hash, peer: Text, deadline: real, attempt: nat)

  type Inflight = map<Hash, Request>

  /** The requests outstanding at one peer. */
  ghost function Load(inflight: Inflight, peer: Text): nat {
    |set h | h in inflight && inflight[h].peer == peer|
  }

  ghost predicate CapRespected(inflight: Inflight, cap: nat) {
    forall peer :: Load(inflight, peer) <= cap
  }

  /** No peer's load was raised beyond the cap. */
  ghost predicate NeverOverfills(before: Inflight, after: Inflight, cap: nat) {
    forall peer :: Load(after, peer) <= Max(Load(before, peer), cap)
  }

  ghost predicate OnlyRemoves(before: Inflight, after: Inflight) {
    forall h :: h in after ==> h in before && after[h] == before[h]
  }

  /** Dropping requests never overfills a peer. */
  lemma RemovalNeverOverfills(before: Inflight, after: Inflight, cap: nat)
    requires OnlyRemoves(before, after)
    ensures NeverOverfills(before, after, cap)
  {
    forall peer ensures Load(after, peer) <= Max(Load(before, peer), cap) {
      LoadMonotone(before, after, peer);
    }
  }

  lemma LoadMonotone(before: Inflight, after: Inflight, peer: Text)
    requires OnlyRemoves(before, after)
    ensures Load(after, peer) <= Load(before, peer)
  {
    var a := set h | h in after && after[h].peer == peer;
    var b := set h | h in before && before[h].peer == peer;
    assert a <= b;
    assert b == a + (b - a);
  }

  /** Adding a request raises the load of its peer by one and no other. */
  lemma LoadAdd(inflight: Inflight, h: Hash, r: Request, peer: Text)
    requires h !in inflight
    ensures Load(inflight[h := r], peer) == Load(inflight, peer) + (if r.peer == peer then 1 else 0)
  {
    var before := set k | k in inflight && inflight[k].peer == peer;
    var grown := inflight[h := r];
    var after := set k | k in grown && grown[k].peer == peer;
    if r.peer == peer {
      assert after == before + {h};
    } else {
      assert after == before;
    }
  }

  lemma LoadRemove(inflight: Inflight, h: Hash, peer: Text)
    requires h in inflight
    ensures Load(inflight, peer) == Load(inflight - {h}, peer) + (if inflight[h].peer == peer then 1 else 0)
  {
    LoadAdd(inflight - {h}, h, inflight[h], peer);
    assert (inflight - {h})[h := inflight[h]] == inflight;
  }

  // ---- peers ----

  /** The peer's advertised height does not rule the block out; an unknown height never does. */
  predicate Tall(peerHeights: map<Text, int>, peer: Text, height: Option<int>) {
    height.None? || Get(peerHeights, peer, height.value) >= height.value
  }

  datatype PeerRank = PeerRank(load: int, stalls: int, id: Text)

  predicate PeerRankLe(a: PeerRank, b: PeerRank) {
    if a.load != b.load then a.load < b.load
    else if a.stalls != b.stalls then a.stalls < b.stalls
    else LexLe(a.id, b.id)
  }

  lemma PeerRankOrder()
    ensures Preorder(PeerRankLe)
  {
    hide LexLe;
    LexLaws();
  }

  type Counts = map<Text, int>

  function RankPeer(counts: Counts, stalled: Counts, peer: Text): PeerRank {
    PeerRank(Get(counts, peer, 0), Get(stalled, peer, 0), peer)
  }

  function RankEligible(peers: seq<Text>, peerHeights: map<Text, int>, height: Option<int>, counts: Counts, stalled: Counts): seq<PeerRank> {
    if peers == [] then []
    else
      (if Tall(peerHeights, peers[0], height) then [RankPeer(counts, stalled, peers[0])] else [])
      + RankEligible(peers[1..], peerHeights, height, counts, stalled)
  }

  lemma {:induction false} EligibleMembers(peers: seq<Text>, peerHeights: map<Text, int>, height: Option<int>, counts: Counts, stalled: Counts)
    ensures forall r :: r in RankEligible(peers, peerHeights, height, counts, stalled) <==>
      r.id in peers && Tall(peerHeights, r.id, height) && r == RankPeer(counts, stalled, r.id)
  {
    if peers != [] { EligibleMembers(peers[1..], peerHeights, height, counts, stalled); }
  }

  /** The least loaded tall-enough peer, then the least stalled, then the least id; none when all are full. */
  method PickPeer(peers: seq<Text>, peerHeights: map<Text, int>, height: Option<int>, counts: Counts, stalled: Counts, cap: int)
    returns (r: Option<Text>)
    ensures r.None? ==> forall q :: q in peers && Tall(peerHeights, q, height) ==> Get(counts, q, 0) >= cap
    ensures r.Some? ==> r.value in peers && Tall(peerHeights, r.value, height) && Get(counts, r.value, 0) < cap
    ensures r.Some? ==> forall q :: q in peers && Tall(peerHeights, q, height) ==>
      PeerRankLe(RankPeer(counts, stalled, r.value), RankPeer(counts, stalled, q))
  {
    hide Sort, RankEligible;
    var eligible := RankEligible(peers, peerHeights, height, counts, stalled);
    EligibleMembers(peers, peerHeights, height, counts, stalled);
    var ranked := Sort(PeerRankLe, eligible);
    SortMembers(PeerRankLe, eligible);
    PeerRankOrder();
    SortSorts(PeerRankLe, eligible);
    var k := 0;
    while k < |ranked|
      invariant 0 <= k <= |ranked|
      invariant forall j :: 0 <= j < k ==> ranked[j].load >= cap
    {
      if ranked[k].load < cap {
        Earliest(ranked, k);
        assert ranked[k] in ranked;
        forall q | q in peers && Tall(peerHeights, q, height)
          ensures PeerRankLe(ranked[k], RankPeer(counts, stalled, q))
        {
          var rank := RankPeer(counts, stalled, q);
          assert rank in eligible;
          assert rank in ranked;
        }
        return Some(ranked[k].id);
      }
      k := k + 1;
    }
    forall q | q in peers && Tall(peerHeights, q, height) ensures Get(counts, q, 0) >= cap {
      assert RankPeer(counts, stalled, q) in eligible;
      assert RankPeer(counts, stalled, q) in ranked;
    }
    r := None;
  }

  /** In a sorted list the first entry below the cap precedes everything: the ones before it are full and heavier. */
  lemma Earliest(ranked: seq<PeerRank>, k: nat)
    requires k < |ranked| && Sorted(PeerRankLe, ranked) && Preorder(PeerRankLe)
    requires forall j :: 0 <= j < k ==> ranked[j].load > ranked[k].load
    ensures forall r :: r in ranked ==> PeerRankLe(ranked[k], r)
  {
    forall r | r in ranked ensures PeerRankLe(ranked[k], r) {
      var i :| 0 <= i < |ranked| && ranked[i] == r;
    }
  }

  /** The loads of the given peers, counted over the requests in flight. */
  method CountByPeer(peers: seq<Text>, inflight: Inflight) returns (counts: Counts)
    ensures forall q :: q in counts <==> q in peers
    ensures forall q :: q in peers ==> counts[q] == Load(inflight, q)
  {
    counts := map q | q in peers :: 0;
    var left := inflight;
    while left.Keys != {}
      invariant OnlyRemoves(inflight, left)
      invariant forall q :: q in counts <==> q in peers
      invariant forall q :: q in peers ==> counts[q] + Load(left, q) == Load(inflight, q)
      decreases |left|
    {
      var h :| h in left.Keys;
      var peer := left[h].peer;
      forall q ensures Load(left, q) == Load(left - {h}, q) + (if peer == q then 1 else 0) {
        LoadRemove(left, h, q);
      }
      if peer in counts { counts := counts[peer := counts[peer] + 1]; }
      Smaller(left, h);
      left := left - {h};
    }
    NoLoad(left);
  }

  lemma NoLoad(m: Inflight)
    requires m.Keys == {}
    ensures forall q :: Load(m, q) == 0
  {
    assert m == map[];
  }

  lemma Smaller(m: Inflight, h: Hash)
    requires h in m
    ensures |m - {h}| < |m|
  {
    assert (m - {h}).Keys == m.Keys - {h};
    assert |m.Keys| == |(m - {h}).Keys| + 1;
  }

  // ---- what a reservation promises ----

  predicate Covered(h: Hash, blocks: set<Hash>, inflight: Inflight) {
    h in blocks || h in inflight
  }

  /** The window blocks before `n` are stored or in flight, and block `n`, if there is one, is neither. */
  ghost predicate FirstUncovered(window: seq<Hash>, blocks: set<Hash>, inflight: Inflight, n: nat) {
    && n <= |window|
    && (forall i :: 0 <= i < n ==> Covered(window[i], blocks, inflight))
    && (n < |window| ==> !Covered(window[n], blocks, inflight))
  }

  function HeightOf(headers: HeaderStore, h: Hash): Option<int> {
    if h in headers then Some(headers[h].height) else None
  }

  /** One granted request: a missing block of the window, to a listed peer tall enough for it. */
  ghost predicate Granted(a: Assigned, window: seq<Hash>, blocks: set<Hash>, headers: HeaderStore, before: Inflight, after: Inflight,
                          peers: seq<Text>, peerHeights: map<Text, int>, now: real, timeout: real) {
    && a.block in window && a.block !in blocks && a.block !in before
    && a.block in after && after[a.block] == Request(a.peer, now, now + timeout, 1)
    && a.deadline == now + timeout && a.attempt == 1
    && a.peer in peers && Tall(peerHeights, a.peer, HeightOf(headers, a.block))
  }

  /** How many requests were granted to one peer. */
  function GrantsTo(granted: seq<Assigned>, peer: Text): nat {
    if granted == [] then 0 else GrantsTo(granted[..|granted| - 1], peer) + (if granted[|granted| - 1].peer == peer then 1 else 0)
  }

  /** Each grant is counted once for its peer. */
  ghost predicate ServedBy(before: Counts, after: Counts, granted: seq<Assigned>) {
    forall q :: Get(after, q, 0) == Get(before, q, 0) + GrantsTo(granted, q)
  }

  lemma NoneServed(counts: Counts)
    ensures ServedBy(counts, counts, [])
  {
  }

  lemma ServedStep(before: Counts, after: Counts, granted: seq<Assigned>, a: Assigned)
    requires ServedBy(before, after, granted)
    ensures ServedBy(before, after[a.peer := Get(after, a.peer, 0) + 1], granted + [a])
  {
    assert (granted + [a])[..|granted|] == granted;
  }

  ghost predicate AssignedTo(granted: seq<Assigned>, h: Hash) {
    exists i :: 0 <= i < |granted| && granted[i].block == h
  }

  /** The requests in flight change by the grants and, for stored blocks, by removal; by nothing else. */
  ghost predicate Reserved(window: seq<Hash>, blocks: set<Hash>, headers: HeaderStore, before: Inflight, after: Inflight,
                           peers: seq<Text>, peerHeights: map<Text, int>, granted: seq<Assigned>, now: real, timeout: real) {
    && (forall i :: 0 <= i < |granted| ==> Granted(granted[i], window, blocks, headers, before, after, peers, peerHeights, now, timeout))
    && (forall h :: h in after ==> (h in before && after[h] == before[h]) || AssignedTo(granted, h))
    && (forall h :: h in before && h !in after ==> h in blocks)
  }

  /** Every peer tall enough for a block of this height is full. */
  ghost predicate NoRoom(inflight: Inflight, peers: seq<Text>, peerHeights: map<Text, int>, height: Option<int>, cap: nat) {
    forall q :: q in peers && Tall(peerHeights, q, height) ==> Load(inflight, q) >= cap
  }

  /** A grant below the cap raises one load by one and nothing above the cap. */
  lemma GrantWithinCap(start: Inflight, inflight: Inflight, h: Hash, r: Request, cap: nat)
    requires h !in inflight && Load(inflight, r.peer) < cap && NeverOverfills(start, inflight, cap)
    ensures NeverOverfills(start, inflight[h := r], cap)
    ensures forall q :: Load(inflight[h := r], q) == Load(inflight, q) + (if r.peer == q then 1 else 0)
  {
    forall q ensures Load(inflight[h := r], q) == Load(inflight, q) + (if r.peer == q then 1 else 0) {
      LoadAdd(inflight, h, r, q);
    }
    forall q ensures Load(inflight[h := r], q) <= Max(Load(start, q), cap) {
      assert Load(inflight, q) <= Max(Load(start, q), cap);
    }
  }

  /** A grant keeps what the earlier grants promised. */
  lemma GrantReserves(window: seq<Hash>, blocks: set<Hash>, headers: HeaderStore, before: Inflight, inflight: Inflight,
                      peers: seq<Text>, peerHeights: map<Text, int>, granted: seq<Assigned>, a: Assigned, now: real, timeout: real)
    requires Reserved(window, blocks, headers, before, inflight, peers, peerHeights, granted, now, timeout)
    requires a.block in window && a.block !in blocks && a.block !in inflight
    requires a.deadline == now + timeout && a.attempt == 1
    requires a.peer in peers && Tall(peerHeights, a.peer, HeightOf(headers, a.block))
    ensures Reserved(window, blocks, headers, before, inflight[a.block := Request(a.peer, now, now + timeout, 1)], peers, peerHeights,
                     granted + [a], now, timeout)
  {
    hide Tall, HeightOf;
    var after, grants := inflight[a.block := Request(a.peer, now, now + timeout, 1)], granted + [a];
    forall i | 0 <= i < |grants| ensures Granted(grants[i], window, blocks, headers, before, after, peers, peerHeights, now, timeout) {
      if i < |granted| { assert Granted(granted[i], window, blocks, headers, before, inflight, peers, peerHeights, now, timeout); }
    }
    forall h | h in after && !(h in before && after[h] == before[h]) ensures AssignedTo(grants, h) {
      if h == a.block {
        assert grants[|granted|].block == h;
      } else {
        assert AssignedTo(granted, h);
        var i :| 0 <= i < |granted| && granted[i].block == h;
        assert grants[i].block == h;
      }
    }
  }

  /** Dropping a stored block keeps what the grants promised. */
  lemma DropReserves(window: seq<Hash>, blocks: set<Hash>, headers: HeaderStore, before: Inflight, inflight: Inflight,
                     peers: seq<Text>, peerHeights: map<Text, int>, granted: seq<Assigned>, h: Hash, now: real, timeout: real)
    requires Reserved(window, blocks, headers, before, inflight, peers, peerHeights, granted, now, timeout) && h in blocks
    ensures Reserved(window, blocks, headers, before, inflight - {h}, peers, peerHeights, granted, now, timeout)
  {
    hide Tall, HeightOf;
    var after := inflight - {h};
    forall i | 0 <= i < |granted| ensures Granted(granted[i], window, blocks, headers, before, after, peers, peerHeights, now, timeout) {
      assert Granted(granted[i], window, blocks, headers, before, inflight, peers, peerHeights, now, timeout);
    }
  }

  ghost predicate AllMissing(window: seq<Hash>, blocks: set<Hash>) {
    forall i :: 0 <= i < |window| ==> window[i] !in blocks
  }

  /** The counters never fall below the loads, and equal them while no stored block is met. */
  ghost predicate CountsCover(counts: Counts, peers: seq<Text>, inflight: Inflight) {
    && (forall q :: q in counts <==> q in peers)
    && (forall q :: q in counts ==> counts[q] >= Load(inflight, q))
  }

  ghost predicate CountsExact(counts: Counts, peers: seq<Text>, inflight: Inflight) {
    && (forall q :: q in counts <==> q in peers)
    && (forall q :: q in counts ==> counts[q] == Load(inflight, q))
  }

  lemma NothingReserved(window: seq<Hash>, blocks: set<Hash>, headers: HeaderStore, inflight: Inflight, peers: seq<Text>,
                        peerHeights: map<Text, int>, cap: nat, now: real, timeout: real)
    ensures Reserved(window, blocks, headers, inflight, inflight, peers, peerHeights, [], now, timeout)
    ensures NeverOverfills(inflight, inflight, cap)
  {
  }

  lemma FirstOfNone(blocks: set<Hash>, inflight: Inflight)
    ensures FirstUncovered([], blocks, inflight, 0)
  {
  }

  lemma DropCovers(start: Inflight, inflight: Inflight, h: Hash, cap: nat, counts: Counts, peers: seq<Text>)
    requires NeverOverfills(start, inflight, cap) && CountsCover(counts, peers, inflight)
    ensures NeverOverfills(start, inflight - {h}, cap) && CountsCover(counts, peers, inflight - {h})
  {
    hide Load;
    forall q ensures Load(inflight - {h}, q) <= Load(inflight, q) {
      LoadMonotone(inflight, inflight - {h}, q);
    }
    forall q ensures Load(inflight - {h}, q) <= Max(Load(start, q), cap) {
      assert Load(inflight, q) <= Max(Load(start, q), cap);
    }
  }

  lemma CountsStart(counts: Counts, peers: seq<Text>, inflight: Inflight)
    requires forall q :: q in counts <==> q in peers
    requires forall q :: q in peers ==> counts[q] == Load(inflight, q)
    ensures CountsCover(counts, peers, inflight) && CountsExact(counts, peers, inflight)
  {
    hide Load;
  }

  lemma CountsBelow(counts: Counts, peers: seq<Text>, inflight: Inflight, peer: Text, cap: nat)
    requires CountsCover(counts, peers, inflight) && peer in peers && Get(counts, peer, 0) < cap
    ensures peer in counts && Load(inflight, peer) < cap
  {
    hide Load;
  }

  lemma CountsGrant(counts: Counts, peers: seq<Text>, before: Inflight, after: Inflight, peer: Text)
    requires CountsCover(counts, peers, before) && peer in counts
    requires forall q :: Load(after, q) == Load(before, q) + (if peer == q then 1 else 0)
    ensures CountsCover(counts[peer := counts[peer] + 1], peers, after)
    ensures CountsExact(counts, peers, before) ==> CountsExact(counts[peer := counts[peer] + 1], peers, after)
  {
    hide Load;
  }

  lemma FullMeansNoRoom(counts: Counts, peers: seq<Text>, inflight: Inflight, peerHeights: map<Text, int>, height: Option<int>, cap: nat)
    requires CountsCover(counts, peers, inflight)
    requires forall q :: q in peers && Tall(peerHeights, q, height) ==> Get(counts, q, 0) >= cap
    ensures CountsExact(counts, peers, inflight) ==> NoRoom(inflight, peers, peerHeights, height, cap)
  {
    hide Load;
  }

  // ---- sweeping requests out ----

  /** What is in flight, and what has been swept out, while the requests `left` are still to be looked at. */
  ghost function Kept(before: Inflight, left: set<Hash>, keep: Request -> bool): Inflight {
    map h | h in before && (h in left || keep(before[h])) :: before[h]
  }

  ghost function Swept(before: Inflight, left: set<Hash>, keep: Request -> bool): Inflight {
    map h | h in before && h !in left && !keep(before[h]) :: before[h]
  }

  lemma SweepStarts(before: Inflight, keep: Request -> bool)
    ensures Kept(before, before.Keys, keep) == before && Swept(before, before.Keys, keep) == map[]
  {
  }

  lemma SweepEnds(before: Inflight, keep: Request -> bool)
    ensures Kept(before, {}, keep) == map h | h in before && keep(before[h]) :: before[h]
    ensures Swept(before, {}, keep) == map h | h in before && !keep(before[h]) :: before[h]
  {
  }

  lemma SweepStep(before: Inflight, left: set<Hash>, h: Hash, keep: Request -> bool)
    requires left <= before.Keys && h in left
    ensures h in Kept(before, left, keep) && Kept(before, left, keep)[h] == before[h] && h !in Swept(before, left, keep)
    ensures !keep(before[h]) ==>
      Kept(before, left - {h}, keep) == Kept(before, left, keep) - {h}
      && Swept(before, left - {h}, keep) == Swept(before, left, keep)[h := before[h]]
    ensures keep(before[h]) ==>
      Kept(before, left - {h}, keep) == Kept(before, left, keep) && Swept(before, left - {h}, keep) == Swept(before, left, keep)
  {
  }

  // ---- grants one after another ----

  /** What one reservation is asked with. */
  datatype Ask = Ask(peers: seq<Text>, peerHeights: map<Text, int>, headers: HeaderStore, cap: nat, now: real, timeout: real)

  function RequestOf(a: Assigned, ask: Ask): Request {
    Request(a.peer, ask.now, ask.now + ask.timeout, 1)
  }

  function AfterGrants(before: Inflight, granted: seq<Assigned>, ask: Ask): Inflight {
    if granted == [] then before
    else
      var a := granted[|granted| - 1];
      AfterGrants(before, granted[..|granted| - 1], ask)[a.block := RequestOf(a, ask)]
  }

  /** Each grant is for a block not in flight, to a listed, tall-enough peer below the cap at that moment. */
  ghost predicate LegalGrants(before: Inflight, granted: seq<Assigned>, ask: Ask) {
    granted != [] ==>
      var front, a := granted[..|granted| - 1], granted[|granted| - 1];
      && LegalGrants(before, front, ask)
      && LegalGrant(AfterGrants(before, front, ask), a, ask)
  }

  ghost predicate LegalGrant(inflight: Inflight, a: Assigned, ask: Ask) {
    && a.block !in inflight && a.peer in ask.peers && Load(inflight, a.peer) < ask.cap
    && Tall(ask.peerHeights, a.peer, HeightOf(ask.headers, a.block))
  }

  lemma LegalStep(before: Inflight, granted: seq<Assigned>, a: Assigned, ask: Ask)
    requires LegalGrants(before, granted, ask) && LegalGrant(AfterGrants(before, granted, ask), a, ask)
    ensures LegalGrants(before, granted + [a], ask)
    ensures AfterGrants(before, granted + [a], ask) == AfterGrants(before, granted, ask)[a.block := RequestOf(a, ask)]
  {
    hide LegalGrant;
    assert (granted + [a])[..|granted|] == granted;
  }

  lemma GrantIsLegal(before: Inflight, inflight: Inflight, granted: seq<Assigned>, a: Assigned, ask: Ask)
    requires Step(Reserve(ask, granted), before, inflight)
    requires a.block !in inflight && a.peer in ask.peers && Load(inflight, a.peer) < ask.cap
    requires Tall(ask.peerHeights, a.peer, HeightOf(ask.headers, a.block))
    ensures Step(Reserve(ask, granted + [a]), before, inflight[a.block := RequestOf(a, ask)])
  {
    hide Load, Tall, HeightOf, LegalGrants, AfterGrants;
    LegalStep(before, granted, a, ask);
  }

  lemma NothingGranted(before: Inflight, ask: Ask)
    ensures LegalGrants(before, [], ask) && AfterGrants(before, [], ask) == before
  {
  }

  lemma {:induction false} LegalNeverOverfills(before: Inflight, granted: seq<Assigned>, ask: Ask)
    requires LegalGrants(before, granted, ask)
    ensures NeverOverfills(before, AfterGrants(before, granted, ask), ask.cap)
  {
    hide Load, NeverOverfills, Tall, HeightOf;
    if granted == [] {
      RemovalNeverOverfills(before, before, ask.cap);
    } else {
      var front, a := granted[..|granted| - 1], granted[|granted| - 1];
      LegalNeverOverfills(before, front, ask);
      GrantWithinCap(before, AfterGrants(before, front, ask), a.block, RequestOf(a, ask), ask.cap);
    }
  }

  // ---- runs ----

  /** The operations that change what is in flight. */
  datatype Operation =
    | Reserve(ask: Ask, granted: seq<Assigned>)
    | Expire(now: real)
    | ReleaseUnavailable(active: seq<Text>)
    | ReleasePeer(peer: Text)
    | Clear(block: Hash)
    | Receive

  /** What each operation does, as the methods of the sync manager ensure it. */
  ghost predicate Step(op: Operation, before: Inflight, after: Inflight) {
    match op
    case Reserve(ask, granted) => LegalGrants(before, granted, ask) && after == AfterGrants(before, granted, ask)
    case Expire(now) => after == map h | h in before && before[h].deadline > now :: before[h]
    case ReleaseUnavailable(active) => after == map h | h in before && before[h].peer in active :: before[h]
    case ReleasePeer(peer) => after == map h | h in before && before[h].peer != peer :: before[h]
    case Clear(block) => after == before - {block}
    case Receive => OnlyRemoves(before, after)
  }

  /** A history of the requests in flight, from none. */
  ghost predicate Run(ops: seq<Operation>, states: seq<Inflight>) {
    && |states| == |ops| + 1 && states[0] == map[]
    && forall i :: 0 <= i < |ops| ==> Step(ops[i], states[i], states[i + 1])
  }

  ghost predicate CapsWithin(ops: seq<Operation>, bound: nat) {
    forall i :: 0 <= i < |ops| && ops[i].Reserve? ==> ops[i].ask.cap <= bound
  }

  lemma StepKeepsCap(op: Operation, before: Inflight, after: Inflight, bound: nat)
    requires Step(op, before, after) && CapRespected(before, bound)
    requires op.Reserve? ==> op.ask.cap <= bound
    ensures CapRespected(after, bound)
  {
    hide Load, LegalGrants, AfterGrants;
    var cap := if op.Reserve? then op.ask.cap else bound;
    if op.Reserve? {
      LegalNeverOverfills(before, op.granted, op.ask);
    } else {
      assert OnlyRemoves(before, after);
      RemovalNeverOverfills(before, after, cap);
    }
    forall q ensures Load(after, q) <= bound {
      assert Load(before, q) <= bound && Load(after, q) <= Max(Load(before, q), cap);
    }
  }

  /** Over every run of scheduler operations no peer is ever overloaded. */
  lemma {:induction false} CapHoldsOverRuns(ops: seq<Operation>, states: seq<Inflight>, bound: nat, n: nat)
    requires Run(ops, states) && CapsWithin(ops, bound) && n <= |ops|
    ensures CapRespected(states[n], bound)
  {
    hide Step, CapRespected;
    if n == 0 {
      NoneInFlight(bound);
    } else {
      CapHoldsOverRuns(ops, states, bound, n - 1);
      assert Step(ops[n - 1], states[n - 1], states[n - 1 + 1]);
      StepKeepsCap(ops[n - 1], states[n - 1], states[n], bound);
    }
  }

  lemma NoneInFlight(bound: nat)
    ensures CapRespected(map[], bound)
  {
    hide Load;
    NoLoad(map[]);
  }

  /** A reservation of the run granted this request, to a peer listed and tall enough for the block at that time. */
  ghost predicate GrantedBy(op: Operation, h: Hash, r: Request) {
    op.Reserve? && exists i ::
      && 0 <= i < |op.granted| && op.granted[i].block == h && r == RequestOf(op.granted[i], op.ask)
      && op.granted[i].peer in op.ask.peers && Tall(op.ask.peerHeights, op.granted[i].peer, HeightOf(op.ask.headers, h))
  }

  ghost predicate GrantedBefore(ops: seq<Operation>, n: nat, h: Hash, r: Request)
    requires n <= |ops|
  {
    exists j :: 0 <= j < n && GrantedBy(ops[j], h, r)
  }

  lemma {:induction false} NewIsGranted(before: Inflight, granted: seq<Assigned>, ask: Ask, h: Hash)
    requires LegalGrants(before, granted, ask) && h in AfterGrants(before, granted, ask)
    ensures (h in before && AfterGrants(before, granted, ask)[h] == before[h])
            || GrantedBy(Reserve(ask, granted), h, AfterGrants(before, granted, ask)[h])
  {
    hide Load, Tall, HeightOf;
    if granted != [] {
      var front, last := granted[..|granted| - 1], |granted| - 1;
      if h != granted[last].block {
        NewIsGranted(before, front, ask, h);
        var r := AfterGrants(before, front, ask)[h];
        if GrantedBy(Reserve(ask, front), h, r) {
          var i :| 0 <= i < |front| && front[i].block == h && r == RequestOf(front[i], ask)
            && front[i].peer in ask.peers && Tall(ask.peerHeights, front[i].peer, HeightOf(ask.headers, h));
          assert granted[i] == front[i];
        }
      }
    }
  }

  /** Over every run, whatever is in flight was granted to a peer that was tall enough for it. */
  lemma {:induction false} InFlightWasGranted(ops: seq<Operation>, states: seq<Inflight>, n: nat, h: Hash)
    requires Run(ops, states) && n <= |ops| && h in states[n]
    ensures GrantedBefore(ops, n, h, states[n][h])
  {
    hide LegalGrants, AfterGrants, GrantedBy;
    if n > 0 {
      var op, before := ops[n - 1], states[n - 1];
      assert Step(ops[n - 1], states[n - 1], states[n - 1 + 1]);
      if op.Reserve? { NewIsGranted(before, op.granted, op.ask, h); }
      if h in before && states[n][h] == before[h] {
        InFlightWasGranted(ops, states, n - 1, h);
        var j :| 0 <= j < n - 1 && GrantedBy(ops[j], h, before[h]);
      } else {
        assert GrantedBy(ops[n - 1], h, states[n][h]);
      }
    }
  }

  // ---- filling one window ----

  /** What holds after looking at the first `k` blocks of a window. */
  ghost predicate Filling(window: seq<Hash>, blocks: set<Hash>, ask: Ask, before: Inflight, inflight: Inflight, counts: Counts,
                          servedBefore: Counts, served: Counts, granted: seq<Assigned>, k: nat)
    requires k <= |window|
  {
    && Reserved(window, blocks, ask.headers, before, inflight, ask.peers, ask.peerHeights, granted, ask.now, ask.timeout)
    && NeverOverfills(before, inflight, ask.cap)
    && (forall i :: 0 <= i < k ==> Covered(window[i], blocks, inflight))
    && (forall i :: 0 <= i < |granted| ==> granted[i].block in window[..k])
    && CountsCover(counts, ask.peers, inflight) && ServedBy(servedBefore, served, granted)
    && (AllMissing(window, blocks) ==> CountsExact(counts, ask.peers, inflight) && Step(Reserve(ask, granted), before, inflight))
  }

  lemma FillStart(window: seq<Hash>, blocks: set<Hash>, ask: Ask, inflight: Inflight, counts: Counts, served: Counts)
    requires forall q :: q in counts <==> q in ask.peers
    requires forall q :: q in ask.peers ==> counts[q] == Load(inflight, q)
    ensures Filling(window, blocks, ask, inflight, inflight, counts, served, served, [], 0)
  {
    hide Load, LegalGrants, AfterGrants, Reserved, NeverOverfills, ServedBy;
    CountsStart(counts, ask.peers, inflight);
    NothingReserved(window, blocks, ask.headers, inflight, ask.peers, ask.peerHeights, ask.cap, ask.now, ask.timeout);
    NothingGranted(inflight, ask);
    NoneServed(served);
  }

  /** What is promised where the filling stops: at the end of the window, or at a block no peer has room for. */
  lemma FillStops(window: seq<Hash>, blocks: set<Hash>, ask: Ask, before: Inflight, inflight: Inflight, counts: Counts,
                  servedBefore: Counts, served: Counts, granted: seq<Assigned>, k: nat)
    requires k <= |window| && Filling(window, blocks, ask, before, inflight, counts, servedBefore, served, granted, k)
    requires k < |window| ==>
      && window[k] !in blocks && window[k] !in inflight
      && forall q :: q in ask.peers && Tall(ask.peerHeights, q, HeightOf(ask.headers, window[k])) ==> Get(counts, q, 0) >= ask.cap
    ensures Reserved(window, blocks, ask.headers, before, inflight, ask.peers, ask.peerHeights, granted, ask.now, ask.timeout)
    ensures NeverOverfills(before, inflight, ask.cap) && ServedBy(servedBefore, served, granted)
    ensures FirstUncovered(window, blocks, inflight, k)
    ensures forall i :: 0 <= i < |granted| ==> granted[i].block in window[..k]
    ensures AllMissing(window, blocks) ==> Step(Reserve(ask, granted), before, inflight)
    ensures k < |window| && AllMissing(window, blocks) ==>
      NoRoom(inflight, ask.peers, ask.peerHeights, HeightOf(ask.headers, window[k]), ask.cap)
  {
    hide Reserved, NeverOverfills, ServedBy, Step, Load, Tall, HeightOf, NoRoom, CountsCover, CountsExact;
    if k < |window| { FullMeansNoRoom(counts, ask.peers, inflight, ask.peerHeights, HeightOf(ask.headers, window[k]), ask.cap); }
  }

  lemma FillSkip(window: seq<Hash>, blocks: set<Hash>, ask: Ask, before: Inflight, inflight: Inflight, counts: Counts,
                 servedBefore: Counts, served: Counts, granted: seq<Assigned>, k: nat)
    requires k < |window| && Filling(window, blocks, ask, before, inflight, counts, servedBefore, served, granted, k)
    requires window[k] in inflight
    ensures Filling(window, blocks, ask, before, inflight, counts, servedBefore, served, granted, k + 1)
  {
    hide Reserved, NeverOverfills, CountsCover, CountsExact, ServedBy, Step;
    assert forall x :: x in window[..k] ==> x in window[..k + 1];
  }

  lemma FillDrop(window: seq<Hash>, blocks: set<Hash>, ask: Ask, before: Inflight, inflight: Inflight, counts: Counts,
                 servedBefore: Counts, served: Counts, granted: seq<Assigned>, k: nat)
    requires k < |window| && Filling(window, blocks, ask, before, inflight, counts, servedBefore, served, granted, k)
    requires window[k] in blocks
    ensures Filling(window, blocks, ask, before, inflight - {window[k]}, counts, servedBefore, served, granted, k + 1)
  {
    hide Reserved, NeverOverfills, CountsCover, CountsExact, ServedBy, Step;
    DropReserves(window, blocks, ask.headers, before, inflight, ask.peers, ask.peerHeights, granted, window[k], ask.now, ask.timeout);
    DropCovers(before, inflight, window[k], ask.cap, counts, ask.peers);
    assert forall x :: x in window[..k] ==> x in window[..k + 1];
  }

  lemma FillGrant(window: seq<Hash>, blocks: set<Hash>, ask: Ask, before: Inflight, inflight: Inflight, counts: Counts,
                  servedBefore: Counts, served: Counts, granted: seq<Assigned>, k: nat, a: Assigned)
    requires k < |window| && Filling(window, blocks, ask, before, inflight, counts, servedBefore, served, granted, k)
    requires a.block == window[k] && a.block !in blocks && a.block !in inflight && a.deadline == ask.now + ask.timeout && a.attempt == 1
    requires a.peer in ask.peers && Tall(ask.peerHeights, a.peer, HeightOf(ask.headers, a.block)) && Get(counts, a.peer, 0) < ask.cap
    ensures a.peer in counts
    ensures Filling(window, blocks, ask, before, inflight[a.block := RequestOf(a, ask)], counts[a.peer := counts[a.peer] + 1],
                    servedBefore, served[a.peer := Get(served, a.peer, 0) + 1], granted + [a], k + 1)
  {
    hide Reserved, NeverOverfills, CountsCover, CountsExact, ServedBy, Step, Load, Tall, HeightOf;
    var after := inflight[a.block := RequestOf(a, ask)];
    CountsBelow(counts, ask.peers, inflight, a.peer, ask.cap);
    GrantWithinCap(before, inflight, a.block, RequestOf(a, ask), ask.cap);
    CountsGrant(counts, ask.peers, inflight, after, a.peer);
    GrantReserves(window, blocks, ask.headers, before, inflight, ask.peers, ask.peerHeights, granted, a, ask.now, ask.timeout);
    ServedStep(servedBefore, served, granted, a);
    if AllMissing(window, blocks) { GrantIsLegal(before, inflight, granted, a, ask); }
    assert forall x :: x in window[..k] ==> x in window[..k + 1];
    assert window[k] in window[..k + 1];
  }
}
