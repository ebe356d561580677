/** What a fresh scan of the node's stores answers: best tip, missing blocks, ready tip (sync.py, storage/headers.py). */
module SyncScan {
  import opened Prelude
  import opened Models
  import opened Sorting
  import opened Assignment
  import opened Headers

  datatype Anchor = Anchor(hash: Hash, height: nat)

  // ---- tips ----

  /** Stronger first: more work, then higher, then the larger hash. */
  predicate TipLe(a: HeaderRecord, b: HeaderRecord) {
    if a.work != b.work then a.work > b.work
    else if a.height != b.height then a.height > b.height
    else LexLe(b.hash, a.hash)
  }

  function Records(headers: HeaderStore, keys: seq<Hash>): seq<HeaderRecord>
    requires forall k :: k in keys ==> k in headers
  {
    if keys == [] then [] else [headers[keys[0]]] + Records(headers, keys[1..])
  }

  predicate HasChild(headers: HeaderStore, h: Hash) {
    exists c :: c in headers && headers[c].header.previousHash == h
  }

  function Leaves(headers: HeaderStore, keys: seq<Hash>): seq<HeaderRecord>
    requires forall k :: k in keys ==> k in headers
  {
    if keys == [] then []
    else (if HasChild(headers, keys[0]) then [] else [headers[keys[0]]]) + Leaves(headers, keys[1..])
  }

  /** `list_candidate_tips`. */
  function CandidateTips(headers: HeaderStore): seq<HeaderRecord> {
    Sort(TipLe, Leaves(headers, SortedTexts(headers.Keys)))
  }

  /** `find_best_tip`. */
  function BestTip(headers: HeaderStore): Option<HeaderRecord> {
    var ranked := Sort(TipLe, Records(headers, SortedTexts(headers.Keys)));
    if ranked == [] then None else Some(ranked[0])
  }

  lemma {:induction false} LeavesMembers(headers: HeaderStore, keys: seq<Hash>)
    requires forall k :: k in keys ==> k in headers
    ensures forall r :: r in Leaves(headers, keys) ==> exists k :: k in keys && headers[k] == r
    ensures forall r :: r in Records(headers, keys) <==> exists k :: k in keys && headers[k] == r
  {
    hide HasChild;
    if keys != [] {
      LeavesMembers(headers, keys[1..]);
      assert keys[0] in keys;
      assert forall k :: k in keys <==> k == keys[0] || k in keys[1..];
    }
  }

  ghost predicate IsRecord(headers: HeaderStore, r: HeaderRecord) {
    exists k :: k in headers && headers[k] == r
  }

  /** Candidate tips and the best tip are stored records. */
  lemma CandidatesStored(headers: HeaderStore)
    ensures forall i :: 0 <= i < |CandidateTips(headers)| ==> IsRecord(headers, CandidateTips(headers)[i])
    ensures BestTip(headers).Some? ==> IsRecord(headers, BestTip(headers).value)
  {
    hide Leaves, Records, Sort;
    var keys := SortedTexts(headers.Keys);
    LeavesMembers(headers, keys);
    SortMembers(TipLe, Leaves(headers, keys));
    SortMembers(TipLe, Records(headers, keys));
    var tips := CandidateTips(headers);
    forall i | 0 <= i < |tips| ensures IsRecord(headers, tips[i]) {
      assert tips[i] in tips;
      assert tips[i] in Leaves(headers, keys);
    }
    if BestTip(headers).Some? {
      assert BestTip(headers).value in Sort(TipLe, Records(headers, keys));
    }
  }

  /** `_best_header_needs_blocks`: whether a header chain can improve the active chain. */
  predicate Improves(headers: HeaderStore, tip: Option<Hash>, r: HeaderRecord) {
    match tip
    case None => true
    case Some(t) =>
      r.hash != t &&
      (t in headers ==> r.work > headers[t].work || r.height > headers[t].height)
  }

  // ---- missing blocks ----

  /** The part of a path above the snapshot anchor. */
  function AboveAnchor(path: seq<Hash>, anchor: Option<Anchor>): Result<seq<Hash>> {
    if anchor.None? then Ok(path)
    else if anchor.value.height >= |path| || path[anchor.value.height] != anchor.value.hash then Err(Malformed)
    else Ok(path[anchor.value.height + 1..])
  }

  function Absent(path: seq<Hash>, blocks: map<Hash, Block>): seq<Hash> {
    if path == [] then [] else (if path[0] in blocks then [] else [path[0]]) + Absent(path[1..], blocks)
  }

  /** The blocks still needed to activate `tip`. */
  function MissingScan(hash: HeaderHash, headers: HeaderStore, blocks: map<Hash, Block>, anchor: Option<Anchor>, tip: Hash): Result<seq<Hash>>
    requires Rooted(hash, headers)
  {
    if tip !in headers then Err(Malformed)
    else
      var above := AboveAnchor(Path(hash, headers, tip), anchor);
      if above.Err? then above else Ok(Absent(above.value, blocks))
  }

  // ---- the ready tip ----

  /** The last block of the stored prefix of `path`, or `start` when its first block is absent. */
  function LastStored(path: seq<Hash>, blocks: map<Hash, Block>, start: Option<Hash>): Option<Hash> {
    if path == [] || path[0] !in blocks then start else LastStored(path[1..], blocks, Some(path[0]))
  }

  /** The tip that one candidate offers, if it offers any. */
  function ReadyFor(hash: HeaderHash, headers: HeaderStore, blocks: map<Hash, Block>, anchor: Option<Anchor>,
                    tip: Option<Hash>, invalid: set<Hash>, candidate: HeaderRecord): Option<Hash>
    requires Rooted(hash, headers) && candidate.hash in headers
  {
    if !Improves(headers, tip, candidate) then None
    else
      var above := AboveAnchor(Path(hash, headers, candidate.hash), anchor);
      if above.Err? || (exists h :: h in above.value && h in invalid) then None
      else
        var ready := LastStored(above.value, blocks, if anchor.Some? then Some(anchor.value.hash) else None);
        if ready.None? || ready.value in invalid || ready.value !in headers || !Improves(headers, tip, headers[ready.value]) then None
        else ready
  }

  function ReadyFrom(hash: HeaderHash, headers: HeaderStore, blocks: map<Hash, Block>, anchor: Option<Anchor>,
                     tip: Option<Hash>, invalid: set<Hash>, candidates: seq<HeaderRecord>, k: nat): Option<Hash>
    requires Rooted(hash, headers) && k <= |candidates|
    requires forall i :: 0 <= i < |candidates| ==> candidates[i].hash in headers
    decreases |candidates| - k
  {
    if k == |candidates| then None
    else
      var r := ReadyFor(hash, headers, blocks, anchor, tip, invalid, candidates[k]);
      if r.Some? then r else ReadyFrom(hash, headers, blocks, anchor, tip, invalid, candidates, k + 1)
  }

  lemma CandidatesKnown(hash: HeaderHash, headers: HeaderStore)
    requires Rooted(hash, headers)
    ensures forall i :: 0 <= i < |CandidateTips(headers)| ==> CandidateTips(headers)[i].hash in headers
    ensures BestTip(headers).Some? ==> BestTip(headers).value.hash in headers && headers[BestTip(headers).value.hash] == BestTip(headers).value
  {
    hide CandidateTips, BestTip;
    CandidatesStored(headers);
    forall i | 0 <= i < |CandidateTips(headers)| ensures CandidateTips(headers)[i].hash in headers {
      assert IsRecord(headers, CandidateTips(headers)[i]);
      var k :| k in headers && headers[k] == CandidateTips(headers)[i];
      assert RecordRooted(hash, headers, k);
    }
    if BestTip(headers).Some? {
      var k :| k in headers && headers[k] == BestTip(headers).value;
      assert RecordRooted(hash, headers, k);
    }
  }

  /** The strongest candidate whose stored prefix improves the active chain. */
  function ReadyScan(hash: HeaderHash, headers: HeaderStore, blocks: map<Hash, Block>, anchor: Option<Anchor>,
                     tip: Option<Hash>, invalid: set<Hash>): Option<Hash>
    requires Rooted(hash, headers)
  {
    CandidatesKnown(hash, headers);
    ReadyFrom(hash, headers, blocks, anchor, tip, invalid, CandidateTips(headers), 0)
  }

  lemma TipOrder()
    ensures Preorder(TipLe)
  {
    hide LexLe;
    LexLaws();
  }

  /** The best tip is a stored record that no other outranks by work, then height, then hash. */
  lemma BestTipStrongest(hash: HeaderHash, headers: HeaderStore, h: Hash)
    requires Rooted(hash, headers) && h in headers
    ensures BestTip(headers).Some? && IsRecord(headers, BestTip(headers).value)
    ensures TipLe(BestTip(headers).value, headers[h])
  {
    hide Records, Sort, TipLe;
    var keys := SortedTexts(headers.Keys);
    var all := Records(headers, keys);
    LeavesMembers(headers, keys);
    TipOrder();
    SortSorts(TipLe, all);
    assert h in keys;
    assert headers[h] in all;
    assert headers[h] in multiset(all);
    HeadIsLeast(TipLe, Sort(TipLe, all), headers[h]);
    CandidatesStored(headers);
  }

  lemma {:induction false} LeavesExactly(headers: HeaderStore, keys: seq<Hash>)
    requires forall k :: k in keys ==> k in headers
    ensures forall r :: r in Leaves(headers, keys) <==> exists k :: k in keys && headers[k] == r && !HasChild(headers, k)
  {
    hide HasChild;
    if keys != [] {
      LeavesExactly(headers, keys[1..]);
      assert keys[0] in keys;
      assert forall k :: k in keys <==> k == keys[0] || k in keys[1..];
    }
  }

  /** The candidate tips are exactly the records without a child, strongest first. */
  lemma CandidatesExactly(hash: HeaderHash, headers: HeaderStore, r: HeaderRecord)
    requires Rooted(hash, headers)
    ensures Sorted(TipLe, CandidateTips(headers))
    ensures r in CandidateTips(headers) <==> r.hash in headers && headers[r.hash] == r && !HasChild(headers, r.hash)
  {
    hide Leaves, Sort, TipLe, HasChild, SortedTexts;
    var keys := SortedTexts(headers.Keys);
    LeavesExactly(headers, keys);
    TipOrder();
    SortSorts(TipLe, Leaves(headers, keys));
    SortMembers(TipLe, Leaves(headers, keys));
    if r in CandidateTips(headers) {
      var k :| k in keys && headers[k] == r && !HasChild(headers, k);
      assert RecordRooted(hash, headers, k);
    }
    if r.hash in headers && headers[r.hash] == r && !HasChild(headers, r.hash) {
      assert r.hash in keys;
    }
  }

  // ---- what the scans mean ----

  lemma {:induction false} AbsentIs(path: seq<Hash>, blocks: map<Hash, Block>)
    ensures forall h :: h in Absent(path, blocks) <==> h in path && h !in blocks
  {
    if path != [] { AbsentIs(path[1..], blocks); }
  }

  /** The path carries the anchor at the anchor's height. */
  predicate CarriesAnchor(path: seq<Hash>, anchor: Option<Anchor>) {
    anchor.Some? ==> anchor.value.height < |path| && path[anchor.value.height] == anchor.value.hash
  }

  function FirstAbove(anchor: Option<Anchor>): nat {
    if anchor.Some? then anchor.value.height + 1 else 0
  }

  /** `indices` are, in order, the positions from `first` on whose block is absent. */
  ghost predicate AbsentAt(path: seq<Hash>, blocks: map<Hash, Block>, first: nat, indices: seq<nat>) {
    && (forall i :: 0 <= i < |indices| ==> first <= indices[i] < |path| && path[indices[i]] !in blocks)
    && (forall i, j :: 0 <= i < j < |indices| ==> indices[i] < indices[j])
    && (forall n :: first <= n < |path| && path[n] !in blocks ==> n in indices)
  }

  ghost predicate Picks(path: seq<Hash>, indices: seq<nat>, picked: seq<Hash>) {
    |picked| == |indices| && forall i :: 0 <= i < |indices| ==> indices[i] < |path| && picked[i] == path[indices[i]]
  }

  lemma ConsAbsent(path: seq<Hash>, blocks: map<Hash, Block>, first: nat, rest: seq<nat>)
    requires first < |path| && AbsentAt(path, blocks, first + 1, rest)
    ensures path[first] in blocks ==> AbsentAt(path, blocks, first, rest)
    ensures path[first] !in blocks ==> AbsentAt(path, blocks, first, [first] + rest)
  {
    var all := [first] + rest;
    assert forall i :: 0 < i < |all| ==> all[i] == rest[i - 1];
    forall n | first <= n < |path| && path[n] !in blocks ensures n in all {
      assert n > first ==> n in rest;
    }
  }

  lemma ConsPicks(path: seq<Hash>, first: nat, rest: seq<nat>, picked: seq<Hash>)
    requires first < |path| && Picks(path, rest, picked)
    ensures Picks(path, [first] + rest, [path[first]] + picked)
  {
  }

  lemma {:induction false} AbsentPositions(path: seq<Hash>, blocks: map<Hash, Block>, first: nat) returns (indices: seq<nat>)
    requires first <= |path|
    ensures AbsentAt(path, blocks, first, indices) && Picks(path, indices, Absent(path[first..], blocks))
    decreases |path| - first
  {
    indices := [];
    if first < |path| {
      hide AbsentAt, Picks;
      var rest := AbsentPositions(path, blocks, first + 1);
      assert path[first..][0] == path[first] && path[first..][1..] == path[first + 1..];
      ConsAbsent(path, blocks, first, rest);
      var later := Absent(path[first + 1..], blocks);
      if path[first] in blocks {
        assert [] + later == later;
        indices := rest;
      } else {
        ConsPicks(path, first, rest, later);
        indices := [first] + rest;
      }
    }
  }

  /**
   * The scan succeeds exactly when the tip is known and its path carries the anchor, and then lists
   * exactly the absent blocks above the anchor, in path order.
   */
  lemma MissingExactly(hash: HeaderHash, headers: HeaderStore, blocks: map<Hash, Block>, anchor: Option<Anchor>, tip: Hash)
    returns (indices: seq<nat>)
    requires Rooted(hash, headers)
    ensures var r := MissingScan(hash, headers, blocks, anchor, tip);
            && (r.Ok? <==> tip in headers && CarriesAnchor(Path(hash, headers, tip), anchor))
            && (r.Ok? ==> AbsentAt(Path(hash, headers, tip), blocks, FirstAbove(anchor), indices)
                          && Picks(Path(hash, headers, tip), indices, r.value))
  {
    hide Path, Absent, AbsentAt, Picks;
    indices := [];
    if tip in headers && CarriesAnchor(Path(hash, headers, tip), anchor) {
      var path := Path(hash, headers, tip);
      indices := AbsentPositions(path, blocks, FirstAbove(anchor));
      assert path[0..] == path;
    }
  }

  ghost predicate StoredUpTo(path: seq<Hash>, blocks: map<Hash, Block>, n: nat) {
    && n <= |path|
    && (forall i :: 0 <= i < n ==> path[i] in blocks)
    && (n < |path| ==> path[n] !in blocks)
  }

  /** The walk stops at the first block that is not stored. */
  lemma {:induction false} LastStoredIs(path: seq<Hash>, blocks: map<Hash, Block>, start: Option<Hash>) returns (n: nat)
    ensures StoredUpTo(path, blocks, n)
    ensures LastStored(path, blocks, start) == if n == 0 then start else Some(path[n - 1])
  {
    if path != [] && path[0] in blocks {
      var m := LastStoredIs(path[1..], blocks, Some(path[0]));
      n := m + 1;
      forall i | 0 <= i < n ensures path[i] in blocks {
        if i > 0 { assert path[i] == path[1..][i - 1]; }
      }
    } else {
      n := 0;
    }
  }

  /** A prefix of a path is the path of its last header. */
  lemma {:induction false} PathPrefix(hash: HeaderHash, headers: HeaderStore, h: Hash, i: nat)
    requires Rooted(hash, headers) && h in headers && i < |Path(hash, headers, h)|
    ensures Path(hash, headers, h)[i] in headers
    ensures Path(hash, headers, Path(hash, headers, h)[i]) == Path(hash, headers, h)[..i + 1]
    decreases headers[h].height
  {
    var path := Path(hash, headers, h);
    if i == |path| - 1 {
      assert path[..i + 1] == path;
    } else {
      assert RecordRooted(hash, headers, h);
      var parent := headers[h].header.previousHash;
      PathPrefix(hash, headers, parent, i);
      assert path[..i + 1] == Path(hash, headers, parent)[..i + 1];
    }
  }

  /** The path meets the anchor, and above it every block is stored and none was found invalid. */
  ghost predicate OnAnchor(path: seq<Hash>, blocks: map<Hash, Block>, anchor: Option<Anchor>, invalid: set<Hash>) {
    && FirstAbove(anchor) <= |path|
    && (anchor.Some? ==> path[anchor.value.height] == anchor.value.hash)
    && (forall j :: FirstAbove(anchor) <= j < |path| ==> path[j] in blocks && path[j] !in invalid)
  }

  lemma PrefixStored(path: seq<Hash>, blocks: map<Hash, Block>, invalid: set<Hash>, anchor: Option<Anchor>, n: nat) returns (last: nat)
    requires AboveAnchor(path, anchor).Ok? && (anchor.Some? || n > 0)
    requires forall h :: h in AboveAnchor(path, anchor).value ==> h !in invalid
    requires StoredUpTo(AboveAnchor(path, anchor).value, blocks, n)
    ensures last < |path| && OnAnchor(path[..last + 1], blocks, anchor, invalid)
    ensures path[last] == if n == 0 then anchor.value.hash else AboveAnchor(path, anchor).value[n - 1]
  {
    var first, above := FirstAbove(anchor), AboveAnchor(path, anchor).value;
    last := first + n - 1;
    forall j | first <= j < first + n ensures path[j] in blocks && path[j] !in invalid {
      assert path[j] == above[j - first];
      assert above[j - first] in above;
    }
  }

  /** A tip fit for activation: better than the active one, on the anchor, fully stored and never found invalid. */
  ghost predicate Activatable(hash: HeaderHash, headers: HeaderStore, blocks: map<Hash, Block>, anchor: Option<Anchor>,
                              tip: Option<Hash>, invalid: set<Hash>, h: Hash)
    requires Rooted(hash, headers)
  {
    && h in headers && h !in invalid && Improves(headers, tip, headers[h])
    && OnAnchor(Path(hash, headers, h), blocks, anchor, invalid)
  }

  lemma ReadyForActivatable(hash: HeaderHash, headers: HeaderStore, blocks: map<Hash, Block>, anchor: Option<Anchor>,
                            tip: Option<Hash>, invalid: set<Hash>, candidate: HeaderRecord)
    requires Rooted(hash, headers) && candidate.hash in headers
    ensures var r := ReadyFor(hash, headers, blocks, anchor, tip, invalid, candidate);
            r.Some? ==> Activatable(hash, headers, blocks, anchor, tip, invalid, r.value)
  {
    hide Path, Improves, LastStored, Rooted, StoredUpTo, AboveAnchor, OnAnchor;
    var r := ReadyFor(hash, headers, blocks, anchor, tip, invalid, candidate);
    if r.Some? {
      var path := Path(hash, headers, candidate.hash);
      var above := AboveAnchor(path, anchor).value;
      var n := LastStoredIs(above, blocks, if anchor.Some? then Some(anchor.value.hash) else None);
      var last := PrefixStored(path, blocks, invalid, anchor, n);
      PathPrefix(hash, headers, candidate.hash, last);
    }
  }

  /** Whatever the scan offers may be activated. */
  lemma {:induction false} ReadyActivatable(hash: HeaderHash, headers: HeaderStore, blocks: map<Hash, Block>, anchor: Option<Anchor>,
                                            tip: Option<Hash>, invalid: set<Hash>, candidates: seq<HeaderRecord>, k: nat)
    requires Rooted(hash, headers) && k <= |candidates|
    requires forall i :: 0 <= i < |candidates| ==> candidates[i].hash in headers
    ensures var r := ReadyFrom(hash, headers, blocks, anchor, tip, invalid, candidates, k);
            r.Some? ==> Activatable(hash, headers, blocks, anchor, tip, invalid, r.value)
    decreases |candidates| - k
  {
    hide ReadyFor, Activatable;
    if k < |candidates| {
      ReadyForActivatable(hash, headers, blocks, anchor, tip, invalid, candidates[k]);
      ReadyActivatable(hash, headers, blocks, anchor, tip, invalid, candidates, k + 1);
    }
  }

  // ---- which tip is offered ----

  /** `h` ends the stored part, `n` long, of the candidate's path. */
  ghost predicate OffersAt(hash: HeaderHash, headers: HeaderStore, blocks: map<Hash, Block>, anchor: Option<Anchor>,
                           tip: Option<Hash>, invalid: set<Hash>, candidate: HeaderRecord, h: Hash, n: nat)
    requires Rooted(hash, headers) && candidate.hash in headers
  {
    var path := Path(hash, headers, candidate.hash);
    && Improves(headers, tip, candidate) && CarriesAnchor(path, anchor)
    && (forall j :: FirstAbove(anchor) <= j < |path| ==> path[j] !in invalid)
    && FirstAbove(anchor) <= n <= |path| && (forall j :: FirstAbove(anchor) <= j < n ==> path[j] in blocks)
    && (n < |path| ==> path[n] !in blocks)
    && n > 0 && h == path[n - 1] && h !in invalid && Improves(headers, tip, headers[h])
  }

  /** A candidate offers `h` exactly when `h` ends the stored part of its sound path and improves the tip. */
  lemma ReadyForExactly(hash: HeaderHash, headers: HeaderStore, blocks: map<Hash, Block>, anchor: Option<Anchor>,
                        tip: Option<Hash>, invalid: set<Hash>, candidate: HeaderRecord, h: Hash)
    requires Rooted(hash, headers) && candidate.hash in headers
    ensures ReadyFor(hash, headers, blocks, anchor, tip, invalid, candidate) == Some(h)
       <==> exists n :: OffersAt(hash, headers, blocks, anchor, tip, invalid, candidate, h, n)
  {
    hide Path, Improves, LastStored, Rooted;
    var path, first := Path(hash, headers, candidate.hash), FirstAbove(anchor);
    if CarriesAnchor(path, anchor) {
      var above := path[first..];
      assert AboveAnchor(path, anchor) == Ok(above) by { assert path[0..] == path; }
      var n := LastStoredIs(above, blocks, if anchor.Some? then Some(anchor.value.hash) else None);
      StoredShift(path, blocks, first, n);
      InvalidShift(path, invalid, first);
      if ReadyFor(hash, headers, blocks, anchor, tip, invalid, candidate) == Some(h) {
        assert OffersAt(hash, headers, blocks, anchor, tip, invalid, candidate, h, first + n);
      }
      if exists m :: OffersAt(hash, headers, blocks, anchor, tip, invalid, candidate, h, m) {
        var m :| OffersAt(hash, headers, blocks, anchor, tip, invalid, candidate, h, m);
        assert m == first + n;
      }
    }
  }

  lemma StoredShift(path: seq<Hash>, blocks: map<Hash, Block>, first: nat, n: nat)
    requires first <= |path| && StoredUpTo(path[first..], blocks, n)
    ensures first + n <= |path| && (forall j :: first <= j < first + n ==> path[j] in blocks)
    ensures first + n < |path| ==> path[first + n] !in blocks
    ensures n > 0 ==> path[first..][n - 1] == path[first + n - 1]
  {
    forall j | first <= j < first + n ensures path[j] in blocks {
      assert path[j] == path[first..][j - first];
    }
  }

  lemma InvalidShift(path: seq<Hash>, invalid: set<Hash>, first: nat)
    requires first <= |path|
    ensures (exists h :: h in path[first..] && h in invalid) <==> !(forall j :: first <= j < |path| ==> path[j] !in invalid)
  {
    forall j | first <= j < |path| && path[j] in invalid ensures exists h :: h in path[first..] && h in invalid {
      assert path[j] == path[first..][j - first];
    }
  }

  /** The scan takes the first candidate that offers anything, and answers nothing only when none does. */
  lemma {:induction false} ReadyChoice(hash: HeaderHash, headers: HeaderStore, blocks: map<Hash, Block>, anchor: Option<Anchor>,
                                       tip: Option<Hash>, invalid: set<Hash>, candidates: seq<HeaderRecord>, k: nat) returns (n: nat)
    requires Rooted(hash, headers) && k <= |candidates|
    requires forall i :: 0 <= i < |candidates| ==> candidates[i].hash in headers
    ensures k <= n <= |candidates|
    ensures forall j :: k <= j < n ==> ReadyFor(hash, headers, blocks, anchor, tip, invalid, candidates[j]).None?
    ensures n < |candidates| ==> ReadyFor(hash, headers, blocks, anchor, tip, invalid, candidates[n]).Some?
    ensures ReadyFrom(hash, headers, blocks, anchor, tip, invalid, candidates, k)
            == if n < |candidates| then ReadyFor(hash, headers, blocks, anchor, tip, invalid, candidates[n]) else None
    decreases |candidates| - k
  {
    hide ReadyFor;
    n := k;
    if k < |candidates| && ReadyFor(hash, headers, blocks, anchor, tip, invalid, candidates[k]).None? {
      n := ReadyChoice(hash, headers, blocks, anchor, tip, invalid, candidates, k + 1);
    }
  }
}
