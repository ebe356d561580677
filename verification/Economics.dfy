/** Scheduled issuance: the era-by-era closed form and the supply cap (economics.py). */
module Economics {
  import opened Prelude
  import opened Arith
  import opened Models

  /** `x >> k`. */
  function Shr(x: nat, k: nat): nat {
    if k == 0 then x else Shr(x, k - 1) / 2
  }

  function Era(h: nat, p: Params): nat {
    h / p.halvingInterval
  }

  function RegularMiner(h: nat, p: Params): nat {
    Shr(p.initialMinerSubsidy, Era(h, p))
  }

  predicate ClosesEpoch(h: nat, p: Params) {
    (h + 1) % p.epochLength == 0
  }

  function ScheduledNode(h: nat, p: Params): nat {
    if ClosesEpoch(h, p) then Shr(p.initialNodeEpochReward, Era(h, p)) else 0
  }

  /** The miner and node amounts of block `h` when `minted` has been issued before it. */
  function SplitAfter(h: nat, minted: nat, p: Params): (nat, nat) {
    var miner, node := RegularMiner(h, p), ScheduledNode(h, p);
    var remaining := Max(0, p.maxMoney - minted);
    if (miner <= 0 && node <= 0) || remaining <= 0 then (0, 0)
    else (Min(miner, remaining), Min(node, remaining - Min(miner, remaining)))
  }

  /** What blocks 0..k-1 mint, added up block by block: the reference for the closed forms. */
  function Minted(k: nat, p: Params): (nat, nat) {
    if k == 0 then (0, 0)
    else
      var before := Minted(k - 1, p);
      var split := SplitAfter(k - 1, before.0 + before.1, p);
      (before.0 + split.0, before.1 + split.1)
  }

  function TotalMinted(k: nat, p: Params): nat {
    Minted(k, p).0 + Minted(k, p).1
  }

  /** The split that block `h` is entitled to. */
  function SubsidySplit(h: nat, p: Params): (nat, nat) {
    SplitAfter(h, TotalMinted(h, p), p)
  }

  /** Scheduled amounts of blocks 0..k-1 before the cap. */
  function MinerSum(k: nat, p: Params): nat {
    if k == 0 then 0 else MinerSum(k - 1, p) + RegularMiner(k - 1, p)
  }

  function NodeSum(k: nat, p: Params): nat {
    if k == 0 then 0 else NodeSum(k - 1, p) + ScheduledNode(k - 1, p)
  }

  function Uncapped(k: nat, p: Params): nat {
    MinerSum(k, p) + NodeSum(k, p)
  }

  // ---- arithmetic of eras and epochs ----

  /** Epochs closed by the first `k` blocks. */
  function EpochsIn(k: nat, p: Params): nat {
    k / p.epochLength
  }

  /** The heights from `a` up to the end of its halving era all belong to that era. */
  lemma EraSpan(a: nat, b: nat, p: Params)
    requires a <= b <= (Era(a, p) + 1) * p.halvingInterval
    ensures forall i :: a <= i < b ==> Era(i, p) == Era(a, p)
  {
    DivBounds(a, p.halvingInterval);
    MulStep(Era(a, p), p.halvingInterval);
    forall i | a <= i < b ensures Era(i, p) == Era(a, p) {
      DivIs(i, p.halvingInterval, Era(a, p));
    }
  }

  lemma {:induction false} ShrVanishes(x: nat, k: nat, j: nat)
    requires Shr(x, k) == 0 && k <= j
    ensures Shr(x, j) == 0
  {
    if k < j { ShrVanishes(x, k, j - 1); }
  }

  /** Where every block schedules the same miner amount, the amounts add up to a product. */
  lemma {:induction false} MinerEra(a: nat, b: nat, amount: nat, p: Params)
    requires a <= b && (forall i :: a <= i < b ==> RegularMiner(i, p) == amount)
    ensures MinerSum(b, p) == MinerSum(a, p) + amount * (b - a)
  {
    hide RegularMiner;
    if a < b {
      MinerEra(a, b - 1, amount, p);
      MulStep(b - 1 - a, amount);
    }
  }

  /** Where every closed epoch schedules the same reward, they add up to that reward times the epochs closed. */
  lemma {:induction false} NodeEra(a: nat, b: nat, reward: nat, p: Params)
    requires a <= b && (forall i :: a <= i < b ==> ScheduledNode(i, p) == if ClosesEpoch(i, p) then reward else 0)
    ensures NodeSum(b, p) == NodeSum(a, p) + reward * (EpochsIn(b, p) - EpochsIn(a, p))
  {
    hide ScheduledNode;
    if a < b {
      NodeEra(a, b - 1, reward, p);
      DivStep(b, p.epochLength);
      MulStep(EpochsIn(b - 1, p) - EpochsIn(a, p), reward);
    }
  }

  /** The first epoch-closing height at or after `a`, as the code computes it. */
  function FirstEpochHeight(a: nat, p: Params): (first: nat)
    ensures first >= a
  {
    a + (p.epochLength - 1 - a) % p.epochLength
  }

  lemma FirstEpochHeightIs(a: nat, p: Params)
    ensures FirstEpochHeight(a, p) + 1 == (EpochsIn(a, p) + 1) * p.epochLength
  {
    var d := p.epochLength;
    var q := a / d;
    DivBounds(a, d);
    MulStep(q, d);
    MulAdd(q, -q, d);
    DivIs(d - 1 - a, d, -q);
  }

  /** The closed-form epoch count of heights a..e equals the number of epochs they close. */
  lemma EpochCount(a: nat, e: nat, p: Params)
    requires a <= e
    ensures EpochsIn(e + 1, p) - EpochsIn(a, p)
            == (if FirstEpochHeight(a, p) <= e then (e - FirstEpochHeight(a, p)) / p.epochLength + 1 else 0)
  {
    var d := p.epochLength;
    var first, q := FirstEpochHeight(a, p), a / d;
    FirstEpochHeightIs(a, p);
    if first <= e {
      DivShift(e - first, q + 1, d);
    } else {
      MulStep(q, d);
      DivBounds(a, d);
      DivIs(e + 1, d, q);
    }
  }

  /** Once both rewards have been halved away nothing more is scheduled. */
  lemma {:induction false} NothingAfter(a: nat, b: nat, p: Params)
    requires a <= b
    requires Shr(p.initialMinerSubsidy, Era(a, p)) == 0 && Shr(p.initialNodeEpochReward, Era(a, p)) == 0
    ensures MinerSum(b, p) == MinerSum(a, p) && NodeSum(b, p) == NodeSum(a, p)
  {
    if a < b {
      NothingAfter(a, b - 1, p);
      DivMonotone(a, b - 1, p.halvingInterval);
      ShrVanishes(p.initialMinerSubsidy, Era(a, p), Era(b - 1, p));
      ShrVanishes(p.initialNodeEpochReward, Era(a, p), Era(b - 1, p));
    }
  }

  lemma EraReaches(a: nat, p: Params)
    ensures a < (Era(a, p) + 1) * p.halvingInterval
  {
    DivBounds(a, p.halvingInterval);
    MulStep(Era(a, p), p.halvingInterval);
  }

  /** What one iteration of the era loop adds is what its blocks schedule. */
  lemma EraTotals(a: nat, e: nat, p: Params)
    requires a <= e < (Era(a, p) + 1) * p.halvingInterval
    ensures MinerSum(e + 1, p) == MinerSum(a, p) + Shr(p.initialMinerSubsidy, Era(a, p)) * (e - a + 1)
    ensures NodeSum(e + 1, p) == NodeSum(a, p)
              + (if FirstEpochHeight(a, p) <= e
                 then Shr(p.initialNodeEpochReward, Era(a, p)) * ((e - FirstEpochHeight(a, p)) / p.epochLength + 1) else 0)
  {
    hide Shr, MinerSum, NodeSum, FirstEpochHeight, EpochsIn, Era;
    EraSpan(a, e + 1, p);
    var amount, reward := Shr(p.initialMinerSubsidy, Era(a, p)), Shr(p.initialNodeEpochReward, Era(a, p));
    MinerEra(a, e + 1, amount, p);
    NodeEra(a, e + 1, reward, p);
    EpochCount(a, e, p);
  }

  /** `_uncapped_subsidy_totals_through_height`: one step per halving era. */
  method UncappedTotals(height: int, p: Params) returns (miner: nat, node: nat)
    ensures miner == MinerSum(Max(height + 1, 0), p)
    ensures node == NodeSum(Max(height + 1, 0), p)
  {
    miner, node := 0, 0;
    if height < 0 { return; }
    var current: nat := 0;
    while current <= height
      invariant current <= height + 1
      invariant miner == MinerSum(current, p) && node == NodeSum(current, p)
    {
      var halving := Era(current, p);
      var subsidy := Shr(p.initialMinerSubsidy, halving);
      var reward := Shr(p.initialNodeEpochReward, halving);
      if subsidy <= 0 && reward <= 0 {
        NothingAfter(current, height + 1, p);
        break;
      }
      EraReaches(current, p);
      var eraEnd := Min(height, (halving + 1) * p.halvingInterval - 1);
      var blockCount := eraEnd - current + 1;
      EraTotals(current, eraEnd, p);
      miner := miner + subsidy * blockCount;
      var first := FirstEpochHeight(current, p);
      if first <= eraEnd {
        node := node + reward * ((eraEnd - first) / p.epochLength + 1);
      }
      current := eraEnd + 1;
    }
  }

  // ---- the cap ----

  lemma {:induction false} UncappedMonotone(a: nat, b: nat, p: Params)
    requires a <= b
    ensures Uncapped(a, p) <= Uncapped(b, p)
  {
    if a < b { UncappedMonotone(a, b - 1, p); }
  }

  /** The block-by-block total is the schedule cut off at the supply cap, miner first. */
  lemma {:induction false} MintedIsCapped(k: nat, p: Params)
    ensures TotalMinted(k, p) == Min(Uncapped(k, p), p.maxMoney)
    ensures Uncapped(k, p) <= p.maxMoney ==> Minted(k, p) == (MinerSum(k, p), NodeSum(k, p))
  {
    hide RegularMiner, ScheduledNode;
    if k > 0 { MintedIsCapped(k - 1, p); }
  }

  lemma {:induction false} MintedStopsAtCap(a: nat, b: nat, p: Params)
    requires a <= b && TotalMinted(a, p) >= p.maxMoney
    ensures Minted(b, p) == Minted(a, p)
  {
    if a < b { MintedStopsAtCap(a, b - 1, p); }
  }

  /** The split of the block that meets the cap, as the binary search's tail computes it. */
  function SplitAtCap(h: nat, p: Params): (nat, nat) {
    var remaining := Max(0, p.maxMoney - MinerSum(h, p) - NodeSum(h, p));
    var miner := Min(RegularMiner(h, p), remaining);
    (miner, Min(ScheduledNode(h, p), remaining - miner))
  }

  /** From the block that meets the cap onwards the totals are those the search returns. */
  lemma MintedAtCap(c: nat, k: nat, p: Params)
    requires c < k
    requires c == 0 || Uncapped(c, p) < p.maxMoney
    requires Uncapped(c + 1, p) >= p.maxMoney
    ensures Minted(k, p) == (MinerSum(c, p) + SplitAtCap(c, p).0, NodeSum(c, p) + SplitAtCap(c, p).1)
  {
    hide RegularMiner, ScheduledNode;
    MintedIsCapped(c, p);
    MintedIsCapped(c + 1, p);
    MintedStopsAtCap(c + 1, k, p);
  }

  lemma MintedTotal(k: nat, p: Params)
    ensures TotalMinted(k, p) == Minted(k, p).0 + Minted(k, p).1
  {
  }

  lemma NothingMinted(p: Params)
    ensures Minted(0, p) == (0, 0)
  {
  }

  /** `subsidy_totals_through_height`: closed form below the cap, binary search for the block that meets it. */
  method SubsidyTotals(height: int, p: Params) returns (miner: nat, node: nat)
    ensures (miner, node) == Minted(Max(height + 1, 0), p)
    ensures miner + node == Min(Uncapped(Max(height + 1, 0), p), p.maxMoney)
  {
    hide MinerSum, NodeSum, Minted, RegularMiner, ScheduledNode, TotalMinted;
    MintedIsCapped(Max(height + 1, 0), p);
    MintedTotal(Max(height + 1, 0), p);
    if height < 0 {
      NothingMinted(p);
      return 0, 0;
    }
    miner, node := UncappedTotals(height, p);
    if miner + node <= p.maxMoney { return; }
    var low: nat, high: nat := 0, height;
    while low < high
      invariant low <= high <= height
      invariant low == 0 || Uncapped(low, p) < p.maxMoney
      invariant Uncapped(high + 1, p) >= p.maxMoney
    {
      var midpoint := (low + high) / 2;
      var m, n := UncappedTotals(midpoint, p);
      if m + n >= p.maxMoney {
        high := midpoint;
      } else {
        low := midpoint + 1;
      }
    }
    var minerBefore, nodeBefore := UncappedTotals(low - 1, p);
    var remaining := Max(0, p.maxMoney - minerBefore - nodeBefore);
    var minerAtCap := Min(RegularMiner(low, p), remaining);
    remaining := remaining - minerAtCap;
    var nodeAtCap := Min(ScheduledNode(low, p), remaining);
    MintedAtCap(low, height + 1, p);
    return minerBefore + minerAtCap, nodeBefore + nodeAtCap;
  }

  /** `subsidy_split_chipbits`. */
  method ComputeSubsidySplit(height: int, p: Params) returns (r: Result<(nat, nat)>)
    ensures r == if height < 0 then Err(Malformed) else Ok(SubsidySplit(height, p))
  {
    if height < 0 { return Err(Malformed); }
    var miner, node := RegularMiner(height, p), ScheduledNode(height, p);
    if miner <= 0 && node <= 0 { return Ok((0, 0)); }
    var minerTotal, nodeTotal := SubsidyTotals(height - 1, p);
    var remaining := Max(0, p.maxMoney - (minerTotal + nodeTotal));
    if remaining <= 0 { return Ok((0, 0)); }
    var minerSubsidy := Min(miner, remaining);
    return Ok((minerSubsidy, Min(node, remaining - minerSubsidy)));
  }

  /** Issuance never passes the cap, never decreases, and grows by exactly each block's split. */
  lemma SupplyCapHolds(k: nat, p: Params)
    ensures TotalMinted(k, p) <= p.maxMoney
    ensures TotalMinted(k + 1, p) == TotalMinted(k, p) + SubsidySplit(k, p).0 + SubsidySplit(k, p).1
  {
    MintedIsCapped(k, p);
  }

  // ---- adaptive reward-node fees ----

  const REWARD_NODE_FEE_TARGET_COUNT: pos := 20_000
  const REWARD_NODE_FEE_LOG_SCALE: pos := 1_000_000

  function Pow2(k: nat): pos {
    if k == 0 then 1 else 2 * Pow2(k - 1)
  }

  /** `value.bit_length() - 1`. */
  function Exponent(v: pos): nat {
    if v == 1 then 0 else 1 + Exponent(v / 2)
  }

  function ApproxLog2(v: pos): nat {
    var lower := Pow2(Exponent(v));
    Exponent(v) * REWARD_NODE_FEE_LOG_SCALE + ((v - lower) * REWARD_NODE_FEE_LOG_SCALE) / lower
  }

  /** `_adaptive_reward_node_fee_chipbits`: the full fee for one node, falling to the minimum at the target count. */
  function AdaptiveFee(count: int, maximum: int, minimum: int): Result<int> {
    if maximum <= 0 || minimum <= 0 || minimum > maximum then Err(Malformed)
    else
      var clamped: pos := Min(Max(count, 1), REWARD_NODE_FEE_TARGET_COUNT);
      if clamped == 1 then Ok(maximum)
      else
        Ok(Max(minimum, maximum - Discount(clamped, maximum - minimum)))
  }

  function Discount(count: pos, span: nat): int {
    (span * ApproxLog2(count)) / TargetLog()
  }

  function TargetLog(): (r: pos) {
    ApproxLog2Positive(REWARD_NODE_FEE_TARGET_COUNT);
    ApproxLog2(REWARD_NODE_FEE_TARGET_COUNT)
  }

  lemma {:induction false} ExponentBounds(v: pos)
    ensures Pow2(Exponent(v)) <= v < 2 * Pow2(Exponent(v))
  {
    if v > 1 { ExponentBounds(v / 2); }
  }

  lemma {:induction false} ExponentMonotone(v: pos, w: pos)
    requires v <= w
    ensures Exponent(v) <= Exponent(w)
  {
    if v > 1 { ExponentMonotone(v / 2, w / 2); }
  }

  lemma ApproxLog2Band(v: pos)
    ensures Exponent(v) * REWARD_NODE_FEE_LOG_SCALE <= ApproxLog2(v) < (Exponent(v) + 1) * REWARD_NODE_FEE_LOG_SCALE
  {
    ExponentBounds(v);
    var lower := Pow2(Exponent(v));
    MulLe(v - lower + 1, lower, REWARD_NODE_FEE_LOG_SCALE);
    DivReaches((v - lower) * REWARD_NODE_FEE_LOG_SCALE, lower, REWARD_NODE_FEE_LOG_SCALE);
    DivReaches((v - lower) * REWARD_NODE_FEE_LOG_SCALE, lower, 0);
  }

  lemma ApproxLog2Positive(v: pos)
    requires v > 1
    ensures ApproxLog2(v) > 0
  {
    ApproxLog2Band(v);
  }

  /** The fixed-point logarithm is monotonic across the seams between powers of two. */
  lemma ApproxLog2Monotone(v: pos, w: pos)
    requires v <= w
    ensures ApproxLog2(v) <= ApproxLog2(w)
  {
    ExponentMonotone(v, w);
    ApproxLog2Band(v);
    ApproxLog2Band(w);
    if Exponent(v) == Exponent(w) {
      var lower := Pow2(Exponent(v));
      DivMonotone((v - lower) * REWARD_NODE_FEE_LOG_SCALE, (w - lower) * REWARD_NODE_FEE_LOG_SCALE, lower);
    } else {
      MulLe(Exponent(v) + 1, Exponent(w), REWARD_NODE_FEE_LOG_SCALE);
    }
  }

  lemma DiscountRises(a: pos, b: pos, span: nat)
    requires a <= b
    ensures 0 <= Discount(a, span) <= Discount(b, span)
    ensures Discount(REWARD_NODE_FEE_TARGET_COUNT, span) == span
  {
    hide ApproxLog2;
    ApproxLog2Monotone(a, b);
    MulLe(0, ApproxLog2(a), span);
    MulLe(ApproxLog2(a), ApproxLog2(b), span);
    DivReaches(span * ApproxLog2(a), TargetLog(), 0);
    DivMonotone(span * ApproxLog2(a), span * ApproxLog2(b), TargetLog());
    DivShift(0, span, TargetLog());
  }

  /** More registered nodes never cost more, the fee stays within its bounds and meets both of them. */
  lemma AdaptiveFeeFalls(c: int, d: int, maximum: int, minimum: int)
    requires 0 < minimum <= maximum && c <= d
    ensures AdaptiveFee(c, maximum, minimum).Ok? && AdaptiveFee(d, maximum, minimum).Ok?
    ensures minimum <= AdaptiveFee(d, maximum, minimum).value <= AdaptiveFee(c, maximum, minimum).value <= maximum
    ensures c <= 1 ==> AdaptiveFee(c, maximum, minimum).value == maximum
    ensures d >= REWARD_NODE_FEE_TARGET_COUNT ==> AdaptiveFee(d, maximum, minimum).value == minimum
  {
    hide Discount;
    var a: pos, b: pos := Min(Max(c, 1), REWARD_NODE_FEE_TARGET_COUNT), Min(Max(d, 1), REWARD_NODE_FEE_TARGET_COUNT);
    DiscountRises(a, b, maximum - minimum);
    DiscountRises(a, a, maximum - minimum);
  }
}
