/** Compact targets, work and retargeting (pow.py). */
module Pow {
  import opened Prelude
  import opened Arith
  import opened Models

  function Pow256(k: nat): pos {
    if k == 0 then 1 else 256 * Pow256(k - 1)
  }

  /** `(x.bit_length() + 7) // 8`. */
  function ByteLength(x: nat): nat {
    if x == 0 then 0 else 1 + ByteLength(x / 256)
  }

  /** `bits_to_target`: exponent byte, sign bit, 23-bit mantissa. */
  function BitsToTarget(bits: nat): Result<nat> {
    var exponent, mantissa := bits / 0x1000000, bits % 0x800000;
    if bits == 0 || (bits / 0x800000) % 2 == 1 || mantissa == 0 then Err(Malformed)
    else if exponent <= 3 then Ok(mantissa / Pow256(3 - exponent))
    else Ok(mantissa * Pow256(exponent - 3))
  }

  /** The three leading bytes of a target, with zero bytes appended to a short one. */
  function LeadingBytes(t: pos): nat {
    var size := ByteLength(t);
    if size <= 3 then t * Pow256(3 - size) else t / Pow256(size - 3)
  }

  /** `target_to_bits`: a mantissa whose top bit is set is shifted so that it is not read as a sign. */
  function TargetToBits(target: int): Result<nat> {
    if target <= 0 then Err(Malformed)
    else
      var size, mantissa := ByteLength(target), LeadingBytes(target);
      if (mantissa / 0x800000) % 2 == 1 then Ok((size + 1) * 0x1000000 + (mantissa / 256) % 0x800000)
      else Ok(size * 0x1000000 + mantissa % 0x800000)
  }

  // ---- the shape of an encoding ----

  lemma {:induction false} ByteLengthBounds(x: pos)
    ensures ByteLength(x) >= 1
    ensures Pow256(ByteLength(x) - 1) <= x < Pow256(ByteLength(x))
  {
    if x >= 256 { ByteLengthBounds(x / 256); }
  }

  /** The exponent byte that `t` is encoded with. */
  function CompactExponent(t: pos): (e: nat)
    ensures e >= 1
  {
    ByteLengthBounds(t);
    if t >= 128 * Pow256(ByteLength(t) - 1) then ByteLength(t) + 1 else ByteLength(t)
  }

  /** Targets with exponent `e` fill the band from 128 * 256^(e-2) up to 128 * 256^(e-1). */
  lemma ExponentBand(t: pos)
    ensures var e := CompactExponent(t);
            t < 128 * Pow256(e - 1) && (e >= 2 ==> t >= 128 * Pow256(e - 2))
  {
    ByteLengthBounds(t);
  }

  /** The weight of the last mantissa digit. */
  function CompactUnit(e: nat): pos {
    if e <= 3 then 1 else Pow256(e - 3)
  }

  function CompactMantissa(t: pos): nat {
    var e := CompactExponent(t);
    if e <= 3 then t * Pow256(3 - e) else t / Pow256(e - 3)
  }

  lemma Pow256Small()
    ensures Pow256(0) == 1 && Pow256(1) == 256 && Pow256(2) == 65536
  {
  }

  lemma MantissaRange(t: pos)
    ensures 0x8000 <= CompactMantissa(t) < 0x800000
  {
    ExponentBand(t);
    Pow256Small();
    var e := CompactExponent(t);
    if e > 3 {
      var g := Pow256(e - 3);
      assert Pow256(e - 2) == 256 * g && Pow256(e - 1) == 65536 * g;
      DivReaches(t, g, 0x8000);
      DivReaches(t, g, 0x800000);
    }
  }

  lemma LeadingBytesRange(t: pos)
    ensures LeadingBytes(t) < 0x1000000
    ensures LeadingBytes(t) >= 0x800000 <==> t >= 128 * Pow256(ByteLength(t) - 1)
  {
    ByteLengthBounds(t);
    Pow256Small();
    var n := ByteLength(t);
    if n > 3 {
      var g := Pow256(n - 3);
      assert Pow256(n - 2) == 256 * g && Pow256(n - 1) == 65536 * g && Pow256(n) == 0x1000000 * g;
      DivReaches(t, g, 0x1000000);
      DivReaches(t, g, 0x800000);
    }
  }

  /** Every encoding is its exponent and its normalized mantissa. */
  lemma EncodingShape(t: pos)
    ensures TargetToBits(t) == Ok(CompactExponent(t) * 0x1000000 + CompactMantissa(t))
  {
    ByteLengthBounds(t);
    LeadingBytesRange(t);
    MantissaRange(t);
    Pow256Small();
    var n := ByteLength(t);
    if t >= 128 * Pow256(n - 1) {
      if n > 3 {
        DivDiv(t, Pow256(n - 3), 256);
      }
      assert LeadingBytes(t) / 256 == CompactMantissa(t);
    } else {
      assert LeadingBytes(t) == CompactMantissa(t);
    }
  }

  lemma DecodeShape(e: nat, m: nat)
    requires 0 < m < 0x800000
    ensures BitsToTarget(e * 0x1000000 + m) == Ok(if e <= 3 then m / Pow256(3 - e) else m * Pow256(e - 3))
  {
    var bits := e * 0x1000000 + m;
    assert bits / 0x1000000 == e && bits % 0x800000 == m && (bits / 0x800000) % 2 == 0;
  }

  /** The target that an encoding stands for: `t` rounded down to its mantissa. */
  function Rounded(t: pos): nat {
    (t / CompactUnit(CompactExponent(t))) * CompactUnit(CompactExponent(t))
  }

  /** Decoding an encoding never fails and rounds the target down. */
  lemma DecodeEncode(t: pos)
    ensures TargetToBits(t).Ok? && BitsToTarget(TargetToBits(t).value) == Ok(Rounded(t))
  {
    EncodingShape(t);
    MantissaRange(t);
    var e := CompactExponent(t);
    DecodeShape(e, CompactMantissa(t));
    if e <= 3 { DivShift(0, t, Pow256(3 - e)); }
  }

  lemma {:induction false} Pow256Monotone(a: nat, b: nat)
    requires a <= b
    ensures Pow256(a) <= Pow256(b)
  {
    if a < b { Pow256Monotone(a, b - 1); }
  }

  /** Rounding never raises a target, loses less than one part in 2^15 and leaves it positive. */
  lemma RoundingLoss(t: pos)
    ensures 0 < Rounded(t) <= t
    ensures (t - Rounded(t)) * 0x8000 < t
  {
    ExponentBand(t);
    var e := CompactExponent(t);
    var g := CompactUnit(e);
    DivBounds(t, g);
    if e > 3 {
      assert Pow256(e - 2) == 256 * g;
    }
  }

  /** Rounding stays inside the band of its exponent, so encoding it again changes nothing. */
  lemma RoundedSameExponent(t: pos)
    ensures Rounded(t) > 0 && CompactExponent(Rounded(t)) == CompactExponent(t)
    ensures Rounded(Rounded(t)) == Rounded(t)
  {
    RoundingLoss(t);
    ExponentBand(t);
    var e, r := CompactExponent(t), Rounded(t);
    var g := CompactUnit(e);
    if e > 3 {
      assert 128 * Pow256(e - 2) == 0x8000 * g;
      FloorMonotone(128 * Pow256(e - 2), t, g);
      DivShift(0, 0x8000, g);
    }
    BandUnique(r, e);
    DivShift(0, t / g, g);
  }

  /** A band determines its exponent. */
  lemma BandUnique(t: pos, e: nat)
    requires e >= 1 && t < 128 * Pow256(e - 1) && (e >= 2 ==> t >= 128 * Pow256(e - 2))
    ensures CompactExponent(t) == e
  {
    ExponentBand(t);
    var f := CompactExponent(t);
    if f < e { Pow256Monotone(f - 1, e - 2); assert false; }
    if f > e { Pow256Monotone(e - 1, f - 2); assert false; }
  }

  /** Re-encoding a decoded encoding gives the same bits. */
  lemma EncodingIdempotent(t: pos)
    ensures Rounded(t) > 0 && TargetToBits(Rounded(t)) == TargetToBits(t)
  {
    hide TargetToBits, CompactExponent, Pow256;
    RoundedSameExponent(t);
    EncodingShape(t);
    var r: pos := Rounded(t);
    EncodingShape(r);
    var e := CompactExponent(t);
    if e > 3 {
      var g := Pow256(e - 3);
      DivShift(0, t / g, g);
      assert r == 0 + (t / g) * g;
    }
  }

  /** Rounding keeps the order of targets. */
  lemma RoundingMonotone(t: pos, u: pos)
    requires t <= u
    ensures Rounded(t) <= Rounded(u)
  {
    ExponentBand(t);
    ExponentBand(u);
    RoundingLoss(t);
    RoundingLoss(u);
    var e, f := CompactExponent(t), CompactExponent(u);
    if e == f {
      FloorMonotone(t, u, CompactUnit(e));
    } else {
      if e > f { Pow256Monotone(f - 1, e - 2); assert false; }
      Pow256Monotone(e - 1, f - 2);
      if f > 3 {
        var g := CompactUnit(f);
        assert 128 * Pow256(f - 2) == 0x8000 * g;
        DivShift(0, 0x8000, g);
        FloorMonotone(128 * Pow256(f - 2), u, g);
      } else {
        assert Rounded(u) == u;
      }
    }
  }

  // ---- work and retargeting ----

  /** 2^256. */
  const HASH_SPACE: pos := 0x1_0000000000000000_0000000000000000_0000000000000000_0000000000000000

  function WorkOf(target: nat): nat {
    HASH_SPACE / (target + 1)
  }

  function HeaderWork(bits: nat): Result<nat> {
    var t := BitsToTarget(bits);
    if t.Err? then Err(t.fault) else Ok(WorkOf(t.value))
  }

  /** `verify_proof_of_work`, given the header hash read as a number. */
  function ProofOfWork(bits: nat, hash: nat): Result<bool> {
    var t := BitsToTarget(bits);
    if t.Err? then Err(t.fault) else Ok(0 < t.value < HASH_SPACE && hash <= t.value)
  }

  /** A header that meets its target contributes work. */
  lemma WorkPositive(bits: nat, hash: nat)
    requires ProofOfWork(bits, hash) == Ok(true)
    ensures HeaderWork(bits).Ok? && HeaderWork(bits).value > 0
  {
    DivReaches(HASH_SPACE, BitsToTarget(bits).value + 1, 1);
  }

  function BlockTime(height: int, p: Params): pos {
    if p.legacyTargetBlockTime.Some? && height < p.targetBlockTimeActivation then p.legacyTargetBlockTime.value
    else p.targetBlockTime
  }

  function TargetTimespan(height: int, p: Params): pos {
    MulPositive(BlockTime(height, p), p.difficultyWindow);
    BlockTime(height, p) * p.difficultyWindow
  }

  /** The timespan limited to a quarter and four times the intended one. */
  function BoundedTimespan(actual: int, span: pos): nat {
    Max(span / 4, Min(actual, span * 4))
  }

  /** `calculate_next_work_required`. */
  function NextBits(previous: nat, actual: int, height: int, p: Params): Result<nat> {
    var span := TargetTimespan(height, p);
    var target := BitsToTarget(previous);
    if target.Err? then Err(target.fault)
    else
      var next := (target.value * BoundedTimespan(actual, span)) / span;
      var limit := BitsToTarget(p.genesisBits);
      if limit.Err? then Err(limit.fault) else TargetToBits(Min(next, limit.value))
  }

  /** A retarget stays within the limit and rises at most fourfold. */
  lemma RetargetBounds(previous: nat, actual: int, height: int, p: Params)
    requires NextBits(previous, actual, height, p).Ok?
    ensures BitsToTarget(previous).Ok? && BitsToTarget(p.genesisBits).Ok?
    ensures var next := BitsToTarget(NextBits(previous, actual, height, p).value);
            next.Ok? && 0 < next.value <= Min(BitsToTarget(p.genesisBits).value, 4 * BitsToTarget(previous).value)
  {
    hide BitsToTarget, Rounded, TargetTimespan, BoundedTimespan, TargetToBits;
    var span := TargetTimespan(height, p);
    var target := BitsToTarget(previous).value;
    var next := (target * BoundedTimespan(actual, span)) / span;
    Fourfold(target, actual, span);
    NoTarget();
    var t: pos := Min(next, BitsToTarget(p.genesisBits).value);
    DecodeEncode(t);
    RoundingLoss(t);
  }

  /** The clamp on the timespan lets the target grow at most fourfold. */
  lemma Fourfold(target: nat, actual: int, span: pos)
    ensures (target * BoundedTimespan(actual, span)) / span <= 4 * target
  {
    var bounded := BoundedTimespan(actual, span);
    QuarterBelow(span);
    MulLe(bounded, 4 * span, target);
    DivMonotone(target * bounded, (4 * target) * span, span);
    DivShift(0, 4 * target, span);
  }

  lemma NoTarget()
    ensures forall t: int :: t <= 0 ==> TargetToBits(t).Err?
  {
  }

  lemma QuarterBelow(span: pos)
    ensures span / 4 <= 4 * span
  {
  }
}
