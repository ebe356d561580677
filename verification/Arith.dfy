/** The nonlinear integer facts that the other modules rely on. */
module Arith {

  type pos = n: int | n > 0 witness 1

  lemma MulLe(a: int, b: int, d: int)
    requires a <= b && 0 <= d
    ensures a * d <= b * d
  {
  }

  lemma MulStep(n: int, d: int)
    ensures (n + 1) * d == n * d + d
  {
  }

  lemma MulAdd(m: int, n: int, d: int)
    ensures (m + n) * d == m * d + n * d
  {
  }

  lemma DivBounds(i: int, d: pos)
    ensures (i / d) * d <= i < (i / d) * d + d
    ensures i % d == i - (i / d) * d
  {
  }

  /** A quotient is the only number whose multiple of `d` lies within `d` below `i`. */
  lemma DivIs(i: int, d: pos, q: int)
    requires q * d <= i < q * d + d
    ensures i / d == q && i % d == i - q * d
  {
    DivBounds(i, d);
    var k := i / d;
    if k < q {
      MulLe(k + 1, q, d);
      MulStep(k, d);
      assert false;
    }
    if k > q {
      MulLe(q + 1, k, d);
      MulStep(q, d);
      assert false;
    }
  }

  lemma DivMonotone(i: int, j: int, d: pos)
    requires i <= j
    ensures i / d <= j / d
  {
    DivBounds(i, d);
    DivBounds(j, d);
    var a, b := i / d, j / d;
    if b < a {
      MulLe(b + 1, a, d);
      MulStep(b, d);
      assert false;
    }
  }

  /** Stepping from `b - 1` to `b` passes a multiple of `d` exactly when `b` is one. */
  lemma DivStep(b: int, d: pos)
    ensures b / d == (b - 1) / d + (if b % d == 0 then 1 else 0)
  {
    DivBounds(b, d);
    var q := b / d;
    if b % d == 0 {
      MulStep(q - 1, d);
      DivIs(b - 1, d, q - 1);
    } else {
      DivIs(b - 1, d, q);
    }
  }

  lemma DivShift(i: int, k: int, d: pos)
    ensures (i + k * d) / d == i / d + k
    ensures (i + k * d) % d == i % d
  {
    DivBounds(i, d);
    MulAdd(i / d, k, d);
    DivIs(i + k * d, d, i / d + k);
  }

  /** `i / d >= k` exactly when `i` has reached the k-th multiple of `d`. */
  lemma DivReaches(i: int, d: pos, k: int)
    ensures i / d >= k <==> i >= k * d
  {
    DivBounds(i, d);
    var q := i / d;
    if q >= k {
      MulLe(k, q, d);
    } else {
      MulLe(q + 1, k, d);
      MulStep(q, d);
    }
  }

  lemma MulPositive(a: int, b: int)
    requires a > 0 && b > 0
    ensures a * b > 0
  {
  }

  lemma MulAssoc(a: int, b: int, c: int)
    ensures a * (b * c) == (a * b) * c
  {
  }

  /** Dividing twice is dividing by the product. */
  lemma DivDiv(x: int, a: pos, b: pos)
    ensures a * b > 0
    ensures (x / a) / b == x / (a * b)
  {
    MulPositive(a, b);
    var q := (x / a) / b;
    DivBounds(x, a);
    DivBounds(x / a, b);
    MulLe(q * b, x / a, a);
    MulLe(x / a + 1, q * b + b, a);
    MulStep(x / a, a);
    assert (q * b) * a == q * (a * b);
    assert (q * b + b) * a == q * (a * b) + a * b;
    DivIs(x, a * b, q);
  }

  /** The largest multiple of `g` up to `x` keeps the order of its arguments. */
  lemma FloorMonotone(x: int, y: int, g: pos)
    requires x <= y
    ensures (x / g) * g <= (y / g) * g <= y
  {
    DivMonotone(x, y, g);
    MulLe(x / g, y / g, g);
    DivBounds(y, g);
  }
}
