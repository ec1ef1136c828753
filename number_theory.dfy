/**
 * Facts about Euclidean division and the greatest common divisor that the
 * probe-sequence proofs need. Dafny's `/` and `%` are Euclidean: for m > 0,
 * `a == (a / m) * m + a % m` with `0 <= a % m < m`.
 */
module NumberTheory {

  lemma MulAtLeast(x: int, m: int)
    requires 1 <= x && 0 < m
    ensures m <= x * m
  {
    assert x * m == (x - 1) * m + m;
  }

  lemma MulMono(a: int, b: int, c: int)
    requires a <= b && 0 <= c
    ensures a * c <= b * c
  {
    assert b * c - a * c == (b - a) * c;
  }

  /** Quotient and remainder are unique: any split `a == q * m + r` with `0 <= r < m` is Dafny's. */
  lemma ModUnique(a: int, m: int, q: int, r: int)
    requires 0 < m && a == q * m + r && 0 <= r < m
    ensures a / m == q && a % m == r
  {
    var q', r' := a / m, a % m;
    assert (q - q') * m == r' - r;
    if q - q' >= 1 {
      MulAtLeast(q - q', m);
    } else if q' - q >= 1 {
      MulAtLeast(q' - q, m);
    }
  }

  /** The division identity. */
  lemma DivMod(a: int, m: int)
    requires 0 < m
    ensures a == (a / m) * m + a % m && 0 <= a % m < m
  {
  }

  lemma ModOfMultiple(k: int, m: int)
    requires 0 < m
    ensures (k * m) % m == 0
  {
    ModUnique(k * m, m, k, 0);
  }

  /** Adding a multiple of m does not change the remainder. */
  lemma ModShift(x: int, k: int, m: int)
    requires 0 < m
    ensures (x + k * m) % m == x % m
  {
    assert x == (x / m) * m + x % m;
    assert x + k * m == (x / m + k) * m + x % m;
    ModUnique(x + k * m, m, x / m + k, x % m);
  }

  /** Two numbers with the same remainder differ by a multiple of m. */
  lemma SameModDiff(a: int, b: int, m: int)
    requires 0 < m && a % m == b % m
    ensures (b - a) % m == 0
  {
    assert a == (a / m) * m + a % m;
    assert b == (b / m) * m + b % m;
    assert b - a == (b / m - a / m) * m;
    ModOfMultiple(b / m - a / m, m);
  }

  /** A positive multiple of m is at least m. */
  lemma DivisorAtMost(g: int, s: int)
    requires 0 < g && 0 < s && s % g == 0
    ensures g <= s
  {
    assert s == (s / g) * g;
    MulAtLeast(s / g, g);
  }

  /** Multiplying the division identity `i == (i / m) * m + i % m` by step. */
  lemma SplitProduct(i: int, m: int, step: int)
    requires 0 < m
    ensures i * step == (i % m) * step + ((i / m) * step) * m
  {
    var q, r := i / m, i % m;
    assert i == q * m + r;
    calc {
      i * step;
      (q * m + r) * step;
      (q * m) * step + r * step;
      { assert (q * m) * step == (q * step) * m; }
      r * step + (q * step) * m;
    }
  }

  /** The algebra behind inverting a step with Bezout coefficients x, y (`step * x + m * y == 1`). */
  lemma InverseStep(d: int, x: int, y: int, k: int, i: int, step: int, m: int)
    requires step * x + m * y == 1 && d * x == k * m + i
    ensures i * step == d + (-(d * y) - k * step) * m
  {
    calc {
      i * step;
      (d * x - k * m) * step;
      (d * x) * step - (k * m) * step;
      { assert (d * x) * step == d * (step * x); assert (k * m) * step == (k * step) * m; }
      d * (step * x) - (k * step) * m;
      d * (1 - m * y) - (k * step) * m;
      { assert d * (m * y) == (d * y) * m; }
      d - (d * y) * m - (k * step) * m;
      d + (-(d * y) - k * step) * m;
    }
  }

  /** Euclid's algorithm. */
  function Gcd(a: nat, b: nat): nat
    decreases b
  {
    if b == 0 then a else Gcd(b, a % b)
  }

  /** Extended Euclid: coefficients (x, y) with `a * x + b * y == Gcd(a, b)`. */
  function Bezout(a: nat, b: nat): (r: (int, int))
    ensures a * r.0 + b * r.1 == Gcd(a, b)
    decreases b
  {
    if b == 0 then (1, 0)
    else
      var r := Bezout(b, a % b);
      var x, y := r.0, r.1;
      RegroupCombination(a, b, a / b, a % b, x, y);
      (y, x - (a / b) * y)
  }

  /** With a == q * b + r, the combination (y, x - q * y) of a, b equals the combination (x, y) of b, r. */
  lemma RegroupCombination(a: int, b: int, q: int, r: int, x: int, y: int)
    requires a == q * b + r
    ensures a * y + b * (x - q * y) == b * x + r * y
  {
    calc {
      a * y + b * (x - q * y);
      (q * b + r) * y + b * x - b * (q * y);
      { assert (q * b) * y == b * (q * y); }
      r * y + b * x;
    }
  }

  /** The gcd is positive and divides both arguments. */
  lemma {:induction false} GcdDivides(a: nat, b: nat)
    requires 0 < a || 0 < b
    ensures 0 < Gcd(a, b) && a % Gcd(a, b) == 0 && b % Gcd(a, b) == 0
    decreases b
  {
    if b == 0 {
      ModOfMultiple(0, a);
      ModOfMultiple(1, a);
    } else {
      GcdDivides(b, a % b);
      DividesDividend(a, b, Gcd(b, a % b));
    }
  }

  /** A common divisor of b and a % b divides a. */
  lemma DividesDividend(a: nat, b: nat, g: nat)
    requires 0 < b && 0 < g && b % g == 0 && (a % b) % g == 0
    ensures a % g == 0
  {
    var u, v, q := b / g, (a % b) / g, a / b;
    assert b == u * g;
    assert a % b == v * g;
    assert a == q * b + a % b;
    assert q * b == (q * u) * g;
    assert a == (q * u + v) * g;
    ModOfMultiple(q * u + v, g);
  }

  lemma MulBoth(a: int, b: int, c: int)
    requires a == b
    ensures a * c == b * c
  {
  }

  lemma MulPred(i: int, step: int)
    ensures (i - 1) * step + step == i * step
  {
  }

  lemma MulDistrib(d: int, a: int, b: int)
    ensures d * (a + b) == d * a + d * b
  {
  }

  /** If s and m are coprime and m divides d * s, then m divides d. */
  lemma CoprimeCancel(d: int, s: nat, m: nat)
    requires 0 < m && Gcd(s, m) == 1 && (d * s) % m == 0
    ensures d % m == 0
  {
    var xy := Bezout(s, m);
    var k := (d * s) / m;
    CancelFactor(d, s, m, xy.0, xy.1, k);
    ModOfMultiple(k * xy.0 + d * xy.1, m);
  }

  /** With s * x + m * y == 1 and d * s == k * m, d is a multiple of m. */
  lemma CancelFactor(d: int, s: int, m: int, x: int, y: int, k: int)
    requires s * x + m * y == 1 && d * s == k * m
    ensures d == (k * x + d * y) * m
  {
    MulBoth(s * x + m * y, 1, d);
    MulDistrib(d, s * x, m * y);
    MulBoth(d * s, k * m, x);
    assert d == (k * m) * x + d * (m * y);
  }
}
