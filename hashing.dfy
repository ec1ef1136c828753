/**
 * The hash functions of the table: Hashtable.positiveMod, the h1/h2 pair of
 * LinearProbing and of DoubleHashing, and the probe sequence that insert and
 * search walk, `hash := (hash + stepSize) % capacity` starting at h1.
 */
module Hashing {
  import opened JavaLang
  import opened NumberTheory
  import TwinPrimeGenerator

  /**
   * Hashtable.positiveMod: Java's `%`, then `divisor` added once when the
   * remainder is negative (in 32-bit `int`, like the source).
   */
  function PositiveMod(dividend: int32, divisor: int32): (r: int32)
    requires divisor != 0
    ensures 0 < divisor ==> 0 <= r < divisor && r == dividend % divisor
    ensures divisor == -1 ==> r == 0
  {
    var quotient := JavaRem(dividend, divisor);
    var q := JavaDiv(dividend, divisor);
    assert 0 < divisor && 0 <= quotient ==> dividend % divisor == quotient by {
      if 0 < divisor && 0 <= quotient { ModUnique(dividend, divisor, q, quotient); }
    }
    assert 0 < divisor && quotient < 0 ==> dividend % divisor == quotient + divisor by {
      if 0 < divisor && quotient < 0 {
        assert dividend == (q - 1) * divisor + (quotient + divisor);
        ModUnique(dividend, divisor, q - 1, quotient + divisor);
      }
    }
    if quotient < 0 then Wrap32(quotient + divisor) else quotient
  }

  /** The two subclasses of the abstract Hashtable. */
  datatype Strategy = LinearProbing | DoubleHashing

  /**
   * Capacities for which h1, h2 and the index update are defined:
   * positive (h1 divides by it), not 2 for double hashing (h2 divides by
   * capacity - 2), and for double hashing small enough that
   * `hash + stepSize` (at most 2 * capacity - 3) stays a non-negative int.
   */
  predicate ValidCapacity(p: Strategy, capacity: int)
  {
    && 0 < capacity <= INT32_MAX
    && (p.DoubleHashing? ==> capacity != 2 && 2 * capacity - 3 <= INT32_MAX)
  }

  /** LinearProbing.h1: the key's hashCode reduced into the table. */
  function LinearH1(hashCode: int32, capacity: int32): (r: int)
    requires 0 < capacity
    ensures 0 <= r < capacity
  {
    PositiveMod(hashCode, capacity)
  }

  /** LinearProbing.h2: the step is always 1. */
  function LinearH2(hashCode: int32, capacity: int32): (r: int)
    ensures r == 1
  {
    1
  }

  /** DoubleHashing.h1: the key's hashCode reduced into the table. */
  function DoubleH1(hashCode: int32, capacity: int32): (r: int)
    requires 0 < capacity
    ensures 0 <= r < capacity
  {
    PositiveMod(hashCode, capacity)
  }

  /**
   * DoubleHashing.h2: `1 + positiveMod(hashCode, capacity - 2)`. At capacity
   * 2 the divisor is 0 and Java throws, hence the requires; at capacity 1 the
   * divisor is -1 and the step is 1.
   */
  function DoubleH2(hashCode: int32, capacity: int32): (r: int)
    requires 0 < capacity && capacity != 2
    ensures 2 < capacity ==> 1 <= r <= capacity - 2
    ensures capacity == 1 ==> r == 1
  {
    1 + PositiveMod(hashCode, (capacity - 2) as int32)
  }

  /** Both strategies send a key to the same home slot. */
  lemma SameHomeSlot(hashCode: int32, capacity: int32)
    requires 0 < capacity
    ensures LinearH1(hashCode, capacity) == DoubleH1(hashCode, capacity)
  {
  }

  /** h1 of the table's strategy. */
  function H1(p: Strategy, hashCode: int32, capacity: int): (r: int)
    requires ValidCapacity(p, capacity)
    ensures 0 <= r < capacity
  {
    match p
    case LinearProbing => LinearH1(hashCode, capacity as int32)
    case DoubleHashing => DoubleH1(hashCode, capacity as int32)
  }

  /** h2 of the table's strategy: a positive step whose sum with any slot index is still an int. */
  function H2(p: Strategy, hashCode: int32, capacity: int): (r: int)
    requires ValidCapacity(p, capacity)
    ensures 1 <= r && (r < capacity || capacity == 1)
    ensures capacity - 1 + r <= INT32_MAX
  {
    match p
    case LinearProbing => LinearH2(hashCode, capacity as int32)
    case DoubleHashing => DoubleH2(hashCode, capacity as int32)
  }

  /**
   * The slot examined at probe i (counting from 0) of the loop
   * `hash = h1; hash = (hash + stepSize) % capacity` shared by insert and search.
   */
  function Probe(home: int, step: int, m: int, i: nat): (r: int)
    requires 0 <= home < m && 0 <= step
    ensures 0 <= r < m
  {
    if i == 0 then home else (Probe(home, step, m, i - 1) + step) % m
  }

  /** Probe i is `(home + i * step) mod m`. */
  lemma {:induction false} ProbeClosedForm(home: int, step: int, m: int, i: nat)
    requires 0 <= home < m && 0 <= step
    ensures Probe(home, step, m, i) == (home + i * step) % m
  {
    if i == 0 {
      ModUnique(home, m, 0, home);
    } else {
      ProbeClosedForm(home, step, m, i - 1);
      ProbeNext(home, step, m, i, home + (i - 1) * step);
    }
  }

  /** If probe i - 1 is a mod m, probe i is (a + step) mod m. */
  lemma ProbeNext(home: int, step: int, m: int, i: nat, a: int)
    requires 0 <= home < m && 0 <= step && 0 < i
    requires a == home + (i - 1) * step && Probe(home, step, m, i - 1) == a % m
    ensures Probe(home, step, m, i) == (home + i * step) % m
  {
    MulPred(i, step);
    ModAddStep(a, step, home + i * step, m);
  }

  /** One more step after reducing mod m lands where the unreduced sum does. */
  lemma ModAddStep(a: int, step: int, b: int, m: int)
    requires 0 < m && b == a + step
    ensures (a % m + step) % m == b % m
  {
    DivMod(a, m);
    ModShift(a % m + step, a / m, m);
  }

  /** The sequence repeats with period m, so a slot that is never reached in m probes is never reached. */
  lemma ProbeRepeats(home: int, step: int, m: int, i: nat)
    requires 0 <= home < m && 0 <= step
    ensures Probe(home, step, m, i) == Probe(home, step, m, i % m)
  {
    ProbeClosedForm(home, step, m, i);
    ProbeClosedForm(home, step, m, i % m);
    SplitProduct(i, m, step);
    ModShift(home + (i % m) * step, (i / m) * step, m);
  }

  /** With a step coprime to m, the first m probes are pairwise distinct. */
  lemma ProbesDistinct(home: int, step: nat, m: nat, i: nat, j: nat)
    requires 0 <= home < m && Gcd(step, m) == 1
    requires i < j < m
    ensures Probe(home, step, m, i) != Probe(home, step, m, j)
  {
    if Probe(home, step, m, i) == Probe(home, step, m, j) {
      ProbeClosedForm(home, step, m, i);
      ProbeClosedForm(home, step, m, j);
      SameModDiff(home + i * step, home + j * step, m);
      assert (home + j * step) - (home + i * step) == (j - i) * step;
      CoprimeCancel(j - i, step, m);
      ModUnique(j - i, m, 0, j - i);
      assert false;
    }
  }

  /** With a step coprime to m, every slot is among the first m probes. */
  lemma ProbesCover(home: int, step: nat, m: nat, t: int)
    requires 0 <= home < m && Gcd(step, m) == 1
    requires 0 <= t < m
    ensures exists i :: 0 <= i < m && Probe(home, step, m, i) == t
  {
    var xy := Bezout(step, m);
    var x, y := xy.0, xy.1;
    assert step * x + m * y == 1;
    var i := ((t - home) * x) % m;
    var k := ((t - home) * x) / m;
    DivMod((t - home) * x, m);
    ProbeClosedForm(home, step, m, i);
    InverseStep(t - home, x, y, k, i, step, m);
    var c := -((t - home) * y) - k * step;
    assert home + i * step == t + c * m;
    ModShift(t, c, m);
    ModUnique(t, m, 0, t);
    assert Probe(home, step, m, i) == t;
  }

  /** A prime p is coprime to every s in [1, p). */
  lemma PrimeCoprime(s: nat, p: nat)
    requires TwinPrimeGenerator.Prime(p) && 1 <= s < p
    ensures Gcd(s, p) == 1
  {
    var g := Gcd(s, p);
    GcdDivides(s, p);
    DivisorAtMost(g, s);
  }

  /**
   * The step is coprime to the capacity: always for linear probing (step 1),
   * and for double hashing whenever the capacity is prime.
   */
  lemma StepCoprime(p: Strategy, hashCode: int32, capacity: int)
    requires ValidCapacity(p, capacity)
    requires p.DoubleHashing? ==> TwinPrimeGenerator.Prime(capacity)
    ensures Gcd(H2(p, hashCode, capacity), capacity) == 1
  {
    match p
    case LinearProbing =>
      if capacity == 1 {
        assert Gcd(1, 1) == Gcd(1, 0);
      } else {
        assert 1 % capacity == 1;
        assert Gcd(1, capacity) == Gcd(capacity, 1) == Gcd(1, 0);
      }
    case DoubleHashing =>
      PrimeCoprime(H2(p, hashCode, capacity), capacity);
  }

  /** Slot t is among the first m probes. */
  ghost predicate Visits(home: int, step: int, m: int, t: int)
    requires 0 <= home < m && 0 <= step
  {
    exists i :: 0 <= i < m && Probe(home, step, m, i) == t
  }

  /**
   * Linear probing visits every slot exactly once in its first `capacity`
   * probes, and so does double hashing over a prime capacity.
   */
  lemma ProbeSequenceIsPermutation(p: Strategy, hashCode: int32, capacity: int)
    requires ValidCapacity(p, capacity)
    requires p.DoubleHashing? ==> TwinPrimeGenerator.Prime(capacity)
    ensures forall t :: 0 <= t < capacity ==>
      Visits(H1(p, hashCode, capacity), H2(p, hashCode, capacity), capacity, t)
    ensures forall i, j :: 0 <= i < j < capacity ==>
      Probe(H1(p, hashCode, capacity), H2(p, hashCode, capacity), capacity, i)
        != Probe(H1(p, hashCode, capacity), H2(p, hashCode, capacity), capacity, j)
  {
    var home, step := H1(p, hashCode, capacity), H2(p, hashCode, capacity);
    StepCoprime(p, hashCode, capacity);
    forall t | 0 <= t < capacity
      ensures Visits(home, step, capacity, t)
    {
      ProbesCover(home, step, capacity, t);
    }
    forall i, j | 0 <= i < j < capacity
      ensures Probe(home, step, capacity, i) != Probe(home, step, capacity, j)
    {
      ProbesDistinct(home, step, capacity, i, j);
    }
  }
}
