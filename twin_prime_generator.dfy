/**
 * TwinPrimeGenerator: trial-division primality and the upward scan for the
 * first pair of twin primes, whose larger member becomes the table capacity.
 */
module TwinPrimeGenerator {
  import opened Wrappers
  import opened JavaLang
  import NumberTheory

  /** n is prime: at least 2 and divisible by nothing strictly between 1 and n. */
  ghost predicate Prime(n: int)
  {
    2 <= n && forall d :: 2 <= d < n ==> n % d != 0
  }

  /** i is the smaller member of a pair of twin primes. */
  ghost predicate TwinLow(i: int)
  {
    Prime(i) && Prime(i + 2)
  }

  /** A divisor d >= i of n < i * i has a cofactor below i that also divides n. */
  lemma SmallCofactor(n: int, d: int, i: int) returns (q: int)
    requires 2 <= i <= d < n < i * i && n % d == 0
    ensures 2 <= q < i && n % q == 0
  {
    q := n / d;
    assert n == q * d;
    if q <= 1 {
      NumberTheory.MulMono(q, 1, d);
    }
    if i <= q {
      NumberTheory.MulMono(i, q, d);
      NumberTheory.MulMono(i, d, i);
    }
    NumberTheory.ModUnique(n, q, d, 0);
  }

  /** A number with no divisor in [2, i), where i * i > n, has no divisor at all below n. */
  lemma NoSmallDivisorMeansPrime(n: int, i: int)
    requires 2 <= n && 2 <= i && n < i * i
    requires forall d :: 2 <= d < i ==> n % d != 0
    ensures Prime(n)
  {
    forall d | 2 <= d < n
      ensures n % d != 0
    {
      if i <= d && n % d == 0 {
        var q := SmallCofactor(n, d, i);
      }
    }
  }

  /**
   * isPrime: false below 2, otherwise trial division by every i with
   * i * i <= n. The source bounds the loop by `i <= Math.sqrt(n)`, which
   * for the non-negative ints involved is the same test.
   */
  method IsPrime(n: int32) returns (b: bool)
    ensures b <==> Prime(n)
  {
    if n < 2 {
      return false;
    }
    var i := 2;
    while i * i <= n
      invariant 2 <= i <= n
      invariant forall d :: 2 <= d < i ==> n % d != 0
      decreases n - i
    {
      if n % i == 0 {
        assert i < n by { NumberTheory.MulAtLeast(i, i); assert 2 * i <= i * i; }
        return false;
      }
      assert i < n by { NumberTheory.MulAtLeast(i, i); assert 2 * i <= i * i; }
      i := i + 1;
    }
    NoSmallDivisorMeansPrime(n, i);
    return true;
  }

  /**
   * generateTwinPrime: scans i = min, min + 1, ... up to max - 2 and returns
   * i + 2 for the first i with both i and i + 2 prime; when there is none
   * the source throws IllegalArgumentException, here `None`.
   * The bound `max - 2` is computed without wrap-around; see
   * ScanLimitAsWritten for what the 32-bit subtraction of the source does.
   */
  method GenerateTwinPrime(min: int32, max: int32) returns (r: Option<int32>)
    ensures r.Some? ==> min <= r.value - 2 && r.value <= max && TwinLow(r.value - 2)
    ensures r.Some? ==> forall j :: min <= j < r.value - 2 ==> !TwinLow(j)
    ensures r.None? <==> forall j :: min <= j <= max - 2 ==> !TwinLow(j)
  {
    var i: int := min;
    while i <= max - 2
      invariant min <= i
      invariant forall j :: min <= j < i ==> !TwinLow(j)
      decreases max - i
    {
      var lowPrime := IsPrime(i as int32);
      if lowPrime {
        var highPrime := IsPrime((i + 2) as int32);
        if highPrime {
          assert TwinLow(i);
          return Some((i + 2) as int32);
        }
      }
      i := i + 1;
    }
    return None;
  }

  /** The first twin-prime low member in [i, limit], scanning upward. */
  ghost function FirstTwinFrom(i: int, limit: int): (r: Option<int>)
    ensures r.Some? ==> i <= r.value <= limit && TwinLow(r.value)
    ensures r.Some? ==> forall j :: i <= j < r.value ==> !TwinLow(j)
    ensures r.None? ==> forall j :: i <= j <= limit ==> !TwinLow(j)
    decreases limit - i
  {
    if limit < i then None
    else if TwinLow(i) then Some(i)
    else FirstTwinFrom(i + 1, limit)
  }

  /** The loop bound of generateTwinPrime as the source computes it: `max - 2` in 32-bit `int`. */
  function ScanLimitAsWritten(max: int32): (r: int32)
    ensures INT32_MIN + 2 <= max ==> r == max - 2
    ensures max < INT32_MIN + 2 ==> r == max - 2 + TWO_TO_32
  {
    Wrap32(max - 2)
  }

  /**
   * generateTwinPrime exactly as written, as a function of its arguments:
   * the scan runs up to the wrapped bound. It does not model the further
   * wrap of `i + 2` and `i++` near the largest int, which the
   * counterexample below never reaches.
   */
  ghost function GenerateTwinPrimeAsWritten(min: int32, max: int32): Option<int>
  {
    match FirstTwinFrom(min, ScanLimitAsWritten(max))
    case None => None
    case Some(i) => Some(i + 2)
  }

  /**
   * With max = Integer.MIN_VALUE + 1 the bound wraps to Integer.MAX_VALUE,
   * so the scan from 0 returns 5 although 5 lies outside [min, max].
   */
  lemma GenerateTwinPrimeAsWrittenEscapesRange()
    ensures GenerateTwinPrimeAsWritten(0, INT32_MIN + 1) == Some(5)
    ensures 5 > INT32_MIN + 1
  {
    assert !Prime(0) && !Prime(1);
    assert !Prime(4) by { assert 4 % 2 == 0; }
    assert Prime(3) && Prime(5);
    assert !TwinLow(0) && !TwinLow(1) && !TwinLow(2) && TwinLow(3);
    var limit := ScanLimitAsWritten(INT32_MIN + 1);
    assert limit == INT32_MAX;
    assert FirstTwinFrom(3, limit) == Some(3);
    assert FirstTwinFrom(2, limit) == Some(3);
    assert FirstTwinFrom(1, limit) == Some(3);
    assert FirstTwinFrom(0, limit) == Some(3);
  }
}
