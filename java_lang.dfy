/**
 * The parts of Java's `int` semantics that the hash table relies on:
 * 32-bit two's-complement wrap-around, the truncating `/` and `%`
 * operators, and the decimal text produced by `Integer.toString`.
 */
module JavaLang {
  import opened Wrappers
  import NumberTheory

  const INT32_MIN: int := -0x8000_0000
  const INT32_MAX: int := 0x7fff_ffff
  const TWO_TO_32: int := 0x1_0000_0000

  /** A Java `int`. */
  type int32 = x: int | -0x8000_0000 <= x <= 0x7fff_ffff

  /** Reduces an unbounded integer to the `int` Java stores (two's complement). */
  function Wrap32(x: int): (r: int32)
    ensures (r - x) % TWO_TO_32 == 0
    ensures INT32_MIN <= x <= INT32_MAX ==> r == x
  {
    var k := (x - INT32_MIN) / TWO_TO_32;
    var r := (x - INT32_MIN) % TWO_TO_32 + INT32_MIN;
    assert r - x == -k * TWO_TO_32;
    assert (r - x) % TWO_TO_32 == 0 by { NumberTheory.ModOfMultiple(-k, TWO_TO_32); }
    assert INT32_MIN <= x <= INT32_MAX ==> k == 0;
    r
  }

  /** The `x++` of a Java `int` counter: one more, wrapping from the largest `int` to the smallest. */
  function Inc(x: int32): (r: int32)
    ensures x < INT32_MAX ==> r == x + 1
    ensures x == INT32_MAX ==> r == INT32_MIN
  {
    Wrap32(x + 1)
  }

  /** Two ints congruent modulo 2^32 are equal. */
  lemma Int32Congruent(a: int32, b: int32)
    requires (a - b) % TWO_TO_32 == 0
    ensures a == b
  {
    var k := (a - b) / TWO_TO_32;
    assert a - b == k * TWO_TO_32;
    if k >= 1 {
      NumberTheory.MulAtLeast(k, TWO_TO_32);
    } else if k <= -1 {
      NumberTheory.MulAtLeast(-k, TWO_TO_32);
    }
  }

  /** Counting with Inc from 0 gives the wrapped count. */
  lemma IncWrap(n: int)
    ensures Inc(Wrap32(n)) == Wrap32(n + 1)
  {
    var a, b, c := Wrap32(n), Wrap32(n + 1), Inc(Wrap32(n));
    var k1, k2, k3 := (c - (a + 1)) / TWO_TO_32, (a - n) / TWO_TO_32, (b - (n + 1)) / TWO_TO_32;
    assert c - (a + 1) == k1 * TWO_TO_32;
    assert a - n == k2 * TWO_TO_32;
    assert b - (n + 1) == k3 * TWO_TO_32;
    assert c - b == (k1 + k2 - k3) * TWO_TO_32;
    NumberTheory.ModOfMultiple(k1 + k2 - k3, TWO_TO_32);
    Int32Congruent(c, b);
  }

  function Abs(x: int): nat
  {
    if x < 0 then -x else x
  }

  /** Java's integer `/`: the quotient rounded toward zero. */
  function JavaDiv(a: int, b: int): int
    requires b != 0
  {
    var q := Abs(a) / Abs(b);
    if (a < 0) == (b < 0) then q else -q
  }

  /**
   * Java's integer `%`: the remainder of the truncating division, which
   * takes the sign of the dividend (section 15.17.3 of the Java Language
   * Specification). Dafny's own `%` is Euclidean and never negative.
   */
  function JavaRem(a: int, b: int): (r: int)
    requires b != 0
    ensures JavaDiv(a, b) * b + r == a
    ensures Abs(r) < Abs(b)
    ensures a >= 0 ==> 0 <= r
    ensures a < 0 ==> r <= 0
  {
    var q, m := Abs(a) / Abs(b), Abs(a) % Abs(b);
    assert Abs(a) == q * Abs(b) + m;
    if a < 0 then
      assert JavaDiv(a, b) * b == -(q * Abs(b)) by {
        if b < 0 { assert q * b == -(q * Abs(b)); }
      }
      -m
    else
      assert JavaDiv(a, b) * b == q * Abs(b) by {
        if b < 0 { assert -q * b == q * Abs(b); }
      }
      m
  }

  lemma JavaRemOfNonNegative(a: int, b: int)
    requires 0 <= a && 0 < b
    ensures JavaRem(a, b) == a % b
  {
  }

  // ---------------------------------------------------------------------
  // Integer.toString and its inverse
  // ---------------------------------------------------------------------

  predicate IsDigit(c: char)
  {
    '0' <= c <= '9'
  }

  predicate IsDigits(s: string)
  {
    forall k :: 0 <= k < |s| ==> IsDigit(s[k])
  }

  function DigitChar(d: int): (c: char)
    requires 0 <= d <= 9
    ensures IsDigit(c)
  {
    (48 + d) as char
  }

  /** The decimal digits of `n`, most significant first, without leading zeros. */
  function NatToString(n: nat): (s: string)
    ensures 1 <= |s| && IsDigits(s)
    decreases n
  {
    if n < 10 then [DigitChar(n)] else NatToString(n / 10) + [DigitChar(n % 10)]
  }

  /** `Integer.toString(n)`: a minus sign for negative values, then the digits of the magnitude. */
  function IntToString(n: int): (s: string)
    ensures 1 <= |s|
    ensures forall k :: 0 <= k < |s| ==> s[k] != ' '
  {
    if n < 0 then "-" + NatToString(-n) else NatToString(n)
  }

  /** Reads a run of decimal digits back into a number. */
  function ParseNat(s: string): (n: nat)
    requires IsDigits(s)
    decreases |s|
  {
    if s == [] then 0 else ParseNat(s[..|s| - 1]) * 10 + (s[|s| - 1] as int - 48)
  }

  /** Reads an optionally negative decimal number; `None` when `s` is not one. */
  function ParseInt(s: string): Option<int>
  {
    if 2 <= |s| && s[0] == '-' && IsDigits(s[1..]) then Some(0 - ParseNat(s[1..]))
    else if 1 <= |s| && IsDigits(s) then Some(ParseNat(s))
    else None
  }

  lemma {:induction false} ParseNatToString(n: nat)
    ensures ParseNat(NatToString(n)) == n
    decreases n
  {
    var s := NatToString(n);
    if n >= 10 {
      var prefix := NatToString(n / 10);
      assert s[..|s| - 1] == prefix;
      ParseNatToString(n / 10);
    }
  }

  /** Parsing what `Integer.toString` prints gives back the number. */
  lemma ParseIntToString(n: int)
    ensures ParseInt(IntToString(n)) == Some(n)
  {
    if n < 0 {
      var s := IntToString(n);
      assert s[1..] == NatToString(-n);
      ParseNatToString(-n);
    } else {
      var s := NatToString(n);
      ParseNatToString(n);
      if 2 <= |s| {
        assert IsDigit(s[0]);
      }
    }
  }

  // ---------------------------------------------------------------------
  // Splitting at the last space, to read back space-separated fields
  // ---------------------------------------------------------------------

  /** Splits `s` at its last space into what comes before it and what comes after it. */
  function SplitAtLastSpace(s: string): Option<(string, string)>
    decreases |s|
  {
    if s == [] then None
    else if s[|s| - 1] == ' ' then Some((s[..|s| - 1], []))
    else match SplitAtLastSpace(s[..|s| - 1])
      case None => None
      case Some(parts) => Some((parts.0, parts.1 + [s[|s| - 1]]))
  }

  lemma {:induction false} SplitAfterSpace(a: string, b: string)
    requires forall k :: 0 <= k < |b| ==> b[k] != ' '
    ensures SplitAtLastSpace(a + " " + b) == Some((a, b))
    decreases |b|
  {
    var s := a + " " + b;
    if b != [] {
      var b' := b[..|b| - 1];
      assert s[..|s| - 1] == a + " " + b';
      SplitAfterSpace(a, b');
      assert b' + [b[|b| - 1]] == b;
    } else {
      assert s[..|s| - 1] == a;
    }
  }
}
