/**
 The range of the double format: what ldexp makes of a significand of up to
 53 bits and an exponent.
 */
module DoubleRange {
  import opened BinaryExponent
  import opened Bignum
  import opened DoubleScaling
  import opened FactorsOfTwo
  import opened Rounding

  /** The exponent of the smallest power of two that is too large. */
  const MAX_EXP := 1024

  function BitLength(m: nat): nat {
    if m == 0 then 0 else 1 + BitLength(m / 2)
  }

  lemma {:induction false} BitLengthMeaning(m: nat, k: nat)
    requires m > 0
    ensures Pow(2, k) <= m <==> k < BitLength(m)
    decreases k
  {
    if k > 0 {
      if m > 1 { BitLengthMeaning(m / 2, k - 1); }
      assert Pow(2, k) == 2 * Pow(2, k - 1);
    }
  }

  /** The magnitude of m 2^e: 2^k is at most that. */
  lemma {:induction false} MagnitudeMeaning(m: nat, e: int, k: int)
    requires m > 0
    ensures AtLeast(m * Pow(2, Up(e)), Pow(2, Down(e)), k) <==> k < BitLength(m) + e
  {
    var a, b := Up(k) + Down(e), Up(e) + Down(k);
    PowAdd(2, Up(k), Down(e));
    PowAdd(2, Up(e), Down(k));
    Reassociate(m, Pow(2, Up(e)), Pow(2, Down(k)));
    if a >= b {
      PowAdd(2, a - b, b);
      Ordered(Pow(2, a - b), m, Pow(2, b));
      BitLengthMeaning(m, a - b);
    } else {
      PowMonotonic(2, a, b);
      Grows'(Pow(2, b), m);
    }
  }

  /** m over p, rounded to the nearest integer, halves to even. */
  function HalfEven(m: nat, p: nat): (q: nat)
    requires p > 0
  {
    var q, r := m / p, m % p;
    if 2 * r < p || (2 * r == p && q % 2 == 0) then q else q + 1
  }

  lemma {:induction false} HalfEvenRounds(m: nat, p: nat)
    requires p > 0
    ensures RoundsTo(m, p, HalfEven(m, p))
  {
    var q, r := m / p, m % p;
    assert m == q * p + r;
    Distribute(q, 1, p);
  }

  lemma {:induction false} HalfEvenExact(m: nat, p: nat)
    requires p > 0 && m % p == 0
    ensures HalfEven(m, p) * p == m
  {
    assert m == (m / p) * p + m % p;
  }

  lemma {:induction false} HalfEvenSmall(m: nat, p: nat, bound: nat)
    requires p >= 2 && m < bound
    ensures HalfEven(m, p) < bound || HalfEven(m, p) <= 1
  {
    var q := m / p;
    assert m == q * p + m % p;
    if q > 0 { MulMonotonic(2, p, q); }
  }

  /** A significand and an exponent that the format represents. */
  predicate InRange(m: nat, e: int) {
    m < 2 * MIN_MANTISSA && e >= LEAST_BIT && BitLength(m) + e <= MAX_EXP
  }

  datatype Scaled = TooLarge | Fits(mantissa: nat, exponent: int)

  /** ldexp: numbers below the least place of the format are rounded to it. */
  function Ldexp(m: nat, e: int): Scaled {
    if BitLength(m) + e > MAX_EXP then TooLarge
    else if e >= LEAST_BIT then Fits(m, e)
    else Fits(HalfEven(m, Pow(2, LEAST_BIT - e)), LEAST_BIT)
  }

  /** What ldexp delivers is a double, and it refuses exactly the numbers from 2^1024 on. */
  lemma {:induction false} LdexpMeaning(m: nat, e: int)
    requires 0 < m < 2 * MIN_MANTISSA
    ensures Ldexp(m, e).TooLarge? <==> AtLeast(m * Pow(2, Up(e)), Pow(2, Down(e)), MAX_EXP)
    ensures Ldexp(m, e).Fits? ==> InRange(Ldexp(m, e).mantissa, Ldexp(m, e).exponent)
    ensures e < LEAST_BIT && Ldexp(m, e).Fits? ==> RoundsTo(m, Pow(2, LEAST_BIT - e), Ldexp(m, e).mantissa)
  {
    MagnitudeMeaning(m, e, MAX_EXP);
    if e < LEAST_BIT {
      var p := Pow(2, LEAST_BIT - e);
      assert p == 2 * Pow(2, LEAST_BIT - e - 1);
      HalfEvenRounds(m, p);
      HalfEvenSmall(m, p, 2 * MIN_MANTISSA);
      FewBits(HalfEven(m, p), 53);
    }
  }

  lemma {:induction false} FewBits(m: nat, bits: nat)
    requires m < 2 * MIN_MANTISSA && bits == 53
    ensures BitLength(m) <= bits
  {
    MantissaBits(bits);
    if m > 0 { BitLengthMeaning(m, bits); }
  }

  // The same number with different exponents

  /** m 2^e and m' 2^e' are the same number. */
  ghost predicate SameNumber(m: nat, e: int, m': nat, e': int) {
    m * Pow(2, Up(e)) * Pow(2, Down(e')) == m' * Pow(2, Up(e')) * Pow(2, Down(e))
  }

  lemma {:induction false} TwosOfShift(m: nat, k: nat)
    requires m > 0
    ensures m * Pow(2, k) > 0 && Twos(m * Pow(2, k)) == Twos(m) + k
    decreases k
  {
    if k > 0 {
      TwosOfShift(m, k - 1);
      Twice(m, Pow(2, k - 1));
      TwosOfDouble(m * Pow(2, k - 1));
    }
  }

  lemma {:induction false} TwosOfDouble(n: nat)
    requires n > 0
    ensures Twos(2 * n) == 1 + Twos(n)
  {
    assert (2 * n) / 2 == n;
  }

  lemma {:induction false} Twice(m: nat, p: nat)
    ensures m * (2 * p) == 2 * (m * p)
  {
  }

  /** The same number has the same magnitude, and the same factors of two but for the exponents. */
  lemma {:induction false} SameShape(m: nat, e: int, m': nat, e': int)
    requires SameNumber(m, e, m', e') && m > 0 && m' > 0
    ensures BitLength(m) + e == BitLength(m') + e' && Twos(m) + e == Twos(m') + e'
  {
    var k, k' := BitLength(m) + e, BitLength(m') + e';
    SameMagnitude(m, e, m', e', k);
    SameMagnitude(m, e, m', e', k');
    SameTwos(m, Up(e), Down(e'), m', Up(e'), Down(e));
  }

  lemma {:induction false} SameTwos(m: nat, a: nat, b: nat, m': nat, a': nat, b': nat)
    requires m > 0 && m' > 0 && m * Pow(2, a) * Pow(2, b) == m' * Pow(2, a') * Pow(2, b')
    ensures Twos(m) + a + b == Twos(m') + a' + b'
  {
    TwosOfShift(m, a);
    TwosOfShift(m * Pow(2, a), b);
    TwosOfShift(m', a');
    TwosOfShift(m' * Pow(2, a'), b');
  }

  lemma {:induction false} SameMagnitude(m: nat, e: int, m': nat, e': int, k: int)
    requires SameNumber(m, e, m', e') && m > 0 && m' > 0
    ensures k < BitLength(m) + e <==> k < BitLength(m') + e'
  {
    var num, den, num', den' := m * Pow(2, Up(e)), Pow(2, Down(e)), m' * Pow(2, Up(e')), Pow(2, Down(e'));
    MagnitudeMeaning(m, e, k);
    MagnitudeMeaning(m', e', k);
    SameThreshold(num, den, num', den', k);
  }

  lemma {:induction false} SameThreshold(num: nat, den: nat, num': nat, den': nat, k: int)
    requires den > 0 && den' > 0 && num * den' == num' * den
    ensures AtLeast(num, den, k) <==> AtLeast(num', den', k)
  {
    if AtLeast(num, den, k) { Larger(num, den, num', den', k); }
    if AtLeast(num', den', k) { Larger(num', den', num, den, k); }
  }

  /** A double passes through ldexp unchanged, whatever significand and exponent it is given with. */
  lemma {:induction false} DoubleKept(m: nat, e: int, m': nat, e': int)
    requires IsDouble(m, e) && m' > 0 && SameNumber(m, e, m', e')
    ensures var r := Ldexp(m', e'); r.Fits? && SameNumber(m, e, r.mantissa, r.exponent)
  {
    SameShape(m, e, m', e');
    FewBits(m, 53);
    if e' < LEAST_BIT {
      TwosMeaning(m, Max(0, LEAST_BIT - e));
      TwosMeaning(m', LEAST_BIT - e');
      NormalizedSame(m, e, m', e', LEAST_BIT - e');
    }
  }

  lemma {:induction false} NormalizedSame(m: nat, e: int, m': nat, e': int, j: nat)
    requires SameNumber(m, e, m', e') && e' < 0 && e' + j <= 0 && m' % Pow(2, j) == 0
    ensures SameNumber(m, e, HalfEven(m', Pow(2, j)), e' + j)
  {
    HalfEvenExact(m', Pow(2, j));
    assert Pow(2, 0) == 1;
    Normalized(m * Pow(2, Up(e)), Pow(2, Down(e)), HalfEven(m', Pow(2, j)), j, -(e' + j), -e');
  }

  lemma {:induction false} Normalized(x: nat, d: nat, q: nat, j: nat, least: nat, k: nat)
    requires k == least + j && x * Pow(2, k) == (q * Pow(2, j)) * 1 * d
    ensures x * Pow(2, least) == q * 1 * d
  {
    PowAdd(2, least, j);
    Reassociate(x, Pow(2, least), Pow(2, j));
    Swap(q, Pow(2, j), d);
    Cancel(x * Pow(2, least), q * d, Pow(2, j));
  }
}
