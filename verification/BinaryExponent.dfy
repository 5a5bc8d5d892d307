/**
 Binary orders of magnitude of decimal numbers: how the shift that brings a
 number into the significand's range, computed from logarithms of its first
 digit and its most significant place, bounds the number itself.
 */
module BinaryExponent {
  import opened Bignum
  import opened DoubleScaling

  /** 2^k <= num/den */
  ghost predicate AtLeast(num: nat, den: nat, k: int) {
    Pow(2, Up(k)) * den <= num * Pow(2, Down(k))
  }

  function Times(d: nat, place: int): nat { Product(d, Pow(10, Up(place))) }
  function Over(place: int): (r: nat) ensures r > 0 { Pow(10, Down(place)) }

  /** k is the floor of the binary logarithm of d 10^place. */
  ghost predicate IsFloorLog2(d: nat, place: int, k: int) {
    AtLeast(Times(d, place), Over(place), k) && !AtLeast(Times(d, place), Over(place), k + 1)
  }

  /** d 10^place is exactly 2^k. */
  ghost predicate IsPowerOfTwo(d: nat, place: int, k: int) {
    Times(d, place) * Pow(2, Down(k)) == Pow(2, Up(k)) * Over(place)
  }

  /** What a quotient of floating-point logarithms gives: the floor, or at an exact power of two possibly one less. */
  ghost predicate IsNearLog2(d: nat, place: int, k: int) {
    IsFloorLog2(d, place, k) || (IsFloorLog2(d, place, k + 1) && IsPowerOfTwo(d, place, k + 1))
  }

  /** num/den, shifted right by rs, is at least 2^51 and less than 2^53. */
  ghost predicate Estimate(num: nat, den: nat, rs: int) {
    && HALF_MANTISSA * (Pow(2, Up(rs)) * den) <= num * Pow(2, Down(rs))
    && num * Pow(2, Down(rs)) < 2 * MIN_MANTISSA * (Pow(2, Up(rs)) * den)
  }

  /** A threshold, with c of its powers of two taken apart. */
  lemma {:induction false} Threshold(num: nat, den: nat, k: int, c: nat)
    ensures AtLeast(num, den, k + c) <==> Pow(2, c) * (Pow(2, Up(k)) * den) <= num * Pow(2, Down(k))
  {
    if k >= 0 {
      PowAdd(2, c, k);
      Reassociate(Pow(2, c), Pow(2, k), den);
    } else if k + c >= 0 {
      PowAdd(2, k + c, -k);
      Moved(Pow(2, k + c), Pow(2, -k), den, num);
    } else {
      PowAdd(2, -k - c, c);
      Moved'(Pow(2, -k - c), Pow(2, c), den, num);
    }
  }

  lemma {:induction false} Moved(a: nat, b: nat, den: nat, num: nat)
    requires b > 0
    ensures a * den <= num <==> (a * b) * den <= num * b
  {
    Swap(a, b, den);
    Ordered(a * den, num, b);
  }

  lemma {:induction false} Moved'(a: nat, b: nat, den: nat, num: nat)
    requires b > 0
    ensures den <= num * a <==> b * den <= num * (a * b)
  {
    Reassociate(num, a, b);
    assert b * den == den * b;
    Ordered(den, num * a, b);
  }

  /** A threshold carries over to any number that is at least as large. */
  lemma {:induction false} Larger(num: nat, den: nat, num': nat, den': nat, k: int)
    requires den > 0 && den' > 0 && num * den' <= num' * den && AtLeast(num, den, k)
    ensures AtLeast(num', den', k)
  {
    LargerFraction(num, den, num', den', Pow(2, Up(k)), Pow(2, Down(k)));
  }

  lemma {:induction false} LargerFraction(num: nat, den: nat, num': nat, den': nat, a: nat, b: nat)
    requires den > 0 && den' > 0 && num * den' <= num' * den && a * den <= num * b
    ensures a * den' <= num' * b
  {
    Swap(a, den, den');
    Swap(num, b, den');
    MulMonotonic(a * den, num * b, den');
    MulMonotonic(num * den', num' * den, b);
    Swap(num', den, b);
    Ordered(a * den', num' * b, den);
  }

  /** A larger exponent is a higher threshold. */
  lemma {:induction false} Lower(num: nat, den: nat, k: int, k': int)
    requires AtLeast(num, den, k) && k' <= k
    ensures AtLeast(num, den, k')
  {
    Threshold(num, den, k', k - k');
    Grows'(Pow(2, Up(k')) * den, Pow(2, k - k'));
    Threshold(num, den, k', 0);
    assert Pow(2, 0) * (Pow(2, Up(k')) * den) == Pow(2, Up(k')) * den;
  }

  lemma {:induction false} Grows'(a: nat, b: nat)
    requires b > 0
    ensures a <= b * a
  {
  }

  /** Powers of ten lie between powers of eight and sixteen. */
  lemma {:induction false} TenAsTwos(j: nat)
    ensures Pow(2, 3 * j) <= Pow(10, j) <= Pow(2, 4 * j)
  {
    PowPow(2, 3, j);
    PowPow(2, 4, j);
    assert Pow(2, 3) == 8 && Pow(2, 4) == 16;
    PowBase(8, 10, j);
    PowBase(10, 16, j);
  }

  lemma {:induction false} StrictlyMore(j: nat, k: nat)
    requires Pow(2, k) <= Pow(2, j)
    ensures k <= j
  {
    if k > j {
      PowMonotonic(2, j + 1, k);
    }
  }

  /** 10^place as a fraction */
  lemma {:induction false} PowerOfTenAtLeast(place: int, k: int)
    requires AtLeast(Times(1, place), Over(place), k)
    ensures k <= if place >= 0 then 4 * place else 3 * place
  {
    if place >= 0 {
      TenAsTwos(place);
      if k >= 0 { StrictlyMore(4 * place, k); }
    } else {
      TenAsTwos(-place);
      if k < 0 { StrictlyMore(-k, 3 * -place); }
    }
  }

  lemma {:induction false} PowerOfTenBelow(place: int, k: int)
    requires !AtLeast(Times(1, place), Over(place), k)
    ensures k > if place >= 0 then 3 * place else 4 * place
  {
    if place >= 0 {
      TenAsTwos(place);
      if 0 <= k <= 3 * place { PowMonotonic(2, k, 3 * place); }
      if k < 0 { Grows(Pow(10, place), Pow(2, -k)); }
    } else if k <= 4 * place {
      TenAsTwos(-place);
      PowMonotonic(2, 4 * -place, -k);
    }
  }

  /** The two thresholds of an estimate. */
  lemma {:induction false} EstimateThresholds(num: nat, den: nat, rs: int)
    ensures Estimate(num, den, rs) <==> AtLeast(num, den, rs + 51) && !AtLeast(num, den, rs + 53)
  {
    var low: nat, high: nat := 51, 53;
    MantissaBits(high);
    Threshold(num, den, rs, low);
    Threshold(num, den, rs, high);
  }

  /** An estimate depends on the value of a fraction only. */
  lemma {:induction false} EstimateFraction(num: nat, den: nat, num': nat, den': nat, rs: int)
    requires den > 0 && den' > 0 && num * den' == num' * den && Estimate(num, den, rs)
    ensures Estimate(num', den', rs)
  {
    EstimateThresholds(num, den, rs);
    EstimateThresholds(num', den', rs);
    Larger(num, den, num', den', rs + 51);
    if AtLeast(num', den', rs + 53) { Larger(num', den', num, den, rs + 53); }
  }

  /** d 10^lsp against c 10^msp, where msp is n places above lsp. */
  lemma {:induction false} ComparePlaces(d: nat, lsp: int, c: nat, msp: int, n: nat)
    requires msp == lsp + n
    ensures c * Pow(10, n) <= d ==> Times(c, msp) * Over(lsp) <= Times(d, lsp) * Over(msp)
    ensures d <= c * Pow(10, n) ==> Times(d, lsp) * Over(msp) <= Times(c, msp) * Over(lsp)
    ensures d < c * Pow(10, n) ==> Times(d, lsp) * Over(msp) < Times(c, msp) * Over(lsp)
  {
    var a, b := Up(lsp) + Down(msp), Up(msp) + Down(lsp);
    assert b == n + a;
    PowAdd(10, Up(lsp), Down(msp));
    PowAdd(10, Up(msp), Down(lsp));
    PowAdd(10, n, a);
    Reassociate(d, Pow(10, Up(lsp)), Pow(10, Down(msp)));
    Reassociate(c, Pow(10, Up(msp)), Pow(10, Down(lsp)));
    Reassociate(c, Pow(10, n), Pow(10, a));
    Ordered(c * Pow(10, n), d, Pow(10, a));
    Ordered(d, c * Pow(10, n), Pow(10, a));
  }

  /** Twice as much, one more. */
  lemma {:induction false} Half(f: nat, place: int, c: nat, k: int)
    requires c <= 2 * f && AtLeast(Times(c, place), Over(place), k)
    ensures AtLeast(Times(f, place), Over(place), k - 1)
  {
    var p, o := Pow(10, Up(place)), Over(place);
    MulMonotonic(c, 2 * f, p);
    Reassociate(2, f, p);
    MulMonotonic(c * p, 2 * (f * p), o);
    Larger(c * p, o, 2 * (f * p), o, k);
    var one: nat := 1;
    Threshold(2 * (f * p), o, k - 1, one);
    Threshold(f * p, o, k - 1, 0);
    assert Pow(2, one) == 2 && Pow(2, 0) == 1;
    Reassociate(2, f * p, Pow(2, Down(k - 1)));
  }

  /** The estimate from a logarithm is right exactly if that is the floor for the number itself, or one more. */
  lemma {:induction false} EstimateTolerance(num: nat, den: nat, floor: int, high: int)
    requires AtLeast(num, den, floor) && !AtLeast(num, den, floor + 1)
    ensures Estimate(num, den, high - 52) <==> floor <= high <= floor + 1
  {
    EstimateThresholds(num, den, high - 52);
    if high - 1 <= floor { Lower(num, den, floor, high - 1); }
    if high + 1 <= floor { Lower(num, den, floor, high + 1); }
    if AtLeast(num, den, high - 1) && high - 1 >= floor + 1 { Lower(num, den, high - 1, floor + 1); }
    if AtLeast(num, den, high + 1) && high + 1 >= floor + 1 { Lower(num, den, high + 1, floor + 1); }
  }

  /** The estimate computed from the floors for the first digit f, and for f + 1, is right. */
  lemma {:induction false} EstimateFromFloors(d: nat, lsp: int, msp: int, n: nat, f: nat, low: int, high: int)
    requires msp == lsp + n && 1 <= f <= 9
    requires f * Pow(10, n) <= d < (f + 1) * Pow(10, n)
    requires IsFloorLog2(f, msp, low) && IsFloorLog2(f + 1, msp, high)
    ensures Estimate(Times(d, lsp), Over(lsp), high - 52) && low <= high
  {
    ComparePlaces(d, lsp, f, msp, n);
    ComparePlaces(d, lsp, f + 1, msp, n);
    EstimateThresholds(Times(d, lsp), Over(lsp), high - 52);
    Half(f, msp, f + 1, high);
    Larger(Times(f, msp), Over(msp), Times(d, lsp), Over(lsp), high - 1);
    if AtLeast(Times(d, lsp), Over(lsp), high + 1) {
      Larger(Times(d, lsp), Over(lsp), Times(f + 1, msp), Over(msp), high + 1);
    }
    if low > high {
      Larger(Times(f, msp), Over(msp), Times(d, lsp), Over(lsp), low);
      Larger(Times(d, lsp), Over(lsp), Times(f + 1, msp), Over(msp), low);
      Lower(Times(f + 1, msp), Over(msp), low, high + 1);
    }
  }

  /** A number below d 10^place, which is a power of two, is below that power. */
  lemma {:induction false} BelowPower(num: nat, den: nat, d: nat, place: int, k: int)
    requires num * Over(place) < Times(d, place) * den && IsPowerOfTwo(d, place, k) && den > 0
    ensures !AtLeast(num, den, k)
  {
    CrossBelow(num, den, Times(d, place), Over(place), Pow(2, Up(k)), Pow(2, Down(k)));
  }

  lemma {:induction false} CrossBelow(num: nat, den: nat, t: nat, o: nat, a: nat, b: nat)
    requires num * o < t * den && t * b == a * o && b > 0 && o > 0
    ensures num * b < a * den
  {
    assert (num * o) * b < (t * den) * b by { Ordered(t * den, num * o, b); }
    Swap(num, o, b);
    Swap(t, den, b);
    Swap(a, o, den);
    Ordered(a * den, num * b, o);
  }

  /**
   The estimate computed from the logarithms of the first digit f, and of
   f + 1, is right, even where they are one too small at powers of two.
   */
  lemma {:induction false} EstimateFromLogs(d: nat, lsp: int, msp: int, n: nat, f: nat, low: int, high: int)
    requires msp == lsp + n && 1 <= f <= 9
    requires f * Pow(10, n) <= d < (f + 1) * Pow(10, n)
    requires IsNearLog2(f, msp, low) && IsNearLog2(f + 1, msp, high)
    ensures Estimate(Times(d, lsp), Over(lsp), high - 52) && low <= high
  {
    var num, den := Times(d, lsp), Over(lsp);
    var l := if IsFloorLog2(f, msp, low) then low else low + 1;
    var h := if IsFloorLog2(f + 1, msp, high) then high else high + 1;
    EstimateFromFloors(d, lsp, msp, n, f, l, h);
    if h != high {
      EstimateThresholds(num, den, h - 52);
      EstimateThresholds(num, den, high - 52);
      ComparePlaces(d, lsp, f + 1, msp, n);
      ComparePlaces(d, lsp, f, msp, n);
      BelowPower(num, den, f + 1, msp, h);
      Lower(num, den, h - 1, h - 2);
      Larger(Times(f, msp), Over(msp), num, den, l);
    }
  }

  /** The logarithms are within the powers of ten around the number. */
  lemma {:induction false} NearLogBounds(msp: int, f: nat, low: int, high: int)
    requires 1 <= f <= 9 && IsNearLog2(f, msp, low) && IsNearLog2(f + 1, msp, high)
    ensures high <= if msp >= -1 then 4 * (msp + 1) else 3 * (msp + 1)
    ensures low >= if msp >= 0 then 3 * msp - 1 else 4 * msp - 1
  {
    LogBounds(msp, f, if IsFloorLog2(f, msp, low) then low else low + 1,
              if IsFloorLog2(f + 1, msp, high) then high else high + 1);
  }

  lemma {:induction false} LogBounds(msp: int, f: nat, low: int, high: int)
    requires 1 <= f <= 9 && IsFloorLog2(f, msp, low) && IsFloorLog2(f + 1, msp, high)
    ensures high <= if msp >= -1 then 4 * (msp + 1) else 3 * (msp + 1)
    ensures low >= if msp >= 0 then 3 * msp else 4 * msp
  {
    var one: nat := 1;
    assert Pow(10, one) == 10 && Pow(10, 0) == 1;
    ComparePlaces(f + 1, msp, 1, msp + 1, one);
    Larger(Times(f + 1, msp), Over(msp), Times(1, msp + 1), Over(msp + 1), high);
    PowerOfTenAtLeast(msp + 1, high);
    if AtLeast(Times(1, msp), Over(msp), low + 1) {
      ComparePlaces(f, msp, 1, msp, 0);
      Larger(Times(1, msp), Over(msp), Times(f, msp), Over(msp), low + 1);
    }
    PowerOfTenBelow(msp, low + 1);
  }
}
