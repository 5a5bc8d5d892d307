/**
 A binary floating-point number laid out as a fixed-point base 10^9 number, as
 to_digits does it: the integer significand is loaded at the units digit, and
 then the binary exponent is applied by passes of shifts.
 */
module DoubleScaling {
  import opened Bignum
  import opened FactorsOfTwo

  const INT_DIGITS := 35
  const FRAC_DIGITS := 120
  const DIG_PER_DBL := INT_DIGITS + FRAC_DIGITS
  const UNITS_DIGIT := INT_DIGITS - 1

  /** Bignum digits in the work space. */
  const SIZE := DIG_PER_DBL + 1

  const MIN_MANTISSA := 0x10_0000_0000_0000
  const HALF_MANTISSA := 0x8_0000_0000_0000
  const MAX_EXPONENT := 971
  const LEAST_BIT := -1074

  function Max(a: int, b: int): int {
    if a < b then b else a
  }

  /** A positive finite double with its significand m scaled to 53 bits: its value is m 2^e. */
  ghost predicate IsDouble(m: nat, e: int) {
    && MIN_MANTISSA <= m < 2 * MIN_MANTISSA
    && LEAST_BIT - 52 <= e <= MAX_EXPONENT
    && m % Pow(2, Max(0, LEAST_BIT - e)) == 0
  }

  /** The work space holds the value m 2^e / 2^k, in units of 10^-(9 PLACES). */
  ghost predicate Holds(s: seq<int>, m: nat, up: nat, down: nat) {
    |s| == SIZE && Val(s) * Pow(2, down) == m * Pow(2, up) * Pow(BBASE, |s| - 1 - UNITS_DIGIT)
  }

  lemma {:induction false} Cancel(a: int, b: int, p: nat)
    requires p > 0 && a * p == b * p
    ensures a == b
  {
    var x := a - b;
    assert x * p == 0 by { assert a == b + x; Distribute(b, x, p); }
    if x > 0 { Grows(p, x); }
    if x < 0 { Negated(x, p); }
  }

  lemma {:induction false} Negated(x: int, p: int)
    ensures (-x) * p == -(x * p)
  {
  }

  /** Bignum digits needed for a number of decimal places. */
  function DigitsFor(places: int): nat
    decreases if places < 0 then 0 else places
  {
    if places <= 0 then 0 else 1 + DigitsFor(places - DDIG_PER_DIG)
  }

  /** That is the number of places over nine, rounded up. */
  lemma {:induction false} DigitsForIs(places: nat)
    ensures DigitsFor(places) == (places + DDIG_PER_DIG - 1) / DDIG_PER_DIG
    decreases places
  {
    if places > DDIG_PER_DIG { DigitsForIs(places - DDIG_PER_DIG); }
  }

  /** How far to the right the digits reach after some passes, k places of right shift in all. */
  function Reach(passes: nat, k: nat, z: nat): nat {
    UNITS_DIGIT + Max(passes, DigitsFor(k - z))
  }

  /** The number before a run of zero places, with the places taken out. */
  lemma {:induction false} PrefixValue(s: seq<int>, m: nat, k: nat, b: nat)
    requires Holds(s, m, 0, k) && UNITS_DIGIT <= b < SIZE && Zeros(s[b + 1..])
    ensures Val(s[..b + 1]) * Pow(2, k) == m * Pow(BBASE, b - UNITS_DIGIT)
  {
    ValTail(s, b + 1);
    PlacesOut(Val(s), Val(s[..b + 1]), Pow(2, k), m, b - UNITS_DIGIT, |s| - (b + 1), |s| - 1 - UNITS_DIGIT);
  }

  lemma {:induction false} PlacesOut(v: int, p: int, r: nat, m: nat, c: nat, d: nat, all: nat)
    requires v == p * Pow(BBASE, d) && v * r == m * Pow(BBASE, all) && all == c + d
    ensures p * r == m * Pow(BBASE, c)
  {
    PowAdd(BBASE, c, d);
    Swap(p, r, Pow(BBASE, d));
    Reassociate(m, Pow(BBASE, c), Pow(BBASE, d));
    Cancel(p * r, m * Pow(BBASE, c), Pow(BBASE, d));
  }

  /** m can be halved z times. */
  ghost predicate HasTwos(m: nat, z: nat) {
    m > 0 && z <= Twos(m)
  }

  /** Enough decimal places make a prefix of the number divisible by the next shift. */
  lemma {:induction false} PrefixDivisible(s: seq<int>, m: nat, z: nat, k: nat, shift: nat, b: nat)
    requires Holds(s, m, 0, k) && HasTwos(m, z)
    requires UNITS_DIGIT <= b < SIZE && Zeros(s[b + 1..]) && Digits(s)
    requires k + shift <= z + 9 * (b - UNITS_DIGIT)
    ensures Val(s[..b + 1]) % Pow(2, shift) == 0
  {
    var p, c := NaturalPrefix(s, m, k, b);
    PlacesDivide(p, m, z, k, shift, c);
  }

  lemma {:induction false} NaturalPrefix(s: seq<int>, m: nat, k: nat, b: nat) returns (p: nat, c: nat)
    requires Holds(s, m, 0, k) && UNITS_DIGIT <= b < SIZE && Zeros(s[b + 1..]) && Digits(s)
    ensures p == Val(s[..b + 1]) && c == b - UNITS_DIGIT && p * Pow(2, k) == m * Pow(BBASE, c)
  {
    PrefixValue(s, m, k, b);
    ValBounds(s[..b + 1]);
    p, c := Val(s[..b + 1]), b - UNITS_DIGIT;
  }

  lemma {:induction false} PlacesDivide(p: nat, m: nat, z: nat, k: nat, shift: nat, c: nat)
    requires p * Pow(2, k) == m * Pow(BBASE, c) && HasTwos(m, z) && k + shift <= z + 9 * c
    ensures p % Pow(2, shift) == 0
  {
    BasePower(c);
    TwosMeaning(m, z);
    Divides(m, Pow(2, z));
    TwosOut(p, m / Pow(2, z), z, k, shift, 9 * c, Pow(5, 9 * c));
  }

  /** p 2^k == (a 2^z) (2^n f), where n + z twos are enough for k + shift. */
  lemma {:induction false} TwosOut(p: nat, a: nat, z: nat, k: nat, shift: nat, n: nat, f: nat)
    requires p * Pow(2, k) == (a * Pow(2, z)) * (Pow(2, n) * f) && k + shift <= z + n
    ensures p % Pow(2, shift) == 0
  {
    var r := z + n - k - shift;
    GatherTwos(a, z, n, f);
    PowAdd(2, shift + r, k);
    Reassociate(a * f, Pow(2, shift + r), Pow(2, k));
    Cancel(p, (a * f) * Pow(2, shift + r), Pow(2, k));
    PowAdd(2, r, shift);
    Reassociate(a * f, Pow(2, r), Pow(2, shift));
    MultipleOf((a * f) * Pow(2, r), Pow(2, shift));
  }

  lemma {:induction false} GatherTwos(a: nat, z: nat, n: nat, f: nat)
    ensures (a * Pow(2, z)) * (Pow(2, n) * f) == (a * f) * Pow(2, z + n)
  {
    PowAdd(2, z, n);
    var t, u := Pow(2, z), Pow(2, n);
    Interchange(a, t, f, u);
    assert u * f == f * u;
  }

  /** Moves msd to the first non-zero digit. */
  method SkipLeadingZeros(digits: array<int>, msd: nat, lsd: nat) returns (first: nat)
    requires Extent(digits[..], msd, lsd) && Val(digits[..]) != 0
    ensures msd <= first <= lsd && Extent(digits[..], first, lsd) && digits[first] != 0
  {
    ghost var i := NonzeroDigit(digits[..]);
    assert digits[i] != 0;
    first := msd;
    while digits[first] == 0
      invariant msd <= first <= i <= lsd
      invariant forall j :: msd <= j < first ==> digits[j] == 0
      decreases i - first
    {
      first := first + 1;
    }
  }

  /** Moves lsd to the last non-zero digit. */
  method SkipTrailingZeros(digits: array<int>, msd: nat, lsd: nat) returns (last: nat)
    requires Extent(digits[..], msd, lsd) && Val(digits[..]) != 0
    ensures msd <= last <= lsd && Extent(digits[..], msd, last) && digits[last] != 0
  {
    ghost var i := NonzeroDigit(digits[..]);
    assert digits[i] != 0;
    last := lsd;
    while digits[last] == 0
      invariant msd <= i <= last <= lsd
      invariant forall j :: last < j <= lsd ==> digits[j] == 0
      decreases last
    {
      last := last - 1;
    }
  }

  /** Loads the significand, with its units at the units digit. */
  method LoadSignificand(digits: array<int>, m: nat) returns (msd: nat)
    requires digits.Length == SIZE && (forall i :: 0 <= i < SIZE ==> digits[i] == 0)
    requires 0 < m < BBASE * BBASE
    modifies digits
    ensures UNITS_DIGIT - 1 <= msd <= UNITS_DIGIT && Extent(digits[..], msd, UNITS_DIGIT) && digits[msd] != 0
    ensures Holds(digits[..], m, 0, 0)
  {
    var fraction := m;
    msd := UNITS_DIGIT;
    while fraction > 0
      invariant forall i :: 0 <= i < SIZE && i != UNITS_DIGIT && i != UNITS_DIGIT - 1 ==> digits[i] == 0
      invariant UNITS_DIGIT - 2 <= msd <= UNITS_DIGIT
      invariant fraction == if msd == UNITS_DIGIT then m else if msd == UNITS_DIGIT - 1 then m / BBASE else 0
      invariant digits[UNITS_DIGIT] == if msd < UNITS_DIGIT then m % BBASE else 0
      invariant digits[UNITS_DIGIT - 1] == if msd < UNITS_DIGIT - 1 then m / BBASE else 0
      invariant msd == UNITS_DIGIT - 2 ==> m / BBASE > 0
      decreases msd
    {
      digits[msd] := fraction % BBASE;
      fraction := fraction / BBASE;
      msd := msd - 1;
    }
    msd := msd + 1;
    LoadedValue(digits[..], m);
  }

  lemma {:induction false} LoadedValue(s: seq<int>, m: nat)
    requires |s| == SIZE && 0 < m < BBASE * BBASE
    requires s[UNITS_DIGIT] == m % BBASE && s[UNITS_DIGIT - 1] == m / BBASE
    requires forall i :: 0 <= i < SIZE && i != UNITS_DIGIT && i != UNITS_DIGIT - 1 ==> s[i] == 0
    ensures Holds(s, m, 0, 0)
  {
    UnitsOnly(s, m, UNITS_DIGIT - 1);
  }

  lemma {:induction false} UnitsOnly(s: seq<int>, m: nat, n: nat)
    requires n + 2 <= |s| && m < BBASE * BBASE && s[n + 1] == m % BBASE && s[n] == m / BBASE
    requires forall i :: 0 <= i < |s| && i != n && i != n + 1 ==> s[i] == 0
    ensures Val(s) == m * Pow(BBASE, |s| - (n + 2))
  {
    ValTail(s, n + 2);
    ValZeros(s[..n]);
    TwoDigits(s, n);
  }

  lemma {:induction false} TwoDigits(s: seq<int>, n: nat)
    requires n + 2 <= |s|
    ensures Val(s[..n + 2]) == (Val(s[..n]) * BBASE + s[n]) * BBASE + s[n + 1]
  {
    assert s[..n + 1] == s[..n] + [s[n]];
    assert s[..n + 2] == s[..n + 1] + [s[n + 1]];
    ValAppend(s[..n + 1], s[n + 1]);
    ValAppend(s[..n], s[n]);
  }

  /** One more pass of right shift. */
  lemma {:induction false} MoreDown(s: seq<int>, t: seq<int>, m: nat, k: nat, shift: nat)
    requires Holds(s, m, 0, k) && |t| == SIZE && Val(t) * Pow(2, shift) == Val(s)
    ensures Holds(t, m, 0, k + shift)
  {
    PowAdd(2, shift, k);
    Reassociate(Val(t), Pow(2, shift), Pow(2, k));
  }

  lemma {:induction false} MoreUp(s: seq<int>, t: seq<int>, m: nat, k: nat, shift: nat)
    requires Holds(s, m, k, 0) && |t| == SIZE && Val(t) == Val(s) * Pow(2, shift)
    ensures Holds(t, m, k + shift, 0)
  {
    PowAdd(2, k, shift);
    Reassociate(m, Pow(2, k), Pow(2, shift));
    Swap(m * Pow(2, k), Pow(BBASE, |s| - 1 - UNITS_DIGIT), Pow(2, shift));
  }

  /** A number that is not zero keeps a digit that is not zero. */
  lemma {:induction false} HoldsNonzero(s: seq<int>, m: nat, up: nat, down: nat)
    requires Holds(s, m, up, down) && m > 0
    ensures Val(s) != 0
  {
    Grows(m, Pow(2, up));
    Grows(m * Pow(2, up), Pow(BBASE, |s| - 1 - UNITS_DIGIT));
  }

  /** How far a pass may go: a short last pass may go one digit beyond the reach. */
  function PassBound(passes: nat, shift: nat, z: nat): nat {
    Reach(passes + 1, BDIG_PER_DIG * passes + shift, z) + if shift == BDIG_PER_DIG then 0 else 1
  }

  /** The right shift stays inside the work space. */
  lemma {:induction false} PassWithin(passes: nat, shift: nat, z: nat, total: nat)
    requires 1 <= shift && BDIG_PER_DIG * passes + shift <= total <= 52 - LEAST_BIT && total - z <= -LEAST_BIT
    ensures PassBound(passes, shift, z) < SIZE
  {
    var k := BDIG_PER_DIG * passes + shift;
    if k > z { DigitsForIs(k - z); }
  }

  lemma {:induction false} ReachGrows(passes: nat, shift: nat, z: nat)
    requires 1 <= shift <= BDIG_PER_DIG
    ensures Reach(passes, BDIG_PER_DIG * passes, z) < PassBound(passes, shift, z)
    ensures BDIG_PER_DIG * passes + shift <= z + 9 * (PassBound(passes, shift, z) - UNITS_DIGIT)
  {
    var k := BDIG_PER_DIG * passes;
    if k > z { DigitsForIs(k - z); }
    if k + shift > z { DigitsForIs(k + shift - z); }
  }

  /** The state of the right-shift loop after some passes, k places of the total; only the last may be short. */
  ghost predicate Lowered(s: seq<int>, msd: nat, lsd: nat, m: nat, z: nat, k: nat, passes: nat, total: int) {
    && Extent(s, msd, lsd) && msd <= lsd < |s| && s[msd] != 0
    && Holds(s, m, 0, k)
    && (k < total ==> lsd <= Reach(passes, k, z) && k == BDIG_PER_DIG * passes)
  }

  /** The division of one right-shift pass of to_digits. */
  method DownShift(digits: array<int>, msd: nat, lsd: nat, shift: nat,
                   ghost m: nat, ghost z: nat, ghost k: nat, ghost passes: nat, ghost total: nat)
    returns (lsd': nat)
    requires digits.Length == SIZE && Lowered(digits[..], msd, lsd, m, z, k, passes, total) && k < total && HasTwos(m, z)
    requires 1 <= shift <= BDIG_PER_DIG && PassBound(passes, shift, z) < SIZE
    modifies digits
    ensures msd <= lsd' < SIZE && Extent(digits[..], msd, lsd')
    ensures shift == BDIG_PER_DIG ==> lsd' <= Reach(passes + 1, k + shift, z)
    ensures Holds(digits[..], m, 0, k + shift) && Val(digits[..]) != 0
  {
    ghost var s, b := digits[..], PassBound(passes, shift, z);
    PassDivides(s, msd, lsd, m, z, k, shift, passes, total);
    var ok;
    ok, lsd' := ShiftRight(digits, msd, lsd + 1, shift, b);
    MovedDown(s, digits[..], m, k, shift);
  }

  lemma {:induction false} MovedDown(s: seq<int>, t: seq<int>, m: nat, k: nat, shift: nat)
    requires Holds(s, m, 0, k) && m > 0 && |t| == SIZE && Val(t) * Pow(2, shift) == Val(s)
    ensures Holds(t, m, 0, k + shift) && Val(t) != 0
  {
    MoreDown(s, t, m, k, shift);
    HoldsNonzero(t, m, 0, k + shift);
  }

  /** The number up to where a pass may go is divisible. */
  lemma {:induction false} PassDivides(s: seq<int>, msd: nat, lsd: nat, m: nat, z: nat, k: nat, shift: nat, passes: nat, total: nat)
    requires Lowered(s, msd, lsd, m, z, k, passes, total) && k < total && HasTwos(m, z)
    requires 1 <= shift <= BDIG_PER_DIG && PassBound(passes, shift, z) < SIZE
    ensures var b := PassBound(passes, shift, z);
      && lsd < b && Val(s[..b + 1]) % Pow(2, shift) == 0
      && (shift == BDIG_PER_DIG ==> b == Reach(passes + 1, k + shift, z))
  {
    ReachGrows(passes, shift, z);
    BoundDivides(s, msd, lsd, m, z, k, shift, PassBound(passes, shift, z));
  }

  lemma {:induction false} BoundDivides(s: seq<int>, msd: nat, lsd: nat, m: nat, z: nat, k: nat, shift: nat, b: nat)
    requires Holds(s, m, 0, k) && HasTwos(m, z) && Extent(s, msd, lsd)
    requires lsd < b < SIZE && UNITS_DIGIT <= b && k + shift <= z + 9 * (b - UNITS_DIGIT)
    ensures Val(s[..b + 1]) % Pow(2, shift) == 0
  {
    assert Zeros(s[b + 1..]);
    PrefixDivisible(s, m, z, k, shift, b);
  }

  /** The right-shift loop of to_digits, for a negative exponent. */
  method ShiftDown(digits: array<int>, msd0: nat, lsd0: nat, e: int, ghost m: nat, ghost z: nat)
    returns (msd: nat, lsd: nat, ghost passes: nat)
    requires digits.Length == SIZE && LEAST_BIT - 52 <= e <= 0 && -e - z <= -LEAST_BIT
    requires HasTwos(m, z)
    requires Lowered(digits[..], msd0, lsd0, m, z, 0, 0, -e)
    modifies digits
    ensures Lowered(digits[..], msd, lsd, m, z, -e, passes, -e)
  {
    var exponent := e;
    msd, lsd, passes := msd0, lsd0, 0;
    ghost var k: nat, total := 0, -e;
    while exponent < 0
      invariant k <= total && exponent == k - total
      invariant Lowered(digits[..], msd, lsd, m, z, k, passes, total)
    {
      exponent, msd, lsd, k := DownTurn(digits, msd, lsd, exponent, m, z, k, passes, total);
      passes := passes + 1;
    }
  }

  /** As many of the remaining places as one pass can take. */
  function PassShift(left: nat): (shift: nat)
    requires left > 0
    ensures 1 <= shift <= left && shift <= BDIG_PER_DIG && (shift == BDIG_PER_DIG || shift == left)
  {
    if BDIG_PER_DIG < left then BDIG_PER_DIG else left
  }

  /** One turn of the right-shift loop: as many places as one pass can take. */
  method DownTurn(digits: array<int>, msd: nat, lsd: nat, exponent: int,
                  ghost m: nat, ghost z: nat, ghost k: nat, ghost passes: nat, ghost total: nat)
    returns (exponent': int, msd': nat, lsd': nat, ghost k': nat)
    requires k < total <= 52 - LEAST_BIT && exponent == k - total && total - z <= -LEAST_BIT && HasTwos(m, z)
    requires digits.Length == SIZE && Lowered(digits[..], msd, lsd, m, z, k, passes, total)
    modifies digits
    ensures k < k' <= total && exponent' == k' - total
    ensures Lowered(digits[..], msd', lsd', m, z, k', passes + 1, total)
  {
    var shift := PassShift(-exponent);
    PassWithin(passes, shift, z, total);
    lsd' := DownShift(digits, msd, lsd, shift, m, z, k, passes, total);
    msd' := SkipLeadingZeros(digits, msd, lsd');
    exponent', k' := exponent + shift, k + shift;
  }

  method ApplyNegativeExponent(digits: array<int>, msd0: nat, lsd0: nat, e: int, ghost m: nat) returns (msd: nat, lsd: nat)
    requires digits.Length == SIZE && msd0 <= lsd0 <= UNITS_DIGIT
    requires Extent(digits[..], msd0, lsd0) && digits[msd0] != 0
    requires IsDouble(m, e) && e <= 0 && Holds(digits[..], m, 0, 0)
    modifies digits
    ensures msd <= lsd < SIZE && Extent(digits[..], msd, lsd) && digits[msd] != 0
    ensures Holds(digits[..], m, 0, -e)
  {
    ghost var z := Max(0, LEAST_BIT - e);
    TwosMeaning(m, z);
    ghost var passes;
    msd, lsd, passes := ShiftDown(digits, msd0, lsd0, e, m, z);
  }

  // Left shift

  lemma {:induction false} PowBase(a: nat, b: nat, e: nat)
    requires a <= b
    ensures Pow(a, e) <= Pow(b, e)
  {
    if e > 0 {
      PowBase(a, b, e - 1);
      ProductMonotonic(a, b, Pow(a, e - 1), Pow(b, e - 1));
    }
  }

  lemma {:induction false} ProductMonotonic(a: nat, b: nat, c: nat, d: nat)
    requires a <= b && c <= d
    ensures a * c <= b * d
  {
    MulMonotonic(a, b, c);
    MulMonotonic(c, d, b);
  }

  /** 2^59 < BBASE^2 */
  lemma {:induction false} TwoDigitsOfTwos(n: nat, two: nat)
    requires n == 59 && two == 2
    ensures Pow(2, n) <= Pow(BBASE, two)
  {
    var h: nat := 28;
    SmallShift(h);
    PowAdd(2, h, h);
    assert Pow(2, 3) == 8;
    PowAdd(2, h + h, 3);
    ProductMonotonic(Pow(2, h), 268_435_456, Pow(2, h), 268_435_456);
    assert Pow(BBASE, two) == BBASE * BBASE;
  }

  /** A double is less than 2^1024, which has at most 35 digits. */
  lemma {:induction false} LargestDouble(n: nat, c: nat)
    requires n <= 1024 && c >= INT_DIGITS
    ensures Pow(2, n) <= Pow(BBASE, c)
  {
    var s: nat, r: nat, q: nat, two: nat := 59, 21, 17, 2;
    PowMonotonic(2, n, s * q + r);
    PowMonotonic(BBASE, two * q + 1, c);
    PowPow(2, s, q);
    PowAdd(2, s * q, r);
    TwoDigitsOfTwos(s, two);
    PowBase(Pow(2, s), Pow(BBASE, two), q);
    PowPow(BBASE, two, q);
    SmallShift(r);
    PowAdd(BBASE, two * q, 1);
    ProductMonotonic(Pow(Pow(2, s), q), Pow(BBASE, two * q), Pow(2, r), BBASE);
  }

  lemma {:induction false} Doubling(h: nat, v: nat, odd: nat)
    requires Pow(2, h) == v && odd <= 1
    ensures Pow(2, 2 * h + odd) == if odd == 1 then 2 * (v * v) else v * v
  {
    PowAdd(2, h, h);
    assert h + h == 2 * h;
  }

  lemma {:induction false} MantissaBits(n: nat)
    requires n == 53
    ensures Pow(2, n) == 2 * MIN_MANTISSA && Pow(2, n - 2) == HALF_MANTISSA
  {
    var h: nat := 0;
    Doubling(h, 1, 1);
    Doubling(2 * h + 1, 2, 1);
    h := 3;
    Doubling(h, 8, 0);
    h := 6;
    Doubling(h, 64, 1);
    h := 13;
    Doubling(h, 8192, 0);
    h := 26;
    Doubling(h, 67_108_864, 1);
  }

  /** What is left of a double when only some of its exponent is applied is less than 2^1024. */
  lemma {:induction false} Below(m: nat, k: nat, n: nat)
    requires k <= MAX_EXPONENT && m < 2 * MIN_MANTISSA && n >= INT_DIGITS
    ensures m * Pow(2, k) < Pow(BBASE, n)
  {
    var bits: nat, all: nat := 53, 1024;
    MantissaBits(bits);
    PowMonotonic(2, k, all - bits);
    PowAdd(2, bits, all - bits);
    LargestDouble(all, n);
    ProductMonotonic(m, 2 * MIN_MANTISSA - 1, Pow(2, k), Pow(2, all - bits));
    Distribute(2 * MIN_MANTISSA - 1, 1, Pow(2, all - bits));
  }

  /** The product of a left-shift pass fits in the work space. */
  lemma {:induction false} PassFits(s: seq<int>, m: nat, k: nat, shift: nat, e: nat)
    requires Holds(s, m, k, 0) && k + shift <= e <= MAX_EXPONENT && m < 2 * MIN_MANTISSA
    ensures Val(s) * Pow(2, shift) < Pow(BBASE, |s|)
  {
    ProductFits(Val(s), m, k, shift, UNITS_DIGIT + 1, |s| - 1 - UNITS_DIGIT, |s|);
  }

  lemma {:induction false} ProductFits(v: int, m: nat, k: nat, shift: nat, n: nat, c: nat, total: nat)
    requires v == m * Pow(2, k) * Pow(BBASE, c)
    requires k + shift <= MAX_EXPONENT && m < 2 * MIN_MANTISSA && n >= INT_DIGITS && total == n + c
    ensures v * Pow(2, shift) < Pow(BBASE, total)
  {
    Below(m, k + shift, n);
    PowAdd(2, k, shift);
    Raise(m, Pow(2, k), Pow(2, shift), Pow(BBASE, c), Pow(BBASE, n));
    Together(n, c, total);
  }

  lemma {:induction false} Together(n: nat, c: nat, total: nat)
    requires total == n + c
    ensures Pow(BBASE, n) * Pow(BBASE, c) == Pow(BBASE, total)
  {
    PowAdd(BBASE, n, c);
  }

  lemma {:induction false} Raise(m: nat, p: nat, r: nat, q: nat, b: nat)
    requires m * (p * r) < b && q > 0
    ensures m * p * q * r < b * q
  {
    Swap(m * p, q, r);
    Reassociate(m, p, r);
    StrictProduct(m * p * r, b, q);
  }

  lemma {:induction false} StrictProduct(a: nat, b: nat, q: nat)
    requires a < b && q > 0
    ensures a * q < b * q
  {
    MulMonotonic(a + 1, b, q);
    Distribute(a, 1, q);
  }

  /** The state of the left-shift loop of to_digits. */
  ghost predicate Raised(s: seq<int>, msd: nat, lsd: nat, m: nat, k: nat) {
    && Extent(s, msd, lsd) && msd <= lsd < |s| && s[msd] != 0
    && Holds(s, m, k, 0) && m > 0
  }

  /** The multiplication of one left-shift pass of to_digits. */
  method UpShift(digits: array<int>, msd: nat, lsd: nat, shift: nat, ghost m: nat, ghost k: nat, ghost e: nat) returns (msd': nat)
    requires digits.Length == SIZE && Raised(digits[..], msd, lsd, m, k)
    requires 1 <= shift <= BDIG_PER_DIG && k + shift <= e <= MAX_EXPONENT && m < 2 * MIN_MANTISSA
    modifies digits
    ensures msd' <= lsd < SIZE && Extent(digits[..], msd', lsd) && digits[msd'] != 0
    ensures Holds(digits[..], m, k + shift, 0) && Val(digits[..]) != 0
  {
    ghost var s := digits[..];
    PassFits(s, m, k, shift, e);
    msd' := ShiftLeft(digits, msd, lsd, shift);
    MovedUp(s, digits[..], m, k, shift);
  }

  lemma {:induction false} MovedUp(s: seq<int>, t: seq<int>, m: nat, k: nat, shift: nat)
    requires Holds(s, m, k, 0) && m > 0 && |t| == SIZE && Val(t) == Val(s) * Pow(2, shift)
    ensures Holds(t, m, k + shift, 0) && Val(t) != 0
  {
    MoreUp(s, t, m, k, shift);
    HoldsNonzero(t, m, k + shift, 0);
  }

  /** One left-shift pass of to_digits. */
  method UpPass(digits: array<int>, msd: nat, lsd: nat, shift: nat, ghost m: nat, ghost k: nat, ghost e: nat)
    returns (msd': nat, lsd': nat)
    requires digits.Length == SIZE && Raised(digits[..], msd, lsd, m, k)
    requires 1 <= shift <= BDIG_PER_DIG && k + shift <= e <= MAX_EXPONENT && m < 2 * MIN_MANTISSA
    modifies digits
    ensures Raised(digits[..], msd', lsd', m, k + shift)
  {
    msd' := UpShift(digits, msd, lsd, shift, m, k, e);
    lsd' := SkipTrailingZeros(digits, msd', lsd);
  }

  method ApplyPositiveExponent(digits: array<int>, msd0: nat, lsd0: nat, e: nat, ghost m: nat) returns (msd: nat, lsd: nat)
    requires digits.Length == SIZE && msd0 <= lsd0 < SIZE
    requires Extent(digits[..], msd0, lsd0) && digits[msd0] != 0
    requires IsDouble(m, e) && Holds(digits[..], m, 0, 0)
    modifies digits
    ensures msd <= lsd < SIZE && Extent(digits[..], msd, lsd) && digits[msd] != 0
    ensures Holds(digits[..], m, e, 0)
  {
    msd, lsd := ShiftUp(digits, msd0, lsd0, e, m);
  }

  /** The left-shift loop of to_digits, for a positive exponent. */
  method ShiftUp(digits: array<int>, msd0: nat, lsd0: nat, e: nat, ghost m: nat) returns (msd: nat, lsd: nat)
    requires digits.Length == SIZE && Raised(digits[..], msd0, lsd0, m, 0) && e <= MAX_EXPONENT && m < 2 * MIN_MANTISSA
    modifies digits
    ensures Raised(digits[..], msd, lsd, m, e)
  {
    var exponent: nat := e;
    msd, lsd := msd0, lsd0;
    while exponent > 0
      invariant 0 <= exponent <= e
      invariant Raised(digits[..], msd, lsd, m, e - exponent)
    {
      exponent, msd, lsd := UpTurn(digits, msd, lsd, exponent, m, e);
    }
  }

  /** One turn of the left-shift loop. */
  method UpTurn(digits: array<int>, msd: nat, lsd: nat, exponent: nat, ghost m: nat, ghost e: nat)
    returns (exponent': nat, msd': nat, lsd': nat)
    requires 0 < exponent <= e <= MAX_EXPONENT && m < 2 * MIN_MANTISSA
    requires digits.Length == SIZE && Raised(digits[..], msd, lsd, m, e - exponent)
    modifies digits
    ensures exponent' < exponent && Raised(digits[..], msd', lsd', m, e - exponent')
  {
    var shift := PassShift(exponent);
    msd', lsd' := UpPass(digits, msd, lsd, shift, m, e - exponent, e);
    exponent' := exponent - shift;
  }

  /** Powers of two above and below the binary point. */
  function Up(e: int): nat { Max(0, e) }
  function Down(e: int): nat { Max(0, -e) }

  /** Lays out a double: every digit it has, before and after the decimal point. */
  method LayOut(digits: array<int>, m: nat, e: int) returns (msd: nat, lsd: nat)
    requires digits.Length == SIZE && (forall i :: 0 <= i < SIZE ==> digits[i] == 0)
    requires IsDouble(m, e)
    modifies digits
    ensures msd <= lsd < SIZE && Extent(digits[..], msd, lsd) && digits[msd] != 0
    ensures Holds(digits[..], m, Up(e), Down(e))
  {
    msd := LoadSignificand(digits, m);
    HoldsNonzero(digits[..], m, 0, 0);
    lsd := SkipTrailingZeros(digits, msd, UNITS_DIGIT);
    if e < 0 {
      msd, lsd := ApplyNegativeExponent(digits, msd, lsd, e, m);
    } else {
      msd, lsd := ApplyPositiveExponent(digits, msd, lsd, e, m);
    }
  }

  lemma {:induction false} Divides(m: nat, p: nat)
    requires p > 0 && m % p == 0
    ensures m == (m / p) * p && (m > 0 ==> m / p > 0)
  {
  }
}
