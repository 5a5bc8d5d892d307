/**
 to_digits: the decimal digit string of a double, correctly rounded at a given
 scale, halves to even.
 */
module ToDigits {
  import opened Bignum
  import opened Rounding
  import opened DigitRounding
  import opened Decimals
  import opened DigitPrinter
  import opened DoubleScaling

  const MIN_SCALE := -308
  const MAX_SCALE := 321

  /** The number of places to truncate after the last significant digit, but no more digits than there are. */
  method Truncate(work0: nat, p10: nat, ghost pos: nat) returns (work: nat)
    requires p10 == Pow(10, pos)
    ensures work == if pos <= work0 then work0 - pos else 0
  {
    var p := p10;
    ghost var left := pos;
    work := work0;
    while p > 1 && work > 0
      invariant 0 <= left <= pos && p == Pow(10, left) && work == work0 - (pos - left)
      decreases left
    {
      TenthPower(p, left);
      work := work - 1;
      p := p / 10;
      left := left - 1;
    }
    if left > 0 && work > 0 { TenthPower(p, left); }
  }

  lemma {:induction false} TenthPower(p: nat, left: nat)
    requires p == Pow(10, left) && (p > 1 || left > 0)
    ensures left > 0 && p > 1 && p / 10 == Pow(10, left - 1)
  {
  }

  lemma {:induction false} SmallTen(pos: nat)
    requires pos < 9
    ensures 1 <= Pow(10, pos) <= 100_000_000
  {
    PowMonotonic(10, pos, 8);
    PowersOfTen();
  }

  /** Where the printed number begins, after a carry. */
  lemma {:induction false} AfterCarry(s: seq<int>, orig: seq<int>, work: nat, msd: nat)
    requires Carrying(s, orig, work) && s[work] < BBASE && Digits(orig[..|orig| - 1])
    requires msd < |orig| && Zeros(orig[..msd]) && (orig[msd] != 0 || msd == |orig| - 1)
    ensures var first := if work < msd then work else msd;
      Zeros(s[..first]) && IsDigit(s[first]) && (s[first] == 0 ==> first == |s| - 1)
  {
    var first := if work < msd then work else msd;
    forall i | 0 <= i < first ensures s[i] == 0 {
      assert s[i] == s[..work][i] == orig[..work][i];
      assert orig[i] == orig[..msd][i];
    }
    if first < work {
      assert s[first] == s[..work][first] == orig[..work][first];
      assert orig[first] == orig[..|orig| - 1][first];
    } else if work < |orig| - 1 {
      assert orig[work] == orig[..|orig| - 1][work];
    }
  }

  lemma {:induction false} WrapFront(s: seq<int>, msd: nat)
    requires msd <= |s| && Zeros(s[..msd])
    ensures Val(Wrap(s)) == Val(Wrap(s[msd..]))
  {
    WrapSplit(s, msd);
    ValZerosFront(Wrap(s[..msd]), Wrap(s[msd..]));
  }

  lemma {:induction false} WrapSplit(s: seq<int>, msd: nat)
    requires msd <= |s| && Zeros(s[..msd])
    ensures Wrap(s) == Wrap(s[..msd]) + Wrap(s[msd..]) && Zeros(Wrap(s[..msd]))
  {
    forall i | 0 <= i < |s| ensures Wrap(s)[i] == (Wrap(s[..msd]) + Wrap(s[msd..]))[i] {
      assert s[i] == if i < msd then s[..msd][i] else s[msd..][i - msd];
    }
  }

  lemma {:induction false} WrapDigits(s: seq<int>)
    requires Digits(s)
    ensures Wrap(s) == s
  {
  }

  /** The rounded number is ready to be printed from digit msd through digit rd, and pos places are to be cut. */
  ghost predicate Rounded(s: seq<int>, msd: nat, rd: nat, pos: nat, q: int) {
    && msd <= rd < |s| && Wide(s[..rd + 1]) && IsDigit(s[msd]) && (s[msd] == 0 ==> msd == rd)
    && Zeros(s[..msd]) && Val(Wrap(s[..rd + 1])) == Pow(10, pos) * q
  }

  /** Rounds the number at pos decimal places into digit rd. */
  method RoundAt(digits: array<int>, msd0: nat, lsd: nat, rd: nat, pos0: nat)
    returns (msd: nat, p10: nat, ghost pos: nat, ghost q: int)
    requires Extent(digits[..], msd0, lsd) && msd0 < digits.Length && digits[msd0] != 0 && digits[0] < HALF
    requires rd + 1 < digits.Length && pos0 < 9
    modifies digits
    ensures Rounded(digits[..], msd, rd, pos, q) && p10 == Pow(10, pos) && pos == if rd < msd0 then 0 else pos0
    ensures RoundsTo(Val(old(digits[..])), Place(old(digits[..]), rd, pos0), q)
  {
    ghost var s := digits[..];
    p10, q := RoundDigit(digits, lsd, rd, pos0);
    pos := pos0;
    SmallTen(pos0);
    ghost var t := digits[..rd + 1];
    assert forall i :: 0 <= i < rd ==> t[i] == s[i];
    if rd < msd0 {
      msd := rd;
      assert Zeros(t[..rd]);
      SingleDigit(t, p10, q, pos);
      p10 := 1;
      pos := 0;
      SinglePlace(digits[..], rd, q);
    } else {
      msd := CarryOver(digits, msd0, rd, pos, q, s);
    }
  }

  lemma {:induction false} SinglePlace(s: seq<int>, rd: nat, q: int)
    requires rd < |s| && Val(Wrap(s[..rd + 1])) == q && Zeros(s[..rd]) && 0 <= s[rd] <= 1
    ensures Rounded(s, rd, rd, 0, q)
  {
    var t := s[..rd + 1];
    assert t[..rd] == s[..rd];
    assert forall i :: 0 <= i < rd ==> t[i] == s[..rd][i];
    assert Pow(10, 0) == 1;
  }

  /** Carries from the rounded digit on, and finds the most significant digit. */
  method CarryOver(digits: array<int>, msd0: nat, rd: nat, ghost pos: nat, ghost q: int, ghost s: seq<int>) returns (msd: nat)
    requires msd0 <= rd < digits.Length == |s| && Digits(s) && (forall i :: 0 <= i < msd0 ==> s[i] == 0) && s[msd0] != 0 && s[0] < HALF
    requires digits[..] == s[rd := digits[rd]] && 0 <= digits[rd] <= BBASE && Val(digits[..rd + 1]) == Pow(10, pos) * q
    requires digits[rd] <= s[rd] + Pow(10, pos) && Pow(10, pos) <= 100_000_000
    requires digits[rd] == 0 ==> s[rd] < Pow(10, pos)
    modifies digits
    ensures Rounded(digits[..], msd, rd, pos, q)
  {
    ghost var t := digits[..rd + 1];
    assert forall i :: 0 <= i < rd ==> t[i] == s[i];
    var work := Carry(digits, rd);
    AfterCarry(digits[..rd + 1], t, work, msd0);
    msd := if work < msd0 then work else msd0;
    CarriedRounded(digits[..], msd, rd, pos, q, t, work);
  }

  lemma {:induction false} CarriedRounded(s: seq<int>, msd: nat, rd: nat, pos: nat, q: int, t: seq<int>, work: nat)
    requires msd <= rd < |s| && Carrying(s[..rd + 1], t, work) && Val(Wrap(s[..rd + 1])) == Pow(10, pos) * q
    requires Zeros(s[..rd + 1][..msd]) && IsDigit(s[..rd + 1][msd]) && (s[..rd + 1][msd] == 0 ==> msd == rd)
    ensures Rounded(s, msd, rd, pos, q)
  {
    assert s[..rd + 1][..msd] == s[..msd];
  }

  /** All of the number was below the digit rounded. */
  lemma {:induction false} SingleDigit(t: seq<int>, p: nat, q: int, pos: nat)
    requires |t| > 0 && Zeros(t[..|t| - 1]) && 0 <= t[|t| - 1] <= 1 && Val(t) == p * q
    requires p == Pow(10, pos) && (pos > 0 ==> t[|t| - 1] == 0)
    ensures Val(Wrap(t)) == q && Digits(t)
  {
    ValZeros(t[..|t| - 1]);
    assert forall i :: 0 <= i < |t| - 1 ==> t[i] == t[..|t| - 1][i];
    WrapDigits(t);
    if pos > 0 { ZeroFactor(p, q); }
  }

  lemma {:induction false} ZeroFactor(p: nat, q: int)
    requires p > 0 && p * q == 0
    ensures q == 0
  {
  }

  /** The value of the printed places, and whether they start with a zero. */
  lemma {:induction false} PrintedValue(t: seq<nat>, s: seq<int>, msd: nat, rd: nat, pos: nat, q: int)
    requires Rounded(s, msd, rd, pos, q) && Printed(t, s, msd, rd + 1)
    ensures t != [] && DecimalDigits(t) && Dec(t) == Pow(10, pos) * q && (t[0] == 0 ==> |t| == 1)
  {
    assert s[..rd + 1][msd..] == s[msd..rd + 1];
    assert s[..rd + 1][..msd] == s[..msd];
    WrapFront(s[..rd + 1], msd);
  }

  /** The printed places, cut: none are left exactly if there are places to cut and the rounded number is zero. */
  lemma {:induction false} CutPlaces(t: seq<nat>, pos: nat, q: nat, work: nat)
    requires t != [] && DecimalDigits(t) && Dec(t) == Pow(10, pos) * q && (t[0] == 0 ==> |t| == 1)
    requires work == if pos <= |t| then |t| - pos else 0
    ensures DecimalDigits(t[..work]) && NoLeadingZero(t[..work]) && Dec(t[..work]) == q
    ensures t[..work] == [] <==> pos > 0 && q == 0
  {
    if pos <= |t| { DecCut(t, pos, q); } else { DecShort(t, pos, q); }
    if |t| <= pos { DecShort(t, pos, q); }
    if t[0] != 0 { LeadingPositive(t); }
  }

  /** Rounds the number at pos decimal places into digit rd, and prints it. */
  method RoundAndPrint(digits: array<int>, msd0: nat, lsd: nat, rd: nat, pos0: nat) returns (text: seq<nat>)
    requires Extent(digits[..], msd0, lsd) && msd0 < digits.Length && digits[msd0] != 0 && digits[0] < HALF
    requires rd + 1 < digits.Length && pos0 < 9
    modifies digits
    ensures DecimalDigits(text) && NoLeadingZero(text)
    ensures RoundsTo(Val(old(digits[..])), Place(old(digits[..]), rd, pos0), Dec(text))
    ensures text == [] <==> msd0 <= rd && pos0 > 0 && Dec(text) == 0
  {
    ghost var v := Val(digits[..]);
    ValBounds(digits[..]);
    var msd, p10, pos, q := RoundAt(digits, msd0, lsd, rd, pos0);
    RoundedNatural(v, Place(old(digits[..]), rd, pos0), q);
    ghost var s := digits[..];
    var result := new nat[(1 + rd - msd) * DDIG_PER_DIG + 1];
    assert digits[..rd + 1] == s[..rd + 1];
    var work := PrintDigits(digits, msd, rd, result);
    ghost var t := result[..work];
    work := Truncate(work, p10, pos);
    PrintedValue(t, s, msd, rd, pos, q);
    CutPlaces(t, pos, q, work);
    text := result[..work];
    assert text == t[..work];
  }

  lemma {:induction false} RoundedNatural(num: nat, den: nat, q: int)
    requires RoundsTo(num, den, q)
    ensures q >= 0
  {
    if q < 0 {
      MulMonotonic(1, -q, den);
      Negative(q, den);
    }
  }

  /** Remainder with the sign of the dividend, as C computes it. */
  function CRemainder(a: int, b: nat): int
    requires b > 0
  {
    if a >= 0 then a % b else -((-a) % b)
  }

  function RoundDigitIndex(scale: int): int {
    UNITS_DIGIT + if scale <= 0 then -((-scale) / DDIG_PER_DIG) else (scale + DDIG_PER_DIG - 1) / DDIG_PER_DIG
  }

  function RoundPosition(scale: int): int {
    var pos := CRemainder(-scale, DDIG_PER_DIG);
    if pos < 0 then pos + DDIG_PER_DIG else pos
  }

  /** The digit and position within it are those of the place 10^-scale. */
  lemma {:induction false} PlaceIndex(scale: int)
    requires MIN_SCALE <= scale <= MAX_SCALE
    ensures 0 <= RoundDigitIndex(scale) < DIG_PER_DBL && 0 <= RoundPosition(scale) < 9
    ensures RoundPosition(scale) + 9 * (SIZE - 1 - RoundDigitIndex(scale)) == 9 * (SIZE - 1 - UNITS_DIGIT) - scale
  {
  }

  /** m 2^e 10^scale, as a fraction. */
  function Numerator(m: nat, e: int, scale: int): nat {
    Product(Product(m, Pow(2, Up(e))), Pow(10, Up(scale)))
  }

  function Denominator(e: int, scale: int): (r: nat)
    ensures r > 0
  {
    Product(Pow(2, Down(e)), Pow(10, Down(scale)))
  }

  lemma {:induction false} PlaceValue(s: seq<int>, rd: nat, pos: nat, n: nat)
    requires rd < |s| && n == pos + 9 * (|s| - 1 - rd)
    ensures Place(s, rd, pos) == Pow(10, n)
  {
    BasePower(|s| - 1 - rd);
    PowAdd(10, pos, 9 * (|s| - 1 - rd));
  }

  /** The laid-out number, in units of a decimal place, is the scaled double. */
  lemma {:induction false} ScaledPlace(v: int, m: nat, e: int, scale: int, c: nat, n: nat)
    requires v * Pow(2, Down(e)) == m * Pow(2, Up(e)) * Pow(BBASE, c) && n == 9 * c - scale
    ensures v * Denominator(e, scale) == Numerator(m, e, scale) * Pow(10, n)
  {
    BasePower(c);
    PowAdd(10, 9 * c, Down(scale));
    PowAdd(10, n, Up(scale));
    assert 9 * c + Down(scale) == n + Up(scale);
    var a := m * Pow(2, Up(e));
    CrossScale(v, Pow(2, Down(e)), a, Pow(10, 9 * c), Pow(10, Down(scale)), Pow(10, n), Pow(10, Up(scale)));
  }

  /** Rounding the laid-out number at a place is rounding the scaled double. */
  lemma {:induction false} ScaledFraction(v: int, m: nat, e: int, scale: int, c: nat, n: nat, q: int)
    requires v * Pow(2, Down(e)) == m * Pow(2, Up(e)) * Pow(BBASE, c) && n == 9 * c - scale
    requires RoundsTo(v, Pow(10, n), q)
    ensures RoundsTo(Numerator(m, e, scale), Denominator(e, scale), q)
  {
    ScaledPlace(v, m, e, scale, c, n);
    RoundsToFraction(v, Pow(10, n), Numerator(m, e, scale), Denominator(e, scale), q);
  }

  /** The laid-out number starts at or before digit rd exactly if it is at least one unit of that digit. */
  lemma {:induction false} StartsBy(s: seq<int>, msd: nat, lsd: nat, rd: nat)
    requires Extent(s, msd, lsd) && msd < |s| && s[msd] != 0 && rd < |s|
    ensures msd <= rd <==> Val(s) >= Pow(BBASE, |s| - 1 - rd)
  {
    var front, unit := FrontBounds(s, rd);
    if msd <= rd {
      ValPositive(s[..rd + 1], msd);
      Grows(unit, front);
    } else {
      ValZeros(s[..rd + 1]);
    }
  }

  /** The number is its digits up to rd, in units of that digit, and less than another unit. */
  lemma {:induction false} FrontBounds(s: seq<int>, rd: nat) returns (front: nat, unit: nat)
    requires Digits(s) && rd < |s|
    ensures front == Val(s[..rd + 1]) && unit == Pow(BBASE, |s| - 1 - rd)
    ensures front * unit <= Val(s) && (front == 0 ==> Val(s) < unit)
  {
    var a, b := s[..rd + 1], s[rd + 1..];
    assert s == a + b;
    ValConcat(a, b);
    ValBounds(a);
    ValBounds(b);
    front, unit := Val(a), Pow(BBASE, |b|);
  }

  lemma {:induction false} CrossCompare(v: nat, d: nat, n: nat, p: nat)
    requires d > 0 && p > 0 && v * d == n * p
    ensures v >= p <==> n >= d
  {
    Ordered(d, n, p);
    Ordered(p, v, d);
    assert p * d == d * p;
  }

  /**
   No digit at all is left: the double rounds to zero at a scale inside a base
   10^9 digit, although it is at least one unit of that digit.
   */
  ghost predicate Emptied(m: nat, e: int, scale: int) {
    && m > 0 && RoundPosition(scale) > 0
    && RoundsTo(Numerator(m, e, scale), Denominator(e, scale), 0)
    && Numerator(m, e, scale + RoundPosition(scale)) >= Denominator(e, scale + RoundPosition(scale))
  }

  lemma {:induction false} StartsAtUnit(s: seq<int>, msd: nat, lsd: nat, m: nat, e: int, rd: nat, unit: int)
    requires |s| == SIZE && Extent(s, msd, lsd) && msd < |s| && s[msd] != 0
    requires Holds(s, m, Up(e), Down(e)) && rd < |s| && unit == 9 * (rd - UNITS_DIGIT)
    ensures msd <= rd <==> Numerator(m, e, unit) >= Denominator(e, unit)
  {
    var n: nat := 9 * (|s| - 1 - rd);
    StartsBy(s, msd, lsd, rd);
    BasePower(|s| - 1 - rd);
    ValBounds(s);
    ScaledPlace(Val(s), m, e, unit, |s| - 1 - UNITS_DIGIT, n);
    CrossCompare(Val(s), Denominator(e, unit), Numerator(m, e, unit), Pow(10, n));
  }

  /** The value 3.0 at scale -1. */
  lemma {:induction false} ThreeEmptied(bits: nat)
    requires bits == 53
    ensures var m, e := 3 * HALF_MANTISSA, 2 - bits; IsDouble(m, e) && Emptied(m, e, -1)
  {
    MantissaBits(bits);
    var one: nat, none: nat := 1, 0;
    assert Pow(10, one) == 10 && Pow(10, none) == 1 && Pow(2, none) == 1;
    assert Down(2 - bits) == bits - 2;
    assert RoundPosition(-1) == 1;
  }

  lemma {:induction false} CrossScale(v: int, d: int, a: int, t: int, x: int, n: int, y: int)
    requires v * d == a * t && t * x == n * y
    ensures v * (d * x) == a * y * n
  {
    Reassociate(v, d, x);
    Reassociate(a, t, x);
    Reassociate(a, n, y);
    Swap(a, n, y);
  }

  /** The leading digit is small, so that no carry can run off the front. */
  lemma {:induction false} SmallLead(s: seq<int>, m: nat, e: int)
    requires |s| == SIZE && Digits(s) && Holds(s, m, Up(e), Down(e)) && IsDouble(m, e)
    ensures s[0] < HALF
  {
    LeadValue(s);
    Grows(Val(s), Pow(2, Down(e)));
    LeadBound(s[0], m, Up(e), Pow(BBASE, |s| - 1 - UNITS_DIGIT), UNITS_DIGIT, |s| - 1 - UNITS_DIGIT, |s| - 1);
  }

  lemma {:induction false} LeadValue(s: seq<int>)
    requires |s| > 0 && Digits(s)
    ensures 0 <= s[0] * Pow(BBASE, |s| - 1) <= Val(s)
  {
    var rest := s[1..];
    assert s == [s[0]] + rest;
    ValFront(s[0], rest);
    ValBounds(rest);
  }

  lemma {:induction false} LeadBound(d: nat, m: nat, k: nat, q: nat, n: nat, c: nat, total: nat)
    requires n >= UNITS_DIGIT && total == n + c && q == Pow(BBASE, c)
    requires k <= MAX_EXPONENT && m < 2 * MIN_MANTISSA
    requires d * Pow(BBASE, total) <= m * Pow(2, k) * q
    ensures d < HALF
  {
    PowAdd(BBASE, n, c);
    Reassociate(d, Pow(BBASE, n), q);
    BelowHalf(m, k, n);
    if d >= HALF {
      MulMonotonic(HALF, d, Pow(BBASE, n));
      StrictProduct(m * Pow(2, k), d * Pow(BBASE, n), q);
    }
  }

  /** A double is less than half of 10^315. */
  lemma {:induction false} BelowHalf(m: nat, k: nat, n: nat)
    requires k <= MAX_EXPONENT && m < 2 * MIN_MANTISSA && n >= UNITS_DIGIT
    ensures m * Pow(2, k) < HALF * Pow(BBASE, n)
  {
    var bits: nat, all: nat := 53, 1024;
    MantissaBits(bits);
    PowMonotonic(2, k, all - bits);
    PowAdd(2, bits, all - bits);
    ProductMonotonic(m, 2 * MIN_MANTISSA - 1, Pow(2, k), Pow(2, all - bits));
    Distribute(2 * MIN_MANTISSA - 1, 1, Pow(2, all - bits));
    MostlyTwos(all, n);
  }

  /** 2^1024 is less than half of 10^315. */
  lemma {:induction false} MostlyTwos(all: nat, n: nat)
    requires all <= 1024 && n >= UNITS_DIGIT
    ensures Pow(2, all) <= HALF * Pow(BBASE, n)
  {
    var s: nat, r: nat, q: nat, two: nat := 59, 21, 17, 2;
    PowMonotonic(2, all, s * q + r);
    PowMonotonic(BBASE, two * q, n);
    PowPow(2, s, q);
    PowAdd(2, s * q, r);
    TwoDigitsOfTwos(s, two);
    PowBase(Pow(2, s), Pow(BBASE, two), q);
    PowPow(BBASE, two, q);
    SmallShift(r);
    ProductMonotonic(Pow(Pow(2, s), q), Pow(BBASE, n), Pow(2, r), HALF);
  }

  lemma {:induction false} EmptiedIf(m: nat, e: int, scale: int, q: int)
    requires m > 0 && RoundsTo(Numerator(m, e, scale), Denominator(e, scale), q)
    ensures Emptied(m, e, scale) <==>
      && RoundPosition(scale) > 0 && q == 0
      && Numerator(m, e, scale + RoundPosition(scale)) >= Denominator(e, scale + RoundPosition(scale))
  {
    if RoundsTo(Numerator(m, e, scale), Denominator(e, scale), 0) {
      RoundsToUnique(Numerator(m, e, scale), Denominator(e, scale), q, 0);
    }
  }

  /** The decimal digits of the double m 2^e at a scale; it is stated when there are none. */
  method ToDigits(m: nat, e: int, scale: int) returns (text: seq<nat>)
    requires m == 0 || IsDouble(m, e)
    requires MIN_SCALE <= scale <= MAX_SCALE
    ensures DecimalDigits(text) && NoLeadingZero(text)
    ensures RoundsTo(Numerator(m, e, scale), Denominator(e, scale), Dec(text))
    ensures text == [] <==> Emptied(m, e, scale)
  {
    if m == 0 {
      return [0];
    }
    var digits := new int[SIZE](i => 0);
    var msd, lsd := LayOut(digits, m, e);
    ghost var s := digits[..];
    SmallLead(s, m, e);
    PlaceIndex(scale);
    var rd, pos := RoundDigitIndex(scale), RoundPosition(scale);
    text := RoundAndPrint(digits, msd, lsd, rd, pos);
    DigitsOf(s, msd, lsd, m, e, scale, Dec(text));
  }

  /** What rounding the laid-out number means for the double. */
  lemma {:induction false} DigitsOf(s: seq<int>, msd: nat, lsd: nat, m: nat, e: int, scale: int, q: nat)
    requires |s| == SIZE && Extent(s, msd, lsd) && msd < |s| && s[msd] != 0
    requires m > 0 && Holds(s, m, Up(e), Down(e)) && MIN_SCALE <= scale <= MAX_SCALE
    requires 0 <= RoundDigitIndex(scale) < DIG_PER_DBL && 0 <= RoundPosition(scale) < 9
    requires RoundsTo(Val(s), Place(s, RoundDigitIndex(scale), RoundPosition(scale)), q)
    ensures RoundsTo(Numerator(m, e, scale), Denominator(e, scale), q)
    ensures Emptied(m, e, scale) <==> msd <= RoundDigitIndex(scale) && RoundPosition(scale) > 0 && q == 0
  {
    PlaceIndex(scale);
    DigitsAt(s, msd, lsd, m, e, scale, q, RoundDigitIndex(scale), RoundPosition(scale), 9 * (SIZE - 1 - UNITS_DIGIT) - scale);
    EmptiedIf(m, e, scale, q);
  }

  lemma {:induction false} DigitsAt(s: seq<int>, msd: nat, lsd: nat, m: nat, e: int, scale: int, q: nat, rd: nat, pos: nat, n: nat)
    requires |s| == SIZE && Extent(s, msd, lsd) && msd < |s| && s[msd] != 0
    requires Holds(s, m, Up(e), Down(e)) && rd < |s| && RoundsTo(Val(s), Place(s, rd, pos), q)
    requires n == 9 * (|s| - 1 - UNITS_DIGIT) - scale == pos + 9 * (|s| - 1 - rd)
    ensures RoundsTo(Numerator(m, e, scale), Denominator(e, scale), q)
    ensures msd <= rd <==> Numerator(m, e, scale + pos) >= Denominator(e, scale + pos)
  {
    PlaceValue(s, rd, pos, n);
    ScaledFraction(Val(s), m, e, scale, |s| - 1 - UNITS_DIGIT, n, q);
    StartsAtUnit(s, msd, lsd, m, e, rd, scale + pos);
  }
}
