/**
 to_double: the double nearest to a decimal number, by shifting a base 10^9
 number until its integer part is a full significand.
 */
module ToDouble {
  import opened Bignum
  import opened BinaryExponent
  import opened Decimals
  import opened DecimalInput
  import opened DoubleRange
  import opened DoubleScaling
  import opened FactorsOfTwo
  import opened Rounding

  /** Bignum digits in the work space. */
  const WORK_DIGITS := 335

  const MAX_10_EXP := 308
  const LEAST_PLACE := -322
  const MANT_DIG := 53

  /**
   Overflow and Underflow stand for what the platform makes of the respective
   floating-point exceptions, and Overrun for an access beyond the end of the
   work space.  A finite result is a double.
   */
  datatype Double = Zero | Overflow | Underflow | Overrun | Finite(mantissa: nat, exponent: int)

  /** The number in the work space is x times two to the power -exponent. */
  ghost predicate Scaled(s: seq<int>, x: nat, exponent: int) {
    Val(s) * Pow(2, Up(exponent)) == x * Pow(2, Down(exponent))
  }

  lemma {:induction false} RightScaled(s: seq<int>, t: seq<int>, x: nat, exponent: nat, shift: nat)
    requires Scaled(s, x, exponent) && Val(t) * Pow(2, shift) == Val(s)
    ensures Scaled(t, x, exponent + shift)
  {
    PowAdd(2, shift, exponent);
    Reassociate(Val(t), Pow(2, shift), Pow(2, exponent));
  }

  lemma {:induction false} LeftScaled(s: seq<int>, t: seq<int>, x: nat, exponent: int, shift: nat)
    requires Scaled(s, x, exponent) && Val(t) == Val(s) * Pow(2, shift)
    requires exponent <= 0 || shift <= exponent
    ensures Scaled(t, x, exponent - shift)
  {
    if exponent <= 0 {
      PowAdd(2, -exponent, shift);
      Reassociate(x, Pow(2, -exponent), Pow(2, shift));
    } else {
      PowAdd(2, shift, exponent - shift);
      Reassociate(Val(s), Pow(2, shift), Pow(2, exponent - shift));
    }
  }

  /** One right-shift pass of to_double; it runs over the end exactly if the number is not divisible. */
  method RightPass(digits: array<int>, msd: nat, lsd: nat, shift: nat, ghost x: nat, ghost k: nat)
    returns (ok: bool, msd': nat, lsd': nat)
    requires msd <= lsd < digits.Length && Extent(digits[..], msd, lsd)
    requires Scaled(digits[..], x, k) && x > 0
    requires 1 <= shift <= BDIG_PER_DIG
    modifies digits
    ensures ok <==> x % Pow(2, k + shift) == 0
    ensures ok ==> msd' <= lsd' < digits.Length && Extent(digits[..], msd', lsd')
    ensures ok ==> Scaled(digits[..], x, k + shift)
  {
    ghost var s := digits[..];
    ValBounds(s);
    assert Pow(2, 0) == 1;
    HalvedFurther(Val(s), x, k, shift);
    ok, lsd' := ShiftRight(digits, msd, lsd, shift, digits.Length - 1);
    msd' := msd;
    if ok {
      RightScaled(s, digits[..], x, k, shift);
      NotZero(digits[..], x, k + shift);
      msd' := SkipLeadingZeros(digits, msd, lsd');
    }
  }

  lemma {:induction false} NotZero(s: seq<int>, x: nat, exponent: int)
    requires Scaled(s, x, exponent) && x > 0
    ensures Val(s) != 0
  {
    Grows(x, Pow(2, Down(exponent)));
  }

  /** The right-shift loop of to_double; it stays in the work space exactly if the number is divisible by the whole shift. */
  method ShiftDown(digits: array<int>, msd0: nat, lsd0: nat, rs: nat, ghost x: nat)
    returns (ok: bool, msd: nat, lsd: nat)
    requires msd0 <= lsd0 < digits.Length && Extent(digits[..], msd0, lsd0)
    requires Scaled(digits[..], x, 0) && x > 0
    modifies digits
    ensures ok <==> x % Pow(2, rs) == 0
    ensures ok ==> msd <= lsd < digits.Length && Extent(digits[..], msd, lsd) && Scaled(digits[..], x, rs)
  {
    var exponent: nat := 0;
    ok, msd, lsd := true, msd0, lsd0;
    assert Pow(2, 0) == 1;
    while exponent < rs
      invariant exponent <= rs && ok && x % Pow(2, exponent) == 0
      invariant msd <= lsd < digits.Length && Extent(digits[..], msd, lsd)
      invariant Scaled(digits[..], x, exponent)
    {
      var shift := if rs - exponent > BDIG_PER_DIG then BDIG_PER_DIG else rs - exponent;
      ok, msd, lsd := RightPass(digits, msd, lsd, shift, x, exponent);
      exponent := exponent + shift;
      if !ok {
        if x % Pow(2, rs) == 0 { SmallerPower(x, exponent, rs); }
        return;
      }
    }
  }

  /** A product below 2^53 units fits in a work space with two integer digits. */
  lemma {:induction false} LeftFits(s: seq<int>, x: nat, exponent: int, shift: nat, rs: int, f: nat)
    requires Scaled(s, x, exponent) && exponent <= 0 && exponent - shift >= rs && |s| >= f + 2
    requires x * Pow(2, -rs) < 2 * MIN_MANTISSA * Pow(BBASE, f)
    ensures Val(s) * Pow(2, shift) < Pow(BBASE, |s|)
  {
    assert Pow(2, 0) == 1;
    PowAdd(2, -exponent, shift);
    Reassociate(x, Pow(2, -exponent), Pow(2, shift));
    PowMonotonic(2, shift - exponent, -rs);
    ProductMonotonic(x, x, Pow(2, shift - exponent), Pow(2, -rs));
    SignificandFits(f, |s|);
  }

  /** 2^53 units need two digits. */
  lemma {:induction false} SignificandFits(f: nat, n: nat)
    requires n >= f + 2
    ensures 2 * MIN_MANTISSA * Pow(BBASE, f) <= Pow(BBASE, n)
  {
    PowAdd(BBASE, n - f - 2, f + 2);
    Grows'(Pow(BBASE, f + 2), Pow(BBASE, n - f - 2));
    assert Pow(BBASE, f + 1) == BBASE * Pow(BBASE, f) && Pow(BBASE, f + 2) == BBASE * Pow(BBASE, f + 1);
  }

  /** One left-shift pass of to_double. */
  method LeftPass(digits: array<int>, msd: nat, lsd: nat, shift: nat, ghost x: nat, ghost exponent: int)
    returns (msd': nat, lsd': nat)
    requires msd <= lsd < digits.Length && Extent(digits[..], msd, lsd)
    requires Scaled(digits[..], x, exponent) && x > 0 && (exponent <= 0 || shift <= exponent)
    requires 1 <= shift <= BDIG_PER_DIG
    requires Val(digits[..]) * Pow(2, shift) < Pow(BBASE, digits.Length)
    modifies digits
    ensures msd' <= lsd' <= lsd && Extent(digits[..], msd', lsd')
    ensures Scaled(digits[..], x, exponent - shift)
    ensures Val(digits[..]) == Val(old(digits[..])) * Pow(2, shift)
  {
    ghost var s := digits[..];
    msd' := ShiftLeft(digits, msd, lsd, shift);
    LeftScaled(s, digits[..], x, exponent, shift);
    NotZero(digits[..], x, exponent - shift);
    lsd' := SkipTrailingZeros(digits, msd', lsd);
  }

  /** The left-shift loop of to_double: it ends early when there are no fraction digits left. */
  method ShiftUp(digits: array<int>, msd0: nat, lsd0: nat, rs: int, units: nat, ghost x: nat)
    returns (msd: nat, lsd: nat, exponent: int)
    requires msd0 <= lsd0 < digits.Length && Extent(digits[..], msd0, lsd0)
    requires 1 <= units < digits.Length && rs <= 0
    requires Scaled(digits[..], x, 0) && x > 0
    requires x * Pow(2, -rs) < 2 * MIN_MANTISSA * Pow(BBASE, digits.Length - 1 - units)
    modifies digits
    ensures msd <= lsd < digits.Length && Extent(digits[..], msd, lsd)
    ensures rs <= exponent <= 0 && (exponent == rs || lsd <= units)
    ensures Scaled(digits[..], x, exponent)
  {
    exponent := 0;
    msd, lsd := msd0, lsd0;
    while exponent > rs && lsd > units
      invariant rs <= exponent <= 0
      invariant msd <= lsd < digits.Length && Extent(digits[..], msd, lsd)
      invariant Scaled(digits[..], x, exponent)
      decreases exponent - rs
    {
      var shift := if exponent - rs > BDIG_PER_DIG then BDIG_PER_DIG else exponent - rs;
      LeftFits(digits[..], x, exponent, shift, rs, digits.Length - 1 - units);
      msd, lsd := LeftPass(digits, msd, lsd, shift, x, exponent);
      exponent := exponent - shift;
    }
  }

  /** The integer part of the number in the work space. */
  method IntegerPart(digits: array<int>, msd: nat, ghost lsd: nat, units: nat) returns (mantissa: nat)
    requires units < digits.Length && Extent(digits[..], msd, lsd)
    ensures mantissa == Val(digits[..units + 1])
  {
    mantissa := 0;
    var next := msd;
    ghost var s := digits[..];
    assert digits[..units + 1] == s[..units + 1];
    ValZeros(s[..if msd <= units then msd else units + 1]);
    while next <= units
      invariant msd <= next && (next <= units + 1 || next == msd)
      invariant mantissa == Val(s[..if next <= units then next else units + 1])
    {
      NextDigit(s, next);
      mantissa := mantissa * BBASE + digits[next];
      next := next + 1;
    }
  }

  lemma {:induction false} NextDigit(s: seq<int>, n: nat)
    requires n < |s|
    ensures Val(s[..n + 1]) == Val(s[..n]) * BBASE + s[n]
  {
    assert s[..n + 1] == s[..n] + [s[n]];
    ValAppend(s[..n], s[n]);
  }

  /** The number as an integer part and a fraction. */
  lemma {:induction false} Parts(s: seq<int>, units: nat)
    requires units < |s| && Digits(s)
    ensures Val(s) == Val(s[..units + 1]) * Pow(BBASE, |s| - 1 - units) + Val(s[units + 1..])
    ensures 0 <= Val(s[units + 1..]) < Pow(BBASE, |s| - 1 - units) && Val(s[..units + 1]) >= 0
    ensures Val(s[units + 1..]) == 0 <==> Zeros(s[units + 1..])
  {
    assert s == s[..units + 1] + s[units + 1..];
    ValConcat(s[..units + 1], s[units + 1..]);
    ZeroOnly(s[units + 1..]);
    ValBounds(s[..units + 1]);
  }

  /** A significand is full when it is at least 2^52. */
  lemma {:induction false} FullSignificand(v: int, m: nat, f: nat, q: nat)
    requires v == m * q + f && f < q
    ensures v < 2 * MIN_MANTISSA * q ==> m < 2 * MIN_MANTISSA
    ensures v >= MIN_MANTISSA * q ==> m >= MIN_MANTISSA
    ensures m < MIN_MANTISSA ==> v < MIN_MANTISSA * q
    ensures m < 2 * MIN_MANTISSA ==> v < 2 * MIN_MANTISSA * q
    ensures m >= MIN_MANTISSA ==> v >= MIN_MANTISSA * q
  {
    Floor(v, m, f, q, 2 * MIN_MANTISSA);
    Floor(v, m, f, q, MIN_MANTISSA);
  }

  lemma {:induction false} Floor(v: int, m: nat, f: nat, q: nat, c: nat)
    requires v == m * q + f && f < q
    ensures v < c * q <==> m < c
  {
    Distribute(m, 1, q);
    if m < c { MulMonotonic(m + 1, c, q); } else { MulMonotonic(c, m, q); }
  }

  /** The shifted number is below 2^53, and at least 2^51 when it has a fraction. */
  ghost predicate Ready(s: seq<int>, msd: nat, lsd: nat, units: nat) {
    && Extent(s, msd, lsd) && msd <= lsd < |s| && 1 <= units < |s|
    && Val(s) < 2 * MIN_MANTISSA * Pow(BBASE, |s| - 1 - units)
    && (lsd > units ==> Val(s) >= HALF_MANTISSA * Pow(BBASE, |s| - 1 - units))
  }

  /** One more place fits when the significand is short by one. */
  lemma {:induction false} ShortByOne(s: seq<int>, msd: nat, lsd: nat, units: nat, m: nat)
    requires Ready(s, msd, lsd, units) && lsd > units && m == Val(s[..units + 1]) < MIN_MANTISSA
    ensures var v, q := Val(s) * Pow(2, 1), Pow(BBASE, |s| - 1 - units);
      v < Pow(BBASE, |s|) && MIN_MANTISSA * q <= v < 2 * MIN_MANTISSA * q
  {
    var q := Pow(BBASE, |s| - 1 - units);
    Parts(s, units);
    FullSignificand(Val(s), m, Val(s[units + 1..]), q);
    SignificandFits(|s| - 1 - units, |s|);
    Doubled(Val(s), q);
  }

  lemma {:induction false} Doubled(v: int, q: nat)
    requires HALF_MANTISSA * q <= v < MIN_MANTISSA * q
    ensures MIN_MANTISSA * q <= v * Pow(2, 1) < 2 * MIN_MANTISSA * q
  {
    assert Pow(2, 1) == 2;
  }

  /** Takes the integer significand, with one more place if it turns out to be short. */
  method TakeSignificand(digits: array<int>, msd0: nat, lsd0: nat, units: nat, exponent0: int, ghost x: nat)
    returns (mantissa: nat, lsd: nat, exponent: int)
    requires Ready(digits[..], msd0, lsd0, units) && Scaled(digits[..], x, exponent0) && x > 0
    modifies digits
    ensures lsd < digits.Length && Extent(digits[..], 0, lsd)
    ensures Scaled(digits[..], x, exponent)
    ensures mantissa == Val(digits[..units + 1]) < 2 * MIN_MANTISSA
    ensures mantissa >= MIN_MANTISSA || lsd <= units
    ensures lsd <= lsd0
  {
    var msd := msd0;
    lsd, exponent := lsd0, exponent0;
    mantissa := IntegerPart(digits, msd, lsd, units);
    while mantissa < MIN_MANTISSA && lsd > units
      invariant lsd <= lsd0 && Ready(digits[..], msd, lsd, units) && Scaled(digits[..], x, exponent)
      invariant mantissa == Val(digits[..units + 1])
      decreases if mantissa < MIN_MANTISSA then 1 else 0
    {
      assert digits[..units + 1] == digits[..][..units + 1];
      ShortByOne(digits[..], msd, lsd, units, mantissa);
      msd, lsd := LeftPass(digits, msd, lsd, 1, x, exponent);
      exponent := exponent - 1;
      mantissa := IntegerPart(digits, msd, lsd, units);
      FullNow(digits[..], msd, lsd, units, mantissa);
      assert digits[..units + 1] == digits[..][..units + 1];
    }
    SignificandBound(digits[..], msd, lsd, units);
    assert digits[..units + 1] == digits[..][..units + 1];
  }

  lemma {:induction false} FullNow(s: seq<int>, msd: nat, lsd: nat, units: nat, m: nat)
    requires Extent(s, msd, lsd) && msd <= lsd < |s| && 1 <= units < |s| && m == Val(s[..units + 1])
    requires MIN_MANTISSA * Pow(BBASE, |s| - 1 - units) <= Val(s) < 2 * MIN_MANTISSA * Pow(BBASE, |s| - 1 - units)
    ensures Ready(s, msd, lsd, units) && m >= MIN_MANTISSA
  {
    var q := Pow(BBASE, |s| - 1 - units);
    Parts(s, units);
    FullSignificand(Val(s), m, Val(s[units + 1..]), q);
  }

  lemma {:induction false} SignificandBound(s: seq<int>, msd: nat, lsd: nat, units: nat)
    requires Ready(s, msd, lsd, units)
    ensures 0 <= Val(s[..units + 1]) < 2 * MIN_MANTISSA
  {
    Parts(s, units);
    FullSignificand(Val(s), Val(s[..units + 1]), Val(s[units + 1..]), Pow(BBASE, |s| - 1 - units));
  }

  /** r is num/den rounded to the nearest integer, halves down. */
  ghost predicate RoundsDown(num: int, den: int, r: int) {
    den > 0 && -den < 2 * (num - r * den) <= den
  }

  /** Rounds the significand by the fraction digits: the value handed to RoundIt is zero, so ties are not rounded up. */
  method RoundToInt(value: nat, digits: array<int>, units: nat, lsd: nat) returns (rounded: nat)
    requires units < digits.Length && lsd < digits.Length && Extent(digits[..], 0, lsd)
    requires value == Val(digits[..units + 1])
    ensures RoundsDown(Val(digits[..]), Pow(BBASE, digits.Length - 1 - units), rounded)
    ensures value <= rounded <= value + 1 && (lsd <= units ==> rounded == value)
  {
    ghost var q, s := Pow(BBASE, digits.Length - 1 - units), digits[..];
    assert s[..units + 1] == digits[..units + 1];
    Parts(s, units);
    if lsd < units + 1 {
      rounded := value;
    } else {
      var work := units + 1;
      TailAligned(s[work..]);
      assert s[work..][0] == digits[work] && s[work..][1..] == digits[work + 1..];
      var r := RoundIt(digits, 0, digits[work], work, lsd, Val(s[work..]), q);
      rounded := value + r;
      Distribute(value, r, q);
    }
  }

  /** The nearest double, as a significand r and a binary exponent u: either exact, or rounded with a full significand. */
  ghost predicate Nearest(num: nat, den: nat, r: nat, u: int) {
    var n, d := num * Pow(2, Down(u)), den * Pow(2, Up(u));
    && r <= 2 * MIN_MANTISSA && d > 0
    && (n == r * d || (RoundsDown(n, d, r) && r >= MIN_MANTISSA && n >= MIN_MANTISSA * d))
  }

  /** A significand of 2^53 is handed on as 2^0 with the exponent adjusted. */
  ghost predicate Delivers(mantissa: nat, exponent: int, r: nat, u: int) {
    if r == 2 * MIN_MANTISSA then mantissa == 1 && exponent == u + MANT_DIG else mantissa == r && exponent == u
  }

  /** The double that ldexp makes of a rounded significand and its exponent. */
  function Packed(r: nat, u: int): Double {
    var (m, e) := if r == 2 * MIN_MANTISSA then (1, u + MANT_DIG) else (r, u);
    match Ldexp(m, e)
    case TooLarge => Overflow
    case Fits(mantissa, exponent) => Finite(mantissa, exponent)
  }

  /** r 2^u itself, unless it is too large for a double or has places too small for one. */
  lemma {:induction false} PackedMeaning(r: nat, u: int)
    requires 0 < r <= 2 * MIN_MANTISSA
    ensures Packed(r, u) == Overflow <==> AtLeast(r * Pow(2, Up(u)), Pow(2, Down(u)), MAX_EXP)
    ensures Packed(r, u).Finite? ==> InRange(Packed(r, u).mantissa, Packed(r, u).exponent)
    ensures u >= LEAST_BIT && Packed(r, u).Finite? ==> SameNumber(Packed(r, u).mantissa, Packed(r, u).exponent, r, u)
  {
    var (m, e) := if r == 2 * MIN_MANTISSA then (1, u + MANT_DIG) else (r, u);
    LdexpMeaning(m, e);
    CarriedSame(r, u, m, e);
    SameNumberMagnitude(m, e, r, u);
  }

  /** The exponent adjusted for a significand of 2^53. */
  lemma {:induction false} CarriedSame(r: nat, u: int, m: nat, e: int)
    requires Delivers(m, e, r, u)
    ensures SameNumber(m, e, r, u)
  {
    if r == 2 * MIN_MANTISSA {
      var bits: nat := MANT_DIG;
      MantissaBits(bits);
      PowAdd(2, Up(u) + Down(e), bits);
      PowAdd(2, Up(u), Down(e));
      PowAdd(2, Up(e), Down(u));
      assert Up(u) + Down(e) + bits == Up(e) + Down(u);
      Carry53(Pow(2, bits), Pow(2, Up(u)), Pow(2, Down(e)), Pow(2, Up(e)), Pow(2, Down(u)));
    }
  }

  lemma {:induction false} Carry53(t: nat, a: nat, b: nat, c: nat, d: nat)
    requires (a * b) * t == c * d
    ensures 1 * c * d == t * a * b
  {
  }

  lemma {:induction false} SameNumberMagnitude(m: nat, e: int, r: nat, u: int)
    requires SameNumber(m, e, r, u) && m > 0 && r > 0
    ensures AtLeast(m * Pow(2, Up(e)), Pow(2, Down(e)), MAX_EXP) <==> AtLeast(r * Pow(2, Up(u)), Pow(2, Down(u)), MAX_EXP)
  {
    MagnitudeMeaning(m, e, MAX_EXP);
    MagnitudeMeaning(r, u, MAX_EXP);
    SameMagnitude(m, e, r, u, MAX_EXP);
  }

  /** The scaled number v / q is num/den shifted. */
  lemma {:induction false} Unscale(v: nat, q: nat, x: nat, exponent: int, num: nat, den: nat)
    requires q > 0 && den > 0 && v * Pow(2, Up(exponent)) == x * Pow(2, Down(exponent)) && x * den == num * q
    ensures v * (den * Pow(2, Up(exponent))) == num * Pow(2, Down(exponent)) * q
  {
    var a, b := Pow(2, Up(exponent)), Pow(2, Down(exponent));
    Reassociate(v, a, den);
    Swap(x, b, den);
    Swap(num, q, b);
    assert den * a == a * den;
  }

  lemma {:induction false} RoundsDownFraction(num: int, den: int, num': int, den': int, r: int)
    requires den' > 0 && num * den' == num' * den && RoundsDown(num, den, r)
    ensures RoundsDown(num', den', r)
  {
    var e, e' := 2 * (num - r * den), 2 * (num' - r * den');
    assert e * den' == e' * den by { CrossRemainder(num, den, num', den', r); }
    SameSide(e, den, e', den');
    SameSide(-e, den, -e', den');
  }

  lemma {:induction false} FullFraction(num: int, den: int, num': int, den': int, c: nat)
    requires den > 0 && den' > 0 && num * den' == num' * den && num >= c * den
    ensures num' >= c * den'
  {
    MulMonotonic'(c * den, num, den');
    Swap(c, den, den');
    Ordered(c * den', num', den);
  }

  lemma {:induction false} MulMonotonic'(a: int, b: int, c: nat)
    requires a <= b
    ensures a * c <= b * c
  {
  }

  lemma {:induction false} ExactFraction(num: int, den: int, num': int, den': int, r: int)
    requires den > 0 && num * den' == num' * den && num == r * den
    ensures num' == r * den'
  {
    Swap(r, den, den');
    Compare(num', r * den', den);
  }

  /** The rounded significand is the nearest. */
  lemma {:induction false} NearestFrom(s: seq<int>, units: nat, lsd: nat, x: nat, exponent: int, num: nat, den: nat, m: nat, r: nat)
    requires units < |s| && lsd < |s| && Extent(s, 0, lsd) && den > 0
    requires Scaled(s, x, exponent) && x * den == num * Pow(BBASE, |s| - 1 - units)
    requires m == Val(s[..units + 1]) < 2 * MIN_MANTISSA && m <= r <= m + 1
    requires RoundsDown(Val(s), Pow(BBASE, |s| - 1 - units), r)
    requires (lsd <= units && r == m) || m >= MIN_MANTISSA
    ensures Nearest(num, den, r, exponent)
  {
    var q, n, d := Pow(BBASE, |s| - 1 - units), num * Pow(2, Down(exponent)), den * Pow(2, Up(exponent));
    Parts(s, units);
    Unscale(Val(s), q, x, exponent, num, den);
    if lsd <= units && r == m {
      assert Zeros(s[units + 1..]);
      ExactFraction(Val(s), q, n, d, r);
    } else {
      MulMonotonic(MIN_MANTISSA, m, q);
      FullFraction(Val(s), q, n, d, MIN_MANTISSA);
      RoundsDownFraction(Val(s), q, n, d, r);
    }
  }

  /** The work space holds the decimal number as a fixed-point number. */
  lemma {:induction false} FixedPoint(d: nat, lsp: int, f: nat, p: nat)
    requires p == lsp + 9 * f
    ensures d * Pow(10, p) * Over(lsp) == Times(d, lsp) * Pow(BBASE, f)
  {
    BasePower(f);
    PowAdd(10, p, Down(lsp));
    PowAdd(10, Up(lsp), 9 * f);
    assert p + Down(lsp) == Up(lsp) + 9 * f;
    Reassociate(d, Pow(10, p), Pow(10, Down(lsp)));
    Reassociate(d, Pow(10, Up(lsp)), Pow(10, 9 * f));
  }

  /** After the shift loops, the number is ready to be cut into significand and fraction. */
  lemma {:induction false} ReadyFrom(s: seq<int>, msd: nat, lsd: nat, units: nat, x: nat, exponent: int, rs: int)
    requires Extent(s, msd, lsd) && msd <= lsd < |s| && 1 <= units < |s|
    requires Scaled(s, x, exponent) && Estimate(x, Pow(BBASE, |s| - 1 - units), rs)
    requires if rs > 0 then exponent == rs else rs <= exponent <= 0
    requires exponent == rs || lsd <= units
    ensures Ready(s, msd, lsd, units)
  {
    var q := Pow(BBASE, |s| - 1 - units);
    assert Pow(2, 0) == 1;
    if rs > 0 {
      CancelShift(Val(s), HALF_MANTISSA, 2 * MIN_MANTISSA, Pow(2, rs), q);
    } else {
      PowMonotonic(2, -exponent, -rs);
      ProductMonotonic(x, x, Pow(2, -exponent), Pow(2, -rs));
    }
  }

  lemma {:induction false} CancelShift(v: int, low: nat, high: nat, p: nat, q: nat)
    requires p > 0
    ensures low * (p * q) <= v * p ==> low * q <= v
    ensures v * p < high * (p * q) ==> v < high * q
  {
    Reassociate(low, q, p);
    Reassociate(high, q, p);
    assert q * p == p * q;
    Ordered(low * q, v, p);
    Ordered(high * q, v, p);
  }

  /**
   Every bit of right shift takes one more decimal place, except as many as
   the number has factors of two: there are not enough places for the shift.
   */
  ghost predicate Overruns(kept: seq<nat>, msp: int, rs: int) {
    rs > 0 && rs > msp - |kept| + 1 + DDIG_PER_DIG * (WORK_DIGITS - 1 - msp / DDIG_PER_DIG) + Twos(Dec(kept))
  }

  /** The most significant decimal place that the work space must provide. */
  function HighestPlace(msp: int, rsMin: int, rs: int): int {
    if rs > 0 then msp else if rsMin < 0 then msp + (2 - rsMin) / 3 else msp
  }

  /** Bounds on the computed shifts, from those on the logarithms of the number. */
  predicate ShiftBounds(msp: int, rsMin: int, rs: int) {
    && rsMin <= rs
    && rs + 52 <= (if msp >= -1 then 4 * (msp + 1) else 3 * (msp + 1))
    && rsMin + 52 >= if msp >= 0 then 3 * msp - 1 else 4 * msp - 1
  }

  /** The units digit leaves room for the significand before it, and for all decimal places behind it. */
  lemma {:induction false} Room(n: nat, msp: int, rsMin: int, rs: int)
    requires ShiftBounds(msp, rsMin, rs) && LEAST_PLACE < msp <= MAX_10_EXP && 1 <= n <= MAX_DIGITS
    ensures var h := HighestPlace(msp, rsMin, rs);
      && h >= 9 && h >= msp && h / DDIG_PER_DIG + 1 < WORK_DIGITS
      && n - 1 - msp < 9 * (WORK_DIGITS - 1 - h / DDIG_PER_DIG)
  {
    var h := HighestPlace(msp, rsMin, rs);
    if rs > 0 || rsMin >= 0 {
      assert msp >= 12;
    } else {
      assert h >= 9;
      if msp >= 0 { assert h <= msp + 19 && 3 * msp <= 53; } else { assert h <= 125; }
    }
  }

  /** No more than 2020 digits fit always. */
  lemma {:induction false} FitsUpTo(n: nat, msp: int, rs: int, k: nat)
    requires n <= 2020 && 0 <= msp <= MAX_10_EXP && k == rs + 52
    requires AtLeast(Times(1, msp + 1), Over(msp + 1), k)
    ensures rs <= msp - n + 1 + DDIG_PER_DIG * (WORK_DIGITS - 1 - msp / DDIG_PER_DIG)
  {
    TenAsTensOfTwos(msp + 1);
    StrictlyMore(10 * ((msp + 1) / 3) + 4 * ((msp + 1) % 3), k);
  }

  lemma {:induction false} TenAsTensOfTwos(n: nat)
    ensures Pow(10, n) <= Pow(2, 10 * (n / 3) + 4 * (n % 3))
  {
    var a, b := n / 3, n % 3;
    PowPow(10, 3, a);
    PowAdd(10, 3 * a, b);
    PowPow(2, 10, a);
    ThousandBits();
    PowBase(Pow(10, 3), Pow(2, 10), a);
    TenAsTwos(b);
    PowAdd(2, 10 * a, 4 * b);
    ProductMonotonic(Pow(10, 3 * a), Pow(2, 10 * a), Pow(10, b), Pow(2, 4 * b));
  }

  lemma {:induction false} ThousandBits()
    ensures Pow(10, 3) <= Pow(2, 10)
  {
  }

  /** Shifts the loaded number until the integer part has the estimated size. */
  method ShiftToSize(digits: array<int>, msd0: nat, lsd0: nat, units: nat, rs: int, ghost x: nat)
    returns (ok: bool, msd: nat, lsd: nat, exponent: int)
    requires msd0 <= lsd0 < digits.Length && Extent(digits[..], msd0, lsd0) && 1 <= units < digits.Length
    requires Val(digits[..]) == x && x > 0
    requires Estimate(x, Pow(BBASE, digits.Length - 1 - units), rs)
    modifies digits
    ensures ok <==> rs <= Twos(x)
    ensures ok ==> Ready(digits[..], msd, lsd, units) && Scaled(digits[..], x, exponent)
  {
    assert Pow(2, 0) == 1;
    assert Scaled(digits[..], x, 0);
    ok, msd, lsd, exponent := true, msd0, lsd0, 0;
    if rs > 0 {
      ok, msd, lsd := ShiftDown(digits, msd, lsd, rs, x);
      exponent := rs;
      TwosMeaning(x, rs);
    } else if rs < 0 {
      msd, lsd, exponent := ShiftUp(digits, msd, lsd, rs, units, x);
    }
    if ok { ReadyFrom(digits[..], msd, lsd, units, x, exponent, rs); }
  }

  /** The work space loaded with a decimal number and shifted; x is the number in units of its last place. */
  method LoadAndShift(digits: array<int>, kept: seq<nat>, msp: int, lsp: int, units: nat, rs: int, ghost p: nat)
    returns (ok: bool, msd: nat, lsd: nat, exponent: int)
    requires digits.Length == WORK_DIGITS && Zeros(digits[..])
    requires DecimalDigits(kept) && |kept| == msp - lsp + 1 > 0 && Dec(kept) > 0
    requires 1 <= units < WORK_DIGITS && msp < 9 * (units + 1) && -lsp < 9 * (WORK_DIGITS - 1 - units)
    requires p == lsp + 9 * (WORK_DIGITS - 1 - units)
    requires Estimate(Times(Dec(kept), lsp), Over(lsp), rs)
    modifies digits
    ensures ok <==> rs <= p + Twos(Dec(kept))
    ensures Dec(kept) * Pow(10, p) * Over(lsp) == Times(Dec(kept), lsp) * Pow(BBASE, WORK_DIGITS - 1 - units)
    ensures ok ==> Ready(digits[..], msd, lsd, units) && Scaled(digits[..], Dec(kept) * Pow(10, p), exponent)
  {
    msd, lsd := LoadDecimal(digits, kept, msp, lsp, units);
    FixedPointNumber(Dec(kept), lsp, digits.Length - 1 - units, p, rs);
    ok, msd, lsd, exponent := ShiftToSize(digits, msd, lsd, units, rs, Dec(kept) * Pow(10, p));
  }

  /** The number in units of the last place of the work space. */
  lemma {:induction false} FixedPointNumber(d: nat, lsp: int, f: nat, p: nat, rs: int)
    requires d > 0 && p == lsp + 9 * f && Estimate(Times(d, lsp), Over(lsp), rs)
    ensures d * Pow(10, p) > 0 && Twos(d * Pow(10, p)) == Twos(d) + p
    ensures d * Pow(10, p) * Over(lsp) == Times(d, lsp) * Pow(BBASE, f)
    ensures Estimate(d * Pow(10, p), Pow(BBASE, f), rs)
  {
    FixedPoint(d, lsp, f, p);
    EstimateFraction(Times(d, lsp), Over(lsp), d * Pow(10, p), Pow(BBASE, f), rs);
    TwosOfTenfold(d, p);
  }

  /** Takes the significand and rounds it. */
  method TakeRounded(digits: array<int>, msd: nat, lsd0: nat, units: nat, exponent0: int, ghost x: nat, ghost num: nat, ghost den: nat)
    returns (rounded: nat, exponent: int)
    requires Ready(digits[..], msd, lsd0, units) && Scaled(digits[..], x, exponent0) && x > 0
    requires den > 0 && x * den == num * Pow(BBASE, digits.Length - 1 - units)
    modifies digits
    ensures Nearest(num, den, rounded, exponent)
  {
    var mantissa, lsd;
    mantissa, lsd, exponent := TakeSignificand(digits, msd, lsd0, units, exponent0, x);
    rounded := RoundToInt(mantissa, digits, units, lsd);
    NearestFrom(digits[..], units, lsd, x, exponent, num, den, mantissa, rounded);
  }

  /** The conversion proper, of digits whose most significant place is in range. */
  method Convert(kept: seq<nat>, msp: int, lsp: int, rsMin: int, rs: int) returns (r: Double, ghost sig: nat, ghost u: int)
    requires DecimalDigits(kept) && 1 <= |kept| == msp - lsp + 1 <= MAX_DIGITS && Dec(kept) > 0
    requires LEAST_PLACE < msp <= MAX_10_EXP && ShiftBounds(msp, rsMin, rs)
    requires Estimate(Times(Dec(kept), lsp), Over(lsp), rs)
    ensures if Overruns(kept, msp, rs) then r == Overrun
            else r == Packed(sig, u) && sig > 0 && Nearest(Times(Dec(kept), lsp), Over(lsp), sig, u)
  {
    Room(|kept|, msp, rsMin, rs);
    var units: nat := HighestPlace(msp, rsMin, rs) / DDIG_PER_DIG;
    ghost var p := lsp + 9 * (WORK_DIGITS - 1 - units);
    ghost var num, den, x := Times(Dec(kept), lsp), Over(lsp), Dec(kept) * Pow(10, p);
    var digits := new int[WORK_DIGITS](i => 0);
    var ok, msd, lsd, exponent := LoadAndShift(digits, kept, msp, lsp, units, rs, p);
    sig, u := 0, 0;
    if !ok {
      return Overrun, sig, u;
    }
    Grows(Dec(kept), Pow(10, p));
    var rounded;
    rounded, exponent := TakeRounded(digits, msd, lsd, units, exponent, x, num, den);
    sig, u := rounded, exponent;
    NearestPositive(Dec(kept), lsp, sig, u);
    if rounded > 2 * MIN_MANTISSA - 1 {
      rounded := 1;
      exponent := exponent + MANT_DIG;
    }
    r := match Ldexp(rounded, exponent) case TooLarge => Overflow case Fits(m, e) => Finite(m, e);
  }

  lemma {:induction false} NearestPositive(d: nat, lsp: int, sig: nat, u: int)
    requires d > 0 && Nearest(Times(d, lsp), Over(lsp), sig, u)
    ensures sig > 0
  {
    Grows(d, Pow(10, Up(lsp)));
    Grows(Times(d, lsp), Pow(2, Down(u)));
  }

  /**
   The binary logarithms of d 10^place, as the C code computes them from
   floating-point decimal logarithms: rounded down, exact powers of two possibly
   to one less.
   */
  ghost predicate IsLog2(log2: (nat, int) -> int) {
    forall d, place :: 1 <= d <= 10 ==> IsNearLog2(d, place, log2(d, place))
  }

  /** The number lies between its first digit, and one more, in the place of that digit. */
  lemma {:induction false} BetweenFirst(kept: seq<nat>)
    requires |kept| > 0 && DecimalDigits(kept)
    ensures kept[0] * Pow(10, |kept| - 1) <= Dec(kept) < (kept[0] + 1) * Pow(10, |kept| - 1)
  {
    assert kept == [kept[0]] + kept[1..];
    DecFront(kept[0], kept[1..]);
    DecBound(kept[1..]);
    Distribute(kept[0], 1, Pow(10, |kept| - 1));
  }

  /** The binary order of magnitude from which to_double derives its shift: that of the first digit and one more. */
  function Order(ddigits: seq<nat>, scale: int, log2: (nat, int) -> int): int {
    if Kept(ddigits) == [] then 0 else log2(Kept(ddigits)[0] + 1, MostPlace(ddigits, scale))
  }

  /** The digits are converted, without an overrun. */
  ghost predicate Converts(ddigits: seq<nat>, scale: int, log2: (nat, int) -> int) {
    && Kept(ddigits) != [] && LEAST_PLACE < MostPlace(ddigits, scale) <= MAX_10_EXP
    && !Overruns(Kept(ddigits), MostPlace(ddigits, scale), Order(ddigits, scale, log2) - 52)
  }

  /**
   The double nearest to the decimal number with the given digits and scale.
   A number of normal magnitude fails to be converted exactly if the places
   its shift takes overrun the work space.
   */
  method ToDouble(ddigits: seq<nat>, scale: int, log2: (nat, int) -> int) returns (r: Double, ghost sig: nat, ghost u: int)
    requires DecimalDigits(ddigits) && IsLog2(log2)
    ensures r == Zero <==> Kept(ddigits) == []
    ensures r == Overflow <==>
      || (Kept(ddigits) != [] && MostPlace(ddigits, scale) > MAX_10_EXP)
      || (Converts(ddigits, scale, log2) && Packed(sig, u) == Overflow)
    ensures r == Underflow <==> Kept(ddigits) != [] && MostPlace(ddigits, scale) <= LEAST_PLACE
    ensures r == Overrun <==>
      && Kept(ddigits) != [] && LEAST_PLACE < MostPlace(ddigits, scale) <= MAX_10_EXP
      && Overruns(Kept(ddigits), MostPlace(ddigits, scale), Order(ddigits, scale, log2) - 52)
    ensures Converts(ddigits, scale, log2) ==>
      && r == Packed(sig, u) && sig > 0
      && Nearest(Times(Dec(Kept(ddigits)), LeastPlace(ddigits, scale)), Over(LeastPlace(ddigits, scale)), sig, u)
    ensures r.Finite? ==> Converts(ddigits, scale, log2)
  {
    sig, u := 0, 0;
    var kept, msp, lsp := Trim(ddigits, scale);
    if kept == [] {
      return Zero, sig, u;
    }
    KeptDigits(ddigits);
    if msp > MAX_10_EXP {
      return Overflow, sig, u;
    } else if msp <= LEAST_PLACE {
      return Underflow, sig, u;
    }
    r, sig, u := ConvertInRange(kept, msp, lsp, log2);
  }

  /** The conversion of digits whose most significant place is in range, with the shift from their logarithms. */
  method ConvertInRange(kept: seq<nat>, msp: int, lsp: int, log2: (nat, int) -> int) returns (r: Double, ghost sig: nat, ghost u: int)
    requires DecimalDigits(kept) && 1 <= |kept| == msp - lsp + 1 <= MAX_DIGITS && 1 <= kept[0] <= 9
    requires LEAST_PLACE < msp <= MAX_10_EXP && IsLog2(log2)
    ensures if Overruns(kept, msp, log2(kept[0] + 1, msp) - 52) then r == Overrun
            else r == Packed(sig, u) && sig > 0 && Nearest(Times(Dec(kept), lsp), Over(lsp), sig, u)
  {
    var low, high := log2(kept[0], msp), log2(kept[0] + 1, msp);
    LogsServe(kept, msp, lsp, log2);
    r, sig, u := Convert(kept, msp, lsp, low - 52, high - 52);
  }

  /** The logarithms computed serve as an estimate of the shift. */
  lemma {:induction false} LogsServe(kept: seq<nat>, msp: int, lsp: int, log2: (nat, int) -> int)
    requires DecimalDigits(kept) && 1 <= |kept| == msp - lsp + 1 && 1 <= kept[0] <= 9 && IsLog2(log2)
    ensures Dec(kept) > 0
    ensures Estimate(Times(Dec(kept), lsp), Over(lsp), log2(kept[0] + 1, msp) - 52)
    ensures ShiftBounds(msp, log2(kept[0], msp) - 52, log2(kept[0] + 1, msp) - 52)
  {
    var low, high := log2(kept[0], msp), log2(kept[0] + 1, msp);
    assert IsNearLog2(kept[0], msp, low) && IsNearLog2(kept[0] + 1, msp, high);
    BetweenFirst(kept);
    Grows(kept[0], Pow(10, |kept| - 1));
    EstimateFromLogs(Dec(kept), lsp, msp, |kept| - 1, kept[0], low, high);
    NearLogBounds(msp, kept[0], low, high);
  }

  lemma {:induction false} KeptDigits(d: seq<nat>)
    requires DecimalDigits(d) && Kept(d) != []
    ensures DecimalDigits(Kept(d)) && |Kept(d)| <= MAX_DIGITS && 1 <= Kept(d)[0] <= 9
  {
  }

  /** No more than 2020 significant digits ever overrun the work space. */
  lemma {:induction false} ShortFits(kept: seq<nat>, msp: int, f: nat, high: int)
    requires |kept| <= 2020 && msp <= MAX_10_EXP && 1 <= f <= 9 && IsNearLog2(f + 1, msp, high)
    ensures !Overruns(kept, msp, high - 52)
  {
    ShortFitsFloor(kept, msp, f, if IsFloorLog2(f + 1, msp, high) then high else high + 1);
  }

  lemma {:induction false} ShortFitsFloor(kept: seq<nat>, msp: int, f: nat, high: int)
    requires |kept| <= 2020 && msp <= MAX_10_EXP && 1 <= f <= 9 && IsFloorLog2(f + 1, msp, high)
    ensures !Overruns(kept, msp, high - 52)
  {
    if high > 52 {
      var one: nat := 1;
      assert Pow(10, one) == 10;
      ComparePlaces(f + 1, msp, 1, msp + 1, one);
      Larger(Times(f + 1, msp), Over(msp), Times(1, msp + 1), Over(msp + 1), high);
      PowerOfTenAtLeast(msp + 1, high);
      assert Pow(10, 0) == 1 && Pow(2, 0) == 1;
      FitsUpTo(|kept|, msp, high - 52, high);
    }
  }

  // A number that does overrun the work space

  /** One, 2046 zeros, one. */
  function OverrunDigits(): (d: seq<nat>)
    ensures DecimalDigits(d)
  {
    [1] + seq(MAX_DIGITS - 2, i => 0) + [1]
  }

  const OVERRUN_SCALE := 1740

  lemma {:induction false} OverrunKept()
    ensures Kept(OverrunDigits()) == OverrunDigits() && MostPlace(OverrunDigits(), OVERRUN_SCALE) == MAX_10_EXP - 1
  {
    var d := OverrunDigits();
    FirstIs(d, 0);
    LastIs(d, |d|);
    assert d[0..|d|] == d;
  }

  lemma {:induction false} OverrunOdd()
    ensures Twos(Dec(OverrunDigits())) == 0
  {
    var d := OverrunDigits();
    assert d[..|d| - 1] + [1] == d;
    assert Dec(d) == Dec(d[..|d| - 1]) * 10 + 1;
  }

  /** 10^307 is at least 2^1013. */
  lemma {:induction false} OverrunPower(place: nat, k: nat)
    requires place == 307 && k == 1013
    ensures Pow(2, k + 1) <= 2 * Pow(10, place)
  {
    var ten: nat, times: nat, bits: nat, rest: nat, restBits: nat := 10, 30, 33, 7, 23;
    TenBits(ten, bits, rest, restBits);
    PowPow(10, ten, times);
    PowPow(2, bits, times);
    PowBase(Pow(2, bits), Pow(10, ten), times);
    PowAdd(10, ten * times, rest);
    PowAdd(2, bits * times, restBits);
    ProductMonotonic(Pow(2, bits * times), Pow(10, ten * times), Pow(2, restBits), Pow(10, rest));
  }

  lemma {:induction false} OrderAtLeast(d: nat, place: nat, k: nat, high: int)
    requires Pow(2, k) <= d * Pow(10, place) && IsNearLog2(d, place, high)
    ensures high >= k - 1
  {
    assert Pow(10, 0) == 1 && Pow(2, 0) == 1;
    assert AtLeast(Times(d, place), Over(place), k);
    if high + 2 <= k { Lower(Times(d, place), Over(place), k, high + 2); }
    if high + 1 <= k { Lower(Times(d, place), Over(place), k, high + 1); }
  }

  lemma {:induction false} TenBits(ten: nat, bits: nat, rest: nat, restBits: nat)
    requires ten == 10 && bits == 33 && rest == 7 && restBits == 23
    ensures Pow(2, bits) <= Pow(10, ten) && Pow(2, restBits) <= Pow(10, rest)
  {
    var low: nat, high: nat, three: nat := 23, 28, 3;
    SmallShift(low);
    SmallShift(high);
    PowAdd(2, high, bits - high);
    var five: nat := 5;
    SmallShift(five);
    PowersOfTen();
    PowAdd(10, rest, three);
    assert Pow(10, three) == 1000;
  }

  lemma {:induction false} OverrunFor(d: seq<nat>, log2: (nat, int) -> int)
    requires IsLog2(log2) && Kept(d) == d && |d| == MAX_DIGITS && d[0] == 1 && Twos(Dec(d)) == 0
    requires MostPlace(d, OVERRUN_SCALE) == MAX_10_EXP - 1
    ensures Overruns(d, MAX_10_EXP - 1, Order(d, OVERRUN_SCALE, log2) - 52)
  {
    var place: nat, k: nat := 307, 1013;
    assert IsNearLog2(2, place, log2(2, place));
    OverrunPower(place, k);
    OrderAtLeast(2, place, k + 1, log2(2, place));
  }

  /** The number that these digits denote is in the normal range, but overruns the work space. */
  lemma {:induction false} OverrunExists(log2: (nat, int) -> int)
    requires IsLog2(log2)
    ensures var d := OverrunDigits(); var msp := MostPlace(d, OVERRUN_SCALE);
      && LEAST_PLACE < msp <= MAX_10_EXP && |Kept(d)| <= MAX_DIGITS
      && Kept(d) != [] && Overruns(Kept(d), msp, Order(d, OVERRUN_SCALE, log2) - 52)
  {
    OverrunKept();
    OverrunOdd();
    OverrunFor(OverrunDigits(), log2);
  }

  // What the nearest double means

  function Abs(a: int): nat { if a < 0 then -a else a }

  /** No other double m 2^(u + k) is closer to the number than the one delivered. */
  lemma {:induction false} NoneCloser(num: nat, den: nat, r: nat, u: int, m: nat, k: int)
    requires Nearest(num, den, r, u) && m < 2 * MIN_MANTISSA
    ensures var n, d := num * Pow(2, Down(u)), den * Pow(2, Up(u));
      Abs(n - r * d) * Pow(2, Down(k)) <= Abs(n * Pow(2, Down(k)) - m * Pow(2, Up(k)) * d)
  {
    var n, d := num * Pow(2, Down(u)), den * Pow(2, Up(u));
    assert Pow(2, 0) == 1;
    if n == r * d {
    } else if k >= 0 {
      NearestInteger(n, d, r, m * Pow(2, k));
    } else {
      NearestInteger(n, d, r, MIN_MANTISSA);
      assert Pow(2, -k) == 2 * Pow(2, -k - 1);
      Finer(n, d, r, m, Pow(2, -k), Pow(2, -k - 1));
    }
  }

  lemma {:induction false} NearestInteger(n: int, d: int, r: int, c: int)
    requires RoundsDown(n, d, r)
    ensures Abs(n - r * d) <= Abs(n - c * d)
  {
    if c > r {
      MulMonotonic'(r + 1, c, d);
      Distribute(r, 1, d);
    } else if c < r {
      MulMonotonic'(c, r - 1, d);
      Distribute(r, -1, d);
    }
  }

  /** Numbers with more places than the significand are all below it. */
  lemma {:induction false} Finer(n: nat, d: nat, r: nat, m: nat, p: nat, half: nat)
    requires m < 2 * MIN_MANTISSA && n >= MIN_MANTISSA * d && half >= 1 && p == 2 * half
    requires Abs(n - r * d) <= Abs(n - MIN_MANTISSA * d)
    ensures Abs(n - r * d) * p <= Abs(n * p - m * d)
  {
    var c := MIN_MANTISSA;
    MulMonotonic(1, half, 2 * c);
    MulMonotonic(m, c * p, d);
    Swap(c, p, d);
    MulMonotonic(Abs(n - r * d), n - c * d, p);
    Distribute(n - c * d, c * d, p);
  }

  /** A number that a double represents is delivered exactly. */
  lemma {:induction false} ExactIfRepresentable(num: nat, den: nat, r: nat, u: int, m: nat, k: int)
    requires Nearest(num, den, r, u) && m < 2 * MIN_MANTISSA
    requires num * Pow(2, Down(u)) * Pow(2, Down(k)) == m * Pow(2, Up(k)) * (den * Pow(2, Up(u)))
    ensures num * Pow(2, Down(u)) == r * (den * Pow(2, Up(u)))
  {
    NoneCloser(num, den, r, u, m, k);
    var e := num * Pow(2, Down(u)) - r * (den * Pow(2, Up(u)));
    if e != 0 { Grows(Pow(2, Down(k)), Abs(e)); }
  }
}
