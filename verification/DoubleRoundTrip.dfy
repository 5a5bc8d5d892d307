/** Binary to decimal and back: with enough decimal places, nothing is lost. */
module DoubleRoundTrip {
  import opened Bignum
  import opened BinaryExponent
  import opened Decimals
  import opened DecimalInput
  import opened DoubleRange
  import opened DoubleScaling
  import opened Rounding
  import opened ToDigits
  import opened ToDouble

  /** The double has no more than scale binary digits after its binary point. */
  ghost predicate FractionBits(m: nat, e: int, scale: nat) {
    m * Pow(2, Up(e + scale)) % Pow(2, Down(e + scale)) == 0
  }

  /** Enough decimal places hold all binary places. */
  lemma {:induction false} PlacesDivideNumber(m: nat, e: int, scale: nat)
    requires FractionBits(m, e, scale)
    ensures Numerator(m, e, scale) % Denominator(e, scale) == 0
  {
    assert Pow(10, 0) == 1;
    PowProduct(2, 5, scale);
    if e >= 0 {
      assert Pow(2, 0) == 1;
    } else if e + scale >= 0 {
      PowAdd(2, e + scale, -e);
      Gather(m, Pow(2, e + scale), Pow(2, -e), Pow(5, scale));
      assert Pow(2, 0) == 1;
    } else {
      PowAdd(2, -e - scale, scale);
      Divides(m, Pow(2, -e - scale));
      assert Pow(2, 0) == 1;
      Gather'(m, m / Pow(2, -e - scale), Pow(2, -e - scale), Pow(2, scale), Pow(5, scale));
    }
  }

  lemma {:induction false} Gather(m: nat, a: nat, b: nat, f: nat)
    requires b > 0
    ensures (m * ((a * b) * f)) % b == 0
  {
    assert m * ((a * b) * f) == (m * a * f) * b;
    MultipleOf(m * a * f, b);
  }

  lemma {:induction false} Gather'(m: nat, x: nat, a: nat, b: nat, f: nat)
    requires m == x * a && a * b > 0
    ensures (m * (b * f)) % (a * b) == 0
  {
    Interchange(x, a, f, b);
    assert b * f == f * b;
    MultipleOf(x * f, a * b);
  }

  /** An integer is rounded to itself. */
  lemma {:induction false} ExactlyRounded(num: nat, den: nat, q: int)
    requires den > 0 && num % den == 0 && RoundsTo(num, den, q)
    ensures num == q * den
  {
    var k := num / den;
    assert num == k * den;
    RoundsToUnique(num, den, q, k);
  }

  /** Digits without a leading zero are no longer than the number. */
  lemma {:induction false} LengthBound(s: seq<nat>, n: nat)
    requires DecimalDigits(s) && NoLeadingZero(s) && Dec(s) < Pow(10, n) && Dec(s) > 0
    ensures 1 <= |s| <= n && s[0] != 0
  {
    assert s == [s[0]] + s[1..];
    DecFront(s[0], s[1..]);
    DecBound(s[1..]);
    Grows'(Pow(10, |s| - 1), s[0]);
    if |s| > n { PowMonotonic(10, n, |s| - 1); }
  }

  lemma {:induction false} PositiveKept(s: seq<nat>)
    requires Dec(s) > 0
    ensures Kept(s) != []
  {
    if Kept(s) == [] { DecZeros(s); }
  }

  /** 2^1023 is less than 10^308. */
  lemma {:induction false} LargestInDecimal(n: nat, k: nat)
    requires k <= 1024 && n >= 309
    ensures Pow(2, k) < Pow(10, n)
  {
    var a: nat, b: nat, q: nat, p: nat := 93, 28, 11, 0;
    NinetyThree(a, b);
    PowBase(Pow(2, a), Pow(10, b), q);
    PowPow(2, a, q);
    PowPow(10, b, q);
    assert Pow(2, a * q + 1) == 2 * Pow(2, a * q);
    assert Pow(10, b * q + 1) == 10 * Pow(10, b * q);
    PowMonotonic(2, k, a * q + 1);
    PowMonotonic(10, b * q + 1, n);
  }

  /** 2^93 is less than 10^28. */
  lemma {:induction false} NinetyThree(a: nat, b: nat)
    requires a <= 93 && b >= 28
    ensures Pow(2, a) <= Pow(10, b)
  {
    var h: nat, q: nat, t: nat := 31, 3, 9;
    ThirtyOne(h);
    PowMonotonic(2, a, h * q);
    PowPow(2, h, q);
    PowMonotonic(10, t * q + 1, b);
    PowPow(10, t, q);
    Cubes(Pow(2, h), Pow(10, t));
    WholeTen(t);
  }

  lemma {:induction false} Cubes(x: nat, y: nat)
    requires x <= 2_147_483_648 && y == 1_000_000_000
    ensures Pow(x, 3) <= 10 * Pow(y, 3)
  {
    PowBase(x, 2_147_483_648, 3);
  }

  lemma {:induction false} ThirtyOne(h: nat)
    requires h <= 31
    ensures Pow(2, h) <= 2_147_483_648
  {
    var s: nat, r: nat := 28, 3;
    PowMonotonic(2, h, s + r);
    PowAdd(2, s, r);
    SmallShift(s);
    assert Pow(2, 3) == 8;
  }

  lemma {:induction false} WholeTen(nine: nat)
    requires nine == 9
    ensures Pow(10, nine) == 1_000_000_000
  {
    PowersOfTen();
  }

  /** The digit string of a double is at most 309 digits longer than its scale. */
  lemma {:induction false} ShortText(m: nat, e: int, scale: nat, v: nat, n: nat)
    requires n >= 309 && IsDouble(m, e) && Numerator(m, e, scale) == v * Denominator(e, scale)
    ensures v < Pow(10, n + scale)
  {
    DoubleInDecimal(m, Up(e), n);
    PowAdd(10, n, scale);
    StrictProduct(m * Pow(2, Up(e)), Pow(10, n), Pow(10, scale));
    Grows(v, Denominator(e, scale));
  }

  lemma {:induction false} DoubleInDecimal(m: nat, up: nat, n: nat)
    requires n >= 309 && m < 2 * MIN_MANTISSA && up <= MAX_EXPONENT
    ensures m * Pow(2, up) < Pow(10, n)
  {
    var bits: nat := 53;
    MantissaBits(bits);
    LargestInDecimal(n, bits + up);
    PowAdd(2, bits, up);
    StrictProduct(m, Pow(2, bits), Pow(2, up));
  }

  /** The digits kept denote the double. */
  lemma {:induction false} KeptIsDouble(m: nat, e: int, scale: nat, text: seq<nat>)
    requires Numerator(m, e, scale) == Dec(text) * Denominator(e, scale) && Dec(text) > 0
    requires |text| <= MAX_DIGITS
    ensures var lsp, d := LeastPlace(text, scale), Dec(Kept(text));
      Times(d, lsp) * Pow(2, Down(e)) == m * Pow(2, Up(e)) * Over(lsp)
  {
    PositiveKept(text);
    KeptValue(text, scale);
    assert Pow(10, 0) == 1;
    var lsp, d := LeastPlace(text, scale), Dec(Kept(text));
    var a, b := m * Pow(2, Up(e)), Pow(2, Down(e));
    PowAdd(10, lsp + scale, Down(lsp));
    PowAdd(10, scale, Up(lsp));
    assert lsp + scale + Down(lsp) == scale + Up(lsp);
    Reduce(a, b, d, Pow(10, scale), Pow(10, lsp + scale), Over(lsp), Pow(10, Up(lsp)));
  }

  lemma {:induction false} Reduce(a: nat, b: nat, d: nat, t: nat, x: nat, o: nat, y: nat)
    requires a * t == (d * x) * b && x * o == t * y && t > 0
    ensures d * y * b == a * o
  {
    assert (a * o) * t == (a * t) * o == ((d * x) * b) * o;
    assert ((d * x) * b) * o == d * (x * o) * b;
    assert d * (t * y) * b == (d * y * b) * t;
    Cancel(a * o, d * y * b, t);
  }

  /** A double is delivered exactly. */
  lemma {:induction false} DoubleDelivered(num: nat, den: nat, m: nat, e: int, sig: nat, u: int)
    requires Nearest(num, den, sig, u) && m < 2 * MIN_MANTISSA && den > 0
    requires num * Pow(2, Down(e)) == m * Pow(2, Up(e)) * den
    ensures SameNumber(m, e, sig, u)
  {
    var k := e - u;
    var a, b, c, d := Pow(2, Up(e)), Pow(2, Down(e)), Pow(2, Up(u)), Pow(2, Down(u));
    var f, g := Pow(2, Up(k)), Pow(2, Down(k));
    PowAdd(2, Up(e) + Down(u), Down(k));
    PowAdd(2, Up(e), Down(u));
    PowAdd(2, Up(u) + Down(e), Up(k));
    PowAdd(2, Up(u), Down(e));
    assert Up(e) + Down(u) + Down(k) == Up(u) + Down(e) + Up(k);
    Representable(num, den, m, a, b, c, d, f, g);
    ExactIfRepresentable(num, den, sig, u, m, k);
    Same(num, den, m, a, b, c, d, sig);
  }

  lemma {:induction false} Representable(num: nat, den: nat, m: nat, a: nat, b: nat, c: nat, d: nat, f: nat, g: nat)
    requires num * b == m * a * den && (a * d) * g == (c * b) * f && b > 0
    ensures num * d * g == m * f * (den * c)
  {
    assert (num * d * g) * b == (num * b) * (d * g);
    assert (m * a * den) * (d * g) == (m * den) * ((a * d) * g);
    assert (m * den) * ((c * b) * f) == (m * f * (den * c)) * b;
    Cancel(num * d * g, m * f * (den * c), b);
  }

  lemma {:induction false} Same(num: nat, den: nat, m: nat, a: nat, b: nat, c: nat, d: nat, sig: nat)
    requires num * b == m * a * den && num * d == sig * (den * c) && den > 0
    ensures m * a * d == sig * c * b
  {
    assert (m * a * d) * den == (m * a * den) * d;
    assert (num * b) * d == (num * d) * b;
    assert (sig * (den * c)) * b == (sig * c * b) * den;
    Cancel(m * a * d, sig * c * b, den);
  }

  lemma {:induction false} DeliveredSame(m: nat, e: int, sig: nat, u: int)
    requires IsDouble(m, e) && SameNumber(m, e, sig, u) && 0 < sig
    ensures var r := Packed(sig, u); r.Finite? && SameNumber(m, e, r.mantissa, r.exponent)
  {
    if sig == 2 * MIN_MANTISSA {
      CarriedSame(sig, u, 1, u + MANT_DIG);
      SameTransitive(m, e, sig, u, 1, u + MANT_DIG);
      DoubleKept(m, e, 1, u + MANT_DIG);
    } else {
      DoubleKept(m, e, sig, u);
    }
  }

  lemma {:induction false} SameTransitive(m: nat, e: int, sig: nat, u: int, m': nat, e': int)
    requires SameNumber(m, e, sig, u) && SameNumber(m', e', sig, u)
    ensures SameNumber(m, e, m', e')
  {
    Chain(m * Pow(2, Up(e)), Pow(2, Down(e)), sig * Pow(2, Up(u)), Pow(2, Down(u)), m' * Pow(2, Up(e')), Pow(2, Down(e')));
  }

  lemma {:induction false} Chain(a: nat, b: nat, c: nat, d: nat, f: nat, g: nat)
    requires a * d == c * b && f * d == c * g && d > 0
    ensures a * g == f * b
  {
    assert (a * g) * d == (a * d) * g;
    assert (f * b) * d == (f * d) * b;
    assert (c * b) * g == (c * g) * b;
    Cancel(a * g, f * b, d);
  }

  /**
   A double printed at a scale that holds all its binary places reads back as
   the same double.
   */
  method BinaryDecimalBinary(m: nat, e: int, scale: nat, log2: (nat, int) -> int) returns (r: Double)
    requires IsDouble(m, e) && scale <= MAX_SCALE && FractionBits(m, e, scale) && IsLog2(log2)
    ensures r.Finite? && SameNumber(m, e, r.mantissa, r.exponent)
  {
    var text := ToDigits.ToDigits(m, e, scale);
    ghost var num, den := Numerator(m, e, scale), Denominator(e, scale);
    PlacesDivideNumber(m, e, scale);
    ExactlyRounded(num, den, Dec(text));
    Positive(m, e, scale, Dec(text));
    ShortText(m, e, scale, Dec(text), 309);
    LengthBound(text, 309 + scale);
    PositiveKept(text);
    KeptDigits(text);
    ghost var msp := MostPlace(text, scale);
    ghost var f := Kept(text)[0];
    assert IsNearLog2(f + 1, msp, log2(f + 1, msp));
    ShortFits(Kept(text), msp, f, log2(f + 1, msp));
    KeptIsDouble(m, e, scale, text);
    ghost var sig, u;
    r, sig, u := ToDouble.ToDouble(text, scale, log2);
    ghost var lsp := LeastPlace(text, scale);
    DoubleDelivered(Times(Dec(Kept(text)), lsp), Over(lsp), m, e, sig, u);
    DeliveredSame(m, e, sig, u);
  }

  lemma {:induction false} Positive(m: nat, e: int, scale: nat, v: nat)
    requires m > 0 && Numerator(m, e, scale) == v * Denominator(e, scale)
    ensures v > 0
  {
    Grows(m, Pow(2, Up(e)));
    Grows(m * Pow(2, Up(e)), Pow(10, Up(scale)));
  }
}
