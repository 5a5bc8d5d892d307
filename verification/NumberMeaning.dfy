/**
 What the characters of a number denote, read off place by place; and that the
 number parsed from them has that value, that last place and that uncertainty.
 */
module NumberMeaning {
  import opened Bignum
  import opened Decimals
  import opened NumberGrammar
  import opened Units
  import opened Values
  import opened Wrappers

  /** So many units of a decimal place: n times ten to the power of the place. */
  function Scaled(n: int, place: int): real
    decreases if place < 0 then -place else place
  {
    if place == 0 then n as real else if place > 0 then 10.0 * Scaled(n, place - 1) else Scaled(n, place + 1) / 10.0
  }

  lemma {:induction false} ScaledInjective(n: int, n': int, place: int)
    requires Scaled(n, place) == Scaled(n', place)
    ensures n == n'
    decreases if place < 0 then -place else place
  {
    if place > 0 { ScaledInjective(n, n', place - 1); }
    if place < 0 { ScaledInjective(n, n', place + 1); }
  }

  // The parts of the text

  /** What comes before the first of some marks. */
  function UpTo(t: Text, marks: set<Unit>): Text {
    if t == [] || t[0] in marks then [] else [t[0]] + UpTo(t[1..], marks)
  }

  /** What comes behind the first of some marks. */
  function Behind(t: Text, marks: set<Unit>): Text {
    if t == [] then [] else if t[0] in marks then t[1..] else Behind(t[1..], marks)
  }

  function Unsigned(t: Text): Text {
    if t != [] && t[0] in {PLUS, MINUS} then t[1..] else t
  }

  predicate Negated(t: Text) {
    t != [] && t[0] == MINUS
  }

  /** The digits before the decimal point. */
  function WholePart(t: Text): Text {
    UpTo(Unsigned(t), {DOT, SMALL_E, CAPITAL_E, OPEN})
  }

  /** The digits behind the decimal point. */
  function FractionPart(t: Text): Text {
    Behind(UpTo(Unsigned(t), {SMALL_E, CAPITAL_E, OPEN}), {DOT})
  }

  function ExponentPart(t: Text): Text {
    Behind(UpTo(t, {OPEN}), {SMALL_E, CAPITAL_E})
  }

  function SuPart(t: Text): Text {
    UpTo(Behind(t, {OPEN}), {CLOSE})
  }

  // What they denote

  /** A digit string as an integer: each digit counts as many tens as there are digits behind it. */
  function Integer(t: Text): int {
    if t == [] then 0 else (t[0] - ZERO) * Pow(10, |t| - 1) + Integer(t[1..])
  }

  /** The exponent of ten: zero where none is written, and positive unless a minus sign is written. */
  function ExponentOf(t: Text): int {
    var x := ExponentPart(t);
    if Negated(x) then -Integer(Unsigned(x)) else Integer(Unsigned(x))
  }

  /** The place of the last digit written: behind the decimal point, and shifted by the exponent. */
  function LastPlace(t: Text): int {
    ExponentOf(t) - |FractionPart(t)|
  }

  /** The number without sign, in units of its last place. */
  function UnitsOf(t: Text): int {
    Integer(WholePart(t)) * Pow(10, |FractionPart(t)|) + Integer(FractionPart(t))
  }

  function Signed(negative: bool, r: real): real {
    if negative then -r else r
  }

  /** The rational number that the characters denote. */
  function Denoted(t: Text): real {
    Signed(Negated(t), Scaled(UnitsOf(t), LastPlace(t)))
  }

  /** The uncertainty that the characters denote: it is in units of the number's last place. */
  function DenotedSu(t: Text): real {
    Scaled(Integer(SuPart(t)), LastPlace(t))
  }

  /**
   The number has the value and the uncertainty that the characters denote, and
   its digits, without superfluous zeros, end in the same place.
   */
  ghost predicate Denotes(m: Number, t: Text) {
    && Signed(m.negative, Scaled(Dec(m.digits), -m.scale)) == Denoted(t)
    && m.negative == Negated(t) && -m.scale == LastPlace(t)
    && m.digits != [] && DecimalDigits(m.digits) && NoLeadingZero(m.digits)
    && (m.su.Some? <==> OPEN in t)
    && (m.su.Some? ==> Scaled(Dec(m.su.value), -m.scale) == DenotedSu(t))
    && (m.su.Some? ==> m.su.value != [] && DecimalDigits(m.su.value) && NoLeadingZero(m.su.value))
  }

  // The parts of a printed notation

  predicate Free(t: Text, marks: set<Unit>) {
    forall i :: 0 <= i < |t| ==> t[i] !in marks
  }

  lemma {:induction false} PastFree(a: Text, b: Text, marks: set<Unit>)
    requires Free(a, marks)
    ensures UpTo(a + b, marks) == a + UpTo(b, marks) && Behind(a + b, marks) == Behind(b, marks)
  {
    if a == [] {
      assert a + b == b;
    } else {
      assert (a + b)[1..] == a[1..] + b;
      PastFree(a[1..], b, marks);
    }
  }

  lemma {:induction false} FreeConcat(a: Text, b: Text, marks: set<Unit>)
    requires Free(a, marks) && Free(b, marks)
    ensures Free(a + b, marks)
  {
  }

  lemma {:induction false} AllFree(t: Text, marks: set<Unit>)
    requires Free(t, marks)
    ensures UpTo(t, marks) == t && Behind(t, marks) == []
  {
    PastFree(t, [], marks);
    assert t + [] == t;
  }

  /** Digits contain none of the marks. */
  lemma {:induction false} DigitsFree(d: seq<nat>, marks: set<Unit>)
    requires DecimalDigits(d) && forall c :: c in marks ==> !IsDigitUnit(c)
    ensures Free(DigitText(d), marks)
  {
  }

  lemma {:induction false} SignFree(s: Sign, marks: set<Unit>)
    requires PLUS !in marks && MINUS !in marks
    ensures Free(SignText(s), marks)
  {
  }

  /** The text after the sign, split. */
  lemma {:induction false} Unsign(n: Notation)
    requires WellFormed(n)
    ensures var t := Print(n);
      && Negated(t) == n.sign.Minus?
      && Unsigned(t) == DigitText(n.whole) + (PointText(n.point) + (DigitText(n.fraction) + (ExponentText(n.exponent) + SuText(n.su))))
  {
    var w, p, f, x, u := DigitText(n.whole), PointText(n.point), DigitText(n.fraction), ExponentText(n.exponent), SuText(n.su);
    SignAndRest(SignText(n.sign), w, p, f, x, u);
    var rest := w + (p + (f + (x + u)));
    assert rest[0] == if n.whole != [] then w[0] else p[0];
  }

  lemma {:induction false} SignAndRest(s: Text, w: Text, p: Text, f: Text, x: Text, u: Text)
    ensures s + w + p + f + x + u == s + (w + (p + (f + (x + u))))
  {
  }

  lemma {:induction false} SignedPart(s: NumberGrammar.Sign, d: seq<nat>)
    requires DecimalDigits(d) && d != []
    ensures var x := SignText(s) + DigitText(d); Negated(x) == s.Minus? && Unsigned(x) == DigitText(d)
  {
    var x := SignText(s) + DigitText(d);
    if s.NoSign? {
      assert x == DigitText(d) && IsDigitUnit(x[0]);
    }
  }

  /** How the tail begins. */
  lemma {:induction false} TailBegins(n: Notation, marks: set<Unit>)
    requires WellFormed(n) && SMALL_E in marks && CAPITAL_E in marks && OPEN in marks
    ensures UpTo(ExponentText(n.exponent) + SuText(n.su), marks) == []
  {
    var t := ExponentText(n.exponent) + SuText(n.su);
    if n.exponent.Some? {
      assert t[0] in {SMALL_E, CAPITAL_E};
    } else if n.su.Some? {
      assert t[0] == OPEN;
    }
  }

  lemma {:induction false} WholeIs(n: Notation)
    requires WellFormed(n)
    ensures WholePart(Print(n)) == DigitText(n.whole)
  {
    var marks := {DOT, SMALL_E, CAPITAL_E, OPEN};
    var p, f, tail := PointText(n.point), DigitText(n.fraction), ExponentText(n.exponent) + SuText(n.su);
    Unsign(n);
    DigitsFree(n.whole, marks);
    PastFree(DigitText(n.whole), p + (f + tail), marks);
    TailBegins(n, marks);
    if n.point {
      assert (p + (f + tail))[0] == DOT;
    } else {
      assert p + (f + tail) == tail;
    }
    assert DigitText(n.whole) + [] == DigitText(n.whole);
  }

  lemma {:induction false} FractionIs(n: Notation)
    requires WellFormed(n)
    ensures FractionPart(Print(n)) == DigitText(n.fraction)
  {
    var w, p, f, tail := DigitText(n.whole), PointText(n.point), DigitText(n.fraction), ExponentText(n.exponent) + SuText(n.su);
    Unsign(n);
    DigitsFree(n.whole, {SMALL_E, CAPITAL_E, OPEN});
    DigitsFree(n.fraction, {SMALL_E, CAPITAL_E, OPEN});
    TailBegins(n, {SMALL_E, CAPITAL_E, OPEN});
    UpToTail(w, p, f, tail, {SMALL_E, CAPITAL_E, OPEN});
    BehindPoint(n);
  }

  lemma {:induction false} UpToTail(w: Text, p: Text, f: Text, tail: Text, marks: set<Unit>)
    requires Free(w, marks) && Free(p, marks) && Free(f, marks) && UpTo(tail, marks) == []
    ensures UpTo(w + (p + (f + tail)), marks) == w + (p + f)
  {
    PastFree(w, p + (f + tail), marks);
    PastFree(p, f + tail, marks);
    PastFree(f, tail, marks);
    assert f + [] == f;
  }

  lemma {:induction false} BehindPoint(n: Notation)
    requires WellFormed(n)
    ensures Behind(DigitText(n.whole) + (PointText(n.point) + DigitText(n.fraction)), {DOT}) == DigitText(n.fraction)
  {
    var p, f := PointText(n.point), DigitText(n.fraction);
    DigitsFree(n.whole, {DOT});
    PastFree(DigitText(n.whole), p + f, {DOT});
    if n.point {
      assert (p + f)[0] == DOT && (p + f)[1..] == f;
    } else {
      assert p + f == [] == f;
    }
  }

  /** The text before the exponent, which has neither exponent nor uncertainty marks. */
  lemma {:induction false} MantissaFree(n: Notation, marks: set<Unit>)
    requires WellFormed(n) && marks <= {SMALL_E, CAPITAL_E, OPEN}
    ensures Free(SignText(n.sign) + DigitText(n.whole) + PointText(n.point) + DigitText(n.fraction), marks)
  {
    var s, w, p := SignText(n.sign), DigitText(n.whole), PointText(n.point);
    DigitsFree(n.whole, marks);
    DigitsFree(n.fraction, marks);
    SignFree(n.sign, marks);
    FreeConcat(s, w, marks);
    FreeConcat(s + w, p, marks);
    FreeConcat(s + w + p, DigitText(n.fraction), marks);
  }

  lemma {:induction false} ExponentFree(x: Option<Exponent>)
    requires x.Some? ==> DecimalDigits(x.value.digits)
    ensures Free(ExponentText(x), {OPEN})
  {
    if x.Some? {
      var e := x.value;
      var mark: Text := [if e.capital then CAPITAL_E else SMALL_E];
      DigitsFree(e.digits, {OPEN});
      SignFree(e.sign, {OPEN});
      FreeConcat(mark, SignText(e.sign), {OPEN});
      FreeConcat(mark + SignText(e.sign), DigitText(e.digits), {OPEN});
    }
  }

  lemma {:induction false} BeforeSu(n: Notation)
    requires WellFormed(n)
    ensures var body := SignText(n.sign) + DigitText(n.whole) + PointText(n.point) + DigitText(n.fraction) + ExponentText(n.exponent);
      UpTo(Print(n), {OPEN}) == body && Behind(Print(n), {OPEN}) == Behind(SuText(n.su), {OPEN}) && Free(body, {OPEN})
  {
    var m := SignText(n.sign) + DigitText(n.whole) + PointText(n.point) + DigitText(n.fraction);
    MantissaFree(n, {OPEN});
    ExponentFree(n.exponent);
    FreeConcat(m, ExponentText(n.exponent), {OPEN});
    PastFree(m + ExponentText(n.exponent), SuText(n.su), {OPEN});
    assert UpTo(SuText(n.su), {OPEN}) == [];
    assert m + ExponentText(n.exponent) + [] == m + ExponentText(n.exponent);
  }

  lemma {:induction false} ExponentIs(n: Notation)
    requires WellFormed(n)
    ensures ExponentPart(Print(n)) == match n.exponent
      case None => []
      case Some(e) => SignText(e.sign) + DigitText(e.digits)
  {
    var m := SignText(n.sign) + DigitText(n.whole) + PointText(n.point) + DigitText(n.fraction);
    BeforeSu(n);
    MantissaFree(n, {SMALL_E, CAPITAL_E});
    PastFree(m, ExponentText(n.exponent), {SMALL_E, CAPITAL_E});
    if n.exponent.Some? {
      var e := n.exponent.value;
      assert ExponentText(n.exponent)[1..] == SignText(e.sign) + DigitText(e.digits);
    }
  }

  lemma {:induction false} SuIs(n: Notation)
    requires WellFormed(n)
    ensures SuPart(Print(n)) == (match n.su case None => [] case Some(d) => DigitText(d))
    ensures n.su.Some? <==> OPEN in Print(n)
  {
    BeforeSu(n);
    if n.su.Some? {
      var d := DigitText(n.su.value);
      assert SuText(n.su)[1..] == d + [CLOSE];
      DigitsFree(n.su.value, {CLOSE});
      PastFree(d, [CLOSE], {CLOSE});
      assert d + [] == d;
      assert SuText(n.su)[0] == OPEN;
      assert Print(n)[|Print(n)| - |SuText(n.su)|] == OPEN;
    } else {
      assert Print(n) == UpTo(Print(n), {OPEN});
    }
  }

  // Their values

  lemma {:induction false} IntegerOfDigits(d: seq<nat>)
    requires DecimalDigits(d)
    ensures Integer(DigitText(d)) == Dec(d)
    decreases |d|
  {
    if d != [] {
      assert DigitText(d)[1..] == DigitText(d[1..]);
      assert d == [d[0]] + d[1..];
      IntegerOfDigits(d[1..]);
      DecFront(d[0], d[1..]);
    }
  }

  lemma {:induction false} StripValue(d: seq<nat>)
    ensures Dec(Strip(d)) == Dec(d)
  {
    if |d| > 1 && d[0] == 0 {
      assert d == [0] + d[1..];
      DecFront(0, d[1..]);
      StripValue(d[1..]);
    }
  }

  lemma {:induction false} ExponentMeans(n: Notation)
    requires WellFormed(n)
    ensures ExponentOf(Print(n)) == Power(n.exponent)
  {
    ExponentIs(n);
    if n.exponent.Some? {
      SignedPart(n.exponent.value.sign, n.exponent.value.digits);
      IntegerOfDigits(n.exponent.value.digits);
    }
  }

  /** The number that a notation stands for is the one that its characters denote. */
  lemma {:induction false} PrintDenotes(n: Notation)
    requires WellFormed(n)
    ensures Denotes(NumberOf(n), Print(n))
  {
    PrintPlace(n);
    PrintUnits(n);
    SuIs(n);
    if n.su.Some? { PrintSu(n); }
    StrippedDigits(n);
    Assembled(NumberOf(n), Print(n));
  }

  lemma {:induction false} StrippedDigits(n: Notation)
    requires WellFormed(n)
    ensures var m := NumberOf(n);
      && m.digits != [] && DecimalDigits(m.digits) && NoLeadingZero(m.digits) && (m.su.Some? <==> n.su.Some?)
      && (m.su.Some? ==> m.su.value != [] && DecimalDigits(m.su.value) && NoLeadingZero(m.su.value))
  {
  }

  lemma {:induction false} Assembled(m: Number, t: Text)
    requires Dec(m.digits) == UnitsOf(t) && m.negative == Negated(t) && -m.scale == LastPlace(t)
    requires m.digits != [] && DecimalDigits(m.digits) && NoLeadingZero(m.digits)
    requires m.su.Some? <==> OPEN in t
    requires m.su.Some? ==> Dec(m.su.value) == Integer(SuPart(t))
    requires m.su.Some? ==> m.su.value != [] && DecimalDigits(m.su.value) && NoLeadingZero(m.su.value)
    ensures Denotes(m, t)
  {
  }

  lemma {:induction false} PrintPlace(n: Notation)
    requires WellFormed(n)
    ensures -NumberOf(n).scale == LastPlace(Print(n)) && NumberOf(n).negative == Negated(Print(n))
  {
    Unsign(n);
    FractionIs(n);
    ExponentMeans(n);
  }

  lemma {:induction false} PrintUnits(n: Notation)
    requires WellFormed(n)
    ensures Dec(NumberOf(n).digits) == UnitsOf(Print(n))
  {
    WholeIs(n);
    FractionIs(n);
    IntegerOfDigits(n.whole);
    IntegerOfDigits(n.fraction);
    DecConcat(n.whole, n.fraction);
    StripValue(n.whole + n.fraction);
  }

  lemma {:induction false} PrintSu(n: Notation)
    requires WellFormed(n) && n.su.Some?
    ensures Dec(Strip(n.su.value)) == Integer(SuPart(Print(n)))
  {
    SuIs(n);
    IntegerOfDigits(n.su.value);
    StripValue(n.su.value);
  }

  /** What is parsed is the number that the characters denote. */
  lemma {:induction false} ParsedDenotes(t: Text)
    requires NoNul(t) && Parse(t).Some?
    ensures Denotes(NumberOf(Parse(t).value), t)
  {
    Sound(t);
    PrintDenotes(Parse(t).value);
  }

  /** There is one number that some characters denote. */
  lemma {:induction false} DenotesOne(m: Number, m': Number, t: Text)
    requires Denotes(m, t) && Denotes(m', t)
    ensures m == m'
  {
    ScaledInjective(Dec(m.digits), Dec(m'.digits), -m.scale);
    SameDigits(m.digits, m'.digits);
    if m.su.Some? {
      ScaledInjective(Dec(m.su.value), Dec(m'.su.value), -m.scale);
      SameDigits(m.su.value, m'.su.value);
    }
  }

  lemma {:induction false} SameDigits(d: seq<nat>, d': seq<nat>)
    requires d != [] && d' != [] && DecimalDigits(d) && DecimalDigits(d') && NoLeadingZero(d) && NoLeadingZero(d')
    requires Dec(d) == Dec(d')
    ensures d == d'
  {
    NotShorter(d, d');
    NotShorter(d', d);
    DecInjective(d, d');
  }

  lemma {:induction false} NotShorter(d: seq<nat>, d': seq<nat>)
    requires d != [] && d' != [] && DecimalDigits(d) && DecimalDigits(d') && NoLeadingZero(d')
    requires Dec(d) == Dec(d')
    ensures |d'| <= |d|
  {
    if |d'| > |d| {
      DecBound(d);
      PowMonotonic(10, |d|, |d'| - 1);
      AtLeast(d');
    }
  }

  /** A number with a digit other than zero in front. */
  lemma {:induction false} AtLeast(d: seq<nat>)
    requires d != [] && d[0] > 0
    ensures Dec(d) >= Pow(10, |d| - 1)
  {
    assert d == [d[0]] + d[1..];
    DecFront(d[0], d[1..]);
    Grows(Pow(10, |d| - 1), d[0]);
  }
}
