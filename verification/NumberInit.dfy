/**
 cif_value_init_numb: a number value from doubles, with its digits and its
 text; and when the two agree.
 */
module NumberInit {
  import opened Bignum
  import opened Decimals
  import opened DoubleScaling
  import opened NumberFormatter
  import opened NumberGrammar
  import opened NumberMeaning
  import opened Rounding
  import opened ToDigits
  import opened Units
  import opened Values
  import opened Wrappers

  /** Aborted stands for a failed assertion. */
  datatype Init = Refused(code: int) | Aborted | Made(value: Value)

  /** The digits of the uncertainty; a zero one, or one without digits at the scale, is left out. */
  method SuDigits(m: nat, e: int, scale: int) returns (su: Option<seq<nat>>)
    requires (m == 0 || IsDouble(m, e)) && MIN_SCALE <= scale <= MAX_SCALE
    ensures su.None? <==> m == 0 || Emptied(m, e, scale)
    ensures su.Some? ==> su.value != [] && DecimalDigits(su.value) && NoLeadingZero(su.value)
    ensures su.Some? ==> RoundsTo(Numerator(m, e, scale), Denominator(e, scale), Dec(su.value))
  {
    su := None;
    if m > 0 {
      var digits := ToDigits.ToDigits(m, e, scale);
      if |digits| > 0 { su := Some(digits); }
    }
  }

  /** The notation that is chosen, given the most significant place of the value. */
  function Chosen(negative: bool, digits: seq<nat>, scale: int, su: Option<seq<nat>>, place: int, maxZeros: int): Notation
    requires Printable(digits, su) && (scale >= 0 ==> |digits| + scale > 0)
  {
    if scale >= 0 && -(place + 1) <= maxZeros then DecimalNotation(negative, digits, scale, su)
    else SciNotation(negative, digits, scale, su)
  }

  /** Formats the text in the notation chosen. */
  method Format(negative: bool, digits: seq<nat>, scale: int, su: Option<seq<nat>>, place: int, maxZeros: int, asserts: bool)
    returns (aborted: bool, r: Result<Text, int>)
    requires Printable(digits, su) && (scale >= 0 ==> |digits| + scale > 0)
    ensures aborted <==> asserts && digits == [] && !(scale >= 0 && -(place + 1) <= maxZeros)
    ensures var text := Print(Chosen(negative, digits, scale, su, place, maxZeros));
      !aborted ==> r == if |text| <= LINE_LENGTH then Ok(text) else Err(ARGUMENT_ERROR)
  {
    aborted := false;
    if scale >= 0 && -(place + 1) <= maxZeros {
      r := FormatDecimal(negative, digits, scale, su);
    } else {
      aborted, r := FormatSci(negative, digits, scale, su, asserts);
    }
  }

  lemma {:induction false} ChosenReadBack(negative: bool, digits: seq<nat>, scale: int, su: Option<seq<nat>>, place: int, maxZeros: int)
    requires Canonical(digits, su) && (scale >= 0 ==> |digits| + scale > 0)
    ensures var r := Parse(Print(Chosen(negative, digits, scale, su, place, maxZeros)));
      && r.Some? && (NumberOf(r.value) == Number(negative, digits, scale, su) <==> digits != [])
      && NumberOf(r.value) == Number(negative, NumberFormatter.Reread(digits), scale, su)
  {
    if scale >= 0 && -(place + 1) <= maxZeros {
      DecimalReadBack(negative, digits, scale, su);
    } else {
      SciReadBack(negative, digits, scale, su);
    }
  }

  /** Scale zero is at the end of a base 10^9 digit, so that some digit is left. */
  lemma {:induction false} NotEmptiedAtZero(m: nat, e: int)
    ensures !Emptied(m, e, 0)
  {
    assert RoundPosition(0) == 0;
  }

  // The form of the text

  /** Too many zeros would lead the number, or its last digit is left of the units. */
  predicate NeedsExponent(scale: int, place: int, maxZeros: int) {
    scale < 0 || -(place + 1) > maxZeros
  }

  predicate HasMark(t: Text, marks: set<Unit>) {
    exists i :: 0 <= i < |t| && t[i] in marks
  }

  /** The number of characters, with a terminator. */
  function TextChars(exponent: bool, negative: bool, digits: seq<nat>, scale: int, su: Option<seq<nat>>): nat
    requires !exponent ==> scale >= 0
  {
    if exponent then SciChars(negative, digits, ExponentWidth(FirstPlace(digits, scale)), su)
    else DecimalChars(negative, digits, scale, su)
  }

  /**
   An exponent is written if it is needed: behind one digit, or one digit, a point and the others.
   Otherwise there are as many digits behind the point as the scale says, and no point if there are none.
   */
  predicate HasForm(t: Text, exponent: bool, digits: seq<nat>, scale: int) {
    && (HasMark(t, {SMALL_E, CAPITAL_E}) <==> exponent)
    && (exponent ==> |WholePart(t)| == 1 && |FractionPart(t)| == |OtherDigits(digits)| && |Unsigned(ExponentPart(t))| >= 2)
    && (!exponent ==> |FractionPart(t)| == scale && WholePart(t) != [] && (HasMark(t, {DOT}) <==> scale > 0))
  }

  lemma {:induction false} NoMarks(t: Text, marks: set<Unit>)
    ensures HasMark(t, marks) <==> !Free(t, marks)
  {
  }

  lemma {:induction false} MarksConcat(a: Text, b: Text, marks: set<Unit>)
    ensures HasMark(a + b, marks) <==> HasMark(a, marks) || HasMark(b, marks)
  {
    if HasMark(a, marks) {
      var i :| 0 <= i < |a| && a[i] in marks;
      assert (a + b)[i] in marks;
    }
    if HasMark(b, marks) {
      var i :| 0 <= i < |b| && b[i] in marks;
      assert (a + b)[|a| + i] in marks;
    }
  }

  lemma {:induction false} SuFree(su: Option<seq<nat>>, marks: set<Unit>)
    requires su.Some? ==> DecimalDigits(su.value)
    requires marks <= {SMALL_E, CAPITAL_E, DOT}
    ensures Free(SuText(su), marks)
  {
    if su.Some? {
      DigitsFree(su.value, marks);
      FreeConcat([OPEN], DigitText(su.value), marks);
      FreeConcat([OPEN] + DigitText(su.value), [CLOSE], marks);
    }
  }

  lemma {:induction false} ExponentMarked(n: Notation)
    requires WellFormed(n)
    ensures HasMark(Print(n), {SMALL_E, CAPITAL_E}) <==> n.exponent.Some?
  {
    var marks: set<Unit> := {SMALL_E, CAPITAL_E};
    var m := SignText(n.sign) + DigitText(n.whole) + PointText(n.point) + DigitText(n.fraction);
    var x := ExponentText(n.exponent);
    MantissaFree(n, marks);
    SuFree(n.su, marks);
    NoMarks(m, marks);
    NoMarks(SuText(n.su), marks);
    MarksConcat(m, x, marks);
    MarksConcat(m + x, SuText(n.su), marks);
    if n.exponent.Some? { assert x[0] in marks; }
  }

  /** A notation without an exponent contains a point if it is written. */
  lemma {:induction false} PointMarked(n: Notation)
    requires WellFormed(n) && n.exponent.None?
    ensures HasMark(Print(n), {DOT}) <==> n.point
  {
    var s, w, p, f := SignText(n.sign), DigitText(n.whole), PointText(n.point), DigitText(n.fraction);
    SuFree(n.su, {DOT});
    DigitsFree(n.whole, {DOT});
    DigitsFree(n.fraction, {DOT});
    NoMarks(SuText(n.su), {DOT});
    NoMarks(w, {DOT});
    NoMarks(f, {DOT});
    MarksConcat(s, w, {DOT});
    MarksConcat(s + w, p, {DOT});
    MarksConcat(s + w + p, f, {DOT});
    MarksConcat(s + w + p + f, [], {DOT});
    MarksConcat(s + w + p + f + [], SuText(n.su), {DOT});
    if n.point { assert p[0] in {DOT}; }
  }

  lemma {:induction false} DecimalForm(negative: bool, digits: seq<nat>, scale: nat, su: Option<seq<nat>>)
    requires Printable(digits, su) && |digits| + scale > 0
    ensures HasForm(Print(DecimalNotation(negative, digits, scale, su)), false, digits, scale)
  {
    var n := DecimalNotation(negative, digits, scale, su);
    ExponentMarked(n);
    PointMarked(n);
    WholeIs(n);
    FractionIs(n);
  }

  lemma {:induction false} SciForm(negative: bool, digits: seq<nat>, scale: int, su: Option<seq<nat>>)
    requires Printable(digits, su)
    ensures HasForm(Print(SciNotation(negative, digits, scale, su)), true, digits, scale)
  {
    var n := SciNotation(negative, digits, scale, su);
    ExponentMarked(n);
    WholeIs(n);
    FractionIs(n);
    ExponentIs(n);
    SignedPart(n.exponent.value.sign, n.exponent.value.digits);
  }

  lemma {:induction false} ChosenForm(negative: bool, digits: seq<nat>, scale: int, su: Option<seq<nat>>, place: int, maxZeros: int)
    requires Printable(digits, su) && (scale >= 0 ==> |digits| + scale > 0)
    ensures var t, exponent := Print(Chosen(negative, digits, scale, su, place, maxZeros)), NeedsExponent(scale, place, maxZeros);
      HasForm(t, exponent, digits, scale) && TextChars(exponent, negative, digits, scale, su) == |t| + 1
  {
    if NeedsExponent(scale, place, maxZeros) {
      SciForm(negative, digits, scale, su);
      SciCount(negative, digits, scale, su);
    } else {
      DecimalForm(negative, digits, scale, su);
      DecimalCount(negative, digits, scale, su);
    }
  }

  /** The digits of a double at a scale: correctly rounded, without superfluous zeros, and none only where none are left. */
  ghost predicate Rounded(m: nat, e: int, scale: int, digits: seq<nat>) {
    && DecimalDigits(digits) && NoLeadingZero(digits) && (digits == [] <==> Emptied(m, e, scale))
    && RoundsTo(Numerator(m, e, scale), Denominator(e, scale), Dec(digits))
  }

  ghost predicate RoundedSu(m: nat, e: int, scale: int, su: Option<seq<nat>>) {
    && (su.None? <==> m == 0 || Emptied(m, e, scale))
    && (su.Some? ==> Rounded(m, e, scale, su.value))
  }

  /** There is one string of digits for a double and a scale. */
  lemma {:induction false} RoundedUnique(m: nat, e: int, scale: int, digits: seq<nat>, digits': seq<nat>)
    requires Rounded(m, e, scale, digits) && Rounded(m, e, scale, digits')
    ensures digits == digits'
  {
    if digits != [] {
      RoundsToUnique(Numerator(m, e, scale), Denominator(e, scale), Dec(digits), Dec(digits'));
      SameDigits(digits, digits');
    }
  }

  /**
   What comes of valid arguments and their digits: an abort exactly on an exponent without digits where
   assertions are compiled in, a refusal exactly of a text longer than a line, and else a value in the form needed.
   */
  predicate Initialized(r: Init, negative: bool, digits: seq<nat>, su: Option<seq<nat>>, scale: int, exponent: bool, asserts: bool)
    requires !exponent ==> scale >= 0
  {
    var chars := TextChars(exponent, negative, digits, scale, su);
    if asserts && exponent && digits == [] then r == Aborted
    else if chars > LINE_LENGTH + 1 then r == Refused(ARGUMENT_ERROR)
    else
      && r.Made? && r.value.Numb? && !r.value.quoted && r.value.number == Number(negative, digits, scale, su)
      && |r.value.text| == chars - 1 && HasForm(r.value.text, exponent, digits, scale)
  }

  /**
   The value is made from the correctly rounded digits, and its text parses to
   the same sign, scale and uncertainty; the digits in its text are those that
   it stores, exactly if the double is not one that leaves no digits.  It has
   an exponent exactly if the scale is negative or too many zeros would lead,
   and is refused exactly if it is longer than a line.  place is the most
   significant place of the value.
   */
  method InitNumb(negative: bool, m: nat, e: int, suNegative: bool, suM: nat, suE: int, scale: int, place: int, maxZeros: int,
                  asserts: bool)
    returns (r: Init)
    requires (m == 0 || IsDouble(m, e)) && (suM == 0 || IsDouble(suM, suE))
    ensures suNegative || scale < MIN_SCALE || scale > MAX_SCALE || maxZeros < 0 ==> r == Refused(ARGUMENT_ERROR)
    ensures r == Aborted <==>
      && !suNegative && MIN_SCALE <= scale <= MAX_SCALE && maxZeros >= 0
      && asserts && Emptied(m, e, scale) && !(scale >= 0 && -(place + 1) <= maxZeros)
    ensures r.Made? ==>
      && MIN_SCALE <= scale <= MAX_SCALE && r.value.Numb? && !r.value.quoted
      && var (text, n) := (r.value.text, r.value.number);
      && |text| <= LINE_LENGTH && n.negative == negative && n.scale == scale
      && RoundsTo(Numerator(m, e, scale), Denominator(e, scale), Dec(n.digits))
      && (n.su.None? <==> suM == 0 || Emptied(suM, suE, scale))
      && (n.su.Some? ==> RoundsTo(Numerator(suM, suE, scale), Denominator(suE, scale), Dec(n.su.value)))
      && Parse(text).Some? && (NumberOf(Parse(text).value) == n <==> !Emptied(m, e, scale))
      && NumberOf(Parse(text).value) == n.(digits := NumberFormatter.Reread(n.digits))
    ensures r.Refused? ==> r.code == ARGUMENT_ERROR
    ensures !suNegative && MIN_SCALE <= scale <= MAX_SCALE && maxZeros >= 0 ==>
      exists digits, su :: Rounded(m, e, scale, digits) && RoundedSu(suM, suE, scale, su)
        && Initialized(r, negative, digits, su, scale, NeedsExponent(scale, place, maxZeros), asserts)
  {
    if suNegative || scale < MIN_SCALE || scale > MAX_SCALE || maxZeros < 0 {
      return Refused(ARGUMENT_ERROR);
    }
    var digits := ToDigits.ToDigits(m, e, scale);
    var su := SuDigits(suM, suE, scale);
    NotEmptiedAtZero(m, e);
    var aborted, text := Format(negative, digits, scale, su, place, maxZeros, asserts);
    ChosenReadBack(negative, digits, scale, su, place, maxZeros);
    ChosenForm(negative, digits, scale, su, place, maxZeros);
    if aborted {
      r := Aborted;
    } else if text.Err? {
      r := Refused(text.error);
    } else {
      r := Made(Numb(text.value, false, Number(negative, digits, scale, su)));
    }
    assert Rounded(m, e, scale, digits) && RoundedSu(suM, suE, scale, su);
    assert Initialized(r, negative, digits, su, scale, NeedsExponent(scale, place, maxZeros), asserts);
  }
}
