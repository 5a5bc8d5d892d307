/** Formatting numbers in decimal and in scientific notation, and reading them back. */
module NumberFormatter {
  import opened Bignum
  import opened Decimals
  import opened NumberGrammar
  import opened Units
  import opened Values
  import opened Wrappers

  const ARGUMENT_ERROR := 6

  function ZeroDigits(n: nat): (z: seq<nat>)
    ensures |z| == n && forall i :: 0 <= i < n ==> z[i] == 0
  {
    seq(n, i => 0)
  }

  /** Digits and uncertainty without superfluous zeros; rounding may leave no digits, but an empty uncertainty is left out. */
  predicate Canonical(digits: seq<nat>, su: Option<seq<nat>>) {
    && DecimalDigits(digits) && NoLeadingZero(digits)
    && (su.Some? ==> su.value != [] && DecimalDigits(su.value) && NoLeadingZero(su.value))
  }

  predicate Printable(digits: seq<nat>, su: Option<seq<nat>>) {
    DecimalDigits(digits) && (su.Some? ==> su.value != [] && DecimalDigits(su.value))
  }

  /** The decimal notation of a number with no places to the left of its units. */
  function DecimalNotation(negative: bool, digits: seq<nat>, scale: nat, su: Option<seq<nat>>): (n: Notation)
    requires Printable(digits, su) && |digits| + scale > 0
    ensures WellFormed(n)
  {
    var sign := if negative then Minus else NoSign;
    if |digits| <= scale then
      Notation(sign, [0], true, ZeroDigits(scale - |digits|) + digits, None, su)
    else
      var k := |digits| - scale;
      Notation(sign, digits[..k], scale > 0, digits[k..], None, su)
  }

  /** The number of decimal digits, at least one. */
  function DecimalLength(n: nat): (k: nat)
    ensures k >= 1 && n < Pow(10, k)
  {
    if n < 10 then 1 else
      var k := DecimalLength(n / 10);
      assert Pow(10, k + 1) == 10 * Pow(10, k);
      k + 1
  }

  /** The low decimal digits of a number. */
  function LowDigits(n: nat, width: nat): (d: seq<nat>)
    ensures |d| == width && DecimalDigits(d)
  {
    if width == 0 then [] else LowDigits(n / 10, width - 1) + [n % 10]
  }

  lemma {:induction false} LowDigitsValue(n: nat, width: nat)
    requires n < Pow(10, width)
    ensures Dec(LowDigits(n, width)) == n
  {
    if width > 0 {
      LowDigitsValue(n / 10, width - 1);
      var d := LowDigits(n, width);
      assert d[..width - 1] == LowDigits(n / 10, width - 1);
    }
  }

  function Magnitude(a: int): nat { if a < 0 then -a else a }

  function ExponentWidth(place: int): (w: nat)
    ensures w >= 2 && Magnitude(place) < Pow(10, w)
  {
    var k := DecimalLength(Magnitude(place));
    if k < 2 then
      assert Pow(10, 2) == 10 * Pow(10, 1);
      2
    else k
  }

  /** The place of the first digit, or of the zero that stands for no digits. */
  function FirstPlace(digits: seq<nat>, scale: int): int {
    (if digits == [] then 0 else |digits| - 1) - scale
  }

  /** Whether there are digits or not, a number starts with one. */
  function LeadDigit(digits: seq<nat>): seq<nat> {
    if digits == [] then [0] else [digits[0]]
  }

  function OtherDigits(digits: seq<nat>): seq<nat> {
    if digits == [] then [] else digits[1..]
  }

  /** The scientific notation of a number. */
  function SciNotation(negative: bool, digits: seq<nat>, scale: int, su: Option<seq<nat>>): (n: Notation)
    requires Printable(digits, su)
    ensures WellFormed(n)
  {
    var place := FirstPlace(digits, scale);
    var exponent := Exponent(false, if place < 0 then Minus else Plus, LowDigits(Magnitude(place), ExponentWidth(place)));
    Notation(if negative then Minus else NoSign, LeadDigit(digits), |digits| > 1, OtherDigits(digits), Some(exponent), su)
  }

  /** The digits that are read back. */
  function Reread(digits: seq<nat>): seq<nat> {
    if digits == [] then [0] else digits
  }

  // Reading back

  lemma {:induction false} StripZeros(z: seq<nat>, d: seq<nat>)
    requires (forall i :: 0 <= i < |z| ==> z[i] == 0) && d != []
    ensures Strip(z + d) == Strip(d)
  {
    if z == [] {
      assert z + d == d;
    } else {
      assert (z + d)[1..] == z[1..] + d;
      StripZeros(z[1..], d);
    }
  }

  lemma {:induction false} CanonicalSu(su: Option<seq<nat>>)
    requires su.Some? ==> NoLeadingZero(su.value)
    ensures StripSu(su) == su
  {
  }

  lemma {:induction false} Leading(digits: seq<nat>, zeros: nat)
    requires digits != [] && NoLeadingZero(digits)
    ensures Strip([0] + (ZeroDigits(zeros) + digits)) == digits
  {
    var z := [0] + ZeroDigits(zeros);
    assert [0] + (ZeroDigits(zeros) + digits) == z + digits;
    StripZeros(z, digits);
  }

  lemma {:induction false} DecimalMeaning(negative: bool, digits: seq<nat>, scale: nat, su: Option<seq<nat>>)
    requires Canonical(digits, su) && |digits| + scale > 0
    ensures NumberOf(DecimalNotation(negative, digits, scale, su)) == Number(negative, Reread(digits), scale, su)
  {
    var n := DecimalNotation(negative, digits, scale, su);
    CanonicalSu(su);
    if digits == [] {
      assert n.whole + n.fraction == ZeroDigits(scale) + [0];
      StripZeros(ZeroDigits(scale), [0]);
    } else if |digits| <= scale {
      Leading(digits, scale - |digits|);
    } else {
      assert digits[..|digits| - scale] + digits[|digits| - scale..] == digits;
    }
  }

  lemma {:induction false} SciMeaning(negative: bool, digits: seq<nat>, scale: int, su: Option<seq<nat>>)
    requires Canonical(digits, su)
    ensures NumberOf(SciNotation(negative, digits, scale, su)) == Number(negative, Reread(digits), scale, su)
  {
    var place := FirstPlace(digits, scale);
    CanonicalSu(su);
    LowDigitsValue(Magnitude(place), ExponentWidth(place));
    assert LeadDigit(digits) + OtherDigits(digits) == Reread(digits);
  }

  /**
   A number formatted in decimal notation is read back with the same sign,
   scale and uncertainty, and with the same digits exactly if there are any;
   otherwise as a zero.
   */
  lemma {:induction false} DecimalReadBack(negative: bool, digits: seq<nat>, scale: nat, su: Option<seq<nat>>)
    requires Canonical(digits, su) && |digits| + scale > 0
    ensures var r := Parse(Print(DecimalNotation(negative, digits, scale, su)));
      && r.Some? && (NumberOf(r.value) == Number(negative, digits, scale, su) <==> digits != [])
      && (digits == [] ==> NumberOf(r.value) == Number(negative, [0], scale, su))
  {
    Complete(DecimalNotation(negative, digits, scale, su));
    DecimalMeaning(negative, digits, scale, su);
  }

  /** The same of scientific notation. */
  lemma {:induction false} SciReadBack(negative: bool, digits: seq<nat>, scale: int, su: Option<seq<nat>>)
    requires Canonical(digits, su)
    ensures var r := Parse(Print(SciNotation(negative, digits, scale, su)));
      && r.Some? && (NumberOf(r.value) == Number(negative, digits, scale, su) <==> digits != [])
      && (digits == [] ==> NumberOf(r.value) == Number(negative, [0], scale, su))
  {
    Complete(SciNotation(negative, digits, scale, su));
    SciMeaning(negative, digits, scale, su);
  }

  // Formatting

  /** Appends a digit string. */
  method CopyDigits(text0: Text, digits: seq<nat>) returns (text: Text)
    requires DecimalDigits(digits)
    ensures text == text0 + DigitText(digits)
  {
    text := text0;
    var i := 0;
    while i < |digits|
      invariant 0 <= i <= |digits|
      invariant text == text0 + DigitText(digits)[..i]
    {
      text := text + [(digits[i] + ZERO) as Unit];
      i := i + 1;
    }
    assert DigitText(digits)[..i] == DigitText(digits);
  }

  /** Appends zeros. */
  method WriteZeros(text0: Text, n: nat) returns (text: Text)
    ensures text == text0 + DigitText(ZeroDigits(n))
  {
    text := text0;
    var whole: int := 0 - n;
    while whole < 0
      invariant n + whole >= 0 && whole <= 0
      invariant text == text0 + DigitText(ZeroDigits(n))[..n + whole]
    {
      text := text + [ZERO];
      whole := whole + 1;
    }
    assert DigitText(ZeroDigits(n))[..n] == DigitText(ZeroDigits(n));
  }

  method WriteSign(negative: bool) returns (text: Text)
    ensures text == SignText(if negative then Minus else NoSign)
  {
    text := if negative then [MINUS] else [];
  }

  method WriteSu(text0: Text, su: Option<seq<nat>>) returns (text: Text)
    requires su.Some? ==> DecimalDigits(su.value)
    ensures text == text0 + SuText(su)
  {
    text := text0;
    if su.Some? {
      text := text + [OPEN];
      text := CopyDigits(text, su.value);
      text := text + [CLOSE];
    }
  }

  /** The length allowed for, with its terminator. */
  function DecimalChars(negative: bool, digits: seq<nat>, scale: nat, su: Option<seq<nat>>): nat {
    (if negative then 1 else 0) + (if |digits| <= scale then scale + 1 else |digits|) + (if scale == 0 then 0 else 1)
    + (if su.Some? then |su.value| + 2 else 0) + 1
  }

  lemma {:induction false} DecimalCount(negative: bool, digits: seq<nat>, scale: nat, su: Option<seq<nat>>)
    requires Printable(digits, su) && |digits| + scale > 0
    ensures DecimalChars(negative, digits, scale, su) == |Print(DecimalNotation(negative, digits, scale, su))| + 1
  {
  }

  lemma {:induction false} DigitTextConcat(a: seq<nat>, b: seq<nat>)
    requires DecimalDigits(a) && DecimalDigits(b)
    ensures DigitText(a + b) == DigitText(a) + DigitText(b)
  {
  }

  /** Writes the digits around the decimal point. */
  method WriteDecimalDigits(text0: Text, digits: seq<nat>, scale: nat) returns (text: Text)
    requires DecimalDigits(digits) && |digits| + scale > 0
    ensures var n := DecimalNotation(false, digits, scale, None);
      text == text0 + (DigitText(n.whole) + PointText(n.point) + DigitText(n.fraction))
  {
    var whole := |digits| - scale;
    if whole <= 0 {
      assert DigitText([0]) == [ZERO];
      DigitTextConcat(ZeroDigits(-whole), digits);
      text := WriteZeros(text0 + [ZERO] + [DOT], -whole);
      text := CopyDigits(text, digits);
    } else {
      text := CopyDigits(text0, digits[..whole]);
      if scale > 0 { text := text + [DOT]; }
      text := CopyDigits(text, digits[whole..]);
    }
  }

  /** Formats a number in decimal notation, unless the text would exceed the length of a line. */
  method FormatDecimal(negative: bool, digits: seq<nat>, scale: nat, su: Option<seq<nat>>) returns (r: Result<Text, int>)
    requires Printable(digits, su) && |digits| + scale > 0
    ensures var text := Print(DecimalNotation(negative, digits, scale, su));
      r == if |text| <= LINE_LENGTH then Ok(text) else Err(ARGUMENT_ERROR)
  {
    DecimalCount(negative, digits, scale, su);
    if DecimalChars(negative, digits, scale, su) <= LINE_LENGTH + 1 {
      var sign := WriteSign(negative);
      var text := WriteDecimalDigits(sign, digits, scale);
      ghost var n := DecimalNotation(negative, digits, scale, su);
      assert text + ExponentText(None) == text;
      ghost var body := text;
      text := WriteSu(text, su);
      Regroup(SignText(n.sign), DigitText(n.whole), PointText(n.point), DigitText(n.fraction), SuText(su), body, text);
      r := Ok(text);
    } else {
      r := Err(ARGUMENT_ERROR);
    }
  }

  lemma {:induction false} Regroup(a: Text, b: Text, c: Text, d: Text, u: Text, body: Text, text: Text)
    requires body == a + (b + c + d) && text == body + u
    ensures text == a + b + c + d + [] + u
  {
  }

  /** Writes the exponent digits, last first. */
  method WriteExponent(place: int, width: nat) returns (text: Text)
    requires Magnitude(place) < Pow(10, width)
    ensures text == [SMALL_E] + SignText(if place < 0 then Minus else Plus) + DigitText(LowDigits(Magnitude(place), width))
  {
    var rest: nat := Magnitude(place);
    text := [SMALL_E] + if place < 0 then [MINUS] else [PLUS];
    var digits: seq<nat> := [];
    var i := width;
    assert DigitText([]) == [];
    while i > 0
      invariant 0 <= i <= width && DecimalDigits(digits)
      invariant LowDigits(rest, i) + digits == LowDigits(Magnitude(place), width)
    {
      LowStep(rest, i, digits);
      digits := [rest % 10] + digits;
      rest := rest / 10;
      i := i - 1;
    }
    assert LowDigits(rest, 0) + digits == digits;
    text := CopyDigits(text, digits);
  }

  lemma {:induction false} LowStep(n: nat, i: nat, digits: seq<nat>)
    requires i > 0
    ensures LowDigits(n, i) + digits == LowDigits(n / 10, i - 1) + ([n % 10] + digits)
  {
  }

  function SciChars(negative: bool, digits: seq<nat>, width: nat, su: Option<seq<nat>>): nat {
    (if negative then 1 else 0) + (if |digits| > 1 then |digits| + 1 else 1) + width + 2
    + (if su.Some? then |su.value| + 2 else 0) + 1
  }

  lemma {:induction false} SciCount(negative: bool, digits: seq<nat>, scale: int, su: Option<seq<nat>>)
    requires Printable(digits, su)
    ensures SciChars(negative, digits, ExponentWidth(FirstPlace(digits, scale)), su)
      == |Print(SciNotation(negative, digits, scale, su))| + 1
  {
  }

  /** Writes the first digit, or else a zero, and the others behind a decimal point. */
  method WriteSciDigits(text0: Text, digits: seq<nat>) returns (text: Text)
    requires DecimalDigits(digits)
    ensures text == text0 + (DigitText(LeadDigit(digits)) + PointText(|digits| > 1) + DigitText(OtherDigits(digits)))
  {
    assert DigitText([]) == [];
    if digits != [] {
      text := CopyDigits(text0, [digits[0]]);
      if |digits| > 1 {
        text := CopyDigits(text + [DOT], digits[1..]);
      }
    } else {
      text := text0 + [ZERO];
      assert DigitText([0]) == [ZERO];
    }
  }

  lemma {:induction false} RegroupSci(a: Text, b: Text, c: Text, d: Text, x: Text, u: Text, body: Text, text: Text)
    requires body == a + (b + c + d) && text == body + x + u
    ensures text == a + b + c + d + x + u
  {
  }

  /**
   Formats a number in scientific notation, unless the text would exceed the
   length of a line.  Without any digits it aborts on an assertion, if these
   are compiled in.
   */
  method FormatSci(negative: bool, digits: seq<nat>, scale: int, su: Option<seq<nat>>, asserts: bool)
    returns (aborted: bool, r: Result<Text, int>)
    requires Printable(digits, su)
    ensures aborted <==> asserts && digits == []
    ensures var text := Print(SciNotation(negative, digits, scale, su));
      !aborted ==> r == if |text| <= LINE_LENGTH then Ok(text) else Err(ARGUMENT_ERROR)
  {
    var place := FirstPlace(digits, scale);
    var width := ExponentWidth(place);
    if asserts && |digits| == 0 {
      return true, Err(ARGUMENT_ERROR);
    }
    aborted := false;
    SciCount(negative, digits, scale, su);
    if SciChars(negative, digits, width, su) <= LINE_LENGTH + 1 {
      var sign := WriteSign(negative);
      var body := WriteSciDigits(sign, digits);
      var exponent := WriteExponent(place, width);
      var text := WriteSu(body + exponent, su);
      RegroupSci(sign, DigitText(LeadDigit(digits)), PointText(|digits| > 1), DigitText(OtherDigits(digits)), exponent,
                 SuText(su), body, text);
      r := Ok(text);
    } else {
      r := Err(ARGUMENT_ERROR);
    }
  }
}
