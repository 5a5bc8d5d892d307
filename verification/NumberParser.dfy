/** Parsing the text of a number: the scanning loops of cif_value_parse_numb. */
module NumberParser {
  import opened Decimals
  import opened NumberGrammar
  import opened NumberMeaning
  import opened Units
  import opened Values
  import opened Wrappers

  const INVALID_NUMBER := 72

  /** Advances over a digit string with at most one decimal point. */
  method ScanNumber(t: Text, start: nat) returns (pos: nat, points: nat, point: nat)
    requires start <= |t|
    ensures var w := DigitsEnd(t, start);
      && pos == FractionEnd(t, w) && points == (if UnitAt(t, w) == DOT then 1 else 0) && (points == 1 ==> point == w)
  {
    pos, points, point := start, 0, 0;
    while IsDigitUnit(UnitAt(t, pos)) || (UnitAt(t, pos) == DOT && points == 0)
      invariant start <= pos <= |t| && points <= 1
      invariant points == 0 ==> forall i :: start <= i < pos ==> IsDigitUnit(t[i])
      invariant points == 1 ==> start <= point < pos && t[point] == DOT
      invariant points == 1 ==> forall i :: start <= i < pos && i != point ==> IsDigitUnit(t[i])
      decreases |t| - pos
    {
      if t[pos] == DOT {
        points := 1;
        point := pos;
      }
      pos := pos + 1;
    }
    if points == 0 {
      DigitsEndIs(t, start, pos);
    } else {
      DigitsEndIs(t, start, point);
      DigitsEndIs(t, point + 1, pos);
    }
  }

  /** The digits from one index to another, without a decimal point. */
  function DigitsBetween(t: Text, start: nat, end: nat, points: nat, point: nat): (d: seq<nat>)
    requires start <= end <= |t|
    requires forall i :: start <= i < end && !(points == 1 && i == point) ==> IsDigitUnit(t[i])
    ensures DecimalDigits(d)
    decreases end - start
  {
    if start == end then []
    else if points == 1 && start == point then DigitsBetween(t, start + 1, end, points, point)
    else
      assert IsDigitUnit(t[start]);
      [(t[start] - ZERO) as nat] + DigitsBetween(t, start + 1, end, points, point)
  }

  lemma {:induction false} PlainDigits(t: Text, start: nat, end: nat, points: nat, point: nat)
    requires start <= end <= |t| && (points == 1 ==> !(start <= point < end))
    requires forall i :: start <= i < end ==> IsDigitUnit(t[i])
    ensures DigitsBetween(t, start, end, points, point) == DigitValues(t[start..end])
    decreases end - start
  {
    if start < end {
      PlainDigits(t, start + 1, end, points, point);
      FirstValue(t, start, end);
    }
  }

  lemma {:induction false} FirstValue(t: Text, start: nat, end: nat)
    requires start < end <= |t| && forall i :: start <= i < end ==> IsDigitUnit(t[i])
    ensures DigitValues(t[start..end]) == [(t[start] - ZERO) as nat] + DigitValues(t[start + 1..end])
  {
    assert t[start..end] == [t[start]] + t[start + 1..end];
  }

  /** The digits around a decimal point. */
  lemma {:induction false} PointedDigits(t: Text, start: nat, end: nat, point: nat)
    requires start <= point < end <= |t|
    requires forall i :: start <= i < end && i != point ==> IsDigitUnit(t[i])
    ensures DigitsBetween(t, start, end, 1, point) == DigitValues(t[start..point]) + DigitValues(t[point + 1..end])
    decreases point - start
  {
    if start == point {
      PlainDigits(t, start + 1, end, 1, point);
    } else {
      PointedDigits(t, start + 1, end, point);
      FirstValue(t, start, point);
    }
  }

  lemma {:induction false} SomeDigits(t: Text, start: nat, end: nat, points: nat, point: nat)
    requires start < end <= |t| && !(points == 1 && end - 1 == point)
    requires forall i :: start <= i < end && !(points == 1 && i == point) ==> IsDigitUnit(t[i])
    ensures DigitsBetween(t, start, end, points, point) != []
    decreases end - start
  {
    if start < end - 1 { SomeDigits(t, start + 1, end, points, point); }
  }

  /** Skips insignificant zeros, and the decimal point among them. */
  method SkipZeros(t: Text, start0: nat, end: nat, points: nat, point: nat) returns (start: nat)
    requires start0 < end <= |t| && !(points == 1 && end - 1 == point)
    requires points == 1 && start0 <= point < end ==> t[point] == DOT
    requires forall i :: start0 <= i < end && !(points == 1 && i == point) ==> IsDigitUnit(t[i])
    ensures start0 <= start < end
    ensures DigitsBetween(t, start, end, points, point) == Strip(DigitsBetween(t, start0, end, points, point))
  {
    ghost var goal := Strip(DigitsBetween(t, start0, end, points, point));
    start := start0;
    while (t[start] == ZERO || t[start] == DOT) && start < end - 1
      invariant start0 <= start < end
      invariant Strip(DigitsBetween(t, start, end, points, point)) == goal
    {
      SomeDigits(t, start + 1, end, points, point);
      StripStep(t, start, end, points, point);
      start := start + 1;
    }
    Stripped(t, start, end, points, point);
  }

  lemma {:induction false} StripStep(t: Text, start: nat, end: nat, points: nat, point: nat)
    requires start + 1 < end <= |t|
    requires forall i :: start <= i < end && !(points == 1 && i == point) ==> IsDigitUnit(t[i])
    requires (t[start] == ZERO || t[start] == DOT) && DigitsBetween(t, start + 1, end, points, point) != []
    ensures Strip(DigitsBetween(t, start, end, points, point)) == Strip(DigitsBetween(t, start + 1, end, points, point))
  {
    var d := DigitsBetween(t, start, end, points, point);
    if !(points == 1 && start == point) {
      assert d[1..] == DigitsBetween(t, start + 1, end, points, point);
    }
  }

  lemma {:induction false} Stripped(t: Text, start: nat, end: nat, points: nat, point: nat)
    requires start < end <= |t| && !(points == 1 && end - 1 == point)
    requires points == 1 && start <= point < end ==> t[point] == DOT
    requires forall i :: start <= i < end && !(points == 1 && i == point) ==> IsDigitUnit(t[i])
    requires !((t[start] == ZERO || t[start] == DOT) && start < end - 1)
    ensures var d := DigitsBetween(t, start, end, points, point); Strip(d) == d
  {
  }

  /** Copies the digits, skipping over the decimal point. */
  method CopyDigits(t: Text, start: nat, end: nat, points: nat, point: nat) returns (digits: seq<nat>)
    requires start <= end <= |t|
    requires forall i :: start <= i < end && !(points == 1 && i == point) ==> IsDigitUnit(t[i])
    ensures digits == DigitsBetween(t, start, end, points, point)
  {
    digits := [];
    ghost var goal := DigitsBetween(t, start, end, points, point);
    var pos := start;
    while pos < end
      invariant start <= pos <= end
      invariant goal == digits + DigitsBetween(t, pos, end, points, point)
    {
      if !(points == 1 && pos == point) {
        digits := digits + [(t[pos] - ZERO) as nat];
      }
      pos := pos + 1;
    }
  }

  /** The mantissa: digits without superfluous zeros, and how many are behind the decimal point. */
  method ReadMantissa(t: Text, start: nat) returns (found: bool, digits: seq<nat>, places: nat, pos: nat)
    requires start <= |t|
    ensures var w := DigitsEnd(t, start); var point := UnitAt(t, w) == DOT;
      && pos == FractionEnd(t, w)
      && (found <==> pos - start != if point then 1 else 0)
      && (found ==> digits == Strip(ValuesAt(t, start) + FractionAt(t, w)) && places == |FractionAt(t, w)|)
  {
    var points, point;
    ghost var w := DigitsEnd(t, start);
    pos, points, point := ScanNumber(t, start);
    found, digits, places := false, [], 0;
    if pos <= start + points {
      return;
    }
    found := true;
    var end := pos;
    if t[pos - 1] == DOT {
      points := 0;
      end := pos - 1;
    }
    MantissaDigits(t, start, end, points, point);
    var first := SkipZeros(t, start, end, points, point);
    places := if points == 1 then end - (point + 1) else 0;
    digits := CopyDigits(t, first, end, points, point);
  }

  /** What is between the ends of the mantissa: the digits before and after the decimal point. */
  lemma {:induction false} MantissaDigits(t: Text, start: nat, end: nat, points: nat, point: nat)
    requires start < end <= |t| && points <= 1
    requires var w := DigitsEnd(t, start);
      if points == 1 then point == w < |t| && t[w] == DOT && end == DigitsEnd(t, w + 1)
      else end == w
    ensures forall i :: start <= i < end && !(points == 1 && i == point) ==> IsDigitUnit(t[i])
    ensures DigitsBetween(t, start, end, points, point)
      == ValuesAt(t, start) + if points == 1 then ValuesAt(t, point + 1) else []
  {
    if points == 1 {
      PointedDigits(t, start, end, point);
    } else {
      PlainDigits(t, start, end, points, point);
      assert ValuesAt(t, start) + [] == ValuesAt(t, start);
    }
  }

  /** Advances over digits, accumulating their value. */
  method ReadInteger(t: Text, start: nat) returns (value: nat, pos: nat)
    requires start <= |t|
    ensures pos == DigitsEnd(t, start) && value == Dec(ValuesAt(t, start))
  {
    value, pos := 0, start;
    assert DigitValues(t[start..pos]) == [];
    while IsDigitUnit(UnitAt(t, pos))
      invariant start <= pos <= |t| && forall i :: start <= i < pos ==> IsDigitUnit(t[i])
      invariant value == Dec(DigitValues(t[start..pos]))
      decreases |t| - pos
    {
      OneMore(t, start, pos);
      value := value * 10 + (t[pos] - ZERO) as nat;
      pos := pos + 1;
    }
    DigitsEndIs(t, start, pos);
  }

  lemma {:induction false} OneMore(t: Text, start: nat, pos: nat)
    requires start <= pos < |t| && forall i :: start <= i <= pos ==> IsDigitUnit(t[i])
    ensures Dec(DigitValues(t[start..pos + 1])) == Dec(DigitValues(t[start..pos])) * 10 + (t[pos] - ZERO)
  {
    var d := DigitValues(t[start..pos + 1]);
    assert d[..|d| - 1] == DigitValues(t[start..pos]);
  }

  /** The optional sign. */
  method ReadSign(t: Text, p: nat) returns (sign: int, pos: nat)
    requires p <= |t|
    ensures pos == SignEnd(t, p) && sign == if SignAt(t, p).Minus? then -1 else 1
  {
    sign, pos := 1, p;
    if UnitAt(t, pos) == MINUS {
      sign := -1;
      pos := pos + 1;
    } else if UnitAt(t, pos) == PLUS {
      pos := pos + 1;
    }
  }

  /** The optional exponent, as the scale that it contributes. */
  method ReadExponent(t: Text, p: nat) returns (ok: bool, scale: int, pos: nat)
    requires p <= |t|
    ensures ok <==> ParseExponent(t, p).Some?
    ensures ok ==> pos == ParseExponent(t, p).value.1 && scale == -Power(ParseExponent(t, p).value.0)
  {
    ok, scale, pos := true, 0, p;
    if IsExponentMark(UnitAt(t, p)) {
      pos := pos + 1;
      var sign;
      sign, pos := ReadSign(t, pos);
      var start := pos;
      var exponent;
      exponent, pos := ReadInteger(t, start);
      ok := pos > start;
      scale := (exponent as int) * -sign;
    }
  }

  /** The optional uncertainty, without superfluous zeros. */
  method ReadSu(t: Text, p: nat) returns (ok: bool, su: Option<seq<nat>>, pos: nat)
    requires p <= |t|
    ensures ok <==> ParseSu(t, p).Some?
    ensures ok ==> pos == ParseSu(t, p).value.1 && su == StripSu(ParseSu(t, p).value.0)
  {
    ok, su, pos := true, None, p;
    if UnitAt(t, p) == OPEN {
      pos := pos + 1;
      var start := pos;
      while IsDigitUnit(UnitAt(t, pos))
        invariant start <= pos <= |t| && forall i :: start <= i < pos ==> IsDigitUnit(t[i])
        decreases |t| - pos
      {
        pos := pos + 1;
      }
      DigitsEndIs(t, start, pos);
      if pos <= start || UnitAt(t, pos) != CLOSE {
        ok := false;
        return;
      }
      PlainDigits(t, start, pos, 0, 0);
      start := SkipZeros(t, start, pos, 0, 0);
      var digits := CopyDigits(t, start, pos, 0, 0);
      su := Some(digits);
      pos := pos + 1;
    }
  }

  /** The optional parts after the digits, and the end of the text. */
  method ReadTail(t: Text, p: nat) returns (ok: bool, scale: int, su: Option<seq<nat>>)
    requires p <= |t|
    ensures ok <==> ParseTail(t, p).Some?
    ensures ok ==> scale == -Power(ParseTail(t, p).value.0) && su == StripSu(ParseTail(t, p).value.1)
  {
    var pos;
    su := None;
    ok, scale, pos := ReadExponent(t, p);
    if ok {
      ok, su, pos := ReadSu(t, pos);
      ok := ok && UnitAt(t, pos) == NUL;
    }
  }

  /** A mantissa without a digit, or a tail that does not parse, is no number. */
  lemma {:induction false} NotParsed(t: Text, s: nat, w: nat, f: nat)
    requires s == SignEnd(t, 0) && w == DigitsEnd(t, s) && f == FractionEnd(t, w)
    requires f - s == (if UnitAt(t, w) == DOT then 1 else 0) || ParseTail(t, f).None?
    ensures Parse(t) == None
  {
  }

  /** A mantissa with a digit and a tail make a number. */
  lemma {:induction false} Parsed(t: Text, s: nat, w: nat, f: nat, x: Option<Exponent>, u: Option<seq<nat>>)
    requires s == SignEnd(t, 0) && w == DigitsEnd(t, s) && f == FractionEnd(t, w)
    requires f - s != (if UnitAt(t, w) == DOT then 1 else 0) && ParseTail(t, f) == Some((x, u))
    ensures Parse(t) == Some(Notation(SignAt(t, 0), ValuesAt(t, s), UnitAt(t, w) == DOT, FractionAt(t, w), x, u))
  {
  }

  /**
   Parses a number: it succeeds on the text of every notation of the grammar,
   and on no other, with the number that the characters denote.
   */
  method ParseNumb(t: Text) returns (r: Result<Number, int>)
    ensures match Parse(t)
      case Some(n) => r == Ok(NumberOf(n))
      case None => r == Err(INVALID_NUMBER)
    ensures NoNul(t) && r.Ok? ==> Denotes(r.value, t)
  {
    var sign, pos := ReadSign(t, 0);
    ghost var s := pos;
    ghost var w := DigitsEnd(t, s);
    var ok, digits, places, scale, su;
    ok, digits, places, pos := ReadMantissa(t, pos);
    if !ok {
      NotParsed(t, s, w, pos);
      return Err(INVALID_NUMBER);
    }
    ghost var f := pos;
    ok, scale, su := ReadTail(t, pos);
    if !ok {
      NotParsed(t, s, w, f);
      return Err(INVALID_NUMBER);
    }
    ghost var (x, u) := ParseTail(t, f).value;
    Parsed(t, s, w, f, x, u);
    ghost var n := Notation(SignAt(t, 0), ValuesAt(t, s), UnitAt(t, w) == DOT, FractionAt(t, w), x, u);
    r := Ok(Number(sign < 0, digits, scale + places, su));
    assert r.value == NumberOf(n);
    if NoNul(t) { ParsedDenotes(t); }
  }
}
