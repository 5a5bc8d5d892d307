/**
 The text form of CIF numbers: sign, digits around an optional decimal point,
 an optional exponent and an optional standard uncertainty in parentheses.
 */
module NumberGrammar {
  import opened Decimals
  import opened Units
  import opened Values
  import opened Wrappers

  const ZERO: Unit := 0x30
  const NINE: Unit := 0x39
  const MINUS: Unit := 0x2D
  const PLUS: Unit := 0x2B
  const OPEN: Unit := 0x28
  const CLOSE: Unit := 0x29
  const CAPITAL_E: Unit := 0x45
  const SMALL_E: Unit := 0x65

  datatype Sign = NoSign | Plus | Minus

  datatype Exponent = Exponent(capital: bool, sign: Sign, digits: seq<nat>)

  datatype Notation = Notation(sign: Sign, whole: seq<nat>, point: bool, fraction: seq<nat>,
                               exponent: Option<Exponent>, su: Option<seq<nat>>)

  predicate IsDigitUnit(c: Unit) {
    ZERO <= c <= NINE
  }

  predicate WellFormed(n: Notation) {
    && DecimalDigits(n.whole) && DecimalDigits(n.fraction)
    && |n.whole| + |n.fraction| > 0 && (n.fraction != [] ==> n.point)
    && (n.exponent.Some? ==> DecimalDigits(n.exponent.value.digits) && n.exponent.value.digits != [])
    && (n.su.Some? ==> DecimalDigits(n.su.value) && n.su.value != [])
  }

  // Printing

  function DigitText(d: seq<nat>): (t: Text)
    requires DecimalDigits(d)
    ensures |t| == |d| && forall i :: 0 <= i < |d| ==> t[i] == d[i] + ZERO
  {
    seq(|d|, i requires 0 <= i < |d| => (d[i] + ZERO) as Unit)
  }

  function DigitValues(t: Text): (d: seq<nat>)
    requires forall i :: 0 <= i < |t| ==> IsDigitUnit(t[i])
    ensures |d| == |t| && DecimalDigits(d) && forall i :: 0 <= i < |t| ==> d[i] == t[i] - ZERO
  {
    seq(|t|, i requires 0 <= i < |t| && IsDigitUnit(t[i]) => (t[i] - ZERO) as nat)
  }

  lemma {:induction false} TextOfValues(t: Text)
    requires forall i :: 0 <= i < |t| ==> IsDigitUnit(t[i])
    ensures DigitText(DigitValues(t)) == t
  {
  }

  lemma {:induction false} ValuesOfText(d: seq<nat>)
    requires DecimalDigits(d)
    ensures DigitValues(DigitText(d)) == d
  {
  }

  function SignText(s: Sign): Text {
    match s
    case NoSign => []
    case Plus => [PLUS]
    case Minus => [MINUS]
  }

  function PointText(point: bool): Text {
    if point then [DOT] else []
  }

  function ExponentText(x: Option<Exponent>): Text
    requires x.Some? ==> DecimalDigits(x.value.digits)
  {
    match x
    case None => []
    case Some(e) => [if e.capital then CAPITAL_E else SMALL_E] + SignText(e.sign) + DigitText(e.digits)
  }

  function SuText(su: Option<seq<nat>>): Text
    requires su.Some? ==> DecimalDigits(su.value)
  {
    match su
    case None => []
    case Some(d) => [OPEN] + DigitText(d) + [CLOSE]
  }

  function Print(n: Notation): Text
    requires WellFormed(n)
  {
    SignText(n.sign) + DigitText(n.whole) + PointText(n.point) + DigitText(n.fraction)
    + ExponentText(n.exponent) + SuText(n.su)
  }

  // Meaning

  /** Digits without superfluous leading zeros. */
  function Strip(d: seq<nat>): (r: seq<nat>)
    ensures NoLeadingZero(r) && |r| <= |d| && (d != [] ==> r != [])
    ensures DecimalDigits(d) ==> DecimalDigits(r)
  {
    if |d| > 1 && d[0] == 0 then Strip(d[1..]) else d
  }

  function Power(x: Option<Exponent>): int {
    match x
    case None => 0
    case Some(e) =>
      var v: int := Dec(e.digits);
      if e.sign.Minus? then -v else v
  }

  function StripSu(su: Option<seq<nat>>): Option<seq<nat>> {
    match su
    case None => None
    case Some(d) => Some(Strip(d))
  }

  function NumberOf(n: Notation): Number {
    Number(n.sign.Minus?, Strip(n.whole + n.fraction), |n.fraction| - Power(n.exponent), StripSu(n.su))
  }

  // Parsing

  function DigitsEnd(t: Text, p: nat): (q: nat)
    requires p <= |t|
    ensures p <= q <= |t| && (forall i :: p <= i < q ==> IsDigitUnit(t[i])) && !IsDigitUnit(UnitAt(t, q))
    decreases |t| - p
  {
    if IsDigitUnit(UnitAt(t, p)) then DigitsEnd(t, p + 1) else p
  }

  function SignAt(t: Text, p: nat): Sign {
    if UnitAt(t, p) == MINUS then Minus else if UnitAt(t, p) == PLUS then Plus else NoSign
  }

  function SignEnd(t: Text, p: nat): (q: nat)
    requires p <= |t|
    ensures p <= q <= |t| && t[p..q] == SignText(SignAt(t, p))
  {
    if SignAt(t, p).NoSign? then p else p + 1
  }

  /** End of the digits after an optional decimal point. */
  function FractionEnd(t: Text, w: nat): (q: nat)
    requires w <= |t|
    ensures w <= q <= |t|
  {
    if UnitAt(t, w) == DOT then DigitsEnd(t, w + 1) else w
  }

  function ValuesAt(t: Text, p: nat): seq<nat>
    requires p <= |t|
  {
    DigitValues(t[p..DigitsEnd(t, p)])
  }

  /** The digits after an optional decimal point. */
  function FractionAt(t: Text, w: nat): seq<nat>
    requires w <= |t|
  {
    if UnitAt(t, w) == DOT then ValuesAt(t, w + 1) else []
  }

  predicate IsExponentMark(c: Unit) {
    c == CAPITAL_E || c == SMALL_E
  }

  function ParseExponent(t: Text, p: nat): (r: Option<(Option<Exponent>, nat)>)
    requires p <= |t|
    ensures r.Some? ==> p <= r.value.1 <= |t|
  {
    if IsExponentMark(UnitAt(t, p)) then
      var s := SignEnd(t, p + 1);
      if DigitsEnd(t, s) == s then None
      else Some((Some(Exponent(UnitAt(t, p) == CAPITAL_E, SignAt(t, p + 1), ValuesAt(t, s))), DigitsEnd(t, s)))
    else Some((None, p))
  }

  function ParseSu(t: Text, p: nat): (r: Option<(Option<seq<nat>>, nat)>)
    requires p <= |t|
    ensures r.Some? ==> p <= r.value.1 <= |t|
  {
    if UnitAt(t, p) == OPEN then
      var q := DigitsEnd(t, p + 1);
      if q == p + 1 || UnitAt(t, q) != CLOSE then None
      else Some((Some(ValuesAt(t, p + 1)), q + 1))
    else Some((None, p))
  }

  /** The exponent and the uncertainty, up to the end of the text. */
  function ParseTail(t: Text, f: nat): Option<(Option<Exponent>, Option<seq<nat>>)>
    requires f <= |t|
  {
    match ParseExponent(t, f)
    case None => None
    case Some((x, p)) =>
      match ParseSu(t, p)
      case None => None
      case Some((u, q)) => if UnitAt(t, q) != NUL then None else Some((x, u))
  }

  function Parse(t: Text): Option<Notation> {
    var s := SignEnd(t, 0);
    var w := DigitsEnd(t, s);
    var f := FractionEnd(t, w);
    var point := UnitAt(t, w) == DOT;
    if f - s == (if point then 1 else 0) then None
    else
      match ParseTail(t, f)
      case None => None
      case Some((x, u)) =>
        Some(Notation(SignAt(t, 0), ValuesAt(t, s), point, FractionAt(t, w), x, u))
  }

  // The parser accepts exactly what the grammar generates

  lemma {:induction false} ExponentSound(t: Text, p: nat)
    requires p <= |t| && ParseExponent(t, p).Some?
    ensures var (x, q) := ParseExponent(t, p).value;
      (x.Some? ==> DecimalDigits(x.value.digits) && x.value.digits != []) && t[p..q] == ExponentText(x)
  {
    if IsExponentMark(UnitAt(t, p)) {
      var s := SignEnd(t, p + 1);
      var q := DigitsEnd(t, s);
      TextOfValues(t[s..q]);
      assert t[p..q] == [t[p]] + t[p + 1..s] + t[s..q];
    }
  }

  lemma {:induction false} SuSound(t: Text, p: nat)
    requires p <= |t| && ParseSu(t, p).Some?
    ensures var (u, q) := ParseSu(t, p).value;
      (u.Some? ==> DecimalDigits(u.value) && u.value != []) && t[p..q] == SuText(u)
  {
    if UnitAt(t, p) == OPEN {
      var q := DigitsEnd(t, p + 1);
      TextOfValues(t[p + 1..q]);
      assert t[p..q + 1] == [t[p]] + t[p + 1..q] + [t[q]];
    }
  }

  lemma {:induction false} TailSound(t: Text, f: nat)
    requires f <= |t| && NoNul(t) && ParseTail(t, f).Some?
    ensures var (x, u) := ParseTail(t, f).value;
      && (x.Some? ==> DecimalDigits(x.value.digits) && x.value.digits != [])
      && (u.Some? ==> DecimalDigits(u.value) && u.value != [])
      && t[f..] == ExponentText(x) + SuText(u)
  {
    var p := ParseExponent(t, f).value.1;
    ExponentSound(t, f);
    SuSound(t, p);
    EndOfText(t, f, p, ParseSu(t, p).value.1);
  }

  lemma {:induction false} EndOfText(t: Text, f: nat, p: nat, q: nat)
    requires NoNul(t) && f <= p <= q <= |t| && UnitAt(t, q) == NUL
    ensures t[f..] == t[f..p] + t[p..q]
  {
    assert q == |t|;
  }

  lemma {:induction false} MantissaSound(t: Text, s: nat, w: nat, f: nat, fraction: seq<nat>)
    requires s <= |t| && w == DigitsEnd(t, s) && f == FractionEnd(t, w)
    requires fraction == FractionAt(t, w)
    ensures DecimalDigits(fraction)
    ensures t[s..f] == DigitText(ValuesAt(t, s)) + PointText(UnitAt(t, w) == DOT) + DigitText(fraction)
  {
    var g := if UnitAt(t, w) == DOT then w + 1 else w;
    TextOfValues(t[s..w]);
    if UnitAt(t, w) == DOT { TextOfValues(t[g..f]); }
    Around(t, s, w, g, f);
    assert t[w..g] == PointText(UnitAt(t, w) == DOT);
    assert t[g..f] == DigitText(fraction);
  }

  lemma {:induction false} Around(t: Text, s: nat, w: nat, g: nat, f: nat)
    requires s <= w <= g <= f <= |t|
    ensures t[s..f] == t[s..w] + t[w..g] + t[g..f]
  {
  }

  /** Whatever is parsed is the print of its notation. */
  lemma {:induction false} Sound(t: Text)
    requires NoNul(t) && Parse(t).Some?
    ensures WellFormed(Parse(t).value) && Print(Parse(t).value) == t
  {
    var n := Parse(t).value;
    var s := SignEnd(t, 0);
    var w := DigitsEnd(t, s);
    var f := FractionEnd(t, w);
    TailSound(t, f);
    MantissaSound(t, s, w, f, n.fraction);
    Joined(t, s, f, SignText(n.sign), DigitText(n.whole), PointText(n.point), DigitText(n.fraction),
           ExponentText(n.exponent), SuText(n.su));
  }

  lemma {:induction false} Joined(t: Text, s: nat, f: nat, a: Text, b: Text, c: Text, d: Text, x: Text, u: Text)
    requires s <= f <= |t| && t[0..s] == a && t[s..f] == b + c + d && t[f..] == x + u
    ensures a + b + c + d + x + u == t
  {
    assert t == t[0..s] + t[s..f] + t[f..];
    assert a + b + c + d + x + u == a + (b + c + d) + (x + u);
  }

  lemma {:induction false} DigitsEndIs(t: Text, p: nat, q: nat)
    requires p <= q <= |t| && (forall i :: p <= i < q ==> IsDigitUnit(t[i])) && !IsDigitUnit(UnitAt(t, q))
    ensures DigitsEnd(t, p) == q
  {
  }

  /** The units that can follow the parts of a number. */
  lemma {:induction false} Follows(t: Text, p: nat, q: nat, part: Text)
    requires p <= q <= |t| && t[p..q] == part
    ensures UnitAt(t, p) == if part == [] then UnitAt(t, q) else part[0]
    ensures forall i :: 0 <= i < q - p ==> t[p + i] == part[i]
  {
    assert forall i :: 0 <= i < q - p ==> t[p..q][i] == t[p + i];
  }

  lemma {:induction false} ExponentComplete(t: Text, p: nat, q: nat, x: Option<Exponent>)
    requires p <= q <= |t| && (x.Some? ==> DecimalDigits(x.value.digits) && x.value.digits != [])
    requires t[p..q] == ExponentText(x) && !IsDigitUnit(UnitAt(t, q)) && !IsExponentMark(UnitAt(t, q))
    ensures ParseExponent(t, p) == Some((x, q))
  {
    Follows(t, p, q, ExponentText(x));
    if x.Some? {
      var e := x.value;
      var s := p + 1 + |SignText(e.sign)|;
      ExponentSlices(t[p..q], e);
      assert t[p + 1..s] == t[p..q][1..s - p];
      assert t[s..q] == t[p..q][s - p..];
      ExponentDigits(t, p + 1, s, q, e);
    }
  }

  lemma {:induction false} ExponentSlices(part: Text, e: Exponent)
    requires DecimalDigits(e.digits) && part == ExponentText(Some(e))
    ensures |part| == 1 + |SignText(e.sign)| + |e.digits|
    ensures part[1..1 + |SignText(e.sign)|] == SignText(e.sign) && part[1 + |SignText(e.sign)|..] == DigitText(e.digits)
  {
  }

  lemma {:induction false} ExponentDigits(t: Text, p: nat, s: nat, q: nat, e: Exponent)
    requires p <= s <= q <= |t| && DecimalDigits(e.digits) && e.digits != []
    requires t[p..s] == SignText(e.sign) && t[s..q] == DigitText(e.digits) && !IsDigitUnit(UnitAt(t, q))
    ensures SignAt(t, p) == e.sign && SignEnd(t, p) == s && DigitsEnd(t, s) == q && ValuesAt(t, s) == e.digits
  {
    Follows(t, p, s, SignText(e.sign));
    Follows(t, s, q, DigitText(e.digits));
    DigitsEndIs(t, s, q);
    ValuesOfText(e.digits);
  }

  lemma {:induction false} SuComplete(t: Text, p: nat, u: Option<seq<nat>>)
    requires p <= |t| && (u.Some? ==> DecimalDigits(u.value) && u.value != [])
    requires t[p..] == SuText(u)
    ensures ParseSu(t, p) == Some((u, |t|))
    ensures !IsDigitUnit(UnitAt(t, p)) && !IsExponentMark(UnitAt(t, p)) && UnitAt(t, p) != DOT
  {
    assert t[p..|t|] == t[p..];
    Follows(t, p, |t|, SuText(u));
    if u.Some? { SuDigits(t, p, u.value); }
  }

  lemma {:induction false} SuDigits(t: Text, p: nat, d: seq<nat>)
    requires p <= |t| && DecimalDigits(d) && d != [] && t[p..] == [OPEN] + DigitText(d) + [CLOSE]
    ensures p + 1 < |t| - 1 && DigitsEnd(t, p + 1) == |t| - 1 && ValuesAt(t, p + 1) == d && UnitAt(t, |t| - 1) == CLOSE
  {
    var q := |t| - 1;
    assert t[p + 1..q] == t[p..][1..q - p] == DigitText(d);
    Follows(t, p + 1, q, DigitText(d));
    assert t[q] == t[p..][q - p] == CLOSE;
    DigitsEndIs(t, p + 1, q);
    ValuesOfText(d);
  }

  /** Where the parts of a printed number begin. */
  lemma {:induction false} Parts(n: Notation, t: Text) returns (s: nat, w: nat, g: nat, f: nat, p: nat)
    requires WellFormed(n) && Print(n) == t
    ensures s <= w <= g <= f <= p <= |t|
    ensures t[0..s] == SignText(n.sign) && t[s..w] == DigitText(n.whole) && t[w..g] == PointText(n.point)
    ensures t[g..f] == DigitText(n.fraction) && t[f..p] == ExponentText(n.exponent) && t[p..] == SuText(n.su)
  {
    s, w, g, f, p := SixParts(SignText(n.sign), DigitText(n.whole), PointText(n.point), DigitText(n.fraction), ExponentText(n.exponent), SuText(n.su));
  }

  lemma {:induction false} SixParts(a: Text, b: Text, c: Text, d: Text, x: Text, u: Text) returns (s: nat, w: nat, g: nat, f: nat, p: nat)
    ensures var t := a + b + c + d + x + u;
      && s <= w <= g <= f <= p <= |t|
      && t[0..s] == a && t[s..w] == b && t[w..g] == c && t[g..f] == d && t[f..p] == x && t[p..] == u
  {
    s := |a|;
    w := s + |b|;
    g := w + |c|;
    f := g + |d|;
    p := f + |x|;
    FirstThree(a, b, c, d + x + u);
    FirstThree(d, x, u, []);
    Shifted(a + b + c, d + x + u);
    assert a + b + c + d + x + u == a + b + c + (d + x + u);
    assert d + x + u + [] == d + x + u;
  }

  lemma {:induction false} FirstThree(a: Text, b: Text, c: Text, rest: Text)
    ensures var t := a + b + c + rest; var s := |a|; var w := s + |b|; var g := w + |c|;
      t[0..s] == a && t[s..w] == b && t[w..g] == c
  {
    var t := a + b + c + rest;
    Middle(t, [], a, b + c + rest);
    Middle(t, a, b, c + rest);
    Middle(t, a + b, c, rest);
  }

  lemma {:induction false} Shifted(a: Text, b: Text)
    ensures forall i, j :: 0 <= i <= j <= |b| ==> (a + b)[|a| + i..|a| + j] == b[i..j]
  {
  }

  lemma {:induction false} Middle(t: Text, a: Text, b: Text, c: Text)
    requires t == a + b + c
    ensures |a| + |b| <= |t| && t[|a|..|a| + |b|] == b
  {
  }

  /** The digits before and after the decimal point are found again. */
  lemma {:induction false} DigitsComplete(t: Text, n: Notation, s: nat, w: nat, g: nat, f: nat)
    requires WellFormed(n) && s <= w <= g <= f <= |t|
    requires t[s..w] == DigitText(n.whole) && t[w..g] == PointText(n.point) && t[g..f] == DigitText(n.fraction)
    requires !IsDigitUnit(UnitAt(t, f)) && UnitAt(t, f) != DOT
    ensures DigitsEnd(t, s) == w && FractionEnd(t, w) == f && (UnitAt(t, w) == DOT <==> n.point)
    ensures ValuesAt(t, s) == n.whole && (n.point ==> g == w + 1 && ValuesAt(t, g) == n.fraction)
  {
    Follows(t, g, f, DigitText(n.fraction));
    Follows(t, w, g, PointText(n.point));
    Follows(t, s, w, DigitText(n.whole));
    DigitsEndIs(t, s, w);
    ValuesOfText(n.whole);
    if n.point {
      DigitsEndIs(t, g, f);
      ValuesOfText(n.fraction);
    }
  }

  lemma {:induction false} SignComplete(t: Text, sign: Sign, s: nat)
    requires s <= |t| && t[0..s] == SignText(sign) && UnitAt(t, s) != PLUS && UnitAt(t, s) != MINUS
    ensures SignAt(t, 0) == sign && SignEnd(t, 0) == s
  {
    Follows(t, 0, s, SignText(sign));
  }

  lemma {:induction false} TailComplete(t: Text, f: nat, p: nat, x: Option<Exponent>, u: Option<seq<nat>>)
    requires x.Some? ==> DecimalDigits(x.value.digits) && x.value.digits != []
    requires u.Some? ==> DecimalDigits(u.value) && u.value != []
    requires f <= p <= |t| && t[f..p] == ExponentText(x) && t[p..] == SuText(u)
    ensures ParseTail(t, f) == Some((x, u)) && !IsDigitUnit(UnitAt(t, f)) && UnitAt(t, f) != DOT
  {
    SuComplete(t, p, u);
    ExponentComplete(t, f, p, x);
    Follows(t, f, p, ExponentText(x));
  }

  /** The parts of a printed number are parsed in turn. */
  lemma {:induction false} PartsComplete(t: Text, n: Notation, s: nat, w: nat, g: nat, f: nat, p: nat)
    requires WellFormed(n) && s <= w <= g <= f <= p <= |t|
    requires t[0..s] == SignText(n.sign) && t[s..w] == DigitText(n.whole) && t[w..g] == PointText(n.point)
    requires t[g..f] == DigitText(n.fraction) && t[f..p] == ExponentText(n.exponent) && t[p..] == SuText(n.su)
    ensures Parse(t) == Some(n)
  {
    TailComplete(t, f, p, n.exponent, n.su);
    DigitsComplete(t, n, s, w, g, f);
    NumberBegins(t, n, s, w, g);
    SignComplete(t, n.sign, s);
    Assembled(t, n, s, w, g, f);
  }

  lemma {:induction false} Assembled(t: Text, n: Notation, s: nat, w: nat, g: nat, f: nat)
    requires WellFormed(n) && s <= w <= f <= |t| && f - s == |n.whole| + |n.fraction| + (if n.point then 1 else 0)
    requires SignAt(t, 0) == n.sign && SignEnd(t, 0) == s && DigitsEnd(t, s) == w && FractionEnd(t, w) == f
    requires (UnitAt(t, w) == DOT <==> n.point) && ValuesAt(t, s) == n.whole
    requires n.point ==> g == w + 1 <= |t| && ValuesAt(t, g) == n.fraction
    requires ParseTail(t, f) == Some((n.exponent, n.su))
    ensures Parse(t) == Some(n)
  {
  }

  /** Every number that the grammar generates is parsed back. */
  lemma {:induction false} Complete(n: Notation)
    requires WellFormed(n)
    ensures Parse(Print(n)) == Some(n)
  {
    var s, w, g, f, p := Parts(n, Print(n));
    PartsComplete(Print(n), n, s, w, g, f, p);
  }

  lemma {:induction false} NumberBegins(t: Text, n: Notation, s: nat, w: nat, g: nat)
    requires WellFormed(n) && s <= w <= g <= |t| && t[s..w] == DigitText(n.whole) && t[w..g] == PointText(n.point)
    ensures UnitAt(t, s) != PLUS && UnitAt(t, s) != MINUS
  {
    Follows(t, w, g, PointText(n.point));
    Follows(t, s, w, DigitText(n.whole));
  }

  /** Different notations are printed differently. */
  lemma {:induction false} PrintInjective(n: Notation, n': Notation)
    requires WellFormed(n) && WellFormed(n') && Print(n) == Print(n')
    ensures n == n'
  {
    Complete(n);
    Complete(n');
  }
}
