/** The text of a number can be written and read as a bare string. */
module NumberText {
  import opened Units
  import opened Wrappers
  import opened Decimals
  import opened NumberGrammar
  import opened TokenRoundTrip
  import opened ValueLayout
  import Lexer
  import StringAnalysis

  predicate IsNumberUnit(c: Unit) {
    IsDigitUnit(c) || c in {PLUS, MINUS, DOT, SMALL_E, CAPITAL_E, OPEN, CLOSE}
  }

  predicate NumberUnits(t: Text) {
    forall i :: 0 <= i < |t| ==> IsNumberUnit(t[i])
  }

  lemma {:induction false} UnitsConcat(a: Text, b: Text)
    ensures NumberUnits(a + b) <==> NumberUnits(a) && NumberUnits(b)
  {
    forall i | 0 <= i < |a| ensures (a + b)[i] == a[i] {}
    forall i | 0 <= i < |b| ensures (a + b)[|a| + i] == b[i] {}
    if NumberUnits(a + b) {
      forall i | 0 <= i < |b| ensures IsNumberUnit(b[i]) { assert IsNumberUnit((a + b)[|a| + i]); }
    }
  }

  lemma {:induction false} TailUnits(x: Option<Exponent>, u: Option<seq<nat>>)
    requires x.Some? ==> DecimalDigits(x.value.digits)
    requires u.Some? ==> DecimalDigits(u.value)
    ensures NumberUnits(ExponentText(x)) && NumberUnits(SuText(u))
  {
  }

  /** What a printed number consists of. */
  lemma {:induction false} PrintUnits(n: Notation)
    requires WellFormed(n)
    ensures NumberUnits(Print(n))
  {
    var a, b, c, d := SignText(n.sign), DigitText(n.whole), PointText(n.point), DigitText(n.fraction);
    TailUnits(n.exponent, n.su);
    UnitsConcat(a, b);
    UnitsConcat(a + b, c);
    UnitsConcat(a + b + c, d);
    UnitsConcat(a + b + c + d, ExponentText(n.exponent));
    UnitsConcat(a + b + c + d + ExponentText(n.exponent), SuText(n.su));
  }

  /** What a printed number starts with, and that it is more than a decimal point. */
  lemma {:induction false} PrintStarts(n: Notation)
    requires WellFormed(n)
    ensures var t := Print(n);
      t != [] && t != [DOT] && (IsDigitUnit(t[0]) || t[0] in {PLUS, MINUS, DOT})
  {
    var m := SignText(n.sign) + DigitText(n.whole) + PointText(n.point) + DigitText(n.fraction);
    Starts(SignText(n.sign), DigitText(n.whole), PointText(n.point), DigitText(n.fraction));
    StartsLonger(m, ExponentText(n.exponent), SuText(n.su));
  }

  lemma {:induction false} StartsLonger(m: Text, x: Text, u: Text)
    requires m != []
    ensures var t := m + x + u; t != [] && t[0] == m[0] && (|t| == 1 ==> t == m)
  {
  }

  lemma {:induction false} Starts(a: Text, b: Text, c: Text, d: Text)
    requires |b| + |d| > 0 && (d != [] ==> c != [])
    ensures var m := a + b + c + d;
      m != [] && m[0] == (if a != [] then a[0] else if b != [] then b[0] else c[0]) && (|m| == 1 ==> m == b)
  {
  }

  /** A number's text can be written bare. */
  lemma {:induction false} NumberIsBare(t: Text)
    requires NoNul(t) && Parse(t).Some?
    ensures BareOk(t) && t[0] != SEMI && t != [QUERY] && t != [DOT]
  {
    var n := Parse(t).value;
    Sound(t);
    PrintUnits(n);
    PrintStarts(n);
    UnitsClean(t);
    UnitsSolid(t);
    NotReserved(t);
  }

  lemma {:induction false} NotReserved(t: Text)
    requires t != [] && (IsDigitUnit(t[0]) || t[0] in {PLUS, MINUS, DOT})
    ensures !StringAnalysis.Reserved(t) && t != [QUERY]
    ensures Lexer.ClassOf(t[0]) == Lexer.General
  {
    assert StringAnalysis.DATA_[0] == 0x64 && StringAnalysis.SAVE_[0] == 0x73 && StringAnalysis.LOOP_[0] == 0x6C
      && StringAnalysis.STOP_[0] == 0x73 && StringAnalysis.GLOBAL_[0] == 0x67;
  }

  lemma {:induction false} UnitsSolid(t: Text)
    requires NumberUnits(t)
    ensures Solid(t)
  {
    forall i | 0 <= i < |t| ensures Lexer.MetaOf(t[i]) == Lexer.GeneralMeta { assert IsNumberUnit(t[i]); }
  }

  lemma {:induction false} UnitsClean(t: Text)
    requires NumberUnits(t)
    ensures Clean(t)
    decreases |t|
  {
    if t != [] {
      assert IsNumberUnit(t[0]);
      assert forall i :: 0 <= i < |t[1..]| ==> t[1..][i] == t[i + 1];
      UnitsClean(t[1..]);
    }
  }
}
