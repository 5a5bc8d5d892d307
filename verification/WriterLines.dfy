/**
 How long the lines are that the value writer writes.
 */
module WriterLines {
  import opened Units
  import opened Wrappers
  import opened Values
  import opened StringAnalysis
  import opened WriterColumns
  import TextFieldWriter

  /** No line is too long, and the column is at least the length of the last one. */
  predicate LinesFit(out: Text, column: nat) {
    LongestRun(out, false) <= LINE_LENGTH && LastRun(out, false) <= column
  }

  /** A string keeps within lines, if it is written: a text field must, as it is printed. */
  ghost predicate StringInLines(t: Text, quoted: bool) {
    Preferred(t, !quoted, true, LINE_LENGTH) == Delimiter.Field ==> FieldFits(TextFieldWriter.Content(t, FoldFor(t), PrefixFor(t)))
  }

  predicate FieldFits(content: Option<Text>) {
    content.Some? ==> LongestRun([SEMI] + content.value, false) <= LINE_LENGTH
  }

  /** All text fields in a value keep within lines, and so do its numbers. */
  ghost predicate ItemInLines(v: Value) {
    match v
    case Char(t, quoted) => StringInLines(t, quoted)
    case Numb(t, quoted, _) => if quoted then StringInLines(t, true) else |t| <= LINE_LENGTH
    case List(elements) => forall i :: 0 <= i < |elements| ==> ItemInLines(elements[i])
    case Table(entries) => forall i :: 0 <= i < |entries| ==> ItemInLines(entries[i].value)
    case _ => true
  }

  lemma {:induction false} LineEndAppend(t: Text, c: Unit)
    ensures LineEnd(t + [c]) == if NL in t || c == NL then LineEnd(t) else |t| + 1
    ensures NL !in t ==> LineEnd(t) == |t|
  {
    var k := LineEnd(t);
    if k < |t| || c == NL {
      LineEndIs(t + [c], k);
    } else {
      LineEndIs(t + [c], |t| + 1);
    }
  }

  /** The lines of a and b together, given by those of each. */
  predicate Concatenated(a: Text, b: Text, ab: Text) {
    && LongestRun(ab, false) == Max(Max(LongestRun(a, false), LongestRun(b, false)), LastRun(a, false) + LineEnd(b))
    && LastRun(ab, false) == if NL in b then LastRun(b, false) else LastRun(a, false) + |b|
  }

  /** The lines of a text and another one after it. */
  lemma {:induction false} RunsConcat(a: Text, b: Text)
    ensures Concatenated(a, b, a + b)
    decreases |b|
  {
    if b == [] {
      assert a + b == a;
      LastIsRun(a);
    } else {
      var init, c := b[..|b| - 1], b[|b| - 1];
      assert b == init + [c] && a + b == (a + init) + [c];
      RunsConcat(a, init);
      OneMore(a, init, a + init, c);
    }
  }

  lemma {:induction false} OneMore(a: Text, b: Text, ab: Text, c: Unit)
    requires Concatenated(a, b, ab)
    ensures Concatenated(a, b + [c], ab + [c])
  {
    MoreUnits(ab, c);
    MoreUnits(b, c);
    assert c == NL ==> NL in b + [c];
  }

  lemma {:induction false} MoreUnits(t: Text, c: Unit)
    ensures LastRun(t + [c], false) == if c == NL then 0 else LastRun(t, false) + 1
    ensures LongestRun(t + [c], false) == Max(LongestRun(t, false), LastRun(t + [c], false))
    ensures LineEnd(t + [c]) == if NL in t || c == NL then LineEnd(t) else |t| + 1
    ensures (NL in t + [c] <==> NL in t || c == NL) && (NL !in t ==> LineEnd(t) == |t|)
    ensures LastRun(t, false) <= LongestRun(t, false)
  {
    RunAppend(t, c, false);
    LineEndAppend(t, c);
    LastIsRun(t);
  }

  lemma {:induction false} LastIsRun(t: Text)
    ensures LastRun(t, false) <= LongestRun(t, false) <= |t|
    decreases |t|
  {
    if t != [] { LastIsRun(t[..|t| - 1]); }
  }

  lemma {:induction false} FirstIsRun(t: Text)
    ensures LineEnd(t) <= LongestRun(t, false)
  {
    assert [] + t == t;
    RunsConcat([], t);
  }

  lemma {:induction false} NewlineFits(out: Text, column: nat)
    requires LinesFit(out, column)
    ensures LinesFit(out + [NL], 0)
  {
    RunAppend(out, NL, false);
  }

  /** A token for which there is room. */
  lemma {:induction false} TokenFits(out: Text, column: nat, text: Text)
    requires LinesFit(out, column) && column + |text| <= LINE_LENGTH
    ensures LinesFit(out + text, column + |text|)
  {
    RunsConcat(out, text);
    LastIsRun(text);
  }

  /** Lines that leave room for the quotes of a triple-quoted string. */
  predicate ShortLines(text: Text) {
    LongestRun(text, false) <= LINE_LENGTH && LastRun(text, false) + 3 <= LINE_LENGTH && LineEnd(text) + 3 <= LINE_LENGTH
  }

  /** A triple-quoted string with room for its first line. */
  lemma {:induction false} TripledFits(out: Text, column: nat, marks: Text, text: Text)
    requires LinesFit(out, column) && |marks| == 3 && NL !in marks && LineEnd(text) < |text|
    requires column + LineEnd(text) + 3 <= LINE_LENGTH
    requires ShortLines(text)
    ensures LinesFit(out + (marks + text + marks), LastRun(text, false) + 3)
  {
    TokenFits(out, column, marks);
    RunsConcat(out + marks, text);
    RunsConcat(out, marks);
    TokenFits(out + marks + text, LastRun(text, false), marks);
    assert out + (marks + text + marks) == out + marks + text + marks;
  }

  lemma {:induction false} TextFieldFits(out: Text, column: nat, content: Text)
    requires LinesFit(out, column) && FieldFits(Some(content))
    ensures LinesFit(out + [NL] + ([SEMI] + content + [NL, SEMI]), 1)
  {
    var field := [SEMI] + content;
    NewlineFits(out, column);
    LinesAppended(out + [NL], field);
    NewlineFits(out + [NL] + field, LINE_LENGTH);
    TokenFits(out + [NL] + field + [NL], 0, [SEMI]);
    FieldAppended(out, field);
  }

  /** Lines that fit, at the start of a line. */
  lemma {:induction false} LinesAppended(out: Text, lines: Text)
    requires LinesFit(out, 0) && LongestRun(lines, false) <= LINE_LENGTH
    ensures LinesFit(out + lines, LINE_LENGTH)
  {
    RunsConcat(out, lines);
    FirstIsRun(lines);
    LastIsRun(out + lines);
  }

  lemma {:induction false} FieldAppended(out: Text, field: Text)
    ensures out + [NL] + (field + [NL, SEMI]) == out + [NL] + field + [NL] + [SEMI]
  {
  }

  /** What the choice of a form says about line lengths. */
  lemma {:induction false} FormFits(t: Text, quoted: bool)
    ensures match Preferred(t, !quoted, true, LINE_LENGTH)
      case Bare => |t| <= LINE_LENGTH
      case Quoted(_) => |t| + 2 <= LINE_LENGTH
      case Tripled(q) => ShortLines(t) && q in {SQ, DQ}
      case Field => true
  {
    LastIsRun(t);
  }

  /** A text field without protocols keeps within lines. */
  lemma {:induction false} UnmarkedFieldFits(t: Text)
    requires !FoldFor(t) && !PrefixFor(t)
    ensures FieldFits(TextFieldWriter.Content(t, false, false))
  {
    RunsConcat([SEMI], t);
    RunAppend([], SEMI, false);
    assert [] + [SEMI] == [SEMI];
  }
}
