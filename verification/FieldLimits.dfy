/**
 Which text fields keep within the line length that the scanner accepts, and
 strings for which writing and reading back fails.
 */
module FieldLimits {
  import opened Units
  import opened Wrappers
  import opened Values
  import opened StringAnalysis
  import opened Columns
  import opened TokenRoundTrip
  import opened ValueLayout
  import opened ValueWriter
  import opened WriterColumns
  import opened WriterLines
  import opened ValueRoundTrip
  import FoldLine
  import FoldedLines
  import Lexer
  import Parser
  import TextFieldWriter

  // Folded fields

  /** Text that can follow any line of acceptable length, and ends in one. */
  ghost predicate Fine(s: Text) {
    FineColumns(s) && FineRuns(s)
  }

  ghost predicate FineColumns(s: Text) {
    forall c: int :: c <= TOKEN_LIMIT ==> Within(c, s, TOKEN_LIMIT) && ColumnAfter(c, s) <= TOKEN_LIMIT
  }

  /** Each line of the text starts in it. */
  predicate FineRuns(s: Text) {
    LongestRun(s, false) <= TOKEN_LIMIT && (s != [] ==> s[0] == NL)
  }

  lemma {:induction false} FineConcat(a: Text, b: Text)
    requires Fine(a) && Fine(b)
    ensures Fine(a + b)
  {
    FineColumnsConcat(a, b);
    FineRunsConcat(a, b);
  }

  lemma {:induction false} FineColumnsConcat(a: Text, b: Text)
    requires FineColumns(a) && FineColumns(b)
    ensures FineColumns(a + b)
  {
    forall c: int | c <= TOKEN_LIMIT ensures Within(c, a + b, TOKEN_LIMIT) && ColumnAfter(c, a + b) <= TOKEN_LIMIT {
      WithinConcat(c, a, b, TOKEN_LIMIT);
      ColumnConcat(c, a, b);
    }
  }

  lemma {:induction false} FineRunsConcat(a: Text, b: Text)
    requires FineRuns(a) && FineRuns(b)
    ensures FineRuns(a + b)
  {
    RunsConcat(a, b);
    LastIsRun(a);
    LineEndIs(b, 0);
  }

  lemma {:induction false} FineNothing()
    ensures Fine([])
  {
  }

  /** A physical line of acceptable length, with the newline before it. */
  lemma {:induction false} FineLine(line: Text)
    requires |line| <= TOKEN_LIMIT && forall i :: 0 <= i < |line| ==> !IsEol(line[i])
    ensures Fine([NL] + line)
  {
    forall c: int | c <= TOKEN_LIMIT
      ensures Within(c, [NL] + line, TOKEN_LIMIT) && ColumnAfter(c, [NL] + line) <= TOKEN_LIMIT
    {
      assert ([NL] + line)[1..] == line;
      NoTerminator(0, line, TOKEN_LIMIT);
    }
    LineRuns(line);
  }

  lemma {:induction false} LineRuns(line: Text)
    requires |line| <= TOKEN_LIMIT
    ensures FineRuns([NL] + line)
  {
    RunsConcat([NL], line);
    RunAppend([], NL, false);
    assert [] + [NL] == [NL];
    LastIsRun(line);
  }

  /** No cut anywhere in the text is blocked for as long as a line. */
  ghost predicate Unblocked(t: Text) {
    forall i :: 0 <= i < |t| ==> !FoldedLines.Blocked(t[i..], false)
  }

  lemma {:induction false} UnblockedPart(t: Text, i: nat, j: nat)
    requires Unblocked(t) && i <= j <= |t|
    ensures Unblocked(t[i..j])
  {
    var p := t[i..j];
    forall k | 0 <= k < |p| ensures !FoldedLines.Blocked(p[k..], false) {
      assert !FoldedLines.Blocked(t[i + k..], false);
      assert p[k..] <= t[i + k..];
      if FoldedLines.Blocked(p[k..], false) { BlockedLonger(p[k..], t[i + k..], false); }
    }
  }

  /** Whether a cut is blocked depends on the units around it only. */
  lemma {:induction false} BlockedLonger(a: Text, b: Text, prefix: bool)
    requires a <= b && FoldedLines.Blocked(a, prefix)
    ensures FoldedLines.Blocked(b, prefix)
  {
    forall m | 0 < m <= TextFieldWriter.TARGET_LENGTH + TextFieldWriter.FOLDING_WINDOW
      ensures !FoldLine.Admissible(b, m, prefix)
    {
      assert !FoldLine.Admissible(a, m, prefix);
    }
  }

  lemma {:induction false} SegmentsFine(line: Text, protect: bool)
    requires TextFieldWriter.Segments(line, protect, true, false).Some?
    requires Unblocked(line) && forall i :: 0 <= i < |line| ==> !IsEol(line[i])
    ensures Fine(TextFieldWriter.Segments(line, protect, true, false).value)
    decreases |line|
  {
    if line == [] {
      FineNothing();
    } else {
      var r := TextFieldWriter.Cut(line, true, false);
      FoldedLines.ShortOrBlocked(line, false);
      assert line[0..] == line;
      var mark := if r < |line| || protect then [BSL] else [];
      FineLine(line[..r] + mark);
      PhysicalIs(line[..r], r < |line| || protect);
      UnblockedPart(line, r, |line|);
      assert line[r..|line|] == line[r..];
      SegmentsFine(line[r..], protect);
      FineConcat([NL] + (line[..r] + mark), TextFieldWriter.Segments(line[r..], protect, true, false).value);
    }
  }

  lemma {:induction false} PhysicalIs(segment: Text, mark: bool)
    ensures TextFieldWriter.Physical(segment, mark, false) == [NL] + (segment + if mark then [BSL] else [])
  {
  }

  lemma {:induction false} BodyFine(t: Text)
    requires NoCr(t) && Unblocked(t) && TextFieldWriter.Body(t, true, false).Some?
    ensures Fine(TextFieldWriter.Body(t, true, false).value)
    decreases |t|
  {
    FineNothing();
    FineLine([]);
    assert [NL] + [] == [NL];
    if t == [] {
    } else if t[0] == NL {
      UnblockedPart(t, 1, |t|);
      BodyFine(t[1..]);
      FineConcat([NL], TextFieldWriter.Body(t[1..], true, false).value);
    } else {
      var k := LineEnd(t);
      var line, rest := t[..k], if k < |t| then t[k + 1..] else [];
      TextFieldWriter.BodyStep(t, true, false, rest);
      UnblockedPart(t, 0, k);
      if k < |t| { UnblockedPart(t, k + 1, |t|); }
      BodyFine(rest);
      var protect := TextFieldWriter.Protect(line, true);
      SegmentsFine(line, protect);
      var s, end := TextFieldWriter.Segments(line, protect, true, false).value, if protect then [NL] else [];
      FineConcat(s, end);
      FineConcat(s + end, TextFieldWriter.Body(rest, true, false).value);
    }
  }

  /**
   A field that is folded without a prefix never has an overlong line, unless
   somewhere in the text no place for a cut is found in a whole line's length.
   */
  lemma {:induction false} FoldedFieldFits(t: Text)
    requires NoCr(t) && Unblocked(t) && TextFieldWriter.Content(t, true, false).Some?
    ensures FieldWithin(TextFieldWriter.Content(t, true, false).value) && FieldFits(TextFieldWriter.Content(t, true, false))
  {
    var b := TextFieldWriter.Body(t, true, false).value;
    BodyFine(t);
    FineLine([]);
    assert [NL] + [] == [NL];
    FineConcat(b, [NL]);
    assert TextFieldWriter.Header(true, false)[2..] == [BSL];
    assert [BSL] + b + [NL] == [BSL] + (b + [NL]);
    WithinConcat(1, [BSL], b + [NL], TOKEN_LIMIT);
    NoTerminator(1, [BSL], TOKEN_LIMIT);
    FoldedRuns(b);
  }

  lemma {:induction false} FoldedRuns(body: Text)
    requires FineRuns(body)
    ensures LongestRun([SEMI] + ([BSL] + body), false) <= LINE_LENGTH
  {
    RunsConcat([SEMI, BSL], body);
    LastIsRun([SEMI, BSL]);
    LineEndIs(body, 0);
    assert [SEMI] + ([BSL] + body) == [SEMI, BSL] + body;
  }

  // Strings that do not come back

  function Letters(n: nat): Text {
    seq(n, i => 0x61)
  }

  lemma {:induction false} LettersColumn(column: int, n: nat)
    ensures ColumnAfter(column, Letters(n)) == column + n
    decreases n
  {
    if n > 0 {
      assert Letters(n)[1..] == Letters(n - 1);
      LettersColumn(column + 1, n - 1);
    }
  }

  /** Two lines, the second of 2048 letters, and some text after that. */
  function LongSecondLine(end: Text): Text {
    [0x61, NL] + (Letters(LINE_LENGTH) + end)
  }

  lemma {:induction false} LongSecondLineIs(end: Text)
    requires end == [] || end == [NL, 0x62]
    ensures var t := LongSecondLine(end);
      && Clean(t) && NoCr(t) && LineEnd(t) == 1 && LongestRun(t, false) <= LINE_LENGTH && LongestRun(t, true) == 0
      && !HasTriple(t, SQ) && NL in t && !HasNlSemi(t) && FoldMark(t[..1]) == -1
  {
    var t := LongSecondLine(end);
    AsciiClean(t, []);
    assert t + [] == t;
    LineEndIs(t, 1);
    assert t[1] == NL && forall i :: 0 <= i < |t| ==> t[i] in {0x61, 0x62, NL};
    assert t[..1] == [0x61];
    LongSecondLineRuns(t, end);
    FoldMarkEnd(t[..1]);
  }

  lemma {:induction false} LongSecondLineRuns(t: Text, end: Text)
    requires (end == [] || end == [NL, 0x62]) && t == LongSecondLine(end)
    ensures LongestRun(t, false) <= LINE_LENGTH && LongestRun(t, true) == 0
  {
    LongestRunMeaning(t, false);
    LongestRunMeaning(t, true);
    assert !InRun(t[1], false) && (end != [] ==> !InRun(t[LINE_LENGTH + 2], false));
    assert forall k :: 0 <= k < |t| ==> !InRun(t[k], true);
    assert forall i: nat, j: nat :: i <= j <= |t| && IsRun(t, false, i, j) ==> j - i <= LINE_LENGTH;
    forall i: nat, j: nat | i < j <= |t| ensures !IsRun(t, true, i, j) { assert !InRun(t[i], true); }
  }

  /** The newline that ends the second line is beyond the limit. */
  lemma {:induction false} LongTail(column: int, end: Text)
    requires end != [] && end[0] == NL
    ensures !Within(column, LongSecondLine(end), TOKEN_LIMIT)
  {
    var l := Letters(LINE_LENGTH);
    WithinConcat(column, [0x61, NL], l + end, TOKEN_LIMIT);
    ColumnAfterEol(column, [0x61, NL]);
    WithinConcat(0, l, end, TOKEN_LIMIT);
    LettersColumn(0, LINE_LENGTH);
  }

  /** A string for which a triple quote is recommended, and that the default callback makes the scanner fail on. */
  lemma {:induction false} LongLineFails(bare: bool, u: Text, line: nat, column: int)
    requires u != [] ==> !IsQuote(u[0]) && u[0] != COLON
    ensures var t := LongSecondLine([NL, 0x62]);
      && Clean(t) && NoCr(t) && Preferred(t, bare, true, LINE_LENGTH) == Tripled(SQ)
      && Lexer.NextToken(QuotedChars(Quotation(SQ, true, t)) + u, line, column, true, false) == Err(Lexer.OverlengthLine)
  {
    var t := LongSecondLine([NL, 0x62]);
    LongSecondLineIs([NL, 0x62]);
    LastRunMeaning(t, false, |t| - 2);
    assert !InRun(t[|t| - 2], false) && t[|t| - 2] == NL;
    LongTail(column + 2, [NL, 0x62]);
    DelimiterSound(t, bare, true, LINE_LENGTH, u, line, column, false);
  }

  /** A string that is written as a text field without protocols, and that the default callback makes the parser fail on. */
  lemma {:induction false} LongFieldFails(quoted: bool, after: Text, line: nat, column: int, norm: Text -> Text)
    requires Ends(after)
    ensures var t := LongSecondLine([]); var d := DField([NL], t, Lf);
      && StringFits(t, quoted) && !FoldFor(t) && !PrefixFor(t) && ShowsString(d, t, quoted)
      && Parser.ReadValue(Chars(d) + after, line, column, true, norm, false) == Err(Lexer.OverlengthLine)
  {
    var t := LongSecondLine([]); var d := DField([NL], t, Lf);
    LongSecondLineIs([]);
    LastRunMeaning(t, false, 2);
    LongField(d, t, quoted);
    LongContent();
    Alone(t);
    RoundTrip(d, Char(t, quoted), after, line, column, true, norm, false);
  }

  lemma {:induction false} Alone(content: Text)
    ensures Spaced(DField([NL], content, Lf), true)
  {
  }

  lemma {:induction false} LongContent()
    ensures !FieldWithin(LongSecondLine([]))
  {
    LongTail(1, [NL]);
    assert LongSecondLine([]) + [NL] == LongSecondLine([NL]);
  }

  lemma {:induction false} LongField(d: Doc, t: Text, quoted: bool)
    requires d == DField([NL], t, Lf) && t == LongSecondLine([]) && NoCr(t) && Clean(t)
    requires LineEnd(t) == 1 && LongestRun(t, false) <= LINE_LENGTH && LongestRun(t, true) == 0
    requires !HasNlSemi(t) && FoldMark(t[..1]) == -1 && NL in t && LastRun(t, false) >= LINE_LENGTH
    ensures StringFits(t, quoted) && !FoldFor(t) && !PrefixFor(t) && ShowsString(d, t, quoted)
  {
  }

  /** A long line that starts with a semicolon. */
  function SemicolonLine(): Text {
    [SEMI] + Letters(LINE_LENGTH)
  }

  lemma {:induction false} SemicolonLineIs(quoted: bool)
    ensures var t := SemicolonLine();
      && Clean(t) && NoCr(t) && Preferred(t, !quoted, true, LINE_LENGTH) == Delimiter.Field
      && FoldFor(t) && !PrefixFor(t) && FieldBreaks(t)
  {
    var t := SemicolonLine();
    AsciiClean(t, []);
    assert t + [] == t;
    assert NL !in t;
    LineEndIs(t, |t|);
  }

  /** It is folded into two lines. */
  lemma {:induction false} SemicolonLineContent()
    ensures TextFieldWriter.Content(SemicolonLine(), true, false).Some?
  {
    var t := SemicolonLine();
    LineEndIs(t, |t|);
    assert t[..|t|] == t;
    TextFieldWriter.BodyStep(t, true, false, []);
    FoldMarkEnd(t);
    SemicolonLineCut();
    TwoSegments(t);
  }

  lemma {:induction false} TwoSegments(line: Text)
    requires line != [] && 0 < TextFieldWriter.Cut(line, true, false) <= |line|
    requires |line| - TextFieldWriter.Cut(line, true, false) <= TextFieldWriter.TARGET_LENGTH
    ensures TextFieldWriter.Segments(line, false, true, false).Some?
  {
    var rest := line[TextFieldWriter.Cut(line, true, false)..];
    if rest != [] {
      assert TextFieldWriter.Cut(rest, true, false) == |rest|;
      assert rest[|rest|..] == [];
      assert TextFieldWriter.Segments(rest, false, true, false).Some?;
    }
  }

  lemma {:induction false} FoldMarkEnd(t: Text)
    requires t != [] && t[|t| - 1] == 0x61
    ensures FoldMark(t) == -1
  {
  }

  lemma {:induction false} SemicolonLineCut()
    ensures TextFieldWriter.Cut(SemicolonLine(), true, false) == TextFieldWriter.TARGET_LENGTH
  {
    var t := SemicolonLine();
    var target, window := TextFieldWriter.TARGET_LENGTH, TextFieldWriter.FOLDING_WINDOW;
    assert forall i :: 0 <= i < |t| ==> !IsBlank(t[i]);
    assert FoldLine.FirstBlank(t, target + 1, target + window + 1) == target + window + 1;
    assert FoldLine.Zigzag(target, 0) == target;
    assert FoldLine.Admissible(t, target, false);
    assert FoldLine.NearTarget(t, target, window, false, 0) == 0;
  }

  /** A string whose text field ends early, under any callback. */
  lemma {:induction false} SemicolonLineFails(quoted: bool, after: Text, line: nat, column: int, norm: Text -> Text, lenient: bool)
    requires Ends(after)
    ensures TextFieldWriter.Content(SemicolonLine(), true, false).Some?
    ensures var t := SemicolonLine(); var d := DField([NL], TextFieldWriter.Content(t, true, false).value, Lf);
      && ShowsString(d, t, quoted)
      && !Reads(Parser.ReadValue(Chars(d) + after, line, column, true, norm, lenient), RereadString(t, quoted), after)
  {
    SemicolonLineIs(quoted);
    SemicolonLineContent();
    var t := SemicolonLine();
    Alone(TextFieldWriter.Content(t, true, false).value);
    FieldRoundTrip(DField([NL], TextFieldWriter.Content(t, true, false).value, Lf), t, quoted, after, line, column, true, norm, lenient);
  }
}
