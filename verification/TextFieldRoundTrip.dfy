/**
 Decoding a written text field gives the text back, but for one trailing
 newline when a protocol is in use; and the field's contents never contain
 its closing delimiter, except in the one case that is stated exactly.
 */
module TextFieldRoundTrip {
  import opened Units
  import opened Wrappers
  import FoldLine
  import opened TextFieldWriter
  import opened TextDecoder

  /** Neither a newline nor a carriage return. */
  predicate OneLine(line: Text) {
    forall i :: 0 <= i < |line| ==> !IsEol(line[i])
  }

  /** The lines of a written field that do not carry the prefix are empty. */
  predicate Prefixed(p: Text, line: Text, prefix: Text) {
    p == prefix || (p == [] && line == [] && prefix != [] && prefix[0] != NL)
  }

  /** A terminated physical line, read back. */
  lemma {:induction false} UnfoldTerminated(p: Text, line: Text, rest: Text, prefix: Text, folded: bool)
    requires OneLine(line) && Prefixed(p, line, prefix)
    ensures Unfold(p + line + [NL] + rest, prefix, folded) == DecodedLine(line, folded) + Unfold(rest, prefix, folded)
  {
    var s := p + line + [NL] + rest;
    var t := if prefix <= s then s[|prefix|..] else s;
    TerminatedParts(p, line, rest, prefix);
    FirstEolIs(t, |line|);
    UnfoldStep(s, prefix, folded, t);
  }

  lemma {:induction false} TerminatedParts(p: Text, line: Text, rest: Text, prefix: Text)
    requires Prefixed(p, line, prefix)
    ensures var s, t := p + line + [NL] + rest, line + [NL] + rest;
      && s != [] && t == (if prefix <= s then s[|prefix|..] else s)
      && (forall i :: 0 <= i < |line| ==> t[i] == line[i]) && t[|line|] == NL
      && t[..|line|] == line && t[|line| + 1..] == rest
  {
    var s := p + line + [NL] + rest;
    assert s == p + (line + [NL] + rest);
    assert p != prefix ==> s[0] == NL;
    assert p == prefix ==> s[..|prefix|] == prefix;
  }

  /** A line that the end of the field terminates, read back. */
  lemma {:induction false} UnfoldLast(line: Text, prefix: Text, folded: bool)
    requires OneLine(line) && line != []
    ensures Unfold(prefix + line, prefix, folded) == line
  {
    var s := prefix + line;
    assert s[..|prefix|] == prefix && s[|prefix|..] == line;
    FirstEolIs(line, |line|);
    UnfoldStep(s, prefix, folded, line);
    assert line[NextLine(line)..] == [];
  }

  /** What decoding the lines written for the text after a logical line has to give. */
  ghost predicate ReadsAs(body: Text, rest: Text, fold: bool, prefix: bool) {
    if rest == [] then body == []
    else body != [] && body[0] == NL && Unfold(body[1..], LinePrefix(prefix), fold) == Chomp(rest)
  }

  function Following(rest: Text): Text {
    if rest == [] then [] else [NL] + Chomp(rest)
  }

  lemma {:induction false} UnfoldBody(body: Text, rest: Text, fold: bool, prefix: bool)
    requires ReadsAs(body, rest, fold, prefix)
    ensures Unfold(body, LinePrefix(prefix), fold) == Following(rest)
  {
    if rest != [] { UnfoldNewline(body, LinePrefix(prefix), fold); }
  }

  lemma {:induction false} UnfoldNewline(body: Text, prefix: Text, fold: bool)
    requires body != [] && body[0] == NL && (prefix != [] ==> prefix[0] != NL)
    ensures Unfold(body, prefix, fold) == [NL] + Unfold(body[1..], prefix, fold)
  {
    assert body == [] + [] + [NL] + body[1..];
    UnfoldTerminated([], [], body[1..], prefix, fold);
  }

  /** A physical line that ends in a fold mark is joined to what follows. */
  lemma {:induction false} FoldedLine(line: Text, after: Text, prefix: Text)
    requires OneLine(line)
    ensures Unfold(prefix + line + [BSL] + [NL] + after, prefix, true) == line + Unfold(after, prefix, true)
  {
    FoldMarkAppend(line, BSL);
    assert prefix + line + [BSL] == prefix + (line + [BSL]);
    UnfoldTerminated(prefix, line + [BSL], after, prefix, true);
    assert (line + [BSL])[..|line|] == line;
  }

  /** A physical line without a fold mark, and what follows it. */
  lemma {:induction false} FinalLine(line: Text, fold: bool, prefix: bool, rest: Text, body: Text)
    requires line != [] && OneLine(line) && (fold ==> FoldMark(line) == -1)
    requires ReadsAs(body, rest, fold, prefix)
    ensures Unfold(LinePrefix(prefix) + line + body, LinePrefix(prefix), fold) == line + Following(rest)
  {
    var p := LinePrefix(prefix);
    if rest == [] {
      assert p + line + body == p + line;
      UnfoldLast(line, p, fold);
      assert line + [] == line;
    } else {
      assert p + line + body == p + line + [NL] + body[1..];
      UnfoldTerminated(p, line, body[1..], p, fold);
      Associative(line, [NL], Chomp(rest));
    }
  }

  lemma {:induction false} PhysicalTail(line: Text, prefix: bool, body: Text)
    ensures Physical(line, true, prefix)[1..] + Tail(true, body) == LinePrefix(prefix) + line + [BSL] + [NL] + body
    ensures Physical(line, false, prefix)[1..] + Tail(false, body) == LinePrefix(prefix) + line + body
  {
    assert Physical(line, true, prefix)[1..] == LinePrefix(prefix) + line + [BSL];
    assert Physical(line, false, prefix)[1..] == LinePrefix(prefix) + line;
    assert Tail(false, body) == body;
    Associative(LinePrefix(prefix) + line + [BSL], [NL], body);
  }

  lemma {:induction false} PhysicalThen(a: Text, prefix: bool, s: Text, t: Text)
    requires s != [] && s[0] == NL
    ensures (Physical(a, true, prefix) + s)[1..] + t == LinePrefix(prefix) + a + [BSL] + [NL] + (s[1..] + t)
  {
    assert s == [NL] + s[1..];
    assert (Physical(a, true, prefix) + s)[1..] == LinePrefix(prefix) + a + [BSL] + [NL] + s[1..];
    Associative(LinePrefix(prefix) + a + [BSL] + [NL], s[1..], t);
  }

  lemma {:induction false} ThenTail(s: Text, protect: bool, body: Text)
    requires s != []
    ensures s + (if protect then [NL] else []) + body == [s[0]] + (s[1..] + Tail(protect, body))
  {
    assert s == [s[0]] + s[1..];
  }

  /** The last physical line of a logical line. */
  lemma {:induction false} LastSegment(line: Text, protect: bool, fold: bool, prefix: bool, rest: Text, body: Text)
    requires line != [] && OneLine(line) && (protect ==> fold) && (fold && !protect ==> FoldMark(line) == -1)
    requires ReadsAs(body, rest, fold, prefix)
    ensures Unfold(Physical(line, protect, prefix)[1..] + Tail(protect, body), LinePrefix(prefix), fold)
         == line + Following(rest)
  {
    PhysicalTail(line, prefix, body);
    if protect {
      FoldedLine(line, body, LinePrefix(prefix));
      UnfoldBody(body, rest, fold, prefix);
    } else {
      FinalLine(line, fold, prefix, rest, body);
    }
  }

  /** What follows the segments of a logical line. */
  function Tail(protect: bool, body: Text): Text {
    (if protect then [NL] else []) + body
  }

  /** The segments of a logical line, read back together with what follows them. */
  ghost predicate SegmentsReadAs(s: Text, line: Text, protect: bool, fold: bool, prefix: bool, rest: Text, body: Text) {
    && s != [] && s[0] == NL
    && Unfold(s[1..] + Tail(protect, body), LinePrefix(prefix), fold) == line + Following(rest)
  }

  /** One more physical line in front of segments that are read back. */
  lemma {:induction false} FoldedSegment(a: Text, s: Text, b: Text, protect: bool, prefix: bool, rest: Text, body: Text)
    requires OneLine(a) && SegmentsReadAs(s, b, protect, true, prefix, rest, body)
    ensures SegmentsReadAs(Physical(a, true, prefix) + s, a + b, protect, true, prefix, rest, body)
  {
    PhysicalThen(a, prefix, s, Tail(protect, body));
    FoldedLine(a, s[1..] + Tail(protect, body), LinePrefix(prefix));
    Associative(a, b, Following(rest));
  }

  /** All physical lines of a logical line, read back together with what follows them. */
  lemma {:induction false} SegmentsRead(line: Text, protect: bool, fold: bool, prefix: bool, rest: Text, body: Text)
    requires line != [] && OneLine(line) && (protect ==> fold) && (fold && !protect ==> FoldMark(line) == -1)
    requires ReadsAs(body, rest, fold, prefix)
    requires Segments(line, protect, fold, prefix).Some?
    ensures SegmentsReadAs(Segments(line, protect, fold, prefix).value, line, protect, fold, prefix, rest, body)
    decreases |line|
  {
    var r := Cut(line, fold, prefix);
    var a, b := line[..r], line[r..];
    assert line == a + b;
    if r == |line| {
      LastSegment(line, protect, fold, prefix, rest, body);
      assert a == line && b == [];
      assert Physical(line, protect, prefix) + [] == Physical(line, protect, prefix);
    } else {
      if !protect { FoldMarkSuffix(a, b); }
      SegmentsRead(b, protect, fold, prefix, rest, body);
      FoldedSegment(a, Segments(b, protect, fold, prefix).value, b, protect, prefix, rest, body);
    }
  }

  lemma {:induction false} ChompLine(line: Text, rest: Text, terminated: bool)
    requires line != [] && NoNl(line) && (!terminated ==> rest == [])
    ensures Chomp(line + (if terminated then [NL] else []) + rest) == line + Following(rest)
  {
    if rest != [] {
      ChompAppend(line + [NL], rest);
      Associative(line, [NL], Chomp(rest));
    } else if terminated {
      assert (line + [NL])[..|line|] == line;
      assert line + [NL] + [] == line + [NL];
    } else {
      assert line + [] + [] == line;
    }
  }

  lemma {:induction false} ChompAppend(a: Text, b: Text)
    requires b != []
    ensures Chomp(a + b) == a + Chomp(b)
  {
    assert (a + b)[..|a| + |b| - 1] == a + b[..|b| - 1];
  }

  /** The body of a text that starts with an empty line. */
  lemma {:induction false} EmptyLineRead(rest: Text, fold: bool, prefix: bool, body: Text)
    requires ReadsAs(body, rest, fold, prefix)
    ensures ReadsAs([NL] + body, [NL] + rest, fold, prefix)
  {
    UnfoldBody(body, rest, fold, prefix);
    assert ([NL] + body)[1..] == body;
    ChompEmptyLine(rest);
  }

  lemma {:induction false} ChompEmptyLine(rest: Text)
    ensures Chomp([NL] + rest) == Following(rest)
  {
    if rest != [] {
      assert [NL] + rest == ([NL] + rest[..|rest| - 1]) + [rest[|rest| - 1]];
    }
  }

  /** The body of a text that starts with a line that is not empty. */
  lemma {:induction false} LineRead(line: Text, s: Text, fold: bool, prefix: bool, terminated: bool, rest: Text, body: Text)
    requires line != [] && OneLine(line) && (!terminated ==> rest == [])
    requires SegmentsReadAs(s, line, Protect(line, fold), fold, prefix, rest, body)
    ensures ReadsAs(s + (if Protect(line, fold) then [NL] else []) + body,
                    line + (if terminated then [NL] else []) + rest, fold, prefix)
  {
    ChompLine(line, rest, terminated);
    ThenTail(s, Protect(line, fold), body);
  }

  /** The whole body of a field, read back. */
  lemma {:induction false} BodyRead(text: Text, fold: bool, prefix: bool)
    requires NoCr(text) && Body(text, fold, prefix).Some?
    ensures ReadsAs(Body(text, fold, prefix).value, text, fold, prefix)
    decreases |text|
  {
    if text == [] {
    } else if text[0] == NL {
      BodyRead(text[1..], fold, prefix);
      EmptyLineRead(text[1..], fold, prefix, Body(text[1..], fold, prefix).value);
      assert text == [NL] + text[1..];
    } else {
      var k := LineEnd(text);
      var line := text[..k];
      var rest := if k < |text| then text[k + 1..] else [];
      assert text == line + (if k < |text| then [NL] else []) + rest;
      BodyStep(text, fold, prefix, rest);
      BodyRead(rest, fold, prefix);
      var body := Body(rest, fold, prefix).value;
      SegmentsRead(line, Protect(line, fold), fold, prefix, rest, body);
      LineRead(line, Segments(line, Protect(line, fold), fold, prefix).value, fold, prefix, k < |text|, rest, body);
    }
  }

  lemma {:induction false} PrefixHasNoBackslash()
    ensures Backslashes(PREFIX) == 0 && LastBackslash(PREFIX) == -1
  {
    LineAppend([], GT);
    LineAppend([GT], SP);
    assert PREFIX == [] + [GT] + [SP];
  }

  /** The three possible first lines of a field under a protocol. */
  lemma {:induction false} HeaderAnnounces(fold: bool, prefix: bool)
    requires fold || prefix
    ensures var h := Header(fold, prefix)[2..];
      && OneLine(h) && h != [] && h[0] != SEMI
      && Announced(h, true, true) == Marked(|LinePrefix(prefix)|, fold)
      && LinePrefix(prefix) <= h
  {
    var h, p := Header(fold, prefix)[2..], LinePrefix(prefix);
    PrefixHasNoBackslash();
    LineAppend(p, BSL);
    FoldMarkAppend(p, BSL);
    if fold && prefix {
      assert h == p + [BSL] + [BSL];
      LineAppend(p + [BSL], BSL);
      FoldMarkAppend(p + [BSL], BSL);
      Announces(h, 2, 3, true);
    } else {
      assert h == p + [BSL];
      Announces(h, 1, |p|, fold);
    }
  }

  /** What a line with one or two backslashes at its end announces. */
  lemma {:induction false} Announces(h: Text, n: nat, last: nat, fold: bool)
    requires Backslashes(h) == n && LastBackslash(h) == last && FoldMark(h) >= 0
    requires (n == 1 && (fold <==> last == 0)) || (n == 2 && last == 3 && h[2] == BSL && fold)
    ensures Announced(h, true, true) == Marked(last + 1 - n, fold)
  {
  }

  /** A text that no protocol was used for is read verbatim. */
  lemma {:induction false} VerbatimRead(text: Text)
    requires NoCr(text) && text != []
    requires text[0] == SEMI || FoldMark(text[..LineEnd(text)]) == -1
    ensures Decode(text, true, true) == text
  {
    FirstEolIs(text, LineEnd(text));
    StandardEolsAppend(text, []);
    assert text + [] == text;
  }

  /** Contents under a protocol: the header line announces it, and the body follows. */
  lemma {:induction false} ProtocolRead(text: Text, fold: bool, prefix: bool)
    requires NoCr(text) && text != [] && (fold || prefix)
    requires Body(text, fold, prefix).Some?
    ensures Decode(Header(fold, prefix)[2..] + Body(text, fold, prefix).value, true, true) == Chomp(text)
  {
    var h, body := Header(fold, prefix)[2..], Body(text, fold, prefix).value;
    HeaderAnnounces(fold, prefix);
    BodyRead(text, fold, prefix);
    HeaderAndBody(h, body, LinePrefix(prefix));
    MarkedRead(h + body, |LinePrefix(prefix)|, fold);
  }

  /** A header line, and the body that follows it with a newline. */
  lemma {:induction false} HeaderAndBody(h: Text, body: Text, p: Text)
    requires OneLine(h) && h != [] && body != [] && body[0] == NL && p <= h
    ensures var c := h + body;
      FirstEol(c) == |h| && c[..|h|] == h && NextLine(c) == |h| + 1 && c[|h| + 1..] == body[1..] && c[..|p|] == p
  {
    var c := h + body;
    assert forall i :: 0 <= i < |h| ==> c[i] == h[i];
    FirstEolIs(c, |h|);
    assert c[..|p|] == h[..|p|];
  }

  /** Decoding under a protocol that is announced. */
  lemma {:induction false} MarkedRead(c: Text, n: nat, fold: bool)
    requires c != [] && c[0] != SEMI && n <= |c| && (n > 0 || fold)
    requires Announced(c[..FirstEol(c)], true, true) == Marked(n, fold)
    ensures Decode(c, true, true) == Unfold(c[NextLine(c)..], c[..n], fold)
  {
  }

  /** The text a reader gets back. */
  function ReadBack(text: Text, fold: bool, prefix: bool): Text {
    if fold || prefix then Chomp(text) else text
  }

  /** May write_text be asked to write this text without a protocol? */
  predicate Unreserved(text: Text) {
    text == [] || text[0] == SEMI || FoldMark(text[..LineEnd(text)]) == -1
  }

  /** Decoding what was written: only a trailing newline is lost, and only under a protocol. */
  lemma {:induction false} ContentRead(text: Text, fold: bool, prefix: bool)
    requires NoCr(text) && text != [] && (!fold && !prefix ==> Unreserved(text))
    requires Content(text, fold, prefix).Some?
    ensures Decode(Content(text, fold, prefix).value, true, true) == ReadBack(text, fold, prefix)
  {
    if fold || prefix {
      ProtocolRead(text, fold, prefix);
    } else {
      VerbatimRead(text);
    }
  }

  // The closing delimiter does not occur early

  lemma {:induction false} NlSemiConcat(a: Text, b: Text)
    ensures HasNlSemi(a + b) <==>
      HasNlSemi(a) || HasNlSemi(b) || (a != [] && b != [] && a[|a| - 1] == NL && b[0] == SEMI)
  {
    var s := a + b;
    if HasNlSemi(a) {
      var i :| 0 <= i < |a| - 1 && a[i] == NL && a[i + 1] == SEMI;
      assert s[i] == NL && s[i + 1] == SEMI;
    }
    if HasNlSemi(b) {
      var i :| 0 <= i < |b| - 1 && b[i] == NL && b[i + 1] == SEMI;
      assert s[|a| + i] == NL && s[|a| + i + 1] == SEMI;
    }
    if HasNlSemi(s) {
      var i :| 0 <= i < |s| - 1 && s[i] == NL && s[i + 1] == SEMI;
      if i + 1 < |a| {
        assert a[i] == NL && a[i + 1] == SEMI;
      } else if i >= |a| {
        assert b[i - |a|] == NL && b[i - |a| + 1] == SEMI;
      }
    }
    if a != [] && b != [] && a[|a| - 1] == NL && b[0] == SEMI {
      assert s[|a| - 1] == NL && s[|a| - 1 + 1] == SEMI;
    }
  }

  /** Neither contains a newline-semicolon nor ends in a newline, and starts with a newline. */
  predicate Guarded(s: Text) {
    s != [] && s[0] == NL && !HasNlSemi(s) && s[|s| - 1] != NL
  }

  lemma {:induction false} PhysicalGuarded(segment: Text, mark: bool, prefix: bool)
    requires segment != [] && OneLine(segment) && (prefix || segment[0] != SEMI)
    ensures Guarded(Physical(segment, mark, prefix))
  {
    var s := Physical(segment, mark, prefix);
    assert forall i :: 1 <= i < |s| ==> s[i] != NL;
    assert s[1] != SEMI;
  }

  lemma {:induction false} SegmentsGuarded(line: Text, protect: bool, fold: bool, prefix: bool)
    requires line != [] && OneLine(line) && (prefix || line[0] != SEMI)
    requires Segments(line, protect, fold, prefix).Some?
    ensures Guarded(Segments(line, protect, fold, prefix).value)
    decreases |line|
  {
    var r := Cut(line, fold, prefix);
    SegmentFirst(line, protect, fold, prefix);
    PhysicalGuarded(line[..r], r < |line| || protect, prefix);
    if r < |line| {
      FoldLine.FoldContract(line, TARGET_LENGTH, FOLDING_WINDOW, prefix);
      SegmentsGuarded(line[r..], protect, fold, prefix);
      NlSemiConcat(Physical(line[..r], true, prefix), Segments(line[r..], protect, fold, prefix).value);
    }
  }

  /** The first physical line of a logical line, and the others. */
  lemma {:induction false} SegmentFirst(line: Text, protect: bool, fold: bool, prefix: bool)
    requires line != [] && Segments(line, protect, fold, prefix).Some?
    ensures var r := Cut(line, fold, prefix); var first := Physical(line[..r], r < |line| || protect, prefix);
      && 0 < r <= |line| && Segments(line[r..], protect, fold, prefix).Some?
      && Segments(line, protect, fold, prefix).value == first + Segments(line[r..], protect, fold, prefix).value
      && (r == |line| ==> Segments(line, protect, fold, prefix).value == first)
  {
    var r := Cut(line, fold, prefix);
    var first := Physical(line[..r], r < |line| || protect, prefix);
    assert first + [] == first;
  }

  /** Without prefixing, no logical line may start with a semicolon. */
  predicate Writable(text: Text, prefix: bool) {
    prefix || ((text != [] ==> text[0] != SEMI) && !HasNlSemi(text))
  }

  lemma {:induction false} WritableRest(text: Text, prefix: bool, n: nat)
    requires Writable(text, prefix) && 0 < n <= |text| && text[n - 1] == NL
    ensures Writable(text[n..], prefix)
  {
    var rest := text[n..];
    if !prefix {
      assert text == text[..n] + rest;
      NlSemiConcat(text[..n], rest);
    }
  }

  lemma {:induction false} BodyGuarded(text: Text, fold: bool, prefix: bool)
    requires NoCr(text) && Writable(text, prefix) && Body(text, fold, prefix).Some?
    ensures var b := Body(text, fold, prefix).value;
      !HasNlSemi(b) && (b != [] ==> b[0] == NL)
    decreases |text|
  {
    if text == [] {
    } else if text[0] == NL {
      WritableRest(text, prefix, 1);
      BodyGuarded(text[1..], fold, prefix);
      NlSemiConcat([NL], Body(text[1..], fold, prefix).value);
    } else {
      var k := LineEnd(text);
      var line := text[..k];
      var rest := if k < |text| then text[k + 1..] else [];
      FirstLine(text, prefix, line, rest);
      BodyParts(text, fold, prefix, line, rest);
      BodyGuarded(rest, fold, prefix);
      SegmentsGuarded(line, Protect(line, fold), fold, prefix);
      LineGuarded(Segments(line, Protect(line, fold), fold, prefix).value, Protect(line, fold), Body(rest, fold, prefix).value);
    }
  }

  /** The first line of a text, and what follows it. */
  lemma {:induction false} FirstLine(text: Text, prefix: bool, line: Text, rest: Text)
    requires NoCr(text) && Writable(text, prefix) && text != [] && text[0] != NL
    requires var k := LineEnd(text); line == text[..k] && rest == if k < |text| then text[k + 1..] else []
    ensures line != [] && OneLine(line) && (prefix || line[0] != SEMI)
    ensures NoCr(rest) && Writable(rest, prefix) && |rest| < |text|
  {
    var k := LineEnd(text);
    if k < |text| { WritableRest(text, prefix, k + 1); }
  }

  /** A guarded line, and a body that starts with a newline if it is not empty. */
  lemma {:induction false} LineGuarded(s: Text, protect: bool, body: Text)
    requires Guarded(s) && !HasNlSemi(body) && (body != [] ==> body[0] == NL)
    ensures var b := s + (if protect then [NL] else []) + body; !HasNlSemi(b) && b[0] == NL
  {
    var end := if protect then [NL] else [];
    NlSemiConcat(s, end);
    NlSemiConcat(s + end, body);
  }

  /**
   The closing delimiter occurs inside the contents in exactly one situation:
   a text that starts with a semicolon is folded without being prefixed.
   */
  lemma {:induction false} ContentGuarded(text: Text, fold: bool, prefix: bool)
    requires NoCr(text) && text != [] && (prefix || !HasNlSemi(text))
    requires Content(text, fold, prefix).Some?
    ensures HasNlSemi(Content(text, fold, prefix).value) <==> fold && !prefix && text[0] == SEMI
  {
    if fold || prefix {
      var h, b := Header(fold, prefix)[2..], Body(text, fold, prefix).value;
      HeaderAnnounces(fold, prefix);
      NlSemiConcat(h, b);
      if fold && !prefix && text[0] == SEMI {
        EarlyDelimiter(text);
      } else {
        BodyGuarded(text, fold, prefix);
      }
    }
  }

  /** The failing case: the second physical line starts with the semicolon of the text. */
  lemma {:induction false} EarlyDelimiter(text: Text)
    requires text != [] && text[0] == SEMI && Body(text, true, false).Some?
    ensures var b := Body(text, true, false).value; |b| >= 2 && b[0] == NL && b[1] == SEMI && HasNlSemi(b)
  {
    var k := LineEnd(text);
    var line := text[..k];
    BodyStep(text, true, false, if k < |text| then text[k + 1..] else []);
    var s := Segments(line, Protect(line, true), true, false).value;
    assert s[1] == line[0];
  }
}
