/**
 Writing a text field under the line-folding and text-prefix protocols.
 */
module TextFieldWriter {
  import opened Units
  import opened Wrappers
  import opened FoldLine

  const PREFIX: Text := [GT, SP]
  const FOLDING_WINDOW := 6
  const TARGET_LENGTH := LINE_LENGTH - 8

  function LinePrefix(prefix: bool): Text {
    if prefix then PREFIX else []
  }

  /** Opening delimiter and protocol marks, starting with the newline before the semicolon. */
  function Header(fold: bool, prefix: bool): Text {
    [NL, SEMI] + (if prefix then PREFIX + [BSL] else []) + (if fold then [BSL] else [])
  }

  function Prepend(a: Text, b: Option<Text>): Option<Text> {
    if b.Some? then Some(a + b.value) else None
  }

  lemma {:induction false} PrependNothing(b: Option<Text>)
    ensures Prepend([], b) == b
  {
    assert b.Some? ==> [] + b.value == b.value;
  }

  lemma {:induction false} PrependToNothing(a: Text)
    ensures Prepend(a, Some([])) == Some(a)
  {
    assert a + [] == a;
  }

  lemma {:induction false} PrependTwice(a1: Text, a2: Text, b: Option<Text>)
    ensures Prepend(a1, Prepend(a2, b)) == Prepend(a1 + a2, b)
  {
    assert b.Some? ==> a1 + (a2 + b.value) == (a1 + a2) + b.value;
  }

  /** Length of the next physical line taken from what is left of a logical line. */
  ghost function Cut(line: Text, fold: bool, prefix: bool): (r: nat)
    requires line != []
    ensures r <= |line|
    ensures !fold ==> r == |line|
  {
    FoldContract(line, TARGET_LENGTH, FOLDING_WINDOW, prefix);
    SegmentLength(line, fold, TARGET_LENGTH, FOLDING_WINDOW, prefix)
  }

  /** A cut inside the line splits no surrogate pair and, without prefixing, leaves no semicolon in front. */
  lemma {:induction false} CutIsSafe(line: Text, fold: bool, prefix: bool)
    requires line != []
    ensures var r := Cut(line, fold, prefix);
      0 < r < |line| ==> !IsSurrogatePair(line[r - 1], line[r]) && (prefix || line[r] != SEMI)
  {
    FoldContract(line, TARGET_LENGTH, FOLDING_WINDOW, prefix);
  }

  /** One physical line: newline, prefix, segment, and a backslash unless the logical line just ends. */
  function Physical(segment: Text, mark: bool, prefix: bool): Text {
    [NL] + LinePrefix(prefix) + segment + (if mark then [BSL] else [])
  }

  /** The physical lines of one logical line; None when it cannot be folded. */
  ghost function Segments(line: Text, protect: bool, fold: bool, prefix: bool): Option<Text> {
    if line == [] then Some([])
    else
      var r := Cut(line, fold, prefix);
      if r == 0 then None
      else Prepend(Physical(line[..r], r < |line| || protect, prefix), Segments(line[r..], protect, fold, prefix))
  }

  /** Does the end of the logical line need protection from being read as a fold? */
  function Protect(line: Text, fold: bool): bool {
    fold && FoldMark(line) >= 0
  }

  /** What follows the header, up to the closing delimiter. */
  ghost function Body(text: Text, fold: bool, prefix: bool): Option<Text>
    decreases |text|
  {
    if text == [] then Some([])
    else if text[0] == NL then Prepend([NL], Body(text[1..], fold, prefix))
    else
      var k := LineEnd(text);
      var protect := Protect(text[..k], fold);
      var rest := if k < |text| then Body(text[k + 1..], fold, prefix) else Some([]);
      var segments := Segments(text[..k], protect, fold, prefix);
      if segments.None? then None
      else Prepend(segments.value + (if protect then [NL] else []), rest)
  }

  /** Everything write_text prints between the delimiters; None when it reports an internal error. */
  ghost function Content(text: Text, fold: bool, prefix: bool): Option<Text> {
    if !fold && !prefix then Some(text)
    else Prepend(Header(fold, prefix)[2..], Body(text, fold, prefix))
  }

  ghost function Field(text: Text, fold: bool, prefix: bool): Option<Text> {
    var c := Content(text, fold, prefix);
    if c.None? then None else Some([NL, SEMI] + c.value + [NL, SEMI])
  }

  /** The array holds the text from index tok on, NUL-terminated. */
  ghost predicate Holds(text: array<Unit>, orig: Text, tok: nat)
    reads text
  {
    && text.Length == |orig| + 1 && text[|orig|] == NUL
    && tok <= |orig| && NoNul(orig)
    && forall i :: tok <= i < |orig| ==> text[i] == orig[i]
  }

  /** Is the newline at index i the end of a logical line that is not empty? */
  predicate EndsLine(orig: Text, i: nat)
    requires i < |orig|
  {
    orig[i] == NL && i > 0 && orig[i - 1] != NL
  }

  /** Every newline before index tok that ends a non-empty line has been overwritten. */
  ghost predicate Overwritten(text: array<Unit>, orig: Text, tok: nat)
    requires tok <= |orig| < text.Length
    reads text
  {
    forall i :: 0 <= i < tok ==> text[i] == if EndsLine(orig, i) then NUL else orig[i]
  }

  lemma {:induction false} OneMoreUnit(orig: Text, tok: nat, end: nat, fold: bool)
    requires tok <= end < |orig| && orig[end] != NL && NoNl(orig[tok..end])
    ensures NoNl(orig[tok..end + 1])
    ensures Protect(orig[tok..end + 1], fold)
      == if orig[end] == BSL then fold else IsBlank(orig[end]) && Protect(orig[tok..end], fold)
  {
    SliceAppend(orig, tok, end);
    FoldMarkAppend(orig[tok..end], orig[end]);
    NoNlAppend(orig[tok..end], orig[end]);
  }

  lemma {:induction false} NoNlAppend(s: Text, c: Unit)
    requires NoNl(s) && c != NL
    ensures NoNl(s + [c])
  {
  }

  /** Finds the end of the logical line at tok and whether it must be protected. */
  method FindLineEnd(text: array<Unit>, tok: nat, fold: bool, ghost orig: Text) returns (end: nat, protect: bool)
    requires Holds(text, orig, tok)
    ensures end == tok + LineEnd(orig[tok..])
    ensures protect == Protect(orig[tok..end], fold)
  {
    end, protect := tok, false;
    while text[end] != NUL && text[end] != NL
      invariant tok <= end <= |orig|
      invariant NoNl(orig[tok..end])
      invariant protect == Protect(orig[tok..end], fold)
      decreases |orig| - end
    {
      var c := text[end];
      OneMoreUnit(orig, tok, end, fold);
      if c == BSL {
        protect := fold;
      } else if !IsBlank(c) {
        protect := false;
      }
      end := end + 1;
    }
    assert forall i :: 0 <= i < end - tok ==> orig[tok..][i] == orig[tok..end][i];
    LineEndIs(orig[tok..], end - tok);
  }

  /** Writes the next physical line; len is 0 when there is no place to fold. */
  method WriteSegment(text: array<Unit>, at: nat, protect: bool, fold: bool, prefix: bool, ghost left: Text)
    returns (len: nat, out: Text)
    requires CString(text, at, left) && left != []
    ensures len == Cut(left, fold, prefix)
    ensures len > 0 ==> out == Physical(left[..len], len < |left| || protect, prefix)
    ensures CString(text, at + len, left[len..]) && (text[at + len] == NUL <==> len == |left|)
  {
    len := Fold(text, at, fold, TARGET_LENGTH, FOLDING_WINDOW, prefix, left);
    CStringSplit(text, at, left, len);
    out := Physical(text[at..at + len], text[at + len] != NUL || protect, prefix);
  }

  lemma {:induction false} CStringSplit(text: array<Unit>, at: nat, left: Text, len: nat)
    requires CString(text, at, left) && len <= |left|
    ensures text[at..at + len] == left[..len] && CString(text, at + len, left[len..])
    ensures text[at + len] != NUL <==> len < |left|
  {
    Terminator(text, at, left, len);
  }

  /** How the segments of a logical line continue after the first. */
  lemma {:induction false} SegmentsStep(out: Text, left: Text, protect: bool, fold: bool, prefix: bool)
    requires left != []
    ensures var len := Cut(left, fold, prefix);
      Prepend(out, Segments(left, protect, fold, prefix)) ==
        if len == 0 then None
        else Prepend(out + Physical(left[..len], len < |left| || protect, prefix),
                     Segments(left[len..], protect, fold, prefix))
  {
    var len := Cut(left, fold, prefix);
    PrependTwice(out, Physical(left[..len], len < |left| || protect, prefix),
                 Segments(left[len..], protect, fold, prefix));
  }

  /** Writes the next physical line of what is left of a logical line. */
  method WriteNext(text: array<Unit>, at: nat, out0: Text, protect: bool, fold: bool, prefix: bool,
                   ghost left: Text, ghost all: Option<Text>)
    returns (len: nat, out: Text, ghost next: Text)
    requires CString(text, at, left) && left != [] && all == Prepend(out0, Segments(left, protect, fold, prefix))
    ensures |next| == |left| - len && CString(text, at + len, next) && (text[at + len] == NUL <==> next == [])
    ensures if len == 0 then all == None else all == Prepend(out, Segments(next, protect, fold, prefix))
  {
    SegmentsStep(out0, left, protect, fold, prefix);
    len, out := WriteSegment(text, at, protect, fold, prefix, left);
    out, next := out0 + out, left[len..];
  }

  /** Writes the physical lines of the NUL-terminated logical line at tok. */
  method WriteLine(text: array<Unit>, tok: nat, protect: bool, fold: bool, prefix: bool, ghost line: Text)
    returns (ok: bool, out: Text)
    requires CString(text, tok, line)
    ensures Segments(line, protect, fold, prefix) == if ok then Some(out) else None
  {
    var at: nat := tok;
    out := [];
    ghost var left := line;
    ghost var all := Segments(line, protect, fold, prefix);
    PrependNothing(all);
    Terminator(text, at, left, 0);
    while text[at] != NUL
      invariant CString(text, at, left) && (text[at] == NUL <==> left == [])
      invariant all == Prepend(out, Segments(left, protect, fold, prefix))
      decreases |left|
    {
      var len;
      len, out, left := WriteNext(text, at, out, protect, fold, prefix, left, all);
      if len <= 0 {
        return false, out;
      }
      at := at + len;
    }
    PrependToNothing(out);
    ok := true;
  }

  /** How the body of a text whose first logical line is not empty continues. */
  lemma {:induction false} BodyStep(rest: Text, fold: bool, prefix: bool, next: Text)
    requires rest != [] ==> rest[0] != NL
    requires var k := LineEnd(rest); next == if k < |rest| then rest[k + 1..] else []
    ensures var line := rest[..LineEnd(rest)];
      var segments := Segments(line, Protect(line, fold), fold, prefix);
      Body(rest, fold, prefix) ==
        if segments.None? then None
        else Prepend(segments.value + (if Protect(line, fold) then [NL] else []), Body(next, fold, prefix))
  {
    PrependNothing(Some([]));
  }

  /** The body of a text whose first logical line is not empty, in parts. */
  lemma {:induction false} BodyParts(text: Text, fold: bool, prefix: bool, line: Text, rest: Text)
    requires text != [] && text[0] != NL && Body(text, fold, prefix).Some?
    requires var k := LineEnd(text); line == text[..k] && rest == if k < |text| then text[k + 1..] else []
    ensures var s, b := Segments(line, Protect(line, fold), fold, prefix), Body(rest, fold, prefix);
      s.Some? && b.Some?
      && Body(text, fold, prefix).value == s.value + (if Protect(line, fold) then [NL] else []) + b.value
  {
    BodyStep(text, fold, prefix, rest);
  }

  /** Delimits the logical line at tok with NUL, and finds where the next one starts. */
  method TakeLine(text: array<Unit>, tok: nat, fold: bool, ghost orig: Text)
    returns (protect: bool, more: bool, next: nat, ghost line: Text)
    requires Holds(text, orig, tok) && Overwritten(text, orig, tok)
    requires tok < |orig| ==> orig[tok] != NL
    modifies text
    ensures line == orig[tok..][..LineEnd(orig[tok..])] && CString(text, tok, line)
    ensures protect == Protect(line, fold)
    ensures tok <= next <= |orig| && Holds(text, orig, next) && Overwritten(text, orig, next)
    ensures if more then tok < next && orig[next - 1] == NL else next == |orig|
    ensures orig[next..] == if LineEnd(orig[tok..]) < |orig| - tok then orig[tok..][LineEnd(orig[tok..]) + 1..] else []
  {
    var end;
    end, protect := FindLineEnd(text, tok, fold, orig);
    line := orig[tok..][..LineEnd(orig[tok..])];
    assert line == orig[tok..end];
    more, next := text[end] == NL, end;
    if more {
      text[end] := NUL;
      next := end + 1;
    }
  }

  /** One turn of write_text's loop, for a logical line that is not empty or for the end of the text. */
  method WriteLogicalLine(text: array<Unit>, tok: nat, fold: bool, prefix: bool, ghost orig: Text)
    returns (ok: bool, out: Text, more: bool, next: nat)
    requires Holds(text, orig, tok) && Overwritten(text, orig, tok)
    requires tok < |orig| ==> orig[tok] != NL
    modifies text
    ensures ok ==> tok <= next <= |orig| && Holds(text, orig, next) && Overwritten(text, orig, next)
    ensures ok ==> if more then tok < next && orig[next - 1] == NL else next == |orig|
    ensures Body(orig[tok..], fold, prefix) == if ok then Prepend(out, Body(orig[next..], fold, prefix)) else None
  {
    var protect;
    ghost var line;
    protect, more, next, line := TakeLine(text, tok, fold, orig);
    BodyStep(orig[tok..], fold, prefix, orig[next..]);
    ok, out := WriteLine(text, tok, protect, fold, prefix, line);
    if protect {
      out := out + [NL];
    } else {
      assert out + [] == out;
    }
  }

  /** A newline that ends an empty line is printed as it is. */
  lemma {:induction false} NewlineFirst(orig: Text, tok: nat, fold: bool, prefix: bool)
    requires tok < |orig| && orig[tok] == NL
    ensures Body(orig[tok..], fold, prefix) == Prepend([NL], Body(orig[tok + 1..], fold, prefix))
  {
    assert orig[tok..][1..] == orig[tok + 1..];
  }

  /** The loop of write_text over the logical lines. */
  method WriteBody(text: array<Unit>, fold: bool, prefix: bool, ghost orig: Text) returns (ok: bool, out: Text)
    requires Holds(text, orig, 0)
    modifies text
    ensures Body(orig, fold, prefix) == if ok then Some(out) else None
    ensures ok ==> Overwritten(text, orig, |orig|)
  {
    ok, out := true, [];
    var tok, more := 0, true;
    ghost var all := Body(orig, fold, prefix);
    assert orig[0..] == orig;
    PrependNothing(all);
    while more
      invariant Holds(text, orig, tok) && Overwritten(text, orig, tok)
      invariant 0 < tok < |orig| ==> orig[tok - 1] == NL
      invariant all == Prepend(out, Body(orig[tok..], fold, prefix))
      invariant !more ==> tok == |orig|
      decreases |orig| - tok, more
    {
      var piece;
      ok, piece, more, tok := WriteTurn(text, tok, fold, prefix, orig);
      if !ok {
        return;
      }
      PrependTwice(out, piece, Body(orig[tok..], fold, prefix));
      out := out + piece;
    }
    NothingLeft(out, orig, fold, prefix);
  }

  lemma {:induction false} NothingLeft(out: Text, orig: Text, fold: bool, prefix: bool)
    ensures Prepend(out, Body(orig[|orig|..], fold, prefix)) == Some(out)
  {
    assert orig[|orig|..] == [];
    PrependToNothing(out);
  }

  /** A newline at the start of a line is not overwritten. */
  lemma {:induction false} EmptyLine(text: array<Unit>, orig: Text, tok: nat)
    requires Holds(text, orig, tok) && Overwritten(text, orig, tok) && (0 < tok < |orig| ==> orig[tok - 1] == NL)
    requires text[tok] == NL
    ensures tok < |orig| && orig[tok] == NL && Holds(text, orig, tok + 1) && Overwritten(text, orig, tok + 1)
  {
    assert !EndsLine(orig, tok);
  }

  /** One turn of write_text's loop: an empty line, or a logical line that is not empty. */
  method WriteTurn(text: array<Unit>, tok: nat, fold: bool, prefix: bool, ghost orig: Text)
    returns (ok: bool, out: Text, more: bool, next: nat)
    requires Holds(text, orig, tok) && Overwritten(text, orig, tok) && (0 < tok < |orig| ==> orig[tok - 1] == NL)
    modifies text
    ensures ok ==> tok <= next <= |orig| && Holds(text, orig, next) && Overwritten(text, orig, next)
    ensures ok ==> if more then tok < next && orig[next - 1] == NL else next == |orig|
    ensures Body(orig[tok..], fold, prefix) == if ok then Prepend(out, Body(orig[next..], fold, prefix)) else None
  {
    if text[tok] == NL {
      EmptyLine(text, orig, tok);
      NewlineFirst(orig, tok, fold, prefix);
      ok, out, more, next := true, [NL], true, tok + 1;
    } else {
      ok, out, more, next := WriteLogicalLine(text, tok, fold, prefix, orig);
    }
  }

  /**
   write_text: prints the field held in the array, or fails.  When a protocol
   is in use, every newline that ends a non-empty line is left overwritten
   with NUL.
   */
  method WriteText(text: array<Unit>, fold: bool, prefix: bool, ghost orig: Text) returns (ok: bool, out: Text)
    requires Holds(text, orig, 0) && orig != []
    modifies text
    ensures Field(orig, fold, prefix) == if ok then Some(out) else None
    ensures ok && (fold || prefix) ==> Overwritten(text, orig, |orig|)
    ensures !fold && !prefix ==> text[..] == old(text[..])
  {
    if !fold && !prefix {
      ok, out := true, text[..text.Length - 1];
      assert out == orig;
    } else {
      ok, out := WriteBody(text, fold, prefix, orig);
    }
    assert Header(fold, prefix) == [NL, SEMI] + Header(fold, prefix)[2..];
    assert Header(fold, prefix) + out == [NL, SEMI] + (Header(fold, prefix)[2..] + out);
    assert !fold && !prefix ==> Header(fold, prefix) == [NL, SEMI];
    out := Header(fold, prefix) + out + [NL, SEMI];
  }
}
