/**
 Reading the contents of a text field back: recognition of the line-folding
 and text-prefix protocols, and the decoding of the lines that follow.
 */
module TextDecoder {
  import opened Units
  import opened Wrappers

  /** Index of the first line terminator, or the length of the text. */
  function FirstEol(s: Text): (k: nat)
    ensures k <= |s|
    ensures forall i :: 0 <= i < k ==> !IsEol(s[i])
    ensures k < |s| ==> IsEol(s[k])
  {
    if s == [] || IsEol(s[0]) then 0 else FirstEol(s[1..]) + 1
  }

  /** Units in the line terminator at index k: CR LF is one terminator. */
  function EolWidth(s: Text, k: nat): (w: nat)
    requires k < |s|
    ensures 1 <= w <= 2 && k + w <= |s|
  {
    if s[k] == CR && k + 1 < |s| && s[k + 1] == NL then 2 else 1
  }

  /** Where the line after the one that ends at the first terminator starts. */
  function NextLine(s: Text): (n: nat)
    ensures FirstEol(s) <= n <= |s|
    ensures s != [] ==> n > 0
  {
    var k := FirstEol(s);
    if k < |s| then k + EolWidth(s, k) else k
  }

  /** The text with every line terminator written as NL. */
  function StandardEols(s: Text): Text {
    if s == [] then []
    else if s[0] == CR then [NL] + StandardEols(s[EolWidth(s, 0)..])
    else [s[0]] + StandardEols(s[1..])
  }

  function Backslashes(line: Text): nat {
    if line == [] then 0
    else Backslashes(line[..|line| - 1]) + if line[|line| - 1] == BSL then 1 else 0
  }

  /** Index of the last backslash, or -1. */
  function LastBackslash(line: Text): (k: int)
    ensures -1 <= k < |line|
    ensures k >= 0 ==> line[k] == BSL
  {
    if line == [] then -1
    else if line[|line| - 1] == BSL then |line| - 1
    else LastBackslash(line[..|line| - 1])
  }

  lemma {:induction false} BackslashBounds(line: Text)
    ensures Backslashes(line) <= LastBackslash(line) + 1
    ensures Backslashes(line) == 0 <==> LastBackslash(line) == -1
  {
    if line != [] {
      var init := line[..|line| - 1];
      BackslashBounds(init);
    }
  }

  lemma {:induction false} LineAppend(line: Text, c: Unit)
    ensures Backslashes(line + [c]) == Backslashes(line) + if c == BSL then 1 else 0
    ensures LastBackslash(line + [c]) == if c == BSL then |line| else LastBackslash(line)
  {
    assert (line + [c])[..|line|] == line;
  }

  /** How the lines after the first are to be read. */
  datatype Protocol = Plain | Marked(prefixLength: nat, folded: bool)

  /** The protocol that the first line announces. */
  function Announced(first: Text, unfolding: bool, deprefixing: bool): (p: Protocol)
    ensures p.Marked? ==> p.prefixLength <= |first|
  {
    BackslashBounds(first);
    var n := Backslashes(first);
    var length := if deprefixing then LastBackslash(first) + 1 - n else 0;
    if FoldMark(first) >= 0 && (n == 1 || (n == 2 && length > 0 && first[length] == BSL))
    then Marked(length, (length == 0 || n == 2) && unfolding)
    else Plain
  }

  /** The lines after the first, with the prefix removed wherever it is present, and unfolded. */
  function Unfold(s: Text, prefix: Text, folded: bool): Text
    decreases |s|
  {
    if s == [] then []
    else
      var t := if prefix <= s then s[|prefix|..] else s;
      var k := FirstEol(t);
      if k == |t| then t
      else DecodedLine(t[..k], folded) + Unfold(t[NextLine(t)..], prefix, folded)
  }

  /** A terminated line: a fold mark joins it to the next one. */
  function DecodedLine(line: Text, folded: bool): Text {
    if folded && FoldMark(line) >= 0 then line[..FoldMark(line)] else line + [NL]
  }

  /** The value of a text field with the given contents. */
  function Decode(text: Text, unfolding: bool, deprefixing: bool): Text {
    if text == [] || text[0] == SEMI || (!unfolding && !deprefixing) then StandardEols(text)
    else
      var rest := text[NextLine(text)..];
      match Announced(text[..FirstEol(text)], unfolding, deprefixing)
      case Plain => StandardEols(text)
      case Marked(n, folded) =>
        if n == 0 && !folded then StandardEols(rest) else Unfold(rest, text[..n], folded)
  }

  lemma {:induction false} FirstEolIs(s: Text, k: nat)
    requires k <= |s| && (forall i :: 0 <= i < k ==> !IsEol(s[i])) && (k < |s| ==> IsEol(s[k]))
    ensures FirstEol(s) == k
  {
  }

  /** A line without terminators is left as it is. */
  lemma {:induction false} StandardEolsAppend(line: Text, s: Text)
    requires forall i :: 0 <= i < |line| ==> line[i] != CR
    ensures StandardEols(line + s) == line + StandardEols(s)
  {
    if line == [] {
      assert line + s == s;
    } else {
      StandardEolsAppend(line[1..], s);
      assert (line + s)[1..] == line[1..] + s;
      assert line == [line[0]] + line[1..];
    }
  }

  /** The statistics that decode_text keeps about the first line. */
  ghost predicate Statistics(line: Text, last: int, backslashes: nat, nonws: bool) {
    && backslashes == Backslashes(line) && last == LastBackslash(line)
    && (backslashes > 0 ==> (nonws <==> FoldMark(line) < 0))
  }

  lemma {:induction false} StatisticsStep(line: Text, c: Unit, last: int, backslashes: nat, nonws: bool)
    requires Statistics(line, last, backslashes, nonws)
    ensures if c == BSL then Statistics(line + [c], |line|, backslashes + 1, false)
            else Statistics(line + [c], last, backslashes, nonws || !IsBlank(c))
  {
    LineAppend(line, c);
    FoldMarkAppend(line, c);
  }

  /** Ends the line at inPos - 1, whose terminator has just been copied. */
  method StandardizeEol(text: Text, inPos: nat, buffer: array<Unit>, bufPos: nat) returns (next: nat)
    requires 0 < inPos <= |text| && 0 < bufPos <= buffer.Length && buffer[bufPos - 1] == text[inPos - 1]
    requires IsEol(text[inPos - 1])
    modifies buffer
    ensures next == inPos - 1 + EolWidth(text, inPos - 1)
    ensures buffer[..bufPos] == old(buffer[..bufPos - 1]) + [NL]
  {
    next := inPos;
    if text[inPos - 1] == CR {
      buffer[bufPos - 1] := NL;
      if inPos < |text| && text[inPos] == NL {
        next := inPos + 1;
      }
    }
  }

  /** Copies the first line, with its terminator as NL, and takes its statistics. */
  method ScanFirstLine(text: Text, buffer: array<Unit>)
    returns (inPos: nat, bufPos: nat, last: int, backslashes: nat, nonws: bool)
    requires buffer.Length == |text| + 1
    modifies buffer
    ensures inPos == NextLine(text) && bufPos <= inPos
    ensures var k := FirstEol(text);
      && buffer[..bufPos] == text[..k] + (if k < |text| then [NL] else [])
      && Statistics(text[..k], last, backslashes, nonws)
  {
    inPos, bufPos, last, backslashes, nonws := 0, 0, -1, 0, false;
    while inPos < |text|
      invariant inPos == bufPos <= |text|
      invariant buffer[..bufPos] == text[..inPos]
      invariant forall i :: 0 <= i < inPos ==> !IsEol(text[i])
      invariant Statistics(text[..inPos], last, backslashes, nonws)
    {
      var c := text[inPos];
      assert text[..inPos + 1] == text[..inPos] + [c];
      PutUnit(buffer, bufPos, c);
      inPos, bufPos := inPos + 1, bufPos + 1;
      if IsEol(c) {
        inPos := EndFirstLine(text, inPos, buffer);
        return;
      }
      last, backslashes, nonws := CountUnit(text, inPos - 1, last, backslashes, nonws);
    }
    FirstEolIs(text, |text|);
  }

  /** u_strncpy of units that are all non-zero. */
  method CopyUnits(text: Text, from: nat, to: nat, buffer: array<Unit>, at: nat)
    requires from <= to <= |text| && at + (to - from) <= buffer.Length
    modifies buffer
    ensures buffer[..at + (to - from)] == old(buffer[..at]) + text[from..to]
  {
    forall i | from <= i < to {
      buffer[at + (i - from)] := text[i];
    }
  }

  lemma {:induction false} CrCopied(text: Text, pos: nat, before: Text)
    requires pos < |text| && text[pos] == CR
    ensures var p := pos + EolWidth(text[pos..], 0);
      pos < p <= |text| && before + StandardEols(text[pos..]) == before + [NL] + text[p..p] + StandardEols(text[p..])
  {
    var rest := text[pos + EolWidth(text[pos..], 0)..];
    assert text[pos..][EolWidth(text[pos..], 0)..] == rest;
    Associative(before, [NL], StandardEols(rest));
    assert before + [NL] + [] == before + [NL];
  }

  lemma {:induction false} UnitCopied(text: Text, start: nat, pos: nat, out: Text)
    requires start <= pos < |text| && text[pos] != CR
    ensures out + text[start..pos] + StandardEols(text[pos..]) == out + text[start..pos + 1] + StandardEols(text[pos + 1..])
  {
    assert text[start..pos + 1] == text[start..pos] + [text[pos]];
    assert text[pos..][1..] == text[pos + 1..];
  }

  /** Copies some units and then a newline. */
  method CopyLineEnd(text: Text, from: nat, to: nat, buffer: array<Unit>, at: nat) returns (end: nat)
    requires from <= to <= |text| && at + (to - from) < buffer.Length
    modifies buffer
    ensures end == at + (to - from) + 1 && buffer[..end] == old(buffer[..at]) + text[from..to] + [NL]
  {
    CopyUnits(text, from, to, buffer, at);
    end := at + (to - from);
    buffer[end] := NL;
    end := end + 1;
  }

  /** One turn of the copying loop: a unit is passed, or all that has been passed is copied and a terminator replaced. */
  method CopyTurn(text: Text, start: nat, pos: nat, buffer: array<Unit>, end: nat) returns (start': nat, pos': nat, end': nat)
    requires end <= start <= pos < |text| && buffer.Length == |text| + 1
    modifies buffer
    ensures end' <= start' <= pos' <= |text| && pos < pos'
    ensures buffer[..end'] + text[start'..pos'] + StandardEols(text[pos'..])
      == old(buffer[..end]) + text[start..pos] + StandardEols(text[pos..])
  {
    if text[pos] == CR {
      CrCopied(text, pos, buffer[..end] + text[start..pos]);
      end' := CopyLineEnd(text, start, pos, buffer, end);
      start' := pos + EolWidth(text[pos..], 0);
      pos' := start';
    } else {
      UnitCopied(text, start, pos, buffer[..end]);
      start', pos', end' := start, pos + 1, end;
    }
  }

  /** Copies the text from inPos on, standardizing its line terminators. */
  method CopyRest(text: Text, inPos: nat, buffer: array<Unit>, bufPos: nat) returns (end: nat)
    requires bufPos <= inPos <= |text| && buffer.Length == |text| + 1
    modifies buffer
    ensures end <= |text| && buffer[..end] == old(buffer[..bufPos]) + StandardEols(text[inPos..])
  {
    ghost var goal := buffer[..bufPos] + StandardEols(text[inPos..]);
    var start, pos := inPos, inPos;
    end := bufPos;
    assert text[start..pos] == [];
    while pos < |text|
      invariant end <= start <= pos <= |text|
      invariant goal == buffer[..end] + text[start..pos] + StandardEols(text[pos..])
    {
      start, pos, end := CopyTurn(text, start, pos, buffer, end);
    }
    CopyUnits(text, start, pos, buffer, end);
    end := end + (pos - start);
  }

  /** Where the output is to be rewound to if the line ends now; -1 for nowhere. */
  ghost function Rewind(line: Text, folded: bool, base: nat): int {
    if folded && FoldMark(line) >= 0 then base + FoldMark(line) else -1
  }

  lemma {:induction false} RewindStep(line: Text, c: Unit, folded: bool, base: nat)
    ensures Rewind(line + [c], folded, base) ==
      if c == BSL && folded then base + |line| else if IsBlank(c) then Rewind(line, folded, base) else -1
    ensures Rewind(line, folded, base) == -1 || base <= Rewind(line, folded, base) < base + |line|
  {
    FoldMarkAppend(line, c);
  }

  lemma {:induction false} FrontAppend(s: Text, i: nat)
    requires i < |s|
    ensures s[..i + 1] == s[..i] + [s[i]]
  {
  }

  /** One more unit of the first line. */
  method CountUnit(text: Text, pos: nat, last0: int, backslashes0: nat, nonws0: bool)
    returns (last: int, backslashes: nat, nonws: bool)
    requires pos < |text| && Statistics(text[..pos], last0, backslashes0, nonws0)
    ensures Statistics(text[..pos + 1], last, backslashes, nonws)
  {
    last, backslashes, nonws := last0, backslashes0, nonws0;
    FrontAppend(text, pos);
    StatisticsStep(text[..pos], text[pos], last, backslashes, nonws);
    if text[pos] == BSL {
      last, backslashes, nonws := pos, backslashes + 1, false;
    } else if !IsBlank(text[pos]) {
      nonws := true;
    }
  }

  /** The terminator of the first line, just copied. */
  method EndFirstLine(text: Text, inPos: nat, buffer: array<Unit>) returns (next: nat)
    requires 0 < inPos <= |text| && buffer.Length == |text| + 1 && buffer[..inPos] == text[..inPos]
    requires IsEol(text[inPos - 1]) && forall i :: 0 <= i < inPos - 1 ==> !IsEol(text[i])
    modifies buffer
    ensures FirstEol(text) == inPos - 1 && next == NextLine(text) && inPos <= next
    ensures buffer[..inPos] == text[..inPos - 1] + [NL]
  {
    FirstEolIs(text, inPos - 1);
    assert buffer[inPos - 1] == buffer[..inPos][inPos - 1] == text[inPos - 1];
    assert buffer[..inPos - 1] == buffer[..inPos][..inPos - 1] == text[..inPos - 1];
    next := StandardizeEol(text, inPos, buffer, inPos);
  }

  /** Puts a unit after some others. */
  method PutUnit(buffer: array<Unit>, end: nat, c: Unit)
    requires end < buffer.Length
    modifies buffer
    ensures buffer[..end + 1] == old(buffer[..end]) + [c]
  {
    buffer[end] := c;
  }

  /** Copies one unit of a line. */
  method CopyLineUnit(text: Text, inPos: nat, next: nat, folded: bool, buffer: array<Unit>, end: nat, temp: int,
                      ghost bufPos: nat, ghost before: Text)
    returns (temp': int)
    requires inPos <= next < |text| && end == bufPos + (next - inPos) < buffer.Length
    requires buffer[..end] == before + text[inPos..next] && temp == Rewind(text[inPos..next], folded, bufPos)
    modifies buffer
    ensures buffer[..end + 1] == before + text[inPos..next + 1] && temp' == Rewind(text[inPos..next + 1], folded, bufPos)
  {
    var c := text[next];
    RewindStep(text[inPos..next], c, folded, bufPos);
    SliceAppend(text, inPos, next);
    Associative(before, text[inPos..next], [c]);
    PutUnit(buffer, end, c);
    temp' := temp;
    if c == BSL && folded {
      temp' := end;
    } else if !IsBlank(c) {
      temp' := -1;
    }
  }

  /** Copies the line at inPos up to its terminator, remembering where its fold mark is in the output. */
  method CopyLine(text: Text, inPos: nat, folded: bool, buffer: array<Unit>, bufPos: nat)
    returns (next: nat, temp: int)
    requires bufPos <= inPos <= |text| && buffer.Length == |text| + 1
    modifies buffer
    ensures next == inPos + FirstEol(text[inPos..])
    ensures buffer[..bufPos + (next - inPos)] == old(buffer[..bufPos]) + text[inPos..next]
    ensures temp == Rewind(text[inPos..next], folded, bufPos)
  {
    next, temp := inPos, -1;
    var end := bufPos;
    while next < |text| && !IsEol(text[next])
      invariant inPos <= next <= |text| && end == bufPos + (next - inPos)
      invariant buffer[..end] == old(buffer[..bufPos]) + text[inPos..next]
      invariant forall i :: inPos <= i < next ==> !IsEol(text[i])
      invariant temp == Rewind(text[inPos..next], folded, bufPos)
    {
      temp := CopyLineUnit(text, inPos, next, folded, buffer, end, temp, bufPos, old(buffer[..bufPos]));
      next, end := next + 1, end + 1;
    }
    FirstEolIs(text[inPos..], next - inPos);
  }

  /** Ends the line at the terminator at index pos: rewinds to the fold mark, or writes a newline. */
  method EndLine(text: Text, inPos: nat, pos: nat, temp: int, buffer: array<Unit>, bufPos: nat, ghost before: Text)
    returns (next: nat, end: nat)
    requires |before| <= inPos <= pos < |text| && bufPos - |before| == pos - inPos
    requires buffer.Length == |text| + 1 && buffer[..bufPos] == before + text[inPos..pos]
    requires IsEol(text[pos])
    requires temp == -1 || (0 <= temp - |before| < pos - inPos)
    modifies buffer
    ensures next == pos + EolWidth(text, pos) && end <= next
    ensures buffer[..end] == before + if temp >= 0 then text[inPos..pos][..temp - |before|] else text[inPos..pos] + [NL]
  {
    ghost var line := buffer[..bufPos];
    buffer[bufPos] := text[pos];
    next := StandardizeEol(text, pos + 1, buffer, bufPos + 1);
    assert buffer[..bufPos] == buffer[..bufPos + 1][..bufPos] == line;
    end := bufPos + 1;
    if temp >= 0 {
      end := temp;
      assert buffer[..end] == line[..end];
    } else {
      Associative(before, text[inPos..pos], [NL]);
    }
  }

  /** Decodes the line at inPos, rewinding the output to its fold mark if it has one. */
  method DecodeLine(text: Text, inPos: nat, folded: bool, buffer: array<Unit>, bufPos: nat)
    returns (next: nat, end: nat)
    requires bufPos <= inPos <= |text| && buffer.Length == |text| + 1
    modifies buffer
    ensures next == inPos + NextLine(text[inPos..]) && end <= next
    ensures buffer[..end] == old(buffer[..bufPos]) + LineOut(text[inPos..], folded)
  {
    ghost var before := buffer[..bufPos];
    var temp;
    next, temp := CopyLine(text, inPos, folded, buffer, bufPos);
    LineOutIs(text, inPos, next, folded, bufPos);
    end := bufPos + (next - inPos);
    if next < |text| {
      next, end := EndLine(text, inPos, next, temp, buffer, end, before);
    }
  }

  /** What the first line of the text from some index on contributes, in terms of where the output is rewound to. */
  lemma {:induction false} LineOutIs(text: Text, inPos: nat, pos: nat, folded: bool, base: nat)
    requires inPos <= |text| && pos == inPos + FirstEol(text[inPos..])
    ensures var t, line := text[inPos..], text[inPos..pos]; var temp := Rewind(line, folded, base);
      && (temp == -1 || base <= temp < base + |line|)
      && (pos == |text| ==> LineOut(t, folded) == line && NextLine(t) == pos - inPos)
      && (pos < |text| ==> NextLine(t) == pos - inPos + EolWidth(text, pos)
                           && LineOut(t, folded) == if temp >= 0 then line[..temp - base] else line + [NL])
  {
    var t, n := text[inPos..], pos - inPos;
    LineOutParts(text, inPos, pos);
    RewindStep(t[..n], NL, folded, base);
  }

  lemma {:induction false} LineOutParts(text: Text, inPos: nat, pos: nat)
    requires inPos <= pos <= |text|
    ensures var t, n := text[inPos..], pos - inPos;
      && t[..n] == text[inPos..pos] && (pos == |text| ==> t == t[..n])
      && (pos < |text| ==> EolWidth(t, n) == EolWidth(text, pos))
  {
    var t, n := text[inPos..], pos - inPos;
    assert pos < |text| ==> t[n] == text[pos];
    assert pos + 1 < |text| ==> t[n + 1] == text[pos + 1];
  }

  /** Removes a prefix that is present. */
  method SkipPrefix(text: Text, inPos: nat, prefixLength: nat) returns (next: nat)
    requires inPos <= |text| && prefixLength <= |text|
    ensures inPos <= next <= |text|
    ensures text[next..] == if text[..prefixLength] <= text[inPos..] then text[inPos..][prefixLength..] else text[inPos..]
  {
    next := inPos;
    if prefixLength > 0 && |text| - inPos >= prefixLength && text[inPos..inPos + prefixLength] == text[..prefixLength] {
      assert text[inPos..][..prefixLength] == text[inPos..inPos + prefixLength];
      next := inPos + prefixLength;
    } else if text[..prefixLength] <= text[inPos..] {
      assert text[inPos..][..prefixLength] == text[inPos..inPos + prefixLength];
    }
  }

  /** What the first line of a text contributes to the value. */
  function LineOut(t: Text, folded: bool): Text {
    if FirstEol(t) == |t| then t else DecodedLine(t[..FirstEol(t)], folded)
  }

  /** How unfolding goes on after one line, whose prefix has been removed. */
  lemma {:induction false} UnfoldStep(s: Text, prefix: Text, folded: bool, t: Text)
    requires s != [] && t == if prefix <= s then s[|prefix|..] else s
    ensures Unfold(s, prefix, folded) == LineOut(t, folded) + Unfold(t[NextLine(t)..], prefix, folded)
  {
  }

  lemma {:induction false} LineUnfolded(text: Text, pos: nat, start: nat, prefix: Text, folded: bool)
    returns (next: nat)
    requires pos < |text| && start <= |text|
    requires text[start..] == if prefix <= text[pos..] then text[pos..][|prefix|..] else text[pos..]
    ensures next == start + NextLine(text[start..]) <= |text|
    ensures Unfold(text[pos..], prefix, folded) == LineOut(text[start..], folded) + Unfold(text[next..], prefix, folded)
  {
    next := start + NextLine(text[start..]);
    assert text[start..][NextLine(text[start..])..] == text[next..];
    UnfoldStep(text[pos..], prefix, folded, text[start..]);
  }

  /** Decodes the line at pos, without its prefix, and appends it to what is in the buffer. */
  method UnfoldLine(text: Text, pos: nat, prefixLength: nat, folded: bool, buffer: array<Unit>, end: nat, ghost goal: Text)
    returns (pos': nat, end': nat)
    requires end <= pos < |text| && prefixLength <= |text| && buffer.Length == |text| + 1
    requires goal == buffer[..end] + Unfold(text[pos..], text[..prefixLength], folded)
    modifies buffer
    ensures end' <= pos' <= |text| && pos < pos'
    ensures goal == buffer[..end'] + Unfold(text[pos'..], text[..prefixLength], folded)
  {
    var start := SkipPrefix(text, pos, prefixLength);
    ghost var out, p := buffer[..end], text[..prefixLength];
    ghost var next := LineUnfolded(text, pos, start, p, folded);
    Associative(out, LineOut(text[start..], folded), Unfold(text[next..], p, folded));
    pos', end' := DecodeLine(text, start, folded, buffer, end);
    assert pos' == next;
    assert buffer[..end'] == out + LineOut(text[start..], folded);
    LineAdvances(text, pos, start, p);
  }

  lemma {:induction false} LineAdvances(text: Text, pos: nat, start: nat, prefix: Text)
    requires pos <= start <= |text| && pos < |text|
    requires text[start..] == if prefix <= text[pos..] then text[pos..][|prefix|..] else text[pos..]
    ensures pos < start + NextLine(text[start..])
  {
  }

  /** Decodes the lines from inPos on into an empty buffer. */
  method UnfoldRest(text: Text, inPos: nat, prefixLength: nat, folded: bool, buffer: array<Unit>) returns (end: nat)
    requires inPos <= |text| && prefixLength <= |text| && buffer.Length == |text| + 1
    modifies buffer
    ensures end <= |text| && buffer[..end] == Unfold(text[inPos..], text[..prefixLength], folded)
  {
    ghost var goal := Unfold(text[inPos..], text[..prefixLength], folded);
    var pos := inPos;
    end := 0;
    while pos < |text|
      invariant end <= pos <= |text|
      invariant goal == buffer[..end] + Unfold(text[pos..], text[..prefixLength], folded)
      decreases |text| - pos
    {
      pos, end := UnfoldLine(text, pos, prefixLength, folded, buffer, end, goal);
    }
  }

  /** The statistics of the first line tell the protocol. */
  lemma {:induction false} ProtocolOf(first: Text, last: int, backslashes: nat, nonws: bool, unfolding: bool, deprefixing: bool)
    requires Statistics(first, last, backslashes, nonws)
    ensures var n := if deprefixing then last + 1 - backslashes else 0;
      && 0 <= n <= |first| && (backslashes == 2 ==> n < |first|)
      && Announced(first, unfolding, deprefixing) ==
        if !nonws && (backslashes == 1 || (backslashes == 2 && n > 0 && first[n] == BSL))
        then Marked(n, (n == 0 || backslashes == 2) && unfolding) else Plain
  {
    BackslashBounds(first);
    if backslashes == 0 && FoldMark(first) >= 0 { MarkIsBackslash(first); }
  }

  lemma {:induction false} MarkIsBackslash(line: Text)
    requires FoldMark(line) >= 0
    ensures Backslashes(line) > 0
  {
    var n := |line| - 1;
    if line[n] != BSL { MarkIsBackslash(line[..n]); }
  }

  /** Reads the first line, which is kept only if it announces no protocol. */
  method ReadFirstLine(text: Text, unfolding: bool, deprefixing: bool, buffer: array<Unit>)
    returns (inPos: nat, bufPos: nat, prefixLength: nat, folded: bool)
    requires NoNul(text) && text != [] && text[0] != SEMI && (unfolding || deprefixing) && buffer.Length == |text| + 1
    modifies buffer
    ensures inPos == NextLine(text) && bufPos <= inPos
    ensures match Announced(text[..FirstEol(text)], unfolding, deprefixing)
      case Plain => prefixLength == 0 && !folded && buffer[..bufPos] + StandardEols(text[inPos..]) == StandardEols(text)
      case Marked(n, f) => prefixLength == n && folded == f && bufPos == 0
  {
    var last, backslashes, nonws;
    inPos, bufPos, last, backslashes, nonws := ScanFirstLine(text, buffer);
    ghost var first := text[..FirstEol(text)];
    ProtocolOf(first, last, backslashes, nonws, unfolding, deprefixing);
    prefixLength := if deprefixing then last + 1 - backslashes else 0;
    folded := false;
    if !nonws && (backslashes == 1 || (backslashes == 2 && prefixLength > 0 && text[prefixLength] == BSL)) {
      folded := (prefixLength == 0 || backslashes == 2) && unfolding;
      bufPos := 0;
    } else {
      prefixLength := 0;
      FirstLineKept(text);
    }
  }

  /** decode_text: the value of a text field, built in a buffer that is rewound at folds. */
  method DecodeText(text: Text, unfolding: bool, deprefixing: bool) returns (value: Text)
    requires NoNul(text)
    ensures value == Decode(text, unfolding, deprefixing)
  {
    if |text| == 0 {
      return [];
    }
    var buffer := new Unit[|text| + 1];
    var end: nat;
    if text[0] == SEMI || (!unfolding && !deprefixing) {
      end := CopyRest(text, 0, buffer, 0);
      return buffer[..end];
    }
    var inPos, bufPos, prefixLength, folded := ReadFirstLine(text, unfolding, deprefixing, buffer);
    if !folded && prefixLength == 0 {
      end := CopyRest(text, inPos, buffer, bufPos);
    } else {
      end := UnfoldRest(text, inPos, prefixLength, folded, buffer);
    }
    value := buffer[..end];
  }

  lemma {:induction false} StandardEolsAtEol(s: Text, k: nat)
    requires k < |s| && IsEol(s[k])
    ensures StandardEols(s[k..]) == [NL] + StandardEols(s[k + EolWidth(s, k)..])
  {
    var t := s[k..];
    assert EolWidth(t, 0) == EolWidth(s, k);
    assert t[EolWidth(s, k)..] == s[k + EolWidth(s, k)..];
  }

  /** Copying the first line and then the rest copies the whole text. */
  lemma {:induction false} FirstLineKept(text: Text)
    ensures StandardEols(text)
         == text[..FirstEol(text)] + (if FirstEol(text) < |text| then [NL] else []) + StandardEols(text[NextLine(text)..])
  {
    var k := FirstEol(text);
    KeepLine(text, k);
    if k < |text| {
      StandardEolsAtEol(text, k);
      Associative(text[..k], [NL], StandardEols(text[NextLine(text)..]));
    }
  }

  lemma {:induction false} KeepLine(text: Text, k: nat)
    requires k <= |text| && forall i :: 0 <= i < k ==> text[i] != CR
    ensures StandardEols(text) == text[..k] + StandardEols(text[k..])
  {
    StandardEolsAppend(text[..k], text[k..]);
    assert text == text[..k] + text[k..];
  }
}
