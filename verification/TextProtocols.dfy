/**
 The line-folding and text-prefix protocols in terms of lines: which first
 lines announce them, and what becomes of each line after that.
 */
module TextProtocols {
  import opened Units
  import opened TextDecoder
  import opened TextFieldRoundTrip

  /** A line terminator, all of it, before some text. */
  predicate Terminator(eol: Text, after: Text) {
    eol in {[NL], [CR, NL]} || (eol == [CR] && (after == [] || after[0] != NL))
  }

  /** A backslash with nothing but spaces and tabs behind it. */
  predicate JoinsAt(line: Text, k: nat) {
    k < |line| && line[k] == BSL && forall i :: k < i < |line| ==> line[i] in {SP, TAB}
  }

  /**
   A first line that announces the protocols: a prefix of n units, which has no
   backslash, and then one backslash, or two if lines are also folded.
   */
  predicate Header(first: Text, n: nat, folded: bool) {
    && n < |first| && BSL !in first[..n] && first[n] == BSL
    && (n == 0 ==> folded) && JoinsAt(first, if n > 0 && folded then n + 1 else n)
  }

  lemma {:induction false} JoinsMeaning(line: Text, k: nat)
    ensures JoinsAt(line, k) <==> FoldMark(line) == k
    ensures JoinsAt(line, k) ==> LastBackslash(line) == k
  {
    if line != [] {
      var n := |line| - 1;
      var init := line[..n];
      assert line == init + [line[n]];
      FoldMarkAppend(init, line[n]);
      LineAppend(init, line[n]);
      JoinsMeaning(init, k);
      JoinsAppend(init, line[n], k);
    }
  }

  lemma {:induction false} JoinsAppend(line: Text, c: Unit, k: nat)
    ensures JoinsAt(line + [c], k) <==> if k == |line| then c == BSL else c in {SP, TAB} && JoinsAt(line, k)
  {
    var t := line + [c];
    if JoinsAt(t, k) && k < |line| {
      assert t[|line|] == c && forall i :: 0 <= i < |line| ==> t[i] == line[i];
    }
  }

  /** Which of the first backslashes are counted. */
  lemma {:induction false} BackslashesMeaning(line: Text)
    requires LastBackslash(line) >= 0
    ensures var k := LastBackslash(line);
      && Backslashes(line) == 1 + Backslashes(line[..k])
      && (Backslashes(line) == 1 <==> BSL !in line[..k])
      && (Backslashes(line) == 2 && k > 0 && line[k - 1] == BSL <==> k > 0 && line[k - 1] == BSL && BSL !in line[..k - 1])
  {
    var k := LastBackslash(line);
    CountToLast(line);
    NoBackslash(line[..k]);
    if k > 0 {
      NoBackslash(line[..k - 1]);
      assert line[..k][..k - 1] == line[..k - 1];
    }
  }

  lemma {:induction false} CountToLast(line: Text)
    requires LastBackslash(line) >= 0
    ensures Backslashes(line) == 1 + Backslashes(line[..LastBackslash(line)])
  {
    var n := |line| - 1;
    if line[n] != BSL {
      CountToLast(line[..n]);
      assert line[..n][..LastBackslash(line)] == line[..LastBackslash(line)];
    }
  }

  lemma {:induction false} NoBackslash(line: Text)
    ensures Backslashes(line) == 0 <==> BSL !in line
  {
    if line != [] {
      var n := |line| - 1;
      NoBackslash(line[..n]);
      assert line == line[..n] + [line[n]];
    }
  }

  /** The first line announces the protocols if and only if it is such a header. */
  lemma {:induction false} HeaderMeaning(first: Text, n: nat, folded: bool)
    ensures Header(first, n, folded) <==> Announced(first, true, true) == Marked(n, folded)
  {
    var k := LastBackslash(first);
    if Header(first, n, folded) {
      JoinsMeaning(first, if n > 0 && folded then n + 1 else n);
      BackslashesMeaning(first);
    }
    if FoldMark(first) >= 0 {
      JoinsMeaning(first, FoldMark(first));
      BackslashesMeaning(first);
    }
  }

  // Lines

  lemma {:induction false} FirstLine(line: Text, eol: Text, after: Text)
    requires OneLine(line) && Terminator(eol, after)
    ensures var s := line + eol + after;
      && FirstEol(s) == |line| && s[..|line|] == line && s[|line|..] == eol + after && s != line
      && NextLine(s) == |line| + |eol| && s[NextLine(s)..] == after
  {
    var s := line + eol + after;
    assert s[|line|] == eol[0];
    FirstEolIs(s, |line|);
    assert eol == [CR] && after != [] ==> s[|line| + 1] == after[0];
  }

  /** Any line terminator is read as a newline. */
  lemma {:induction false} StandardLine(line: Text, eol: Text, after: Text)
    requires OneLine(line) && Terminator(eol, after)
    ensures StandardEols(line + eol + after) == line + [NL] + StandardEols(after)
  {
    assert line + eol + after == line + (eol + after);
    StandardEolsAppend(line, eol + after);
    StandardTerminator(eol, after);
  }

  lemma {:induction false} StandardTerminator(eol: Text, after: Text)
    requires Terminator(eol, after)
    ensures StandardEols(eol + after) == [NL] + StandardEols(after)
  {
    var s := eol + after;
    assert s[|eol|..] == after;
    assert eol == [CR] && after != [] ==> s[1] == after[0];
  }

  lemma {:induction false} StandardLast(line: Text)
    requires OneLine(line)
    ensures StandardEols(line) == line
  {
    StandardEolsAppend(line, []);
    assert line + [] == line && line + StandardEols([]) == line;
  }

  function Stripped(line: Text, prefix: Text): Text {
    if prefix <= line then line[|prefix|..] else line
  }

  /** A prefix without terminators ends before the first one. */
  lemma {:induction false} PrefixInLine(prefix: Text, s: Text, n: nat)
    requires OneLine(prefix) && prefix <= s && n < |s| && IsEol(s[n])
    ensures |prefix| <= n
  {
    assert forall i :: 0 <= i < |prefix| ==> prefix[i] == s[i];
  }

  lemma {:induction false} StrippedBehind(line: Text, eol: Text, after: Text, prefix: Text)
    requires OneLine(line) && OneLine(prefix) && Terminator(eol, after)
    ensures var s := line + eol + after;
      (if prefix <= s then s[|prefix|..] else s) == Stripped(line, prefix) + eol + after
    ensures OneLine(Stripped(line, prefix))
  {
    var s := line + eol + after;
    if prefix <= s {
      assert s[|line|] == eol[0];
      PrefixInLine(prefix, s, |line|);
      assert s[..|prefix|] == line[..|prefix|];
    }
  }

  lemma {:induction false} LineUnfolded(line: Text, eol: Text, after: Text, prefix: Text, folded: bool)
    requires OneLine(line) && OneLine(prefix) && Terminator(eol, after)
    ensures Unfold(line + eol + after, prefix, folded) == DecodedLine(Stripped(line, prefix), folded) + Unfold(after, prefix, folded)
  {
    var s, t := line + eol + after, Stripped(line, prefix);
    StrippedBehind(line, eol, after, prefix);
    FirstLine(t, eol, after);
    UnfoldStep(s, prefix, folded, t + eol + after);
  }

  /** A backslash at the end of a line that only blanks follow joins it to the next one. */
  lemma {:induction false} JoinMeaning(line: Text)
    ensures forall k: nat :: JoinsAt(line, k) ==> DecodedLine(line, true) == line[..k]
    ensures (forall k: nat :: !JoinsAt(line, k)) ==> DecodedLine(line, true) == line + [NL]
    ensures DecodedLine(line, false) == line + [NL]
  {
    forall k: nat ensures JoinsAt(line, k) <==> FoldMark(line) == k {
      JoinsMeaning(line, k);
    }
    if FoldMark(line) >= 0 { assert JoinsAt(line, FoldMark(line)); }
  }

  /**
   A line after the first loses the prefix, if it has it; and where lines are
   folded, a backslash at its end that only blanks follow joins it to the next.
   */
  lemma {:induction false} LineMeaning(line: Text, eol: Text, after: Text, prefix: Text, folded: bool)
    requires OneLine(line) && OneLine(prefix) && Terminator(eol, after)
    ensures var u, t := Unfold(line + eol + after, prefix, folded), Stripped(line, prefix);
      && (forall k: nat :: folded && JoinsAt(t, k) ==> u == t[..k] + Unfold(after, prefix, folded))
      && ((forall k: nat :: folded ==> !JoinsAt(t, k)) ==> u == t + [NL] + Unfold(after, prefix, folded))
  {
    LineUnfolded(line, eol, after, prefix, folded);
    JoinMeaning(Stripped(line, prefix));
  }

  /** The last line loses the prefix only. */
  lemma {:induction false} LastLineMeaning(line: Text, prefix: Text, folded: bool)
    requires OneLine(line)
    ensures Unfold(line, prefix, folded) == Stripped(line, prefix)
  {
    var t := Stripped(line, prefix);
    FirstEolIs(t, |t|);
  }

  lemma {:induction false} DecodeParts(first: Text, eol: Text, after: Text)
    requires OneLine(first) && Terminator(eol, after)
    ensures Decode(first + eol + after, true, true) ==
      var p := Announced(first, true, true);
      if (first != [] && first[0] == SEMI) || p.Plain? then first + [NL] + StandardEols(after)
      else Unfold(after, first[..p.prefixLength], p.folded)
  {
    var text := first + eol + after;
    FirstLine(first, eol, after);
    StandardLine(first, eol, after);
    assert text[0] == (if first != [] then first[0] else eol[0]);
    assert Announced(first, true, true).Marked? ==>
      text[..Announced(first, true, true).prefixLength] == first[..Announced(first, true, true).prefixLength];
  }

  /**
   What a text field of more than one line means: it is taken as it is, but for
   its terminators, if its first line is no header or starts with a semicolon;
   otherwise that line is left out and governs how the others are read.
   */
  lemma {:induction false} DecodeMeaning(first: Text, eol: Text, after: Text)
    requires OneLine(first) && Terminator(eol, after)
    ensures var u := Decode(first + eol + after, true, true);
      && (forall n: nat, folded :: Header(first, n, folded) && first[0] != SEMI ==> u == Unfold(after, first[..n], folded))
      && ((first != [] && first[0] == SEMI) || (forall n: nat, folded :: !Header(first, n, folded))
          ==> u == first + [NL] + StandardEols(after))
  {
    DecodeParts(first, eol, after);
    forall n: nat, folded ensures Header(first, n, folded) <==> Announced(first, true, true) == Marked(n, folded) {
      HeaderMeaning(first, n, folded);
    }
  }

  /** A text field of one line, which is empty if that is a header. */
  lemma {:induction false} DecodeLine(first: Text)
    requires OneLine(first)
    ensures var u := Decode(first, true, true);
      u == if (first == [] || first[0] != SEMI) && (exists n: nat, folded :: Header(first, n, folded)) then [] else first
  {
    StandardLast(first);
    FirstEolIs(first, |first|);
    assert first[..|first|] == first && first[|first|..] == [];
    forall n: nat, folded ensures Header(first, n, folded) <==> Announced(first, true, true) == Marked(n, folded) {
      HeaderMeaning(first, n, folded);
    }
  }
}
