/**
 What the scanner takes for a token: the converse of what it reads back.  The
 callback lets overlong lines pass.
 */
module TokenForms {
  import opened Units
  import opened Wrappers
  import opened Lexer
  import opened Columns
  import opened Parser
  import opened TokenRoundTrip
  import opened ValueLayout
  import StringAnalysis

  // Scanning loops

  /** How a loop ended, after m units: at the end of the input, before a unit or after one. */
  predicate Ended(kind: Kind, s': State, input: Text, m: nat, o: Outcome)
    requires m <= |input| && o.Scanned?
  {
    || (m == |input| == o.length && AtEof(kind, s').Scanned? && o.drop == 0)
    || (m < |input| && m == o.length && StepOn(kind, s', input[m], true) == StopBefore(o.state) && o.drop == 0)
    || (m < |input| && m + 1 == o.length && StepOn(kind, s', input[m], true) == StopAfter(o.state, o.drop))
  }

  /** What a loop has gone through when it ends. */
  lemma {:induction false} RunEnded(kind: Kind, s: State, input: Text) returns (m: nat)
    requires s.delims <= 2 && Run(kind, s, input, true).Scanned?
    ensures m <= |input| && After(kind, s, input[..m]).Some?
    ensures Ended(kind, After(kind, s, input[..m]).value, input, m, Run(kind, s, input, true))
    decreases |input|
  {
    m := 0;
    if input != [] {
      var step := StepOn(kind, s, input[0], true);
      if step.More? {
        m := RunEnded(kind, step.state, input[1..]);
        assert input[..m + 1][0] == input[0] && input[..m + 1][1..] == input[1..][..m];
        m := m + 1;
      }
    }
  }

  /** Before a unit that is no trail surrogate, no lead surrogate is pending. */
  lemma {:induction false} NotPending(lead: Unit, c: Unit)
    requires NextLead(lead, c).Ok? && !IsTrail(c)
    ensures lead == 0
  {
  }

  lemma {:induction false} CleanBefore(t: Text, c: Unit)
    requires LeadFrom(0, t).Ok? && NextLead(LeadFrom(0, t).value, c).Ok? && !IsTrail(c)
    ensures Clean(t)
  {
    NotPending(LeadFrom(0, t).value, c);
    CleanLeads(0, t);
  }

  lemma {:induction false} StepLead(kind: Kind, s: State, c: Unit)
    requires !StepOn(kind, s, c, true).Fail?
    ensures NextLead(s.lead, c).Ok?
    ensures StepOn(kind, s, c, true).More? ==> StepOn(kind, s, c, true).state.lead == NextLead(s.lead, c).value
  {
  }

  /** The text that a loop has gone through is valid, up to a pending lead surrogate. */
  lemma {:induction false} AfterLead(kind: Kind, s: State, t: Text)
    requires After(kind, s, t).Some?
    ensures LeadFrom(s.lead, t) == Ok(After(kind, s, t).value.lead)
    decreases |t|
  {
    if t != [] {
      StepLead(kind, s, t[0]);
      AfterLead(kind, StepOn(kind, s, t[0], true).state, t[1..]);
    }
  }

  // White space and comments

  lemma {:induction false} WsEnded(line: nat, column: int, sol: nat, input: Text)
    ensures var o := RunWs(line, column, sol, input, true);
      o.WsScanned? && AllWs(input[..o.length]) && !StartsWs(input[o.length..]) && o.column == ColumnAfter(column, input[..o.length])
    decreases |input|
  {
    if StartsWs(input) {
      var sol' := if ClassOf(input[0]) == Class.Eol then NextSol(sol, input[0]) else 0;
      var line' := if ClassOf(input[0]) == Class.Eol && sol' != 9 then line + 1 else line;
      WsEnded(line', ColumnOver(column, input[0]), sol', input[1..]);
      WsFirst(line, column, sol, input);
      var n := RunWs(line, column, sol, input, true).length;
      assert input[..n][0] == input[0] && input[..n][1..] == input[1..][..n - 1];
      assert input[n..] == input[1..][n - 1..];
    }
  }

  lemma {:induction false} WsFirst(line: nat, column: int, sol: nat, input: Text)
    requires StartsWs(input)
    ensures var sol' := if ClassOf(input[0]) == Class.Eol then NextSol(sol, input[0]) else 0;
      var line' := if ClassOf(input[0]) == Class.Eol && sol' != 9 then line + 1 else line;
      RunWs(line, column, sol, input, true) == LongerWs(RunWs(line', ColumnOver(column, input[0]), sol', input[1..], true))
  {
  }

  lemma {:induction false} WsThenFiller(w: Text, g: Text)
    requires AllWs(w) && Filler(g)
    ensures Filler(w + g)
  {
    if w == [] {
      assert w + g == g;
    } else {
      assert MetaOf(w[0]) == WsMeta && forall i :: 0 <= i < |w[1..]| ==> w[1..][i] == w[i + 1];
      WsThenFiller(w[1..], g);
      assert (w + g)[0] == w[0] && (w + g)[1..] == w[1..] + g;
    }
  }

  lemma {:induction false} LineOfConcat(c: Text, r: Text)
    requires OneLine(c) && r != [] && IsEol(r[0])
    ensures LineOf(c + r) == |c|
  {
    if c == [] {
      assert c + r == r;
    } else {
      assert !IsEol(c[0]) && forall i :: 0 <= i < |c[1..]| ==> c[1..][i] == c[i + 1];
      LineOfConcat(c[1..], r);
      assert (c + r)[0] == c[0] && (c + r)[1..] == c[1..] + r;
    }
  }

  lemma {:induction false} CommentFiller(c: Text, r: Text)
    requires Clean(c) && OneLine(c) && r != [] && IsEol(r[0]) && Filler(r)
    ensures Filler([HASH] + (c + r))
  {
    var g := [HASH] + (c + r);
    LineOfConcat(c, r);
    assert g[0] == HASH && g[1..] == c + r && (c + r)[..|c|] == c && (c + r)[|c|..] == r;
  }

  /** A comment that is scanned: to the end of its line, or to the end of the input. */
  lemma {:induction false} CommentEnded(s: State, input: Text)
    requires s.lead == 0 && s.delims == 0 && Run(ToEol, s, input, true).Scanned?
    ensures var o := Run(ToEol, s, input, true);
      && Clean(input[..o.length]) && OneLine(input[..o.length]) && (o.length < |input| ==> IsEol(input[o.length]))
      && o.state.column == ColumnAfter(s.column, input[..o.length])
  {
    var m := RunEnded(ToEol, s, input);
    var c := input[..m];
    CommentThrough(s, c);
    if m < |input| {
      StepLead(ToEol, After(ToEol, s, c).value, input[m]);
      assert IsEol(input[m]);
      CleanBefore(c, input[m]);
    } else {
      CleanLeads(0, c);
    }
    assert input == c + input[m..];
    RunThrough(ToEol, s, c, input[m..], true);
    assert input[m..] != [] ==> input[m..][0] == input[m];
  }

  predicate StartsToken(body: Text) {
    body != [] && MetaOf(body[0]) != WsMeta && ClassOf(body[0]) != Hash
  }

  /** The first n units are white space and comments, as NextToken demands them before what follows. */
  predicate GapOf(input: Text, n: nat, afterWs: bool) {
    && n < |input| && StartsToken(input[n..]) && Filler(input[..n])
    && (afterWs || StartsWs(input[..n]) || (n == 0 && MetaOf(input[0]) == CloseMeta))
  }

  /** What a token comes behind. */
  predicate TokenAfter(input: Text, n: nat, column: int, afterWs: bool, line': nat, t: Token)
    requires n < |input|
  {
    var gap, body := input[..n], input[n..];
    && StartsToken(body) && CloseOk(gap, afterWs) && (MetaOf(body[0]) != CloseMeta ==> SpaceOk(gap, afterWs))
    && TokenHere(body, line', ColumnAfter(column, gap), true) == Ok(t)
  }

  lemma {:induction false} TokenGap(input: Text, line: nat, column: int, afterWs: bool, t: Token) returns (n: nat, line': nat)
    requires NextToken(input, line, column, afterWs, true) == Ok(t) && t.kind != TokenKind.End
    ensures n < |input| && TokenAfter(input, n, column, afterWs, line', t)
  {
    n := GapFound(input, line, column, afterWs, t);
    assert input == input[..n] + input[n..];
    line' := TokenBehind(input[..n], input[n..], line, column, afterWs, t);
  }

  lemma {:induction false} TokenBehind(gap: Text, body: Text, line: nat, column: int, afterWs: bool, t: Token) returns (line': nat)
    requires CloseOk(gap, afterWs) && StartsToken(body) && (afterWs || gap != [] || MetaOf(body[0]) == CloseMeta)
    requires NextToken(gap + body, line, column, afterWs, true) == Ok(t)
    ensures TokenHere(body, line', ColumnAfter(column, gap), true) == Ok(t)
  {
    line' := GapSkipped(gap, body, line, column, afterWs, true);
    NextIsHere(body, line', ColumnAfter(column, gap), afterWs || gap != []);
  }

  lemma {:induction false} NextIsHere(body: Text, line: nat, column: int, afterWs: bool)
    requires StartsToken(body) && (afterWs || MetaOf(body[0]) == CloseMeta)
    ensures NextToken(body, line, column, afterWs, true) == TokenHere(body, line, column, true)
  {
  }

  lemma {:induction false} GapFound(input: Text, line: nat, column: int, afterWs: bool, t: Token) returns (n: nat)
    requires NextToken(input, line, column, afterWs, true) == Ok(t) && t.kind != TokenKind.End
    ensures GapOf(input, n, afterWs)
    decreases |input|, 1
  {
    if StartsWs(input) {
      var m, l := WsPassed(input, line, column, afterWs, t);
      n := WsFound(input, m, l, ColumnAfter(column, input[..m]), afterWs, t);
    } else if input[0] == HASH {
      var m, l := CommentPassed(input, line, column, afterWs, t);
      n := CommentFound(input, m, l, ColumnAfter(column + 1, input[1..][..m]), afterWs, t);
    } else {
      n := 0;
      NoGap(input, line, column, afterWs, t);
    }
  }

  lemma {:induction false} WsFound(input: Text, m: nat, line: nat, column: int, afterWs: bool, t: Token) returns (n: nat)
    requires 0 < m <= |input| && AllWs(input[..m]) && t.kind != TokenKind.End
    requires NextToken(input[m..], line, column, true, true) == Ok(t)
    ensures GapOf(input, n, afterWs)
    decreases |input|, 0
  {
    n := GapFound(input[m..], line, column, true, t);
    GapAfterWs(input, m, n, afterWs);
    n := m + n;
  }

  lemma {:induction false} CommentFound(input: Text, m: nat, line: nat, column: int, afterWs: bool, t: Token) returns (n: nat)
    requires 1 + m < |input| && input[0] == HASH && IsEol(input[1 + m]) && afterWs && t.kind != TokenKind.End
    requires Clean(input[1..][..m]) && OneLine(input[1..][..m])
    requires NextToken(input[1 + m..], line, column, true, true) == Ok(t)
    ensures GapOf(input, n, afterWs)
    decreases |input|, 0
  {
    n := GapFound(input[1 + m..], line, column, true, t);
    GapAfterComment(input, m, n, afterWs);
    n := 1 + m + n;
  }

  lemma {:induction false} NoGap(input: Text, line: nat, column: int, afterWs: bool, t: Token)
    requires NextToken(input, line, column, afterWs, true) == Ok(t) && t.kind != TokenKind.End
    requires !StartsWs(input) && (input != [] ==> input[0] != HASH)
    ensures GapOf(input, 0, afterWs)
  {
    assert input[..0] == [] && input[0..] == input;
  }

  /** White space before a token. */
  lemma {:induction false} WsPassed(input: Text, line: nat, column: int, afterWs: bool, t: Token) returns (m: nat, line': nat)
    requires StartsWs(input) && NextToken(input, line, column, afterWs, true) == Ok(t) && t.kind != TokenKind.End
    ensures 0 < m <= |input| && AllWs(input[..m])
    ensures NextToken(input[m..], line', ColumnAfter(column, input[..m]), true, true) == Ok(t)
  {
    WsEnded(line, column, 0, input);
    var o := RunWs(line, column, 0, input, true);
    m, line' := o.length, o.line;
  }

  /** A comment before a token ends with its line, and scanning goes on from there. */
  lemma {:induction false} CommentPassed(input: Text, line: nat, column: int, afterWs: bool, t: Token) returns (m: nat, line': nat)
    requires input != [] && input[0] == HASH
    requires NextToken(input, line, column, afterWs, true) == Ok(t) && t.kind != TokenKind.End
    ensures afterWs
    ensures 1 + m < |input| && IsEol(input[1 + m]) && Clean(input[1..][..m]) && OneLine(input[1..][..m])
    ensures NextToken(input[1 + m..], line', ColumnAfter(column + 1, input[1..][..m]), true, true) == Ok(t)
  {
    HashFirst(input, line, column, true);
    CommentEnded(Start(line, column + 1), input[1..]);
    var o := Run(ToEol, Start(line, column + 1), input[1..], true);
    m, line' := o.length, o.state.line;
    assert m < |input[1..]| ==> input[1..][m] == input[1 + m];
  }

  lemma {:induction false} GapAfterWs(input: Text, m: nat, n: nat, afterWs: bool)
    requires 0 < m <= |input| && AllWs(input[..m]) && GapOf(input[m..], n, true)
    ensures GapOf(input, m + n, afterWs)
  {
    var w, g := input[..m], input[m..][..n];
    assert input[..m + n] == w + g && input[m + n..] == input[m..][n..];
    WsThenFiller(w, g);
    assert (w + g)[0] == w[0];
  }

  lemma {:induction false} GapAfterComment(input: Text, m: nat, n: nat, afterWs: bool)
    requires 1 + m < |input| && input[0] == HASH && IsEol(input[1 + m]) && afterWs
    requires Clean(input[1..][..m]) && OneLine(input[1..][..m]) && GapOf(input[1 + m..], n, true)
    ensures GapOf(input, 1 + m + n, afterWs)
  {
    var k, g := input[1..][..m], input[1 + m..][..n];
    assert input[1 + m..][0] == input[1 + m];
    assert n > 0 && g[0] == input[1 + m];
    assert input[..1 + m + n] == [HASH] + (k + g) && input[1 + m + n..] == input[1 + m..][n..];
    CommentFiller(k, g);
  }

  // Bare strings

  predicate HeaderText(t: Text) {
    StringAnalysis.Matches(t, StringAnalysis.DATA_) || StringAnalysis.Matches(t, StringAnalysis.SAVE_)
  }

  /** The part of a bare string that the loop goes through. */
  lemma {:induction false} BareEnded(s: State, input: Text)
    requires s == Start(s.line, s.column) && Run(Unquoted, s, input, true).Scanned?
    ensures var o := Run(Unquoted, s, input, true); var t, u := input[..o.length], input[o.length..];
      Clean(t) && Ends(u) && (Solid(t) && HeaderText(t) && u != [] ==> StartsWs(u))
  {
    var m := RunEnded(Unquoted, s, input);
    var t, u := input[..m], input[m..];
    var s' := After(Unquoted, s, t).value;
    AfterLead(Unquoted, s, t);
    if m < |input| {
      assert u[0] == input[m];
      StepLead(Unquoted, s', input[m]);
      CleanBefore(t, input[m]);
      if Solid(t) && HeaderText(t) { HeaderEnds(s, t, input[m]); }
    } else {
      CleanLeads(0, t);
    }
  }

  /** A string that looks like a header is not ended by a bracket. */
  lemma {:induction false} HeaderEnds(s: State, t: Text, c: Unit)
    requires s == Start(s.line, s.column) && Clean(t) && Solid(t) && After(Unquoted, s, t).Some?
    requires StepOn(Unquoted, After(Unquoted, s, t).value, c, true).StopBefore?
    requires HeaderText(t)
    ensures MetaOf(c) == WsMeta
  {
    BareThrough(s, t);
    if StringAnalysis.Matches(t, StringAnalysis.DATA_) {
      MatchesAgrees(t, StringAnalysis.DATA_);
    } else {
      MatchesAgrees(t, StringAnalysis.SAVE_);
    }
  }

  lemma {:induction false} MatchesAgrees(t: Text, word: Text)
    requires StringAnalysis.Matches(t, word)
    ensures Agrees(t, word, 0)
  {
  }

  /** What cif_value_set_quoted lets pass has no white space and no brackets. */
  lemma {:induction false} BareSolid(text: Text)
    requires BareValue(text).Ok?
    ensures text != [] && Solid(text) && !StringAnalysis.Reserved(text)
  {
    if text == [QUERY] || text == [DOT] {
      assert text[0] in {QUERY, DOT};
    }
    forall i | 0 <= i < |text| ensures MetaOf(text[i]) in {GeneralMeta, NoMeta} {
      assert text[i] !in {OBRAK, CBRAK, OCURL, CCURL, SP, TAB, NL, CR};
    }
  }

  lemma {:induction false} BareForm(input: Text, skip: nat, line: nat, column: int) returns (n: nat)
    requires skip <= |input| && ClassifyBare(BareToken(TokenKind.Value, input, skip, line, column, true)).Ok?
    requires var t := ClassifyBare(BareToken(TokenKind.Value, input, skip, line, column, true)).value;
      t.kind == TokenKind.Value
    ensures n <= |input[skip..]|
    ensures var t := ClassifyBare(BareToken(TokenKind.Value, input, skip, line, column, true)).value;
      var part, u := input[skip..][..n], input[skip..][n..];
      && t.value == input[..skip + n] && t.rest == input[skip + n..] == u && Clean(part) && Ends(u)
      && (Solid(part) && HeaderText(part) && u != [] ==> StartsWs(u))
  {
    n := Run(Unquoted, Start(line, column), input[skip..], true).length;
    BareEnded(Start(line, column), input[skip..]);
    assert input[skip + n..] == input[skip..][n..];
  }

  /** A token that is a bare string, and a value. */
  lemma {:induction false} ValueForm(body: Text, line: nat, column: int)
    requires body != [] && MetaOf(body[0]) != WsMeta && ClassOf(body[0]) != Hash
    requires TokenHere(body, line, column, true).Ok? && TokenHere(body, line, column, true).value.kind == TokenKind.Value
    requires BareValue(TokenHere(body, line, column, true).value.value).Ok?
    ensures var t := TokenHere(body, line, column, true).value;
      && body == t.value + t.rest && BareOk(t.value) && (t.value[0] == SEMI ==> column != 0) && Follows(DBare([], t.value), t.rest)
  {
    var t := TokenHere(body, line, column, true).value;
    BareSolid(t.value);
    ValueToken(body, line, column);
    if body[0] == SEMI {
      var n := BareForm(body, 1, line, column + 1);
      SemiParts(body, t.value, t.rest, n);
    } else {
      var n := BareForm(body, 0, line, column);
      PlainParts(body, t.value, t.rest, n);
    }
  }

  lemma {:induction false} SemiParts(body: Text, text: Text, u: Text, n: nat)
    requires body != [] && body[0] == SEMI && n <= |body[1..]| && text == body[..1 + n] && u == body[1 + n..]
    requires Solid(text) && !StringAnalysis.Reserved(text)
    requires var part := body[1..][..n];
      Clean(part) && Ends(u) && (Solid(part) && HeaderText(part) && u != [] ==> StartsWs(u))
    ensures body == text + u && BareOk(text) && text[0] == SEMI && Follows(DBare([], text), u)
  {
    assert text[0] == SEMI && text[1..] == body[1..][..n];
    SolidTail(text);
  }

  lemma {:induction false} PlainParts(body: Text, text: Text, u: Text, n: nat)
    requires body != [] && body[0] != SEMI && n <= |body[0..]| && text == body[..0 + n] && u == body[0 + n..]
    requires text != [] && Solid(text) && !StringAnalysis.Reserved(text) && Clean(body[0..][..n]) && Ends(u)
    requires ClassOf(body[0]) !in {Quote, Hash, Underscore}
    ensures body == text + u && BareOk(text) && text[0] != SEMI && Follows(DBare([], text), u)
  {
    assert body[0..] == body && text[0] == body[0];
  }

  lemma {:induction false} SolidTail(t: Text)
    requires t != [] && t[0] == SEMI
    ensures Solid(t) ==> Solid(t[1..])
    ensures Clean(t[1..]) ==> Clean(t)
  {
    assert forall i :: 0 <= i < |t[1..]| ==> t[1..][i] == t[i + 1];
  }

  /** Which scan gives a bare value. */
  lemma {:induction false} ValueToken(body: Text, line: nat, column: int)
    requires body != [] && MetaOf(body[0]) != WsMeta && ClassOf(body[0]) != Hash
    requires TokenHere(body, line, column, true).Ok? && TokenHere(body, line, column, true).value.kind == TokenKind.Value
    ensures body[0] == SEMI ==>
      column != 0 && TokenHere(body, line, column, true) == ClassifyBare(BareToken(TokenKind.Value, body, 1, line, column + 1, true))
    ensures body[0] != SEMI ==>
      TokenHere(body, line, column, true) == ClassifyBare(BareToken(TokenKind.Value, body, 0, line, column, true))
    ensures ClassOf(body[0]) !in {Quote, Hash, Underscore}
  {
  }

  // Quoted strings

  lemma {:induction false} DelimEnded(q: Unit, lead: Unit, column: int, first: bool, input: Text)
    requires IsQuote(q) && RunDelim(q, lead, column, first, input).Closed?
    ensures var n := RunDelim(q, lead, column, first, input).length; var t := input[..n];
      && CleanFrom(lead, t) && q !in t && NL !in t && CR !in t && input[n] == q
      && (first && n == 0 && |input| >= 2 ==> input[1] != q)
    decreases |input|
  {
    var n := RunDelim(q, lead, column, first, input).length;
    if input[0] == q {
      NotPending(lead, q);
      assert input[..0] == [];
    } else {
      var l := NextLead(lead, input[0]).value;
      DelimEnded(q, l, NextColumn(column, input[0]), false, input[1..]);
      assert input[..n] == [input[0]] + input[1..][..n - 1];
    }
  }

  /** What is in front of the third of three quotes. */
  lemma {:induction false} TripleThrough(q: Unit, s: State, t: Text)
    requires IsQuote(q) && s.delims == 0 && After(TripleQuoted(q), s, t).Some?
    ensures !StringAnalysis.HasTriple(t, q)
    ensures var n := After(TripleQuoted(q), s, t).value.delims;
      n <= 2 && (n >= 1 <==> EndsIn(t, q)) && (n == 2 <==> EndsIn(t, q) && EndsIn(t[..|t| - 1], q))
    decreases |t|
  {
    if t != [] {
      var n := |t| - 1;
      var init, c := t[..n], t[n];
      assert t == init + [c];
      AfterAppend(TripleQuoted(q), s, init, c);
      TripleThrough(q, s, init);
      TripleStep(q, After(TripleQuoted(q), s, init).value, init, c);
    }
  }

  lemma {:induction false} TripleStep(q: Unit, s: State, t: Text, c: Unit)
    requires IsQuote(q) && !StringAnalysis.HasTriple(t, q) && s.delims <= 2
    requires (s.delims >= 1 <==> EndsIn(t, q)) && (s.delims == 2 <==> EndsIn(t, q) && EndsIn(t[..|t| - 1], q))
    requires StepOn(TripleQuoted(q), s, c, true).More?
    ensures var n := StepOn(TripleQuoted(q), s, c, true).state.delims;
      n == if c == q then s.delims + 1 else 0
    ensures s.delims == 2 ==> c != q
    ensures !StringAnalysis.HasTriple(t + [c], q) && (t + [c])[..|t|] == t
  {
    assert (t + [c])[..|t|] == t;
    TripleAppend(t, c, q);
  }

  lemma {:induction false} TripleAppend(t: Text, c: Unit, q: Unit)
    ensures StringAnalysis.HasTriple(t + [c], q)
       <==> StringAnalysis.HasTriple(t, q) || (c == q && EndsIn(t, q) && EndsIn(t[..|t| - 1], q))
  {
    var u := t + [c];
    if i :| 0 <= i < |u| - 2 && u[i] == q && u[i + 1] == q && u[i + 2] == q {
      if i < |t| - 2 {
        assert t[i] == q && t[i + 1] == q && t[i + 2] == q;
      } else {
        assert EndsIn(t[..|t| - 1], q);
      }
    }
    if i :| 0 <= i < |t| - 2 && t[i] == q && t[i + 1] == q && t[i + 2] == q {
      assert u[i] == q && u[i + 1] == q && u[i + 2] == q;
    }
    if c == q && EndsIn(t, q) && EndsIn(t[..|t| - 1], q) {
      var i := |t| - 2;
      assert u[i] == t[..|t| - 1][i] && u[i + 1] == q && u[i + 2] == q;
    }
  }

  /** A quotation and what is behind it. */
  predicate QuotationAt(q: Quotation, body: Text, u: Text) {
    QuotationOk(q) && body == QuotedChars(q) + u && FollowsQuotation(q, u)
  }

  /** What a quoted token consists of. */
  lemma {:induction false} QuotedForm(body: Text, line: nat, column: int) returns (q: Quotation, u: Text)
    requires body != [] && IsQuote(body[0]) && QuotedToken(body, line, column, true).Ok?
    ensures QuotationAt(q, body, u) && var t := QuotedToken(body, line, column, true).value;
      && t.value == q.text
      && (if u != [] && u[0] == COLON then t.kind == Key && t.rest == u[1..] else t.kind == QValue && t.rest == u)
  {
    var d := body[0];
    var o := RunDelim(d, 0, column + 1, true, body[1..]);
    if o.Closed? {
      DelimEnded(d, 0, column + 1, true, body[1..]);
      var n := o.length;
      q, u := Quotation(d, false, body[1..1 + n]), body[2 + n..];
      SingleParts(body, n);
    } else {
      OpensThree(d, column + 1, body[1..]);
      q, u := TripleForm(body, line, o.column);
    }
  }

  lemma {:induction false} SingleParts(body: Text, n: nat)
    requires n + 1 < |body| && body[1..][n] == body[0]
    ensures body[1..][..n] == body[1..1 + n] && body == [body[0]] + body[1..1 + n] + [body[0]] + body[2 + n..]
    ensures n == 0 && body[2..] != [] ==> |body[1..]| >= 2 && body[2..][0] == body[1..][1]
  {
  }

  lemma {:induction false} OpensThree(q: Unit, column: int, input: Text)
    requires RunDelim(q, 0, column, true, input).OpensTriple?
    ensures |input| >= 2 && input[0] == q && input[1] == q
  {
  }

  lemma {:induction false} TripleForm(body: Text, line: nat, column: int) returns (q: Quotation, u: Text)
    requires |body| >= 3 && IsQuote(body[0]) && body[1..][0] == body[1..][1] == body[0] && TripleToken(body, line, column, true).Ok?
    ensures QuotationAt(q, body, u) && q.triple && var t := TripleToken(body, line, column, true).value;
      && t.value == q.text
      && (if u != [] && u[0] == COLON then t.kind == Key && t.rest == u[1..] else t.kind == QValue && t.rest == u)
  {
    var d, s := body[0], Start(line, column);
    var input := body[3..];
    var m := TripleEnded(d, s, input);
    q, u := Quotation(d, true, input[..m]), input[m + 3..];
    TripleParts(body, m);
  }

  lemma {:induction false} TripleParts(body: Text, m: nat)
    requires |body| >= 3 && body[1..][0] == body[1..][1] == body[0]
    requires m + 3 <= |body[3..]| && body[3..][m..m + 3] == [body[0], body[0], body[0]]
    ensures var d := body[0];
      body == [d, d, d] + body[3..][..m] + [d, d, d] + body[3..][m + 3..]
    ensures body[3..3 + m] == body[3..][..m] && body[3 + (m + 3)..] == body[3..][m + 3..]
  {
    var d, input := body[0], body[3..];
    assert body == [d, d, d] + input;
    assert input == input[..m] + input[m..m + 3] + input[m + 3..];
  }

  lemma {:induction false} TripleEnded(q: Unit, s: State, input: Text) returns (m: nat)
    requires IsQuote(q) && s == Start(s.line, s.column) && Run(TripleQuoted(q), s, input, true).Scanned?
    ensures var o := Run(TripleQuoted(q), s, input, true);
      m + 3 <= |input| && o.length == m + 3 && o.drop == 3 && input[m..m + 3] == [q, q, q]
    ensures Clean(input[..m]) && NoClose(input[..m], q, 0)
  {
    var n := RunEnded(TripleQuoted(q), s, input);
    var w := input[..n];
    TripleThrough(q, s, w);
    AfterLead(TripleQuoted(q), s, w);
    TripleStops(q, After(TripleQuoted(q), s, w).value, input, n, Run(TripleQuoted(q), s, input, true));
    m := n - 2;
    TwoQuotes(input, m, q);
    LastQuotes(input[..m], w, q);
  }

  lemma {:induction false} TripleStops(q: Unit, s: State, input: Text, n: nat, o: Outcome)
    requires n <= |input| && o.Scanned? && Ended(TripleQuoted(q), s, input, n, o) && s.delims <= 2
    ensures n < |input| && input[n] == q && s.delims == 2 && o.length == n + 1 && o.drop == 3
  {
  }

  lemma {:induction false} TwoQuotes(input: Text, m: nat, q: Unit)
    requires m + 2 < |input| && EndsIn(input[..m + 2], q) && EndsIn(input[..m + 2][..m + 1], q) && input[m + 2] == q
    ensures input[m..m + 3] == [q, q, q] && input[..m + 2] == input[..m] + [q] + [q]
  {
    assert input[..m + 2][m + 1] == input[m + 1] && input[..m + 2][..m + 1][m] == input[m];
  }

  lemma {:induction false} LastQuotes(t: Text, w: Text, q: Unit)
    requires w == t + [q] + [q] && IsQuote(q) && !StringAnalysis.HasTriple(w, q) && LeadFrom(0, w).Ok?
    ensures Clean(t) && NoClose(t, q, 0)
  {
    LeadAppend(0, t + [q], q);
    LeadAppend(0, t, q);
    CleanBefore(t, q);
    TripleInPrefix(t, w, q);
  }

  lemma {:induction false} TripleInPrefix(t: Text, w: Text, q: Unit)
    requires w == t + [q] + [q] && !StringAnalysis.HasTriple(w, q)
    ensures NoClose(t, q, 0)
  {
    TripleAppend(t + [q], q, q);
    TripleAppend(t, q, q);
    assert (t + [q])[..|t + [q]| - 1] == t;
  }

  // Text fields

  /** How a field is closed, from the start-of-line code. */
  function EndOf(t: Text, sol: nat): FieldEnd {
    if sol == 9 then CrLf else if EndsIn(t, CR) then Cr else Lf
  }

  lemma {:induction false} FieldParts(w: Text, sol: nat)
    requires SolOf(sol, w) && sol != 0 && NoEolSemi(w)
    ensures var end := EndOf(w, sol); var k := |w| - (|Closing(end)| - 1);
      && k >= 0 && |Closing(end)| == (if sol == 9 then 3 else 2)
      && w + [SEMI] == w[..k] + Closing(end) && NoEolSemi(w[..k]) && (end == Lf ==> !EndsIn(w[..k], CR))
      && IsEol(w[k])
  {
    var end := EndOf(w, sol);
    var k := |w| - (|Closing(end)| - 1);
    if sol == 9 { assert w[..|w| - 1][|w| - 2] == w[|w| - 2] == CR; }
    if end == Lf && k > 0 { assert w[..|w| - 1][k - 1] == w[..k][k - 1]; }
  }

  lemma {:induction false} FieldEnded(s: State, input: Text) returns (k: nat, end: FieldEnd)
    requires s.lead == 0 && s.sol == 0 && s.delims == 0 && Run(TextField, s, input, true).Scanned?
    ensures var o := Run(TextField, s, input, true);
      k + |Closing(end)| == o.length <= |input| && o.drop == |Closing(end)| && input[..o.length] == input[..k] + Closing(end)
    ensures FieldText(input[..k], end)
  {
    var n := RunEnded(TextField, s, input);
    var w := input[..n];
    var s' := After(TextField, s, w).value;
    FieldThrough(s, w);
    assert input[n] == SEMI && s'.sol != 0;
    FieldParts(w, s'.sol);
    end := EndOf(w, s'.sol);
    k := |w| - (|Closing(end)| - 1);
    assert input[..n + 1] == w + [SEMI] && input[..k] == w[..k];
    CleanPrefix(w, k);
  }

  lemma {:induction false} CleanPrefix(w: Text, k: nat)
    requires LeadFrom(0, w).Ok? && k < |w| && IsEol(w[k])
    ensures Clean(w[..k])
  {
    assert w == w[..k + 1] + w[k + 1..] && w[..k + 1] == w[..k] + [w[k]];
    LeadPrefix(0, w[..k + 1], w[k + 1..]);
    LeadAppend(0, w[..k], w[k]);
    CleanBefore(w[..k], w[k]);
  }

  lemma {:induction false} LeadPrefix(lead: Unit, a: Text, b: Text)
    requires LeadFrom(lead, a + b).Ok?
    ensures LeadFrom(lead, a).Ok?
    decreases |a|
  {
    if a != [] {
      assert (a + b)[0] == a[0] && (a + b)[1..] == a[1..] + b;
      LeadPrefix(NextLead(lead, a[0]).value, a[1..], b);
    }
  }

  /** What a text field consists of. */
  lemma {:induction false} FieldForm(body: Text, line: nat, column: int) returns (end: FieldEnd, u: Text)
    requires body != [] && body[0] == SEMI && FieldToken(body, line, column, true).Ok?
    ensures var t := FieldToken(body, line, column, true).value;
      && FieldText(t.value, end) && body == [SEMI] + t.value + Closing(end) + u
      && (if u != [] && u[0] == COLON then t.kind == TKey && t.rest == u[1..] else t.kind == TValue && t.rest == u)
  {
    var k;
    k, end := FieldEnded(Start(line, column + 1), body[1..]);
    u := body[1..][k + |Closing(end)|..];
    FieldSplit(body, k, end);
  }

  lemma {:induction false} FieldSplit(body: Text, k: nat, end: FieldEnd)
    requires body != [] && body[0] == SEMI && k + |Closing(end)| <= |body[1..]|
    requires body[1..][..k + |Closing(end)|] == body[1..][..k] + Closing(end)
    ensures var n, input := k + |Closing(end)|, body[1..];
      body[1..1 + n - |Closing(end)|] == input[..k] && body[1 + n..] == input[n..]
      && body == [SEMI] + input[..k] + Closing(end) + input[n..]
  {
    var n, input := k + |Closing(end)|, body[1..];
    assert body == [SEMI] + input && input == input[..n] + input[n..];
    ThreeParts([SEMI], input[..k], Closing(end), input[n..]);
  }

  lemma {:induction false} ThreeParts(a: Text, b: Text, c: Text, d: Text)
    ensures a + ((b + c) + d) == a + b + c + d
  {
  }
}
