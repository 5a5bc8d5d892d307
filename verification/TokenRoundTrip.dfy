/**
 The scanner returns exactly the string that was written between delimiters.
 */
module TokenRoundTrip {
  import opened Units
  import opened Wrappers
  import opened StringAnalysis
  import opened Lexer
  import opened Columns

  /** Valid units with every surrogate paired, given a lead surrogate that may be pending. */
  predicate CleanFrom(lead: Unit, s: Text)
    decreases |s|
  {
    if s == [] then lead == 0
    else NextLead(lead, s[0]).Ok? && CleanFrom(NextLead(lead, s[0]).value, s[1..])
  }

  predicate Clean(s: Text) {
    CleanFrom(0, s)
  }

  /** The state after a loop has taken all of t, or None if it stops or fails within t. */
  ghost function After(kind: Kind, s: State, t: Text): Option<State>
    decreases |t|
  {
    if t == [] then Some(s)
    else match StepOn(kind, s, t[0], true)
      case More(s') => After(kind, s', t[1..])
      case _ => None
  }

  /**
   Scanning goes through t and then on from there, unless overlong lines are
   not let pass and a terminator in t is beyond the limit.
   */
  lemma {:induction false} RunThrough(kind: Kind, s: State, t: Text, u: Text, lenient: bool)
    requires s.delims <= 2 && (kind.TripleQuoted? ==> IsQuote(kind.delim)) && After(kind, s, t).Some?
    ensures After(kind, s, t).value.delims <= 2
    ensures Run(kind, s, t + u, lenient)
         == if lenient || Within(s.column, t, TOKEN_LIMIT) then Longer(|t|, Run(kind, After(kind, s, t).value, u, lenient))
            else Failed(OverlengthLine)
    ensures After(kind, s, t).value.column == ColumnAfter(s.column, t)
    decreases |t|
  {
    if t == [] {
      assert t + u == u;
    } else {
      var s' := StepOn(kind, s, t[0], true).state;
      assert (t + u)[0] == t[0] && (t + u)[1..] == t[1..] + u;
      OneThrough(kind, s, t[0], lenient);
      RunThrough(kind, s', t[1..], u, lenient);
    }
  }

  /** One unit that a loop goes on after. */
  lemma {:induction false} OneThrough(kind: Kind, s: State, c: Unit, lenient: bool)
    requires s.delims <= 2 && (kind.TripleQuoted? ==> IsQuote(kind.delim)) && StepOn(kind, s, c, true).More?
    ensures StepOn(kind, s, c, true).state.column == ColumnOver(s.column, c)
    ensures StepOn(kind, s, c, lenient)
         == if lenient || (IsEol(c) ==> s.column <= TOKEN_LIMIT) then StepOn(kind, s, c, true) else Fail(OverlengthLine)
  {
  }

  /** One more unit. */
  lemma {:induction false} AfterAppend(kind: Kind, s: State, t: Text, c: Unit)
    ensures After(kind, s, t + [c]) == match After(kind, s, t)
      case None => None
      case Some(s') => (match StepOn(kind, s', c, true) case More(s'') => Some(s'') case _ => None)
    decreases |t|
  {
    if t == [] {
      assert t + [c] == [c] && [c][1..] == [];
    } else {
      assert (t + [c])[0] == t[0] && (t + [c])[1..] == t[1..] + [c];
      var step := StepOn(kind, s, t[0], true);
      if step.More? { AfterAppend(kind, step.state, t[1..], c); }
    }
  }

  /** The lead surrogate that is pending after some text. */
  function LeadFrom(lead: Unit, t: Text): Result<Unit, Code>
    decreases |t|
  {
    if t == [] then Ok(lead)
    else match NextLead(lead, t[0])
      case Err(e) => Err(e)
      case Ok(l) => LeadFrom(l, t[1..])
  }

  lemma {:induction false} CleanLeads(lead: Unit, t: Text)
    ensures CleanFrom(lead, t) <==> LeadFrom(lead, t) == Ok(0)
    decreases |t|
  {
    if t != [] && NextLead(lead, t[0]).Ok? { CleanLeads(NextLead(lead, t[0]).value, t[1..]); }
  }

  lemma {:induction false} LeadAppend(lead: Unit, t: Text, c: Unit)
    ensures LeadFrom(lead, t + [c]) == match LeadFrom(lead, t)
      case Err(e) => Err(e)
      case Ok(l) => NextLead(l, c)
    decreases |t|
  {
    if t == [] {
      assert t + [c] == [c] && [c][1..] == [];
    } else {
      assert (t + [c])[0] == t[0] && (t + [c])[1..] == t[1..] + [c];
      if NextLead(lead, t[0]).Ok? { LeadAppend(NextLead(lead, t[0]).value, t[1..], c); }
    }
  }

  // Text fields

  /** How the closing delimiter of a text field is written: a line terminator and a semicolon. */
  datatype FieldEnd = Lf | Cr | CrLf

  function Closing(e: FieldEnd): Text {
    match e
    case Lf => [NL, SEMI]
    case Cr => [CR, SEMI]
    case CrLf => [CR, NL, SEMI]
  }

  /** Text in which no terminator is followed by a semicolon. */
  predicate NoEolSemi(t: Text) {
    forall i :: 0 <= i < |t| - 1 && IsEol(t[i]) ==> t[i + 1] != SEMI
  }

  predicate EndsIn(t: Text, c: Unit) {
    t != [] && t[|t| - 1] == c
  }

  /** The contents of a text field that is closed in a certain way; a pair of terminators is not torn apart. */
  predicate FieldText(t: Text, e: FieldEnd) {
    Clean(t) && NoEolSemi(t) && (e == Lf ==> !EndsIn(t, CR))
  }

  lemma {:induction false} PlainFieldText(t: Text)
    requires Clean(t) && NoCr(t) && !HasNlSemi(t)
    ensures FieldText(t, Lf)
  {
  }

  /** The start-of-line code after some text: not zero after a terminator, and 9 after a CR LF pair. */
  predicate SolOf(sol: nat, t: Text) {
    && sol < 16 && (sol != 0 <==> EndsIn(t, NL) || EndsIn(t, CR)) && (sol % 4 == 2 <==> EndsIn(t, CR))
    && (sol == 9 <==> EndsIn(t, NL) && EndsIn(t[..|t| - 1], CR))
  }

  lemma {:induction false} SolAppend(sol: nat, t: Text, c: Unit)
    requires SolOf(sol, t)
    ensures IsEol(c) ==> SolOf(NextSol(sol, c), t + [c])
    ensures !IsEol(c) ==> SolOf(0, t + [c])
  {
    assert (t + [c])[..|t|] == t;
  }

  lemma {:induction false} NoEolSemiAppend(t: Text, c: Unit)
    ensures NoEolSemi(t + [c]) <==> NoEolSemi(t) && (c == SEMI ==> !EndsIn(t, NL) && !EndsIn(t, CR))
  {
    var u := t + [c];
    assert forall i :: 0 <= i < |t| ==> u[i] == t[i];
    if NoEolSemi(u) && t != [] { assert IsEol(u[|t| - 1]) ==> u[|t|] != SEMI; }
  }

  /** The scan of a field goes through exactly the text without a closing delimiter. */
  lemma {:induction false} FieldThrough(s: State, t: Text)
    requires s.lead == 0 && s.sol == 0 && s.delims == 0
    ensures After(TextField, s, t).Some? <==> NoEolSemi(t) && LeadFrom(0, t).Ok?
    ensures After(TextField, s, t).Some? ==>
      var s' := After(TextField, s, t).value; s'.lead == LeadFrom(0, t).value && SolOf(s'.sol, t) && s'.delims == 0
    decreases |t|
  {
    if t != [] {
      var n := |t| - 1;
      var init, c := t[..n], t[n];
      assert t == init + [c];
      FieldThrough(s, init);
      AfterAppend(TextField, s, init, c);
      LeadAppend(0, init, c);
      NoEolSemiAppend(init, c);
      if After(TextField, s, init).Some? {
        FieldStep(After(TextField, s, init).value, init, c);
      }
    }
  }

  /** One more unit of a field. */
  lemma {:induction false} FieldStep(s: State, t: Text, c: Unit)
    requires SolOf(s.sol, t)
    ensures var step := StepOn(TextField, s, c, true);
      && (step.More? <==> NextLead(s.lead, c).Ok? && !(c == SEMI && s.sol != 0))
      && (step.More? ==> step.state.lead == NextLead(s.lead, c).value && step.state.delims == s.delims && SolOf(step.state.sol, t + [c]))
  {
    SolAppend(s.sol, t, c);
  }

  /** What is scanned is as long as the text and its closing delimiter, and ends at the given column. */
  predicate Passes(o: Outcome, length: nat, drop: nat, column: int) {
    o.Scanned? && o.length == length && o.drop == drop && o.state.column == column
  }

  /** A text field is scanned up to its closing delimiter and no further, if its lines are not too long. */
  lemma {:induction false} FieldScanned(s: State, t: Text, e: FieldEnd, u: Text, lenient: bool)
    requires FieldText(t, e) && s.lead == 0 && s.sol == 0 && s.delims == 0
    ensures var o, n := Run(TextField, s, t + Closing(e) + u, lenient), |Closing(e)|;
      if lenient || Within(s.column, t + [NL], TOKEN_LIMIT) then Passes(o, |t| + n, n, 1) else o == Failed(OverlengthLine)
  {
    CleanLeads(0, t);
    FieldThrough(s, t);
    var s1 := After(TextField, s, t).value;
    var tail := Closing(e) + u;
    assert t + Closing(e) + u == t + tail;
    RunThrough(TextField, s, t, tail, lenient);
    WithinConcat(s.column, t, [NL], TOKEN_LIMIT);
    assert s1.sol % 4 == 2 ==> EndsIn(t, CR);
    FieldCloses(s1, e, u, lenient);
  }

  /** The closing delimiter of a text field. */
  lemma {:induction false} FieldCloses(s: State, e: FieldEnd, u: Text, lenient: bool)
    requires s.lead == 0 && s.sol < 16 && (e == Lf ==> s.sol % 4 != 2) && s.delims == 0
    ensures var o, n := Run(TextField, s, Closing(e) + u, lenient), |Closing(e)|;
      if lenient || Within(s.column, [NL], TOKEN_LIMIT) then Passes(o, n, n, 1) else o == Failed(OverlengthLine)
  {
    var c := Closing(e)[0];
    var rest := Closing(e)[1..] + u;
    assert Closing(e) + u == [c] + rest;
    OneTerminator(s.column);
    NextCodes(s.sol);
    var s2 := TerminatorPassed(s, c, rest, lenient);
    if e == CrLf {
      assert rest == [NL, SEMI] + u;
      PairCloses(s2, u, lenient);
    } else {
      assert rest == [SEMI] + u;
      SemicolonCloses(s2, u, lenient);
    }
  }

  lemma {:induction false} OneTerminator(column: int)
    ensures Within(column, [NL], TOKEN_LIMIT) <==> column <= TOKEN_LIMIT
  {
    assert [NL][1..] == [];
  }

  /** A pair is recognized at its second terminator. */
  lemma {:induction false} NextCodes(sol: nat)
    requires sol < 16
    ensures (NextSol(sol, NL) == 9 <==> sol % 4 == 2) && NextSol(sol, NL) != 0
    ensures NextSol(sol, CR) % 4 == 2 && NextSol(sol, CR) < 16
  {
  }

  lemma {:induction false} TerminatorPassed(s: State, c: Unit, rest: Text, lenient: bool) returns (s': State)
    requires IsEol(c) && s.lead == 0 && s.delims == 0
    ensures s'.lead == 0 && s'.delims == 0 && s'.column == 0 && s'.sol == NextSol(s.sol, c)
    ensures Run(TextField, s, [c] + rest, lenient)
         == if lenient || s.column <= TOKEN_LIMIT then Longer(1, Run(TextField, s', rest, lenient)) else Failed(OverlengthLine)
  {
    assert ([c] + rest)[0] == c && ([c] + rest)[1..] == rest;
    OneThrough(TextField, s, c, lenient);
    s' := StepOn(TextField, s, c, true).state;
  }

  lemma {:induction false} SemicolonCloses(s: State, u: Text, lenient: bool)
    requires s.lead == 0 && s.sol != 0 && s.delims == 0
    ensures Passes(Run(TextField, s, [SEMI] + u, lenient), 1, if s.sol == 9 then 3 else 2, s.column + 1)
  {
    assert ([SEMI] + u)[0] == SEMI;
    assert StepOn(TextField, s, SEMI, lenient).StopAfter?;
  }

  lemma {:induction false} PairCloses(s: State, u: Text, lenient: bool)
    requires s.lead == 0 && s.sol % 4 == 2 && s.sol < 16 && s.delims == 0 && s.column == 0
    ensures Passes(Run(TextField, s, [NL, SEMI] + u, lenient), 2, 3, 1)
  {
    assert ([NL, SEMI] + u)[0] == NL && ([NL, SEMI] + u)[1..] == [SEMI] + u;
    var s' := StepOn(TextField, s, NL, lenient).state;
    SemicolonCloses(s', u, lenient);
  }

  // Quoted strings

  lemma {:induction false} DelimThrough(q: Unit, lead: Unit, column: int, first: bool, t: Text, u: Text)
    requires IsQuote(q) && CleanFrom(lead, t) && q !in t && NL !in t && CR !in t
    requires first && t == [] && u != [] ==> u[0] != q
    ensures RunDelim(q, lead, column, first, t + [q] + u) == Closed(|t|, ColumnAfter(column, t) + 1)
    decreases |t|
  {
    var input := t + [q] + u;
    if t == [] {
      assert input == [q] + u && input[1..] == u;
    } else {
      assert input[0] == t[0] && input[1..] == t[1..] + [q] + u;
      DelimThrough(q, NextLead(lead, t[0]).value, NextColumn(column, t[0]), false, t[1..], u);
    }
  }

  predicate IsQuote(q: Unit) {
    q == SQ || q == DQ
  }

  /** Up to two quotes just seen, no triple in what follows, and it does not end in the quote. */
  predicate NoClose(t: Text, q: Unit, delims: nat) {
    && !HasTriple(t, q) && (t != [] ==> t[|t| - 1] != q)
    && (delims >= 1 ==> t != [] && (|t| >= 2 ==> !(t[0] == q && t[1] == q)))
    && (delims >= 2 ==> t != [] && t[0] != q)
  }

  lemma {:induction false} TripleInSuffix(t: Text, q: Unit)
    requires t != []
    ensures HasTriple(t[1..], q) ==> HasTriple(t, q)
  {
    var t' := t[1..];
    if HasTriple(t', q) {
      var i :| 0 <= i < |t'| - 2 && t'[i] == q && t'[i + 1] == q && t'[i + 2] == q;
      assert t[i + 1] == q && t[i + 1 + 1] == q && t[i + 1 + 2] == q;
    }
  }

  lemma {:induction false} TripledThrough(q: Unit, s: State, t: Text)
    requires IsQuote(q) && CleanFrom(s.lead, t) && s.delims <= 2 && NoClose(t, q, s.delims)
    ensures After(TripleQuoted(q), s, t).Some?
    ensures var s' := After(TripleQuoted(q), s, t).value; s'.lead == 0 && s'.delims == 0
    decreases |t|
  {
    if t != [] {
      var s' := StepOn(TripleQuoted(q), s, t[0], true).state;
      var t' := t[1..];
      assert forall i :: 0 <= i < |t'| ==> t'[i] == t[i + 1];
      TripleInSuffix(t, q);
      assert |t| >= 3 ==> !(t[0] == q && t[0 + 1] == q && t[0 + 2] == q);
      TripledThrough(q, s', t');
    }
  }

  /** A triple-quoted string is scanned up to its closing delimiter and no further, if its lines are not too long. */
  lemma {:induction false} TripledScanned(q: Unit, s: State, t: Text, u: Text, lenient: bool)
    requires IsQuote(q) && Clean(t) && s.lead == 0 && s.delims == 0 && NoClose(t, q, 0)
    ensures var o := Run(TripleQuoted(q), s, t + [q, q, q] + u, lenient);
      if lenient || Within(s.column, t, TOKEN_LIMIT) then Passes(o, |t| + 3, 3, ColumnAfter(s.column, t) + 3)
      else o == Failed(OverlengthLine)
  {
    TripledThrough(q, s, t);
    var s1 := After(TripleQuoted(q), s, t).value;
    var tail := [q, q, q] + u;
    assert t + [q, q, q] + u == t + tail;
    RunThrough(TripleQuoted(q), s, t, tail, lenient);
    TripleCloses(q, s1, u, lenient);
  }

  /** The closing delimiter of a triple-quoted string. */
  lemma {:induction false} TripleCloses(q: Unit, s: State, u: Text, lenient: bool)
    requires IsQuote(q) && s.lead == 0 && s.delims == 0
    ensures Passes(Run(TripleQuoted(q), s, [q, q, q] + u, lenient), 3, 3, s.column + 3)
  {
    var tail := [q, q, q] + u;
    assert tail[1..] == [q, q] + u && tail[1..][1..] == [q] + u && tail[1..][1..][1..] == u;
    var s2 := StepOn(TripleQuoted(q), s, q, lenient).state;
    var s3 := StepOn(TripleQuoted(q), s2, q, lenient).state;
    assert StepOn(TripleQuoted(q), s3, q, lenient).StopAfter?;
    assert Passes(Run(TripleQuoted(q), s3, [q] + u, lenient), 1, 3, s.column + 3);
    assert Passes(Run(TripleQuoted(q), s2, [q, q] + u, lenient), 2, 3, s.column + 3);
  }

  // Bare strings

  /** No white space and no brackets. */
  predicate Solid(t: Text) {
    forall i :: 0 <= i < |t| ==> MetaOf(t[i]) in {GeneralMeta, NoMeta}
  }

  /** Do the units from position offset on agree with the keyword, as far as it goes? */
  predicate Agrees(t: Text, word: Text, offset: nat) {
    forall i :: 0 <= i < |t| && offset + i < |word| ==> MatchesLetter(t[i], word, offset + i)
  }

  lemma {:induction false} BareThrough(s: State, t: Text)
    requires CleanFrom(s.lead, t) && Solid(t)
    ensures After(Unquoted, s, t).Some?
    ensures var s' := After(Unquoted, s, t).value;
      && s'.lead == 0 && s'.delims == s.delims && s'.offset == s.offset + |t|
      && s'.data == (s.data && Agrees(t, DATA_, s.offset)) && s'.save == (s.save && Agrees(t, SAVE_, s.offset))
    decreases |t|
  {
    if t != [] {
      var s' := StepOn(Unquoted, s, t[0], true).state;
      assert MetaOf(t[0]) == GeneralMeta;
      assert forall i :: 0 <= i < |t[1..]| ==> t[1..][i] == t[i + 1];
      BareThrough(s', t[1..]);
      AgreesStep(t, DATA_, s.offset);
      AgreesStep(t, SAVE_, s.offset);
    }
  }

  lemma {:induction false} AgreesStep(t: Text, word: Text, offset: nat)
    requires t != []
    ensures Agrees(t, word, offset) <==>
      (offset < |word| ==> MatchesLetter(t[0], word, offset)) && Agrees(t[1..], word, offset + 1)
  {
    if Agrees(t, word, offset) {
      forall i | 0 <= i < |t[1..]| && offset + 1 + i < |word|
        ensures MatchesLetter(t[1..][i], word, offset + 1 + i)
      {
        assert MatchesLetter(t[i + 1], word, offset + (i + 1));
      }
    } else {
      var i :| 0 <= i < |t| && offset + i < |word| && !MatchesLetter(t[i], word, offset + i);
      assert i > 0 ==> t[1..][i - 1] == t[i] && offset + 1 + (i - 1) == offset + i;
    }
  }

  lemma {:induction false} AgreesMatches(t: Text, word: Text)
    requires |t| >= |word| && Agrees(t, word, 0)
    ensures Matches(t, word)
  {
    assert forall i :: 0 <= i < |word| ==> MatchesLetter(t[i], word, 0 + i);
  }

  /** What may follow a complete value. */
  predicate Ends(u: Text) {
    u == [] || MetaOf(u[0]) == WsMeta || MetaOf(u[0]) == CloseMeta
  }

  /** A bare string is scanned up to the white space or closing bracket after it; a header takes brackets in. */
  lemma {:induction false} BareScanned(s: State, t: Text, u: Text, lenient: bool)
    requires Clean(t) && Solid(t) && Ends(u) && s == Start(s.line, s.column)
    requires (Matches(t, DATA_) || Matches(t, SAVE_)) && u != [] ==> MetaOf(u[0]) == WsMeta
    ensures Passes(Run(Unquoted, s, t + u, lenient), |t|, 0, ColumnAfter(s.column, t))
  {
    BareThrough(s, t);
    RunThrough(Unquoted, s, t, u, lenient);
    forall i | 0 <= i < |t| ensures !IsEol(t[i]) { assert MetaOf(t[i]) != WsMeta; }
    NoTerminator(s.column, t, TOKEN_LIMIT);
    var s1 := After(Unquoted, s, t).value;
    if |t| >= 5 && Agrees(t, DATA_, 0) { AgreesMatches(t, DATA_); }
    if |t| >= 5 && Agrees(t, SAVE_, 0) { AgreesMatches(t, SAVE_); }
    BareStops(s1, u, lenient);
  }

  /** What ends a bare string: white space, or a closing bracket unless it looks like a header. */
  lemma {:induction false} BareStops(s: State, u: Text, lenient: bool)
    requires Ends(u) && s.lead == 0 && s.delims == 0
    requires s.offset >= 5 && (s.data || s.save) && u != [] ==> MetaOf(u[0]) == WsMeta
    ensures Passes(Run(Unquoted, s, u, lenient), 0, 0, s.column)
  {
  }

  // Comments

  predicate OneLine(t: Text) {
    forall i :: 0 <= i < |t| ==> !IsEol(t[i])
  }

  /** The scan of a comment goes through exactly the valid text on its line. */
  lemma {:induction false} CommentThrough(s: State, t: Text)
    ensures After(ToEol, s, t).Some? <==> OneLine(t) && LeadFrom(s.lead, t).Ok?
    ensures After(ToEol, s, t).Some? ==>
      After(ToEol, s, t).value.lead == LeadFrom(s.lead, t).value && After(ToEol, s, t).value.delims == s.delims
    decreases |t|
  {
    if t != [] {
      var step := StepOn(ToEol, s, t[0], true);
      assert OneLine(t) <==> !IsEol(t[0]) && OneLine(t[1..]) by {
        if OneLine(t) { assert forall i :: 0 <= i < |t[1..]| ==> t[1..][i] == t[i + 1]; }
        if !IsEol(t[0]) && OneLine(t[1..]) { assert forall i :: 1 <= i < |t| ==> t[i] == t[1..][i - 1]; }
      }
      if step.More? { CommentThrough(step.state, t[1..]); }
    }
  }

  /** A comment is scanned up to the end of its line. */
  lemma {:induction false} CommentScanned(s: State, t: Text, u: Text, lenient: bool)
    requires Clean(t) && OneLine(t) && u != [] && IsEol(u[0]) && s.lead == 0 && s.delims == 0
    ensures Passes(Run(ToEol, s, t + u, lenient), |t|, 0, ColumnAfter(s.column, t))
  {
    CleanLeads(0, t);
    CommentThrough(s, t);
    RunThrough(ToEol, s, t, u, lenient);
    NoTerminator(s.column, t, TOKEN_LIMIT);
    assert StepOn(ToEol, After(ToEol, s, t).value, u[0], lenient).StopBefore?;
  }

  // White space

  predicate AllWs(g: Text) {
    forall i :: 0 <= i < |g| ==> MetaOf(g[i]) == WsMeta
  }

  lemma {:induction false} WsThrough(line: nat, column: int, sol: nat, g: Text, u: Text, lenient: bool)
    requires AllWs(g) && u != [] && MetaOf(u[0]) != WsMeta
    ensures var o := RunWs(line, column, sol, g + u, lenient);
      if lenient || Within(column, g, LINE_LENGTH)
      then o.WsScanned? && o.length == |g| && o.column == ColumnAfter(column, g)
      else o == WsFailed(OverlengthLine)
    decreases |g|
  {
    if g == [] {
      assert g + u == u;
    } else {
      assert (g + u)[0] == g[0] && (g + u)[1..] == g[1..] + u;
      var sol' := if ClassOf(g[0]) == Eol then NextSol(sol, g[0]) else 0;
      var line' := if ClassOf(g[0]) == Eol && sol' != 9 then line + 1 else line;
      WsThrough(line', ColumnOver(column, g[0]), sol', g[1..], u, lenient);
    }
  }
}
