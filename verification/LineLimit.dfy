/**
 What the line length limit changes: a scan or parse under a callback that
 aborts on overlong lines has the outcome of one that lets them pass, or
 fails on an overlong line, and for a scanning loop it is stated which.
 */
module LineLimit {
  import opened Units
  import opened Wrappers
  import opened Values
  import opened Lexer
  import opened Parser
  import opened Columns
  import TokenRoundTrip

  /** How many units a scanning loop goes on after, when overlong lines are let pass. */
  function Consumed(kind: Kind, s: State, input: Text): (n: nat)
    ensures n <= |input|
    decreases |input|
  {
    if input == [] then 0
    else match StepOn(kind, s, input[0], true)
      case More(s') => 1 + Consumed(kind, s', input[1..])
      case _ => 0
  }

  /** A strict loop fails on the limit exactly if it meets a terminator beyond it. */
  lemma {:induction false} RunStrict(kind: Kind, s: State, input: Text)
    requires s.delims <= 2 && (kind.TripleQuoted? ==> TokenRoundTrip.IsQuote(kind.delim))
    ensures Run(kind, s, input, false)
         == if Within(s.column, input[..Consumed(kind, s, input)], TOKEN_LIMIT) then Run(kind, s, input, true)
            else Failed(OverlengthLine)
    decreases |input|
  {
    if input != [] {
      var step := StepOn(kind, s, input[0], true);
      if step.More? {
        TokenRoundTrip.OneThrough(kind, s, input[0], false);
        RunStrict(kind, step.state, input[1..]);
        WithinFirst(s.column, input, Consumed(kind, s, input), TOKEN_LIMIT);
      } else {
        StopsAlike(kind, s, input[0]);
      }
    }
  }

  lemma {:induction false} WithinFirst(column: int, input: Text, n: nat, limit: int)
    requires 0 < n <= |input|
    ensures Within(column, input[..n], limit)
       <==> (IsEol(input[0]) ==> column <= limit) && Within(ColumnOver(column, input[0]), input[1..][..n - 1], limit)
  {
    assert input[..n][0] == input[0] && input[..n][1..] == input[1..][..n - 1];
  }

  lemma {:induction false} StopsAlike(kind: Kind, s: State, c: Unit)
    requires !StepOn(kind, s, c, true).More?
    ensures StepOn(kind, s, c, false) == StepOn(kind, s, c, true)
  {
  }

  /** The units of white space at the start of the input. */
  function Blanks(input: Text): (n: nat)
    ensures n <= |input|
  {
    if input == [] || MetaOf(input[0]) != WsMeta then 0 else 1 + Blanks(input[1..])
  }

  lemma {:induction false} WsStrict(line: nat, column: int, sol: nat, input: Text)
    ensures RunWs(line, column, sol, input, false)
         == if Within(column, input[..Blanks(input)], LINE_LENGTH) then RunWs(line, column, sol, input, true)
            else WsFailed(OverlengthLine)
    decreases |input|
  {
    if input != [] && MetaOf(input[0]) == WsMeta {
      var sol' := if ClassOf(input[0]) == Eol then NextSol(sol, input[0]) else 0;
      var line' := if ClassOf(input[0]) == Eol && sol' != 9 then line + 1 else line;
      WsStrict(line', ColumnOver(column, input[0]), sol', input[1..]);
      WithinFirst(column, input, Blanks(input), LINE_LENGTH);
    }
  }

  /** The same outcome, or a failure on the limit. */
  ghost predicate AsLenient<T>(strict: Result<T, Code>, lenient: Result<T, Code>) {
    strict == lenient || strict == Err(OverlengthLine)
  }

  lemma {:induction false} BareStrict(kind: TokenKind, input: Text, skip: nat, line: nat, column: int)
    requires skip <= |input|
    ensures AsLenient(BareToken(kind, input, skip, line, column, false), BareToken(kind, input, skip, line, column, true))
  {
    RunStrict(if kind == Name then ToWs else Unquoted, Start(line, column), input[skip..]);
  }

  lemma {:induction false} FieldStrict(input: Text, line: nat, column: int)
    requires input != []
    ensures AsLenient(FieldToken(input, line, column, false), FieldToken(input, line, column, true))
  {
    RunStrict(TextField, Start(line, column + 1), input[1..]);
    var o := Run(TextField, Start(line, column + 1), input[1..], false);
    if o == Failed(OverlengthLine) { FieldFails(input, line, column, false); }
  }

  lemma {:induction false} FieldFails(input: Text, line: nat, column: int, lenient: bool)
    requires input != [] && Run(TextField, Start(line, column + 1), input[1..], lenient) == Failed(OverlengthLine)
    ensures FieldToken(input, line, column, lenient) == Err(OverlengthLine)
  {
  }

  lemma {:induction false} ClassifyStrict(strict: Result<Token, Code>, lenient: Result<Token, Code>)
    requires (strict.Ok? ==> strict.value.kind == TokenKind.Value) && (lenient.Ok? ==> lenient.value.kind == TokenKind.Value)
    requires AsLenient(strict, lenient)
    ensures AsLenient(ClassifyBare(strict), ClassifyBare(lenient))
  {
  }

  lemma {:induction false} TokenHereStrict(input: Text, line: nat, column: int)
    requires input != [] && MetaOf(input[0]) != WsMeta && ClassOf(input[0]) != Hash
    ensures AsLenient(TokenHere(input, line, column, false), TokenHere(input, line, column, true))
  {
    var klass := ClassOf(input[0]);
    if klass == Underscore {
      BareStrict(Name, input, 1, line, column + 1);
    } else if klass == Quote {
      QuotedStrict(input, line, column);
    } else if klass == Semicolon {
      SemicolonStrict(input, line, column);
    } else if klass !in {OpenBracket, CloseBracket, OpenBrace, CloseBrace} {
      OtherStrict(input, line, column);
    }
  }

  lemma {:induction false} SemicolonStrict(input: Text, line: nat, column: int)
    requires input != [] && ClassOf(input[0]) == Semicolon
    ensures AsLenient(TokenHere(input, line, column, false), TokenHere(input, line, column, true))
  {
    SemicolonToken(input, line, column, false);
    SemicolonToken(input, line, column, true);
    if column == 0 { FieldStrict(input, line, column); } else { BareValueStrict(input, 1, line, column + 1); }
  }

  lemma {:induction false} SemicolonToken(input: Text, line: nat, column: int, lenient: bool)
    requires input != [] && ClassOf(input[0]) == Semicolon
    ensures TokenHere(input, line, column, lenient)
      == if column == 0 then FieldToken(input, line, column, lenient)
         else ClassifyBare(BareToken(TokenKind.Value, input, 1, line, column + 1, lenient))
  {
  }

  lemma {:induction false} OtherStrict(input: Text, line: nat, column: int)
    requires input != [] && MetaOf(input[0]) in {GeneralMeta, NoMeta}
    requires ClassOf(input[0]) !in {Underscore, Quote, Semicolon, Hash}
    ensures AsLenient(TokenHere(input, line, column, false), TokenHere(input, line, column, true))
  {
    BareValueStrict(input, 0, line, column);
  }

  lemma {:induction false} BareValueStrict(input: Text, skip: nat, line: nat, column: int)
    requires skip <= |input|
    ensures AsLenient(ClassifyBare(BareToken(TokenKind.Value, input, skip, line, column, false)),
                      ClassifyBare(BareToken(TokenKind.Value, input, skip, line, column, true)))
  {
    BareStrict(TokenKind.Value, input, skip, line, column);
    ClassifyStrict(BareToken(TokenKind.Value, input, skip, line, column, false),
                   BareToken(TokenKind.Value, input, skip, line, column, true));
  }

  lemma {:induction false} QuotedStrict(input: Text, line: nat, column: int)
    requires input != [] && ClassOf(input[0]) == Quote
    ensures AsLenient(QuotedToken(input, line, column, false), QuotedToken(input, line, column, true))
  {
    var o := RunDelim(input[0], 0, column + 1, true, input[1..]);
    if o.OpensTriple? { TripleStrict(input, line, o.column); }
  }

  lemma {:induction false} TripleStrict(input: Text, line: nat, column: int)
    requires |input| >= 3 && ClassOf(input[0]) == Quote
    ensures AsLenient(TripleToken(input, line, column, false), TripleToken(input, line, column, true))
  {
    RunStrict(TripleQuoted(input[0]), Start(line, column), input[3..]);
  }

  lemma {:induction false} NextTokenStrict(input: Text, line: nat, column: int, afterWs: bool)
    ensures AsLenient(NextToken(input, line, column, afterWs, false), NextToken(input, line, column, afterWs, true))
    decreases |input|
  {
    if input == [] {
    } else if MetaOf(input[0]) == WsMeta {
      WsStrict(line, column, 0, input);
      var o := RunWs(line, column, 0, input, true);
      if o.WsScanned? { NextTokenStrict(input[o.length..], o.line, o.column, true); }
    } else if MetaOf(input[0]) != CloseMeta && !afterWs {
    } else if ClassOf(input[0]) == Hash {
      RunStrict(ToEol, Start(line, column + 1), input[1..]);
      var o := Run(ToEol, Start(line, column + 1), input[1..], true);
      if o.Scanned? { NextTokenStrict(input[1 + o.length..], o.state.line, o.state.column, afterWs); }
    } else {
      TokenHereStrict(input, line, column);
    }
  }

  lemma {:induction false} ParseValueStrict(t: Token, norm: Text -> Text)
    ensures AsLenient(ParseValue(t, norm, false), ParseValue(t, norm, true))
    decreases |t.rest|, 2
  {
    match t.kind
    case OList => ParseListStrict(t.rest, t.line, t.column, OList, [], norm);
    case OTable => ParseTableStrict(t.rest, t.line, t.column, OTable, [], norm);
    case _ =>
  }

  lemma {:induction false} ParseListStrict(input: Text, line: nat, column: int, last: TokenKind, elements: seq<Value>, norm: Text -> Text)
    ensures AsLenient(ParseList(input, line, column, last, elements, norm, false),
                      ParseList(input, line, column, last, elements, norm, true))
    decreases |input|, 1
  {
    NextTokenStrict(input, line, column, AllowsAdjacent(last));
    var t := NextToken(input, line, column, AllowsAdjacent(last), true);
    if t.Ok? && StartsValue(t.value.kind) {
      ParseValueStrict(t.value, norm);
      var v := ParseValue(t.value, norm, true);
      if v.Ok? {
        ParseListStrict(v.value.rest, v.value.line, v.value.column, v.value.last, elements + [v.value.value], norm);
      }
    }
  }

  lemma {:induction false} ParseTableStrict(input: Text, line: nat, column: int, last: TokenKind, entries: seq<Entry>, norm: Text -> Text)
    ensures AsLenient(ParseTable(input, line, column, last, entries, norm, false),
                      ParseTable(input, line, column, last, entries, norm, true))
    decreases |input|, 1
  {
    NextTokenStrict(input, line, column, AllowsAdjacent(last));
    var t := NextToken(input, line, column, AllowsAdjacent(last), true);
    if t.Ok? && t.value.kind == Key { ParseEntryStrict(t.value, entries, norm); }
  }

  lemma {:induction false} ParseEntryStrict(t: Token, entries: seq<Entry>, norm: Text -> Text)
    ensures AsLenient(ParseEntry(t, entries, norm, false), ParseEntry(t, entries, norm, true))
    decreases |t.rest|, 3
  {
    NextTokenStrict(t.rest, t.line, t.column, true);
    var u := NextToken(t.rest, t.line, t.column, true, true);
    if u.Ok? && StartsValue(u.value.kind) {
      ParseValueStrict(u.value, norm);
      var v := ParseValue(u.value, norm, true);
      if v.Ok? {
        ParseTableStrict(v.value.rest, v.value.line, v.value.column, v.value.last,
                         SetItem(entries, norm, t.value, v.value.value), norm);
      }
    }
  }

  /**
   Reading any input under the default callback either fails on an overlong
   line or is reading it with overlong lines let pass.
   */
  lemma {:induction false} ReadStrict(input: Text, line: nat, column: int, afterWs: bool, norm: Text -> Text)
    ensures AsLenient(ReadValue(input, line, column, afterWs, norm, false), ReadValue(input, line, column, afterWs, norm, true))
  {
    NextTokenStrict(input, line, column, afterWs);
    var t := NextToken(input, line, column, afterWs, true);
    if t.Ok? { ParseValueStrict(t.value, norm); }
  }
}
