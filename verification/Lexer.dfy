/**
 The CIF 2 scanner as functions of the text still to be scanned.  The error
 callback is one that aborts on every error, except that it may let lines
 over the length limit pass (lenient).
 */
module Lexer {
  import opened Units
  import opened Wrappers
  import StringAnalysis

  datatype Class =
    | NoClass | General | Ws | Eol | Hash | Underscore | Quote | Semicolon
    | OpenBracket | CloseBracket | OpenBrace | CloseBrace | Dollar

  datatype Meta = NoMeta | GeneralMeta | WsMeta | OpenMeta | CloseMeta

  function ClassOf(c: Unit): Class {
    if c == TAB || c == SP then Ws
    else if c == NL || c == CR then Eol
    else if c < 0x20 || 0x7F <= c < 0xA0 then NoClass
    else if c == DQ || c == SQ then Quote
    else if c == HASH then Hash
    else if c == DOLLAR then Dollar
    else if c == SEMI then Semicolon
    else if c == OBRAK then OpenBracket
    else if c == CBRAK then CloseBracket
    else if c == UNDER then Underscore
    else if c == OCURL then OpenBrace
    else if c == CCURL then CloseBrace
    else General
  }

  function MetaOf(c: Unit): Meta {
    match ClassOf(c)
    case NoClass => NoMeta
    case Ws => WsMeta
    case Eol => WsMeta
    case OpenBracket => OpenMeta
    case OpenBrace => OpenMeta
    case CloseBracket => CloseMeta
    case CloseBrace => CloseMeta
    case _ => GeneralMeta
  }

  datatype Code =
    | InvalidChar | DisallowedChar | MissingSpace | OverlengthLine | MissingEndquote | UnclosedText
    | ReservedWord | InvalidBareValue | MissingDelim | UnexpectedDelim | MissingKey | NullKey | UnquotedKey | MisquotedKey
    | MissingValue | InternalError

  // SCAN_UCHAR: validity of code units, and columns counted in characters

  predicate IsLead(c: Unit) {
    0xD800 <= c < 0xDC00
  }

  predicate IsTrail(c: Unit) {
    0xDC00 <= c < 0xE000
  }

  predicate Disallowed(c: Unit) {
    if c < 0xA0 then ClassOf(c) == NoClass
    else c >= 0xFFFE || c == 0xFEFF || 0xFDD0 <= c <= 0xFDEF
  }

  /** The last two code points of a supplementary plane. */
  predicate PlaneEnd(lead: Unit, trail: Unit) {
    trail >= 0xDFFE && lead % 64 == 63
  }

  /** The lead surrogate that is pending after unit c, or 0; lead is the one pending before it. */
  function NextLead(lead: Unit, c: Unit): Result<Unit, Code> {
    if IsTrail(c) then
      if lead == 0 then Err(InvalidChar)
      else if PlaneEnd(lead, c) then Err(DisallowedChar)
      else Ok(0)
    else if Disallowed(c) then Err(DisallowedChar)
    else if lead != 0 then Err(InvalidChar)
    else Ok(if IsLead(c) then c else 0)
  }

  function NextColumn(column: int, c: Unit): int {
    if IsTrail(c) then column else column + 1
  }

  // The scanning loops

  datatype Kind = ToWs | ToEol | Unquoted | TripleQuoted(delim: Unit) | TextField

  /** What a scanning loop keeps from one unit to the next. */
  datatype State = State(lead: Unit, line: nat, column: int, sol: nat, delims: nat,
                         offset: nat, data: bool, save: bool)

  function Start(line: nat, column: int): State {
    State(0, line, column, 0, 0, 0, true, true)
  }

  datatype Step = More(state: State) | StopBefore(state: State) | StopAfter(state: State, drop: nat) | Fail(code: Code)

  /** The start-of-line code after one more terminator: 9 marks a CR LF pair. */
  function NextSol(sol: nat, c: Unit): nat {
    (sol * 4 + (if c == NL then 1 else if c == CR then 2 else 3)) % 16
  }

  /** HANDLE_EOL */
  function HandleEol(s: State, c: Unit, lenient: bool): Result<State, Code> {
    if s.column > LINE_LENGTH && !lenient then Err(OverlengthLine)
    else
      var sol := NextSol(s.sol, c);
      Ok(s.(sol := sol, line := s.line + (if sol == 9 then 0 else 1), column := 0))
  }

  predicate MatchesLetter(c: Unit, word: Text, offset: nat)
    requires offset < |word|
  {
    c == word[offset] || (0x61 <= word[offset] <= 0x7A && c == word[offset] - 0x20)
  }

  /** The body of each scanning loop, for one unit: before is the state before it, s the state after SCAN_UCHAR. */
  function Act(kind: Kind, before: State, s: State, c: Unit, lenient: bool): Step {
    match kind
    case ToWs => if MetaOf(c) == WsMeta then StopBefore(before) else More(s)
    case ToEol => if ClassOf(c) == Eol then StopBefore(before) else More(s)
    case Unquoted =>
      var s' := s.(offset := s.offset + 1);
      var header := (s.data || s.save) && s.offset >= 5;
      (match MetaOf(c)
       case GeneralMeta =>
         if s.offset < 5 then
           More(s'.(data := s.data && MatchesLetter(c, StringAnalysis.DATA_, s.offset),
                    save := s.save && MatchesLetter(c, StringAnalysis.SAVE_, s.offset)))
         else More(s')
       case OpenMeta => if header then More(s') else Fail(MissingSpace)
       case CloseMeta => if header then More(s') else StopBefore(before)
       case WsMeta => StopBefore(before)
       case NoMeta => More(s'))
    case TripleQuoted(q) => ActTripled(q, s, c, lenient)
    case TextField => ActField(s, c, lenient)
  }

  function ActTripled(q: Unit, s: State, c: Unit, lenient: bool): (r: Step)
    ensures r.More? && s.delims <= 2 ==> r.state.delims <= 2 && r.state.delims <= 1 + s.delims
    ensures r.StopAfter? ==> r.drop <= 1 + s.delims
  {
    if c == q then
      if s.delims >= 2 then StopAfter(s, 3) else More(s.(delims := s.delims + 1))
    else if ClassOf(c) == Eol then
      (match HandleEol(s.(delims := 0), c, lenient) case Ok(s') => More(s') case Err(e) => Fail(e))
    else More(s.(delims := 0, sol := 0))
  }

  function ActField(s: State, c: Unit, lenient: bool): (r: Step)
    ensures r.More? ==> r.state.delims == s.delims && Seen(TextField, r.state) <= 1 + Seen(TextField, s)
    ensures r.StopAfter? ==> r.drop <= 1 + Seen(TextField, s)
  {
    match ClassOf(c)
    case Semicolon => if s.sol != 0 then StopAfter(s, if s.sol == 9 then 3 else 2) else More(s)
    case Eol => (match HandleEol(s, c, lenient) case Ok(s') => More(s') case Err(e) => Fail(e))
    case _ => More(s.(sol := 0))
  }

  /** How many units of a closing delimiter have been seen already. */
  function Seen(kind: Kind, s: State): nat {
    match kind
    case TripleQuoted(_) => s.delims
    case TextField => if s.sol == 9 then 2 else if s.sol != 0 then 1 else 0
    case _ => 0
  }

  function StepOn(kind: Kind, s: State, c: Unit, lenient: bool): (r: Step)
    ensures r.More? && s.delims <= 2 ==> r.state.delims <= 2 && Seen(kind, r.state) <= 1 + Seen(kind, s)
    ensures r.StopAfter? ==> r.drop <= 1 + Seen(kind, s)
  {
    match NextLead(s.lead, c)
    case Err(e) => Fail(e)
    case Ok(lead) => Act(kind, s.(lead := 0), s.(lead := lead, column := NextColumn(s.column, c)), c, lenient)
  }

  datatype Outcome = Failed(code: Code) | Scanned(length: nat, drop: nat, state: State)

  function AtEof(kind: Kind, s: State): Outcome {
    if s.lead != 0 then Failed(InvalidChar)
    else if kind.TripleQuoted? || kind == TextField then Failed(UnclosedText)
    else Scanned(0, 0, s)
  }

  function Longer(n: nat, o: Outcome): Outcome {
    if o.Scanned? then o.(length := o.length + n) else o
  }

  /** A scanning loop over the text that is still to come. */
  function Run(kind: Kind, s: State, input: Text, lenient: bool): (o: Outcome)
    requires s.delims <= 2
    ensures o.Scanned? ==> o.length <= |input| && o.drop <= o.length + Seen(kind, s)
    decreases |input|
  {
    if input == [] then AtEof(kind, s)
    else match StepOn(kind, s, input[0], lenient)
      case Fail(e) => Failed(e)
      case StopBefore(s') => Scanned(0, 0, s')
      case StopAfter(s', drop) => Scanned(1, drop, s')
      case More(s') => Longer(1, Run(kind, s', input[1..], lenient))
  }

  // scan_delim_string

  datatype DelimOutcome = DelimFailed(code: Code) | Closed(length: nat, column: int) | OpensTriple(column: int)

  function LongerDelim(o: DelimOutcome): DelimOutcome {
    if o.Closed? then o.(length := o.length + 1) else o
  }

  /** From the unit after an opening quote; first: nothing has been scanned yet. */
  function RunDelim(q: Unit, lead: Unit, column: int, first: bool, input: Text): (o: DelimOutcome)
    ensures o.Closed? ==> o.length < |input|
    ensures o.OpensTriple? ==> first && |input| >= 2
    decreases |input|
  {
    if input == [] then DelimFailed(if lead != 0 then InvalidChar else MissingEndquote)
    else
      var c := input[0];
      match NextLead(lead, c)
      case Err(e) => DelimFailed(e)
      case Ok(lead') =>
        var column' := NextColumn(column, c);
        if c == q then
          if first && |input| >= 2 && input[1] == q then OpensTriple(column') else Closed(0, column')
        else if ClassOf(c) == Eol then DelimFailed(MissingEndquote)
        else LongerDelim(RunDelim(q, lead', column', false, input[1..]))
  }

  // scan_ws

  datatype WsOutcome = WsFailed(code: Code) | WsScanned(length: nat, line: nat, column: int)

  function RunWs(line: nat, column: int, sol: nat, input: Text, lenient: bool): (o: WsOutcome)
    ensures o.WsScanned? ==> o.length <= |input|
    ensures o.WsScanned? && input != [] && MetaOf(input[0]) == WsMeta ==> o.length > 0
    decreases |input|
  {
    if input == [] then WsScanned(0, line, column)
    else match ClassOf(input[0])
      case Ws => LongerWs(RunWs(line, column + 1, 0, input[1..], lenient))
      case Eol =>
        if column > LINE_LENGTH && !lenient then WsFailed(OverlengthLine)
        else
          var sol' := NextSol(sol, input[0]);
          LongerWs(RunWs(line + (if sol' == 9 then 0 else 1), 0, sol', input[1..], lenient))
      case _ => WsScanned(0, line, column)
  }

  function LongerWs(o: WsOutcome): WsOutcome {
    if o.WsScanned? then o.(length := o.length + 1) else o
  }

  // next_token

  datatype TokenKind =
    | End | Name | OList | CList | OTable | CTable | QValue | Key | TValue | TKey | Value
    | BlockHead | FrameHead | FrameTerm | LoopKeyword

  /** A token, and what is left after it. */
  datatype Token = Token(kind: TokenKind, value: Text, rest: Text, line: nat, column: int)

  /** Any token may follow these without intervening white space. */
  predicate AllowsAdjacent(last: TokenKind) {
    last in {OList, OTable, Key, TKey, End}
  }

  function OneUnit(kind: TokenKind, input: Text, line: nat, column: int): Token
    requires input != []
  {
    Token(kind, input[..1], input[1..], line, column + 1)
  }

  /** A whitespace-delimited token, the first skip units of which have been scanned. */
  function BareToken(kind: TokenKind, input: Text, skip: nat, line: nat, column: int, lenient: bool)
    : (t: Result<Token, Code>)
    requires skip <= |input|
    ensures t.Ok? ==> |t.value.rest| <= |input| - skip && t.value.kind == kind
  {
    match Run(if kind == Name then ToWs else Unquoted, Start(line, column), input[skip..], lenient)
    case Failed(e) => Err(e)
    case Scanned(n, _, s) => Ok(Token(kind, input[..skip + n], input[skip + n..], s.line, s.column))
  }

  /** A text field, from after its opening semicolon. */
  function FieldToken(input: Text, line: nat, column: int, lenient: bool): (t: Result<Token, Code>)
    requires input != []
    ensures t.Ok? ==> |t.value.rest| < |input| && t.value.kind in {TValue, TKey, QValue, Key}
  {
    match Run(TextField, Start(line, column + 1), input[1..], lenient)
    case Failed(e) => Err(e)
    case Scanned(n, drop, s) => Ok(WithColon(TValue, TKey, Token(TValue, input[1..1 + n - drop], input[1 + n..], s.line, s.column)))
  }

  /** A colon right after a quoted token makes it a key. */
  function WithColon(plain: TokenKind, key: TokenKind, t: Token): (r: Token)
    ensures |r.rest| <= |t.rest| && r.kind in {plain, key}
  {
    if t.rest != [] && t.rest[0] == COLON then t.(kind := key, rest := t.rest[1..]) else t.(kind := plain)
  }

  /** A quoted string, from its opening quote. */
  function QuotedToken(input: Text, line: nat, column: int, lenient: bool): (t: Result<Token, Code>)
    requires input != []
    ensures t.Ok? ==> |t.value.rest| < |input| && t.value.kind in {TValue, TKey, QValue, Key}
  {
    match RunDelim(input[0], 0, column + 1, true, input[1..])
    case DelimFailed(e) => Err(e)
    case Closed(n, column') =>
      Ok(WithColon(QValue, Key, Token(QValue, input[1..1 + n], input[2 + n..], line, column')))
    case OpensTriple(column') => TripleToken(input, line, column', lenient)
  }

  /** A triple-quoted string; the column is after its opening quotes. */
  function TripleToken(input: Text, line: nat, column: int, lenient: bool): (t: Result<Token, Code>)
    requires |input| >= 3
    ensures t.Ok? ==> |t.value.rest| < |input| && t.value.kind in {TValue, TKey, QValue, Key}
  {
    match Run(TripleQuoted(input[0]), Start(line, column), input[3..], lenient)
    case Failed(e) => Err(e)
    case Scanned(n, drop, s) =>
      Ok(WithColon(QValue, Key, Token(QValue, input[3..3 + n - drop], input[3 + n..], s.line, s.column)))
  }

  /** Reserved words among whitespace-delimited tokens. */
  function Classify(t: Token): (r: Result<Token, Code>)
    requires t.kind == Value
    ensures r.Ok? ==> r.value.rest == t.rest && r.value.kind != End
  {
    var s := t.value;
    if StringAnalysis.Matches(s, StringAnalysis.DATA_) then
      if |s| == 5 then Err(ReservedWord) else Ok(t.(kind := BlockHead, value := s[5..]))
    else if StringAnalysis.Matches(s, StringAnalysis.SAVE_) then
      Ok(t.(kind := if |s| == 5 then FrameTerm else FrameHead, value := s[5..]))
    else if |s| == 5 && StringAnalysis.Matches(s, StringAnalysis.LOOP_) then
      Ok(t.(kind := LoopKeyword, value := []))
    else if |s| == 5 && StringAnalysis.Matches(s, StringAnalysis.STOP_) then Err(ReservedWord)
    else if |s| == 7 && StringAnalysis.Matches(s, StringAnalysis.GLOBAL_) then Err(ReservedWord)
    else Ok(t)
  }

  /** A token that starts at the first unit of the input, which is not white space or a comment. */
  function TokenHere(input: Text, line: nat, column: int, lenient: bool): (t: Result<Token, Code>)
    requires input != [] && MetaOf(input[0]) != WsMeta && ClassOf(input[0]) != Hash
    ensures t.Ok? ==> |t.value.rest| < |input| && t.value.kind != End
  {
    var klass := ClassOf(input[0]);
    if klass == Underscore then BareToken(Name, input, 1, line, column + 1, lenient)
    else if klass == OpenBracket then Ok(OneUnit(OList, input, line, column))
    else if klass == CloseBracket then Ok(OneUnit(CList, input, line, column))
    else if klass == OpenBrace then Ok(OneUnit(OTable, input, line, column))
    else if klass == CloseBrace then Ok(OneUnit(CTable, input, line, column))
    else if klass == Quote then QuotedToken(input, line, column, lenient)
    else if klass == Semicolon && column == 0 then FieldToken(input, line, column, lenient)
    else if klass == Semicolon then ClassifyBare(BareToken(Value, input, 1, line, column + 1, lenient))
    else
      BareAdvances(input, line, column, lenient);
      ClassifyBare(BareToken(Value, input, 0, line, column, lenient))
  }

  function ClassifyBare(t: Result<Token, Code>): (r: Result<Token, Code>)
    requires t.Ok? ==> t.value.kind == Value
    ensures r.Ok? ==> t.Ok? && r.value.rest == t.value.rest && r.value.kind != End
  {
    match t
    case Err(e) => Err(e)
    case Ok(token) => Classify(token)
  }

  /** A bare token that starts with a unit other than white space or a bracket is not empty. */
  lemma {:induction false} BareAdvances(input: Text, line: nat, column: int, lenient: bool)
    requires input != [] && MetaOf(input[0]) !in {WsMeta, OpenMeta, CloseMeta}
    ensures var t := BareToken(Value, input, 0, line, column, lenient); t.Ok? ==> |t.value.rest| < |input|
  {
    assert input[0..] == input;
  }

  /** next_token, when no token is pending; afterWs: no white space is needed before the next token. */
  function NextToken(input: Text, line: nat, column: int, afterWs: bool, lenient: bool): (t: Result<Token, Code>)
    ensures t.Ok? ==> if t.value.kind == End then t.value.rest == [] else |t.value.rest| < |input|
    decreases |input|
  {
    if input == [] then Ok(Token(End, [], [], line, column))
    else
      var c := input[0];
      if MetaOf(c) == WsMeta then
        match RunWs(line, column, 0, input, lenient)
        case WsFailed(e) => Err(e)
        case WsScanned(n, line', column') => NextToken(input[n..], line', column', true, lenient)
      else if MetaOf(c) != CloseMeta && !afterWs then Err(MissingSpace)
      else if ClassOf(c) == Hash then
        match Run(ToEol, Start(line, column + 1), input[1..], lenient)
        case Failed(e) => Err(e)
        case Scanned(n, _, s) => NextToken(input[1 + n..], s.line, s.column, afterWs, lenient)
      else TokenHere(input, line, column, lenient)
  }
}
