/**
 The value productions of the CIF 2 parser.  Every error aborts the parse.
 */
module Parser {
  import opened Units
  import opened Wrappers
  import opened Values
  import opened Lexer
  import StringAnalysis
  import TextDecoder

  /** A parsed value and what is left after it; last is the type of the last token. */
  datatype Parsed = Parsed(value: Value, rest: Text, line: nat, column: int, last: TokenKind)

  predicate StartsValue(kind: TokenKind) {
    kind in {OList, OTable, TValue, QValue, TokenKind.Value}
  }

  /** cif_value_set_quoted, applied to a string that was scanned bare. */
  function BareValue(s: Text): Result<Value, Code> {
    if s == [QUERY] then Ok(Unknown)
    else if s == [DOT] then Ok(NotApplicable)
    else if s == [] || StringAnalysis.Reserved(s)
      || (exists i :: 0 <= i < |s| && s[i] in {OBRAK, CBRAK, OCURL, CCURL, SP, TAB, NL, CR})
    then Err(InvalidBareValue)
    else Ok(Char(s, false))
  }

  function Finish(t: Token, v: Result<Value, Code>): (p: Result<Parsed, Code>)
    ensures p.Ok? ==> p.value.rest == t.rest
  {
    match v
    case Err(e) => Err(e)
    case Ok(value) => Ok(Parsed(value, t.rest, t.line, t.column, t.kind))
  }

  /** parse_value, with the value's first token already scanned. */
  function ParseValue(t: Token, norm: Text -> Text, lenient: bool): (p: Result<Parsed, Code>)
    ensures p.Ok? ==> |p.value.rest| <= |t.rest|
    decreases |t.rest|, 2
  {
    match t.kind
    case OList => ParseList(t.rest, t.line, t.column, OList, [], norm, lenient)
    case OTable => ParseTable(t.rest, t.line, t.column, OTable, [], norm, lenient)
    case TValue => Finish(t, Ok(Char(TextDecoder.Decode(t.value, true, true), true)))
    case QValue => Finish(t, Ok(Char(t.value, true)))
    case Value => Finish(t, BareValue(t.value))
    case _ => Err(InternalError)
  }

  /** The rest of parse_list, after some elements. */
  function ParseList(input: Text, line: nat, column: int, last: TokenKind, elements: seq<Value>,
                     norm: Text -> Text, lenient: bool): (p: Result<Parsed, Code>)
    ensures p.Ok? ==> |p.value.rest| <= |input|
    decreases |input|, 1
  {
    match NextToken(input, line, column, AllowsAdjacent(last), lenient)
    case Err(e) => Err(e)
    case Ok(t) =>
      if t.kind == CList then Finish(t, Ok(List(elements)))
      else if t.kind in {Key, TKey} then Err(MissingSpace)
      else if !StartsValue(t.kind) then Err(MissingDelim)
      else match ParseValue(t, norm, lenient)
        case Err(e) => Err(e)
        case Ok(v) => ParseList(v.rest, v.line, v.column, v.last, elements + [v.value], norm, lenient)
  }

  /** The error reported for a token that cannot be a key or the end of a table. */
  function KeyError(t: Token): Code {
    match t.kind
    case Value =>
      if t.value != [] && t.value[0] == COLON then NullKey else if COLON in t.value then UnquotedKey else MissingKey
    case TKey => MisquotedKey
    case QValue => MissingKey
    case TValue => MissingKey
    case OList => MissingKey
    case OTable => MissingKey
    case _ => MissingDelim
  }

  /** The rest of parse_table, after some entries. */
  function ParseTable(input: Text, line: nat, column: int, last: TokenKind, entries: seq<Entry>,
                      norm: Text -> Text, lenient: bool): (p: Result<Parsed, Code>)
    ensures p.Ok? ==> |p.value.rest| <= |input|
    decreases |input|, 1
  {
    match NextToken(input, line, column, AllowsAdjacent(last), lenient)
    case Err(e) => Err(e)
    case Ok(t) =>
      if t.kind == CTable then Finish(t, Ok(Table(entries)))
      else if t.kind != Key then Err(KeyError(t))
      else ParseEntry(t, entries, norm, lenient)
  }

  /** The value of a table entry whose key is token t, and the rest of the table. */
  function ParseEntry(t: Token, entries: seq<Entry>, norm: Text -> Text, lenient: bool): (p: Result<Parsed, Code>)
    ensures p.Ok? ==> |p.value.rest| <= |t.rest|
    decreases |t.rest|, 3
  {
    match NextToken(t.rest, t.line, t.column, true, lenient)
    case Err(e) => Err(e)
    case Ok(u) =>
      if !StartsValue(u.kind) then Err(MissingValue)
      else match ParseValue(u, norm, lenient)
        case Err(e) => Err(e)
        case Ok(v) => ParseTable(v.rest, v.line, v.column, v.last, SetItem(entries, norm, t.value, v.value), norm, lenient)
  }

  /** Reads the value that comes next in the input. */
  function ReadValue(input: Text, line: nat, column: int, afterWs: bool, norm: Text -> Text, lenient: bool)
    : Result<Parsed, Code>
  {
    match NextToken(input, line, column, afterWs, lenient)
    case Err(e) => Err(e)
    case Ok(t) => ParseValue(t, norm, lenient)
  }
}
