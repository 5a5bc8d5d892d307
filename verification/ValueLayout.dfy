/**
 How values are laid out as characters, with any white space between tokens;
 and the theorem that the parser reads every layout back as the value that
 was laid out.
 */
module ValueLayout {
  import opened Units
  import opened Wrappers
  import opened Values
  import opened Lexer
  import opened Columns
  import opened Parser
  import opened TokenRoundTrip
  import StringAnalysis
  import TextDecoder

  /** A quoted or triple-quoted string. */
  datatype Quotation = Quotation(delim: Unit, triple: bool, text: Text)

  /** A value as laid out; gaps are the white space and comments before tokens. */
  datatype Doc =
    | DBare(gap: Text, text: Text)
    | DQuoted(gap: Text, quotation: Quotation)
    | DField(gap: Text, content: Text, end: FieldEnd)
    | DList(gap: Text, items: seq<Doc>, close: Text)
    | DTable(gap: Text, entries: seq<DocEntry>, close: Text)

  datatype DocEntry = DocEntry(gap: Text, key: Quotation, value: Doc)

  function QuoteMarks(q: Quotation): Text {
    if q.triple then [q.delim, q.delim, q.delim] else [q.delim]
  }

  function QuotedChars(q: Quotation): Text {
    QuoteMarks(q) + q.text + QuoteMarks(q)
  }

  function Chars(d: Doc): Text {
    match d
    case DBare(gap, text) => gap + text
    case DQuoted(gap, q) => gap + QuotedChars(q)
    case DField(gap, content, end) => gap + ([SEMI] + content + Closing(end))
    case DList(gap, items, close) => gap + ([OBRAK] + ItemChars(items) + close + [CBRAK])
    case DTable(gap, entries, close) => gap + ([OCURL] + EntryChars(entries) + close + [CCURL])
  }

  function ItemChars(items: seq<Doc>): Text {
    if items == [] then [] else Chars(items[0]) + ItemChars(items[1..])
  }

  function EntryChars(entries: seq<DocEntry>): Text {
    if entries == [] then [] else OneEntryChars(entries[0]) + EntryChars(entries[1..])
  }

  function OneEntryChars(e: DocEntry): Text {
    e.gap + QuotedChars(e.key) + [COLON] + Chars(e.value)
  }

  /** The value that was laid out. */
  function ValueOf(d: Doc, norm: Text -> Text): Value {
    match d
    case DBare(_, text) =>
      if text == [QUERY] then Unknown else if text == [DOT] then NotApplicable else Char(text, false)
    case DQuoted(_, q) => Char(q.text, true)
    case DField(_, content, _) => Char(TextDecoder.Decode(content, true, true), true)
    case DList(_, items, _) => List(ItemValues(items, norm))
    case DTable(_, entries, _) => Table(EntryValues(entries, [], norm))
  }

  function ItemValues(items: seq<Doc>, norm: Text -> Text): seq<Value> {
    if items == [] then [] else [ValueOf(items[0], norm)] + ItemValues(items[1..], norm)
  }

  /** The entries of a table, in the order in which their keys first occur. */
  function EntryValues(entries: seq<DocEntry>, before: seq<Entry>, norm: Text -> Text): seq<Entry> {
    if entries == [] then before
    else EntryValues(entries[1..], SetItem(before, norm, entries[0].key.text, ValueOf(entries[0].value, norm)), norm)
  }

  predicate QuotationOk(q: Quotation) {
    && IsQuote(q.delim) && Clean(q.text)
    && (if q.triple then NoClose(q.text, q.delim, 0)
        else q.delim !in q.text && NL !in q.text && CR !in q.text)
  }

  predicate BareOk(text: Text) {
    && text != [] && Clean(text) && Solid(text)
    && ClassOf(text[0]) !in {Quote, Hash, Underscore, Dollar}
    && !StringAnalysis.Reserved(text)
  }

  /** Where the line of a comment ends. */
  function LineOf(t: Text): (k: nat)
    ensures k <= |t| && OneLine(t[..k]) && (k < |t| ==> IsEol(t[k]))
  {
    if t == [] || IsEol(t[0]) then 0
    else
      var k := LineOf(t[1..]);
      assert t[..k + 1] == [t[0]] + t[1..][..k];
      k + 1
  }

  /** White space and comments, each up to the end of its line. */
  predicate Filler(g: Text) {
    if g == [] then true
    else if MetaOf(g[0]) == WsMeta then Filler(g[1..])
    else
      var k := LineOf(g[1..]);
      g[0] == HASH && k < |g[1..]| && Clean(g[1..][..k]) && Filler(g[1..][k..])
  }

  predicate StartsWs(t: Text) {
    t != [] && MetaOf(t[0]) == WsMeta
  }

  /** What comes before a value or a key: it starts with white space, unless adjacency is allowed. */
  predicate SpaceOk(gap: Text, adjacent: bool) {
    Filler(gap) && (adjacent || StartsWs(gap))
  }

  /** What comes before a closing bracket, if anything. */
  predicate CloseOk(close: Text, adjacent: bool) {
    Filler(close) && (adjacent || close == [] || StartsWs(close))
  }

  /** White space only, not empty unless adjacency is allowed. */
  predicate GapOk(gap: Text, adjacent: bool) {
    AllWs(gap) && (adjacent || gap != [])
  }

  lemma {:induction false} WsFiller(gap: Text)
    requires AllWs(gap)
    ensures Filler(gap)
  {
    if gap != [] {
      assert MetaOf(gap[0]) == WsMeta && forall i :: 0 <= i < |gap[1..]| ==> gap[1..][i] == gap[i + 1];
      WsFiller(gap[1..]);
    }
  }

  lemma {:induction false} GapIsSpace(gap: Text, adjacent: bool)
    requires GapOk(gap, adjacent)
    ensures SpaceOk(gap, adjacent)
  {
    WsFiller(gap);
  }

  /** A bare string that the scanner takes for a header, so that it takes in brackets. */
  predicate LikeHeader(text: Text) {
    text != [] && text[0] == SEMI
    && (StringAnalysis.Matches(text[1..], StringAnalysis.DATA_) || StringAnalysis.Matches(text[1..], StringAnalysis.SAVE_))
  }

  /** What may come right behind a value. */
  predicate Follows(d: Doc, after: Text) {
    match d
    case DBare(_, text) => Ends(after) && (LikeHeader(text) && after != [] ==> StartsWs(after))
    case DQuoted(_, q) => FollowsQuotation(q, after) && (after == [] || after[0] != COLON)
    case DField(_, _, _) => after == [] || after[0] != COLON
    case _ => true
  }

  /** Nothing that makes two quotes three. */
  predicate FollowsQuotation(q: Quotation, after: Text) {
    after == [] || q.triple || q.text != [] || after[0] != q.delim
  }

  /**
   A layout that comes at a given column.  Text fields start a line, and bare
   strings with a semicolon do not.
   */
  predicate LayoutOk(d: Doc, adjacent: bool, column: int)
    decreases d, 0
  {
    var c := ColumnAfter(column, d.gap);
    && SpaceOk(d.gap, adjacent)
    && (match d
        case DBare(_, text) => BareOk(text) && (text[0] == SEMI ==> c != 0)
        case DQuoted(_, q) => QuotationOk(q)
        case DField(gap, content, end) => c == 0 && FieldText(content, end)
        case DList(_, items, close) =>
          ItemsOk(items, true, c + 1) && ItemsClose(items, close, true)
        case DTable(_, entries, close) =>
          EntriesOk(entries, true, c + 1) && EntriesClose(entries, close, true))
  }

  /** May a bracket come behind the last value without white space, if there is none? */
  predicate MayClose(last: Doc, close: Text) {
    close == [] && last.DBare? ==> !LikeHeader(last.text)
  }

  /** May the items be followed by the closing bracket, after some white space and comments? */
  predicate ItemsClose(items: seq<Doc>, close: Text, adjacent: bool) {
    if items == [] then CloseOk(close, adjacent) else CloseOk(close, false) && MayClose(items[|items| - 1], close)
  }

  predicate EntriesClose(entries: seq<DocEntry>, close: Text, adjacent: bool) {
    if entries == [] then CloseOk(close, adjacent) else CloseOk(close, false) && MayClose(entries[|entries| - 1].value, close)
  }

  predicate ItemsOk(items: seq<Doc>, adjacent: bool, column: int)
    decreases items, 1
  {
    items != [] ==> LayoutOk(items[0], adjacent, column) && ItemsOk(items[1..], false, DocColumn(items[0], column))
  }

  predicate EntriesOk(entries: seq<DocEntry>, adjacent: bool, column: int)
    decreases entries, 1
  {
    entries != [] ==>
      var e, c := entries[0], KeyColumn(entries[0], column);
      && SpaceOk(e.gap, adjacent) && QuotationOk(e.key)
      && LayoutOk(e.value, true, c) && EntriesOk(entries[1..], false, DocColumn(e.value, c))
  }

  // Columns

  /** The column after a quotation; the scanner counts an opening triple quote as two characters. */
  function QuotationColumn(q: Quotation, column: int): int {
    if q.triple then ColumnAfter(column + 2, q.text) + 3 else ColumnAfter(column + 1, q.text) + 1
  }

  /** No line that ends inside a quotation is overlong. */
  predicate QuotationWithin(q: Quotation, column: int) {
    q.triple ==> Within(column + 2, q.text, TOKEN_LIMIT)
  }

  /** The column after a value that is scanned from the given column on; the colon after a key is not counted. */
  function DocColumn(d: Doc, column: int): int
    decreases d, 0
  {
    var c := ColumnAfter(column, d.gap);
    match d
    case DBare(_, text) => ColumnAfter(c, text)
    case DQuoted(_, q) => QuotationColumn(q, c)
    case DField(_, _, _) => 1
    case DList(_, items, close) => ColumnAfter(ItemsColumn(items, c + 1), close) + 1
    case DTable(_, entries, close) => ColumnAfter(EntriesColumn(entries, c + 1), close) + 1
  }

  function ItemsColumn(items: seq<Doc>, column: int): int
    decreases items, 1
  {
    if items == [] then column else ItemsColumn(items[1..], DocColumn(items[0], column))
  }

  function EntriesColumn(entries: seq<DocEntry>, column: int): int
    decreases entries, 1
  {
    if entries == [] then column else EntriesColumn(entries[1..], DocColumn(entries[0].value, KeyColumn(entries[0], column)))
  }

  function KeyColumn(e: DocEntry, column: int): int {
    QuotationColumn(e.key, ColumnAfter(column, e.gap))
  }

  /**
   No line that ends inside a value is longer than the scanner accepts: 2048
   characters before a terminator in white space, one less in a token.
   */
  predicate DocWithin(d: Doc, column: int)
    decreases d, 0
  {
    var c := ColumnAfter(column, d.gap);
    && Within(column, d.gap, LINE_LENGTH)
    && (match d
        case DBare(_, _) => true
        case DQuoted(_, q) => QuotationWithin(q, c)
        case DField(_, content, _) => FieldWithin(content)
        case DList(_, items, close) => ItemsWithin(items, c + 1) && Within(ItemsColumn(items, c + 1), close, LINE_LENGTH)
        case DTable(_, entries, close) => EntriesWithin(entries, c + 1) && Within(EntriesColumn(entries, c + 1), close, LINE_LENGTH))
  }

  predicate FieldWithin(content: Text) {
    Within(1, content + [NL], TOKEN_LIMIT)
  }

  predicate ItemsWithin(items: seq<Doc>, column: int)
    decreases items, 1
  {
    items != [] ==> DocWithin(items[0], column) && ItemsWithin(items[1..], DocColumn(items[0], column))
  }

  predicate EntriesWithin(entries: seq<DocEntry>, column: int)
    decreases entries, 1
  {
    entries != [] ==>
      var e, c := entries[0], KeyColumn(entries[0], column);
      && KeyWithin(e, column) && DocWithin(e.value, c) && EntriesWithin(entries[1..], DocColumn(e.value, c))
  }

  predicate KeyWithin(e: DocEntry, column: int) {
    Within(column, e.gap, LINE_LENGTH) && QuotationWithin(e.key, ColumnAfter(column, e.gap))
  }

  // Tokens

  /** The white space that some text starts with. */
  function WsRun(t: Text): (n: nat)
    ensures n <= |t| && AllWs(t[..n]) && !StartsWs(t[n..])
  {
    if !StartsWs(t) then 0
    else
      var n := WsRun(t[1..]);
      assert t[..n + 1] == [t[0]] + t[1..][..n] && t[n + 1..] == t[1..][n..];
      n + 1
  }

  lemma {:induction false} FillerBehind(g: Text)
    requires Filler(g)
    ensures Filler(g[WsRun(g)..])
  {
    if StartsWs(g) {
      FillerBehind(g[1..]);
      assert g[WsRun(g)..] == g[1..][WsRun(g[1..])..];
    } else {
      assert g[0..] == g;
    }
  }

  /** The units of a comment and what is behind it in a filler. */
  lemma {:induction false} CommentParts(g: Text, u: Text)
    requires g != [] && !StartsWs(g) && Filler(g)
    ensures var k := LineOf(g[1..]); var c, r := g[1..][..k], g[1..][k..];
      && k + 1 < |g| && r != [] && IsEol(r[0]) && StartsWs(r) && g[0] == HASH && Clean(c) && OneLine(c) && Filler(r)
      && (g + u)[0] == HASH && (g + u)[1..] == c + (r + u) && (g + u)[1 + k..] == r + u && g == [HASH] + (c + r)
  {
  }

  /** Scanning a comment, of any length, that ends in the filler. */
  lemma {:induction false} CommentSkipped(c: Text, v: Text, line: nat, column: int, lenient: bool) returns (line': nat)
    requires Clean(c) && OneLine(c) && v != [] && IsEol(v[0])
    ensures NextToken([HASH] + (c + v), line, column, true, lenient) == NextToken(v, line', ColumnAfter(column + 1, c), true, lenient)
  {
    var input := [HASH] + (c + v);
    assert input[0] == HASH && input[1..] == c + v && input[1 + |c|..] == v;
    CommentScanned(Start(line, column + 1), c, v, lenient);
    HashFirst(input, line, column, lenient);
    line' := Run(ToEol, Start(line, column + 1), c + v, lenient).state.line;
  }

  lemma {:induction false} HashFirst(input: Text, line: nat, column: int, lenient: bool)
    requires input != [] && input[0] == HASH
    ensures NextToken(input, line, column, true, lenient) == match Run(ToEol, Start(line, column + 1), input[1..], lenient)
      case Failed(e) => Err(e)
      case Scanned(n, _, s) => NextToken(input[1 + n..], s.line, s.column, true, lenient)
  {
  }

  lemma {:induction false} WsSkipped(w: Text, v: Text, line: nat, column: int, afterWs: bool, lenient: bool) returns (line': nat)
    requires AllWs(w) && w != [] && v != [] && MetaOf(v[0]) != WsMeta
    ensures NextToken(w + v, line, column, afterWs, lenient)
         == if lenient || Within(column, w, LINE_LENGTH) then NextToken(v, line', ColumnAfter(column, w), true, lenient)
            else Err(OverlengthLine)
  {
    WsThrough(line, column, 0, w, v, lenient);
    var o := RunWs(line, column, 0, w + v, lenient);
    line' := if o.WsScanned? then o.line else line;
    assert (w + v)[0] == w[0];
    if o.WsScanned? { assert (w + v)[o.length..] == v; }
  }

  /** Columns over a comment and what is behind it. */
  lemma {:induction false} CommentColumns(g: Text, c: Text, r: Text, column: int)
    requires g == [HASH] + (c + r) && OneLine(c)
    ensures ColumnAfter(column, g) == ColumnAfter(ColumnAfter(column + 1, c), r)
    ensures Within(column, g, LINE_LENGTH) <==> Within(ColumnAfter(column + 1, c), r, LINE_LENGTH)
  {
    assert g[0] == HASH && g[1..] == c + r;
    ColumnConcat(column + 1, c, r);
    WithinConcat(column + 1, c, r, LINE_LENGTH);
    NoTerminator(column + 1, c, LINE_LENGTH);
  }

  /** Scanning a gap leaves the scanner at the next token, unless a line that ends in it is overlong. */
  lemma {:induction false} GapSkipped(gap: Text, u: Text, line: nat, column: int, afterWs: bool, lenient: bool) returns (line': nat)
    requires CloseOk(gap, afterWs) && u != [] && MetaOf(u[0]) != WsMeta
    ensures NextToken(gap + u, line, column, afterWs, lenient)
         == if lenient || Within(column, gap, LINE_LENGTH)
            then NextToken(u, line', ColumnAfter(column, gap), afterWs || gap != [], lenient)
            else Err(OverlengthLine)
    decreases |gap|
  {
    if gap == [] {
      assert gap + u == u;
      line' := line;
    } else if StartsWs(gap) {
      var n := WsRun(gap);
      var w, r := gap[..n], gap[n..];
      assert gap == w + r && gap + u == w + (r + u);
      FillerBehind(gap);
      assert (r + u)[0] == if r == [] then u[0] else r[0];
      ColumnConcat(column, w, r);
      WithinConcat(column, w, r, LINE_LENGTH);
      line' := WsSkipped(w, r + u, line, column, afterWs, lenient);
      if lenient || Within(column, w, LINE_LENGTH) {
        line' := GapSkipped(r, u, line', ColumnAfter(column, w), true, lenient);
      }
    } else {
      CommentParts(gap, u);
      var k := LineOf(gap[1..]);
      var c, r := gap[1..][..k], gap[1..][k..];
      CommentColumns(gap, c, r, column);
      assert gap + u == [HASH] + (c + (r + u));
      line' := CommentSkipped(c, r + u, line, column, lenient);
      line' := GapSkipped(r, u, line', ColumnAfter(column + 1, c), true, lenient);
    }
  }

  /** The token with the given kind, value and remainder, and the column after it. */
  predicate IsToken(t: Result<Token, Code>, kind: TokenKind, value: Text, rest: Text, column: int) {
    t.Ok? && t.value.kind == kind && t.value.value == value && t.value.rest == rest && t.value.column == column
  }

  lemma {:induction false} BareRead(text: Text, u: Text, line: nat, column: int, lenient: bool)
    requires BareOk(text) && (text[0] == SEMI ==> column != 0) && Follows(DBare([], text), u)
    ensures IsToken(NextToken(text + u, line, column, true, lenient), TokenKind.Value, text, u, ColumnAfter(column, text))
  {
    if text[0] == SEMI { SemiRead(text, u, line, column, lenient); } else { PlainRead(text, u, line, column, lenient); }
  }

  lemma {:induction false} PlainRead(text: Text, u: Text, line: nat, column: int, lenient: bool)
    requires BareOk(text) && text[0] != SEMI && Ends(u)
    ensures IsToken(NextToken(text + u, line, column, true, lenient), TokenKind.Value, text, u, ColumnAfter(column, text))
  {
    var input := text + u;
    BareScanned(Start(line, column), text, u, lenient);
    assert input[0] == text[0];
    assert input[0..] == input && input[..|text|] == text && input[|text|..] == u;
    assert MetaOf(text[0]) == GeneralMeta;
  }

  /** A bare string that starts with a semicolon is scanned from its second unit on. */
  lemma {:induction false} SemiRead(text: Text, u: Text, line: nat, column: int, lenient: bool)
    requires BareOk(text) && text[0] == SEMI && column != 0 && Follows(DBare([], text), u)
    ensures IsToken(NextToken(text + u, line, column, true, lenient), TokenKind.Value, text, u, ColumnAfter(column, text))
  {
    var input, rest := text + u, text[1..];
    assert forall i :: 0 <= i < |rest| ==> rest[i] == text[i + 1];
    assert Clean(rest);
    BareScanned(Start(line, column + 1), rest, u, lenient);
    assert input[0] == SEMI && input[1..] == rest + u;
    assert input[..1 + |rest|] == text && input[1 + |rest|..] == u;
    BareIs(input, 1, |rest|, text, u, line, column + 1, ColumnAfter(column, text), lenient);
    BareSemi(input, line, column, lenient);
  }

  /** A bare string that has been scanned is a value as it is, unless it is reserved. */
  lemma {:induction false} BareIs(input: Text, skip: nat, n: nat, text: Text, u: Text, line: nat, column: int, column': int, lenient: bool)
    requires skip + n <= |input| && input[..skip + n] == text && input[skip + n..] == u && !StringAnalysis.Reserved(text)
    requires Passes(Run(Unquoted, Start(line, column), input[skip..], lenient), n, 0, column')
    ensures IsToken(ClassifyBare(BareToken(TokenKind.Value, input, skip, line, column, lenient)), TokenKind.Value, text, u, column')
  {
  }

  lemma {:induction false} BareSemi(input: Text, line: nat, column: int, lenient: bool)
    requires input != [] && input[0] == SEMI && column != 0
    ensures NextToken(input, line, column, true, lenient)
         == ClassifyBare(BareToken(TokenKind.Value, input, 1, line, column + 1, lenient))
  {
  }

  lemma {:induction false} FieldRead(content: Text, end: FieldEnd, u: Text, line: nat, lenient: bool)
    requires FieldText(content, end) && (u == [] || u[0] != COLON)
    ensures var t := NextToken([SEMI] + content + Closing(end) + u, line, 0, true, lenient);
      if lenient || FieldWithin(content) then IsToken(t, TValue, content, u, 1) else t == Err(OverlengthLine)
  {
    var input := [SEMI] + content + Closing(end) + u;
    FieldChars(content, end, u);
    FieldFirst(input, line, lenient);
    FieldScanned(Start(line, 1), content, end, u, lenient);
    FieldTokenIs(input, content, |Closing(end)|, u, line, lenient);
  }

  lemma {:induction false} FieldChars(content: Text, end: FieldEnd, u: Text)
    ensures var input := [SEMI] + content + Closing(end) + u;
      && input[0] == SEMI && input[1..] == content + Closing(end) + u
      && input[1..1 + |content|] == content && input[1 + |content| + |Closing(end)|..] == u
  {
  }

  lemma {:induction false} FieldTokenIs(input: Text, content: Text, n: nat, u: Text, line: nat, lenient: bool)
    requires 1 + |content| + n <= |input| && input[1..1 + |content|] == content && input[1 + |content| + n..] == u
    requires u == [] || u[0] != COLON
    ensures var o, t := Run(TextField, Start(line, 1), input[1..], lenient), FieldToken(input, line, 0, lenient);
      && (Passes(o, |content| + n, n, 1) ==> IsToken(t, TValue, content, u, 1))
      && (o == Failed(OverlengthLine) ==> t == Err(OverlengthLine))
  {
  }

  lemma {:induction false} FieldFirst(input: Text, line: nat, lenient: bool)
    requires input != [] && input[0] == SEMI
    ensures NextToken(input, line, 0, true, lenient) == FieldToken(input, line, 0, lenient)
  {
  }

  /** The kind of token that a quotation is, and what is left after it and after the colon of a key. */
  predicate IsQuotation(t: Result<Token, Code>, q: Quotation, u: Text, column: int) {
    if u != [] && u[0] == COLON then IsToken(t, Key, q.text, u[1..], column) else IsToken(t, QValue, q.text, u, column)
  }

  /** What follows a quotation: not its own delimiter. */
  lemma {:induction false} SingleQuotedRead(q: Quotation, u: Text, line: nat, column: int, lenient: bool)
    requires QuotationOk(q) && !q.triple && FollowsQuotation(q, u)
    ensures IsQuotation(QuotedToken(QuotedChars(q) + u, line, column, lenient), q, u, QuotationColumn(q, column))
  {
    var input := QuotedChars(q) + u;
    assert input[1..] == q.text + [q.delim] + u;
    DelimThrough(q.delim, 0, column + 1, true, q.text, u);
    assert input[1..1 + |q.text|] == q.text && input[2 + |q.text|..] == u;
  }

  lemma {:induction false} TripleQuotedRead(q: Quotation, u: Text, line: nat, column: int, lenient: bool)
    requires QuotationOk(q) && q.triple
    ensures var t := QuotedToken(QuotedChars(q) + u, line, column, lenient);
      if lenient || QuotationWithin(q, column) then IsQuotation(t, q, u, QuotationColumn(q, column)) else t == Err(OverlengthLine)
  {
    var d := q.delim;
    var input := QuotedChars(q) + u;
    TripleChars(q, u);
    var o := RunDelim(d, 0, column + 1, true, input[1..]);
    assert o == OpensTriple(column + 2);
    TripledScanned(d, Start(line, column + 2), q.text, u, lenient);
  }

  lemma {:induction false} TripleChars(q: Quotation, u: Text)
    requires q.triple
    ensures var input, d := QuotedChars(q) + u, q.delim;
      && input[0] == d && |input[1..]| >= 2 && input[1..][0] == d && input[1..][1] == d
      && input[3..] == q.text + [d, d, d] + u
      && input[3..3 + |q.text|] == q.text && input[3 + |q.text| + 3..] == u
  {
    var d := q.delim;
    assert QuotedChars(q) + u == [d, d, d] + (q.text + [d, d, d] + u);
  }

  lemma {:induction false} QuotationRead(q: Quotation, u: Text, line: nat, column: int, lenient: bool)
    requires QuotationOk(q) && FollowsQuotation(q, u)
    ensures var t := NextToken(QuotedChars(q) + u, line, column, true, lenient);
      if lenient || QuotationWithin(q, column) then IsQuotation(t, q, u, QuotationColumn(q, column)) else t == Err(OverlengthLine)
  {
    assert (QuotedChars(q) + u)[0] == q.delim;
    QuoteFirst(QuotedChars(q) + u, line, column, lenient);
    if q.triple { TripleQuotedRead(q, u, line, column, lenient); } else { SingleQuotedRead(q, u, line, column, lenient); }
  }

  lemma {:induction false} QuoteFirst(input: Text, line: nat, column: int, lenient: bool)
    requires input != [] && IsQuote(input[0])
    ensures NextToken(input, line, column, true, lenient) == QuotedToken(input, line, column, lenient)
  {
  }

  // Values

  /** The parse succeeded with this value and this remainder, and white space is needed next. */
  predicate Reads(r: Result<Parsed, Code>, v: Value, rest: Text) {
    r.Ok? && r.value.value == v && r.value.rest == rest && !AllowsAdjacent(r.value.last)
  }

  /** The parse succeeded, up to the given column, or else failed on an overlong line. */
  predicate ReadsIf(ok: bool, r: Result<Parsed, Code>, v: Value, rest: Text, column: int) {
    if ok then Reads(r, v, rest) && r.value.column == column else r == Err(OverlengthLine)
  }

  /** Whatever follows a value's white space, its first unit starts a token. */
  lemma {:induction false} CharsStart(d: Doc, adjacent: bool, column: int) returns (body: Text)
    requires LayoutOk(d, adjacent, column)
    ensures Chars(d) == d.gap + body && body != [] && MetaOf(body[0]) !in {WsMeta, CloseMeta}
  {
    match d {
      case DBare(_, text) =>
        body := text;
        assert MetaOf(text[0]) == GeneralMeta;
      case DQuoted(_, q) => body := QuotedChars(q); assert body[0] == q.delim;
      case DField(_, content, end) => body := [SEMI] + content + Closing(end);
      case DList(_, items, close) => body := [OBRAK] + ItemChars(items) + close + [CBRAK];
      case DTable(_, entries, close) => body := [OCURL] + EntryChars(entries) + close + [CCURL];
    }
  }

  /** Scanning a layout's gap, when adjacency is allowed or the gap is not empty. */
  lemma {:induction false} DocStarts(gap: Text, body: Text, after: Text, line: nat, column: int, adjacent: bool, lenient: bool)
    returns (line': nat)
    requires SpaceOk(gap, adjacent) && body != [] && MetaOf(body[0]) != WsMeta
    ensures NextToken(gap + body + after, line, column, adjacent, lenient)
         == if lenient || Within(column, gap, LINE_LENGTH)
            then NextToken(body + after, line', ColumnAfter(column, gap), true, lenient)
            else Err(OverlengthLine)
  {
    assert gap + body + after == gap + (body + after);
    assert (body + after)[0] == body[0];
    line' := GapSkipped(gap, body + after, line, column, adjacent, lenient);
  }

  lemma {:induction false} BareDocRead(gap: Text, text: Text, after: Text, line: nat, column: int, adjacent: bool,
                                       norm: Text -> Text, lenient: bool)
    requires SpaceOk(gap, adjacent) && BareOk(text) && (text[0] == SEMI ==> ColumnAfter(column, gap) != 0)
    requires Follows(DBare(gap, text), after)
    ensures ReadsIf(lenient || Within(column, gap, LINE_LENGTH), ReadValue(gap + text + after, line, column, adjacent, norm, lenient),
                    ValueOf(DBare(gap, text), norm), after, ColumnAfter(ColumnAfter(column, gap), text))
  {
    assert MetaOf(text[0]) == GeneralMeta;
    var l := DocStarts(gap, text, after, line, column, adjacent, lenient);
    BareRead(text, after, l, ColumnAfter(column, gap), lenient);
    BareAccepted(text);
    TokenValue(gap + text + after, line, column, adjacent, norm, lenient);
  }

  lemma {:induction false} TokenValue(input: Text, line: nat, column: int, adjacent: bool, norm: Text -> Text, lenient: bool)
    ensures var t, r := NextToken(input, line, column, adjacent, lenient), ReadValue(input, line, column, adjacent, norm, lenient);
      && (t.Err? ==> r == Err(t.error))
      && (t.Ok? && t.value.kind == TokenKind.Value ==> r == Finish(t.value, BareValue(t.value.value)))
  {
  }

  lemma {:induction false} QuotedDocRead(gap: Text, q: Quotation, after: Text, line: nat, column: int, adjacent: bool,
                                         norm: Text -> Text, lenient: bool)
    requires SpaceOk(gap, adjacent) && QuotationOk(q) && Follows(DQuoted(gap, q), after)
    ensures var c := ColumnAfter(column, gap);
      ReadsIf(lenient || (Within(column, gap, LINE_LENGTH) && QuotationWithin(q, c)),
              ReadValue(gap + QuotedChars(q) + after, line, column, adjacent, norm, lenient),
              Char(q.text, true), after, QuotationColumn(q, c))
  {
    assert QuotedChars(q)[0] == q.delim;
    var l := DocStarts(gap, QuotedChars(q), after, line, column, adjacent, lenient);
    QuotationRead(q, after, l, ColumnAfter(column, gap), lenient);
    QuotedValue(gap + QuotedChars(q) + after, line, column, adjacent, norm, lenient);
  }

  /** A quoted string is a value as it is. */
  lemma {:induction false} QuotedValue(input: Text, line: nat, column: int, adjacent: bool, norm: Text -> Text, lenient: bool)
    ensures var t, r := NextToken(input, line, column, adjacent, lenient), ReadValue(input, line, column, adjacent, norm, lenient);
      && (t.Err? ==> r == Err(t.error))
      && (t.Ok? && t.value.kind == QValue ==>
            r == Ok(Parsed(Char(t.value.value, true), t.value.rest, t.value.line, t.value.column, QValue)))
  {
  }

  lemma {:induction false} FieldDocRead(gap: Text, content: Text, end: FieldEnd, after: Text, line: nat, column: int, adjacent: bool,
                                        norm: Text -> Text, lenient: bool)
    requires SpaceOk(gap, adjacent) && ColumnAfter(column, gap) == 0 && (after == [] || after[0] != COLON)
    requires FieldText(content, end)
    ensures
      ReadsIf(lenient || (Within(column, gap, LINE_LENGTH) && FieldWithin(content)),
              ReadValue(gap + ([SEMI] + content + Closing(end)) + after, line, column, adjacent, norm, lenient),
              Char(TextDecoder.Decode(content, true, true), true), after, 1)
  {
    var l := DocStarts(gap, [SEMI] + content + Closing(end), after, line, column, adjacent, lenient);
    FieldRead(content, end, after, l, lenient);
    FieldValue(gap + ([SEMI] + content + Closing(end)) + after, line, column, adjacent, norm, lenient);
  }

  /** A text field is a value once it is decoded. */
  lemma {:induction false} FieldValue(input: Text, line: nat, column: int, adjacent: bool, norm: Text -> Text, lenient: bool)
    ensures var t, r := NextToken(input, line, column, adjacent, lenient), ReadValue(input, line, column, adjacent, norm, lenient);
      && (t.Err? ==> r == Err(t.error))
      && (t.Ok? && t.value.kind == TValue ==>
            r == Ok(Parsed(Char(TextDecoder.Decode(t.value.value, true, true), true), t.value.rest, t.value.line, t.value.column, TValue)))
  {
  }

  /** cif_value_set_quoted has no objection to a bare string. */
  lemma {:induction false} BareAccepted(text: Text)
    requires BareOk(text)
    ensures BareValue(text) == Ok(ValueOf(DBare([], text), x => x))
  {
    forall i | 0 <= i < |text|
      ensures text[i] !in {OBRAK, CBRAK, OCURL, CCURL, SP, TAB, NL, CR}
    {
      assert MetaOf(text[i]) in {GeneralMeta, NoMeta};
    }
  }

  lemma {:induction false} EndsFollow(d: Doc, u: Text)
    requires Ends(u) && (d.DBare? && LikeHeader(d.text) && u != [] ==> StartsWs(u))
    requires d.DQuoted? ==> IsQuote(d.quotation.delim)
    ensures Follows(d, u)
  {
  }

  /** What follows an item of a list. */
  lemma {:induction false} ItemFollowed(items: seq<Doc>, close: Text, after: Text, adjacent: bool, column: int)
    requires items != [] && ItemsOk(items, adjacent, column) && CloseOk(close, false) && MayClose(items[|items| - 1], close)
    ensures Follows(items[0], ItemChars(items[1..]) + close + [CBRAK] + after)
  {
    var rest, u := items[1..], ItemChars(items[1..]) + close + [CBRAK] + after;
    if rest != [] {
      var body := CharsStart(rest[0], false, DocColumn(items[0], column));
      assert u[0] == rest[0].gap[0];
    } else if close != [] {
      assert u[0] == close[0];
    } else {
      assert u[0] == CBRAK;
    }
    EndsFollow(items[0], u);
  }

  /** What follows the value of an entry of a table. */
  lemma {:induction false} EntryFollowed(entries: seq<DocEntry>, close: Text, after: Text, adjacent: bool, column: int)
    requires entries != [] && EntriesOk(entries, adjacent, column) && CloseOk(close, false)
    requires MayClose(entries[|entries| - 1].value, close)
    ensures Follows(entries[0].value, EntryChars(entries[1..]) + close + [CCURL] + after)
  {
    var rest, u := entries[1..], EntryChars(entries[1..]) + close + [CCURL] + after;
    if rest != [] {
      assert OneEntryChars(rest[0])[0] == rest[0].gap[0];
      assert u[0] == rest[0].gap[0];
    } else if close != [] {
      assert u[0] == close[0];
    } else {
      assert u[0] == CCURL;
    }
    EndsFollow(entries[0].value, u);
  }

  /** The closing bracket of a list or table. */
  lemma {:induction false} CloseRead(close: Text, bracket: Unit, after: Text, line: nat, column: int, adjacent: bool, lenient: bool)
    requires CloseOk(close, adjacent) && MetaOf(bracket) == CloseMeta
    ensures var t := NextToken(close + [bracket] + after, line, column, adjacent, lenient);
      if lenient || Within(column, close, LINE_LENGTH)
      then IsToken(t, if bracket == CBRAK then CList else CTable, [bracket], after, ColumnAfter(column, close) + 1)
      else t == Err(OverlengthLine)
  {
    assert close + [bracket] + after == close + ([bracket] + after);
    var l := GapSkipped(close, [bracket] + after, line, column, adjacent, lenient);
    var input := [bracket] + after;
    assert input[..1] == [bracket] && input[1..] == after;
  }

  /** An opening bracket and what is inside. */
  lemma {:induction false} Opens(gap: Text, bracket: Unit, inside: Text, close: Text, end: Unit, after: Text)
    ensures gap + ([bracket] + inside + close + [end]) + after == gap + ([bracket] + (inside + close + [end] + after))
  {
    assert [bracket] + inside + close + [end] + after == [bracket] + (inside + close + [end] + after);
  }

  /** Scanning an opening bracket after a gap. */
  lemma {:induction false} BracketRead(gap: Text, bracket: Unit, inside: Text, close: Text, end: Unit, after: Text,
                                       line: nat, column: int, adjacent: bool, lenient: bool) returns (line': nat)
    requires SpaceOk(gap, adjacent) && MetaOf(bracket) == OpenMeta
    ensures NextToken(gap + ([bracket] + inside + close + [end]) + after, line, column, adjacent, lenient)
         == if lenient || Within(column, gap, LINE_LENGTH)
            then Ok(Token(if bracket == OBRAK then OList else OTable, [bracket], inside + close + [end] + after,
                          line', ColumnAfter(column, gap) + 1))
            else Err(OverlengthLine)
  {
    Opens(gap, bracket, inside, close, end, after);
    line' := BracketStarts(gap, bracket, inside + close + [end] + after, line, column, adjacent, lenient);
  }

  lemma {:induction false} BracketStarts(gap: Text, bracket: Unit, rest: Text, line: nat, column: int, adjacent: bool, lenient: bool)
    returns (line': nat)
    requires SpaceOk(gap, adjacent) && MetaOf(bracket) == OpenMeta
    ensures NextToken(gap + ([bracket] + rest), line, column, adjacent, lenient)
         == if lenient || Within(column, gap, LINE_LENGTH)
            then Ok(Token(if bracket == OBRAK then OList else OTable, [bracket], rest, line', ColumnAfter(column, gap) + 1))
            else Err(OverlengthLine)
  {
    line' := GapSkipped(gap, [bracket] + rest, line, column, adjacent, lenient);
    BracketFirst(bracket, rest, line', ColumnAfter(column, gap), lenient);
  }

  lemma {:induction false} BracketFirst(bracket: Unit, rest: Text, line: nat, column: int, lenient: bool)
    requires MetaOf(bracket) == OpenMeta
    ensures NextToken([bracket] + rest, line, column, true, lenient)
         == Ok(Token(if bracket == OBRAK then OList else OTable, [bracket], rest, line, column + 1))
  {
    var input := [bracket] + rest;
    assert input[..1] == [bracket] && input[1..] == rest;
  }

  lemma {:induction false} ListOpens(gap: Text, inside: Text, close: Text, after: Text, line: nat, column: int, adjacent: bool,
                                     norm: Text -> Text, lenient: bool) returns (line': nat)
    requires SpaceOk(gap, adjacent)
    ensures ReadValue(gap + ([OBRAK] + inside + close + [CBRAK]) + after, line, column, adjacent, norm, lenient)
         == if lenient || Within(column, gap, LINE_LENGTH)
            then ParseList(inside + close + [CBRAK] + after, line', ColumnAfter(column, gap) + 1, OList, [], norm, lenient)
            else Err(OverlengthLine)
  {
    line' := BracketRead(gap, OBRAK, inside, close, CBRAK, after, line, column, adjacent, lenient);
  }

  lemma {:induction false} TableOpens(gap: Text, inside: Text, close: Text, after: Text, line: nat, column: int, adjacent: bool,
                                      norm: Text -> Text, lenient: bool) returns (line': nat)
    requires SpaceOk(gap, adjacent)
    ensures ReadValue(gap + ([OCURL] + inside + close + [CCURL]) + after, line, column, adjacent, norm, lenient)
         == if lenient || Within(column, gap, LINE_LENGTH)
            then ParseTable(inside + close + [CCURL] + after, line', ColumnAfter(column, gap) + 1, OTable, [], norm, lenient)
            else Err(OverlengthLine)
  {
    line' := BracketRead(gap, OCURL, inside, close, CCURL, after, line, column, adjacent, lenient);
  }

  /** A value that can be read is the next element of the list. */
  lemma {:induction false} ListStep(input: Text, line: nat, column: int, last: TokenKind, elements: seq<Value>,
                                    norm: Text -> Text, lenient: bool, ok: bool, v: Value, rest: Text, column': int) returns (p: Parsed)
    requires ReadsIf(ok, ReadValue(input, line, column, AllowsAdjacent(last), norm, lenient), v, rest, column')
    ensures ok ==> p.rest == rest && p.column == column' && !AllowsAdjacent(p.last)
    ensures ParseList(input, line, column, last, elements, norm, lenient)
         == if ok then ParseList(rest, p.line, p.column, p.last, elements + [v], norm, lenient) else Err(OverlengthLine)
  {
    p := Parsed(v, rest, line, column', last);
    if ok { p := ReadValue(input, line, column, AllowsAdjacent(last), norm, lenient).value; }
  }

  /** A key and a value that can be read are the next entry of the table. */
  lemma {:induction false} TableStep(input: Text, line: nat, column: int, last: TokenKind, before: seq<Entry>, norm: Text -> Text,
                                     lenient: bool, key: Text, middle: Text, t: Token, ok: bool, v: Value, rest: Text, column': int)
    returns (p: Parsed)
    requires NextToken(input, line, column, AllowsAdjacent(last), lenient) == Ok(t)
    requires t.kind == Key && t.value == key && t.rest == middle
    requires ReadsIf(ok, ReadValue(middle, t.line, t.column, true, norm, lenient), v, rest, column')
    ensures ok ==> p.rest == rest && p.column == column' && !AllowsAdjacent(p.last)
    ensures ParseTable(input, line, column, last, before, norm, lenient)
         == if ok then ParseTable(rest, p.line, p.column, p.last, SetItem(before, norm, key, v), norm, lenient)
            else Err(OverlengthLine)
  {
    p := Parsed(v, rest, line, column', last);
    if ok { p := ReadValue(middle, t.line, t.column, true, norm, lenient).value; }
  }

  /** The key of an entry. */
  lemma {:induction false} KeyRead(e: DocEntry, v: Text, line: nat, column: int, adjacent: bool, lenient: bool)
    requires SpaceOk(e.gap, adjacent) && QuotationOk(e.key)
    ensures var t := NextToken(e.gap + QuotedChars(e.key) + ([COLON] + v), line, column, adjacent, lenient);
      if lenient || KeyWithin(e, column) then IsToken(t, Key, e.key.text, v, KeyColumn(e, column)) else t == Err(OverlengthLine)
  {
    assert QuotedChars(e.key)[0] == e.key.delim;
    var l := DocStarts(e.gap, QuotedChars(e.key), [COLON] + v, line, column, adjacent, lenient);
    QuotationRead(e.key, [COLON] + v, l, ColumnAfter(column, e.gap), lenient);
    assert ([COLON] + v)[1..] == v;
  }

  lemma {:induction false} ItemCharsSplit(items: seq<Doc>, close: Text, after: Text)
    requires items != []
    ensures ItemChars(items) + close + [CBRAK] + after
         == Chars(items[0]) + (ItemChars(items[1..]) + close + [CBRAK] + after)
  {
  }

  lemma {:induction false} EntryCharsSplit(entries: seq<DocEntry>, close: Text, after: Text)
    requires entries != []
    ensures var e := entries[0];
      EntryChars(entries) + close + [CCURL] + after
        == e.gap + QuotedChars(e.key) + ([COLON] + (Chars(e.value) + (EntryChars(entries[1..]) + close + [CCURL] + after)))
  {
    var e := entries[0];
    OneEntrySplit(e.gap + QuotedChars(e.key), [COLON], Chars(e.value), EntryChars(entries[1..]), close, after);
  }

  lemma {:induction false} OneEntrySplit(head: Text, colon: Text, value: Text, others: Text, close: Text, after: Text)
    ensures (head + colon + value + others) + close + [CCURL] + after
      == head + (colon + (value + (others + close + [CCURL] + after)))
  {
    var u := others + close + [CCURL] + after;
    assert (head + colon + value + others) + close + [CCURL] + after == head + colon + value + u;
    assert head + colon + value + u == head + (colon + (value + u));
  }

  /**
   Any layout is read back, whatever the position and whatever follows it; but
   when overlong lines are not let pass, exactly if no line that ends in it is
   overlong.
   */
  lemma {:induction false} DocRead(d: Doc, after: Text, line: nat, column: int, adjacent: bool, norm: Text -> Text, lenient: bool)
    requires LayoutOk(d, adjacent, column) && Follows(d, after)
    ensures ReadsIf(lenient || DocWithin(d, column), ReadValue(Chars(d) + after, line, column, adjacent, norm, lenient),
                    ValueOf(d, norm), after, DocColumn(d, column))
    decreases d, 1
  {
    if d.DList? {
      DListRead(d, after, line, column, adjacent, norm, lenient);
    } else if d.DTable? {
      DTableRead(d, after, line, column, adjacent, norm, lenient);
    } else {
      StringDocRead(d, after, line, column, adjacent, norm, lenient);
    }
  }

  lemma {:induction false} DListRead(d: Doc, after: Text, line: nat, column: int, adjacent: bool, norm: Text -> Text, lenient: bool)
    requires d.DList? && LayoutOk(d, adjacent, column)
    ensures ReadsIf(lenient || DocWithin(d, column), ReadValue(Chars(d) + after, line, column, adjacent, norm, lenient),
                    ValueOf(d, norm), after, DocColumn(d, column))
    decreases d, 0
  {
    ListDocRead(d.gap, d.items, d.close, after, line, column, adjacent, norm, lenient);
  }

  lemma {:induction false} DTableRead(d: Doc, after: Text, line: nat, column: int, adjacent: bool, norm: Text -> Text, lenient: bool)
    requires d.DTable? && LayoutOk(d, adjacent, column)
    ensures ReadsIf(lenient || DocWithin(d, column), ReadValue(Chars(d) + after, line, column, adjacent, norm, lenient),
                    ValueOf(d, norm), after, DocColumn(d, column))
    decreases d, 0
  {
    TableDocRead(d.gap, d.entries, d.close, after, line, column, adjacent, norm, lenient);
  }

  lemma {:induction false} StringDocRead(d: Doc, after: Text, line: nat, column: int, adjacent: bool, norm: Text -> Text, lenient: bool)
    requires !d.DList? && !d.DTable? && LayoutOk(d, adjacent, column) && Follows(d, after)
    ensures ReadsIf(lenient || DocWithin(d, column), ReadValue(Chars(d) + after, line, column, adjacent, norm, lenient),
                    ValueOf(d, norm), after, DocColumn(d, column))
  {
    match d {
      case DBare(gap, text) => BareDocRead(gap, text, after, line, column, adjacent, norm, lenient);
      case DQuoted(gap, q) => QuotedDocRead(gap, q, after, line, column, adjacent, norm, lenient);
      case DField(gap, content, end) => FieldDocRead(gap, content, end, after, line, column, adjacent, norm, lenient);
    }
  }

  lemma {:induction false} ListDocRead(gap: Text, items: seq<Doc>, close: Text, after: Text, line: nat, column: int, adjacent: bool,
                                       norm: Text -> Text, lenient: bool)
    requires SpaceOk(gap, adjacent) && ItemsOk(items, true, ColumnAfter(column, gap) + 1) && ItemsClose(items, close, true)
    ensures var c := ColumnAfter(column, gap) + 1; var c' := ItemsColumn(items, c);
      ReadsIf(lenient || (Within(column, gap, LINE_LENGTH) && ItemsWithin(items, c) && Within(c', close, LINE_LENGTH)),
              ReadValue(gap + ([OBRAK] + ItemChars(items) + close + [CBRAK]) + after, line, column, adjacent, norm, lenient),
              List(ItemValues(items, norm)), after, ColumnAfter(c', close) + 1)
    decreases items, 3
  {
    var l := ListOpens(gap, ItemChars(items), close, after, line, column, adjacent, norm, lenient);
    ListBody(items, close, after, l, ColumnAfter(column, gap) + 1, lenient || Within(column, gap, LINE_LENGTH),
             ReadValue(gap + ([OBRAK] + ItemChars(items) + close + [CBRAK]) + after, line, column, adjacent, norm, lenient),
             norm, lenient);
  }

  /** What is inside of brackets, given the result of opening them. */
  lemma {:induction false} ListBody(items: seq<Doc>, close: Text, after: Text, line: nat, column: int, begun: bool,
                                    r: Result<Parsed, Code>, norm: Text -> Text, lenient: bool)
    requires ItemsOk(items, true, column) && ItemsClose(items, close, true)
    requires r == if begun then ParseList(ItemChars(items) + close + [CBRAK] + after, line, column, OList, [], norm, lenient)
                  else Err(OverlengthLine)
    ensures var c' := ItemsColumn(items, column);
      ReadsIf(begun && (lenient || (ItemsWithin(items, column) && Within(c', close, LINE_LENGTH))), r,
              List(ItemValues(items, norm)), after, ColumnAfter(c', close) + 1)
    decreases items, 2
  {
    ItemsRead(items, close, after, line, column, OList, [], norm, lenient);
    assert [] + ItemValues(items, norm) == ItemValues(items, norm);
  }

  lemma {:induction false} TableDocRead(gap: Text, entries: seq<DocEntry>, close: Text, after: Text, line: nat, column: int,
                                        adjacent: bool, norm: Text -> Text, lenient: bool)
    requires SpaceOk(gap, adjacent) && EntriesOk(entries, true, ColumnAfter(column, gap) + 1) && EntriesClose(entries, close, true)
    ensures var c := ColumnAfter(column, gap) + 1; var c' := EntriesColumn(entries, c);
      ReadsIf(lenient || (Within(column, gap, LINE_LENGTH) && EntriesWithin(entries, c) && Within(c', close, LINE_LENGTH)),
              ReadValue(gap + ([OCURL] + EntryChars(entries) + close + [CCURL]) + after, line, column, adjacent, norm, lenient),
              Table(EntryValues(entries, [], norm)), after, ColumnAfter(c', close) + 1)
    decreases entries, 3
  {
    var l := TableOpens(gap, EntryChars(entries), close, after, line, column, adjacent, norm, lenient);
    TableBody(entries, close, after, l, ColumnAfter(column, gap) + 1, lenient || Within(column, gap, LINE_LENGTH),
              ReadValue(gap + ([OCURL] + EntryChars(entries) + close + [CCURL]) + after, line, column, adjacent, norm, lenient),
              norm, lenient);
  }

  lemma {:induction false} TableBody(entries: seq<DocEntry>, close: Text, after: Text, line: nat, column: int, begun: bool,
                                     r: Result<Parsed, Code>, norm: Text -> Text, lenient: bool)
    requires EntriesOk(entries, true, column) && EntriesClose(entries, close, true)
    requires r == if begun then ParseTable(EntryChars(entries) + close + [CCURL] + after, line, column, OTable, [], norm, lenient)
                  else Err(OverlengthLine)
    ensures var c' := EntriesColumn(entries, column);
      ReadsIf(begun && (lenient || (EntriesWithin(entries, column) && Within(c', close, LINE_LENGTH))), r,
              Table(EntryValues(entries, [], norm)), after, ColumnAfter(c', close) + 1)
    decreases entries, 2
  {
    EntriesRead(entries, close, after, line, column, OTable, [], norm, lenient);
  }

  lemma {:induction false} FirstOfAll(elements: seq<Value>, v: Value, others: seq<Value>)
    ensures elements + [v] + others == elements + ([v] + others)
  {
  }

  /** The elements of a list, from some element on. */
  lemma {:induction false} ItemsRead(items: seq<Doc>, close: Text, after: Text, line: nat, column: int, last: TokenKind,
                                     elements: seq<Value>, norm: Text -> Text, lenient: bool)
    requires ItemsOk(items, AllowsAdjacent(last), column) && ItemsClose(items, close, AllowsAdjacent(last))
    ensures ReadsIf(lenient || (ItemsWithin(items, column) && Within(ItemsColumn(items, column), close, LINE_LENGTH)),
                    ParseList(ItemChars(items) + close + [CBRAK] + after, line, column, last, elements, norm, lenient),
                    List(elements + ItemValues(items, norm)), after, ColumnAfter(ItemsColumn(items, column), close) + 1)
    decreases items, 1
  {
    if items == [] {
      assert [] + close == close;
      CloseRead(close, CBRAK, after, line, column, AllowsAdjacent(last), lenient);
      assert elements + [] == elements;
    } else {
      var v := ValueOf(items[0], norm);
      var p := ItemRead(items, close, after, line, column, last, elements, norm, lenient);
      if lenient || DocWithin(items[0], column) {
        ItemsRead(items[1..], close, after, p.line, p.column, p.last, elements + [v], norm, lenient);
        FirstOfAll(elements, v, ItemValues(items[1..], norm));
      }
    }
  }

  /** The first of some elements, read. */
  lemma {:induction false} ItemRead(items: seq<Doc>, close: Text, after: Text, line: nat, column: int, last: TokenKind,
                                    elements: seq<Value>, norm: Text -> Text, lenient: bool) returns (p: Parsed)
    requires items != [] && ItemsOk(items, AllowsAdjacent(last), column) && ItemsClose(items, close, false)
    ensures var d, u := items[0], ItemChars(items[1..]) + close + [CBRAK] + after;
      var ok := lenient || DocWithin(d, column);
      && (ok ==> p.rest == u && p.column == DocColumn(d, column) && !AllowsAdjacent(p.last))
      && ParseList(ItemChars(items) + close + [CBRAK] + after, line, column, last, elements, norm, lenient)
         == if ok then ParseList(u, p.line, p.column, p.last, elements + [ValueOf(d, norm)], norm, lenient) else Err(OverlengthLine)
    decreases items, 0
  {
    var d, u := items[0], ItemChars(items[1..]) + close + [CBRAK] + after;
    ItemFollowed(items, close, after, AllowsAdjacent(last), column);
    DocRead(d, u, line, column, AllowsAdjacent(last), norm, lenient);
    ItemCharsSplit(items, close, after);
    p := ListStep(Chars(d) + u, line, column, last, elements, norm, lenient,
                  lenient || DocWithin(d, column), ValueOf(d, norm), u, DocColumn(d, column));
  }

  /** The entries of a table, from some entry on. */
  lemma {:induction false} EntriesRead(entries: seq<DocEntry>, close: Text, after: Text, line: nat, column: int, last: TokenKind,
                                       before: seq<Entry>, norm: Text -> Text, lenient: bool)
    requires EntriesOk(entries, AllowsAdjacent(last), column) && EntriesClose(entries, close, AllowsAdjacent(last))
    ensures ReadsIf(lenient || (EntriesWithin(entries, column) && Within(EntriesColumn(entries, column), close, LINE_LENGTH)),
                    ParseTable(EntryChars(entries) + close + [CCURL] + after, line, column, last, before, norm, lenient),
                    Table(EntryValues(entries, before, norm)), after, ColumnAfter(EntriesColumn(entries, column), close) + 1)
    decreases entries, 1
  {
    if entries == [] {
      assert [] + close == close;
      CloseRead(close, CCURL, after, line, column, AllowsAdjacent(last), lenient);
    } else {
      var e := entries[0];
      var p := EntryRead(entries, close, after, line, column, last, before, norm, lenient);
      if lenient || (KeyWithin(e, column) && DocWithin(e.value, KeyColumn(e, column))) {
        EntriesRead(entries[1..], close, after, p.line, p.column, p.last,
                    SetItem(before, norm, e.key.text, ValueOf(e.value, norm)), norm, lenient);
      }
    }
  }

  /** The key of the first of some entries. */
  lemma {:induction false} FirstKeyRead(entries: seq<DocEntry>, close: Text, after: Text, line: nat, column: int,
                                        adjacent: bool, lenient: bool)
    requires entries != [] && EntriesOk(entries, adjacent, column)
    ensures var e, u := entries[0], EntryChars(entries[1..]) + close + [CCURL] + after;
      var t := NextToken(EntryChars(entries) + close + [CCURL] + after, line, column, adjacent, lenient);
      if lenient || KeyWithin(e, column) then IsToken(t, Key, e.key.text, Chars(e.value) + u, KeyColumn(e, column))
      else t == Err(OverlengthLine)
  {
    EntryCharsSplit(entries, close, after);
    KeyRead(entries[0], Chars(entries[0].value) + (EntryChars(entries[1..]) + close + [CCURL] + after),
            line, column, adjacent, lenient);
  }

  /** The first of some entries, read. */
  lemma {:induction false} EntryRead(entries: seq<DocEntry>, close: Text, after: Text, line: nat, column: int, last: TokenKind,
                                     before: seq<Entry>, norm: Text -> Text, lenient: bool) returns (p: Parsed)
    requires entries != [] && EntriesOk(entries, AllowsAdjacent(last), column) && EntriesClose(entries, close, false)
    ensures var e, u := entries[0], EntryChars(entries[1..]) + close + [CCURL] + after;
      var c := KeyColumn(e, column);
      var ok := lenient || (KeyWithin(e, column) && DocWithin(e.value, c));
      && (ok ==> p.rest == u && p.column == DocColumn(e.value, c) && !AllowsAdjacent(p.last))
      && ParseTable(EntryChars(entries) + close + [CCURL] + after, line, column, last, before, norm, lenient)
         == if ok then ParseTable(u, p.line, p.column, p.last, SetItem(before, norm, e.key.text, ValueOf(e.value, norm)), norm, lenient)
            else Err(OverlengthLine)
    decreases entries, 0
  {
    var e, u := entries[0], EntryChars(entries[1..]) + close + [CCURL] + after;
    var input, c := EntryChars(entries) + close + [CCURL] + after, KeyColumn(e, column);
    FirstKeyRead(entries, close, after, line, column, AllowsAdjacent(last), lenient);
    EntryFollowed(entries, close, after, AllowsAdjacent(last), column);
    p := Parsed(Unknown, u, line, column, last);
    if lenient || KeyWithin(e, column) {
      var t := NextToken(input, line, column, AllowsAdjacent(last), lenient).value;
      DocRead(e.value, u, t.line, c, true, norm, lenient);
      p := TableStep(input, line, column, last, before, norm, lenient, e.key.text, Chars(e.value) + u, t,
                     lenient || DocWithin(e.value, c), ValueOf(e.value, norm), u, DocColumn(e.value, c));
    }
  }
}
