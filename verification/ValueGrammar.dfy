/**
 The parser reads exactly the layouts of values: whatever it accepts is a
 layout of the value that it returns.
 */
module ValueGrammar {
  import opened Units
  import opened Wrappers
  import opened Values
  import opened Lexer
  import opened Columns
  import opened LineLimit
  import opened Parser
  import opened TokenForms
  import opened TokenRoundTrip
  import opened ValueLayout
  import TextDecoder

  /** The input is a layout of the value, in its place, and what is left behind it. */
  predicate IsLayout(d: Doc, input: Text, column: int, adjacent: bool, norm: Text -> Text, v: Value, rest: Text) {
    LayoutOk(d, adjacent, column) && Chars(d) + rest == input && Follows(d, rest) && ValueOf(d, norm) == v
  }

  /** What a token's kind says about where it comes from. */
  lemma {:induction false} TokenKinds(body: Text, line: nat, column: int, t: Token)
    requires body != [] && MetaOf(body[0]) != WsMeta && ClassOf(body[0]) != Hash && TokenHere(body, line, column, true) == Ok(t)
    ensures t.kind in {QValue, Key} ==> IsQuote(body[0]) && QuotedToken(body, line, column, true) == Ok(t)
    ensures t.kind == TValue ==> body[0] == SEMI && column == 0 && FieldToken(body, line, column, true) == Ok(t)
    ensures t.kind == OList ==> body[0] == OBRAK && t.rest == body[1..] && t.column == column + 1
    ensures t.kind == OTable ==> body[0] == OCURL && t.rest == body[1..] && t.column == column + 1
    ensures t.kind == CList ==> body[0] == CBRAK && t.rest == body[1..]
    ensures t.kind == CTable ==> body[0] == CCURL && t.rest == body[1..]
    ensures t.kind == TokenKind.Value ==> MetaOf(body[0]) != CloseMeta
  {
    var klass := ClassOf(body[0]);
    if klass == Quote {
      QuotedKind(body, line, column, t);
    } else if klass == Semicolon {
      SemicolonKind(body, line, column, t);
    } else if klass !in {OpenBracket, CloseBracket, OpenBrace, CloseBrace} {
      OtherKind(body, line, column, t);
    }
  }

  lemma {:induction false} QuotedKind(body: Text, line: nat, column: int, t: Token)
    requires body != [] && ClassOf(body[0]) == Quote && TokenHere(body, line, column, true) == Ok(t)
    ensures IsQuote(body[0]) && t.kind in {QValue, Key} && QuotedToken(body, line, column, true) == Ok(t)
  {
  }

  lemma {:induction false} SemicolonKind(body: Text, line: nat, column: int, t: Token)
    requires body != [] && ClassOf(body[0]) == Semicolon && TokenHere(body, line, column, true) == Ok(t)
    ensures body[0] == SEMI
    ensures if column == 0 then t.kind in {TValue, TKey} && FieldToken(body, line, column, true) == Ok(t)
            else t.kind in {TokenKind.Value, BlockHead, FrameHead, FrameTerm, LoopKeyword}
  {
  }

  lemma {:induction false} OtherKind(body: Text, line: nat, column: int, t: Token)
    requires body != [] && MetaOf(body[0]) !in {WsMeta, OpenMeta, CloseMeta} && ClassOf(body[0]) !in {Hash, Quote, Semicolon}
    requires TokenHere(body, line, column, true) == Ok(t)
    ensures t.kind in {Name, TokenKind.Value, BlockHead, FrameHead, FrameTerm, LoopKeyword}
  {
  }

  // Strings

  lemma {:induction false} BareInverse(input: Text, line: nat, column: int, adjacent: bool, norm: Text -> Text, t: Token, p: Parsed)
    returns (d: Doc)
    requires NextToken(input, line, column, adjacent, true) == Ok(t) && t.kind == TokenKind.Value
    requires Finish(t, BareValue(t.value)) == Ok(p)
    ensures IsLayout(d, input, column, adjacent, norm, p.value, p.rest)
  {
    var n := BareParts(input, line, column, adjacent, t);
    BareAccepted(t.value);
    d := BareMade(input[..n], t.value, t.rest, adjacent, column, norm);
  }

  lemma {:induction false} BareParts(input: Text, line: nat, column: int, adjacent: bool, t: Token) returns (n: nat)
    requires NextToken(input, line, column, adjacent, true) == Ok(t) && t.kind == TokenKind.Value && BareValue(t.value).Ok?
    ensures n <= |input| && SpaceOk(input[..n], adjacent) && input == input[..n] + (t.value + t.rest)
    ensures BareOk(t.value) && (t.value[0] == SEMI ==> ColumnAfter(column, input[..n]) != 0) && Follows(DBare([], t.value), t.rest)
  {
    var l;
    n, l := TokenGap(input, line, column, adjacent, t);
    TokenKinds(input[n..], l, ColumnAfter(column, input[..n]), t);
    ValueForm(input[n..], l, ColumnAfter(column, input[..n]));
  }

  lemma {:induction false} BareMade(gap: Text, text: Text, u: Text, adjacent: bool, column: int, norm: Text -> Text) returns (d: Doc)
    requires SpaceOk(gap, adjacent) && BareOk(text) && (text[0] == SEMI ==> ColumnAfter(column, gap) != 0)
    requires Follows(DBare([], text), u)
    ensures IsLayout(d, gap + (text + u), column, adjacent, norm, ValueOf(DBare([], text), norm), u)
  {
    d := DBare(gap, text);
    Chained(gap, text, u);
  }

  lemma {:induction false} QuotedInverse(input: Text, line: nat, column: int, adjacent: bool, norm: Text -> Text, t: Token)
    returns (d: Doc)
    requires NextToken(input, line, column, adjacent, true) == Ok(t) && t.kind == QValue
    ensures IsLayout(d, input, column, adjacent, norm, Char(t.value, true), t.rest)
  {
    var n, l := StringInverse(input, line, column, adjacent, t);
    var q, u := QuotedForm(input[n..], l, ColumnAfter(column, input[..n]));
    d := QuotedMade(input[..n], q, u, adjacent, column, norm);
  }

  lemma {:induction false} QuotedMade(gap: Text, q: Quotation, u: Text, adjacent: bool, column: int, norm: Text -> Text) returns (d: Doc)
    requires SpaceOk(gap, adjacent) && QuotationOk(q) && FollowsQuotation(q, u) && (u == [] || u[0] != COLON)
    ensures IsLayout(d, gap + (QuotedChars(q) + u), column, adjacent, norm, Char(q.text, true), u)
  {
    d := DQuoted(gap, q);
    Chained(gap, QuotedChars(q), u);
  }

  lemma {:induction false} FieldInverse(input: Text, line: nat, column: int, adjacent: bool, norm: Text -> Text, t: Token)
    returns (d: Doc)
    requires NextToken(input, line, column, adjacent, true) == Ok(t) && t.kind == TValue
    ensures IsLayout(d, input, column, adjacent, norm, Char(TextDecoder.Decode(t.value, true, true), true), t.rest)
  {
    var n, l := StringInverse(input, line, column, adjacent, t);
    var end, u := FieldForm(input[n..], l, ColumnAfter(column, input[..n]));
    d := FieldMade(input[..n], t.value, end, u, adjacent, column, norm);
  }

  lemma {:induction false} FieldMade(gap: Text, content: Text, end: FieldEnd, u: Text, adjacent: bool, column: int, norm: Text -> Text)
    returns (d: Doc)
    requires SpaceOk(gap, adjacent) && ColumnAfter(column, gap) == 0 && FieldText(content, end) && (u == [] || u[0] != COLON)
    ensures IsLayout(d, gap + ([SEMI] + content + Closing(end) + u), column, adjacent, norm, Char(TextDecoder.Decode(content, true, true), true), u)
  {
    d := DField(gap, content, end);
    Chained(gap, [SEMI] + content + Closing(end), u);
  }

  lemma {:induction false} Chained(a: Text, b: Text, c: Text)
    ensures a + (b + c) == a + b + c
  {
  }

  /** The scan that a quoted string, a key or a text field comes from, behind a gap of n units. */
  lemma {:induction false} StringInverse(input: Text, line: nat, column: int, adjacent: bool, t: Token) returns (n: nat, line': nat)
    requires NextToken(input, line, column, adjacent, true) == Ok(t) && t.kind in {QValue, Key, TValue}
    ensures n < |input| && SpaceOk(input[..n], adjacent) && input == input[..n] + input[n..]
    ensures t.kind != TValue ==> IsQuote(input[n]) && QuotedToken(input[n..], line', ColumnAfter(column, input[..n]), true) == Ok(t)
    ensures t.kind == TValue ==>
      input[n] == SEMI && ColumnAfter(column, input[..n]) == 0 && FieldToken(input[n..], line', 0, true) == Ok(t)
  {
    n, line' := TokenGap(input, line, column, adjacent, t);
    StringKind(input[n..], line', ColumnAfter(column, input[..n]), t);
  }

  lemma {:induction false} StringKind(body: Text, line: nat, column: int, t: Token)
    requires body != [] && MetaOf(body[0]) != WsMeta && ClassOf(body[0]) != Hash && TokenHere(body, line, column, true) == Ok(t)
    requires t.kind in {QValue, Key, TValue}
    ensures MetaOf(body[0]) != CloseMeta
    ensures t.kind != TValue ==> IsQuote(body[0]) && QuotedToken(body, line, column, true) == Ok(t)
    ensures t.kind == TValue ==> body[0] == SEMI && column == 0 && FieldToken(body, line, 0, true) == Ok(t)
  {
    TokenKinds(body, line, column, t);
  }

  /** A key, and the colon behind it. */
  lemma {:induction false} KeyInverse(input: Text, line: nat, column: int, adjacent: bool, t: Token) returns (n: nat, q: Quotation)
    requires NextToken(input, line, column, adjacent, true) == Ok(t) && t.kind == Key
    ensures n < |input| && SpaceOk(input[..n], adjacent) && QuotationOk(q) && q.text == t.value
    ensures input == input[..n] + QuotedChars(q) + ([COLON] + t.rest)
  {
    var l;
    n, l := StringInverse(input, line, column, adjacent, t);
    q := KeyForm(input[n..], l, ColumnAfter(column, input[..n]), t);
    Chained(input[..n], QuotedChars(q), [COLON] + t.rest);
  }

  lemma {:induction false} KeyForm(body: Text, line: nat, column: int, t: Token) returns (q: Quotation)
    requires body != [] && IsQuote(body[0]) && QuotedToken(body, line, column, true) == Ok(t) && t.kind == Key
    ensures QuotationOk(q) && q.text == t.value && body == QuotedChars(q) + ([COLON] + t.rest)
  {
    var u;
    q, u := QuotedForm(body, line, column);
    assert u == [COLON] + u[1..];
  }

  /** An opening bracket and what it comes behind. */
  lemma {:induction false} OpenInverse(input: Text, line: nat, column: int, adjacent: bool, t: Token, bracket: Unit) returns (n: nat)
    requires NextToken(input, line, column, adjacent, true) == Ok(t)
    requires (t.kind == OList && bracket == OBRAK) || (t.kind == OTable && bracket == OCURL)
    ensures n < |input| && SpaceOk(input[..n], adjacent) && t.column == ColumnAfter(column, input[..n]) + 1
    ensures input == input[..n] + ([bracket] + t.rest)
  {
    var l;
    n, l := TokenGap(input, line, column, adjacent, t);
    TokenKinds(input[n..], l, ColumnAfter(column, input[..n]), t);
    BracketInverse(input, n, bracket, t.rest);
  }

  /** A single unit behind a gap. */
  lemma {:induction false} BracketInverse(input: Text, n: nat, bracket: Unit, rest: Text)
    requires n < |input| && input[n] == bracket && rest == input[n..][1..]
    ensures input == input[..n] + ([bracket] + rest)
  {
  }

  // Values

  /** Whatever is read is a layout of the value read. */
  lemma {:induction false} ReadInverse(input: Text, line: nat, column: int, adjacent: bool, norm: Text -> Text, p: Parsed) returns (d: Doc)
    requires ReadValue(input, line, column, adjacent, norm, true) == Ok(p)
    ensures IsLayout(d, input, column, adjacent, norm, p.value, p.rest)
    ensures p.column == DocColumn(d, column) && !AllowsAdjacent(p.last)
    decreases |input|, 2
  {
    var t := NextToken(input, line, column, adjacent, true).value;
    if t.kind in {OList, OTable} {
      d := NestedInverse(input, line, column, adjacent, norm, t, p);
    } else if t.kind == TValue {
      d := FieldInverse(input, line, column, adjacent, norm, t);
    } else if t.kind == QValue {
      d := QuotedInverse(input, line, column, adjacent, norm, t);
    } else {
      d := BareInverse(input, line, column, adjacent, norm, t, p);
    }
    LayoutColumn(d, input, line, column, adjacent, norm, p);
  }

  lemma {:induction false} LayoutColumn(d: Doc, input: Text, line: nat, column: int, adjacent: bool, norm: Text -> Text, p: Parsed)
    requires ReadValue(input, line, column, adjacent, norm, true) == Ok(p) && IsLayout(d, input, column, adjacent, norm, p.value, p.rest)
    ensures p.column == DocColumn(d, column) && !AllowsAdjacent(p.last)
  {
    DocRead(d, p.rest, line, column, adjacent, norm, true);
  }

  lemma {:induction false} NestedInverse(input: Text, line: nat, column: int, adjacent: bool, norm: Text -> Text, t: Token, p: Parsed)
    returns (d: Doc)
    requires NextToken(input, line, column, adjacent, true) == Ok(t) && t.kind in {OList, OTable}
    requires Ok(p) == if t.kind == OList then ParseList(t.rest, t.line, t.column, OList, [], norm, true)
                      else ParseTable(t.rest, t.line, t.column, OTable, [], norm, true)
    ensures IsLayout(d, input, column, adjacent, norm, p.value, p.rest)
    decreases |input|, 1
  {
    if t.kind == OList {
      var n := OpenInverse(input, line, column, adjacent, t, OBRAK);
      d := ListInverse(input[..n], t.rest, t.line, column, adjacent, norm, p);
    } else {
      var n := OpenInverse(input, line, column, adjacent, t, OCURL);
      d := TableInverse(input[..n], t.rest, t.line, column, adjacent, norm, p);
    }
  }

  lemma {:induction false} ListInverse(gap: Text, u: Text, line: nat, column: int, adjacent: bool, norm: Text -> Text, p: Parsed)
    returns (d: Doc)
    requires SpaceOk(gap, adjacent) && ParseList(u, line, ColumnAfter(column, gap) + 1, OList, [], norm, true) == Ok(p)
    ensures IsLayout(d, gap + ([OBRAK] + u), column, adjacent, norm, p.value, p.rest)
    decreases |u|, 4
  {
    var items, close := ItemsInverse(u, line, ColumnAfter(column, gap) + 1, OList, [], norm, p);
    d := ListMade(gap, items, close, u, p.rest, adjacent, column, norm);
    assert [] + ItemValues(items, norm) == ItemValues(items, norm);
  }

  lemma {:induction false} ListMade(gap: Text, items: seq<Doc>, close: Text, u: Text, rest: Text, adjacent: bool, column: int, norm: Text -> Text)
    returns (d: Doc)
    requires SpaceOk(gap, adjacent) && ItemsOk(items, true, ColumnAfter(column, gap) + 1) && ItemsClose(items, close, true)
    requires u == ItemChars(items) + close + [CBRAK] + rest
    ensures IsLayout(d, gap + ([OBRAK] + u), column, adjacent, norm, List(ItemValues(items, norm)), rest)
  {
    d := DList(gap, items, close);
    ListInPlace(gap, items, close, adjacent, column);
    ListChars(gap, items, close, rest);
  }

  lemma {:induction false} ListInPlace(gap: Text, items: seq<Doc>, close: Text, adjacent: bool, column: int)
    requires SpaceOk(gap, adjacent) && ItemsOk(items, true, ColumnAfter(column, gap) + 1) && ItemsClose(items, close, true)
    ensures LayoutOk(DList(gap, items, close), adjacent, column)
  {
  }

  lemma {:induction false} ListChars(gap: Text, items: seq<Doc>, close: Text, rest: Text)
    ensures Chars(DList(gap, items, close)) + rest == gap + ([OBRAK] + (ItemChars(items) + close + [CBRAK] + rest))
  {
    Opens(gap, OBRAK, ItemChars(items), close, CBRAK, rest);
  }

  lemma {:induction false} TableInverse(gap: Text, u: Text, line: nat, column: int, adjacent: bool, norm: Text -> Text, p: Parsed)
    returns (d: Doc)
    requires SpaceOk(gap, adjacent) && ParseTable(u, line, ColumnAfter(column, gap) + 1, OTable, [], norm, true) == Ok(p)
    ensures IsLayout(d, gap + ([OCURL] + u), column, adjacent, norm, p.value, p.rest)
    decreases |u|, 4
  {
    var entries, close := EntriesInverse(u, line, ColumnAfter(column, gap) + 1, OTable, [], norm, p);
    d := TableMade(gap, entries, close, u, p.rest, adjacent, column, norm);
  }

  lemma {:induction false} TableMade(gap: Text, entries: seq<DocEntry>, close: Text, u: Text, rest: Text, adjacent: bool, column: int,
                                     norm: Text -> Text) returns (d: Doc)
    requires SpaceOk(gap, adjacent) && EntriesOk(entries, true, ColumnAfter(column, gap) + 1) && EntriesClose(entries, close, true)
    requires u == EntryChars(entries) + close + [CCURL] + rest
    ensures IsLayout(d, gap + ([OCURL] + u), column, adjacent, norm, Table(EntryValues(entries, [], norm)), rest)
  {
    d := DTable(gap, entries, close);
    TableInPlace(gap, entries, close, adjacent, column);
    TableChars(gap, entries, close, rest);
  }

  lemma {:induction false} TableInPlace(gap: Text, entries: seq<DocEntry>, close: Text, adjacent: bool, column: int)
    requires SpaceOk(gap, adjacent) && EntriesOk(entries, true, ColumnAfter(column, gap) + 1) && EntriesClose(entries, close, true)
    ensures LayoutOk(DTable(gap, entries, close), adjacent, column)
  {
  }

  lemma {:induction false} TableChars(gap: Text, entries: seq<DocEntry>, close: Text, rest: Text)
    ensures Chars(DTable(gap, entries, close)) + rest == gap + ([OCURL] + (EntryChars(entries) + close + [CCURL] + rest))
  {
    Opens(gap, OCURL, EntryChars(entries), close, CCURL, rest);
  }

  /** A closing bracket and what it comes behind. */
  lemma {:induction false} CloseInverse(input: Text, line: nat, column: int, afterWs: bool, t: Token, bracket: Unit) returns (close: Text)
    requires NextToken(input, line, column, afterWs, true) == Ok(t)
    requires (t.kind == CList && bracket == CBRAK) || (t.kind == CTable && bracket == CCURL)
    ensures CloseOk(close, afterWs) && input == close + [bracket] + t.rest
  {
    var n, l := TokenGap(input, line, column, afterWs, t);
    close := input[..n];
    CloseKind(input[n..], l, ColumnAfter(column, close), t, bracket);
    BracketInverse(input, n, bracket, t.rest);
    Chained(close, [bracket], t.rest);
  }

  lemma {:induction false} CloseKind(body: Text, line: nat, column: int, t: Token, bracket: Unit)
    requires body != [] && MetaOf(body[0]) != WsMeta && ClassOf(body[0]) != Hash && TokenHere(body, line, column, true) == Ok(t)
    requires (t.kind == CList && bracket == CBRAK) || (t.kind == CTable && bracket == CCURL)
    ensures body[0] == bracket && t.rest == body[1..]
  {
    TokenKinds(body, line, column, t);
  }

  /** A value may be followed by a bracket without white space if it is. */
  lemma {:induction false} BracketFollowed(d: Doc, close: Text, bracket: Unit, rest: Text)
    requires Follows(d, close + [bracket] + rest) && MetaOf(bracket) == CloseMeta
    ensures MayClose(d, close)
  {
    assert close == [] ==> (close + [bracket] + rest)[0] == bracket;
  }

  lemma {:induction false} ItemsInverse(input: Text, line: nat, column: int, last: TokenKind, elements: seq<Value>,
                                        norm: Text -> Text, p: Parsed) returns (items: seq<Doc>, close: Text)
    requires ParseList(input, line, column, last, elements, norm, true) == Ok(p)
    ensures ItemsOk(items, AllowsAdjacent(last), column) && ItemsClose(items, close, AllowsAdjacent(last))
    ensures input == ItemChars(items) + close + [CBRAK] + p.rest && p.value == List(elements + ItemValues(items, norm))
    decreases |input|, 3
  {
    var t := NextToken(input, line, column, AllowsAdjacent(last), true).value;
    if t.kind == CList {
      items := [];
      close := CloseInverse(input, line, column, AllowsAdjacent(last), t, CBRAK);
      assert [] + close == close && elements + [] == elements;
    } else {
      var v := ParseValue(t, norm, true).value;
      var d := ReadInverse(input, line, column, AllowsAdjacent(last), norm, v);
      var others;
      others, close := ItemsInverse(v.rest, v.line, v.column, v.last, elements + [v.value], norm, p);
      items := [d] + others;
      FirstItem(d, others, close, v.rest, p.rest, AllowsAdjacent(last), column);
      FirstOfAll(elements, v.value, ItemValues(others, norm));
    }
  }

  lemma {:induction false} FirstItem(d: Doc, others: seq<Doc>, close: Text, u: Text, rest: Text, adjacent: bool, column: int)
    requires LayoutOk(d, adjacent, column) && Follows(d, u) && u == ItemChars(others) + close + [CBRAK] + rest
    requires ItemsOk(others, false, DocColumn(d, column)) && ItemsClose(others, close, false)
    ensures var items := [d] + others;
      && ItemsOk(items, adjacent, column) && ItemsClose(items, close, adjacent) && items[1..] == others
      && Chars(d) + u == ItemChars(items) + close + [CBRAK] + rest
  {
    var items := [d] + others;
    assert items[1..] == others;
    if others == [] {
      assert [] + close == close;
      BracketFollowed(d, close, CBRAK, rest);
    }
    ItemCharsSplit(items, close, rest);
  }

  lemma {:induction false} EntriesInverse(input: Text, line: nat, column: int, last: TokenKind, before: seq<Entry>,
                                          norm: Text -> Text, p: Parsed) returns (entries: seq<DocEntry>, close: Text)
    requires ParseTable(input, line, column, last, before, norm, true) == Ok(p)
    ensures EntriesOk(entries, AllowsAdjacent(last), column) && EntriesClose(entries, close, AllowsAdjacent(last))
    ensures input == EntryChars(entries) + close + [CCURL] + p.rest && p.value == Table(EntryValues(entries, before, norm))
    decreases |input|, 3
  {
    var t := NextToken(input, line, column, AllowsAdjacent(last), true).value;
    if t.kind == CTable {
      entries := [];
      close := CloseInverse(input, line, column, AllowsAdjacent(last), t, CCURL);
      assert [] + close == close;
    } else {
      var e, v := EntryInverse(input, line, column, AllowsAdjacent(last), norm, t);
      var others;
      others, close := EntriesInverse(v.rest, v.line, v.column, v.last, SetItem(before, norm, t.value, v.value), norm, p);
      entries := [e] + others;
      FirstEntry(e, others, close, v.rest, p.rest, AllowsAdjacent(last), column);
    }
  }

  /** The first entry of some, its key being the token t. */
  lemma {:induction false} EntryInverse(input: Text, line: nat, column: int, adjacent: bool, norm: Text -> Text, t: Token)
    returns (e: DocEntry, v: Parsed)
    requires NextToken(input, line, column, adjacent, true) == Ok(t) && t.kind == Key
    requires ReadValue(t.rest, t.line, t.column, true, norm, true).Ok?
    ensures ReadValue(t.rest, t.line, t.column, true, norm, true) == Ok(v) && |v.rest| < |input| && !AllowsAdjacent(v.last)
    ensures SpaceOk(e.gap, adjacent) && QuotationOk(e.key) && e.key.text == t.value && LayoutOk(e.value, true, KeyColumn(e, column))
    ensures v.column == DocColumn(e.value, KeyColumn(e, column)) && v.value == ValueOf(e.value, norm) && Follows(e.value, v.rest)
    ensures input == OneEntryChars(e) + v.rest
    decreases |input|, 1
  {
    var n, q := KeyInverse(input, line, column, adjacent, t);
    v := ReadValue(t.rest, t.line, t.column, true, norm, true).value;
    KeyRead(DocEntry(input[..n], q, DBare([], [])), t.rest, line, column, adjacent, true);
    var d := ReadInverse(t.rest, t.line, t.column, true, norm, v);
    e := DocEntry(input[..n], q, d);
    EntryChained(input[..n] + QuotedChars(q), Chars(d), v.rest);
  }

  lemma {:induction false} EntryChained(head: Text, value: Text, rest: Text)
    ensures head + ([COLON] + (value + rest)) == head + [COLON] + value + rest
  {
  }

  lemma {:induction false} EntryFirst(first: Text, others: Text, close: Text, rest: Text)
    ensures (first + others) + close + [CCURL] + rest == first + (others + close + [CCURL] + rest)
  {
  }

  lemma {:induction false} FirstEntry(e: DocEntry, others: seq<DocEntry>, close: Text, u: Text, rest: Text, adjacent: bool, column: int)
    requires SpaceOk(e.gap, adjacent) && QuotationOk(e.key) && LayoutOk(e.value, true, KeyColumn(e, column)) && Follows(e.value, u)
    requires u == EntryChars(others) + close + [CCURL] + rest
    requires EntriesOk(others, false, DocColumn(e.value, KeyColumn(e, column))) && EntriesClose(others, close, false)
    ensures var entries := [e] + others;
      && EntriesOk(entries, adjacent, column) && EntriesClose(entries, close, adjacent) && entries[1..] == others
      && OneEntryChars(e) + u == EntryChars(entries) + close + [CCURL] + rest
  {
    var entries := [e] + others;
    assert entries[1..] == others;
    if others == [] {
      assert [] + close == close;
      BracketFollowed(e.value, close, CCURL, rest);
    }
    EntryFirst(OneEntryChars(e), EntryChars(others), close, rest);
  }

  /**
   A value is read from some input, and this is left of it, if and only if the
   input is a layout of that value with this behind it, in which, under a strict
   callback, no line that ends is overlong.
   */
  lemma {:induction false} ReadsLayouts(input: Text, line: nat, column: int, adjacent: bool, norm: Text -> Text, lenient: bool,
                                        v: Value, rest: Text)
    ensures Reads(ReadValue(input, line, column, adjacent, norm, lenient), v, rest)
       <==> exists d :: IsLayout(d, input, column, adjacent, norm, v, rest) && (lenient || DocWithin(d, column))
    ensures var r := ReadValue(input, line, column, adjacent, norm, lenient);
      r.Ok? ==> Reads(r, r.value.value, r.value.rest)
  {
    var r := ReadValue(input, line, column, adjacent, norm, lenient);
    if r.Ok? {
      var d := AcceptedLayout(input, line, column, adjacent, norm, lenient, r.value);
    }
    if d :| IsLayout(d, input, column, adjacent, norm, v, rest) && (lenient || DocWithin(d, column)) {
      DocRead(d, rest, line, column, adjacent, norm, lenient);
    }
  }

  /** The layout of what is read. */
  lemma {:induction false} AcceptedLayout(input: Text, line: nat, column: int, adjacent: bool, norm: Text -> Text, lenient: bool,
                                          p: Parsed) returns (d: Doc)
    requires ReadValue(input, line, column, adjacent, norm, lenient) == Ok(p)
    ensures IsLayout(d, input, column, adjacent, norm, p.value, p.rest) && (lenient || DocWithin(d, column))
    ensures !AllowsAdjacent(p.last)
  {
    if !lenient { ReadStrict(input, line, column, adjacent, norm); }
    d := ReadInverse(input, line, column, adjacent, norm, p);
    DocRead(d, p.rest, line, column, adjacent, norm, lenient);
  }
}
