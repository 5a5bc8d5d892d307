/**
 What the value writer prints, the parser reads back.
 */
module ValueRoundTrip {
  import opened Units
  import opened Wrappers
  import opened Values
  import opened ValueLayout
  import opened ValueWriter
  import opened WriterColumns
  import opened StringAnalysis
  import opened TokenRoundTrip
  import opened Columns
  import Lexer
  import LineLimit
  import NumberGrammar
  import NumberText
  import Parser
  import TextDecoder
  import TextFieldWriter
  import TextFieldRoundTrip

  /** A string whose text field starts with a semicolon and is folded but not prefixed. */
  predicate FieldBreaks(t: Text) {
    FoldFor(t) && !PrefixFor(t) && t != [] && t[0] == SEMI
  }

  /** Valid units, and not a text field that would end early. */
  predicate StringFits(t: Text, quoted: bool) {
    && Clean(t) && NoCr(t)
    && (Preferred(t, !quoted, true, LINE_LENGTH) == Delimiter.Field ==> !FieldBreaks(t))
  }

  /** The values for which the round trip is claimed. */
  ghost predicate Fits(v: Value, norm: Text -> Text) {
    match v
    case Char(t, quoted) => StringFits(t, quoted)
    case Numb(t, quoted, _) => if quoted then StringFits(t, true) else NoNul(t) && NumberGrammar.Parse(t).Some?
    case List(elements) => forall i :: 0 <= i < |elements| ==> Fits(elements[i], norm)
    case Table(entries) =>
      && DistinctKeys(entries)
      && forall i :: 0 <= i < |entries| ==> FitsEntry(entries[i], norm)
    case _ => true
  }

  ghost predicate FitsEntry(e: Entry, norm: Text -> Text) {
    e.key == norm(e.keyOrig) && StringFits(e.keyOrig, true) && Fits(e.value, norm)
  }

  /** What a string comes back as. */
  function RereadString(t: Text, quoted: bool): Value {
    match Preferred(t, !quoted, true, LINE_LENGTH)
    case Bare => Char(t, false)
    case Field => Char(TextFieldRoundTrip.ReadBack(t, FoldFor(t), PrefixFor(t)), true)
    case _ => Char(t, true)
  }

  /** What a value comes back as: numbers as text, and text fields under a protocol without a trailing newline. */
  function Reread(v: Value): Value {
    match v
    case Char(t, quoted) => RereadString(t, quoted)
    case Numb(t, quoted, _) => if quoted then RereadString(t, true) else Char(t, false)
    case List(elements) => List(RereadAll(elements))
    case Table(entries) => Table(RereadEntries(entries))
    case _ => v
  }

  function RereadAll(elements: seq<Value>): seq<Value> {
    if elements == [] then [] else [Reread(elements[0])] + RereadAll(elements[1..])
  }

  function RereadEntries(entries: seq<Entry>): seq<Entry> {
    if entries == [] then []
    else [Entry(entries[0].key, entries[0].keyOrig, Reread(entries[0].value))] + RereadEntries(entries[1..])
  }

  lemma {:induction false} CleanHasNoNul(t: Text, lead: Unit)
    requires CleanFrom(lead, t)
    ensures NoNul(t)
    decreases |t|
  {
    if t != [] {
      CleanHasNoNul(t[1..], Lexer.NextLead(lead, t[0]).value);
      assert t == [t[0]] + t[1..];
    }
  }

  /** A string that can be bare is scanned as a bare token. */
  lemma {:induction false} BareIsOk(t: Text)
    requires CanBeBare(t) && Clean(t)
    ensures BareOk(t)
  {
    forall i | 0 <= i < |t|
      ensures Lexer.MetaOf(t[i]) in {Lexer.GeneralMeta, Lexer.NoMeta}
    {
      assert t[i] in t;
    }
  }

  lemma {:induction false} TripledIsOk(t: Text, q: Unit, limit: int)
    requires CanBeTripled(t, q, limit)
    ensures NoClose(t, q, 0)
  {
  }

  /** The quotation of a string with a recommended quote. */
  function Recommended(t: Text, d: Delimiter): Quotation
    requires d.Quoted? || d.Tripled?
  {
    Quotation(d.quote, d.Tripled?, t)
  }

  /**
   The delimiter recommended for a string, put around it, makes the scanner
   return exactly that string.  When overlong lines are not let pass, a
   triple-quoted string is returned exactly if its lines are not too long for
   the column where it starts.
   */
  lemma {:induction false} DelimiterSound(t: Text, bare: bool, triple: bool, limit: int, u: Text,
                                          line: nat, column: int, lenient: bool)
    requires Clean(t) && NoCr(t)
    ensures var d := Preferred(t, bare, triple, limit);
      && (d.Bare? && Ends(u) ==>
            IsToken(Lexer.NextToken(t + u, line, column, true, lenient), Lexer.TokenKind.Value, t, u, ColumnAfter(column, t)))
      && (!d.Bare? && !d.Field? && (u != [] ==> !IsQuote(u[0]) && u[0] != COLON) ==>
            var q := Recommended(t, d);
            var r := Lexer.NextToken(QuotedChars(q) + u, line, column, true, lenient);
            if lenient || d.Quoted? || Within(column + 2, t, TOKEN_LIMIT)
            then IsToken(r, Lexer.QValue, t, u, QuotationColumn(q, column)) else r == Err(Lexer.OverlengthLine))
  {
    var d := Preferred(t, bare, triple, limit);
    if d.Bare? {
      BareIsOk(t);
      if Ends(u) { BareRead(t, u, line, column, lenient); }
    } else if !d.Field? {
      RecommendedOk(t, bare, triple, limit);
      if u != [] ==> !IsQuote(u[0]) { QuotationRead(Recommended(t, d), u, line, column, lenient); }
    }
  }

  lemma {:induction false} RecommendedOk(t: Text, bare: bool, triple: bool, limit: int)
    requires Clean(t) && NoCr(t)
    ensures var d := Preferred(t, bare, triple, limit);
      d.Quoted? || d.Tripled? ==> QuotationOk(Recommended(t, d))
  {
    var d := Preferred(t, bare, triple, limit);
    assert CR !in t;
    if d.Tripled? { TripledIsOk(t, d.quote, limit); }
  }

  /** The contents of a written field are scannable. */
  lemma {:induction false} ContentClean(t: Text, fold: bool, prefix: bool)
    requires Clean(t) && NoCr(t) && TextFieldWriter.Content(t, fold, prefix).Some?
    ensures var c := TextFieldWriter.Content(t, fold, prefix).value; Clean(c) && NoCr(c)
  {
    if fold || prefix {
      var h := TextFieldWriter.Header(fold, prefix)[2..];
      AsciiClean(h, TextFieldWriter.Body(t, fold, prefix).value);
      BodyClean(t, fold, prefix);
    }
  }

  /** Characters that writing adds: neither surrogates nor disallowed. */
  predicate Ascii(h: Text) {
    forall i :: 0 <= i < |h| ==> h[i] == NL || 0x20 <= h[i] < 0x7F
  }

  lemma {:induction false} AsciiClean(h: Text, t: Text)
    requires Ascii(h)
    ensures Clean(h + t) <==> Clean(t)
    decreases |h|
  {
    if h == [] {
      assert h + t == t;
    } else {
      assert (h + t)[0] == h[0] && (h + t)[1..] == h[1..] + t;
      AsciiClean(h[1..], t);
    }
  }

  lemma {:induction false} CleanConcat(lead: Unit, a: Text, b: Text)
    requires CleanFrom(lead, a) && Clean(b)
    ensures CleanFrom(lead, a + b)
    decreases |a|
  {
    if a == [] {
      assert a + b == b;
    } else {
      assert (a + b)[0] == a[0] && (a + b)[1..] == a[1..] + b;
      CleanConcat(Lexer.NextLead(lead, a[0]).value, a[1..], b);
    }
  }

  /** A clean text may be cut wherever no surrogate pair is split. */
  lemma {:induction false} CleanSplit(lead: Unit, t: Text, r: nat)
    requires CleanFrom(lead, t) && r <= |t| && (lead == 0 || Lexer.IsLead(lead))
    requires r == 0 ==> lead == 0
    requires 0 < r < |t| ==> !IsSurrogatePair(t[r - 1], t[r])
    ensures CleanFrom(lead, t[..r]) && Clean(t[r..])
    decreases |t|
  {
    if r > 0 {
      var lead' := Lexer.NextLead(lead, t[0]).value;
      assert r == 1 && |t| > 1 && lead' != 0 ==> Lexer.NextLead(lead', t[1]).Ok?;
      CleanSplit(lead', t[1..], r - 1);
      assert t[..r][1..] == t[1..][..r - 1];
      assert t[1..][r - 1..] == t[r..];
    }
  }

  lemma {:induction false} SegmentsClean(line: Text, protect: bool, fold: bool, prefix: bool)
    requires Clean(line) && NoCr(line) && TextFieldWriter.Segments(line, protect, fold, prefix).Some?
    ensures var s := TextFieldWriter.Segments(line, protect, fold, prefix).value; Clean(s) && NoCr(s)
    decreases |line|
  {
    if line != [] {
      var r := TextFieldWriter.Cut(line, fold, prefix);
      TextFieldWriter.CutIsSafe(line, fold, prefix);
      CleanSplit(0, line, r);
      SegmentsClean(line[r..], protect, fold, prefix);
      var mark := if r < |line| || protect then [BSL] else [];
      var s := TextFieldWriter.Segments(line[r..], protect, fold, prefix).value;
      PhysicalClean(line[..r], r < |line| || protect, prefix, s);
    }
  }

  lemma {:induction false} PhysicalClean(a: Text, mark: bool, prefix: bool, s: Text)
    requires Clean(a) && NoCr(a) && Clean(s) && NoCr(s)
    ensures Clean(TextFieldWriter.Physical(a, mark, prefix) + s) && NoCr(TextFieldWriter.Physical(a, mark, prefix) + s)
  {
    var before, after := [NL] + TextFieldWriter.LinePrefix(prefix), if mark then [BSL] else [];
    AsciiClean(after, s);
    CleanConcat(0, a, after + s);
    AsciiClean(before, a + (after + s));
    FourParts([NL], TextFieldWriter.LinePrefix(prefix), a, after, s);
  }

  lemma {:induction false} FourParts(a: Text, b: Text, c: Text, d: Text, s: Text)
    ensures a + b + c + d + s == a + b + (c + (d + s))
  {
    assert a + b + c + d + s == a + b + c + (d + s);
  }

  /** Cutting a clean text after its first line. */
  lemma {:induction false} CleanLines(t: Text)
    requires Clean(t) && NoCr(t)
    ensures var k := LineEnd(t); Clean(t[..k]) && NoCr(t[..k]) && (k < |t| ==> Clean(t[k + 1..]) && NoCr(t[k + 1..]))
  {
    var k := LineEnd(t);
    CleanSplit(0, t, k);
    if k < |t| {
      assert t[k..][0] == NL && t[k..][1..] == t[k + 1..];
    }
  }

  lemma {:induction false} BodyClean(t: Text, fold: bool, prefix: bool)
    requires Clean(t) && NoCr(t) && TextFieldWriter.Body(t, fold, prefix).Some?
    ensures var b := TextFieldWriter.Body(t, fold, prefix).value; Clean(b) && NoCr(b)
    decreases |t|
  {
    if t == [] {
    } else if t[0] == NL {
      BodyClean(t[1..], fold, prefix);
      AsciiClean([NL], TextFieldWriter.Body(t[1..], fold, prefix).value);
    } else {
      var k := LineEnd(t);
      var line := t[..k];
      var rest := if k < |t| then t[k + 1..] else [];
      TextFieldWriter.BodyStep(t, fold, prefix, rest);
      CleanLines(t);
      BodyClean(rest, fold, prefix);
      var protect := TextFieldWriter.Protect(line, fold);
      SegmentsClean(line, protect, fold, prefix);
      var s, b := TextFieldWriter.Segments(line, protect, fold, prefix).value, TextFieldWriter.Body(rest, fold, prefix).value;
      LineClean(s, protect, b);
    }
  }

  lemma {:induction false} LineClean(s: Text, protect: bool, b: Text)
    requires Clean(s) && NoCr(s) && Clean(b) && NoCr(b)
    ensures var c := s + (if protect then [NL] else []) + b; Clean(c) && NoCr(c)
  {
    var end := if protect then [NL] else [];
    AsciiClean(end, b);
    CleanConcat(0, s, end + b);
    Associative(s, end, b);
  }

  /** The writer does not begin a bare string with a semicolon. */
  predicate Tame(d: Doc) {
    d.DBare? ==> d.text != [] && d.text[0] != SEMI
  }

  /** A string as it was written: the layout is in order, and it stands for what is read back. */
  lemma {:induction false} StringShown(d: Doc, t: Text, quoted: bool, adjacent: bool, column: int, norm: Text -> Text)
    requires ShowsString(d, t, quoted) && Spaced(d, adjacent) && StringFits(t, quoted)
    ensures LayoutOk(d, adjacent, column) && Tame(d) && ValueOf(d, norm) == RereadString(t, quoted)
  {
    GapIsSpace(d.gap, adjacent);
    match Preferred(t, !quoted, true, LINE_LENGTH) {
      case Bare => BareIsOk(t);
      case Quoted(_) => RecommendedOk(t, !quoted, true, LINE_LENGTH);
      case Tripled(_) => RecommendedOk(t, !quoted, true, LINE_LENGTH);
      case Field =>
        var fold, prefix := FoldFor(t), PrefixFor(t);
        ContentClean(t, fold, prefix);
        TextFieldRoundTrip.ContentGuarded(t, fold, prefix);
        TextFieldRoundTrip.ContentRead(t, fold, prefix);
        PlainFieldText(d.content);
        ColumnAfterEol(column, d.gap);
    }
  }

  lemma {:induction false} MarkIsBare(text: Text)
    requires text == [QUERY] || text == [DOT]
    ensures BareOk(text)
  {
    AsciiClean(text, []);
    assert text + [] == text;
  }

  /** Any value as it was written. */
  lemma {:induction false} ValueShown(d: Doc, v: Value, adjacent: bool, column: int, norm: Text -> Text)
    requires Shows(d, v) && Spaced(d, adjacent) && Fits(v, norm)
    ensures LayoutOk(d, adjacent, column) && Tame(d) && ValueOf(d, norm) == Reread(v)
    decreases v, 1
  {
    match v {
      case Char(t, quoted) => StringShown(d, t, quoted, adjacent, column, norm);
      case Numb(t, quoted, _) =>
        if quoted { StringShown(d, t, true, adjacent, column, norm); } else { BareShown(d, v, adjacent, column, norm); }
      case List(_) => ListShown(d, v, adjacent, column, norm);
      case Table(_) => TableShown(d, v, adjacent, column, norm);
      case _ => BareShown(d, v, adjacent, column, norm);
    }
  }

  /** A number, or a mark for a value that is not there. */
  lemma {:induction false} BareShown(d: Doc, v: Value, adjacent: bool, column: int, norm: Text -> Text)
    requires Shows(d, v) && Spaced(d, adjacent) && Fits(v, norm)
    requires (v.Numb? && !v.quoted) || v.Unknown? || v.NotApplicable?
    ensures LayoutOk(d, adjacent, column) && Tame(d) && ValueOf(d, norm) == Reread(v)
  {
    GapIsSpace(d.gap, adjacent);
    if v.Numb? { NumberText.NumberIsBare(d.text); } else { MarkIsBare(d.text); }
  }

  lemma {:induction false} ListShown(d: Doc, v: Value, adjacent: bool, column: int, norm: Text -> Text)
    requires v.List? && Shows(d, v) && Spaced(d, adjacent) && Fits(v, norm)
    ensures LayoutOk(d, adjacent, column) && Tame(d) && ValueOf(d, norm) == Reread(v)
    decreases v, 0
  {
    GapIsSpace(d.gap, adjacent);
    ListInside(d.items, v.elements, d.close, ColumnAfter(column, d.gap) + 1, norm);
  }

  lemma {:induction false} ListInside(items: seq<Doc>, elements: seq<Value>, close: Text, column: int, norm: Text -> Text)
    requires ShowsAll(items, elements) && (forall i :: 0 <= i < |elements| ==> Fits(elements[i], norm))
    requires ItemsSpaced(items) && AllWs(close)
    ensures ItemsOk(items, true, column) && ItemsClose(items, close, true) && ItemValues(items, norm) == RereadAll(elements)
    decreases elements, 1
  {
    ItemsShown(items, elements, true, column, norm);
    WsFiller(close);
  }

  lemma {:induction false} TableShown(d: Doc, v: Value, adjacent: bool, column: int, norm: Text -> Text)
    requires v.Table? && Shows(d, v) && Spaced(d, adjacent) && Fits(v, norm)
    ensures LayoutOk(d, adjacent, column) && Tame(d) && ValueOf(d, norm) == Reread(v)
    decreases v, 0
  {
    GapIsSpace(d.gap, adjacent);
    TableInside(d.entries, v.entries, d.close, ColumnAfter(column, d.gap) + 1, norm);
  }

  lemma {:induction false} TableInside(items: seq<DocEntry>, entries: seq<Entry>, close: Text, column: int, norm: Text -> Text)
    requires ShowsEntries(items, entries) && (forall i :: 0 <= i < |entries| ==> FitsEntry(entries[i], norm))
    requires EntriesSpaced(items) && DistinctKeys(entries) && AllWs(close)
    ensures EntriesOk(items, true, column) && EntriesClose(items, close, true)
    ensures EntryValues(items, [], norm) == RereadEntries(entries)
    decreases entries, 1
  {
    assert [] + entries == entries && [] + RereadEntries(entries) == RereadEntries(entries);
    EntriesShown(items, entries, [], true, column, norm);
    WsFiller(close);
  }

  lemma {:induction false} ItemsShown(items: seq<Doc>, elements: seq<Value>, first: bool, column: int, norm: Text -> Text)
    requires ShowsAll(items, elements) && (forall i :: 0 <= i < |elements| ==> Fits(elements[i], norm))
    requires forall i :: 0 <= i < |items| ==> Spaced(items[i], first && i == 0)
    ensures ItemsOk(items, first, column) && ItemValues(items, norm) == RereadAll(elements)
    ensures items != [] ==> Tame(items[|items| - 1])
    decreases elements, 0
  {
    if items != [] {
      ValueShown(items[0], elements[0], first, column, norm);
      assert ShowsAll(items[1..], elements[1..]);
      ItemsShown(items[1..], elements[1..], false, DocColumn(items[0], column), norm);
    }
  }

  /** A key that is not yet in a table is added at its end. */
  lemma {:induction false} NewKey(before: seq<Entry>, e: Entry, norm: Text -> Text)
    requires e.key == norm(e.keyOrig) && forall i :: 0 <= i < |before| ==> before[i].key != e.key
    ensures SetItem(before, norm, e.keyOrig, e.value) == before + [e]
  {
  }

  lemma {:induction false} EntriesShown(items: seq<DocEntry>, entries: seq<Entry>, before: seq<Entry>, first: bool, column: int,
                                         norm: Text -> Text)
    requires ShowsEntries(items, entries) && (forall i :: 0 <= i < |entries| ==> FitsEntry(entries[i], norm))
    requires forall i :: 0 <= i < |items| ==> GapOk(items[i].gap, first && i == 0) && Spaced(items[i].value, true)
    requires DistinctKeys(before + entries)
    ensures EntriesOk(items, first, column) && EntryValues(items, before, norm) == before + RereadEntries(entries)
    ensures items != [] ==> Tame(items[|items| - 1].value)
    decreases entries, 0
  {
    if items == [] {
      assert before + [] == before;
    } else {
      var e := entries[0];
      var c := KeyColumn(items[0], column);
      GapIsSpace(items[0].gap, first);
      EntryShown(items[0], e, c, norm);
      var e' := Entry(e.key, e.keyOrig, Reread(e.value));
      KeysKept(before, entries, e');
      NewKey(before, e', norm);
      EntriesShown(items[1..], entries[1..], before + [e'], false, DocColumn(items[0].value, c), norm);
      RereadFirst(before, entries);
    }
  }

  lemma {:induction false} RereadFirst(before: seq<Entry>, entries: seq<Entry>)
    requires entries != []
    ensures var e := entries[0];
      before + [Entry(e.key, e.keyOrig, Reread(e.value))] + RereadEntries(entries[1..]) == before + RereadEntries(entries)
  {
    var e := entries[0];
    var e' := Entry(e.key, e.keyOrig, Reread(e.value));
    assert before + [e'] + RereadEntries(entries[1..]) == before + ([e'] + RereadEntries(entries[1..]));
  }

  lemma {:induction false} KeysKept(before: seq<Entry>, entries: seq<Entry>, e': Entry)
    requires entries != [] && DistinctKeys(before + entries) && e'.key == entries[0].key
    ensures DistinctKeys(before + [e'] + entries[1..])
    ensures forall i :: 0 <= i < |before| ==> before[i].key != e'.key
  {
    var a, b := before + entries, before + [e'] + entries[1..];
    assert forall i :: 0 <= i < |b| ==> b[i].key == a[i].key;
    assert forall i :: 0 <= i < |before| ==> a[i].key == before[i].key;
    assert a[|before|].key == e'.key;
  }

  lemma {:induction false} EntryShown(item: DocEntry, e: Entry, column: int, norm: Text -> Text)
    requires ShowsEntries([item], [e]) && FitsEntry(e, norm) && Spaced(item.value, true)
    ensures QuotationOk(item.key) && item.key.text == e.keyOrig
    ensures LayoutOk(item.value, true, column) && Tame(item.value) && ValueOf(item.value, norm) == Reread(e.value)
    decreases e, 2
  {
    assert [item][0] == item && [e][0] == e;
    StringShown(DQuoted([], item.key), e.keyOrig, true, true, column, norm);
    ValueShown(item.value, e.value, true, column, norm);
  }

  /**
   The round trip: whatever white space the writer puts between tokens,
   reading what it printed for a value gives exactly Reread of that value and
   stops exactly at its end.  When overlong lines are not let pass, that is so
   exactly if no line that ends within the printed value is overlong.
   */
  lemma {:induction false} RoundTrip(d: Doc, v: Value, after: Text, line: nat, column: int, adjacent: bool,
                                     norm: Text -> Text, lenient: bool)
    requires Shows(d, v) && Spaced(d, adjacent) && Fits(v, norm) && Ends(after)
    ensures ReadsIf(lenient || DocWithin(d, column), Parser.ReadValue(Chars(d) + after, line, column, adjacent, norm, lenient),
                    Reread(v), after, DocColumn(d, column))
  {
    ValueShown(d, v, adjacent, column, norm);
    EndsFollow(d, after);
    DocRead(d, after, line, column, adjacent, norm, lenient);
  }

  lemma {:induction false} FitsPlain(v: Value, norm: Text -> Text)
    requires Fits(v, norm)
    ensures Plain(v)
  {
    match v {
      case Char(t, _) => CleanHasNoNul(t, 0);
      case Numb(t, quoted, _) => if quoted { CleanHasNoNul(t, 0); } else { NumberText.NumberIsBare(t); SolidHasNoCr(t); }
      case List(elements) =>
        forall i | 0 <= i < |elements| ensures Plain(elements[i]) { FitsPlain(elements[i], norm); }
      case Table(entries) =>
        forall i | 0 <= i < |entries| ensures PlainEntry(entries[i]) {
          assert FitsEntry(entries[i], norm);
          CleanHasNoNul(entries[i].keyOrig, 0);
          FitsPlain(entries[i].value, norm);
        }
      case _ =>
    }
  }

  lemma {:induction false} SolidHasNoCr(t: Text)
    requires Solid(t)
    ensures NoCr(t)
  {
    forall i | 0 <= i < |t| ensures t[i] != CR { assert Lexer.MetaOf(t[i]) in {Lexer.GeneralMeta, Lexer.NoMeta}; }
  }

  /**
   Writing a value and reading back what has been written: if the writer
   reports success, which it does exactly if there is a column for the value
   to end at, the value read is Reread of the one written, wherever the
   text is read and whatever follows it, unless the reader does not let
   overlong lines pass and meets one.
   */
  method WriteThenRead(w: Writer, v: Value, ghost norm: Text -> Text, ghost after: Text, ghost line: nat, ghost column: int,
                       ghost adjacent: bool, ghost lenient: bool)
    returns (code: int, ghost d: Doc)
    requires Fits(v, norm) && Ends(after)
    requires adjacent || (w.separate && w.lastColumn > 0)
    modifies w
    ensures code == CIF_OK ==> w.out == old(w.out) + Chars(d)
    ensures code == CIF_OK ==>
      ReadsIf(lenient || DocWithin(d, column), Parser.ReadValue(Chars(d) + after, line, column, adjacent, norm, lenient),
              Reread(v), after, DocColumn(d, column))
    ensures code == CIF_OK <==> ItemColumn(v, old(w.lastColumn), old(w.separate), w.asserts).Some?
  {
    FitsPlain(v, norm);
    code, d := w.WriteItem(v);
    if code == CIF_OK {
      RoundTrip(d, v, after, line, column, adjacent, norm, lenient);
    }
  }

  // Which strings and values come back unchanged

  /** Exactly these strings come back as they were, with the same quoting. */
  predicate StringReturns(t: Text, quoted: bool) {
    && (quoted || (CanBeBare(t) && |t| <= LINE_LENGTH))
    && (Preferred(t, !quoted, true, LINE_LENGTH) == Delimiter.Field && (FoldFor(t) || PrefixFor(t)) ==>
          t == [] || t[|t| - 1] != NL)
  }

  lemma {:induction false} StringReturnsExactly(t: Text, quoted: bool)
    ensures RereadString(t, quoted) == Char(t, quoted) <==> StringReturns(t, quoted)
  {
  }

  predicate Returns(v: Value) {
    match v
    case Char(t, quoted) => StringReturns(t, quoted)
    case Numb(_, _, _) => false
    case List(elements) => forall i :: 0 <= i < |elements| ==> Returns(elements[i])
    case Table(entries) => forall i :: 0 <= i < |entries| ==> Returns(entries[i].value)
    case _ => true
  }

  lemma {:induction false} RereadAt(elements: seq<Value>, i: nat)
    requires i < |elements|
    ensures |RereadAll(elements)| == |elements| && RereadAll(elements)[i] == Reread(elements[i])
  {
    if |elements| > 1 { RereadAt(elements[1..], if i > 0 then i - 1 else 0); }
  }

  lemma {:induction false} RereadEntryAt(entries: seq<Entry>, i: nat)
    requires i < |entries|
    ensures |RereadEntries(entries)| == |entries|
    ensures RereadEntries(entries)[i] == Entry(entries[i].key, entries[i].keyOrig, Reread(entries[i].value))
  {
    if |entries| > 1 { RereadEntryAt(entries[1..], if i > 0 then i - 1 else 0); }
  }

  /** A value without numbers comes back identical if and only if each of its strings does. */
  lemma {:induction false} ReturnsExactly(v: Value)
    ensures Reread(v) == v <==> Returns(v)
  {
    match v {
      case Char(t, quoted) => StringReturnsExactly(t, quoted);
      case List(elements) =>
        forall i | 0 <= i < |elements| ensures Reread(elements[i]) == elements[i] <==> Returns(elements[i]) {
          ReturnsExactly(elements[i]);
        }
        ListReturns(elements);
      case Table(entries) =>
        forall i | 0 <= i < |entries|
          ensures Reread(entries[i].value) == entries[i].value <==> Returns(entries[i].value)
        {
          ReturnsExactly(entries[i].value);
        }
        TableReturns(entries);
      case _ =>
    }
  }

  /**
   A printed value is read back identical exactly if each of its strings
   returns, it contains no number, and, when overlong lines are not let pass,
   no line that ends within it is overlong.
   */
  lemma {:induction false} ReadsIdentical(d: Doc, v: Value, after: Text, line: nat, column: int, adjacent: bool,
                                          norm: Text -> Text, lenient: bool)
    requires Shows(d, v) && Spaced(d, adjacent) && Fits(v, norm) && Ends(after)
    ensures Reads(Parser.ReadValue(Chars(d) + after, line, column, adjacent, norm, lenient), v, after)
       <==> Returns(v) && (lenient || DocWithin(d, column))
  {
    RoundTrip(d, v, after, line, column, adjacent, norm, lenient);
    ReturnsExactly(v);
  }

  lemma {:induction false} ListReturns(elements: seq<Value>)
    ensures RereadAll(elements) == elements <==> forall i :: 0 <= i < |elements| ==> Reread(elements[i]) == elements[i]
  {
    forall i | 0 <= i < |elements| ensures |RereadAll(elements)| == |elements| && RereadAll(elements)[i] == Reread(elements[i]) {
      RereadAt(elements, i);
    }
    if forall i :: 0 <= i < |elements| ==> Reread(elements[i]) == elements[i] {
      assert |RereadAll(elements)| == |elements|;
    }
  }

  lemma {:induction false} TableReturns(entries: seq<Entry>)
    ensures RereadEntries(entries) == entries
       <==> forall i :: 0 <= i < |entries| ==> Reread(entries[i].value) == entries[i].value
  {
    forall i | 0 <= i < |entries|
      ensures |RereadEntries(entries)| == |entries|
      ensures RereadEntries(entries)[i] == Entry(entries[i].key, entries[i].keyOrig, Reread(entries[i].value))
    {
      RereadEntryAt(entries, i);
    }
    if forall i :: 0 <= i < |entries| ==> Reread(entries[i].value) == entries[i].value {
      assert |RereadEntries(entries)| == |entries|;
    }
  }

  // The text field that ends early

  lemma {:induction false} EarlyChars(x: Text, after: Text)
    ensures var u := x + [NL, SEMI] + after; var inner := [BSL] + [NL, SEMI] + u;
      && [SEMI] + ([BSL, NL, SEMI] + x) + [NL, SEMI] + after == [SEMI] + inner
      && ([SEMI] + inner)[1..] == inner && ([SEMI] + inner)[1..2] == [BSL] && ([SEMI] + inner)[4..] == u
  {
  }

  /** The token that the scanner finds in the failing case. */
  lemma {:induction false} EarlyToken(u: Text, line: nat) returns (t: Lexer.Token)
    ensures Lexer.NextToken([SEMI] + ([BSL] + [NL, SEMI] + u), line, 0, true, true) == Ok(t)
    ensures t.kind in {Lexer.TValue, Lexer.TKey} && t.value == [BSL]
  {
    AsciiClean([BSL], []);
    assert [BSL] + [] == [BSL];
    FieldScanned(Lexer.Start(line, 1), [BSL], Lf, u, true);
    var input := [SEMI] + ([BSL] + [NL, SEMI] + u);
    FieldFirst(input, line, true);
    assert input[1..] == [BSL] + [NL, SEMI] + u;
    assert input[1..2] == [BSL];
    t := Lexer.NextToken(input, line, 0, true, true).value;
  }

  /** The failing case: only the fold mark is read, as an empty string, or else as a key. */
  lemma {:induction false} BrokenField(x: Text, gap: Text, after: Text, line: nat, column: int, adjacent: bool,
                                       norm: Text -> Text, lenient: bool)
    requires GapOk(gap, adjacent) && gap != [] && gap[|gap| - 1] == NL
    ensures var d := DField(gap, [BSL, NL, SEMI] + x, Lf);
      var r := Parser.ReadValue(Chars(d) + after, line, column, adjacent, norm, lenient);
      r.Ok? ==> r.value.value == Char([], true)
  {
    var input := Chars(DField(gap, [BSL, NL, SEMI] + x, Lf)) + after;
    GapIsSpace(gap, adjacent);
    var l := DocStarts(gap, [SEMI] + ([BSL, NL, SEMI] + x) + [NL, SEMI], after, line, column, adjacent, true);
    ColumnAfterEol(column, gap);
    EarlyChars(x, after);
    var t := EarlyToken(x + [NL, SEMI] + after, l);
    HeaderOnly();
    EarlyValue(t, norm);
    assert Parser.ReadValue(input, line, column, adjacent, norm, true) == Parser.ParseValue(t, norm, true);
    if !lenient { LineLimit.ReadStrict(input, line, column, adjacent, norm); }
  }

  lemma {:induction false} EarlyValue(t: Lexer.Token, norm: Text -> Text)
    requires t.kind in {Lexer.TValue, Lexer.TKey} && TextDecoder.Decode(t.value, true, true) == []
    ensures var r := Parser.ParseValue(t, norm, true); r.Ok? ==> r.value.value == Char([], true)
  {
  }

  /** The contents of a field that consist of a fold mark alone. */
  lemma {:induction false} HeaderOnly()
    ensures TextDecoder.Decode([BSL], true, true) == []
  {
    TextFieldRoundTrip.HeaderAnnounces(true, false);
    assert TextFieldWriter.Header(true, false)[2..] == [BSL];
    TextDecoder.FirstEolIs([BSL], 1);
    assert [BSL][..1] == [BSL] && [BSL][1..] == [];
  }

  /**
   A string written as a text field is read back exactly when it is not the
   case that it starts with a semicolon and is folded without a prefix, and,
   if overlong lines are not let pass, no line of the field or of the white
   space before it is overlong.
   */
  lemma {:induction false} FieldRoundTrip(d: Doc, t: Text, quoted: bool, after: Text, line: nat, column: int, adjacent: bool,
                                          norm: Text -> Text, lenient: bool)
    requires ShowsString(d, t, quoted) && d.DField? && Spaced(d, adjacent) && Clean(t) && NoCr(t) && Ends(after)
    ensures Reads(Parser.ReadValue(Chars(d) + after, line, column, adjacent, norm, lenient), RereadString(t, quoted), after)
       <==> !FieldBreaks(t) && (lenient || (Within(column, d.gap, LINE_LENGTH) && FieldWithin(d.content)))
  {
    if FieldBreaks(t) {
      var x := BrokenContent(t, d.content);
      BrokenField(x, d.gap, after, line, column, adjacent, norm, lenient);
    } else {
      StringRoundTrip(d, t, quoted, after, line, column, adjacent, norm, lenient);
    }
  }

  lemma {:induction false} StringRoundTrip(d: Doc, t: Text, quoted: bool, after: Text, line: nat, column: int, adjacent: bool,
                                           norm: Text -> Text, lenient: bool)
    requires ShowsString(d, t, quoted) && Spaced(d, adjacent) && StringFits(t, quoted) && Ends(after)
    ensures ReadsIf(lenient || DocWithin(d, column), Parser.ReadValue(Chars(d) + after, line, column, adjacent, norm, lenient),
                    RereadString(t, quoted), after, DocColumn(d, column))
  {
    RoundTrip(d, Char(t, quoted), after, line, column, adjacent, norm, lenient);
  }

  lemma {:induction false} BrokenContent(t: Text, content: Text) returns (x: Text)
    requires t != [] && t[0] == SEMI && TextFieldWriter.Content(t, true, false) == Some(content)
    ensures content == [BSL, NL, SEMI] + x && Chomp(t) != []
  {
    TextFieldRoundTrip.EarlyDelimiter(t);
    var b := TextFieldWriter.Body(t, true, false).value;
    assert TextFieldWriter.Header(true, false)[2..] == [BSL];
    x := b[2..];
  }
}
