/**
 The value-writing functions: they append characters to the output and keep
 track of the column.  Each returns, as a ghost, the layout it has written.
 */
module ValueWriter {
  import opened Units
  import opened Wrappers
  import opened Values
  import opened ValueLayout
  import opened StringAnalysis
  import opened TokenRoundTrip
  import opened WriterColumns
  import opened WriterLines
  import TextFieldWriter

  const CIF_OK := 0
  const CIF_ERROR := 2
  const CIF_INTERNAL_ERROR := 5
  const CIF_OVERLENGTH_LINE := 108
  const CIF_DISALLOWED_VALUE := 62

  /** Not a code that the functions return: a failed assertion has ended the program. */
  const ABORTED := -1

  // What is written for a value

  ghost predicate ShowsString(d: Doc, t: Text, quoted: bool) {
    match Preferred(t, !quoted, true, LINE_LENGTH)
    case Bare => d.DBare? && d.text == t
    case Quoted(q) => d.DQuoted? && d.quotation == Quotation(q, false, t)
    case Tripled(q) => d.DQuoted? && d.quotation == Quotation(q, true, t)
    case Field => d.DField? && t != [] && TextFieldWriter.Content(t, FoldFor(t), PrefixFor(t)) == Some(d.content)
  }

  ghost predicate Shows(d: Doc, v: Value)
    decreases v, 1
  {
    match v
    case Unknown => d.DBare? && d.text == [QUERY]
    case NotApplicable => d.DBare? && d.text == [DOT]
    case Char(t, quoted) => ShowsString(d, t, quoted)
    case Numb(t, quoted, _) => if quoted then ShowsString(d, t, true) else d.DBare? && d.text == t
    case List(elements) => d.DList? && ShowsAll(d.items, elements)
    case Table(entries) => d.DTable? && ShowsEntries(d.entries, entries)
  }

  ghost predicate ShowsAll(items: seq<Doc>, elements: seq<Value>)
    decreases elements, 0
  {
    && |items| == |elements|
    && forall i :: 0 <= i < |items| ==> Shows(items[i], elements[i])
  }

  ghost predicate ShowsEntries(items: seq<DocEntry>, entries: seq<Entry>)
    decreases entries, 0
  {
    && |items| == |entries|
    && forall i :: 0 <= i < |items| ==>
         && ShowsString(DQuoted([], items[i].key), entries[i].keyOrig, true)
         && Shows(items[i].value, entries[i].value)
  }

  // White space

  /** White space wherever it is needed, and a newline before every text field. */
  predicate Spaced(d: Doc, adjacent: bool) {
    && GapOk(d.gap, adjacent)
    && (d.DField? ==> d.gap != [] && d.gap[|d.gap| - 1] == NL && d.end == Lf)
    && (d.DList? ==> AllWs(d.close) && ItemsSpaced(d.items))
    && (d.DTable? ==> AllWs(d.close) && EntriesSpaced(d.entries))
  }

  predicate ItemsSpaced(items: seq<Doc>) {
    forall i :: 0 <= i < |items| ==> Spaced(items[i], i == 0)
  }

  predicate EntriesSpaced(items: seq<DocEntry>) {
    forall i :: 0 <= i < |items| ==> GapOk(items[i].gap, i == 0) && Spaced(items[i].value, true)
  }

  /** More white space in front. */
  function Regap(gap: Text, d: Doc): Doc {
    d.(gap := gap + d.gap)
  }

  lemma {:induction false} RegapChars(gap: Text, d: Doc)
    ensures Chars(Regap(gap, d)) == gap + Chars(d)
  {
    Associative(gap, d.gap, Chars(d)[|d.gap|..]);
    assert Chars(d) == d.gap + Chars(d)[|d.gap|..];
  }

  lemma {:induction false} RegapKeeps(gap: Text, d: Doc, v: Value, adjacent: bool)
    requires AllWs(gap) && Spaced(d, true) && (adjacent || gap != [])
    ensures Spaced(Regap(gap, d), adjacent)
    ensures Shows(d, v) ==> Shows(Regap(gap, d), v)
  {
  }

  /** A layout behind some text and white space, as one behind the text. */
  lemma {:induction false} Regapped(before: Text, gap: Text, d: Doc, v: Value, adjacent: bool) returns (d': Doc)
    requires AllWs(gap) && Spaced(d, true) && (adjacent || gap != []) && Shows(d, v)
    ensures before + gap + Chars(d) == before + Chars(d') && Spaced(d', adjacent) && Shows(d', v)
  {
    d' := Regap(gap, d);
    RegapChars(gap, d);
    RegapKeeps(gap, d, v, adjacent);
    Associative(before, gap, Chars(d));
  }

  lemma {:induction false} ItemCharsAppend(items: seq<Doc>, d: Doc)
    ensures ItemChars(items + [d]) == ItemChars(items) + Chars(d)
  {
    if items == [] {
      assert [d][1..] == [];
    } else {
      assert (items + [d])[1..] == items[1..] + [d];
      ItemCharsAppend(items[1..], d);
    }
  }

  lemma {:induction false} EntryCharsAppend(items: seq<DocEntry>, e: DocEntry)
    ensures EntryChars(items + [e]) == EntryChars(items) + OneEntryChars(e)
  {
    if items == [] {
      assert [e][1..] == [];
    } else {
      assert (items + [e])[1..] == items[1..] + [e];
      EntryCharsAppend(items[1..], e);
    }
  }

  /** The write context. */
  class Writer {
    var out: Text
    var lastColumn: nat
    var separate: bool
    /** are assertions compiled in? */
    const asserts: bool

    constructor (asserts: bool)
      ensures out == [] && lastColumn == 0 && !separate && this.asserts == asserts && Fits()
    {
      out, lastColumn, separate, this.asserts := [], 0, false, asserts;
    }

    method WriteNewline()
      modifies this
      ensures out == old(out) + [NL] && lastColumn == 0 && separate == old(separate)
      ensures old(Fits()) ==> Fits()
    {
      if Fits() { NewlineFits(out, lastColumn); }
      out, lastColumn := out + [NL], 0;
    }

    /** write_literal and write_uliteral: the number of units written, or the negative of an error code. */
    method WriteLiteral(text: Text, wrap: bool) returns (n: int)
      modifies this
      ensures var wraps := |text| + old(lastColumn) > LINE_LENGTH;
        && n == (if text != [] && wraps && !wrap then -CIF_OVERLENGTH_LINE else |text|)
        && out == old(out) + (if n <= 0 then [] else (if wraps then [NL] else []) + text)
        && lastColumn == (if n <= 0 then old(lastColumn) else (if wraps then 0 else old(lastColumn)) + |text|)
      ensures separate == old(separate)
      ensures old(Fits()) && |text| <= LINE_LENGTH ==> Fits()
    {
      n := |text|;
      if |text| > 0 {
        if |text| + lastColumn > LINE_LENGTH {
          if wrap {
            WriteNewline();
          } else {
            return -CIF_OVERLENGTH_LINE;
          }
        }
        if Fits() && |text| <= LINE_LENGTH { TokenFits(out, lastColumn, text); }
        out, lastColumn := out + text, lastColumn + |text|;
      }
    }

    /** ENSURE_SPACED */
    method EnsureSpaced() returns (ghost gap: Text)
      modifies this
      ensures out == old(out) + gap && AllWs(gap) && (gap == [] <==> old(lastColumn) <= 0)
      ensures separate == old(separate) && lastColumn == SpacedColumn(old(lastColumn))
      ensures old(Fits()) ==> Fits()
    {
      gap := [];
      if lastColumn > 0 {
        var n := WriteLiteral([SP], false);
        gap := [SP];
        if n == -CIF_OVERLENGTH_LINE {
          WriteNewline();
          gap := [NL];
        }
      }
    }

    /** A literal token, preceded by a newline if it does not fit in the line. */
    method WriteToken(text: Text, wrap: bool) returns (n: int, ghost gap: Text)
      requires text != []
      modifies this
      ensures var c := TokenColumn(|text|, old(lastColumn), wrap);
        if c.Some? then n == |text| && lastColumn == c.value else n == -CIF_OVERLENGTH_LINE
      ensures n == |text| ==> out == old(out) + gap + text && AllWs(gap)
      ensures separate == old(separate)
      ensures old(Fits()) && |text| <= LINE_LENGTH ==> Fits()
    {
      gap := if |text| + lastColumn > LINE_LENGTH then [NL] else [];
      n := WriteLiteral(text, wrap);
    }

    /** write_quoted */
    method WriteQuoted(text: Text, delim: Unit) returns (ghost gap: Text)
      modifies this
      ensures out == old(out) + gap + QuotedChars(Quotation(delim, false, text)) && AllWs(gap)
      ensures separate == old(separate) && lastColumn == QuotedColumn(|text|, old(lastColumn))
      ensures old(Fits()) && |text| + 2 <= LINE_LENGTH ==> Fits()
    {
      gap := [];
      if lastColumn + |text| + 2 > LINE_LENGTH {
        WriteNewline();
        gap := [NL];
      }
      if Fits() && |text| + 2 <= LINE_LENGTH { TokenFits(out, lastColumn, [delim] + text + [delim]); }
      out, lastColumn := out + ([delim] + text + [delim]), lastColumn + |text| + 2;
    }

    /**
     write_triple_quoted.  Where the unit tested after the first line is
     outside the string, the outcome of the test, and of the assertion about
     it, is left open.
     */
    method WriteTripleQuoted(text: Text, line1Length: nat, lastLength: nat, delim: Unit) returns (code: int, ghost gap: Text)
      requires line1Length == LineEnd(text) + 3 && lastLength == LastRun(text, false)
      modifies this
      ensures Reports(code, TripledColumn(text, old(lastColumn), asserts))
      ensures code != ABORTED ==> out == old(out) + gap + QuotedChars(Quotation(delim, true, text)) && AllWs(gap)
      ensures code == ABORTED ==> asserts && out == old(out)
      ensures separate == old(separate)
      ensures code == CIF_OK && old(Fits()) && delim != NL && ShortLines(text) ==> Fits()
    {
      var column := lastColumn;
      ghost var column0 := lastColumn;
      gap := [];
      if lastColumn + line1Length + 3 > LINE_LENGTH {
        WriteNewline();
        gap, column, column0 := [NL], 0, 0;
      } else if line1Length <= |text| {
        if line1Length < |text| {
          if asserts && text[line1Length] != NL { return ABORTED, gap; }
          column := 0;
        }
      } else if * {
        if asserts {
          if * { return ABORTED, gap; }
        }
        column := 0;
      }
      var marks := [delim, delim, delim];
      if LinesFit(out, column0) && delim != NL && ShortLines(text) && line1Length <= |text| {
        TripledFits(out, column0, marks, text);
      }
      out, lastColumn := out + (marks + text + marks), column + lastLength + 3;
      code := if |text| + 6 >= line1Length + 6 then CIF_OK else CIF_ERROR;
    }

    /** Writes a text field with the protocols that write_char chooses. */
    method WriteField(text: Text, fold: bool, prefix: bool) returns (code: int, ghost content: Text)
      requires text != [] && NoNul(text)
      modifies this
      ensures code == CIF_OK ==> TextFieldWriter.Content(text, fold, prefix) == Some(content)
      ensures code == CIF_OK ==> out == old(out) + [NL] + ([SEMI] + content + [NL, SEMI]) && lastColumn == 1
      ensures code != CIF_OK ==> TextFieldWriter.Content(text, fold, prefix) == None
      ensures separate == old(separate)
      ensures code == CIF_OK && old(Fits()) && FieldFits(TextFieldWriter.Content(text, fold, prefix)) ==> Fits()
    {
      var buffer := new Unit[|text| + 1](i requires 0 <= i <= |text| => if i < |text| then text[i] else NUL);
      var ok, written := TextFieldWriter.WriteText(buffer, fold, prefix, text);
      content := [];
      if !ok {
        return CIF_INTERNAL_ERROR, content;
      }
      content := TextFieldWriter.Content(text, fold, prefix).value;
      assert written == [NL] + ([SEMI] + content + [NL, SEMI]);
      Associative(out, [NL], [SEMI] + content + [NL, SEMI]);
      if Fits() && FieldFits(Some(content)) { TextFieldFits(out, lastColumn, content); }
      out, lastColumn := out + written, 1;
      code := CIF_OK;
    }

    /** write_unquoted, given the text's length. */
    method WriteUnquoted(text: Text, wrap: bool) returns (code: int, ghost d: Doc)
      requires text != []
      modifies this
      ensures Reports(code, TokenColumn(|text|, old(lastColumn), wrap))
      ensures code == CIF_OK ==> out == old(out) + Chars(d) && d.DBare? && d.text == text && Spaced(d, true)
      ensures separate == old(separate)
      ensures old(Fits()) && |text| <= LINE_LENGTH ==> Fits()
    {
      var n;
      ghost var gap;
      n, gap := WriteToken(text, wrap);
      code := if n < 0 then -n else if n == |text| then CIF_OK else CIF_ERROR;
      d := DBare(gap, text);
      Associative(old(out), gap, text);
    }

    /** The quoted forms of write_char. */
    method WriteQuotation(text: Text, delim: Delimiter, lengthFirst: nat, lengthLast: nat) returns (code: int, ghost d: Doc)
      requires delim.Quoted? || delim.Tripled?
      requires lengthFirst == LineEnd(text) && lengthLast == LastRun(text, false)
      modifies this
      ensures Reports(code, if delim.Quoted? then Some(QuotedColumn(|text|, old(lastColumn)))
                            else TripledColumn(text, old(lastColumn), asserts))
      ensures code == CIF_OK ==> out == old(out) + Chars(d) && Spaced(d, true)
      ensures code == CIF_OK ==> d.DQuoted? && d.quotation == Quotation(delim.quote, delim.Tripled?, text)
      ensures separate == old(separate)
      ensures code == CIF_OK && old(Fits()) && delim.quote != NL ==>
        (if delim.Quoted? then |text| + 2 <= LINE_LENGTH else ShortLines(text)) ==> Fits()
    {
      ghost var gap;
      if delim.Quoted? {
        gap := WriteQuoted(text, delim.quote);
        code := CIF_OK;
      } else {
        code, gap := WriteTripleQuoted(text, lengthFirst + 3, lengthLast, delim.quote);
      }
      d := DQuoted(gap, Quotation(delim.quote, delim.Tripled?, text));
      Associative(old(out), gap, QuotedChars(d.quotation));
    }

    /** The text-field form of write_char. */
    method WriteTextField(text: Text, fold: bool, prefix: bool) returns (code: int, ghost d: Doc)
      requires text != [] && NoNul(text)
      modifies this
      ensures code == CIF_OK ==> out == old(out) + Chars(d) && Spaced(d, true)
      ensures code == CIF_OK ==> d.DField? && TextFieldWriter.Content(text, fold, prefix) == Some(d.content)
      ensures Reports(code, if TextFieldWriter.Content(text, fold, prefix).Some? then Some(1) else None)
      ensures separate == old(separate)
      ensures code == CIF_OK && old(Fits()) && FieldFits(TextFieldWriter.Content(text, fold, prefix)) ==> Fits()
    {
      ghost var content;
      code, content := WriteField(text, fold, prefix);
      d := DField([NL], content, Lf);
      Associative(old(out), [NL], [SEMI] + content + [NL, SEMI]);
    }

    /** write_char */
    method WriteChar(text: Text, quoted: bool, allowText: bool) returns (code: int, ghost d: Doc)
      requires NoNul(text) && NoCr(text)
      modifies this
      ensures Reports(code, CharColumn(text, quoted, allowText, old(lastColumn), asserts))
      ensures code == CIF_OK ==> out == old(out) + Chars(d) && ShowsString(d, text, quoted) && Spaced(d, true)
      ensures code == CIF_OK && quoted && !allowText ==> d.DQuoted?
      ensures separate == old(separate)
      ensures code == CIF_OK && old(Fits()) && (allowText ==> StringInLines(text, quoted)) ==> Fits()
    {
      var a := AnalyzeString(text, !quoted, true, LINE_LENGTH);
      FormFits(text, quoted);
      match a.delim {
        case Bare =>
          code, d := WriteUnquoted(text, true);
        case Quoted(_) =>
          code, d := WriteQuotation(text, a.delim, a.lengthFirst, a.lengthLast);
        case Tripled(_) =>
          code, d := WriteQuotation(text, a.delim, a.lengthFirst, a.lengthLast);
        case Field =>
          FieldNotEmpty(text, quoted);
          if !allowText {
            return CIF_DISALLOWED_VALUE, DBare([], text);
          }
          code, d := WriteTextField(text,
            a.lengthFirst >= LINE_LENGTH || a.lengthMax > LINE_LENGTH || a.hasReservedStart
              || a.maxSemiRun >= LINE_LENGTH - 1,
            a.containsTextDelim);
      }
    }

    /** write_numb */
    method WriteNumb(text: Text, quoted: bool) returns (code: int, ghost d: Doc)
      requires NoNul(text) && NoCr(text)
      modifies this
      ensures code == CIF_OK ==> out == old(out) + Chars(d) && Spaced(d, true)
      ensures code == CIF_OK ==> if quoted then ShowsString(d, text, true) else d.DBare? && d.text == text
      ensures Reports(code, NumbColumn(text, quoted, old(lastColumn), old(separate), asserts))
      ensures separate == old(separate)
      ensures code == CIF_OK && old(Fits()) && (if quoted then StringInLines(text, true) else |text| <= LINE_LENGTH) ==> Fits()
    {
      d := DBare([], text);
      if quoted {
        code, d := WriteChar(text, true, true);
      } else if text == [] {
        code := CIF_ERROR;
      } else {
        code, d := WriteUnquoted(text, separate);
      }
    }

    /** write_item, without the item's name. */
    method WriteItem(v: Value) returns (code: int, ghost d: Doc)
      requires Plain(v)
      modifies this
      ensures Reports(code, ItemColumn(v, old(lastColumn), old(separate), asserts))
      ensures code == CIF_OK ==> out == old(out) + Chars(d) && Shows(d, v) && separate == old(separate)
      ensures code == CIF_OK ==> Spaced(d, !old(separate) || old(lastColumn) <= 0)
      ensures code == CIF_OK && old(Fits()) && ItemInLines(v) ==> Fits()
      decreases v, 2
    {
      ghost var gap := [];
      if separate {
        gap := EnsureSpaced();
      }
      code, d := WriteUnspaced(v);
      if code == CIF_OK {
        d := Regapped(old(out), gap, d, v, !old(separate) || old(lastColumn) <= 0);
      }
    }

    /** The part of write_item that depends on the kind of the value. */
    method WriteUnspaced(v: Value) returns (code: int, ghost d: Doc)
      requires Plain(v)
      modifies this
      ensures Reports(code, ValueColumn(v, old(lastColumn), old(separate), asserts))
      ensures code == CIF_OK ==> out == old(out) + Chars(d) && Shows(d, v) && Spaced(d, true) && separate == old(separate)
      ensures code == CIF_OK && old(Fits()) && ItemInLines(v) ==> Fits()
      decreases v, 1
    {
      match v {
        case Char(text, quoted) => code, d := WriteChar(text, quoted, true);
        case Numb(text, quoted, _) => code, d := WriteNumb(text, quoted);
        case List(elements) => code, d := WriteList(elements);
        case Table(entries) => code, d := WriteTable(entries);
        case NotApplicable => code, d := WriteUnquoted([DOT], true);
        case Unknown => code, d := WriteUnquoted([QUERY], true);
      }
    }

    /** write_list */
    method WriteList(elements: seq<Value>) returns (code: int, ghost d: Doc)
      requires forall i :: 0 <= i < |elements| ==> Plain(elements[i])
      modifies this
      ensures Reports(code, ValueColumn(List(elements), old(lastColumn), old(separate), asserts))
      ensures code == CIF_OK ==> out == old(out) + Chars(d) && Shows(d, List(elements)) && Spaced(d, true)
      ensures code == CIF_OK ==> separate == old(separate)
      ensures code == CIF_OK && old(Fits()) && ItemInLines(List(elements)) ==> Fits()
      decreases elements, 1
    {
      d := DBare([], []);
      var n;
      ghost var gap, close;
      ghost var items: seq<Doc> := [];
      n, gap := WriteToken([OBRAK], true);
      if n != 1 {
        return CIF_ERROR, d;
      }
      var save := separate;
      separate := true;
      code, items := WriteElements(elements);
      if code != CIF_OK {
        return;
      }
      n, close := WriteToken([SP, CBRAK], true);
      if n != 2 {
        return CIF_ERROR, d;
      }
      separate := save;
      d := DList(gap, items, close + [SP]);
      BracketedChars(old(out), gap, OBRAK, ItemChars(items), close, CBRAK);
    }

    /** The loop of write_list. */
    method WriteElements(elements: seq<Value>) returns (code: int, ghost items: seq<Doc>)
      requires (forall i :: 0 <= i < |elements| ==> Plain(elements[i])) && lastColumn > 0 && separate
      modifies this
      ensures Reports(code, ElementsColumn(elements, Some(old(lastColumn)), asserts))
      ensures code == CIF_OK ==> out == old(out) + ItemChars(items) && ShowsAll(items, elements) && ItemsSpaced(items)
      ensures code == CIF_OK ==> separate
      ensures code == CIF_OK && old(Fits()) && ItemInLines(List(elements)) ==> Fits()
      decreases elements, 0
    {
      items := [];
      code := CIF_OK;
      ghost var before, start, fit := out, Some(lastColumn), Fits() && ItemInLines(List(elements));
      var index := 0;
      while index < |elements|
        invariant 0 <= index <= |elements| && lastColumn > 0 && separate && code == CIF_OK
        invariant ElementsColumn(elements[..index], start, asserts) == Some(lastColumn)
        invariant out == before + ItemChars(items) && (fit ==> Fits())
        invariant ShowsAll(items, elements[..index]) && ItemsSpaced(items)
      {
        code, items := WriteNextElement(elements, index, items, before, start);
        if code != CIF_OK {
          return;
        }
        index := index + 1;
      }
      assert elements[..index] == elements;
    }

    /** One more element of a list. */
    method WriteNextElement(elements: seq<Value>, index: nat, ghost items0: seq<Doc>, ghost before: Text, ghost start: Option<nat>)
      returns (code: int, ghost items: seq<Doc>)
      requires index < |elements| && Plain(elements[index]) && lastColumn > 0 && separate && start.Some?
      requires ElementsColumn(elements[..index], start, asserts) == Some(lastColumn)
      requires out == before + ItemChars(items0) && ShowsAll(items0, elements[..index]) && ItemsSpaced(items0)
      modifies this
      ensures Reports(code, ElementsColumn(elements[..index + 1], start, asserts))
      ensures code != CIF_OK ==> ElementsColumn(elements, start, asserts).None?
      ensures code == CIF_OK ==>
        out == before + ItemChars(items) && ShowsAll(items, elements[..index + 1]) && ItemsSpaced(items) && separate
      ensures code == CIF_OK && old(Fits()) && ItemInLines(elements[index]) ==> Fits()
      decreases elements[index], 3
    {
      ghost var d, column := DBare([], []), lastColumn;
      code, d := WriteItem(elements[index]);
      ElementPlaced(elements, index, start, column, asserts);
      items := items0 + [d];
      if code == CIF_OK { ElementAdded(before, items0, elements, index, d); }
    }

    /** write_table */
    method WriteTable(entries: seq<Entry>) returns (code: int, ghost d: Doc)
      requires forall i :: 0 <= i < |entries| ==> PlainEntry(entries[i])
      modifies this
      ensures Reports(code, ValueColumn(Table(entries), old(lastColumn), old(separate), asserts))
      ensures code == CIF_OK ==> out == old(out) + Chars(d) && Shows(d, Table(entries)) && Spaced(d, true)
      ensures code == CIF_OK ==> separate == old(separate)
      ensures code == CIF_OK && old(Fits()) && ItemInLines(Table(entries)) ==> Fits()
      decreases entries, 1
    {
      d := DBare([], []);
      var n;
      ghost var gap, close;
      ghost var items: seq<DocEntry> := [];
      var save := separate;
      n, gap := WriteToken([OCURL], save);
      if n != 1 {
        return CIF_ERROR, d;
      }
      code, items := WriteEntries(entries);
      if code != CIF_OK {
        return;
      }
      n, close := WriteToken([SP, CCURL], true);
      if n != 2 {
        return CIF_ERROR, d;
      }
      separate := save;
      d := DTable(gap, items, close + [SP]);
      BracketedChars(old(out), gap, OCURL, EntryChars(items), close, CCURL);
    }

    /** The loop of write_table. */
    method WriteEntries(entries: seq<Entry>) returns (code: int, ghost items: seq<DocEntry>)
      requires (forall i :: 0 <= i < |entries| ==> PlainEntry(entries[i])) && lastColumn > 0
      modifies this
      ensures Reports(code, TableColumn(entries, Some(old(lastColumn)), asserts))
      ensures code == CIF_OK ==> out == old(out) + EntryChars(items) && ShowsEntries(items, entries) && EntriesSpaced(items)
      ensures code == CIF_OK && old(Fits()) && ItemInLines(Table(entries)) ==> Fits()
      decreases entries, 0
    {
      items := [];
      code := CIF_OK;
      var index := 0;
      while index < |entries|
        invariant 0 <= index <= |entries| && lastColumn > 0 && code == CIF_OK
        invariant TableColumn(entries[..index], Some(old(lastColumn)), asserts) == Some(lastColumn)
        invariant out == old(out) + EntryChars(items)
        invariant ShowsEntries(items, entries[..index]) && EntriesSpaced(items)
        invariant old(Fits()) && ItemInLines(Table(entries)) ==> Fits()
      {
        code, items := WriteNextEntry(entries, index, items, old(out), Some(old(lastColumn)));
        if code != CIF_OK {
          return;
        }
        index := index + 1;
      }
      assert entries[..index] == entries;
    }

    /** One more entry of a table. */
    method WriteNextEntry(entries: seq<Entry>, index: nat, ghost items0: seq<DocEntry>, ghost before: Text, ghost start: Option<nat>)
      returns (code: int, ghost items: seq<DocEntry>)
      requires index < |entries| && PlainEntry(entries[index]) && lastColumn > 0 && start.Some?
      requires TableColumn(entries[..index], start, asserts) == Some(lastColumn)
      requires out == before + EntryChars(items0) && ShowsEntries(items0, entries[..index]) && EntriesSpaced(items0)
      modifies this
      ensures Reports(code, TableColumn(entries[..index + 1], start, asserts))
      ensures code != CIF_OK ==> TableColumn(entries, start, asserts).None?
      ensures code == CIF_OK ==>
        out == before + EntryChars(items) && ShowsEntries(items, entries[..index + 1]) && EntriesSpaced(items)
      ensures code == CIF_OK && old(Fits()) && ItemInLines(entries[index].value) ==> Fits()
      decreases entries[index], 3
    {
      ghost var e, column := DocEntry([], Quotation(SQ, false, []), DBare([], [])), lastColumn;
      code, e := WriteEntry(entries[index], index == 0);
      EntryPlaced(entries, index, start, column, asserts);
      items := items0 + [e];
      if code == CIF_OK { EntryAdded(before, items0, entries, index, e); }
    }

    /** One turn of write_table's loop. */
    method WriteEntry(entry: Entry, ghost first: bool) returns (code: int, ghost e: DocEntry)
      requires PlainEntry(entry) && lastColumn > 0
      modifies this
      ensures Reports(code, EntryColumn(entry, old(lastColumn), asserts))
      ensures code == CIF_OK ==> out == old(out) + OneEntryChars(e) && ShowsEntries([e], [entry])
      ensures code == CIF_OK ==> GapOk(e.gap, first) && Spaced(e.value, true)
      ensures code == CIF_OK && old(Fits()) && ItemInLines(entry.value) ==> Fits()
      decreases entry, 2
    {
      ghost var d, v;
      e := DocEntry([], Quotation(SQ, false, []), DBare([], []));
      code, d := WriteKey(entry.keyOrig);
      if code != CIF_OK {
        return;
      }
      code, v := WriteItem(entry.value);
      if code != CIF_OK {
        return;
      }
      e := DocEntry(d.gap, d.quotation, v);
      Associative(old(out), Chars(d) + [COLON], Chars(v));
    }

    /** The white space before a key: a newline if the key does not fit in the line, or else as needed. */
    method SpaceKey(key: Text) returns (ghost gap: Text)
      requires lastColumn > 0
      modifies this
      ensures out == old(out) + gap && AllWs(gap) && gap != [] && !separate
      ensures lastColumn == SpacedColumn(if CodePoints(key) > LINE_LENGTH - (old(lastColumn) + 4) then 0 else old(lastColumn))
      ensures old(Fits()) ==> Fits()
    {
      gap := [];
      if CodePoints(key) > LINE_LENGTH - (lastColumn + 4) {
        WriteNewline();
        gap := [NL];
      }
      separate := false;
      ghost var more := EnsureSpaced();
      gap := gap + more;
    }

    /** A key and the white space before it. */
    method WriteSpacedKey(key: Text) returns (code: int, ghost d: Doc)
      requires NoNul(key) && NoCr(key) && lastColumn > 0
      modifies this
      ensures code == CIF_OK ==> out == old(out) + Chars(d) && d.DQuoted? && ShowsString(d, key, true)
      ensures code == CIF_OK ==> GapOk(d.gap, false) && !separate
      ensures var c := SpacedColumn(if CodePoints(key) > LINE_LENGTH - (old(lastColumn) + 4) then 0 else old(lastColumn));
        Reports(code, CharColumn(key, true, false, c, asserts))
      ensures code == CIF_OK && old(Fits()) ==> Fits()
    {
      ghost var gap := SpaceKey(key);
      code, d := WriteChar(key, true, false);
      if code == CIF_OK {
        RegapChars(gap, d);
        Associative(old(out), gap, Chars(d));
        d := Regap(gap, d);
      }
    }

    /** A key, the white space before it, and the colon after it. */
    method WriteKey(key: Text) returns (code: int, ghost d: Doc)
      requires NoNul(key) && NoCr(key) && lastColumn > 0
      modifies this
      ensures code == CIF_OK ==> out == old(out) + (Chars(d) + [COLON]) && d.DQuoted? && ShowsString(d, key, true)
      ensures code == CIF_OK ==> GapOk(d.gap, false) && !separate
      ensures Reports(code, WrittenKeyColumn(key, old(lastColumn), asserts))
      ensures code == CIF_OK && old(Fits()) ==> Fits()
    {
      code, d := WriteSpacedKey(key);
      if code != CIF_OK {
        return;
      }
      Associative(old(out), Chars(d), [COLON]);
      var n := WriteLiteral([COLON], false);
      code := if n != 1 then CIF_ERROR else CIF_OK;
    }

    /** No line written so far is too long. */
    ghost predicate Fits()
      reads this
    {
      LinesFit(out, lastColumn)
    }

    /** Success is reported exactly if there is a column to end at, and that is where the output ends. */
    ghost predicate Reports(code: int, column: Option<nat>)
      reads this
    {
      (code == CIF_OK <==> column.Some?) && (code == CIF_OK ==> lastColumn == column.value > 0)
    }
  }

  /** C strings without carriage returns throughout. */
  predicate Plain(v: Value) {
    match v
    case Char(text, _) => NoNul(text) && NoCr(text)
    case Numb(text, _, _) => NoNul(text) && NoCr(text)
    case List(elements) => forall i :: 0 <= i < |elements| ==> Plain(elements[i])
    case Table(entries) => forall i :: 0 <= i < |entries| ==> PlainEntry(entries[i])
    case _ => true
  }

  predicate PlainEntry(e: Entry) {
    NoNul(e.keyOrig) && NoCr(e.keyOrig) && Plain(e.value)
  }

  lemma {:induction false} BracketedChars(before: Text, gap: Text, open: Unit, inside: Text, close: Text, end: Unit)
    ensures before + gap + [open] + inside + close + [SP, end] == before + (gap + ([open] + inside + (close + [SP]) + [end]))
  {
  }

  lemma {:induction false} ShowsAllAppend(items: seq<Doc>, elements: seq<Value>, d: Doc, v: Value)
    requires ShowsAll(items, elements) && Shows(d, v)
    ensures ShowsAll(items + [d], elements + [v])
  {
  }

  /** One more element of a list. */
  lemma {:induction false} ElementAdded(before: Text, items: seq<Doc>, elements: seq<Value>, index: nat, d: Doc)
    requires index < |elements| && ShowsAll(items, elements[..index]) && ItemsSpaced(items)
    requires Shows(d, elements[index]) && Spaced(d, index == 0)
    ensures before + ItemChars(items) + Chars(d) == before + ItemChars(items + [d])
    ensures ShowsAll(items + [d], elements[..index + 1]) && ItemsSpaced(items + [d])
  {
    ItemCharsAppend(items, d);
    Associative(before, ItemChars(items), Chars(d));
    ShowsAllAppend(items, elements[..index], d, elements[index]);
    assert elements[..index + 1] == elements[..index] + [elements[index]];
  }

  lemma {:induction false} ElementPlaced(elements: seq<Value>, index: nat, start: Option<nat>, before: nat, asserts: bool)
    requires index < |elements| && ElementsColumn(elements[..index], start, asserts) == Some(before) && start.Some?
    ensures ElementsColumn(elements[..index + 1], start, asserts) == ItemColumn(elements[index], before, true, asserts)
    ensures ElementsColumn(elements[..index + 1], start, asserts).None? ==> ElementsColumn(elements, start, asserts).None?
  {
    assert elements[..index + 1][..index] == elements[..index];
    if ElementsColumn(elements[..index + 1], start, asserts).None? { ElementsFail(elements, index + 1, start, asserts); }
  }

  lemma {:induction false} ElementsFail(elements: seq<Value>, n: nat, start: Option<nat>, asserts: bool)
    requires n <= |elements| && ElementsColumn(elements[..n], start, asserts).None?
    ensures ElementsColumn(elements, start, asserts).None?
    decreases |elements|
  {
    if n == |elements| {
      assert elements[..n] == elements;
    } else {
      assert elements[..|elements| - 1][..n] == elements[..n];
      ElementsFail(elements[..|elements| - 1], n, start, asserts);
    }
  }

  lemma {:induction false} EntryPlaced(entries: seq<Entry>, index: nat, start: Option<nat>, before: nat, asserts: bool)
    requires index < |entries| && TableColumn(entries[..index], start, asserts) == Some(before) && start.Some?
    ensures TableColumn(entries[..index + 1], start, asserts) == EntryColumn(entries[index], before, asserts)
    ensures TableColumn(entries[..index + 1], start, asserts).None? ==> TableColumn(entries, start, asserts).None?
  {
    assert entries[..index + 1][..index] == entries[..index];
    if TableColumn(entries[..index + 1], start, asserts).None? { EntriesFail(entries, index + 1, start, asserts); }
  }

  lemma {:induction false} EntriesFail(entries: seq<Entry>, n: nat, start: Option<nat>, asserts: bool)
    requires n <= |entries| && TableColumn(entries[..n], start, asserts).None?
    ensures TableColumn(entries, start, asserts).None?
    decreases |entries|
  {
    if n == |entries| {
      assert entries[..n] == entries;
    } else {
      assert entries[..|entries| - 1][..n] == entries[..n];
      EntriesFail(entries[..|entries| - 1], n, start, asserts);
    }
  }

  /** One more entry of a table. */
  lemma {:induction false} EntryAdded(before: Text, items: seq<DocEntry>, entries: seq<Entry>, index: nat, e: DocEntry)
    requires index < |entries| && ShowsEntries(items, entries[..index]) && EntriesSpaced(items)
    requires ShowsEntries([e], [entries[index]]) && GapOk(e.gap, index == 0) && Spaced(e.value, true)
    ensures before + EntryChars(items) + OneEntryChars(e) == before + EntryChars(items + [e])
    ensures ShowsEntries(items + [e], entries[..index + 1]) && EntriesSpaced(items + [e])
  {
    EntryCharsAppend(items, e);
    Associative(before, EntryChars(items), OneEntryChars(e));
    ShowsEntriesAppend(items, entries[..index], e, entries[index]);
    assert entries[..index + 1] == entries[..index] + [entries[index]];
  }

  lemma {:induction false} ShowsEntriesAppend(items: seq<DocEntry>, entries: seq<Entry>, d: DocEntry, e: Entry)
    requires ShowsEntries(items, entries) && ShowsEntries([d], [e])
    ensures ShowsEntries(items + [d], entries + [e])
  {
    assert [d][0] == d && [e][0] == e;
  }

  /** An empty string always fits in quotes. */
  lemma {:induction false} FieldNotEmpty(t: Text, quoted: bool)
    ensures Preferred(t, !quoted, true, LINE_LENGTH) == Delimiter.Field ==> t != []
  {
  }
}
