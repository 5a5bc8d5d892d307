/**
 Where the value writer's output is on its line, and hence what it can write:
 most tokens are moved to a new line if they do not fit, but some must not be.
 */
module WriterColumns {
  import opened Units
  import opened Wrappers
  import opened Values
  import opened StringAnalysis
  import TextFieldWriter

  /** write_char's choice of line folding for a text field. */
  predicate FoldFor(t: Text) {
    || LineEnd(t) >= LINE_LENGTH || LongestRun(t, false) > LINE_LENGTH
    || ((t == [] || t[0] != SEMI) && FoldMark(t[..LineEnd(t)]) >= 0)
    || LongestRun(t, true) >= LINE_LENGTH - 1
  }

  /** write_char's choice of prefixing for a text field. */
  predicate PrefixFor(t: Text) {
    HasNlSemi(t)
  }

  /** u_countChar32 */
  function CodePoints(s: Text): nat {
    if s == [] then 0
    else if |s| >= 2 && IsSurrogatePair(s[0], s[1]) then CodePoints(s[2..]) + 1
    else CodePoints(s[1..]) + 1
  }

  /** The column after n units; None if they do not fit in the line and may not be wrapped. */
  function TokenColumn(n: nat, column: nat, wrap: bool): Option<nat> {
    if n + column <= LINE_LENGTH then Some(column + n) else if wrap then Some(n) else None
  }

  /** A space where one is needed, or a newline if it does not fit. */
  function SpacedColumn(column: nat): nat {
    if column <= 0 then column else if column + 1 > LINE_LENGTH then 0 else column + 1
  }

  function QuotedColumn(n: nat, column: nat): nat {
    (if column + n + 2 > LINE_LENGTH then 0 else column) + n + 2
  }

  /** Is the unit asserted to be a newline, three units behind the end of the first line, another one? */
  predicate Misplaced(t: Text) {
    var i := LineEnd(t) + 3;
    i < |t| && t[i] != NL
  }

  /** A triple-quoted string starts on the line if the first line, taken to be three units longer than it is, fits. */
  predicate TripleFits(t: Text, column: nat) {
    column + LineEnd(t) + 6 <= LINE_LENGTH
  }

  /**
   A string in triple quotes is written and success reported only if it is at
   least three units longer than its first line; and if it starts on the
   current line, an assertion about the unit at that distance must hold.
   */
  function TripledColumn(t: Text, column: nat, asserts: bool): Option<nat> {
    if |t| < LineEnd(t) + 3 || (TripleFits(t, column) && asserts && Misplaced(t)) then None
    else Some((if TripleFits(t, column) && |t| == LineEnd(t) + 3 then column else 0) + LastRun(t, false) + 3)
  }

  /** write_char */
  ghost function CharColumn(t: Text, quoted: bool, allowText: bool, column: nat, asserts: bool): Option<nat> {
    match Preferred(t, !quoted, true, LINE_LENGTH)
    case Bare => TokenColumn(|t|, column, true)
    case Quoted(_) => Some(QuotedColumn(|t|, column))
    case Tripled(_) => TripledColumn(t, column, asserts)
    case Field => if allowText && TextFieldWriter.Content(t, FoldFor(t), PrefixFor(t)).Some? then Some(1) else None
  }

  /** write_numb: a bare number is wrapped only where values are separated. */
  ghost function NumbColumn(t: Text, quoted: bool, column: nat, separate: bool, asserts: bool): Option<nat> {
    if quoted then CharColumn(t, true, true, column, asserts)
    else if t == [] then None
    else TokenColumn(|t|, column, separate)
  }

  /** write_item: the column after a value, or None if it cannot be written from this column on. */
  ghost function ItemColumn(v: Value, column: nat, separate: bool, asserts: bool): Option<nat>
    decreases v, 1
  {
    ValueColumn(v, if separate then SpacedColumn(column) else column, separate, asserts)
  }

  ghost function ValueColumn(v: Value, column: nat, separate: bool, asserts: bool): Option<nat>
    decreases v, 0
  {
    match v
    case Char(t, quoted) => CharColumn(t, quoted, true, column, asserts)
    case Numb(t, quoted, _) => NumbColumn(t, quoted, column, separate, asserts)
    case List(elements) => ClosedColumn(ElementsColumn(elements, TokenColumn(1, column, true), asserts))
    case Table(entries) => ClosedColumn(TableColumn(entries, TokenColumn(1, column, separate), asserts))
    case _ => TokenColumn(1, column, true)
  }

  /** The closing bracket, with a space before it. */
  function ClosedColumn(c: Option<nat>): Option<nat> {
    if c.Some? then TokenColumn(2, c.value, true) else None
  }

  /** The elements of a list, last first. */
  ghost function ElementsColumn(elements: seq<Value>, start: Option<nat>, asserts: bool): Option<nat>
    decreases elements, 0
  {
    if elements == [] || start.None? then start
    else
      var before := ElementsColumn(elements[..|elements| - 1], start, asserts);
      if before.None? then None else ItemColumn(elements[|elements| - 1], before.value, true, asserts)
  }

  /** The column after a key and its colon, which may not be wrapped. */
  ghost function WrittenKeyColumn(key: Text, column: nat, asserts: bool): Option<nat> {
    var c := SpacedColumn(if CodePoints(key) > LINE_LENGTH - (column + 4) then 0 else column);
    var after := CharColumn(key, true, false, c, asserts);
    if after.None? then None else TokenColumn(1, after.value, false)
  }

  ghost function EntryColumn(e: Entry, column: nat, asserts: bool): Option<nat>
    decreases e, 2
  {
    var c := WrittenKeyColumn(e.keyOrig, column, asserts);
    if c.None? then None else ItemColumn(e.value, c.value, false, asserts)
  }

  /** The entries of a table, last first; values are not separated from their keys. */
  ghost function TableColumn(entries: seq<Entry>, start: Option<nat>, asserts: bool): Option<nat>
    decreases entries, 0
  {
    if entries == [] || start.None? then start
    else
      var before := TableColumn(entries[..|entries| - 1], start, asserts);
      if before.None? then None else EntryColumn(entries[|entries| - 1], before.value, asserts)
  }

  // What can be written wherever it comes

  /** write_char succeeds for exactly these strings, when assertions are not compiled in. */
  ghost predicate CharWrites(t: Text, quoted: bool, allowText: bool) {
    match Preferred(t, !quoted, true, LINE_LENGTH)
    case Bare => true
    case Quoted(_) => true
    case Tripled(_) => |t| >= LineEnd(t) + 3
    case Field => allowText && TextFieldWriter.Content(t, FoldFor(t), PrefixFor(t)).Some?
  }

  lemma {:induction false} CharAnywhere(t: Text, quoted: bool, allowText: bool, column: nat)
    ensures CharColumn(t, quoted, allowText, column, false).Some? <==> CharWrites(t, quoted, allowText)
  {
  }

  /** A string on one line is not long enough: writing it in triple quotes is always reported as an error. */
  lemma {:induction false} OneLineNeverTripled(t: Text, column: nat, asserts: bool)
    requires NL !in t
    ensures TripledColumn(t, column, asserts) == None
  {
    assert forall i :: 0 <= i < |t| ==> t[i] != NL;
    LineEndIs(t, |t|);
  }

  /** Two lines, of which the second has more than two units. */
  const TWO_LINES: Text := [0x61, NL, 0x62, 0x63, 0x64, 0x65, 0x66]

  /** A string that is written in triple quotes, but that fails an assertion if these are compiled in. */
  lemma {:induction false} TwoLinesAbort(quoted: bool)
    ensures Preferred(TWO_LINES, !quoted, true, LINE_LENGTH) == Tripled(SQ)
    ensures CharColumn(TWO_LINES, quoted, true, 0, true) == None && CharColumn(TWO_LINES, quoted, true, 0, false).Some?
  {
    var t := TWO_LINES;
    LineEndIs(t, 1);
    LongestRunMeaning(t, false);
    LastRunMeaning(t, false, 1);
    assert !InRun(t[1], false) && t[1] == NL;
    assert SQ !in t;
  }

  /** All strings in a value can be written, no number's text is empty, and there are no tables. */
  ghost predicate WritesAnywhere(v: Value) {
    match v
    case Char(t, quoted) => CharWrites(t, quoted, true)
    case Numb(t, quoted, _) => if quoted then CharWrites(t, true, true) else t != []
    case List(elements) => forall i :: 0 <= i < |elements| ==> WritesAnywhere(elements[i])
    case Table(_) => false
    case _ => true
  }

  /** A value without tables is written from any column on, exactly if all its strings and numbers can be. */
  lemma {:induction false} ItemAnywhere(v: Value, column: nat)
    requires !HasTable(v)
    ensures ItemColumn(v, column, true, false).Some? <==> WritesAnywhere(v)
    decreases v, 1
  {
    var c := SpacedColumn(column);
    match v {
      case Char(t, quoted) => CharAnywhere(t, quoted, true, c);
      case Numb(t, _, _) => CharAnywhere(t, true, true, c);
      case List(elements) => ElementsAnywhere(elements, TokenColumn(1, c, true).value);
      case _ =>
    }
  }

  predicate HasTable(v: Value) {
    match v
    case List(elements) => exists i :: 0 <= i < |elements| && HasTable(elements[i])
    case Table(_) => true
    case _ => false
  }

  lemma {:induction false} ElementsAnywhere(elements: seq<Value>, column: nat)
    requires forall i :: 0 <= i < |elements| ==> !HasTable(elements[i])
    ensures ElementsColumn(elements, Some(column), false).Some?
       <==> forall i :: 0 <= i < |elements| ==> WritesAnywhere(elements[i])
    decreases elements, 0
  {
    if elements != [] {
      var n := |elements| - 1;
      ElementsAnywhere(elements[..n], column);
      var before := ElementsColumn(elements[..n], Some(column), false);
      if before.Some? { ItemAnywhere(elements[n], before.value); }
    }
  }
}
