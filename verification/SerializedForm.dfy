/**
 The serialized form of values: machine-order integers, counted strings, a kind
 code before each value, a count before list elements, and a flag before each
 table entry.
 */
module SerializedForm {
  import opened NumberGrammar
  import opened Units
  import opened Values
  import opened Wrappers
  import Bignum

  type Byte = b: int | 0 <= b < 256

  const KIND_CHAR := 0
  const KIND_NUMB := 1
  const KIND_LIST := 2
  const KIND_TABLE := 3
  const KIND_NA := 4
  const KIND_UNK := 5

  const NOT_QUOTED := 0
  const QUOTED := 1

  const ENTRY_FOLLOWS := 0
  const NO_MORE_ENTRIES := -1

  const INT_BYTES := 4
  const SIZE_BYTES := 8
  const UNIT_BYTES := 2

  // Integers: two's complement, least significant byte first

  function IntBytes(n: int, width: nat): (b: seq<Byte>)
    ensures |b| == width
    decreases width
  {
    if width == 0 then [] else [n % 256] + IntBytes(n / 256, width - 1)
  }

  function Unsigned(b: seq<Byte>): (n: nat) {
    if b == [] then 0 else b[0] + 256 * Unsigned(b[1..])
  }

  function Signed(b: seq<Byte>): int {
    if b == [] || b[|b| - 1] < 128 then Unsigned(b) else Unsigned(b) - Bignum.Pow(256, |b|)
  }

  lemma {:induction false} UnsignedBytes(n: nat, width: nat)
    requires n < Bignum.Pow(256, width)
    ensures Unsigned(IntBytes(n, width)) == n
  {
    if width > 0 {
      UnsignedBytes(n / 256, width - 1);
      assert IntBytes(n, width)[1..] == IntBytes(n / 256, width - 1);
    }
  }

  lemma {:induction false} MinusOneBytes(width: nat)
    requires width > 0
    ensures Unsigned(IntBytes(-1, width)) == Bignum.Pow(256, width) - 1
    ensures IntBytes(-1, width)[width - 1] == 255
  {
    var b := IntBytes(-1, width);
    assert b[1..] == IntBytes(-1, width - 1);
    if width > 1 { MinusOneBytes(width - 1); }
  }

  lemma {:induction false} TopByte(n: nat, width: nat)
    requires width > 0 && n < 128 * Bignum.Pow(256, width - 1)
    ensures IntBytes(n, width)[width - 1] < 128
  {
    if width > 1 {
      TopByte(n / 256, width - 1);
      assert IntBytes(n, width)[1..] == IntBytes(n / 256, width - 1);
    }
  }

  /** The integers that occur are read back. */
  lemma {:induction false} SignedBytes(n: int, width: nat)
    requires width > 0 && -1 <= n < 128 * Bignum.Pow(256, width - 1)
    ensures Signed(IntBytes(n, width)) == n
  {
    if n == -1 {
      MinusOneBytes(width);
    } else {
      TopByte(n, width);
      assert Bignum.Pow(256, width) == 256 * Bignum.Pow(256, width - 1);
      UnsignedBytes(n, width);
    }
  }

  // Strings

  function UnitsBytes(t: Text): (b: seq<Byte>)
    ensures |b| == 2 * |t|
  {
    if t == [] then [] else IntBytes(t[0], UNIT_BYTES) + UnitsBytes(t[1..])
  }

  function BytesUnits(b: seq<Byte>): (t: Text)
    requires |b| % 2 == 0
    ensures 2 * |t| == |b|
  {
    if b == [] then [] else
      var low: int, high: int := b[0], b[1];
      [low + 256 * high] + BytesUnits(b[2..])
  }

  lemma {:induction false} UnitsRead(t: Text)
    ensures BytesUnits(UnitsBytes(t)) == t
  {
    if t != [] {
      UnitsRead(t[1..]);
      var b := IntBytes(t[0], UNIT_BYTES);
      assert b[1..] == IntBytes(t[0] / 256, 1);
      assert UnitsBytes(t)[2..] == UnitsBytes(t[1..]);
    }
  }

  function TextBytes(t: Text): seq<Byte> {
    IntBytes(|t|, SIZE_BYTES) + UnitsBytes(t)
  }

  // Values

  function KindBytes(kind: int): seq<Byte> {
    IntBytes(kind, INT_BYTES)
  }

  function QuotedBytes(quoted: bool): seq<Byte> {
    IntBytes(if quoted then QUOTED else NOT_QUOTED, INT_BYTES)
  }

  function ValueBytes(v: Value): (b: seq<Byte>)
    ensures |b| >= INT_BYTES
  {
    match v
    case Char(text, quoted) => KindBytes(KIND_CHAR) + TextBytes(text) + QuotedBytes(quoted)
    case Numb(text, quoted, _) => KindBytes(KIND_NUMB) + TextBytes(text) + QuotedBytes(quoted)
    case List(elements) => KindBytes(KIND_LIST) + IntBytes(|elements|, SIZE_BYTES) + ElementsBytes(elements)
    case Table(entries) => KindBytes(KIND_TABLE) + EntriesBytes(entries)
    case NotApplicable => KindBytes(KIND_NA)
    case Unknown => KindBytes(KIND_UNK)
  }

  function ElementsBytes(elements: seq<Value>): seq<Byte> {
    if elements == [] then [] else ValueBytes(elements[0]) + ElementsBytes(elements[1..])
  }

  function EntryBytes(e: Entry): seq<Byte> {
    IntBytes(ENTRY_FOLLOWS, INT_BYTES) + TextBytes(e.key) + TextBytes(e.keyOrig) + ValueBytes(e.value)
  }

  function EntriesBytes(entries: seq<Entry>): seq<Byte> {
    if entries == [] then IntBytes(NO_MORE_ENTRIES, INT_BYTES)
    else EntryBytes(entries[0]) + EntriesBytes(entries[1..])
  }

  // Reading: each function gives what it reads and the bytes left over

  function ReadInt(b: seq<Byte>, width: nat): (r: Option<(seq<Byte>, seq<Byte>)>)
    ensures r.Some? ==> |r.value.0| == width && |r.value.1| == |b| - width
  {
    if |b| < width then None else Some((b[..width], b[width..]))
  }

  function ReadUnits(b: seq<Byte>, n: int): (r: Option<(Text, seq<Byte>)>)
    ensures r.Some? ==> |r.value.1| <= |b|
  {
    if n < 0 || |b| < 2 * n then None else Some((BytesUnits(b[..2 * n]), b[2 * n..]))
  }

  function ReadText(b: seq<Byte>): (r: Option<(Text, seq<Byte>)>)
    ensures r.Some? ==> |r.value.1| < |b|
  {
    match ReadInt(b, SIZE_BYTES)
    case None => None
    case Some((size, rest)) => ReadUnits(rest, Signed(size))
  }

  function ReadQuoted(b: seq<Byte>): (r: Option<(bool, seq<Byte>)>)
    ensures r.Some? ==> |r.value.1| < |b|
  {
    match ReadInt(b, INT_BYTES)
    case None => None
    case Some((q, rest)) =>
      if Signed(q) == QUOTED then Some((true, rest)) else if Signed(q) == NOT_QUOTED then Some((false, rest)) else None
  }

  /** A string value, or, where its text is to be parsed, a number. */
  function ReadString(b: seq<Byte>, isNumber: bool): (r: Option<(Value, seq<Byte>)>)
    ensures r.Some? ==> |r.value.1| < |b|
  {
    match ReadText(b)
    case None => None
    case Some((text, b1)) =>
      if isNumber && Parse(text).None? then None else
        match ReadQuoted(b1)
        case None => None
        case Some((quoted, b2)) =>
          Some((if isNumber then Numb(text, quoted, NumberOf(Parse(text).value)) else Char(text, quoted), b2))
  }

  function ReadValue(b: seq<Byte>): (r: Option<(Value, seq<Byte>)>)
    ensures r.Some? ==> |r.value.1| < |b|
    decreases |b|, 0
  {
    match ReadInt(b, INT_BYTES)
    case None => None
    case Some((k, rest)) =>
      var kind := Signed(k);
      if kind == KIND_CHAR || kind == KIND_NUMB then ReadString(rest, kind == KIND_NUMB)
      else if kind == KIND_LIST then ReadList(rest)
      else if kind == KIND_TABLE then ReadTable(rest)
      else if kind == KIND_NA then Some((NotApplicable, rest))
      else if kind == KIND_UNK then Some((Unknown, rest))
      else None
  }

  function ReadList(b: seq<Byte>): (r: Option<(Value, seq<Byte>)>)
    ensures r.Some? ==> |r.value.1| < |b|
    decreases |b|, 1
  {
    match ReadInt(b, SIZE_BYTES)
    case None => None
    case Some((size, rest)) =>
      match ReadElements(rest, Unsigned(size))
      case None => None
      case Some((elements, left)) => Some((List(elements), left))
  }

  function ReadElements(b: seq<Byte>, n: nat): (r: Option<(seq<Value>, seq<Byte>)>)
    ensures r.Some? ==> |r.value.1| <= |b|
    decreases |b|, 1
  {
    if n == 0 then Some(([], b)) else
      match ReadValue(b)
      case None => None
      case Some((v, rest)) =>
        match ReadElements(rest, n - 1)
        case None => None
        case Some((vs, left)) => Some(([v] + vs, left))
  }

  function ReadTable(b: seq<Byte>): (r: Option<(Value, seq<Byte>)>)
    ensures r.Some? ==> |r.value.1| < |b|
    decreases |b|, 1
  {
    match ReadEntries(b)
    case None => None
    case Some((entries, left)) => Some((Table(entries), left))
  }

  function ReadEntries(b: seq<Byte>): (r: Option<(seq<Entry>, seq<Byte>)>)
    ensures r.Some? ==> |r.value.1| < |b|
    decreases |b|, 0
  {
    match ReadInt(b, INT_BYTES)
    case None => None
    case Some((flag, rest)) =>
      if Signed(flag) == NO_MORE_ENTRIES then Some(([], rest))
      else if Signed(flag) != ENTRY_FOLLOWS then None
      else
        match ReadEntry(rest)
        case None => None
        case Some((e, b1)) =>
          match ReadEntries(b1)
          case None => None
          case Some((es, left)) => Some(([e] + es, left))
  }

  function ReadEntry(b: seq<Byte>): (r: Option<(Entry, seq<Byte>)>)
    ensures r.Some? ==> |r.value.1| < |b|
    decreases |b|, 1
  {
    match ReadText(b)
    case None => None
    case Some((key, b1)) =>
      match ReadText(b1)
      case None => None
      case Some((keyOrig, b2)) =>
        match ReadValue(b2)
        case None => None
        case Some((v, b3)) => Some((Entry(key, keyOrig, v), b3))
  }

  // Reading back

  const MAX_LENGTH := 0x100_0000_0000_0000

  /** Sizes fit in their fields, and every number's parts agree with its text. */
  ghost predicate Consistent(v: Value) {
    match v
    case Char(text, _) => |text| <= MAX_LENGTH
    case Numb(text, _, number) => |text| <= MAX_LENGTH && Parse(text).Some? && number == NumberOf(Parse(text).value)
    case List(elements) => |elements| <= MAX_LENGTH && forall i :: 0 <= i < |elements| ==> Consistent(elements[i])
    case Table(entries) => forall i :: 0 <= i < |entries| ==> ConsistentEntry(entries[i])
    case NotApplicable => true
    case Unknown => true
  }

  ghost predicate ConsistentEntry(e: Entry) {
    |e.key| <= MAX_LENGTH && |e.keyOrig| <= MAX_LENGTH && Consistent(e.value)
  }

  lemma {:induction false} Split(a: seq<Byte>, b: seq<Byte>)
    ensures ReadInt(a + b, |a|) == Some((a, b))
  {
  }

  lemma {:induction false} SmallRead(n: int, rest: seq<Byte>)
    requires -1 <= n <= KIND_UNK
    ensures var r := ReadInt(IntBytes(n, INT_BYTES) + rest, INT_BYTES);
      r.Some? && Signed(r.value.0) == n && r.value.1 == rest
  {
    var four: nat := INT_BYTES;
    SignedBytes(n, four);
    Split(IntBytes(n, four), rest);
  }

  lemma {:induction false} SizeRead(n: nat, rest: seq<Byte>)
    requires n <= MAX_LENGTH
    ensures var r := ReadInt(IntBytes(n, SIZE_BYTES) + rest, SIZE_BYTES);
      r.Some? && Signed(r.value.0) == n && Unsigned(r.value.0) == n && r.value.1 == rest
  {
    var eight: nat := SIZE_BYTES;
    assert Bignum.Pow(256, 7) == MAX_LENGTH;
    SignedBytes(n, eight);
    UnsignedBytes(n, eight);
    Split(IntBytes(n, eight), rest);
  }

  lemma {:induction false} TextRead(t: Text, rest: seq<Byte>)
    requires |t| <= MAX_LENGTH
    ensures ReadText(TextBytes(t) + rest) == Some((t, rest))
  {
    SizeRead(|t|, UnitsBytes(t) + rest);
    assert TextBytes(t) + rest == IntBytes(|t|, SIZE_BYTES) + (UnitsBytes(t) + rest);
    Split(UnitsBytes(t), rest);
    UnitsRead(t);
  }

  lemma {:induction false} QuotedRead(quoted: bool, rest: seq<Byte>)
    ensures ReadQuoted(QuotedBytes(quoted) + rest) == Some((quoted, rest))
  {
    SmallRead(if quoted then QUOTED else NOT_QUOTED, rest);
  }

  lemma {:induction false} StringRead(v: Value, rest: seq<Byte>)
    requires (v.Char? || v.Numb?) && Consistent(v)
    ensures ReadString(TextBytes(v.text) + QuotedBytes(v.quoted) + rest, v.Numb?) == Some((v, rest))
  {
    TextRead(v.text, QuotedBytes(v.quoted) + rest);
    assert TextBytes(v.text) + QuotedBytes(v.quoted) + rest == TextBytes(v.text) + (QuotedBytes(v.quoted) + rest);
    QuotedRead(v.quoted, rest);
  }

  /** What follows the kind code of a value. */
  function Payload(v: Value): seq<Byte> {
    match v
    case Char(text, quoted) => TextBytes(text) + QuotedBytes(quoted)
    case Numb(text, quoted, _) => TextBytes(text) + QuotedBytes(quoted)
    case List(elements) => IntBytes(|elements|, SIZE_BYTES) + ElementsBytes(elements)
    case Table(entries) => EntriesBytes(entries)
    case NotApplicable => []
    case Unknown => []
  }

  function KindOf(v: Value): int {
    match v
    case Char(_, _) => KIND_CHAR
    case Numb(_, _, _) => KIND_NUMB
    case List(_) => KIND_LIST
    case Table(_) => KIND_TABLE
    case NotApplicable => KIND_NA
    case Unknown => KIND_UNK
  }

  lemma {:induction false} KindAndPayload(v: Value, rest: seq<Byte>)
    ensures ValueBytes(v) + rest == KindBytes(KindOf(v)) + (Payload(v) + rest)
  {
    if v.Char? || v.Numb? {
      Regroup(KindBytes(KindOf(v)), TextBytes(v.text), QuotedBytes(v.quoted), rest);
    } else if v.List? {
      Regroup(KindBytes(KindOf(v)), IntBytes(|v.elements|, SIZE_BYTES), ElementsBytes(v.elements), rest);
    } else if v.Table? {
      Regroup(KindBytes(KindOf(v)), EntriesBytes(v.entries), [], rest);
      assert EntriesBytes(v.entries) + [] == EntriesBytes(v.entries);
      assert KindBytes(KindOf(v)) + EntriesBytes(v.entries) + [] == KindBytes(KindOf(v)) + EntriesBytes(v.entries);
    } else {
      assert Payload(v) + rest == rest;
    }
  }

  lemma {:induction false} Regroup(a: seq<Byte>, b: seq<Byte>, c: seq<Byte>, d: seq<Byte>)
    ensures a + b + c + d == a + (b + c + d) && a + b + c + d == a + (b + (c + d)) && b + c + d == b + (c + d)
  {
  }

  /** A value is read back from its bytes, whatever follows them, and nothing that follows is consumed. */
  lemma {:induction false} ReadBack(v: Value, rest: seq<Byte>)
    requires Consistent(v)
    ensures ReadValue(ValueBytes(v) + rest) == Some((v, rest))
    decreases v
  {
    KindAndPayload(v, rest);
    SmallRead(KindOf(v), Payload(v) + rest);
    if v.Char? || v.Numb? {
      StringRead(v, rest);
    } else if v.List? {
      SizeRead(|v.elements|, ElementsBytes(v.elements) + rest);
      Regroup([], IntBytes(|v.elements|, SIZE_BYTES), ElementsBytes(v.elements), rest);
      ElementsReadBack(v.elements, rest);
    } else if v.Table? {
      EntriesReadBack(v.entries, rest);
    } else {
      assert Payload(v) + rest == rest;
    }
  }

  lemma {:induction false} ElementsReadBack(elements: seq<Value>, rest: seq<Byte>)
    requires forall i :: 0 <= i < |elements| ==> Consistent(elements[i])
    ensures ReadElements(ElementsBytes(elements) + rest, |elements|) == Some((elements, rest))
    decreases elements
  {
    if elements == [] {
      assert ElementsBytes(elements) + rest == rest;
    } else {
      var left := ElementsBytes(elements[1..]) + rest;
      Regroup([], ValueBytes(elements[0]), ElementsBytes(elements[1..]), rest);
      assert ElementsBytes(elements) + rest == ValueBytes(elements[0]) + left;
      ReadBack(elements[0], left);
      ElementsReadBack(elements[1..], rest);
      assert elements == [elements[0]] + elements[1..];
    }
  }

  lemma {:induction false} EntryReadBack(e: Entry, rest: seq<Byte>)
    requires ConsistentEntry(e)
    ensures ReadEntry(TextBytes(e.key) + (TextBytes(e.keyOrig) + (ValueBytes(e.value) + rest))) == Some((e, rest))
    decreases e, 0
  {
    TextRead(e.key, TextBytes(e.keyOrig) + (ValueBytes(e.value) + rest));
    TextRead(e.keyOrig, ValueBytes(e.value) + rest);
    ReadBack(e.value, rest);
  }

  lemma {:induction false} EntryRegroup(e: Entry, rest: seq<Byte>)
    ensures EntryBytes(e) + rest == IntBytes(ENTRY_FOLLOWS, INT_BYTES)
      + (TextBytes(e.key) + (TextBytes(e.keyOrig) + (ValueBytes(e.value) + rest)))
  {
    var a, b, c, d := IntBytes(ENTRY_FOLLOWS, INT_BYTES), TextBytes(e.key), TextBytes(e.keyOrig), ValueBytes(e.value);
    FiveParts(a, b, c, d, rest);
  }

  lemma {:induction false} FiveParts(a: seq<Byte>, b: seq<Byte>, c: seq<Byte>, d: seq<Byte>, rest: seq<Byte>)
    ensures a + b + c + d + rest == a + (b + (c + (d + rest)))
  {
    Associative(a + b + c, d, rest);
    Associative(a + b, c, d + rest);
    Associative(a, b, c + (d + rest));
  }

  lemma {:induction false} EntriesReadBack(entries: seq<Entry>, rest: seq<Byte>)
    requires forall i :: 0 <= i < |entries| ==> ConsistentEntry(entries[i])
    ensures ReadEntries(EntriesBytes(entries) + rest) == Some((entries, rest))
    decreases entries
  {
    if entries == [] {
      SmallRead(NO_MORE_ENTRIES, rest);
    } else {
      EntriesReadBack(entries[1..], rest);
      EntriesJoin(entries, rest);
    }
  }

  lemma {:induction false} EntriesJoin(entries: seq<Entry>, rest: seq<Byte>)
    requires entries != [] && ConsistentEntry(entries[0])
    requires ReadEntries(EntriesBytes(entries[1..]) + rest) == Some((entries[1..], rest))
    ensures ReadEntries(EntriesBytes(entries) + rest) == Some((entries, rest))
    decreases entries[0], 2
  {
    FirstEntry(entries, rest);
    FirstEntryRead(entries[0], entries[1..], rest);
    assert entries == [entries[0]] + entries[1..];
  }

  lemma {:induction false} FirstEntry(entries: seq<Entry>, rest: seq<Byte>)
    requires entries != []
    ensures EntriesBytes(entries) + rest == EntryBytes(entries[0]) + (EntriesBytes(entries[1..]) + rest)
  {
    Regroup([], EntryBytes(entries[0]), EntriesBytes(entries[1..]), rest);
  }

  lemma {:induction false} FirstEntryRead(e: Entry, es: seq<Entry>, rest: seq<Byte>)
    requires ConsistentEntry(e) && ReadEntries(EntriesBytes(es) + rest) == Some((es, rest))
    ensures ReadEntries(EntryBytes(e) + (EntriesBytes(es) + rest)) == Some(([e] + es, rest))
    decreases e, 1
  {
    var left := EntriesBytes(es) + rest;
    EntryRegroup(e, left);
    EntryReadBack(e, left);
    EntriesStep(TextBytes(e.key) + (TextBytes(e.keyOrig) + (ValueBytes(e.value) + left)), e, left, es, rest);
  }

  lemma {:induction false} EntriesStep(payload: seq<Byte>, e: Entry, left: seq<Byte>, es: seq<Entry>, rest: seq<Byte>)
    requires ReadEntry(payload) == Some((e, left)) && ReadEntries(left) == Some((es, rest))
    ensures ReadEntries(IntBytes(ENTRY_FOLLOWS, INT_BYTES) + payload) == Some(([e] + es, rest))
  {
    SmallRead(ENTRY_FOLLOWS, payload);
  }

  /** The serialized form is self-delimiting: no value's bytes are a proper prefix of another's. */
  lemma {:induction false} SelfDelimiting(v: Value, rest: seq<Byte>, v': Value, rest': seq<Byte>)
    requires Consistent(v) && Consistent(v') && ValueBytes(v) + rest == ValueBytes(v') + rest'
    ensures v == v' && rest == rest'
  {
    ReadBack(v, rest);
    ReadBack(v', rest');
  }
}
