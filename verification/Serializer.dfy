/** Serializing values to a buffer, and deserializing them from one. */
module Serializer {
  import opened NumberGrammar
  import opened NumberParser
  import opened SerializedForm
  import opened Units
  import opened Values
  import opened Wrappers

  /** A buffer for writing: limit is the number of bytes, and writing continues at the position. */
  class WriteBuffer {
    var bytes: seq<Byte>
    var position: nat

    constructor ()
      ensures bytes == [] && AtEnd()
    {
      bytes, position := [], 0;
    }

    predicate AtEnd()
      reads this
    {
      position == |bytes|
    }

    /** Copies bytes to the position, over what is there, and advances the position. */
    method Write(src: seq<Byte>)
      requires position <= |bytes|
      modifies this
      ensures position == old(position) + |src| <= |bytes|
      ensures bytes[..position] == old(bytes[..position]) + src
      ensures |bytes| == if position > old(|bytes|) then position else old(|bytes|)
      ensures forall i :: position <= i < old(|bytes|) ==> bytes[i] == old(bytes[i])
      ensures old(AtEnd()) ==> AtEnd() && bytes == old(bytes) + src
    {
      var end := position + |src|;
      bytes := bytes[..position] + src + if end < |bytes| then bytes[end..] else [];
      position := end;
    }

    method WriteText(t: Text)
      requires AtEnd()
      modifies this
      ensures AtEnd() && bytes == old(bytes) + TextBytes(t)
    {
      ghost var start := bytes;
      Write(IntBytes(|t|, SIZE_BYTES));
      Write(UnitsBytes(t));
      Associative(start, IntBytes(|t|, SIZE_BYTES), UnitsBytes(t));
    }

    /** Serializes a value behind its kind code. */
    method WriteValue(v: Value)
      requires AtEnd()
      modifies this
      ensures AtEnd() && bytes == old(bytes) + ValueBytes(v)
      decreases v, 2
    {
      ghost var start := bytes;
      Write(KindBytes(KindOf(v)));
      match v {
        case Char(text, quoted) => WriteString(text, quoted);
        case Numb(text, quoted, _) => WriteString(text, quoted);
        case List(elements) => WriteList(elements);
        case Table(entries) => WriteTable(entries);
        case NotApplicable =>
        case Unknown =>
      }
      assert bytes == start + KindBytes(KindOf(v)) + Payload(v);
      Associative(start, KindBytes(KindOf(v)), Payload(v));
      KindAndPayload(v, []);
      assert ValueBytes(v) + [] == ValueBytes(v) && Payload(v) + [] == Payload(v);
    }

    method WriteString(text: Text, quoted: bool)
      requires AtEnd()
      modifies this
      ensures AtEnd() && bytes == old(bytes) + (TextBytes(text) + QuotedBytes(quoted))
    {
      ghost var start := bytes;
      WriteText(text);
      Write(QuotedBytes(quoted));
      Associative(start, TextBytes(text), QuotedBytes(quoted));
    }

    /** Serializes the number of elements, and then each. */
    method WriteList(elements: seq<Value>)
      requires AtEnd()
      modifies this
      ensures AtEnd() && bytes == old(bytes) + (IntBytes(|elements|, SIZE_BYTES) + ElementsBytes(elements))
      decreases elements, 1
    {
      ghost var start := bytes;
      Write(IntBytes(|elements|, SIZE_BYTES));
      ghost var begin := bytes;
      ghost var all := ElementsBytes(elements);
      var i := 0;
      while i < |elements|
        invariant 0 <= i <= |elements| && AtEnd()
        invariant begin + all == bytes + ElementsBytes(elements[i..])
      {
        ghost var before := bytes;
        WriteValue(elements[i]);
        Associative(before, ValueBytes(elements[i]), ElementsBytes(elements[i + 1..]));
        i := i + 1;
      }
      assert bytes + [] == bytes;
      Associative(start, IntBytes(|elements|, SIZE_BYTES), all);
    }

    /** Serializes one table entry behind the flag that announces it. */
    method WriteEntry(e: Entry)
      requires AtEnd()
      modifies this
      ensures AtEnd() && bytes == old(bytes) + EntryBytes(e)
      decreases e, 3
    {
      ghost var start := bytes;
      Write(IntBytes(ENTRY_FOLLOWS, INT_BYTES));
      WriteText(e.key);
      WriteText(e.keyOrig);
      WriteValue(e.value);
      Associative(start, IntBytes(ENTRY_FOLLOWS, INT_BYTES), TextBytes(e.key));
      Associative(start, IntBytes(ENTRY_FOLLOWS, INT_BYTES) + TextBytes(e.key), TextBytes(e.keyOrig));
      Associative(start, IntBytes(ENTRY_FOLLOWS, INT_BYTES) + TextBytes(e.key) + TextBytes(e.keyOrig), ValueBytes(e.value));
    }

    /** Serializes the entries in order, and then the flag that there are no more. */
    method WriteTable(entries: seq<Entry>)
      requires AtEnd()
      modifies this
      ensures AtEnd() && bytes == old(bytes) + EntriesBytes(entries)
      decreases entries, 1
    {
      ghost var start, all := bytes, EntriesBytes(entries);
      var i := 0;
      while i < |entries|
        invariant 0 <= i <= |entries| && AtEnd()
        invariant start + all == bytes + EntriesBytes(entries[i..])
      {
        ghost var before := bytes;
        WriteEntry(entries[i]);
        Associative(before, EntryBytes(entries[i]), EntriesBytes(entries[i + 1..]));
        i := i + 1;
      }
      Write(IntBytes(NO_MORE_ENTRIES, INT_BYTES));
    }
  }

  /** The size of a string, and its units. */

  /** Units are read exactly if there are bytes enough. */
  lemma {:induction false} UnitsTaken(b: seq<Byte>, n: nat, dest: seq<Byte>, rest: seq<Byte>)
    requires var k := if |b| < 2 * n then |b| else 2 * n; dest == b[..k] && rest == b[k..]
    ensures ReadUnits(b, n) == if |dest| == 2 * n then Some((BytesUnits(dest), rest)) else None
  {
  }

  /** A buffer for reading; whatever is before the position has been consumed. */
  class ReadBuffer {
    const bytes: seq<Byte>
    var position: nat

    constructor (bytes: seq<Byte>)
      ensures this.bytes == bytes && position == 0 && Rest() == bytes
    {
      this.bytes := bytes;
      position := 0;
    }

    predicate Valid()
      reads this
    {
      position <= |bytes|
    }

    ghost function Rest(): seq<Byte>
      requires Valid()
      reads this
    {
      bytes[position..]
    }

    /** Reads up to max bytes, as many as there are. */
    method Read(max: nat) returns (dest: seq<Byte>)
      requires Valid()
      modifies this
      ensures Valid()
      ensures var n := if |old(Rest())| < max then |old(Rest())| else max;
        dest == old(Rest())[..n] && Rest() == old(Rest())[n..]
    {
      if position >= |bytes| || max == 0 {
        return [];
      }
      var available := |bytes| - position;
      var count := if max > available then available else max;
      dest := bytes[position..position + count];
      position := position + count;
    }

    /** Units whose number is known. */
    method DeserializeUnits(n: int) returns (r: Option<Text>)
      requires Valid()
      modifies this
      ensures Valid() && (r.Some? <==> ReadUnits(old(Rest()), n).Some?)
      ensures r.Some? ==> ReadUnits(old(Rest()), n) == Some((r.value, Rest()))
      ensures |Rest()| <= |old(Rest())|
    {
      if n < 0 { return None; }
      ghost var b := Rest();
      var units := Read(2 * n);
      UnitsTaken(b, n, units, Rest());
      if |units| != 2 * n { return None; }
      r := Some(BytesUnits(units));
    }

    method DeserializeText() returns (r: Option<Text>)
      requires Valid()
      modifies this
      ensures Valid() && (r.Some? <==> ReadText(old(Rest())).Some?)
      ensures r.Some? ==> ReadText(old(Rest())) == Some((r.value, Rest()))
      ensures |Rest()| <= |old(Rest())|
    {
      var size := Read(SIZE_BYTES);
      if |size| != SIZE_BYTES { return None; }
      r := DeserializeUnits(Signed(size));
    }

    method DeserializeQuoted() returns (r: Option<bool>)
      requires Valid()
      modifies this
      ensures Valid() && (r.Some? <==> ReadQuoted(old(Rest())).Some?)
      ensures r.Some? ==> ReadQuoted(old(Rest())) == Some((r.value, Rest()))
      ensures |Rest()| <= |old(Rest())|
    {
      var q := Read(INT_BYTES);
      if |q| != INT_BYTES { return None; }
      if Signed(q) == QUOTED { return Some(true); }
      if Signed(q) == NOT_QUOTED { return Some(false); }
      r := None;
    }

    /** The text and quoting of a string; that of a number is parsed. */
    method DeserializeString(isNumber: bool) returns (r: Option<Value>)
      requires Valid()
      modifies this
      ensures Valid() && (r.Some? <==> ReadString(old(Rest()), isNumber).Some?)
      ensures r.Some? ==> ReadString(old(Rest()), isNumber) == Some((r.value, Rest()))
      ensures |Rest()| <= |old(Rest())|
    {
      var text := DeserializeText();
      if text.None? { return None; }
      var number := Err(INVALID_NUMBER);
      if isNumber {
        number := ParseNumb(text.value);
        if number.Err? { return None; }
      }
      var quoted := DeserializeQuoted();
      if quoted.None? { return None; }
      r := Some(if isNumber then Numb(text.value, quoted.value, number.value) else Char(text.value, quoted.value));
    }

    /** Reads a value: the kind code decides what follows. */
    method DeserializeValue() returns (r: Option<Value>)
      requires Valid()
      modifies this
      ensures Valid() && (r.Some? <==> ReadValue(old(Rest())).Some?)
      ensures r.Some? ==> ReadValue(old(Rest())) == Some((r.value, Rest()))
      decreases |Rest()|, 0
    {
      var k := Read(INT_BYTES);
      if |k| != INT_BYTES { return None; }
      var kind := Signed(k);
      if kind == KIND_CHAR || kind == KIND_NUMB {
        r := DeserializeString(kind == KIND_NUMB);
      } else if kind == KIND_LIST {
        r := DeserializeList();
      } else if kind == KIND_TABLE {
        r := DeserializeTable();
      } else if kind == KIND_NA {
        r := Some(NotApplicable);
      } else if kind == KIND_UNK {
        r := Some(Unknown);
      } else {
        r := None;
      }
    }

    method DeserializeList() returns (r: Option<Value>)
      requires Valid()
      modifies this
      ensures Valid() && (r.Some? <==> ReadList(old(Rest())).Some?)
      ensures r.Some? ==> ReadList(old(Rest())) == Some((r.value, Rest()))
      decreases |Rest()|, 1
    {
      var size := Read(SIZE_BYTES);
      if |size| != SIZE_BYTES { return None; }
      var elements := DeserializeElements(Unsigned(size));
      r := if elements.Some? then Some(List(elements.value)) else None;
    }

    method DeserializeElements(capacity: nat) returns (r: Option<seq<Value>>)
      requires Valid()
      modifies this
      ensures Valid() && (r.Some? <==> ReadElements(old(Rest()), capacity).Some?)
      ensures r.Some? ==> ReadElements(old(Rest()), capacity) == Some((r.value, Rest()))
      decreases |Rest()|, 1
    {
      var elements: seq<Value> := [];
      ghost var goal, bound := ReadElements(Rest(), capacity), |Rest()|;
      PrefixedNone(goal);
      while |elements| < capacity
        invariant Valid() && |elements| <= capacity && |Rest()| <= bound
        invariant goal == Prefixed(elements, ReadElements(Rest(), capacity - |elements|))
        decreases capacity - |elements|
      {
        ghost var before, todo := Rest(), capacity - |elements|;
        var v := DeserializeValue();
        if v.None? { return None; }
        ElementStep(elements, v.value, before, Rest(), todo);
        elements := elements + [v.value];
      }
      ElementsDone(elements, Rest());
      r := Some(elements);
    }

    method DeserializeEntry() returns (r: Option<Entry>)
      requires Valid()
      modifies this
      ensures Valid() && (r.Some? <==> ReadEntry(old(Rest())).Some?)
      ensures r.Some? ==> ReadEntry(old(Rest())) == Some((r.value, Rest()))
      decreases |Rest()|, 1
    {
      var key := DeserializeText();
      if key.None? { return None; }
      var keyOrig := DeserializeText();
      if keyOrig.None? { return None; }
      var v := DeserializeValue();
      if v.None? { return None; }
      r := Some(Entry(key.value, keyOrig.value, v.value));
    }

    method DeserializeTable() returns (r: Option<Value>)
      requires Valid()
      modifies this
      ensures Valid() && (r.Some? <==> ReadTable(old(Rest())).Some?)
      ensures r.Some? ==> ReadTable(old(Rest())) == Some((r.value, Rest()))
      decreases |Rest()|, 2
    {
      var entries: seq<Entry> := [];
      ghost var goal := ReadEntries(Rest());
      PrefixedNone(goal);
      ghost var bound := |Rest()|;
      while true
        invariant Valid() && |Rest()| <= bound
        invariant goal == Prefixed(entries, ReadEntries(Rest()))
        decreases |Rest()|
      {
        var f := Read(INT_BYTES);
        if |f| != INT_BYTES { return None; }
        var flag := Signed(f);
        if flag == NO_MORE_ENTRIES {
          assert entries + [] == entries;
          return Some(Table(entries));
        }
        if flag != ENTRY_FOLLOWS { return None; }
        var e := DeserializeEntry();
        if e.None? { return None; }
        PrefixedStep(entries, e.value, ReadEntries(Rest()));
        entries := entries + [e.value];
      }
    }
  }

  /** Items already read, put before those read from the rest. */
  function Prefixed<T>(items: seq<T>, r: Option<(seq<T>, seq<Byte>)>): Option<(seq<T>, seq<Byte>)> {
    match r
    case None => None
    case Some((more, left)) => Some((items + more, left))
  }

  lemma {:induction false} PrefixedStep<T>(items: seq<T>, item: T, r: Option<(seq<T>, seq<Byte>)>)
    ensures Prefixed(items, match r case None => None case Some((more, left)) => Some(([item] + more, left)))
      == Prefixed(items + [item], r)
  {
    if r.Some? {
      assert items + ([item] + r.value.0) == items + [item] + r.value.0;
    }
  }

  lemma {:induction false} ElementsDone(elements: seq<Value>, rest: seq<Byte>)
    ensures Prefixed(elements, ReadElements(rest, 0)) == Some((elements, rest))
  {
    assert elements + [] == elements;
  }

  lemma {:induction false} ElementStep(elements: seq<Value>, v: Value, before: seq<Byte>, rest: seq<Byte>, todo: nat)
    requires todo > 0 && ReadValue(before) == Some((v, rest))
    ensures Prefixed(elements, ReadElements(before, todo)) == Prefixed(elements + [v], ReadElements(rest, todo - 1))
  {
    PrefixedStep(elements, v, ReadElements(rest, todo - 1));
  }

  lemma {:induction false} PrefixedNone<T>(r: Option<(seq<T>, seq<Byte>)>)
    ensures Prefixed([], r) == r
  {
    if r.Some? { assert [] + r.value.0 == r.value.0; }
  }
}
