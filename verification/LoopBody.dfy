/**
 The body of a loop, from characters to packets: the values are scanned and
 parsed one after the other into a packet, and a handler directs which packets
 are recorded.
 */
module LoopBody {
  import opened Units
  import opened Wrappers
  import opened Values
  import opened Columns
  import opened Lexer
  import opened LoopPackets
  import opened Parser
  import opened TokenRoundTrip
  import opened ValueLayout
  import WalkScript

  const CONTINUE := WalkScript.CONTINUE
  const SKIP_CURRENT := WalkScript.SKIP_CURRENT
  const SKIP_SIBLINGS := WalkScript.SKIP_SIBLINGS
  const END := WalkScript.END

  // The stream of values

  /** A token that is none of a loop body's; an error of the scan or an unexpected token; or a value that does not parse. */
  datatype Ending = Ended(token: Token) | Broken(code: Code) | BadValue(code: Code)

  /** The values of a loop body, and what ends it. */
  datatype Stream = Stream(values: seq<Value>, end: Ending)

  /** Tokens that are errors in a loop body: a key has no place in it, nor has a closing bracket. */
  function BodyError(kind: TokenKind): Option<Code> {
    match kind
    case Key => Some(MissingSpace)
    case TKey => Some(MissingSpace)
    case CList => Some(UnexpectedDelim)
    case CTable => Some(UnexpectedDelim)
    case _ => None
  }

  function ReadStream(input: Text, line: nat, column: int, last: TokenKind, norm: Text -> Text, lenient: bool): Stream
    decreases |input|
  {
    match NextToken(input, line, column, AllowsAdjacent(last), lenient)
    case Err(e) => Stream([], Broken(e))
    case Ok(t) =>
      if BodyError(t.kind).Some? then Stream([], Broken(BodyError(t.kind).value))
      else if !StartsValue(t.kind) then Stream([], Ended(t))
      else match ParseValue(t, norm, lenient)
        case Err(e) => Stream([], BadValue(e))
        case Ok(p) => FirstOf(p.value, ReadStream(p.rest, p.line, p.column, p.last, norm, lenient))
  }

  function FirstOf(v: Value, s: Stream): Stream {
    Stream([v] + s.values, s.end)
  }

  /** May this come right behind the last value, if there is one? */
  predicate MayFollow(items: seq<Doc>, after: Text) {
    items != [] ==> Follows(items[|items| - 1], after)
  }

  /** The values laid out one after the other are the stream, and it goes on with what follows them. */
  lemma {:induction false} StreamOfLayout(items: seq<Doc>, after: Text, line: nat, column: int, last: TokenKind,
                                          norm: Text -> Text, lenient: bool) returns (p: Parsed)
    requires ItemsOk(items, AllowsAdjacent(last), column) && MayFollow(items, after) && (lenient || ItemsWithin(items, column))
    ensures p.rest == after && p.column == ItemsColumn(items, column) && (items == [] ==> p.line == line && p.last == last)
    ensures items != [] ==> !AllowsAdjacent(p.last)
    ensures var s := ReadStream(ItemChars(items) + after, line, column, last, norm, lenient);
      var t := ReadStream(after, p.line, p.column, p.last, norm, lenient);
      s == Stream(ItemValues(items, norm) + t.values, t.end)
  {
    if items == [] {
      p := Parsed(Unknown, after, line, column, last);
      assert ItemChars(items) + after == after;
      assert [] + ReadStream(after, line, column, last, norm, lenient).values == ReadStream(after, line, column, last, norm, lenient).values;
    } else {
      var d, rest := items[0], items[1..];
      var u := ItemChars(rest) + after;
      assert ItemChars(items) + after == Chars(d) + u;
      RestFollows(items, after, AllowsAdjacent(last), column);
      DocRead(d, u, line, column, AllowsAdjacent(last), norm, lenient);
      StreamStep(Chars(d) + u, line, column, last, norm, lenient, ValueOf(d, norm), u);
      var q := ReadValue(Chars(d) + u, line, column, AllowsAdjacent(last), norm, lenient).value;
      p := StreamOfLayout(rest, after, q.line, q.column, q.last, norm, lenient);
      FirstOfAll([], ValueOf(d, norm), ItemValues(rest, norm));
      Associative([ValueOf(d, norm)], ItemValues(rest, norm), ReadStream(after, p.line, p.column, p.last, norm, lenient).values);
    }
  }

  lemma {:induction false} RestFollows(items: seq<Doc>, after: Text, adjacent: bool, column: int)
    requires items != [] && ItemsOk(items, adjacent, column) && MayFollow(items, after)
    ensures Follows(items[0], ItemChars(items[1..]) + after)
  {
    var rest, u := items[1..], ItemChars(items[1..]) + after;
    if rest != [] {
      var body := CharsStart(rest[0], false, DocColumn(items[0], column));
      assert u[0] == rest[0].gap[0];
      EndsFollow(items[0], u);
    } else {
      assert u == after;
    }
  }

  lemma {:induction false} StreamStep(input: Text, line: nat, column: int, last: TokenKind, norm: Text -> Text, lenient: bool,
                                      v: Value, rest: Text)
    requires Reads(ReadValue(input, line, column, AllowsAdjacent(last), norm, lenient), v, rest)
    ensures var p := ReadValue(input, line, column, AllowsAdjacent(last), norm, lenient).value;
      var s := ReadStream(rest, p.line, p.column, p.last, norm, lenient);
      ReadStream(input, line, column, last, norm, lenient) == FirstOf(v, s)
  {
  }

  // The handler's part

  /** A call of the handler for packets or for items. */
  datatype Call = PacketStart | Item(column: nat, value: Value) | PacketEnd(packet: seq<Value>)

  /** The response to the last of some calls. */
  type Handler = seq<Call> -> int

  /** skip is the number of ends of packets to pass silently; stop is the code that ends the loop early. */
  datatype Packing = Packing(skip: nat, column: nat, packet: seq<Value>, recorded: seq<seq<Value>>, some: bool,
                             trace: seq<Call>, stop: Option<int>)

  function Initial(k: nat): Packing {
    Packing(0, 0, Unknowns(k), [], false, [], None)
  }

  /** The start of a packet; its handler's response can be to skip it, or it and all others, or to end. */
  function Begin(handler: Handler, s: Packing): Packing {
    if s.column != 0 then s
    else if s.skip > 0 then s.(skip := s.skip + 1)
    else
      var t := s.(trace := s.trace + [PacketStart]);
      var r := handler(t.trace);
      if r == SKIP_CURRENT then t.(skip := 1)
      else if r == SKIP_SIBLINGS then t.(skip := 2)
      else if r == END then t.(stop := Some(r))
      else t
  }

  /** A value of the packet; its handler is called even in packets that are skipped. */
  function Put(handler: Handler, s: Packing, v: Value): Packing
    requires s.column < |s.packet|
  {
    var t := s.(packet := s.packet[s.column := v], trace := s.trace + [Item(s.column, v)], column := s.column + 1);
    var r := handler(t.trace);
    if r == SKIP_CURRENT || r == CONTINUE then t
    else if r == SKIP_SIBLINGS then t.(skip := 1)
    else t.(stop := Some(r))
  }

  /** The end of a packet: it is recorded if it is not skipped and its handler says to continue. */
  function Close(handler: Handler, s: Packing): Packing {
    var t := s.(column := 0, some := true);
    if s.skip > 0 then t.(skip := s.skip - 1)
    else
      var u := t.(trace := s.trace + [PacketEnd(s.packet)]);
      var r := handler(u.trace);
      if r == CONTINUE then u.(recorded := s.recorded + [s.packet])
      else if r == SKIP_CURRENT then u
      else if r == SKIP_SIBLINGS then u.(skip := 1)
      else u.(stop := Some(r))
  }

  /** What parse_loop_packets does with one value. */
  function OnValue(handler: Handler, s: Packing, v: Value): (t: Packing)
    requires s.column < |s.packet|
    ensures |t.packet| == |s.packet| && (t.stop.None? ==> t.column < |t.packet|)
  {
    var b := Begin(handler, s);
    if b.stop.Some? then b
    else
      var p := Put(handler, b, v);
      if p.stop.Some? || p.column < |p.packet| then p else Close(handler, p)
  }

  function OnValues(handler: Handler, s: Packing, values: seq<Value>): (t: Packing)
    requires s.stop.None? ==> s.column < |s.packet|
    ensures |t.packet| == |s.packet| && (t.stop.None? ==> t.column < |t.packet|)
    decreases |values|
  {
    if values == [] || s.stop.Some? then s else OnValues(handler, OnValue(handler, s, values[0]), values[1..])
  }

  /** The end of the loop body: a packet begun is filled up and closed, if the error callback lets it be. */
  function EndBody(handler: Handler, s: Packing, onPartial: int, onEmpty: int): Packing
    requires s.column < |s.packet|
  {
    if s.column != 0 then
      if onPartial != OK then s.(stop := Some(onPartial))
      else Close(handler, s.(packet := s.packet[..s.column] + Unknowns(|s.packet| - s.column)))
    else if !s.some then s.(stop := Some(onEmpty))
    else s
  }

  /** What the end of the stream leads to: a value that does not parse may already have begun a packet. */
  function OnEnd(handler: Handler, s: Packing, end: Ending, onPartial: int, onEmpty: int): (Packing, Option<Code>)
    requires s.stop.None? ==> s.column < |s.packet|
  {
    if s.stop.Some? then (s, None)
    else match end
      case Ended(_) => (EndBody(handler, s, onPartial, onEmpty), None)
      case Broken(e) => (s, Some(e))
      case BadValue(e) => var b := Begin(handler, s); (b, if b.stop.Some? then None else Some(e))
  }

  /** The local variables of parse_loop_packets; one packet is used for all. */
  class Packer {
    var skip: nat
    var column: nat
    const packet: array<Value>
    var recorded: seq<seq<Value>>
    var some: bool
    var trace: seq<Call>
    var stop: Option<int>

    ghost function View(): Packing
      reads this, packet
    {
      Packing(skip, column, packet[..], recorded, some, trace, stop)
    }

    constructor (k: nat)
      ensures fresh(packet) && packet.Length == k && View() == Initial(k)
    {
      packet := new Value[k](i => Unknown);
      skip, column, recorded, some, trace, stop := 0, 0, [], false, [], None;
      new;
      assert packet[..] == Unknowns(k);
    }

    method BeginPacket(handler: Handler)
      modifies this
      ensures View() == Begin(handler, old(View()))
    {
      if column == 0 {
        if skip > 0 {
          skip := skip + 1;
        } else {
          trace := trace + [PacketStart];
          var r := handler(trace);
          if r == SKIP_CURRENT {
            skip := 1;
          } else if r == SKIP_SIBLINGS {
            skip := 2;
          } else if r == END {
            stop := Some(r);
          }
        }
      }
    }

    method PutValue(handler: Handler, v: Value)
      requires column < packet.Length
      modifies this, packet
      ensures View() == Put(handler, old(View()), v)
    {
      packet[column] := v;
      trace := trace + [Item(column, v)];
      column := column + 1;
      var r := handler(trace);
      if r == SKIP_SIBLINGS {
        skip := 1;
      } else if r != SKIP_CURRENT && r != CONTINUE {
        stop := Some(r);
      }
    }

    method ClosePacket(handler: Handler)
      modifies this
      ensures View() == Close(handler, old(View()))
    {
      column, some := 0, true;
      if skip > 0 {
        skip := skip - 1;
      } else {
        trace := trace + [PacketEnd(packet[..])];
        var r := handler(trace);
        if r == CONTINUE {
          recorded := recorded + [packet[..]];
        } else if r == SKIP_SIBLINGS {
          skip := 1;
        } else if r != SKIP_CURRENT {
          stop := Some(r);
        }
      }
    }

    method TakeValue(handler: Handler, v: Value)
      requires column < packet.Length
      modifies this, packet
      ensures View() == OnValue(handler, old(View()), v)
    {
      BeginPacket(handler);
      if stop.None? {
        PutValue(handler, v);
        if stop.None? && column == packet.Length {
          ClosePacket(handler);
        }
      }
    }

    /** Overwrites the values from the current column on with unknown values. */
    method FillUnknown()
      requires column <= packet.Length
      modifies packet
      ensures packet[..] == old(packet[..column]) + Unknowns(packet.Length - column)
    {
      var i := column;
      while i < packet.Length
        invariant column <= i <= packet.Length
        invariant packet[..column] == old(packet[..column])
        invariant forall j :: column <= j < i ==> packet[j] == Unknown
      {
        packet[i] := Unknown;
        i := i + 1;
      }
      assert packet[..] == packet[..column] + packet[column..];
    }

    method FinishBody(handler: Handler, onPartial: int, onEmpty: int)
      requires column < packet.Length
      modifies this, packet
      ensures View() == EndBody(handler, old(View()), onPartial, onEmpty)
    {
      if column != 0 {
        if onPartial != OK {
          stop := Some(onPartial);
        } else {
          FillUnknown();
          ClosePacket(handler);
        }
      } else if !some {
        stop := Some(onEmpty);
      }
    }
  }

  /**
   parse_loop_packets: the packets recorded, the handler's calls, and the code
   or the error that ends it, are those of the stream of values.
   */
  method ParseLoopBody(input: Text, line0: nat, column0: int, last0: TokenKind, k: nat, norm: Text -> Text, lenient: bool,
                       handler: Handler, onPartial: int, onEmpty: int)
    returns (s: Packer, error: Option<Code>)
    requires k > 0
    ensures fresh(s) && var stream := ReadStream(input, line0, column0, last0, norm, lenient);
      (s.View(), error) == OnEnd(handler, OnValues(handler, Initial(k), stream.values), stream.end, onPartial, onEmpty)
  {
    s := new Packer(k);
    var rest, line, column, last := input, line0, column0, last0;
    ghost var stream := ReadStream(input, line0, column0, last0, norm, lenient);
    ghost var goal := OnEnd(handler, OnValues(handler, Initial(k), stream.values), stream.end, onPartial, onEmpty);
    while true
      invariant fresh(s) && fresh(s.packet) && s.packet.Length == k && s.stop.None? && s.column < k
      invariant stream == ReadStream(rest, line, column, last, norm, lenient)
      invariant goal == OnEnd(handler, OnValues(handler, s.View(), stream.values), stream.end, onPartial, onEmpty)
      decreases |rest|
    {
      var token := NextToken(rest, line, column, AllowsAdjacent(last), lenient);
      if token.Err? { return s, Some(token.error); }
      var t := token.value;
      if BodyError(t.kind).Some? { return s, Some(BodyError(t.kind).value); }
      if !StartsValue(t.kind) {
        s.FinishBody(handler, onPartial, onEmpty);
        return s, None;
      }
      var parsed := ParseValue(t, norm, lenient);
      if parsed.Err? {
        s.BeginPacket(handler);
        return s, if s.stop.Some? then None else Some(parsed.error);
      }
      var p := parsed.value;
      stream := ReadStream(p.rest, p.line, p.column, p.last, norm, lenient);
      FirstValue(handler, s.View(), p.value, stream.values);
      s.TakeValue(handler, p.value);
      if s.stop.Some? { return s, None; }
      rest, line, column, last := p.rest, p.line, p.column, p.last;
    }
  }

  lemma {:induction false} FirstValue(handler: Handler, s: Packing, v: Value, values: seq<Value>)
    requires s.stop.None? && s.column < |s.packet|
    ensures OnValues(handler, s, [v] + values) == OnValues(handler, OnValue(handler, s, v), values)
  {
    assert ([v] + values)[1..] == values;
  }

  // What every run keeps

  /** Some elements of a sequence, in their order. */
  ghost predicate Picks(a: seq<seq<Value>>, b: seq<seq<Value>>)
    decreases |b|
  {
    if b == [] then a == []
    else Picks(a, b[..|b| - 1]) || (a != [] && a[|a| - 1] == b[|b| - 1] && Picks(a[..|a| - 1], b[..|b| - 1]))
  }

  lemma {:induction false} PicksMore(a: seq<seq<Value>>, b: seq<seq<Value>>, x: seq<Value>)
    requires Picks(a, b)
    ensures Picks(a, b + [x]) && Picks(a + [x], b + [x])
  {
    assert (b + [x])[..|b|] == b && (a + [x])[..|a|] == a;
  }

  lemma {:induction false} PicksPrefix(a: seq<seq<Value>>, b: seq<seq<Value>>, c: seq<seq<Value>>)
    requires Picks(a, b)
    ensures Picks(a, b + c)
    decreases |c|
  {
    if c == [] {
      assert b + c == b;
    } else {
      var n := |c| - 1;
      PicksPrefix(a, b, c[..n]);
      PicksMore(a, b + c[..n], c[n]);
      assert b + c[..n] + [c[n]] == b + c;
    }
  }

  /** The state after the first i values: closed are the packets that have been filled. */
  ghost predicate Kept(s: Packing, values: seq<Value>, k: nat, closed: seq<seq<Value>>, i: nat)
    requires k > 0
  {
    && Picks(s.recorded, closed) && Filling(values, k, closed, s.packet, s.column, i)
    && Items(s.trace) == values[..i]
  }

  lemma {:induction false} ValuesStep(handler: Handler, s: Packing, values: seq<Value>, i: nat)
    requires i < |values| && s.stop.None? && s.column < |s.packet|
    ensures OnValues(handler, s, values[i..]) == OnValues(handler, OnValue(handler, s, values[i]), values[i + 1..])
  {
    assert values[i..][1..] == values[i + 1..];
  }

  /** The values for which the item handler has been called. */
  function Items(trace: seq<Call>): seq<Value> {
    if trace == [] then []
    else
      var c := trace[|trace| - 1];
      Items(trace[..|trace| - 1]) + if c.Item? then [c.value] else []
  }

  lemma {:induction false} ItemsAppend(trace: seq<Call>, c: Call)
    ensures Items(trace + [c]) == Items(trace) + if c.Item? then [c.value] else []
  {
    assert (trace + [c])[..|trace|] == trace;
  }

  lemma {:induction false} BeginKeeps(handler: Handler, s: Packing)
    ensures var b := Begin(handler, s);
      b.column == s.column && b.packet == s.packet && b.recorded == s.recorded && b.some == s.some && Items(b.trace) == Items(s.trace)
  {
    BeginFrame(handler, s);
    NoItem(s.trace, PacketStart);
  }

  lemma {:induction false} BeginFrame(handler: Handler, s: Packing)
    ensures var b := Begin(handler, s);
      && b.column == s.column && b.packet == s.packet && b.recorded == s.recorded && b.some == s.some
      && (b.trace == s.trace || b.trace == s.trace + [PacketStart])
  {
  }

  lemma {:induction false} NoItem(trace: seq<Call>, c: Call)
    requires !c.Item?
    ensures Items(trace + [c]) == Items(trace)
  {
    ItemsAppend(trace, c);
    assert Items(trace) + [] == Items(trace);
  }

  lemma {:induction false} PutKeeps(handler: Handler, s: Packing, v: Value)
    requires s.column < |s.packet|
    ensures var p := Put(handler, s, v);
      && p.column == s.column + 1 && p.packet == s.packet[s.column := v] && p.recorded == s.recorded
      && Items(p.trace) == Items(s.trace) + [v]
  {
    PutFrame(handler, s, v);
    ItemsAppend(s.trace, Item(s.column, v));
  }

  lemma {:induction false} PutFrame(handler: Handler, s: Packing, v: Value)
    requires s.column < |s.packet|
    ensures var p := Put(handler, s, v);
      && p.column == s.column + 1 && p.packet == s.packet[s.column := v] && p.recorded == s.recorded
      && p.trace == s.trace + [Item(s.column, v)]
  {
  }

  lemma {:induction false} CloseKeeps(handler: Handler, s: Packing, closed: seq<seq<Value>>)
    requires Picks(s.recorded, closed)
    ensures var t := Close(handler, s);
      && t.column == 0 && t.packet == s.packet && Items(t.trace) == Items(s.trace)
      && Picks(t.recorded, closed + [s.packet])
  {
    PicksMore(s.recorded, closed, s.packet);
    NoItem(s.trace, PacketEnd(s.packet));
  }

  /** One more value: it goes into its column, and is handed to the item handler, unless the handler ends the loop before. */
  lemma {:induction false} ValueKept(handler: Handler, s: Packing, values: seq<Value>, k: nat, closed: seq<seq<Value>>, i: nat)
    returns (closed': seq<seq<Value>>, others: seq<seq<Value>>)
    requires k > 0 && i < |values| && Kept(s, values, k, closed, i) && s.stop.None?
    ensures var t := OnValue(handler, s, values[i]);
      && (t.stop.None? ==> Kept(t, values, k, closed', i + 1))
      && Picks(t.recorded, closed') && (Items(t.trace) == values[..i] || Items(t.trace) == values[..i + 1])
    ensures FullPackets(values, k) == closed' + others
  {
    var b, v := Begin(handler, s), values[i];
    BeginKeeps(handler, s);
    closed', others := closed, FullPackets(values[i - s.column..], k);
    if b.stop.None? {
      var p := Put(handler, b, v);
      PutKeeps(handler, b, v);
      assert values[..i + 1] == values[..i] + [v];
      FillingStep(values, k, closed, s.packet, s.column, i);
      if p.stop.None? && p.column == k {
        CloseKeeps(handler, p, closed);
        closed', others := closed + [p.packet], FullPackets(values[i + 1..], k);
      }
    }
  }

  /** The packets recorded are some of the groups of the values, and the values handed to the handler are the first of them. */
  ghost predicate InOrder(t: Packing, values: seq<Value>, k: nat)
    requires k > 0
  {
    && Picks(t.recorded, FullPackets(values, k)) && Items(t.trace) <= values
    && (t.stop.None? ==> Items(t.trace) == values && t.column <= |t.packet| && t.packet[..t.column] == Leftover(values, k))
  }

  /**
   Whatever the handler's responses, the packets recorded are some of the
   consecutive groups of the values, whole and in order, and the item handler
   has been called for the values in order, each once, up to where the loop ends.
   */
  lemma {:induction false} RecordedInOrder(handler: Handler, s: Packing, values: seq<Value>, k: nat, closed: seq<seq<Value>>, i: nat)
    requires k > 0 && Kept(s, values, k, closed, i) && s.stop.None?
    ensures InOrder(OnValues(handler, s, values[i..]), values, k)
    decreases |values| - i
  {
    if i == |values| {
      AllKept(s, values, k, closed);
      ValuesEnd(handler, s, values[i..]);
    } else {
      var closed', others := ValueKept(handler, s, values, k, closed, i);
      var t := OnValue(handler, s, values[i]);
      ValuesStep(handler, s, values, i);
      if t.stop.None? {
        RecordedInOrder(handler, t, values, k, closed', i + 1);
      } else {
        ValuesEnd(handler, t, values[i + 1..]);
        PicksPrefix(t.recorded, closed', others);
        PrefixOf(values, i);
      }
    }
  }

  lemma {:induction false} ValuesEnd(handler: Handler, s: Packing, values: seq<Value>)
    requires values == [] || s.stop.Some?
    requires s.stop.None? ==> s.column < |s.packet|
    ensures OnValues(handler, s, values) == s
  {
  }

  lemma {:induction false} AllKept(s: Packing, values: seq<Value>, k: nat, closed: seq<seq<Value>>)
    requires k > 0 && Kept(s, values, k, closed, |values|)
    ensures Picks(s.recorded, FullPackets(values, k)) && Items(s.trace) == values
    ensures s.packet[..s.column] == Leftover(values, k)
  {
    PicksPrefix(s.recorded, closed, FullPackets(values[|values| - s.column..], k));
    assert values[..|values|] == values;
    ReadAll(values, k, closed, s.packet, s.column);
  }

  lemma {:induction false} PrefixOf(values: seq<Value>, i: nat)
    requires i < |values|
    ensures values[..i] <= values && values[..i + 1] <= values
  {
  }

  // Skipping the siblings of a packet

  /** All packets to come are skipped, and so is the one begun, if any. */
  predicate SkipsRest(s: Packing) {
    s.skip >= if s.column == 0 then 1 else 2
  }

  ghost predicate ItemsNeverSkip(handler: Handler) {
    forall trace: seq<Call> :: trace != [] && trace[|trace| - 1].Item? ==> handler(trace) != SKIP_SIBLINGS
  }

  lemma {:induction false} SkipStep(handler: Handler, s: Packing, v: Value)
    requires s.column < |s.packet| && SkipsRest(s) && ItemsNeverSkip(handler)
    ensures var t := OnValue(handler, s, v); t.recorded == s.recorded && (t.stop.None? ==> SkipsRest(t))
  {
    var trace := s.trace + [Item(s.column, v)];
    assert trace[|trace| - 1].Item?;
  }

  /**
   Once the siblings of a packet are to be skipped, no other packet of the loop
   is recorded, provided that no response to an item is to skip its siblings.
   */
  lemma {:induction false} SkippingLasts(handler: Handler, s: Packing, values: seq<Value>, end: Ending, onPartial: int, onEmpty: int)
    requires s.stop.None? && s.column < |s.packet| && SkipsRest(s) && ItemsNeverSkip(handler)
    ensures OnEnd(handler, OnValues(handler, s, values), end, onPartial, onEmpty).0.recorded == s.recorded
    decreases |values|
  {
    if values != [] {
      var t := OnValue(handler, s, values[0]);
      SkipStep(handler, s, values[0]);
      if t.stop.None? { SkippingLasts(handler, t, values[1..], end, onPartial, onEmpty); }
    }
  }

  /** Responds to the first packet and to its first item with skipping the siblings, and then to continue. */
  function SkipsTwice(trace: seq<Call>): int {
    if |trace| <= 2 then SKIP_SIBLINGS else CONTINUE
  }

  /** Skipping the siblings of an item makes up for skipping those of its packet: the second packet is recorded. */
  lemma {:induction false} SkippingForgotten(v: Value)
    ensures SkipsTwice([PacketStart]) == SKIP_SIBLINGS
    ensures OnValues(SkipsTwice, Initial(1), [v, v]).recorded == [[v]]
  {
    var s := OnValue(SkipsTwice, Initial(1), v);
    assert s == Packing(0, 0, [v], [], true, [PacketStart, Item(0, v)], None);
    var b := Begin(SkipsTwice, s);
    assert b == s.(trace := [PacketStart, Item(0, v), PacketStart]);
    var p := Put(SkipsTwice, b, v);
    assert p.packet == [v] && p.stop.None? && p.skip == 0 && p.column == 1;
    var t := OnValue(SkipsTwice, s, v);
    assert t.recorded == [[v]];
    ValuesStep(SkipsTwice, Initial(1), [v, v], 0);
    ValuesStep(SkipsTwice, s, [v, v], 1);
    assert [v, v][0..] == [v, v] && [v, v][2..] == [];
  }

  // With responses to continue only

  ghost predicate AlwaysContinues(handler: Handler) {
    forall trace :: handler(trace) == CONTINUE
  }

  /** Every packet closed has been recorded, and none is to be skipped. */
  ghost predicate AllRecorded(s: Packing, values: seq<Value>, k: nat, i: nat)
    requires k > 0
  {
    && Filling(values, k, s.recorded, s.packet, s.column, i)
    && s.skip == 0 && s.stop.None? && (s.some <==> s.recorded != [])
  }

  lemma {:induction false} ContinueStep(handler: Handler, s: Packing, values: seq<Value>, k: nat, i: nat)
    requires k > 0 && i < |values| && AlwaysContinues(handler) && AllRecorded(s, values, k, i)
    ensures AllRecorded(OnValue(handler, s, values[i]), values, k, i + 1)
  {
    FillingStep(values, k, s.recorded, s.packet, s.column, i);
  }

  /** All whole packets have been recorded, and what is left over is in the packet. */
  ghost predicate AllWhole(t: Packing, values: seq<Value>, k: nat)
    requires k > 0
  {
    && t.stop.None? && t.skip == 0 && t.recorded == FullPackets(values, k) && (t.some <==> t.recorded != [])
    && t.column < k == |t.packet| && t.packet[..t.column] == Leftover(values, k)
  }

  lemma {:induction false} AllRead(handler: Handler, s: Packing, values: seq<Value>, k: nat)
    requires k > 0 && AllRecorded(s, values, k, |values|)
    ensures AllWhole(OnValues(handler, s, values[|values|..]), values, k)
  {
    ReadAll(values, k, s.recorded, s.packet, s.column);
    ValuesEnd(handler, s, values[|values|..]);
  }

  lemma {:induction false} ContinueRun(handler: Handler, s: Packing, values: seq<Value>, k: nat, i: nat)
    requires k > 0 && i <= |values| && AlwaysContinues(handler) && AllRecorded(s, values, k, i)
    ensures AllWhole(OnValues(handler, s, values[i..]), values, k)
    decreases |values| - i
  {
    if i == |values| {
      AllRead(handler, s, values, k);
    } else {
      ContinueStep(handler, s, values, k, i);
      ValuesStep(handler, s, values, i);
      ContinueRun(handler, OnValue(handler, s, values[i]), values, k, i + 1);
    }
  }

  /**
   With responses to continue only, the packets recorded are exactly the
   consecutive groups of the values of the loop body, the last filled up with
   unknown values.
   */
  lemma {:induction false} AllPackets(handler: Handler, k: nat, stream: Stream, onEmpty: int)
    requires k > 0 && AlwaysContinues(handler) && stream.end.Ended? && stream.values != []
    ensures var (s, error) := OnEnd(handler, OnValues(handler, Initial(k), stream.values), stream.end, OK, onEmpty);
      error.None? && s.stop.None? && s.recorded == Packets(stream.values, k)
  {
    var values := stream.values;
    assert values[0..] == values;
    assert [] + FullPackets(values, k) == FullPackets(values, k);
    ContinueRun(handler, Initial(k), values, k, 0);
    LastClosed(handler, OnValues(handler, Initial(k), values), values, k, onEmpty);
  }

  lemma {:induction false} LastClosed(handler: Handler, t: Packing, values: seq<Value>, k: nat, onEmpty: int)
    requires k > 0 && AlwaysContinues(handler) && values != [] && AllWhole(t, values, k)
    ensures var s := EndBody(handler, t, OK, onEmpty); s.stop.None? && s.recorded == Packets(values, k)
  {
    PacketCount(values, k);
    if t.column == 0 { assert t.recorded + [] == t.recorded; }
  }

  /**
   From characters to packets: the values laid out in a loop body, with any
   white space, come out as packets in order, without any dropped or repeated.
   */
  lemma {:induction false} LayoutToPackets(items: seq<Doc>, after: Text, line: nat, column: int, last: TokenKind, norm: Text -> Text,
                                           lenient: bool, k: nat, handler: Handler, onEmpty: int) returns (p: Parsed)
    requires k > 0 && AlwaysContinues(handler) && items != []
    requires ItemsOk(items, AllowsAdjacent(last), column) && MayFollow(items, after) && (lenient || ItemsWithin(items, column))
    ensures p.rest == after && p.column == ItemsColumn(items, column) && !AllowsAdjacent(p.last)
    ensures var next := NextToken(after, p.line, p.column, false, lenient);
      next.Ok? && BodyError(next.value.kind).None? && !StartsValue(next.value.kind) ==>
        var stream := ReadStream(ItemChars(items) + after, line, column, last, norm, lenient);
        var (s, error) := OnEnd(handler, OnValues(handler, Initial(k), stream.values), stream.end, OK, onEmpty);
        error.None? && s.stop.None? && s.recorded == Packets(ItemValues(items, norm), k)
  {
    p := StreamOfLayout(items, after, line, column, last, norm, lenient);
    var next := NextToken(after, p.line, p.column, false, lenient);
    if next.Ok? && BodyError(next.value.kind).None? && !StartsValue(next.value.kind) {
      var stream := ReadStream(ItemChars(items) + after, line, column, last, norm, lenient);
      assert ItemValues(items, norm) + [] == ItemValues(items, norm);
      AllPackets(handler, k, stream, onEmpty);
    }
  }
}
