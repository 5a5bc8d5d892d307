/**
 Which packets of a loop body are recorded, and which calls are made, by the
 handler's responses to the starts and ends of packets.
 */
module LoopSelection {
  import opened Bignum
  import opened Values
  import opened Wrappers
  import opened LoopBody
  import opened LoopPackets

  /** The values read for a packet, and the packet that they make. */
  datatype Group = Group(items: seq<Value>, packet: seq<Value>)

  /** The values of a loop body in groups; the packet of the last is filled up with unknown values. */
  function Groups(values: seq<Value>, k: nat): seq<Group>
    requires k > 0
  {
    if values == [] then []
    else if |values| < k then [Group(values, values + Unknowns(k - |values|))]
    else [Group(values[..k], values[..k])] + Groups(values[k..], k)
  }

  /** The packets of the groups are the consecutive groups of the values. */
  lemma {:induction false} GroupPackets(values: seq<Value>, k: nat)
    requires k > 0
    ensures var groups := Groups(values, k);
      |groups| == |Packets(values, k)| && forall j :: 0 <= j < |groups| ==> groups[j].packet == Packets(values, k)[j]
  {
    if |values| >= k {
      GroupPackets(values[k..], k);
      assert Packets(values, k) == [values[..k]] + Packets(values[k..], k);
    }
  }

  /**
   A group's turn: whether its packet is opened and closed, that is, whether the
   handler is called for its start and its end, and the responses.
   */
  datatype Turn = Turn(begun: bool, onStart: int, closed: bool, onEnd: int)

  predicate SkipsSiblings(t: Turn) {
    (t.begun && t.onStart == SKIP_SIBLINGS) || (t.closed && t.onEnd == SKIP_SIBLINGS)
  }

  predicate EndsLoop(t: Turn) {
    (t.begun && t.onStart == END) || (t.closed && t.onEnd !in {CONTINUE, SKIP_CURRENT, SKIP_SIBLINGS})
  }

  predicate Records(t: Turn) {
    t.closed && t.onEnd == CONTINUE
  }

  function ItemCalls(items: seq<Value>): seq<Call> {
    seq(|items|, i requires 0 <= i < |items| => Item(i, items[i]))
  }

  function StartCalls(t: Turn): seq<Call> {
    if t.begun then [PacketStart] else []
  }

  /** The calls of a turn: the items are handed out whether or not the packet is skipped. */
  function TurnCalls(t: Turn, g: Group): seq<Call> {
    if t.begun && t.onStart == END then [PacketStart]
    else StartCalls(t) + ItemCalls(g.items) + if t.closed then [PacketEnd(g.packet)] else []
  }

  function Calls(groups: seq<Group>, turns: seq<Turn>): seq<Call>
    requires |turns| <= |groups|
  {
    if turns == [] then []
    else var n := |turns| - 1; Calls(groups, turns[..n]) + TurnCalls(turns[n], groups[n])
  }

  /** The packets of the turns that record theirs. */
  function Selected(groups: seq<Group>, turns: seq<Turn>): seq<seq<Value>>
    requires |turns| <= |groups|
  {
    if turns == [] then []
    else var n := |turns| - 1; Selected(groups, turns[..n]) + if Records(turns[n]) then [groups[n].packet] else []
  }

  /**
   A packet is opened unless an earlier response was to skip siblings, and it
   is closed if it was opened and the response was not to skip it or to end;
   a turn that ends the loop is the last one.
   */
  ghost predicate TurnAt(handler: Handler, groups: seq<Group>, turns: seq<Turn>, j: nat)
    requires j < |turns| <= |groups|
  {
    var t, g, before := turns[j], groups[j], Calls(groups, turns[..j]);
    && (t.begun <==> forall i :: 0 <= i < j ==> !SkipsSiblings(turns[i]))
    && (t.begun ==> t.onStart == handler(before + [PacketStart]))
    && (t.closed <==> t.begun && t.onStart !in {SKIP_CURRENT, SKIP_SIBLINGS, END})
    && (t.closed ==> t.onEnd == handler(before + [PacketStart] + ItemCalls(g.items) + [PacketEnd(g.packet)]))
    && (j + 1 < |turns| ==> !EndsLoop(t))
  }

  ghost predicate TakenSoFar(handler: Handler, groups: seq<Group>, turns: seq<Turn>) {
    |turns| <= |groups| && forall j :: 0 <= j < |turns| ==> TurnAt(handler, groups, turns, j)
  }

  predicate LoopEnded(turns: seq<Turn>) {
    turns != [] && EndsLoop(turns[|turns| - 1])
  }

  /** Every group has its turn, unless the handler ends the loop before. */
  ghost predicate Taken(handler: Handler, groups: seq<Group>, turns: seq<Turn>) {
    TakenSoFar(handler, groups, turns) && (|turns| < |groups| ==> LoopEnded(turns))
  }

  /** Responses to items do not skip siblings nor end the loop. */
  ghost predicate ItemsGoOn(handler: Handler) {
    forall trace: seq<Call> :: trace != [] && trace[|trace| - 1].Item? ==> handler(trace) in {CONTINUE, SKIP_CURRENT}
  }

  // One group

  /** A packet begun, after its first n items. */
  function Filled(b: Packing, items: seq<Value>, n: nat): (f: Packing)
    requires n <= |items| && n <= |b.packet|
    ensures |f.packet| == |b.packet| && f.column == n && f.stop == b.stop
  {
    b.(packet := items[..n] + b.packet[n..], trace := b.trace + ItemCalls(items[..n]), column := n)
  }

  lemma {:induction false} FilledStep(handler: Handler, b: Packing, items: seq<Value>, n: nat)
    requires n < |items| <= |b.packet| && ItemsGoOn(handler)
    ensures Put(handler, Filled(b, items, n), items[n]) == Filled(b, items, n + 1)
  {
    var s := Filled(b, items, n);
    var t := s.trace + [Item(n, items[n])];
    assert t[|t| - 1].Item?;
    assert ItemCalls(items[..n + 1]) == ItemCalls(items[..n]) + [Item(n, items[n])];
    assert t == b.trace + ItemCalls(items[..n + 1]);
    assert s.packet[n := items[n]] == items[..n + 1] + b.packet[n + 1..];
  }

  /** What a whole packet's values, or some of them, lead to. */
  function AfterItems(handler: Handler, b: Packing, items: seq<Value>): Packing
    requires |items| <= |b.packet|
  {
    var f := Filled(b, items, |items|);
    if |items| < |b.packet| then f else Close(handler, f)
  }

  /** What OnValue does once the value is in the packet. */
  function AfterPut(handler: Handler, p: Packing): (q: Packing)
    ensures q.stop.None? && |p.packet| > 0 ==> q.column < |q.packet|
  {
    if p.stop.Some? || p.column < |p.packet| then p else Close(handler, p)
  }

  lemma {:induction false} ItemStep(handler: Handler, f: Packing, b: Packing, items: seq<Value>, n: nat) returns (p: Packing)
    requires n < |items| <= |b.packet| && b.stop.None? && ItemsGoOn(handler) && f == Filled(b, items, n)
    ensures p == AfterPut(handler, Put(handler, f, items[n]))
    ensures p == if n + 1 < |b.packet| then Filled(b, items, n + 1) else AfterItems(handler, b, items)
  {
    p := AfterPut(handler, Put(handler, f, items[n]));
    FilledStep(handler, b, items, n);
  }

  /** The rest of a packet's values, after n of them. */
  lemma {:induction false} FilledRest(handler: Handler, p: Packing, b: Packing, items: seq<Value>, n: nat)
    requires 0 < n <= |items| <= |b.packet| && b.stop.None? && ItemsGoOn(handler)
    requires p == if n < |b.packet| then Filled(b, items, n) else AfterItems(handler, b, items)
    ensures OnValues(handler, p, items[n..]) == AfterItems(handler, b, items)
    decreases |items| - n
  {
    if n == |items| {
      ValuesEnd(handler, p, items[n..]);
    } else {
      var q := ItemStep(handler, p, b, items, n);
      LaterValue(handler, p, items, n, q);
      FilledRest(handler, q, b, items, n + 1);
    }
  }

  lemma {:induction false} LaterValue(handler: Handler, p: Packing, items: seq<Value>, n: nat, q: Packing)
    requires n < |items| && 0 < p.column < |p.packet| && p.stop.None? && q == AfterPut(handler, Put(handler, p, items[n]))
    requires q.stop.None? ==> q.column < |q.packet|
    ensures OnValues(handler, p, items[n..]) == OnValues(handler, q, items[n + 1..])
  {
    ValuesStep(handler, p, items, n);
  }

  lemma {:induction false} FilledNone(b: Packing, items: seq<Value>)
    requires b.column == 0
    ensures b == Filled(b, items, 0)
  {
    assert ItemCalls(items[..0]) == [] && b.trace + [] == b.trace;
    assert items[..0] + b.packet[0..] == b.packet;
  }

  /** The values of a packet that has been begun. */
  lemma {:induction false} ItemsRead(handler: Handler, b: Packing, items: seq<Value>) returns (p: Packing)
    requires b.column == 0 && b.stop.None? && 0 < |items| <= |b.packet| && ItemsGoOn(handler)
    ensures p == AfterPut(handler, Put(handler, b, items[0])) && (p.stop.None? ==> p.column < |p.packet|)
    ensures OnValues(handler, p, items[1..]) == AfterItems(handler, b, items)
  {
    FilledNone(b, items);
    p := ItemStep(handler, b, b, items, 0);
    FilledRest(handler, p, b, items, 1);
  }

  lemma {:induction false} FirstValue(handler: Handler, s: Packing, v: Value)
    requires s.column < |s.packet|
    ensures var b := Begin(handler, s);
      |b.packet| == |s.packet| && b.column == s.column
      && OnValue(handler, s, v) == if b.stop.Some? then b else AfterPut(handler, Put(handler, b, v))
  {
    BeginFrame(handler, s);
  }

  /** The values of one packet. */
  lemma {:induction false} GroupRead(handler: Handler, s: Packing, items: seq<Value>)
    requires s.column == 0 && s.stop.None? && 0 < |items| <= |s.packet| && ItemsGoOn(handler)
    ensures var b := Begin(handler, s);
      |b.packet| == |s.packet| && OnValues(handler, s, items) == if b.stop.Some? then b else AfterItems(handler, b, items)
  {
    var b := Begin(handler, s);
    FirstValue(handler, s, items[0]);
    assert items[0..] == items;
    ValuesStep(handler, s, items, 0);
    if b.stop.Some? {
      ValuesEnd(handler, b, items[1..]);
    } else {
      var p := ItemsRead(handler, b, items);
    }
  }

  lemma {:induction false} ValuesConcat(handler: Handler, s: Packing, a: seq<Value>, b: seq<Value>)
    requires s.stop.None? ==> s.column < |s.packet|
    ensures OnValues(handler, s, a + b) == OnValues(handler, OnValues(handler, s, a), b)
    decreases |a|
  {
    if a == [] {
      assert a + b == b;
    } else if s.stop.None? {
      assert (a + b)[0] == a[0] && (a + b)[1..] == a[1..] + b;
      ValuesConcat(handler, OnValue(handler, s, a[0]), a[1..], b);
    }
  }

  // Turns

  /** The turn of a group, given the calls made before it and whether siblings are skipped. */
  function NextTurn(handler: Handler, before: seq<Call>, skipped: bool, g: Group): Turn {
    var onStart := handler(before + [PacketStart]);
    Turn(!skipped, onStart, !skipped && onStart !in {SKIP_CURRENT, SKIP_SIBLINGS, END},
         handler(before + [PacketStart] + ItemCalls(g.items) + [PacketEnd(g.packet)]))
  }

  predicate AnySkips(turns: seq<Turn>) {
    exists i :: 0 <= i < |turns| && SkipsSiblings(turns[i])
  }

  lemma {:induction false} CallsAppend(groups: seq<Group>, turns: seq<Turn>, t: Turn)
    requires |turns| < |groups|
    ensures Calls(groups, turns + [t]) == Calls(groups, turns) + TurnCalls(t, groups[|turns|])
    ensures Selected(groups, turns + [t]) == Selected(groups, turns) + if Records(t) then [groups[|turns|].packet] else []
  {
    assert (turns + [t])[..|turns|] == turns;
  }

  lemma {:induction false} SkipsAppend(turns: seq<Turn>, t: Turn)
    ensures AnySkips(turns + [t]) <==> AnySkips(turns) || SkipsSiblings(t)
  {
    assert (turns + [t])[|turns|] == t;
    if AnySkips(turns) {
      var i :| 0 <= i < |turns| && SkipsSiblings(turns[i]);
      assert SkipsSiblings((turns + [t])[i]);
    }
  }

  /** Each turn is the next one after those before it. */
  ghost predicate Stepwise(handler: Handler, groups: seq<Group>, turns: seq<Turn>)
    decreases |turns|
  {
    |turns| <= |groups| &&
    (turns == [] ||
      var n := |turns| - 1;
      && Stepwise(handler, groups, turns[..n]) && !LoopEnded(turns[..n])
      && turns[n] == NextTurn(handler, Calls(groups, turns[..n]), AnySkips(turns[..n]), groups[n]))
  }

  lemma {:induction false} StepwiseAppended(handler: Handler, groups: seq<Group>, turns: seq<Turn>)
    requires |turns| < |groups| && Stepwise(handler, groups, turns) && !LoopEnded(turns)
    ensures Stepwise(handler, groups, turns + [NextTurn(handler, Calls(groups, turns), AnySkips(turns), groups[|turns|])])
  {
    var all := turns + [NextTurn(handler, Calls(groups, turns), AnySkips(turns), groups[|turns|])];
    assert all[..|turns|] == turns;
  }

  lemma {:induction false} StepwisePrefix(handler: Handler, groups: seq<Group>, turns: seq<Turn>, m: nat)
    requires Stepwise(handler, groups, turns) && m <= |turns|
    ensures Stepwise(handler, groups, turns[..m])
    decreases |turns|
  {
    if m == |turns| {
      assert turns[..m] == turns;
    } else {
      assert turns[..|turns| - 1][..m] == turns[..m];
      StepwisePrefix(handler, groups, turns[..|turns| - 1], m);
    }
  }

  lemma {:induction false} LastStep(handler: Handler, groups: seq<Group>, turns: seq<Turn>, j: nat)
    requires j < |turns| <= |groups| && Stepwise(handler, groups, turns[..j + 1])
    ensures turns[j] == NextTurn(handler, Calls(groups, turns[..j]), AnySkips(turns[..j]), groups[j])
    ensures j > 0 ==> !EndsLoop(turns[j - 1])
  {
    assert turns[..j + 1][..j] == turns[..j];
  }

  lemma {:induction false} StepMeaning(handler: Handler, groups: seq<Group>, turns: seq<Turn>, j: nat)
    requires j < |turns| <= |groups| && (j + 1 < |turns| ==> !EndsLoop(turns[j]))
    requires turns[j] == NextTurn(handler, Calls(groups, turns[..j]), AnySkips(turns[..j]), groups[j])
    ensures TurnAt(handler, groups, turns, j)
  {
    assert forall i :: 0 <= i < j ==> turns[..j][i] == turns[i];
  }

  lemma {:induction false} StepTaken(handler: Handler, groups: seq<Group>, turns: seq<Turn>, j: nat)
    requires Stepwise(handler, groups, turns) && j < |turns| <= |groups|
    ensures TurnAt(handler, groups, turns, j)
  {
    StepwisePrefix(handler, groups, turns, j + 1);
    LastStep(handler, groups, turns, j);
    if j + 1 < |turns| {
      StepwisePrefix(handler, groups, turns, j + 2);
      LastStep(handler, groups, turns, j + 1);
    }
    StepMeaning(handler, groups, turns, j);
  }

  lemma {:induction false} StepwiseTaken(handler: Handler, groups: seq<Group>, turns: seq<Turn>)
    requires Stepwise(handler, groups, turns)
    ensures TakenSoFar(handler, groups, turns)
  {
    forall j | 0 <= j < |turns| ensures TurnAt(handler, groups, turns, j) {
      StepTaken(handler, groups, turns, j);
    }
  }

  /** Between packets: calls and packets so far, and whether those to come are skipped. */
  ghost predicate AtTurn(handler: Handler, s: Packing, groups: seq<Group>, turns: seq<Turn>) {
    && Stepwise(handler, groups, turns) && !LoopEnded(turns)
    && s.stop.None? && s.column == 0 && s.skip == (if AnySkips(turns) then 1 else 0)
    && s.trace == Calls(groups, turns) && s.recorded == Selected(groups, turns) && (s.some <==> turns != [])
  }

  /** After a turn, whether or not the loop goes on. */
  ghost predicate TurnDone(handler: Handler, s: Packing, groups: seq<Group>, turns: seq<Turn>) {
    && Stepwise(handler, groups, turns) && turns != []
    && s.trace == Calls(groups, turns) && s.recorded == Selected(groups, turns)
    && (s.stop.Some? <==> LoopEnded(turns)) && (s.stop.None? ==> AtTurn(handler, s, groups, turns))
  }

  /** A group's values have been read and its packet is closed, unless the loop has been ended at its start. */
  function Turned(handler: Handler, b: Packing, g: Group, column: nat): Packing {
    if b.stop.Some? then b
    else Close(handler, b.(packet := g.packet, trace := b.trace + ItemCalls(g.items), column := column))
  }

  /** A packet that is not opened or not closed, or the one that is closed with a response. */
  lemma {:induction false} TurnTaken(handler: Handler, s: Packing, groups: seq<Group>, turns: seq<Turn>, column: nat) returns (t: Turn)
    requires |turns| < |groups| && AtTurn(handler, s, groups, turns)
    ensures TurnDone(handler, Turned(handler, Begin(handler, s), groups[|turns|], column), groups, turns + [t])
  {
    var g := groups[|turns|];
    t := NextTurn(handler, s.trace, AnySkips(turns), g);
    StepwiseAppended(handler, groups, turns);
    SkipsAppend(turns, t);
    CallsAppend(groups, turns, t);
    var b := Begin(handler, s);
    if b.stop.None? {
      TurnTraces(s.trace, t, g);
      assert b.trace + ItemCalls(g.items) == s.trace + StartCalls(t) + ItemCalls(g.items);
    }
    if !Records(t) { assert Selected(groups, turns) + [] == Selected(groups, turns); }
  }

  lemma {:induction false} TurnTraces(before: seq<Call>, t: Turn, g: Group)
    requires !(t.begun && t.onStart == END)
    ensures before + TurnCalls(t, g)
      == before + StartCalls(t) + ItemCalls(g.items) + if t.closed then [PacketEnd(g.packet)] else []
    ensures before + StartCalls(t) == if t.begun then before + [PacketStart] else before
    ensures var all := before + StartCalls(t) + ItemCalls(g.items); all + [] == all
  {
  }

  /** The end of the loop body, unless the handler has ended the loop. */
  function AtEnd(handler: Handler, u: Packing, onEmpty: int): Packing
    requires u.stop.None? ==> u.column < |u.packet|
  {
    if u.stop.Some? then u else EndBody(handler, u, OK, onEmpty)
  }

  /** A packet begun is filled up and closed. */
  lemma {:induction false} PartialClosed(handler: Handler, b: Packing, values: seq<Value>, onEmpty: int)
    requires 0 < |values| < |b.packet| && b.stop.None?
    ensures AtEnd(handler, AfterItems(handler, b, values), onEmpty)
         == Turned(handler, b, Group(values, values + Unknowns(|b.packet| - |values|)), |values|)
  {
    var n, f := |values|, Filled(b, values, |values|);
    assert values[..n] == values && f.packet[..n] == values;
    assert f.(packet := values + Unknowns(|b.packet| - n))
      == b.(packet := values + Unknowns(|b.packet| - n), trace := b.trace + ItemCalls(values), column := n);
  }

  lemma {:induction false} FullResult(handler: Handler, s: Packing, items: seq<Value>)
    requires s.column == 0 && s.stop.None? && |items| == |s.packet| > 0 && ItemsGoOn(handler)
    ensures OnValues(handler, s, items) == Turned(handler, Begin(handler, s), Group(items, items), |items|)
  {
    var b := Begin(handler, s);
    GroupRead(handler, s, items);
    assert items[..|items|] == items && items + b.packet[|items|..] == items;
  }

  lemma {:induction false} PartialResult(handler: Handler, s: Packing, g: Group, onEmpty: int)
    requires s.column == 0 && s.stop.None? && 0 < |g.items| < |s.packet| && ItemsGoOn(handler)
    requires g.packet == g.items + Unknowns(|s.packet| - |g.items|)
    ensures AtEnd(handler, OnValues(handler, s, g.items), onEmpty) == Turned(handler, Begin(handler, s), g, |g.items|)
  {
    GroupRead(handler, s, g.items);
    PartialEnd(handler, Begin(handler, s), OnValues(handler, s, g.items), g, onEmpty);
  }

  lemma {:induction false} PartialEnd(handler: Handler, b: Packing, u: Packing, g: Group, onEmpty: int)
    requires 0 < |g.items| < |b.packet| && u == if b.stop.Some? then b else AfterItems(handler, b, g.items)
    requires g.packet == g.items + Unknowns(|b.packet| - |g.items|)
    ensures AtEnd(handler, u, onEmpty) == Turned(handler, b, g, |g.items|)
  {
    if b.stop.None? { PartialClosed(handler, b, g.items, onEmpty); }
  }

  /** The groups one after the other, each begun and closed, up to one that ends the loop. */
  function RunGroups(handler: Handler, s: Packing, groups: seq<Group>): Packing
    decreases |groups|
  {
    if groups == [] || s.stop.Some? then s
    else RunGroups(handler, Turned(handler, Begin(handler, s), groups[0], |groups[0].items|), groups[1..])
  }

  lemma {:induction false} TurnedFrame(handler: Handler, b: Packing, g: Group, column: nat)
    ensures var s := Turned(handler, b, g, column); s.stop.None? ==> s.column == 0 && s.some
  {
  }

  lemma {:induction false} ValuesSplit(handler: Handler, s: Packing, values: seq<Value>, k: nat)
    requires k <= |values| && (s.stop.None? ==> s.column < |s.packet|)
    ensures OnValues(handler, s, values) == OnValues(handler, OnValues(handler, s, values[..k]), values[k..])
  {
    assert values == values[..k] + values[k..];
    ValuesConcat(handler, s, values[..k], values[k..]);
  }

  lemma {:induction false} FirstOfGroups(handler: Handler, s: Packing, g: Group, others: seq<Group>)
    requires s.stop.None?
    ensures RunGroups(handler, s, [g] + others) == RunGroups(handler, Turned(handler, Begin(handler, s), g, |g.items|), others)
  {
    assert ([g] + others)[1..] == others;
  }

  lemma {:induction false} GroupsEnd(handler: Handler, s: Packing, groups: seq<Group>)
    requires groups == [] || s.stop.Some?
    ensures RunGroups(handler, s, groups) == s
  {
  }

  /** A group with as many values as there are columns; more may follow it. */
  lemma {:induction false} FullGroup(handler: Handler, s: Packing, values: seq<Value>, k: nat) returns (s': Packing)
    requires s.column == 0 && s.stop.None? && |s.packet| == k && 0 < k <= |values| && ItemsGoOn(handler)
    ensures |s'.packet| == k && (s'.stop.None? ==> s'.column == 0 && s'.some)
    ensures OnValues(handler, s, values) == OnValues(handler, s', values[k..])
    ensures RunGroups(handler, s, Groups(values, k)) == RunGroups(handler, s', Groups(values[k..], k))
  {
    var g := Group(values[..k], values[..k]);
    FullResult(handler, s, values[..k]);
    ValuesSplit(handler, s, values, k);
    s' := OnValues(handler, s, values[..k]);
    TurnedFrame(handler, Begin(handler, s), g, k);
    FirstOfGroups(handler, s, g, Groups(values[k..], k));
  }

  /** The last group, with too few values. */
  lemma {:induction false} LastGroup(handler: Handler, s: Packing, g: Group, onEmpty: int)
    requires s.column == 0 && s.stop.None? && 0 < |g.items| < |s.packet| && ItemsGoOn(handler)
    requires g.packet == g.items + Unknowns(|s.packet| - |g.items|)
    ensures AtEnd(handler, OnValues(handler, s, g.items), onEmpty) == RunGroups(handler, s, [g])
  {
    PartialResult(handler, s, g, onEmpty);
    FirstOfGroups(handler, s, g, []);
    assert [g] + [] == [g];
    GroupsEnd(handler, Turned(handler, Begin(handler, s), g, |g.items|), []);
  }

  lemma {:induction false} NoGroups(handler: Handler, s: Packing, k: nat, onEmpty: int)
    requires k > 0 && s.column == 0 < |s.packet| && s.stop.None? && s.some
    ensures AtEnd(handler, OnValues(handler, s, []), onEmpty) == RunGroups(handler, s, Groups([], k))
  {
  }

  /** At the end of a loop body all groups of its values have had their turn, unless one ended the loop. */
  lemma {:induction false} GroupsRead(handler: Handler, s: Packing, values: seq<Value>, k: nat, onEmpty: int)
    returns (u: Packing, e: Packing)
    requires s.column == 0 && s.stop.None? && |s.packet| == k > 0 && (values != [] || s.some) && ItemsGoOn(handler)
    ensures u == OnValues(handler, s, values) && e == AtEnd(handler, u, onEmpty) && e == RunGroups(handler, s, Groups(values, k))
    decreases |values|, 0
  {
    if |values| >= k {
      var s' := FullGroup(handler, s, values, k);
      u, e := OthersRead(handler, s', values[k..], k, onEmpty);
    } else {
      u := OnValues(handler, s, values);
      e := AtEnd(handler, u, onEmpty);
      if values == [] {
        NoGroups(handler, s, k, onEmpty);
      } else {
        LastGroup(handler, s, Group(values, values + Unknowns(k - |values|)), onEmpty);
      }
    }
  }

  lemma {:induction false} OthersRead(handler: Handler, s: Packing, values: seq<Value>, k: nat, onEmpty: int)
    returns (u: Packing, e: Packing)
    requires |s.packet| == k > 0 && (s.stop.None? ==> s.column == 0 && s.some) && ItemsGoOn(handler)
    ensures u == OnValues(handler, s, values) && e == AtEnd(handler, u, onEmpty) && e == RunGroups(handler, s, Groups(values, k))
    decreases |values|, 1
  {
    if s.stop.Some? {
      u, e := s, s;
      ValuesEnd(handler, s, values);
      GroupsEnd(handler, s, Groups(values, k));
    } else {
      u, e := GroupsRead(handler, s, values, k, onEmpty);
    }
  }

  lemma {:induction false} TurnStep(handler: Handler, s: Packing, groups: seq<Group>, turns: seq<Turn>) returns (s': Packing, t: Turn)
    requires AtTurn(handler, s, groups, turns) && |turns| < |groups|
    ensures TurnDone(handler, s', groups, turns + [t])
    ensures RunGroups(handler, s, groups[|turns|..]) == RunGroups(handler, s', groups[|turns| + 1..])
  {
    var n := |turns|;
    s' := Turned(handler, Begin(handler, s), groups[n], |groups[n].items|);
    GroupsStep(handler, s, groups, n);
    t := TurnTaken(handler, s, groups, turns, |groups[n].items|);
  }

  lemma {:induction false} GroupsStep(handler: Handler, s: Packing, groups: seq<Group>, n: nat)
    requires s.stop.None? && n < |groups|
    ensures RunGroups(handler, s, groups[n..])
         == RunGroups(handler, Turned(handler, Begin(handler, s), groups[n], |groups[n].items|), groups[n + 1..])
  {
    assert groups[n..] == [groups[n]] + groups[n + 1..];
    FirstOfGroups(handler, s, groups[n], groups[n + 1..]);
  }

  /** Turns for all groups, or up to the one that ends the loop. */
  lemma {:induction false} RunTurns(handler: Handler, s: Packing, groups: seq<Group>, turns: seq<Turn>) returns (all: seq<Turn>)
    requires AtTurn(handler, s, groups, turns) && (|turns| < |groups| || turns != [])
    ensures TurnDone(handler, RunGroups(handler, s, groups[|turns|..]), groups, all) && (|all| < |groups| ==> LoopEnded(all))
    decreases |groups| - |turns|
  {
    if |turns| == |groups| {
      all := turns;
      GroupsEnd(handler, s, groups[|turns|..]);
    } else {
      var s', t := TurnStep(handler, s, groups, turns);
      all := turns + [t];
      if s'.stop.Some? {
        GroupsEnd(handler, s', groups[|turns| + 1..]);
      } else {
        all := RunTurns(handler, s', groups, all);
      }
    }
  }

  /**
   Where responses to items do not skip siblings nor end the loop: every group
   of values has its turn, unless the handler ends the loop; the calls are
   those of the turns; and the packets recorded are exactly those whose start
   and end are called for, the response to the end being to continue.
   */
  lemma {:induction false} SelectedPackets(handler: Handler, k: nat, stream: Stream, onEmpty: int) returns (turns: seq<Turn>)
    requires k > 0 && ItemsGoOn(handler) && stream.end.Ended? && stream.values != []
    ensures var groups := Groups(stream.values, k);
      var (s, error) := OnEnd(handler, OnValues(handler, Initial(k), stream.values), stream.end, OK, onEmpty);
      && error.None? && Taken(handler, groups, turns) && (s.stop.Some? <==> LoopEnded(turns))
      && s.trace == Calls(groups, turns) && s.recorded == Selected(groups, turns)
  {
    var groups := Groups(stream.values, k);
    var u, e := GroupsRead(handler, Initial(k), stream.values, k, onEmpty);
    assert groups[0..] == groups;
    assert AtTurn(handler, Initial(k), groups, []);
    turns := RunTurns(handler, Initial(k), groups, []);
    StepwiseTaken(handler, groups, turns);
  }
}
