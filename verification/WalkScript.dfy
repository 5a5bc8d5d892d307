/**
 What a handler-directed walk of a CIF should do: the complete walk laid out as
 a script of handler calls, and a machine that runs the script, leaving out
 what the handler's responses ask to be skipped.
 */
module WalkScript {
  import opened Units
  import opened Values
  import opened Wrappers

  const OK := 0
  const FINISHED := 1
  const EMPTY_LOOP := 36
  const CONTINUE := 0
  const SKIP_CURRENT := -1
  const SKIP_SIBLINGS := -2
  const END := -3

  datatype Cif = Cif(blocks: seq<Container>)

  datatype Container = Container(code: Text, frames: seq<Container>, loops: seq<Loop>)

  datatype Loop = Loop(packets: seq<Packet>)

  datatype Packet = Packet(items: seq<Entry>)

  /** A handler call. A container at depth 0 is a data block; others are save frames. */
  datatype Event =
    | CifStart(cif: Cif) | CifEnd(cif: Cif)
    | ContainerStart(container: Container, depth: nat) | ContainerEnd(container: Container, depth: nat)
    | LoopStart(loop: Loop) | LoopEnd(loop: Loop)
    | PacketStart(packet: Packet) | PacketEnd(packet: Packet)
    | Item(entry: Entry)

  /** A call at a level of nesting, or the discovery that a loop has no packets. */
  datatype Step = Call(event: Event, level: nat) | NoPackets

  /** A handler responds to each call in a way that may depend on all calls so far. */
  type Handler = seq<Event> -> int

  predicate IsStart(e: Event) {
    e.CifStart? || e.ContainerStart? || e.LoopStart? || e.PacketStart?
  }

  predicate IsEnd(e: Event) {
    e.CifEnd? || e.ContainerEnd? || e.LoopEnd? || e.PacketEnd?
  }

  predicate IsFrame(e: Event) {
    (e.ContainerStart? || e.ContainerEnd?) && e.depth > 0
  }

  // The complete script

  function ItemSteps(items: seq<Entry>, level: nat): seq<Step> {
    if items == [] then [] else [Call(Item(items[0]), level)] + ItemSteps(items[1..], level)
  }

  function PacketSteps(p: Packet, level: nat): seq<Step> {
    [Call(PacketStart(p), level)] + ItemSteps(p.items, level + 1) + [Call(PacketEnd(p), level)]
  }

  function PacketsSteps(ps: seq<Packet>, level: nat): seq<Step> {
    if ps == [] then [] else PacketSteps(ps[0], level) + PacketsSteps(ps[1..], level)
  }

  /** The packets of a loop; it is an error for a loop to have none. */
  function LoopBody(l: Loop, level: nat): seq<Step> {
    if l.packets == [] then [NoPackets] else PacketsSteps(l.packets, level)
  }

  function LoopSteps(l: Loop, level: nat): seq<Step> {
    [Call(LoopStart(l), level)] + LoopBody(l, level + 1) + [Call(LoopEnd(l), level)]
  }

  function LoopsSteps(ls: seq<Loop>, level: nat): seq<Step> {
    if ls == [] then [] else LoopSteps(ls[0], level) + LoopsSteps(ls[1..], level)
  }

  function ContainerSteps(c: Container, depth: nat): seq<Step>
    decreases c, 1
  {
    [Call(ContainerStart(c, depth), depth + 1)] + (FramesSteps(c.frames, depth + 1) + LoopsSteps(c.loops, depth + 2))
    + [Call(ContainerEnd(c, depth), depth + 1)]
  }

  function FramesSteps(cs: seq<Container>, depth: nat): seq<Step>
    decreases cs, 0
  {
    if cs == [] then [] else ContainerSteps(cs[0], depth) + FramesSteps(cs[1..], depth)
  }

  function Script(cif: Cif): seq<Step> {
    [Call(CifStart(cif), 0)] + FramesSteps(cif.blocks, 0) + [Call(CifEnd(cif), 0)]
  }

  // Skipping

  /** What follows the next end of an element at a level. */
  function After(s: seq<Step>, level: int): (r: seq<Step>)
    ensures |r| <= |s|
  {
    if s == [] then []
    else if s[0].Call? && IsEnd(s[0].event) && s[0].level == level then s[1..]
    else After(s[1..], level)
  }

  /** The next end of an element at a level, and what follows it. */
  function ToEnd(s: seq<Step>, level: int): (r: seq<Step>)
    ensures |r| <= |s|
  {
    if s == [] then []
    else if s[0].Call? && IsEnd(s[0].event) && s[0].level == level then s
    else ToEnd(s[1..], level)
  }

  /** Past the save frames at a level: to the first loop of their container, or to its end. */
  function ToLoops(s: seq<Step>, level: int): (r: seq<Step>)
    ensures |r| <= |s|
  {
    if s == [] then []
    else if s[0].Call? && (if s[0].event.LoopStart? then s[0].level == level
                           else IsEnd(s[0].event) && s[0].level == level - 1) then s
    else ToLoops(s[1..], level)
  }

  /** Skipping siblings also skips the end of their parent, but from save frames only the other frames are skipped. */
  function SkipSiblings(e: Event, level: nat, rest: seq<Step>): (r: seq<Step>)
    ensures |r| <= |rest|
  {
    if IsFrame(e) then ToLoops(rest, level) else After(rest, level - 1)
  }

  predicate InPacket(e: Event) {
    e.PacketStart? || e.PacketEnd? || e.Item?
  }

  /** The level of the loop around a packet or an item. */
  function LoopLevel(e: Event, level: nat): int {
    if e.Item? then level - 2 else level - 1
  }

  /** Does the walk go on after this response? */
  predicate GoesOn(e: Event, response: int) {
    SKIP_SIBLINGS <= response <= CONTINUE || (response == FINISHED && InPacket(e))
  }

  /** What remains of the script after a response. */
  function Remaining(e: Event, level: nat, response: int, rest: seq<Step>): (r: seq<Step>)
    ensures |r| <= |rest|
  {
    if response == SKIP_CURRENT && IsStart(e) then After(rest, level)
    else if response == SKIP_SIBLINGS then SkipSiblings(e, level, rest)
    else if response == FINISHED && InPacket(e) then ToEnd(rest, LoopLevel(e, level))
    else rest
  }

  /** All calls made, and the code returned. */
  datatype Outcome = Outcome(trace: seq<Event>, code: int)

  /** Runs the rest of a script after the calls in a trace. */
  function Run(handler: Handler, rest: seq<Step>, trace: seq<Event>): Outcome
    decreases |rest|
  {
    if rest == [] then Outcome(trace, OK)
    else if rest[0].NoPackets? then Outcome(trace, EMPTY_LOOP)
    else
      var e := rest[0].event;
      var after := trace + [e];
      var response := handler(after);
      if GoesOn(e, response) then Run(handler, Remaining(e, rest[0].level, response, rest[1..]), after)
      else Outcome(after, if response == END then OK else response)
  }

  // Properties of every run

  function Events(s: seq<Step>): seq<Event> {
    if s == [] then [] else (if s[0].Call? then [s[0].event] else []) + Events(s[1..])
  }

  predicate AllPackets(s: seq<Step>) {
    forall i :: 0 <= i < |s| ==> s[i].Call?
  }

  /** If every response is to continue, and every loop has packets, then all calls of the script are made, in order. */
  lemma {:induction false} ContinueRun(handler: Handler, s: seq<Step>, trace: seq<Event>)
    requires AllPackets(s) && forall t :: handler(t) == CONTINUE
    ensures Run(handler, s, trace) == Outcome(trace + Events(s), OK)
  {
    if s == [] {
      assert trace + [] == trace;
    } else {
      var e := s[0].event;
      ContinueRun(handler, s[1..], trace + [e]);
      assert trace + [e] + Events(s[1..]) == trace + ([e] + Events(s[1..]));
    }
  }

  /** If every response is to continue, a loop without packets is an error that ends the walk. */
  lemma {:induction false} ContinueRunCode(handler: Handler, s: seq<Step>, trace: seq<Event>)
    requires forall t :: handler(t) == CONTINUE
    ensures Run(handler, s, trace).code == if AllPackets(s) then OK else EMPTY_LOOP
  {
    if s != [] && s[0].Call? {
      ContinueRunCode(handler, s[1..], trace + [s[0].event]);
      assert AllPackets(s) <==> AllPackets(s[1..]) by {
        assert forall i :: 1 <= i < |s| ==> s[i] == s[1..][i - 1];
      }
    }
  }

  /** Every loop, in every block and frame, has a packet. */
  predicate NoEmptyLoop(c: Container)
    decreases c, 1
  {
    NoEmptyLoopIn(c.frames) && forall i :: 0 <= i < |c.loops| ==> c.loops[i].packets != []
  }

  predicate NoEmptyLoopIn(cs: seq<Container>)
    decreases cs, 0
  {
    cs == [] || (NoEmptyLoop(cs[0]) && NoEmptyLoopIn(cs[1..]))
  }

  lemma {:induction false} AllPacketsConcat(a: seq<Step>, b: seq<Step>)
    ensures AllPackets(a + b) <==> AllPackets(a) && AllPackets(b)
  {
    if AllPackets(a + b) {
      assert forall i :: 0 <= i < |a| ==> a[i] == (a + b)[i];
      assert forall i :: 0 <= i < |b| ==> b[i] == (a + b)[|a| + i];
    }
  }

  lemma {:induction false} PacketsCalled(ps: seq<Packet>, level: nat)
    ensures AllPackets(PacketsSteps(ps, level))
  {
    if ps != [] {
      ItemsCalled(ps[0].items, level + 1);
      PacketsCalled(ps[1..], level);
    }
  }

  lemma {:induction false} ItemsCalled(items: seq<Entry>, level: nat)
    ensures AllPackets(ItemSteps(items, level))
  {
    if items != [] { ItemsCalled(items[1..], level); }
  }

  lemma {:induction false} LoopsCalled(ls: seq<Loop>, level: nat)
    ensures AllPackets(LoopsSteps(ls, level)) <==> forall i :: 0 <= i < |ls| ==> ls[i].packets != []
  {
    if ls != [] {
      LoopsCalled(ls[1..], level);
      LoopCalled(ls[0], level);
      AllPacketsConcat(LoopSteps(ls[0], level), LoopsSteps(ls[1..], level));
      assert forall i :: 1 <= i < |ls| ==> ls[i] == ls[1..][i - 1];
    }
  }

  lemma {:induction false} LoopCalled(l: Loop, level: nat)
    ensures AllPackets(LoopSteps(l, level)) <==> l.packets != []
  {
    PacketsCalled(l.packets, level + 1);
    AllPacketsConcat([Call(LoopStart(l), level)] + LoopBody(l, level + 1), [Call(LoopEnd(l), level)]);
    AllPacketsConcat([Call(LoopStart(l), level)], LoopBody(l, level + 1));
    if l.packets == [] { assert !LoopBody(l, level + 1)[0].Call?; }
  }

  lemma {:induction false} ContainerCalled(c: Container, depth: nat)
    ensures AllPackets(ContainerSteps(c, depth)) <==> NoEmptyLoop(c)
    decreases c, 1
  {
    var frames, loops := FramesSteps(c.frames, depth + 1), LoopsSteps(c.loops, depth + 2);
    var start, end := [Call(ContainerStart(c, depth), depth + 1)], [Call(ContainerEnd(c, depth), depth + 1)];
    FramesCalled(c.frames, depth + 1);
    LoopsCalled(c.loops, depth + 2);
    AllPacketsConcat(frames, loops);
    AllPacketsConcat(start, frames + loops);
    AllPacketsConcat(start + (frames + loops), end);
  }

  lemma {:induction false} FramesCalled(cs: seq<Container>, depth: nat)
    ensures AllPackets(FramesSteps(cs, depth)) <==> NoEmptyLoopIn(cs)
    decreases cs, 0
  {
    if cs != [] {
      ContainerCalled(cs[0], depth);
      FramesCalled(cs[1..], depth);
      AllPacketsConcat(ContainerSteps(cs[0], depth), FramesSteps(cs[1..], depth));
    }
  }

  /** The complete walk of a CIF succeeds if and only if every loop has a packet; then it is the whole script. */
  lemma {:induction false} CompleteWalk(handler: Handler, cif: Cif)
    requires forall t :: handler(t) == CONTINUE
    ensures var o := Run(handler, Script(cif), []);
      && (o.code == OK <==> NoEmptyLoopIn(cif.blocks))
      && (o.code != OK ==> o.code == EMPTY_LOOP)
      && (NoEmptyLoopIn(cif.blocks) ==> o.trace == Events(Script(cif)))
  {
    FramesCalled(cif.blocks, 0);
    AllPacketsConcat([Call(CifStart(cif), 0)] + FramesSteps(cif.blocks, 0), [Call(CifEnd(cif), 0)]);
    AllPacketsConcat([Call(CifStart(cif), 0)], FramesSteps(cif.blocks, 0));
    ContinueRunCode(handler, Script(cif), []);
    if NoEmptyLoopIn(cif.blocks) { ContinueRun(handler, Script(cif), []); }
  }

  /** a is b with some elements left out. */
  ghost predicate IsSubsequence(a: seq<Event>, b: seq<Event>) {
    if a == [] then true
    else if b == [] then false
    else (a[0] == b[0] && IsSubsequence(a[1..], b[1..])) || IsSubsequence(a, b[1..])
  }

  lemma {:induction false} SubsequenceOfMore(a: seq<Event>, b: seq<Event>, c: seq<Event>)
    requires IsSubsequence(a, c)
    ensures IsSubsequence(a, b + c)
  {
    if b != [] {
      SubsequenceOfMore(a, b[1..], c);
      assert (b + c)[1..] == b[1..] + c;
    } else {
      assert b + c == c;
    }
  }

  ghost predicate IsSuffix(r: seq<Step>, s: seq<Step>) {
    |r| <= |s| && r == s[|s| - |r|..]
  }

  lemma {:induction false} AfterSuffix(s: seq<Step>, level: int)
    ensures IsSuffix(After(s, level), s) && IsSuffix(ToEnd(s, level), s) && IsSuffix(ToLoops(s, level), s)
  {
    if s != [] {
      AfterSuffix(s[1..], level);
      SuffixOfTail(After(s[1..], level), s);
      SuffixOfTail(ToEnd(s[1..], level), s);
      SuffixOfTail(ToLoops(s[1..], level), s);
      SuffixOfTail(s[1..], s);
      assert s[0..] == s;
    }
  }

  lemma {:induction false} SuffixOfTail(r: seq<Step>, s: seq<Step>)
    requires s != [] && IsSuffix(r, s[1..])
    ensures IsSuffix(r, s)
  {
    assert s[1..][|s| - 1 - |r|..] == s[|s| - |r|..];
  }

  lemma {:induction false} EventsConcat(a: seq<Step>, b: seq<Step>)
    ensures Events(a + b) == Events(a) + Events(b)
  {
    if a == [] {
      assert a + b == b;
    } else {
      EventsConcat(a[1..], b);
      assert (a + b)[1..] == a[1..] + b;
      Associative(if a[0].Call? then [a[0].event] else [], Events(a[1..]), Events(b));
    }
  }

  lemma {:induction false} SuffixEvents(r: seq<Step>, s: seq<Step>, a: seq<Event>)
    requires IsSuffix(r, s) && IsSubsequence(a, Events(r))
    ensures IsSubsequence(a, Events(s))
  {
    var n := |s| - |r|;
    assert s == s[..n] + r;
    EventsConcat(s[..n], r);
    SubsequenceOfMore(a, Events(s[..n]), Events(r));
  }

  lemma {:induction false} RemainingSuffix(e: Event, level: nat, response: int, rest: seq<Step>)
    ensures IsSuffix(Remaining(e, level, response, rest), rest)
  {
    AfterSuffix(rest, level);
    AfterSuffix(rest, level - 1);
    AfterSuffix(rest, LoopLevel(e, level));
  }

  lemma {:induction false} TraceGrows(t: seq<Event>, trace: seq<Event>, e: Event)
    requires |trace| < |t| && t[..|trace| + 1] == trace + [e]
    ensures t[..|trace|] == trace && t[|trace|..] == [e] + t[|trace| + 1..] && t[|trace|..][1..] == t[|trace| + 1..]
  {
    assert t[..|trace|] == t[..|trace| + 1][..|trace|];
    assert t[|trace|] == t[..|trace| + 1][|trace|] == e;
  }

  /** Whatever the responses, the calls made are those of the script with some left out. */
  lemma {:induction false} RunPrunes(handler: Handler, s: seq<Step>, trace: seq<Event>)
    ensures var t := Run(handler, s, trace).trace;
      |trace| <= |t| && t[..|trace|] == trace && IsSubsequence(t[|trace|..], Events(s))
    decreases |s|
  {
    if s != [] && s[0].Call? {
      var e, after := s[0].event, trace + [s[0].event];
      var response := handler(after);
      var t := Run(handler, s, trace).trace;
      if GoesOn(e, response) {
        var r := Remaining(e, s[0].level, response, s[1..]);
        RunPrunes(handler, r, after);
        RemainingSuffix(e, s[0].level, response, s[1..]);
        SuffixEvents(r, s[1..], t[|after|..]);
      }
      TraceGrows(t, trace, e);
    }
  }

  /**
   No handler is called after a response that ends the walk, in particular
   after any error code, after the one to end the walk, and, outside packets,
   after CIF_FINISHED; and the walk returns OK or the last response.
   */
  lemma {:induction false} NothingAfterEnd(handler: Handler, s: seq<Step>, trace: seq<Event>)
    ensures var o := Run(handler, s, trace);
      && |trace| <= |o.trace|
      && (forall n :: |trace| < n < |o.trace| ==> GoesOn(o.trace[n - 1], handler(o.trace[..n])))
      && (o.code == OK || o.code == EMPTY_LOOP || (|o.trace| > |trace| && o.code == handler(o.trace)))
      && (|o.trace| > |trace| && !GoesOn(o.trace[|o.trace| - 1], handler(o.trace)) ==>
            o.code == if handler(o.trace) == END then OK else handler(o.trace))
    decreases |s|
  {
    if s != [] && s[0].Call? {
      var e, after := s[0].event, trace + [s[0].event];
      var o := Run(handler, s, trace);
      if GoesOn(e, handler(after)) {
        var r := Remaining(e, s[0].level, handler(after), s[1..]);
        assert o == Run(handler, r, after);
        RunPrunes(handler, r, after);
        NothingAfterEnd(handler, r, after);
        assert o.trace[..|after|] == after;
        assert o.trace[|trace|] == after[|trace|] == e;
        if |o.trace| == |after| { assert o.trace == after; }
      }
    }
  }
}
