/** The walk itself: nested loops over blocks, frames, loops, packets and items. */
module Walk {
  import opened Units
  import opened Values
  import opened WalkScript
  import WalkLaw
  import WalkPlaces
  import opened Wrappers

  /** Every call in the script is at a level or deeper. */
  predicate Deep(s: seq<Step>, level: int) {
    forall i :: 0 <= i < |s| ==> s[i].Call? ==> s[i].level >= level
  }

  lemma {:induction false} DeepConcat(a: seq<Step>, b: seq<Step>, level: int)
    requires Deep(a, level) && Deep(b, level)
    ensures Deep(a + b, level)
  {
  }

  /** Skipping to an outer level passes over everything deeper. */
  lemma {:induction false} PassOver(s: seq<Step>, k: seq<Step>, level: int)
    requires Deep(s, level + 1)
    ensures After(s + k, level) == After(k, level) && ToEnd(s + k, level) == ToEnd(k, level)
    ensures ToLoops(s + k, level) == ToLoops(k, level)
  {
    if s == [] {
      assert s + k == k;
    } else {
      assert (s + k)[1..] == s[1..] + k;
      PassOver(s[1..], k, level);
    }
  }

  lemma {:induction false} ItemsDeep(items: seq<Entry>, level: nat)
    ensures Deep(ItemSteps(items, level), level)
  {
    if items != [] { ItemsDeep(items[1..], level); }
  }

  lemma {:induction false} PacketsDeep(ps: seq<Packet>, level: nat)
    ensures Deep(PacketsSteps(ps, level), level)
  {
    if ps != [] {
      ItemsDeep(ps[0].items, level + 1);
      PacketsDeep(ps[1..], level);
    }
  }

  lemma {:induction false} LoopsDeep(ls: seq<Loop>, level: nat)
    ensures Deep(LoopsSteps(ls, level), level)
  {
    if ls != [] {
      PacketsDeep(ls[0].packets, level + 1);
      LoopsDeep(ls[1..], level);
    }
  }

  lemma {:induction false} ContainerDeep(c: Container, depth: nat)
    ensures Deep(ContainerSteps(c, depth), depth + 1)
    decreases c, 1
  {
    FramesDeep(c.frames, depth + 1);
    LoopsDeep(c.loops, depth + 2);
  }

  lemma {:induction false} FramesDeep(cs: seq<Container>, depth: nat)
    ensures Deep(FramesSteps(cs, depth), depth + 1)
    decreases cs, 0
  {
    if cs != [] {
      ContainerDeep(cs[0], depth);
      FramesDeep(cs[1..], depth);
    }
  }

  /** How the walk goes on, with rest still to be walked, when an element of a kind has returned a code. */
  function Resume(handler: Handler, e: Event, level: nat, result: int, rest: seq<Step>, trace: seq<Event>): Outcome {
    if result == CONTINUE || result == SKIP_CURRENT then Run(handler, rest, trace)
    else if result == SKIP_SIBLINGS then Run(handler, SkipSiblings(e, level, rest), trace)
    else if result == FINISHED && InPacket(e) then Run(handler, ToEnd(rest, LoopLevel(e, level)), trace)
    else Outcome(trace, if result == END then OK else result)
  }

  /** An element whose start handler does not say to continue is left at once. */
  lemma {:induction false} Started(handler: Handler, e: Event, end: Event, level: nat, body: seq<Step>, k: seq<Step>, trace: seq<Event>)
    requires IsStart(e) && IsEnd(end) && Deep(body, level + 1)
    ensures var r := handler(trace + [e]);
      Run(handler, [Call(e, level)] + body + [Call(end, level)] + k, trace)
      == if r == CONTINUE then Run(handler, body + ([Call(end, level)] + k), trace + [e])
         else Resume(handler, e, level, r, k, trace + [e])
  {
    var rest := body + ([Call(end, level)] + k);
    var all := [Call(e, level)] + body + [Call(end, level)] + k;
    assert all[0] == Call(e, level) && all[1..] == rest;
    PassOver(body, [Call(end, level)] + k, level);
    PassOver(body, [Call(end, level)] + k, level - 1);
    assert ([Call(end, level)] + k)[1..] == k;
  }

  /** The end handler's response is that of the element. */
  lemma {:induction false} Ended(handler: Handler, e: Event, end: Event, level: nat, k: seq<Step>, trace: seq<Event>)
    requires IsEnd(end) && InPacket(e) == InPacket(end) && IsFrame(e) == IsFrame(end) && !e.Item?
    ensures Run(handler, [Call(end, level)] + k, trace)
      == Resume(handler, e, level, handler(trace + [end]), k, trace + [end])
  {
    assert ([Call(end, level)] + k)[1..] == k;
  }

  /** One more item. */
  lemma {:induction false} ItemCalled(handler: Handler, items: seq<Entry>, level: nat, tail: seq<Step>, trace: seq<Event>)
    requires items != []
    ensures var e := Item(items[0]); var r := handler(trace + [e]); var rest := ItemSteps(items[1..], level) + tail;
      Run(handler, ItemSteps(items, level) + tail, trace) == Resume(handler, e, level, r, rest, trace + [e])
  {
    var all := ItemSteps(items, level) + tail;
    assert all[0] == Call(Item(items[0]), level) && all[1..] == ItemSteps(items[1..], level) + tail;
  }

  /** The other items, and the end of their packet, are left out. */
  lemma {:induction false} ItemsLeft(handler: Handler, p: Packet, item: Entry, level: nat, r: int,
                                     others: seq<Entry>, k: seq<Step>, trace: seq<Event>)
    requires r != CONTINUE && r != SKIP_CURRENT
    ensures Resume(handler, Item(item), level + 1, r, ItemSteps(others, level + 1) + ([Call(PacketEnd(p), level)] + k), trace)
      == Resume(handler, PacketStart(p), level, if r == SKIP_SIBLINGS then CONTINUE else r, k, trace)
  {
    var tail := [Call(PacketEnd(p), level)] + k;
    ItemsDeep(others, level + 1);
    PassOver(ItemSteps(others, level + 1), tail, level);
    PassOver(ItemSteps(others, level + 1), tail, level - 1);
    assert tail[1..] == k;
  }

  lemma {:induction false} FirstPacket(ps: seq<Packet>, level: nat, tail: seq<Step>)
    requires ps != []
    ensures PacketsSteps(ps, level) + tail == PacketSteps(ps[0], level) + (PacketsSteps(ps[1..], level) + tail)
  {
  }

  /** The other packets are left out; a code taken for the end of the packets leads on to the end of the loop. */
  lemma {:induction false} PacketsLeft(handler: Handler, l: Loop, p: Packet, level: nat, r: int,
                                       others: seq<Packet>, k: seq<Step>, trace: seq<Event>)
    requires r != CONTINUE && r != SKIP_CURRENT
    ensures var tail := [Call(LoopEnd(l), level)] + k;
      Resume(handler, PacketStart(p), level + 1, r, PacketsSteps(others, level + 1) + tail, trace)
      == if r == FINISHED then Run(handler, tail, trace)
         else Resume(handler, LoopStart(l), level, if r == SKIP_SIBLINGS then CONTINUE else r, k, trace)
  {
    var tail := [Call(LoopEnd(l), level)] + k;
    PacketsDeep(others, level + 1);
    PassOver(PacketsSteps(others, level + 1), tail, level);
    assert tail[1..] == k;
  }

  lemma {:induction false} BodyDeep(l: Loop, level: nat)
    ensures Deep(LoopBody(l, level), level)
  {
    PacketsDeep(l.packets, level);
  }

  const ANY_LOOP := LoopStart(Loop([]))

  lemma {:induction false} FirstLoop(ls: seq<Loop>, level: nat, tail: seq<Step>)
    requires ls != []
    ensures LoopsSteps(ls, level) + tail == LoopSteps(ls[0], level) + (LoopsSteps(ls[1..], level) + tail)
  {
  }

  /** The other loops are left out. */
  lemma {:induction false} LoopsLeft(handler: Handler, l: Loop, level: nat, r: int,
                                     others: seq<Loop>, k: seq<Step>, trace: seq<Event>)
    requires r != CONTINUE && r != SKIP_CURRENT
    ensures Resume(handler, LoopStart(l), level, r, LoopsSteps(others, level) + k, trace)
      == Resume(handler, ANY_LOOP, level, r, k, trace)
  {
    LoopsDeep(others, level);
    PassOver(LoopsSteps(others, level), k, level - 1);
  }

  /** After a loop: the others follow, unless the response was to leave them. */
  lemma {:induction false} LoopDone(handler: Handler, l: Loop, level: nat, r: int, others: seq<Loop>, k: seq<Step>, trace: seq<Event>)
    ensures Resume(handler, LoopStart(l), level, r, LoopsSteps(others, level) + k, trace)
      == if r == CONTINUE || r == SKIP_CURRENT then Run(handler, LoopsSteps(others, level) + k, trace)
         else Resume(handler, ANY_LOOP, level, r, k, trace)
  {
    if r != CONTINUE && r != SKIP_CURRENT { LoopsLeft(handler, l, level, r, others, k, trace); }
  }

  lemma {:induction false} NextContainer(cs: seq<Container>, i: nat, depth: nat, tail: seq<Step>)
    requires i < |cs|
    ensures FramesSteps(cs[i..], depth) + tail == ContainerSteps(cs[i], depth) + (FramesSteps(cs[i + 1..], depth) + tail)
  {
    FirstContainer(cs[i..], depth, tail);
    assert cs[i..][1..] == cs[i + 1..];
  }

  lemma {:induction false} NextLoop(loops: seq<Loop>, i: nat, level: nat, tail: seq<Step>)
    requires i < |loops|
    ensures LoopsSteps(loops[i..], level) + tail == LoopSteps(loops[i], level) + (LoopsSteps(loops[i + 1..], level) + tail)
  {
    FirstLoop(loops[i..], level, tail);
    assert loops[i..][1..] == loops[i + 1..];
  }

  lemma {:induction false} FirstContainer(cs: seq<Container>, depth: nat, tail: seq<Step>)
    requires cs != []
    ensures FramesSteps(cs, depth) + tail == ContainerSteps(cs[0], depth) + (FramesSteps(cs[1..], depth) + tail)
  {
  }

  /** From a save frame, the other frames of its container are passed over, but not the container's loops. */
  lemma {:induction false} PassFrames(cs: seq<Container>, depth: nat, k: seq<Step>)
    ensures ToLoops(FramesSteps(cs, depth) + k, depth + 1) == ToLoops(k, depth + 1)
  {
    if cs == [] {
      assert FramesSteps(cs, depth) + k == k;
    } else {
      FirstContainer(cs, depth, k);
      PassFrames(cs[1..], depth, k);
      PassFrame(cs[0], depth, FramesSteps(cs[1..], depth) + k);
    }
  }

  lemma {:induction false} PassFrame(c: Container, depth: nat, k: seq<Step>)
    ensures ToLoops(ContainerSteps(c, depth) + k, depth + 1) == ToLoops(k, depth + 1)
  {
    var body := FramesSteps(c.frames, depth + 1) + LoopsSteps(c.loops, depth + 2);
    var tail := [Call(ContainerEnd(c, depth), depth + 1)] + k;
    FramesDeep(c.frames, depth + 1);
    LoopsDeep(c.loops, depth + 2);
    DeepConcat(FramesSteps(c.frames, depth + 1), LoopsSteps(c.loops, depth + 2), depth + 2);
    PassOver(body, tail, depth + 1);
    assert tail[1..] == k;
    Opened(Call(ContainerStart(c, depth), depth + 1), body, Call(ContainerEnd(c, depth), depth + 1), k);
  }

  lemma {:induction false} Opened(start: Step, body: seq<Step>, end: Step, k: seq<Step>)
    ensures var all := [start] + body + [end] + k; all[0] == start && all[1..] == body + ([end] + k)
  {
  }

  /** The loops of a container are where its frames lead to. */
  lemma {:induction false} LoopsReached(c: Container, depth: nat, k: seq<Step>)
    ensures var tail := LoopsSteps(c.loops, depth + 2) + ([Call(ContainerEnd(c, depth), depth + 1)] + k);
      ToLoops(tail, depth + 2) == tail
  {
    var end := [Call(ContainerEnd(c, depth), depth + 1)] + k;
    if c.loops != [] {
      FirstLoop(c.loops, depth + 2, end);
    } else {
      assert LoopsSteps(c.loops, depth + 2) + end == end;
    }
  }

  /** The other frames are left out; the loops are not, unless the walk ends. */
  lemma {:induction false} FramesLeft(handler: Handler, c: Container, frame: Container, depth: nat, r: int,
                                      others: seq<Container>, k: seq<Step>, trace: seq<Event>)
    requires r != CONTINUE && r != SKIP_CURRENT
    ensures var tail := LoopsSteps(c.loops, depth + 2) + ([Call(ContainerEnd(c, depth), depth + 1)] + k);
      Resume(handler, ContainerStart(frame, depth + 1), depth + 2, r, FramesSteps(others, depth + 1) + tail, trace)
      == if r == SKIP_SIBLINGS then Run(handler, tail, trace)
         else Resume(handler, ContainerStart(c, depth), depth + 1, r, k, trace)
  {
    var tail := LoopsSteps(c.loops, depth + 2) + ([Call(ContainerEnd(c, depth), depth + 1)] + k);
    PassFrames(others, depth + 1, tail);
    LoopsReached(c, depth, k);
  }

  lemma {:induction false} ContainerBody(c: Container, depth: nat)
    ensures Deep(FramesSteps(c.frames, depth + 1) + LoopsSteps(c.loops, depth + 2), depth + 2)
  {
    FramesDeep(c.frames, depth + 1);
    LoopsDeep(c.loops, depth + 2);
    DeepConcat(FramesSteps(c.frames, depth + 1), LoopsSteps(c.loops, depth + 2), depth + 2);
  }

  /** The other data blocks, and the end of the CIF, are left out. */
  lemma {:induction false} BlocksLeft(handler: Handler, cif: Cif, block: Container, r: int,
                                      others: seq<Container>, trace: seq<Event>)
    requires r != CONTINUE && r != SKIP_CURRENT
    ensures Resume(handler, ContainerStart(block, 0), 1, r, FramesSteps(others, 0) + [Call(CifEnd(cif), 0)], trace)
      == Outcome(trace, if r == SKIP_SIBLINGS || r == END then OK else r)
  {
    FramesDeep(others, 0);
    PassOver(FramesSteps(others, 0), [Call(CifEnd(cif), 0)], 0);
  }

  class Walker {
    const handler: Handler

    /** The handler calls made. */
    var trace: seq<Event>

    constructor (handler: Handler)
      ensures this.handler == handler && trace == []
    {
      this.handler := handler;
      trace := [];
    }

    method HandlerResult(e: Event) returns (r: int)
      modifies this
      ensures trace == old(trace) + [e] && r == handler(trace)
    {
      trace := trace + [e];
      r := handler(trace);
    }

    /** Walks the items of a packet whose start handler said to continue. */
    method WalkItems(p: Packet, ghost level: nat, ghost k: seq<Step>) returns (result: int)
      modifies this
      ensures Run(handler, ItemSteps(p.items, level + 1) + ([Call(PacketEnd(p), level)] + k), old(trace))
        == Resume(handler, PacketStart(p), level, result, k, trace)
    {
      ghost var tail := [Call(PacketEnd(p), level)] + k;
      ghost var goal := Run(handler, ItemSteps(p.items, level + 1) + tail, trace);
      var i := 0;
      while i < |p.items|
        invariant 0 <= i <= |p.items|
        invariant goal == Run(handler, ItemSteps(p.items[i..], level + 1) + tail, trace)
      {
        ItemCalled(handler, p.items[i..], level + 1, tail, trace);
        assert p.items[i..][1..] == p.items[i + 1..];
        var itemResult := HandlerResult(Item(p.items[i]));
        if itemResult != CONTINUE && itemResult != SKIP_CURRENT {
          ItemsLeft(handler, p, p.items[i], level, itemResult, p.items[i + 1..], k, trace);
          return if itemResult == SKIP_SIBLINGS then CONTINUE else itemResult;
        }
        i := i + 1;
      }
      assert [] + tail == tail;
      Ended(handler, PacketStart(p), PacketEnd(p), level, k, trace);
      result := HandlerResult(PacketEnd(p));
    }

    method WalkPacket(p: Packet, ghost level: nat, ghost k: seq<Step>) returns (result: int)
      modifies this
      ensures Run(handler, PacketSteps(p, level) + k, old(trace)) == Resume(handler, PacketStart(p), level, result, k, trace)
    {
      ItemsDeep(p.items, level + 1);
      Started(handler, PacketStart(p), PacketEnd(p), level, ItemSteps(p.items, level + 1), k, trace);
      result := HandlerResult(PacketStart(p));
      if result == CONTINUE {
        result := WalkItems(p, level, k);
      }
    }

    /** Walks the packets of a loop, to the end of the loop or to where it is left. */
    method WalkPackets(l: Loop, ghost level: nat, ghost k: seq<Step>) returns (result: int)
      requires l.packets != []
      modifies this
      ensures Run(handler, PacketsSteps(l.packets, level + 1) + ([Call(LoopEnd(l), level)] + k), old(trace))
        == if result == FINISHED then Run(handler, [Call(LoopEnd(l), level)] + k, trace)
           else Resume(handler, LoopStart(l), level, result, k, trace)
      ensures result != SKIP_SIBLINGS && result != SKIP_CURRENT
    {
      ghost var tail := [Call(LoopEnd(l), level)] + k;
      ghost var goal := Run(handler, PacketsSteps(l.packets, level + 1) + tail, trace);
      var i := 0;
      while i < |l.packets|
        invariant 0 <= i <= |l.packets|
        invariant goal == Run(handler, PacketsSteps(l.packets[i..], level + 1) + tail, trace)
      {
        ghost var others := l.packets[i + 1..];
        FirstPacket(l.packets[i..], level + 1, tail);
        assert l.packets[i..][1..] == others;
        var packetResult := WalkPacket(l.packets[i], level + 1, PacketsSteps(others, level + 1) + tail);
        if packetResult != CONTINUE && packetResult != SKIP_CURRENT {
          PacketsLeft(handler, l, l.packets[i], level, packetResult, others, k, trace);
          return if packetResult == SKIP_SIBLINGS then CONTINUE else packetResult;
        }
        i := i + 1;
      }
      assert [] + tail == tail;
      result := FINISHED;
    }

    method WalkLoop(l: Loop, ghost level: nat, ghost k: seq<Step>) returns (result: int)
      modifies this
      ensures Run(handler, LoopSteps(l, level) + k, old(trace)) == Resume(handler, LoopStart(l), level, result, k, trace)
    {
      BodyDeep(l, level + 1);
      Started(handler, LoopStart(l), LoopEnd(l), level, LoopBody(l, level + 1), k, trace);
      result := HandlerResult(LoopStart(l));
      if result == CONTINUE {
        if l.packets == [] {
          return EMPTY_LOOP;
        }
        result := WalkPackets(l, level, k);
        if result == FINISHED {
          Ended(handler, LoopStart(l), LoopEnd(l), level, k, trace);
          result := HandlerResult(LoopEnd(l));
        }
      }
    }

    /** Walks the loops of a container. */
    method WalkLoops(loops: seq<Loop>, ghost level: nat, ghost k: seq<Step>) returns (result: int)
      modifies this
      ensures Run(handler, LoopsSteps(loops, level) + k, old(trace)) == Resume(handler, ANY_LOOP, level, result, k, trace)
    {
      result := CONTINUE;
      ghost var goal := Run(handler, LoopsSteps(loops, level) + k, trace);
      var handleLoops := true;
      var i := 0;
      while i < |loops|
        invariant 0 <= i <= |loops|
        invariant handleLoops ==> result == CONTINUE || result == SKIP_CURRENT
        invariant goal == if handleLoops then Run(handler, LoopsSteps(loops[i..], level) + k, trace)
                          else Resume(handler, ANY_LOOP, level, result, k, trace)
      {
        if handleLoops {
          ghost var others := loops[i + 1..];
          NextLoop(loops, i, level, k);
          result := WalkLoop(loops[i], level, LoopsSteps(others, level) + k);
          LoopDone(handler, loops[i], level, result, others, k, trace);
          if result != CONTINUE && result != SKIP_CURRENT {
            handleLoops := false;
          }
        }
        i := i + 1;
      }
      assert [] + k == k;
    }

    /** Walks the save frames of a container; the loops are not to be walked if the walk ends. */
    method WalkFrames(c: Container, depth: nat, ghost k: seq<Step>) returns (handleLoops: bool, result: int)
      modifies this
      ensures var tail := LoopsSteps(c.loops, depth + 2) + ([Call(ContainerEnd(c, depth), depth + 1)] + k);
        Run(handler, FramesSteps(c.frames, depth + 1) + tail, old(trace))
        == if handleLoops then Run(handler, tail, trace)
           else Resume(handler, ContainerStart(c, depth), depth + 1, result, k, trace)
      decreases c, 0
    {
      ghost var tail := LoopsSteps(c.loops, depth + 2) + ([Call(ContainerEnd(c, depth), depth + 1)] + k);
      ghost var goal := Run(handler, FramesSteps(c.frames, depth + 1) + tail, trace);
      var handleFrames := true;
      handleLoops, result := true, CONTINUE;
      var i := 0;
      while i < |c.frames|
        invariant 0 <= i <= |c.frames| && (handleFrames ==> handleLoops)
        invariant goal == if handleFrames then Run(handler, FramesSteps(c.frames[i..], depth + 1) + tail, trace)
                          else if handleLoops then Run(handler, tail, trace)
                          else Resume(handler, ContainerStart(c, depth), depth + 1, result, k, trace)
      {
        if handleFrames {
          ghost var others := c.frames[i + 1..];
          FirstContainer(c.frames[i..], depth + 1, tail);
          assert c.frames[i..][1..] == others;
          result := WalkContainer(c.frames[i], depth + 1, FramesSteps(others, depth + 1) + tail);
          if result != CONTINUE && result != SKIP_CURRENT {
            FramesLeft(handler, c, c.frames[i], depth, result, others, k, trace);
            handleFrames := false;
            handleLoops := result == SKIP_SIBLINGS;
          }
        }
        i := i + 1;
      }
      assert [] + tail == tail;
    }

    /** Walks the loops of a container, and ends it. */
    method WalkRest(c: Container, depth: nat, ghost k: seq<Step>) returns (result: int)
      modifies this
      ensures Run(handler, LoopsSteps(c.loops, depth + 2) + ([Call(ContainerEnd(c, depth), depth + 1)] + k), old(trace))
        == Resume(handler, ContainerStart(c, depth), depth + 1, result, k, trace)
    {
      ghost var end := [Call(ContainerEnd(c, depth), depth + 1)] + k;
      result := WalkLoops(c.loops, depth + 2, end);
      if result == CONTINUE || result == SKIP_CURRENT {
        Ended(handler, ContainerStart(c, depth), ContainerEnd(c, depth), depth + 1, k, trace);
        result := HandlerResult(ContainerEnd(c, depth));
      } else if result == SKIP_SIBLINGS {
        assert end[1..] == k;
        result := CONTINUE;
      }
    }

    /** Walks a data block or a save frame: its frames, and then its loops. */
    method WalkContainer(c: Container, depth: nat, ghost k: seq<Step>) returns (result: int)
      modifies this
      ensures Run(handler, ContainerSteps(c, depth) + k, old(trace))
        == Resume(handler, ContainerStart(c, depth), depth + 1, result, k, trace)
      decreases c, 1
    {
      ghost var frames, loops := FramesSteps(c.frames, depth + 1), LoopsSteps(c.loops, depth + 2);
      ghost var end := [Call(ContainerEnd(c, depth), depth + 1)] + k;
      ContainerBody(c, depth);
      Started(handler, ContainerStart(c, depth), ContainerEnd(c, depth), depth + 1, frames + loops, k, trace);
      Associative(frames, loops, end);
      result := HandlerResult(ContainerStart(c, depth));
      if result == CONTINUE {
        var handleLoops;
        handleLoops, result := WalkFrames(c, depth, k);
        if handleLoops {
          result := WalkRest(c, depth, k);
        }
      }
    }

    /** Walks the data blocks of a CIF, and ends it unless told otherwise. */
    method WalkBlocks(cif: Cif) returns (result: int)
      modifies this
      ensures Run(handler, FramesSteps(cif.blocks, 0) + [Call(CifEnd(cif), 0)], old(trace)) == Outcome(trace, result)
    {
      ghost var tail := [Call(CifEnd(cif), 0)];
      ghost var goal := Run(handler, FramesSteps(cif.blocks, 0) + tail, trace);
      var handleBlocks := true;
      result := OK;
      var i := 0;
      while i < |cif.blocks|
        invariant 0 <= i <= |cif.blocks|
        invariant goal == if handleBlocks then Run(handler, FramesSteps(cif.blocks[i..], 0) + tail, trace)
                          else Outcome(trace, result)
      {
        if handleBlocks {
          ghost var others := cif.blocks[i + 1..];
          NextContainer(cif.blocks, i, 0, tail);
          result := WalkContainer(cif.blocks[i], 0, FramesSteps(others, 0) + tail);
          if result != CONTINUE && result != SKIP_CURRENT {
            BlocksLeft(handler, cif, cif.blocks[i], result, others, trace);
            handleBlocks := false;
            if result == SKIP_SIBLINGS || result == END {
              result := OK;
            }
          }
        }
        i := i + 1;
      }
      if handleBlocks {
        assert [] + tail == tail;
        result := EndCif(cif);
      }
    }

    method EndCif(cif: Cif) returns (result: int)
      modifies this
      ensures Run(handler, [Call(CifEnd(cif), 0)], old(trace)) == Outcome(trace, result)
    {
      result := HandlerResult(CifEnd(cif));
      if END <= result <= CONTINUE {
        result := OK;
      }
    }

    /**
     Walks a CIF: the calls made, and the code returned, are those of the script
     as run by the machine, and so, of all places in the tree, the calls are those
     that no earlier response skips.
     */
    method Walk(cif: Cif) returns (result: int)
      modifies this
      ensures Run(handler, Script(cif), old(trace)) == Outcome(trace, result)
      ensures old(trace) == [] ==> exists made :: WalkLaw.Lawful(handler, WalkPlaces.Points(cif), made, Outcome(trace, result))
    {
      ghost var made := WalkLaw.WalkLawful(handler, cif);
      FramesDeep(cif.blocks, 0);
      Started(handler, CifStart(cif), CifEnd(cif), 0, FramesSteps(cif.blocks, 0), [], trace);
      assert [Call(CifEnd(cif), 0)] + [] == [Call(CifEnd(cif), 0)];
      assert Script(cif) + [] == Script(cif);
      result := HandlerResult(CifStart(cif));
      if result == CONTINUE {
        result := WalkBlocks(cif);
      } else if END <= result < CONTINUE {
        result := OK;
      }
    }
  }
}
