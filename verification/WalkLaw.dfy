/**
 What a walk leaves out: a call of the complete walk is missing exactly if an
 earlier call's response skips its place in the tree.
 */
module WalkLaw {
  import opened WalkPlaces
  import opened WalkScript
  import opened Wrappers

  // What a response skips

  function Last(path: Path): Branch
    requires path != []
  {
    path[|path| - 1]
  }

  function Parent(path: Path): Path
    requires path != []
  {
    path[..|path| - 1]
  }

  predicate InsideLoop(path: Path) {
    path != [] && (Last(path).PacketAt? || (Last(path).ItemAt? && |path| > 1))
  }

  /** The loop around a packet or an item. */
  function LoopAround(path: Path): Path
    requires InsideLoop(path)
  {
    if Last(path).ItemAt? then Parent(Parent(path)) else Parent(path)
  }

  /** Responses other than to continue or to skip end the walk, and so does a loop without packets; but not CIF_FINISHED in a packet. */
  predicate EndsWalk(at: Point, response: int) {
    || at.event.None?
    || !(response in {CONTINUE, SKIP_CURRENT, SKIP_SIBLINGS} || (response == FINISHED && InsideLoop(at.path)))
  }

  /**
   Does the response to a call skip a later place?  To skip the current element,
   at its start, skips what is in it and its end.  To skip siblings skips all
   that is left of the parent, with its end; but in a save frame only the frames
   that are left of the parent.  CIF_FINISHED in a packet skips all that is left
   of the loop but its end.  And after a response that ends the walk all is skipped.
   */
  predicate Skips(at: Point, response: int, later: Point) {
    if EndsWalk(at, response) || at.path == [] then true
    else if response == SKIP_CURRENT then !at.closes && at.path <= later.path
    else if response == SKIP_SIBLINGS then
      Parent(at.path) <= later.path
      && (Last(at.path).Frame? ==> |later.path| >= |at.path| && later.path[|at.path| - 1].Frame?)
    else response == FINISHED && LoopAround(at.path) <= later.path && later.path != LoopAround(at.path)
  }

  // The law

  /** The events of the points whose calls are made. */
  function Made(ps: seq<Point>, made: seq<bool>): seq<Event>
    requires |made| <= |ps|
  {
    if made == [] then []
    else
      var n := |made| - 1;
      Made(ps, made[..n]) + if made[n] && ps[n].event.Some? then [ps[n].event.value] else []
  }

  /** The handler's response to a call, which may depend on all calls made up to it. */
  function Response(handler: Handler, ps: seq<Point>, made: seq<bool>, i: nat): int
    requires i < |made| <= |ps|
  {
    handler(Made(ps, made[..i + 1]))
  }

  predicate SkippedBy(handler: Handler, ps: seq<Point>, made: seq<bool>, i: nat, p: nat)
    requires i < |made| <= |ps| && p < |ps|
  {
    made[i] && Skips(ps[i], Response(handler, ps, made, i), ps[p])
  }

  predicate Skipped(handler: Handler, ps: seq<Point>, made: seq<bool>, p: nat)
    requires p <= |made| <= |ps| && p < |ps|
  {
    exists i :: 0 <= i < p && SkippedBy(handler, ps, made, i, p)
  }

  predicate StopsAt(handler: Handler, ps: seq<Point>, made: seq<bool>, i: nat)
    requires i < |made| <= |ps|
  {
    made[i] && EndsWalk(ps[i], Response(handler, ps, made, i))
  }

  function StopCode(at: Point, response: int): int {
    if at.event.None? then EMPTY_LOOP else if response == END then OK else response
  }

  /** Calls are made exactly where no earlier response skips them. */
  ghost predicate Pruned(handler: Handler, ps: seq<Point>, made: seq<bool>) {
    |made| <= |ps| && forall p :: 0 <= p < |made| ==> (made[p] <==> !Skipped(handler, ps, made, p))
  }

  /** The calls of a walk, and the code that it returns: that of the call that ends it, or OK. */
  ghost predicate Lawful(handler: Handler, ps: seq<Point>, made: seq<bool>, o: Outcome) {
    && |made| == |ps| && Pruned(handler, ps, made) && o.trace == Made(ps, made)
    && (forall i :: 0 <= i < |made| && StopsAt(handler, ps, made, i) ==> o.code == StopCode(ps[i], Response(handler, ps, made, i)))
    && ((forall i :: 0 <= i < |made| ==> !StopsAt(handler, ps, made, i)) ==> o.code == OK)
  }

  // Where an element ends

  lemma {:induction false} PrefixSame(a: Path, b: Path, m: nat)
    requires m <= |a|
    ensures a[..m] <= b <==> Same(a, b, m)
  {
    if Same(a, b, m) { assert a[..m] == b[..m]; }
    if a[..m] <= b {
      forall k | 0 <= k < m ensures a[k] == b[k] { assert a[..m][k] == b[k]; }
    }
  }

  lemma {:induction false} SameTrans(a: Path, b: Path, c: Path, m: nat)
    requires Same(a, b, m)
    ensures Same(a, c, m) <==> Same(b, c, m)
  {
  }

  lemma {:induction false} NextWithin(ps: seq<Point>, i: nat, m: nat)
    requires Tidy(ps, []) && i < |ps| && 0 < m <= |ps[i].path| && !(ps[i].closes && m == |ps[i].path|)
    ensures i + 1 < |ps| && Same(ps[i].path, ps[i + 1].path, m)
  {
    if i + 1 < |ps| { assert Adjacent(ps[i], ps[i + 1], 0); }
  }

  /** The end of an element that some place is in, before its end; what is between is in it, and what follows is not. */
  lemma {:induction false} Closing(ps: seq<Point>, i: nat, m: nat) returns (j: nat)
    requires Tidy(ps, []) && Fits(ps) && i < |ps| && 0 < m <= |ps[i].path| && !(ps[i].closes && m == |ps[i].path|)
    ensures i < j < |ps| && ps[j].closes && |ps[j].path| == m
    ensures forall p :: i < p <= j ==> Same(ps[i].path, ps[p].path, m)
    ensures forall p :: i < p < j ==> !(ps[p].closes && |ps[p].path| == m)
    ensures forall p :: j < p < |ps| ==> !Same(ps[i].path, ps[p].path, m)
    decreases |ps| - i
  {
    NextWithin(ps, i, m);
    if ps[i + 1].closes && |ps[i + 1].path| == m {
      j := i + 1;
    } else {
      j := Closing(ps, i + 1, m);
      forall p | i < p <= j ensures Same(ps[i].path, ps[p].path, m) {
        SameTrans(ps[i].path, ps[i + 1].path, ps[p].path, m);
      }
    }
    NothingBehind(ps, i, j, m);
  }

  /** Nothing in an element follows its end. */
  lemma {:induction false} NothingBehind(ps: seq<Point>, i: nat, j: nat, m: nat)
    requires Tidy(ps, []) && i < j < |ps| && ps[j].closes && |ps[j].path| == m && Same(ps[i].path, ps[j].path, m)
    ensures forall p :: j < p < |ps| ==> !Same(ps[i].path, ps[p].path, m)
  {
    forall p | j < p < |ps| ensures !Same(ps[i].path, ps[p].path, m) {
      assert InOrder(ps[j], ps[p]);
      SameTrans(ps[i].path, ps[j].path, ps[p].path, m);
    }
  }

  // Where the script goes on

  predicate IsEndAt(step: Step, level: int) {
    step.Call? && IsEnd(step.event) && step.level == level
  }

  lemma {:induction false} AfterAt(s: seq<Step>, from: nat, j: nat, level: int)
    requires from <= j < |s| && IsEndAt(s[j], level) && forall p :: from <= p < j ==> !IsEndAt(s[p], level)
    ensures After(s[from..], level) == s[j + 1..] && ToEnd(s[from..], level) == s[j..]
    decreases j - from
  {
    assert s[from..][0] == s[from] && s[from..][1..] == s[from + 1..];
    if from < j { AfterAt(s, from + 1, j, level); }
  }

  lemma {:induction false} AfterNone(s: seq<Step>, from: nat)
    requires from <= |s|
    ensures After(s[from..], -1) == s[|s|..]
    decreases |s| - from
  {
    if from < |s| {
      assert s[from..][0] == s[from] && s[from..][1..] == s[from + 1..];
      AfterNone(s, from + 1);
    }
  }

  predicate LoopsHere(step: Step, level: int) {
    step.Call? && (if step.event.LoopStart? then step.level == level else IsEnd(step.event) && step.level == level - 1)
  }

  lemma {:induction false} ToLoopsAt(s: seq<Step>, from: nat, j: nat, level: int)
    requires from <= j < |s| && LoopsHere(s[j], level) && forall p :: from <= p < j ==> !LoopsHere(s[p], level)
    ensures ToLoops(s[from..], level) == s[j..]
    decreases j - from
  {
    assert s[from..][0] == s[from] && s[from..][1..] == s[from + 1..];
    if from < j { ToLoopsAt(s, from + 1, j, level); }
  }

  /** An end in the script is the end of an element with its path. */
  lemma {:induction false} EndStep(p: Point, level: nat)
    requires Fit(p)
    ensures IsEndAt(StepOf(p), level) <==> p.closes && !p.opens && |p.path| == level + 1
  {
  }

  /** From a place in an element, the script goes on behind its end. */
  lemma {:induction false} PastElement(ps: seq<Point>, s: seq<Step>, i: nat, m: nat) returns (j: nat)
    requires s == Steps(ps) && Tidy(ps, []) && Fits(ps) && i < |ps|
    requires 0 < m <= |ps[i].path| && !(ps[i].closes && m == |ps[i].path|)
    ensures i < j < |ps| && After(s[i + 1..], m - 1) == s[j + 1..] && ToEnd(s[i + 1..], m - 1) == s[j..]
    ensures forall p :: i < p <= j ==> Same(ps[i].path, ps[p].path, m)
    ensures forall p :: j < p < |ps| ==> !Same(ps[i].path, ps[p].path, m)
    ensures forall p :: i < p < j ==> |ps[p].path| > m
    ensures |ps[j].path| == m
  {
    j := Closing(ps, i, m);
    forall p | i < p < j ensures |ps[p].path| > m { Deeper(ps, i, p, m); }
    NotReopened(ps, i, j, m);
    forall p | i < p < j ensures !IsEndAt(s[p], m - 1) { EndStep(ps[p], m - 1); }
    EndStep(ps[j], m - 1);
    AfterAt(s, i + 1, j, m - 1);
  }

  lemma {:induction false} NotReopened(ps: seq<Point>, i: nat, p: nat, m: nat)
    requires Tidy(ps, []) && Fits(ps) && i < p < |ps| && Same(ps[i].path, ps[p].path, m) && |ps[p].path| == m
    ensures !ps[p].opens && ps[p].closes
  {
    assert InOrder(ps[i], ps[p]) && Fit(ps[p]);
  }

  lemma {:induction false} Deeper(ps: seq<Point>, i: nat, p: nat, m: nat)
    requires Tidy(ps, []) && Fits(ps) && i < p < |ps| && Same(ps[i].path, ps[p].path, m)
    requires !(ps[p].closes && |ps[p].path| == m)
    ensures |ps[p].path| > m
  {
    if |ps[p].path| == m { NotReopened(ps, i, p, m); }
  }

  predicate FrameBelow(p: Point, m: nat) {
    m < |p.path| && p.path[m].Frame?
  }

  /** From a place in a save frame, the first that is in none of its parent's frames: the parent's first loop or end. */
  lemma {:induction false} PastFrames(ps: seq<Point>, i: nat, m: nat) returns (j: nat)
    requires Tidy(ps, []) && i < |ps| && 0 < m && FrameBelow(ps[i], m)
    ensures i < j < |ps| && Same(ps[i].path, ps[j].path, m) && !FrameBelow(ps[j], m) && FrameBelow(ps[j - 1], m)
    ensures forall p :: i < p < j ==> Same(ps[i].path, ps[p].path, m) && FrameBelow(ps[p], m)
    decreases |ps| - i
  {
    NextWithin(ps, i, m);
    if FrameBelow(ps[i + 1], m) {
      j := PastFrames(ps, i + 1, m);
      forall p | i < p <= j ensures Same(ps[i].path, ps[p].path, m) {
        SameTrans(ps[i].path, ps[i + 1].path, ps[p].path, m);
      }
    } else {
      j := i + 1;
    }
  }

  /** That place is where the script has the loop or the end, and no frame of the parent follows. */
  lemma {:induction false} FramesLeft(ps: seq<Point>, i: nat, m: nat, j: nat)
    requires Tidy(ps, []) && Fits(ps) && i < j < |ps| && 0 < m && FrameBelow(ps[i], m)
    requires Same(ps[i].path, ps[j].path, m) && !FrameBelow(ps[j], m) && FrameBelow(ps[j - 1], m)
    ensures LoopsHere(StepOf(ps[j]), m)
    ensures forall p :: j <= p < |ps| && Same(ps[i].path, ps[p].path, m) ==> !FrameBelow(ps[p], m)
  {
    if |ps[j].path| == m {
      NotReopened(ps, i, j, m);
      EndStep(ps[j], m - 1);
      NothingBehind(ps, i, j, m);
    } else {
      assert Adjacent(ps[j - 1], ps[j], 0);
      LoopAfterFrames(ps[i], ps[j - 1], ps[j], m);
      forall p | j < p < |ps| && Same(ps[i].path, ps[p].path, m) ensures !FrameBelow(ps[p], m) {
        assert InOrder(ps[j], ps[p]);
        SameTrans(ps[i].path, ps[j].path, ps[p].path, m);
      }
    }
  }

  /** Right behind a frame, what is not a frame is the start of a loop. */
  lemma {:induction false} LoopAfterFrames(a: Point, before: Point, b: Point, m: nat)
    requires Fit(a) && Fit(b) && 0 < m && FrameBelow(a, m) && FrameBelow(before, m) && !FrameBelow(b, m)
    requires Same(a.path, b.path, m) && |b.path| > m && Adjacent(before, b, 0)
    ensures LoopsHere(StepOf(b), m)
  {
    assert !Same(before.path, b.path, m + 1);
    assert b.opens && |b.path| == m + 1;
    assert ChildOf(a.path[m - 1], a.path[m]) && ChildOf(b.path[m - 1], b.path[m]);
  }

  /** A place in a frame is neither a loop nor the end of the parent. */
  lemma {:induction false} InFrame(p: Point, m: nat)
    requires Fit(p) && FrameBelow(p, m)
    ensures !LoopsHere(StepOf(p), m)
  {
  }

  /** A response skips the places behind a call up to j, and no others. */
  ghost predicate SkipsUpTo(ps: seq<Point>, i: nat, r: int, j: nat)
    requires i < |ps|
  {
    && i < j <= |ps|
    && (forall p :: i < p < j ==> Skips(ps[i], r, ps[p])) && (forall p :: j <= p < |ps| ==> !Skips(ps[i], r, ps[p]))
  }

  /** The places that a response skips are those up to where the script goes on. */
  ghost predicate GoesTo(ps: seq<Point>, s: seq<Step>, i: nat, r: int, j: nat)
    requires |s| == |ps| && i < |ps| && ps[i].event.Some?
  {
    && SkipsUpTo(ps, i, r, j) && StepOf(ps[i]).Call? && GoesOn(ps[i].event.value, r)
    && Remaining(ps[i].event.value, StepOf(ps[i]).level, r, s[i + 1..]) == s[j..]
  }

  lemma {:induction false} Assembled(ps: seq<Point>, s: seq<Step>, i: nat, r: int, j: nat)
    requires s == Steps(ps) && i < j <= |ps| && Fit(ps[i]) && !EndsWalk(ps[i], r)
    requires forall p :: i < p < |ps| ==> (Skips(ps[i], r, ps[p]) <==> p < j)
    requires Remaining(ps[i].event.value, |ps[i].path| - 1, r, s[i + 1..]) == s[j..]
    ensures GoesTo(ps, s, i, r, j)
  {
    InsideIsInPacket(ps[i]);
  }

  lemma {:induction false} CurrentSkipped(ps: seq<Point>, s: seq<Step>, i: nat) returns (j: nat)
    requires s == Steps(ps) && Tidy(ps, []) && Fits(ps) && i < |ps| && ps[i].event.Some?
    ensures GoesTo(ps, s, i, SKIP_CURRENT, j)
  {
    j := i;
    if !ps[i].closes {
      j := PastElement(ps, s, i, |ps[i].path|);
      Within(ps, ps[i].path, i, j);
    }
    j := j + 1;
    CurrentRemains(ps[i], s[i + 1..]);
    Assembled(ps, s, i, SKIP_CURRENT, j);
  }

  lemma {:induction false} Within(ps: seq<Point>, x: Path, i: nat, j: nat)
    requires forall p :: i < p < |ps| ==> (Same(x, ps[p].path, |x|) <==> p <= j)
    ensures forall p :: i < p < |ps| ==> (x <= ps[p].path <==> p <= j)
  {
    forall p | i < p < |ps| ensures x <= ps[p].path <==> p <= j {
      PrefixSame(x, ps[p].path, |x|);
      assert x[..|x|] == x;
    }
  }

  lemma {:induction false} CurrentRemains(at: Point, rest: seq<Step>)
    requires Fit(at) && at.event.Some?
    ensures Remaining(at.event.value, |at.path| - 1, SKIP_CURRENT, rest) == if at.closes then rest else After(rest, |at.path| - 1)
  {
  }

  lemma {:induction false} SiblingsRemain(at: Point, rest: seq<Step>)
    requires Fit(at) && at.event.Some?
    ensures Remaining(at.event.value, |at.path| - 1, SKIP_SIBLINGS, rest)
      == if Last(at.path).Frame? then ToLoops(rest, |at.path| - 1) else After(rest, |at.path| - 2)
  {
  }

  lemma {:induction false} SiblingsSkipped(ps: seq<Point>, s: seq<Step>, i: nat) returns (j: nat)
    requires s == Steps(ps) && Tidy(ps, []) && Fits(ps) && i < |ps| && ps[i].event.Some? && !Last(ps[i].path).Frame?
    ensures GoesTo(ps, s, i, SKIP_SIBLINGS, j)
  {
    SiblingsRemain(ps[i], s[i + 1..]);
    if |ps[i].path| == 1 {
      j := |ps|;
      AfterNone(s, i + 1);
      forall p | i < p < |ps| ensures Skips(ps[i], SKIP_SIBLINGS, ps[p]) { PrefixSame(ps[i].path, ps[p].path, 0); }
    } else {
      j := ParentLeft(ps, s, i);
    }
    Assembled(ps, s, i, SKIP_SIBLINGS, j);
  }

  lemma {:induction false} ParentLeft(ps: seq<Point>, s: seq<Step>, i: nat) returns (j: nat)
    requires s == Steps(ps) && Tidy(ps, []) && Fits(ps) && i < |ps| && ps[i].event.Some?
    requires |ps[i].path| > 1 && !Last(ps[i].path).Frame?
    ensures i < j <= |ps| && After(s[i + 1..], |ps[i].path| - 2) == s[j..]
    ensures forall p :: i < p < |ps| ==> (Skips(ps[i], SKIP_SIBLINGS, ps[p]) <==> p < j)
  {
    var m := |ps[i].path| - 1;
    var end := PastElement(ps, s, i, m);
    j := end + 1;
    forall p | i < p < |ps| ensures Skips(ps[i], SKIP_SIBLINGS, ps[p]) <==> p < j {
      PrefixSame(ps[i].path, ps[p].path, m);
      OtherSkips(ps[i], ps[p]);
    }
  }

  lemma {:induction false} OtherSkips(at: Point, later: Point)
    requires at.event.Some? && at.path != [] && !Last(at.path).Frame?
    ensures Skips(at, SKIP_SIBLINGS, later) <==> at.path[..|at.path| - 1] <= later.path
  {
  }

  lemma {:induction false} FramesSkipped(ps: seq<Point>, s: seq<Step>, i: nat) returns (j: nat)
    requires s == Steps(ps) && Tidy(ps, []) && Fits(ps) && i < |ps| && ps[i].event.Some? && Last(ps[i].path).Frame?
    ensures GoesTo(ps, s, i, SKIP_SIBLINGS, j)
  {
    var x, m := ps[i].path, |ps[i].path| - 1;
    assert Fit(ps[i]) && m > 0;
    j := PastFrames(ps, i, m);
    FramesLeft(ps, i, m, j);
    forall p | i < p < j ensures !LoopsHere(s[p], m) { InFrame(ps[p], m); }
    ToLoopsAt(s, i + 1, j, m);
    forall p | i < p < |ps| ensures Skips(ps[i], SKIP_SIBLINGS, ps[p]) <==> p < j {
      PrefixSame(x, ps[p].path, m);
      FrameSkips(ps[i], ps[p]);
    }
    SiblingsRemain(ps[i], s[i + 1..]);
    Assembled(ps, s, i, SKIP_SIBLINGS, j);
  }

  lemma {:induction false} FrameSkips(at: Point, later: Point)
    requires Fit(at) && at.event.Some? && Last(at.path).Frame?
    ensures var m := |at.path| - 1; Skips(at, SKIP_SIBLINGS, later) <==> at.path[..m] <= later.path && FrameBelow(later, m)
  {
  }

  lemma {:induction false} LoopLevelIs(p: Point)
    requires Fit(p) && InsideLoop(p.path)
    ensures p.event.Some? && InPacket(p.event.value) && |LoopAround(p.path)| > 0
    ensures LoopLevel(p.event.value, StepOf(p).level) == |LoopAround(p.path)| - 1
    ensures LoopAround(p.path) == p.path[..|LoopAround(p.path)|] && |LoopAround(p.path)| < |p.path|
  {
    var x := p.path;
    if Last(x).ItemAt? { assert ChildOf(x[|x| - 2], x[|x| - 1]); }
  }

  lemma {:induction false} LoopFinished(ps: seq<Point>, s: seq<Step>, i: nat) returns (j: nat)
    requires s == Steps(ps) && Tidy(ps, []) && Fits(ps) && i < |ps| && ps[i].event.Some? && InsideLoop(ps[i].path)
    ensures GoesTo(ps, s, i, FINISHED, j)
  {
    var x := ps[i].path;
    LoopLevelIs(ps[i]);
    var m := |LoopAround(x)|;
    j := PastElement(ps, s, i, m);
    forall p | i < p < |ps| ensures Skips(ps[i], FINISHED, ps[p]) <==> p < j {
      PrefixSame(x, ps[p].path, m);
      if p == j { assert ps[p].path == LoopAround(x); }
    }
    FinishedRemains(ps[i], s[i + 1..]);
    Assembled(ps, s, i, FINISHED, j);
  }

  lemma {:induction false} FinishedRemains(at: Point, rest: seq<Step>)
    requires Fit(at) && at.event.Some? && InsideLoop(at.path)
    ensures Remaining(at.event.value, |at.path| - 1, FINISHED, rest) == ToEnd(rest, |LoopAround(at.path)| - 1)
  {
    LoopLevelIs(at);
  }

  lemma {:induction false} NextCall(ps: seq<Point>, s: seq<Step>, i: nat, r: int) returns (j: nat)
    requires s == Steps(ps) && Tidy(ps, []) && Fits(ps) && i < |ps| && !EndsWalk(ps[i], r)
    ensures GoesTo(ps, s, i, r, j)
  {
    assert Fit(ps[i]);
    if r == SKIP_CURRENT {
      j := CurrentSkipped(ps, s, i);
    } else if r == SKIP_SIBLINGS {
      if Last(ps[i].path).Frame? { j := FramesSkipped(ps, s, i); } else { j := SiblingsSkipped(ps, s, i); }
    } else if r == FINISHED {
      j := LoopFinished(ps, s, i);
    } else {
      j := i + 1;
      Assembled(ps, s, i, r, j);
    }
  }

  // Every run

  function Falses(n: nat): (f: seq<bool>)
    ensures |f| == n && forall i :: 0 <= i < n ==> !f[i]
  {
    seq(n, i => false)
  }

  lemma {:induction false} MadeAppend(ps: seq<Point>, made: seq<bool>, b: bool)
    requires |made| < |ps|
    ensures Made(ps, made + [b])
      == Made(ps, made) + if b && ps[|made|].event.Some? then [ps[|made|].event.value] else []
  {
    assert (made + [b])[..|made|] == made;
  }

  lemma {:induction false} MadeFalses(ps: seq<Point>, made: seq<bool>, n: nat)
    requires |made| + n <= |ps|
    ensures Made(ps, made + Falses(n)) == Made(ps, made)
    decreases n
  {
    if n == 0 {
      assert made + Falses(0) == made;
    } else {
      MadeFalses(ps, made, n - 1);
      MadeAppend(ps, made + Falses(n - 1), false);
      assert made + Falses(n) == made + Falses(n - 1) + [false];
      assert Made(ps, made) + [] == Made(ps, made);
    }
  }

  /** So far calls are made where they are not skipped; no response so far skips any place to come, or ends the walk. */
  ghost predicate Reached(handler: Handler, ps: seq<Point>, made: seq<bool>) {
    && Pruned(handler, ps, made)
    && (forall i, p :: 0 <= i < |made| && |made| <= p < |ps| ==> !SkippedBy(handler, ps, made, i, p))
    && (forall i :: 0 <= i < |made| ==> !StopsAt(handler, ps, made, i))
  }

  lemma {:induction false} Prefixed(handler: Handler, ps: seq<Point>, made: seq<bool>, more: seq<bool>, i: nat)
    requires i < |made| && |made + more| <= |ps|
    ensures (made + more)[i] == made[i] && Response(handler, ps, made + more, i) == Response(handler, ps, made, i)
  {
    assert (made + more)[..i + 1] == made[..i + 1];
  }

  lemma {:induction false} SkippedPrefixed(handler: Handler, ps: seq<Point>, made: seq<bool>, more: seq<bool>, p: nat)
    requires p <= |made| && |made + more| <= |ps| && p < |ps|
    ensures Skipped(handler, ps, made + more, p) <==> Skipped(handler, ps, made, p)
  {
    forall i | 0 <= i < p ensures SkippedBy(handler, ps, made + more, i, p) <==> SkippedBy(handler, ps, made, i, p) {
      Prefixed(handler, ps, made, more, i);
    }
  }

  /** One more call, and the places that its response skips, up to another. */
  lemma {:induction false} Onwards(handler: Handler, ps: seq<Point>, made: seq<bool>, j: nat)
    requires Reached(handler, ps, made) && |made| < j <= |ps|
    requires var i := |made|; var r := Response(handler, ps, made + [true], i);
      forall p :: i < p < j ==> Skips(ps[i], r, ps[p])
    ensures Pruned(handler, ps, made + [true] + Falses(j - |made| - 1))
  {
    var i, more := |made|, [true] + Falses(j - |made| - 1);
    var all := made + more;
    assert made + [true] + Falses(j - i - 1) == all;
    forall p | 0 <= p < j ensures all[p] <==> !Skipped(handler, ps, all, p) {
      if p <= i {
        SkippedPrefixed(handler, ps, made, more, p);
      } else {
        Prefixed(handler, ps, made + [true], Falses(j - i - 1), i);
        assert SkippedBy(handler, ps, all, i, p);
      }
    }
  }

  lemma {:induction false} StillReached(handler: Handler, ps: seq<Point>, made: seq<bool>, j: nat)
    requires Reached(handler, ps, made) && |made| < j <= |ps|
    requires var i := |made|; var r := Response(handler, ps, made + [true], i);
      SkipsUpTo(ps, i, r, j) && !EndsWalk(ps[i], r)
    ensures Reached(handler, ps, made + [true] + Falses(j - |made| - 1))
  {
    var all := made + [true] + Falses(j - |made| - 1);
    Onwards(handler, ps, made, j);
    forall q | 0 <= q < |all| ensures !StopsAt(handler, ps, all, q) { NotStopped(handler, ps, made, j, q); }
    forall q, p | 0 <= q < |all| && |all| <= p < |ps| ensures !SkippedBy(handler, ps, all, q, p) {
      NotSkipped(handler, ps, made, j, q, p);
    }
  }

  lemma {:induction false} NotStopped(handler: Handler, ps: seq<Point>, made: seq<bool>, j: nat, q: nat)
    requires Reached(handler, ps, made) && |made| < j <= |ps| && q < j
    requires !EndsWalk(ps[|made|], Response(handler, ps, made + [true], |made|))
    ensures !StopsAt(handler, ps, made + [true] + Falses(j - |made| - 1), q)
  {
    var i, n := |made|, j - |made| - 1;
    assert made + [true] + Falses(n) == made + ([true] + Falses(n));
    if q < i {
      Prefixed(handler, ps, made, [true] + Falses(n), q);
      assert !StopsAt(handler, ps, made, q);
    } else if q == i {
      Prefixed(handler, ps, made + [true], Falses(n), i);
    } else {
      assert !(made + [true] + Falses(n))[q];
    }
  }

  lemma {:induction false} NotSkipped(handler: Handler, ps: seq<Point>, made: seq<bool>, j: nat, q: nat, p: nat)
    requires Reached(handler, ps, made) && |made| < j <= p < |ps| && q < j
    requires !Skips(ps[|made|], Response(handler, ps, made + [true], |made|), ps[p])
    ensures !SkippedBy(handler, ps, made + [true] + Falses(j - |made| - 1), q, p)
  {
    var i, n := |made|, j - |made| - 1;
    assert made + [true] + Falses(n) == made + ([true] + Falses(n));
    if q < i {
      Prefixed(handler, ps, made, [true] + Falses(n), q);
      assert !SkippedBy(handler, ps, made, q, p);
    } else if q == i {
      Prefixed(handler, ps, made + [true], Falses(n), i);
    } else {
      assert !(made + [true] + Falses(n))[q];
    }
  }

  /** A call whose response ends the walk: all that follows is left out. */
  lemma {:induction false} Stopped(handler: Handler, ps: seq<Point>, made: seq<bool>, o: Outcome)
    requires Reached(handler, ps, made) && |made| < |ps|
    requires var i := |made|; var r := Response(handler, ps, made + [true], i);
      EndsWalk(ps[i], r) && o == Outcome(Made(ps, made + [true]), StopCode(ps[i], r))
    ensures Lawful(handler, ps, made + [true] + Falses(|ps| - |made| - 1), o)
  {
    var i, n := |made|, |ps| - |made| - 1;
    var all := made + [true] + Falses(n);
    Onwards(handler, ps, made, |ps|);
    MadeFalses(ps, made + [true], n);
    forall q | 0 <= q < |all| ensures StopsAt(handler, ps, all, q) <==> q == i {
      StopsOnly(handler, ps, made, q);
    }
    Prefixed(handler, ps, made + [true], Falses(n), i);
    assert StopsAt(handler, ps, all, i);
  }

  lemma {:induction false} StopsOnly(handler: Handler, ps: seq<Point>, made: seq<bool>, q: nat)
    requires Reached(handler, ps, made) && |made| < |ps| && q < |ps|
    requires EndsWalk(ps[|made|], Response(handler, ps, made + [true], |made|))
    ensures StopsAt(handler, ps, made + [true] + Falses(|ps| - |made| - 1), q) <==> q == |made|
  {
    var i, n := |made|, |ps| - |made| - 1;
    assert made + [true] + Falses(n) == made + ([true] + Falses(n));
    if q < i {
      Prefixed(handler, ps, made, [true] + Falses(n), q);
      assert !StopsAt(handler, ps, made, q);
    } else if q == i {
      Prefixed(handler, ps, made + [true], Falses(n), i);
    } else {
      assert !(made + [true] + Falses(n))[q];
    }
  }

  lemma {:induction false} RunLawful(handler: Handler, ps: seq<Point>, s: seq<Step>, made: seq<bool>) returns (all: seq<bool>)
    requires s == Steps(ps) && Tidy(ps, []) && Fits(ps) && Reached(handler, ps, made)
    ensures Lawful(handler, ps, all, Run(handler, s[|made|..], Made(ps, made)))
    decreases |ps| - |made|
  {
    var o := Run(handler, s[|made|..], Made(ps, made));
    if |made| == |ps| {
      all := made;
      AllReached(handler, ps, s, made);
    } else if EndsWalk(ps[|made|], Response(handler, ps, made + [true], |made|)) {
      all := made + [true] + Falses(|ps| - |made| - 1);
      RunStops(handler, ps, s, made);
      Stopped(handler, ps, made, o);
    } else {
      var j := NextCall(ps, s, |made|, Response(handler, ps, made + [true], |made|));
      var more := made + [true] + Falses(j - |made| - 1);
      RunGoesOn(handler, ps, s, made, j);
      StillReached(handler, ps, made, j);
      assert |more| == j && o == Run(handler, s[|more|..], Made(ps, more));
      all := RunLawful(handler, ps, s, more);
    }
  }

  lemma {:induction false} AllReached(handler: Handler, ps: seq<Point>, s: seq<Step>, made: seq<bool>)
    requires |s| == |ps| == |made| && Reached(handler, ps, made)
    ensures Lawful(handler, ps, made, Run(handler, s[|made|..], Made(ps, made)))
  {
  }

  lemma {:induction false} RunGoesOn(handler: Handler, ps: seq<Point>, s: seq<Step>, made: seq<bool>, j: nat)
    requires s == Steps(ps) && |made| < |ps| && ps[|made|].event.Some?
    requires GoesTo(ps, s, |made|, Response(handler, ps, made + [true], |made|), j)
    ensures Run(handler, s[|made|..], Made(ps, made)) == Run(handler, s[j..], Made(ps, made + [true] + Falses(j - |made| - 1)))
  {
    var i := |made|;
    MadeAppend(ps, made, true);
    assert (made + [true])[..i + 1] == made + [true];
    assert s[i..][0] == StepOf(ps[i]) && s[i..][1..] == s[i + 1..];
    MadeFalses(ps, made + [true], j - i - 1);
  }

  lemma {:induction false} RunStops(handler: Handler, ps: seq<Point>, s: seq<Step>, made: seq<bool>)
    requires s == Steps(ps) && |made| < |ps| && Fit(ps[|made|])
    requires EndsWalk(ps[|made|], Response(handler, ps, made + [true], |made|))
    ensures Run(handler, s[|made|..], Made(ps, made))
      == Outcome(Made(ps, made + [true]), StopCode(ps[|made|], Response(handler, ps, made + [true], |made|)))
  {
    var i := |made|;
    MadeAppend(ps, made, true);
    assert (made + [true])[..i + 1] == made + [true];
    assert s[i..][0] == StepOf(ps[i]);
    if ps[i].event.None? {
      assert Made(ps, made) + [] == Made(ps, made);
    } else {
      InsideIsInPacket(ps[i]);
    }
  }

  lemma {:induction false} InsideIsInPacket(p: Point)
    requires Fit(p) && p.event.Some?
    ensures InPacket(p.event.value) <==> InsideLoop(p.path)
  {
  }

  /**
   Every walk: a call of the complete walk is made if and only if no earlier
   call's response skips it, and the code is that of the call that ends the
   walk, or OK.
   */
  lemma {:induction false} WalkLawful(handler: Handler, cif: Cif) returns (made: seq<bool>)
    ensures Lawful(handler, Points(cif), made, Run(handler, Script(cif), []))
  {
    var ps := Points(cif);
    PointsTidy(cif);
    ScriptAgrees(cif);
    assert Script(cif)[0..] == Script(cif);
    made := RunLawful(handler, ps, Script(cif), []);
  }

  /** The law leaves no choice: it determines which calls are made, and the code. */
  lemma {:induction false} LawDetermines(handler: Handler, ps: seq<Point>, made: seq<bool>, o: Outcome, made': seq<bool>, o': Outcome)
    requires Lawful(handler, ps, made, o) && Lawful(handler, ps, made', o')
    ensures made == made' && o == o'
  {
    SameUpTo(handler, ps, made, made', |ps|);
    assert made[..|ps|] == made && made'[..|ps|] == made';
    if i :| 0 <= i < |made| && StopsAt(handler, ps, made, i) {
      assert StopsAt(handler, ps, made', i);
    }
  }

  lemma {:induction false} SameUpTo(handler: Handler, ps: seq<Point>, made: seq<bool>, made': seq<bool>, n: nat)
    requires Pruned(handler, ps, made) && Pruned(handler, ps, made') && |made| == |made'| && n <= |made|
    ensures made[..n] == made'[..n]
  {
    if n > 0 {
      var p := n - 1;
      SameUpTo(handler, ps, made, made', p);
      forall i: nat | i < p ensures SkippedBy(handler, ps, made, i, p) <==> SkippedBy(handler, ps, made', i, p) {
        assert made[i] == made[..p][i] && made'[i] == made'[..p][i];
        assert made[..i + 1] == made[..p][..i + 1] && made'[..i + 1] == made'[..p][..i + 1];
      }
      assert Skipped(handler, ps, made, p) <==> Skipped(handler, ps, made', p);
      assert made[..n] == made[..p] + [made[p]] && made'[..n] == made'[..p] + [made'[p]];
    }
  }
}
