/**
 The calls of a complete walk, each with its place in the tree: the path from
 the CIF down to the element; and how places follow each other.
 */
module WalkPlaces {
  import opened Values
  import opened WalkScript
  import opened Wrappers

  /** An element among the children of its parent; NoPacket stands in a loop without packets. */
  datatype Branch = TheCif | Block(n: nat) | Frame(n: nat) | LoopAt(n: nat) | PacketAt(n: nat) | ItemAt(n: nat) | NoPacket

  type Path = seq<Branch>

  /** A call at the start or the end of an element, or both for an item; without an event, a loop has no packets. */
  datatype Point = Point(path: Path, event: Option<Event>, opens: bool, closes: bool)

  function StartOf(path: Path, e: Event): Point {
    Point(path, Some(e), true, false)
  }

  function EndOf(path: Path, e: Event): Point {
    Point(path, Some(e), false, true)
  }

  function ItemPoints(items: seq<Entry>, at: Path, n: nat): seq<Point> {
    if items == [] then []
    else [Point(at + [ItemAt(n)], Some(Item(items[0])), true, true)] + ItemPoints(items[1..], at, n + 1)
  }

  function PacketPoints(p: Packet, at: Path): seq<Point> {
    [StartOf(at, PacketStart(p))] + ItemPoints(p.items, at, 0) + [EndOf(at, PacketEnd(p))]
  }

  function PacketsPoints(ps: seq<Packet>, at: Path, n: nat): seq<Point> {
    if ps == [] then [] else PacketPoints(ps[0], at + [PacketAt(n)]) + PacketsPoints(ps[1..], at, n + 1)
  }

  function LoopInside(l: Loop, at: Path): seq<Point> {
    if l.packets == [] then [Point(at + [NoPacket], None, true, true)] else PacketsPoints(l.packets, at, 0)
  }

  function LoopPoints(l: Loop, at: Path): seq<Point> {
    [StartOf(at, LoopStart(l))] + LoopInside(l, at) + [EndOf(at, LoopEnd(l))]
  }

  function LoopsPoints(ls: seq<Loop>, at: Path, n: nat): seq<Point> {
    if ls == [] then [] else LoopPoints(ls[0], at + [LoopAt(n)]) + LoopsPoints(ls[1..], at, n + 1)
  }

  /** Data blocks are the children of the CIF, and save frames those of blocks and of save frames. */
  function Contained(at: Path, n: nat): Branch {
    if |at| == 1 then Block(n) else Frame(n)
  }

  function Depth(at: Path): nat {
    if |at| < 2 then 0 else |at| - 2
  }

  function ContainerPoints(c: Container, at: Path): seq<Point>
    decreases c, 1
  {
    [StartOf(at, ContainerStart(c, Depth(at)))] + (FramesPoints(c.frames, at, 0) + LoopsPoints(c.loops, at, 0))
    + [EndOf(at, ContainerEnd(c, Depth(at)))]
  }

  function FramesPoints(cs: seq<Container>, at: Path, n: nat): seq<Point>
    decreases cs, 0
  {
    if cs == [] then [] else ContainerPoints(cs[0], at + [Contained(at, n)]) + FramesPoints(cs[1..], at, n + 1)
  }

  /** The calls of the complete walk, in order. */
  function Points(cif: Cif): seq<Point> {
    [StartOf([TheCif], CifStart(cif))] + FramesPoints(cif.blocks, [TheCif], 0) + [EndOf([TheCif], CifEnd(cif))]
  }

  // The script has a step for each point

  function StepOf(p: Point): Step {
    if p.event.None? then NoPackets else Call(p.event.value, if p.path == [] then 0 else |p.path| - 1)
  }

  function Steps(ps: seq<Point>): (s: seq<Step>)
    ensures |s| == |ps|
  {
    seq(|ps|, i requires 0 <= i < |ps| => StepOf(ps[i]))
  }

  lemma {:induction false} StepsConcat(a: seq<Point>, b: seq<Point>)
    ensures Steps(a + b) == Steps(a) + Steps(b)
  {
  }

  lemma {:induction false} StepsAround(start: Point, body: seq<Point>, end: Point)
    ensures Steps([start] + body + [end]) == [StepOf(start)] + Steps(body) + [StepOf(end)]
  {
  }

  lemma {:induction false} ItemsAgree(items: seq<Entry>, at: Path, n: nat)
    ensures Steps(ItemPoints(items, at, n)) == ItemSteps(items, |at|)
    decreases |items|
  {
    if items != [] {
      ItemsAgree(items[1..], at, n + 1);
      StepsConcat([Point(at + [ItemAt(n)], Some(Item(items[0])), true, true)], ItemPoints(items[1..], at, n + 1));
    }
  }

  lemma {:induction false} PacketsAgree(ps: seq<Packet>, at: Path, n: nat)
    ensures Steps(PacketsPoints(ps, at, n)) == PacketsSteps(ps, |at|)
    decreases |ps|
  {
    if ps != [] {
      var p, x := ps[0], at + [PacketAt(n)];
      ItemsAgree(p.items, x, 0);
      StepsAround(StartOf(x, PacketStart(p)), ItemPoints(p.items, x, 0), EndOf(x, PacketEnd(p)));
      PacketsAgree(ps[1..], at, n + 1);
      StepsConcat(PacketPoints(p, x), PacketsPoints(ps[1..], at, n + 1));
    }
  }

  lemma {:induction false} LoopAgrees(l: Loop, x: Path)
    requires x != []
    ensures Steps(LoopPoints(l, x)) == LoopSteps(l, |x| - 1)
  {
    PacketsAgree(l.packets, x, 0);
    StepsAround(StartOf(x, LoopStart(l)), LoopInside(l, x), EndOf(x, LoopEnd(l)));
  }

  lemma {:induction false} LoopsAgree(ls: seq<Loop>, at: Path, n: nat)
    ensures Steps(LoopsPoints(ls, at, n)) == LoopsSteps(ls, |at|)
    decreases |ls|
  {
    if ls != [] {
      LoopAgrees(ls[0], at + [LoopAt(n)]);
      LoopsAgree(ls[1..], at, n + 1);
      StepsConcat(LoopPoints(ls[0], at + [LoopAt(n)]), LoopsPoints(ls[1..], at, n + 1));
    }
  }

  lemma {:induction false} ContainerAgrees(c: Container, at: Path)
    requires |at| >= 2
    ensures Steps(ContainerPoints(c, at)) == ContainerSteps(c, |at| - 2)
    decreases c, 1
  {
    var depth: nat := |at| - 2;
    var frames, loops := FramesPoints(c.frames, at, 0), LoopsPoints(c.loops, at, 0);
    FramesAgree(c.frames, at, 0);
    LoopsAgree(c.loops, at, 0);
    assert Steps(frames) == FramesSteps(c.frames, depth + 1) && Steps(loops) == LoopsSteps(c.loops, depth + 2);
    BodyAgrees(StartOf(at, ContainerStart(c, depth)), frames, loops, EndOf(at, ContainerEnd(c, depth)));
  }

  lemma {:induction false} BodyAgrees(start: Point, frames: seq<Point>, loops: seq<Point>, end: Point)
    ensures Steps([start] + (frames + loops) + [end]) == [StepOf(start)] + (Steps(frames) + Steps(loops)) + [StepOf(end)]
  {
    StepsConcat(frames, loops);
    StepsAround(start, frames + loops, end);
  }

  lemma {:induction false} FramesAgree(cs: seq<Container>, at: Path, n: nat)
    requires |at| >= 1
    ensures Steps(FramesPoints(cs, at, n)) == FramesSteps(cs, |at| - 1)
    decreases cs, 0
  {
    if cs != [] {
      ContainerAgrees(cs[0], at + [Contained(at, n)]);
      FramesAgree(cs[1..], at, n + 1);
      StepsConcat(ContainerPoints(cs[0], at + [Contained(at, n)]), FramesPoints(cs[1..], at, n + 1));
    }
  }

  lemma {:induction false} ScriptAgrees(cif: Cif)
    ensures Steps(Points(cif)) == Script(cif)
  {
    FramesAgree(cif.blocks, [TheCif], 0);
    StepsAround(StartOf([TheCif], CifStart(cif)), FramesPoints(cif.blocks, [TheCif], 0), EndOf([TheCif], CifEnd(cif)));
  }

  // Each point fits its place

  predicate ChildOf(parent: Branch, child: Branch) {
    match parent
    case TheCif => child.Block?
    case Block(_) => child.Frame? || child.LoopAt?
    case Frame(_) => child.Frame? || child.LoopAt?
    case LoopAt(_) => child.PacketAt? || child.NoPacket?
    case PacketAt(_) => child.ItemAt?
    case _ => false
  }

  predicate Lineage(path: Path) {
    path != [] && path[0] == TheCif && forall k :: 0 < k < |path| ==> ChildOf(path[k - 1], path[k])
  }

  lemma {:induction false} LineageChild(path: Path, b: Branch)
    requires Lineage(path) && ChildOf(path[|path| - 1], b)
    ensures Lineage(path + [b])
  {
  }

  predicate Kind(b: Branch, e: Event) {
    match b
    case TheCif => e.CifStart? || e.CifEnd?
    case Block(_) => (e.ContainerStart? || e.ContainerEnd?) && e.depth == 0
    case Frame(_) => (e.ContainerStart? || e.ContainerEnd?) && e.depth > 0
    case LoopAt(_) => e.LoopStart? || e.LoopEnd?
    case PacketAt(_) => e.PacketStart? || e.PacketEnd?
    case ItemAt(_) => e.Item?
    case NoPacket => false
  }

  /** The event is that of the kind of element, at its start or at its end. */
  predicate Fit(p: Point) {
    && Lineage(p.path) && (p.opens || p.closes)
    && (p.event.None? <==> p.path[|p.path| - 1] == NoPacket) && (p.event.None? ==> p.opens && p.closes)
    && (p.event.Some? ==>
          && Kind(p.path[|p.path| - 1], p.event.value)
          && (IsEnd(p.event.value) <==> !p.opens) && (p.event.value.Item? <==> p.opens && p.closes))
  }

  predicate Fits(ps: seq<Point>) {
    forall i {:trigger Fit(ps[i])} :: 0 <= i < |ps| ==> Fit(ps[i])
  }

  lemma {:induction false} FitsConcat(a: seq<Point>, b: seq<Point>)
    requires Fits(a) && Fits(b)
    ensures Fits(a + b)
  {
  }

  lemma {:induction false} FitsAround(start: Point, body: seq<Point>, end: Point)
    requires Fit(start) && Fits(body) && Fit(end)
    ensures Fits([start] + body + [end])
  {
  }

  // The order of places

  /** The paths agree on their first m branches. */
  predicate Same(a: Path, b: Path, m: nat) {
    m <= |a| && m <= |b| && forall k :: 0 <= k < m ==> a[k] == b[k]
  }

  /** Where both are in the same element, frames come before loops. */
  ghost predicate FramesFirst(a: Path, b: Path) {
    forall m: nat :: Same(a, b, m) && m < |a| && m < |b| && b[m].Frame? ==> a[m].Frame?
  }

  /** a comes earlier than b: nothing in an element follows its end, or comes before its start. */
  ghost predicate InOrder(a: Point, b: Point) {
    && (a.closes ==> !Same(a.path, b.path, |a.path|))
    && (b.opens ==> !Same(a.path, b.path, |b.path|))
    && FramesFirst(a.path, b.path)
  }

  /** b comes right after a: below n branches, elements are left at their ends and entered at their starts. */
  ghost predicate Adjacent(a: Point, b: Point, n: nat) {
    forall m: nat :: n < m ==>
      && (m <= |a.path| && !(a.closes && m == |a.path|) ==> Same(a.path, b.path, m))
      && (m <= |b.path| && !(b.opens && m == |b.path|) ==> Same(a.path, b.path, m))
  }

  predicate Based(ps: seq<Point>, base: Path) {
    forall i :: 0 <= i < |ps| ==> |base| < |ps[i].path| && Same(base, ps[i].path, |base|)
  }

  /** What comes first is entered, and what comes last is left, right below the base. */
  predicate Edges(ps: seq<Point>, n: nat) {
    ps != [] ==>
      && ps[0].opens && |ps[0].path| == n + 1
      && ps[|ps| - 1].closes && |ps[|ps| - 1].path| == n + 1
  }

  ghost predicate Ordered(ps: seq<Point>) {
    forall i, j {:trigger InOrder(ps[i], ps[j])} :: 0 <= i < j < |ps| ==> InOrder(ps[i], ps[j])
  }

  ghost predicate Chained(ps: seq<Point>, n: nat) {
    forall i :: 0 <= i < |ps| - 1 ==> Adjacent(ps[i], ps[i + 1], n)
  }

  /** Whole elements next to each other below a base. */
  ghost predicate Tidy(ps: seq<Point>, base: Path) {
    Based(ps, base) && Edges(ps, |base|) && Ordered(ps) && Chained(ps, |base|)
  }

  /** No element is in both parts, and frames are in the second only if there is nothing else in the first. */
  predicate Apart(a: seq<Point>, b: seq<Point>, n: nat) {
    forall i, j :: 0 <= i < |a| && 0 <= j < |b| ==> ApartAt(a[i].path, b[j].path, n)
  }

  predicate ApartAt(a: Path, b: Path, n: nat) {
    Same(a, b, n) && n < |a| && n < |b| && a[n] != b[n] && (b[n].Frame? ==> a[n].Frame?)
  }

  lemma {:induction false} ApartSame(a: Path, b: Path, n: nat, m: nat)
    requires ApartAt(a, b, n) && Same(a, b, m)
    ensures m <= n
  {
  }

  lemma {:induction false} ApartInOrder(a: Point, b: Point, n: nat)
    requires ApartAt(a.path, b.path, n)
    ensures InOrder(a, b)
  {
    forall m: nat | Same(a.path, b.path, m) ensures m <= n { ApartSame(a.path, b.path, n, m); }
  }

  lemma {:induction false} OrderedConcat(a: seq<Point>, b: seq<Point>, n: nat)
    requires Ordered(a) && Ordered(b) && Apart(a, b, n)
    ensures Ordered(a + b)
  {
    forall i, j | 0 <= i < j < |a + b| ensures InOrder((a + b)[i], (a + b)[j]) {
      if j < |a| {
        assert InOrder(a[i], a[j]);
      } else if i >= |a| {
        assert InOrder(b[i - |a|], b[j - |a|]);
      } else {
        assert ApartAt(a[i].path, b[j - |a|].path, n);
        ApartInOrder(a[i], b[j - |a|], n);
      }
    }
  }

  lemma {:induction false} EdgesAdjacent(a: Point, b: Point, n: nat)
    requires a.closes && |a.path| == n + 1 && b.opens && |b.path| == n + 1
    ensures Adjacent(a, b, n)
  {
  }

  lemma {:induction false} ChainedConcat(a: seq<Point>, b: seq<Point>, n: nat)
    requires Chained(a, n) && Chained(b, n) && Edges(a, n) && Edges(b, n)
    ensures Chained(a + b, n)
  {
    forall i | 0 <= i < |a + b| - 1 ensures Adjacent((a + b)[i], (a + b)[i + 1], n) {
      if i + 1 < |a| {
        assert Adjacent(a[i], a[i + 1], n);
      } else if i >= |a| {
        assert Adjacent(b[i - |a|], b[i - |a| + 1], n);
      } else {
        EdgesAdjacent(a[|a| - 1], b[0], n);
      }
    }
  }

  lemma {:induction false} BasedConcat(a: seq<Point>, b: seq<Point>, base: Path)
    requires Based(a, base) && Based(b, base) && Edges(a, |base|) && Edges(b, |base|)
    ensures Based(a + b, base) && Edges(a + b, |base|)
  {
  }

  lemma {:induction false} TidyConcat(a: seq<Point>, b: seq<Point>, base: Path)
    requires Tidy(a, base) && Tidy(b, base) && Apart(a, b, |base|)
    ensures Tidy(a + b, base)
  {
    BasedConcat(a, b, base);
    OrderedConcat(a, b, |base|);
    ChainedConcat(a, b, |base|);
  }

  lemma {:induction false} StartBefore(s: Point, b: Point, x: Path)
    requires s.path == x && !s.closes && Same(x, b.path, |x|) && (|b.path| > |x| || !b.opens)
    ensures InOrder(s, b)
  {
  }

  lemma {:induction false} EndBehind(a: Point, e: Point, x: Path)
    requires e.path == x && !e.opens && Same(x, a.path, |x|) && (|a.path| > |x| || !a.closes)
    ensures InOrder(a, e)
  {
  }

  /** An element around its children. */
  lemma {:induction false} TidyAround(start: Point, body: seq<Point>, end: Point, base: Path, b: Branch)
    requires Tidy(body, base + [b]) && start.path == end.path == base + [b]
    requires start.opens && !start.closes && end.closes && !end.opens
    ensures Tidy([start] + body + [end], base)
  {
    var x := base + [b];
    var c := [start] + body + [end];
    forall i | 0 <= i < |c| ensures |base| < |c[i].path| && Same(base, c[i].path, |base|) && Same(x, c[i].path, |x|) {
      if 0 < i < |c| - 1 { assert c[i] == body[i - 1]; }
    }
    forall i, j | 0 <= i < j < |c| ensures InOrder(c[i], c[j]) {
      if i == 0 {
        if j < |c| - 1 { assert c[j] == body[j - 1]; }
        StartBefore(start, c[j], x);
      } else if j == |c| - 1 {
        assert c[i] == body[i - 1];
        EndBehind(c[i], end, x);
      } else {
        assert InOrder(body[i - 1], body[j - 1]);
      }
    }
    forall i | 0 <= i < |c| - 1 ensures Adjacent(c[i], c[i + 1], |base|) {
      if i > 0 && i + 1 < |c| - 1 { assert Adjacent(body[i - 1], body[i], |x|); }
      AdjacentAbove(c[i], c[i + 1], x, |base|);
    }
  }

  lemma {:induction false} AdjacentAbove(a: Point, b: Point, x: Path, n: nat)
    requires |x| == n + 1 && Same(x, a.path, |x|) && Same(x, b.path, |x|)
    requires Adjacent(a, b, |x|) || (a.path == x && |b.path| <= |x| + 1 && (|b.path| == |x| + 1 ==> b.opens))
      || (b.path == x && |a.path| <= |x| + 1 && (|a.path| == |x| + 1 ==> a.closes))
    ensures Adjacent(a, b, n)
  {
    assert Same(a.path, b.path, n + 1);
  }

  // The points of a CIF are tidy

  lemma {:induction false} OnePoint(p: Point, base: Path)
    requires |p.path| == |base| + 1 && Same(base, p.path, |base|) && p.opens && p.closes
    ensures Tidy([p], base)
  {
  }

  /** Everything below a base is on branches of a kind, from a number on. */
  predicate From(ps: seq<Point>, m: nat, first: Branch) {
    forall i :: 0 <= i < |ps| ==> m < |ps[i].path| && NotBefore(ps[i].path[m], first)
  }

  predicate NotBefore(b: Branch, first: Branch) {
    match first
    case Block(n) => b.Block? && b.n >= n
    case Frame(n) => b.Frame? && b.n >= n
    case LoopAt(n) => b.LoopAt? && b.n >= n
    case PacketAt(n) => b.PacketAt? && b.n >= n
    case ItemAt(n) => b.ItemAt? && b.n >= n
    case _ => false
  }

  /** One branch and those after it. */
  lemma {:induction false} FirstAndRest(first: seq<Point>, rest: seq<Point>, base: Path, b: Branch, next: Branch)
    requires Tidy(first, base) && Tidy(rest, base) && Fits(first) && Fits(rest)
    requires OnBranch(first, |base|, b) && From(rest, |base|, next)
    requires NotBefore(b, b) && NotBefore(next, b) && next.n == b.n + 1
    ensures Tidy(first + rest, base) && Fits(first + rest) && From(first + rest, |base|, b)
  {
    forall i, j | 0 <= i < |first| && 0 <= j < |rest| ensures ApartAt(first[i].path, rest[j].path, |base|) {
      assert first[i].path[|base|] == b && NotBefore(rest[j].path[|base|], next);
    }
    TidyConcat(first, rest, base);
    FitsConcat(first, rest);
    FromConcat(first, rest, |base|, b, next);
  }

  lemma {:induction false} FromConcat(first: seq<Point>, rest: seq<Point>, m: nat, b: Branch, next: Branch)
    requires OnBranch(first, m, b) && From(rest, m, next) && NotBefore(b, b) && NotBefore(next, b)
    ensures From(first + rest, m, b)
  {
    forall i | 0 <= i < |first + rest| ensures m < |(first + rest)[i].path| && NotBefore((first + rest)[i].path[m], b) {
      if i >= |first| { assert NotBefore(rest[i - |first|].path[m], next); }
    }
  }

  lemma {:induction false} ItemsTidy(items: seq<Entry>, at: Path, n: nat)
    requires Lineage(at) && at[|at| - 1].PacketAt?
    ensures var ps := ItemPoints(items, at, n); Tidy(ps, at) && Fits(ps) && From(ps, |at|, ItemAt(n))
    decreases |items|
  {
    if items != [] {
      var p := Point(at + [ItemAt(n)], Some(Item(items[0])), true, true);
      LineageChild(at, ItemAt(n));
      OnePoint(p, at);
      ItemsTidy(items[1..], at, n + 1);
      FirstAndRest([p], ItemPoints(items[1..], at, n + 1), at, ItemAt(n), ItemAt(n + 1));
    }
  }

  /** Everything below a base is on one branch. */
  predicate OnBranch(ps: seq<Point>, m: nat, b: Branch) {
    forall i :: 0 <= i < |ps| ==> m < |ps[i].path| && ps[i].path[m] == b
  }

  lemma {:induction false} AroundOnBranch(start: Point, body: seq<Point>, end: Point, base: Path, b: Branch)
    requires Based(body, base + [b]) && start.path == end.path == base + [b]
    ensures OnBranch([start] + body + [end], |base|, b)
  {
    var x, c := base + [b], [start] + body + [end];
    forall i | 0 <= i < |c| ensures |base| < |c[i].path| && c[i].path[|base|] == b {
      if 0 < i < |c| - 1 { assert c[i] == body[i - 1] && body[i - 1].path[|base|] == x[|base|]; }
    }
  }

  lemma {:induction false} PacketTidy(p: Packet, at: Path, n: nat)
    requires Lineage(at) && at[|at| - 1].LoopAt?
    ensures var ps := PacketPoints(p, at + [PacketAt(n)]); Tidy(ps, at) && Fits(ps) && OnBranch(ps, |at|, PacketAt(n))
  {
    var x := at + [PacketAt(n)];
    var start, body, end := StartOf(x, PacketStart(p)), ItemPoints(p.items, x, 0), EndOf(x, PacketEnd(p));
    LineageChild(at, PacketAt(n));
    ItemsTidy(p.items, x, 0);
    TidyAround(start, body, end, at, PacketAt(n));
    AroundOnBranch(start, body, end, at, PacketAt(n));
    FitsAround(start, body, end);
  }

  lemma {:induction false} PacketsTidy(ps: seq<Packet>, at: Path, n: nat)
    requires Lineage(at) && at[|at| - 1].LoopAt?
    ensures var qs := PacketsPoints(ps, at, n); Tidy(qs, at) && Fits(qs) && From(qs, |at|, PacketAt(n))
    decreases |ps|
  {
    if ps != [] {
      var first, rest := PacketPoints(ps[0], at + [PacketAt(n)]), PacketsPoints(ps[1..], at, n + 1);
      PacketTidy(ps[0], at, n);
      PacketsTidy(ps[1..], at, n + 1);
      FirstAndRest(first, rest, at, PacketAt(n), PacketAt(n + 1));
    }
  }

  lemma {:induction false} InsideTidy(l: Loop, x: Path)
    requires Lineage(x) && x[|x| - 1].LoopAt?
    ensures Tidy(LoopInside(l, x), x) && Fits(LoopInside(l, x))
  {
    PacketsTidy(l.packets, x, 0);
    LineageChild(x, NoPacket);
    if l.packets == [] { OnePoint(Point(x + [NoPacket], None, true, true), x); }
  }

  lemma {:induction false} LoopTidy(l: Loop, at: Path, n: nat)
    requires Lineage(at) && (at[|at| - 1].Block? || at[|at| - 1].Frame?)
    ensures var ps := LoopPoints(l, at + [LoopAt(n)]); Tidy(ps, at) && Fits(ps) && OnBranch(ps, |at|, LoopAt(n))
  {
    var x := at + [LoopAt(n)];
    var start, body, end := StartOf(x, LoopStart(l)), LoopInside(l, x), EndOf(x, LoopEnd(l));
    LineageChild(at, LoopAt(n));
    InsideTidy(l, x);
    TidyAround(start, body, end, at, LoopAt(n));
    AroundOnBranch(start, body, end, at, LoopAt(n));
    FitsAround(start, body, end);
  }

  lemma {:induction false} LoopsTidy(ls: seq<Loop>, at: Path, n: nat)
    requires Lineage(at) && (at[|at| - 1].Block? || at[|at| - 1].Frame?)
    ensures var ps := LoopsPoints(ls, at, n); Tidy(ps, at) && Fits(ps) && From(ps, |at|, LoopAt(n))
    decreases |ls|
  {
    if ls != [] {
      var first, rest := LoopPoints(ls[0], at + [LoopAt(n)]), LoopsPoints(ls[1..], at, n + 1);
      LoopTidy(ls[0], at, n);
      LoopsTidy(ls[1..], at, n + 1);
      FirstAndRest(first, rest, at, LoopAt(n), LoopAt(n + 1));
    }
  }

  predicate Holds(b: Branch) {
    b.TheCif? || b.Block? || b.Frame?
  }

  lemma {:induction false} ContainerTidy(c: Container, at: Path, n: nat)
    requires Lineage(at) && Holds(at[|at| - 1]) && (|at| == 1 <==> at[|at| - 1].TheCif?)
    ensures var b := Contained(at, n);
      var ps := ContainerPoints(c, at + [b]); Tidy(ps, at) && Fits(ps) && OnBranch(ps, |at|, b)
    decreases c, 1
  {
    var b := Contained(at, n);
    var x := at + [b];
    var frames, loops := FramesPoints(c.frames, x, 0), LoopsPoints(c.loops, x, 0);
    var start, end := StartOf(x, ContainerStart(c, Depth(x))), EndOf(x, ContainerEnd(c, Depth(x)));
    LineageChild(at, b);
    FramesTidy(c.frames, x, 0);
    LoopsTidy(c.loops, x, 0);
    FramesThenLoops(frames, loops, x);
    TidyAround(start, frames + loops, end, at, b);
    AroundOnBranch(start, frames + loops, end, at, b);
    FitsAround(start, frames + loops, end);
  }

  lemma {:induction false} FramesThenLoops(frames: seq<Point>, loops: seq<Point>, x: Path)
    requires Tidy(frames, x) && Tidy(loops, x) && Fits(frames) && Fits(loops)
    requires From(frames, |x|, Frame(0)) && From(loops, |x|, LoopAt(0))
    ensures Tidy(frames + loops, x) && Fits(frames + loops)
  {
    forall i, j | 0 <= i < |frames| && 0 <= j < |loops| ensures ApartAt(frames[i].path, loops[j].path, |x|) {
      assert NotBefore(frames[i].path[|x|], Frame(0)) && NotBefore(loops[j].path[|x|], LoopAt(0));
    }
    TidyConcat(frames, loops, x);
    FitsConcat(frames, loops);
  }

  lemma {:induction false} FramesTidy(cs: seq<Container>, at: Path, n: nat)
    requires Lineage(at) && Holds(at[|at| - 1]) && (|at| == 1 <==> at[|at| - 1].TheCif?)
    ensures var ps := FramesPoints(cs, at, n); Tidy(ps, at) && Fits(ps) && From(ps, |at|, Contained(at, n))
    decreases cs, 0
  {
    if cs != [] {
      var first, rest := ContainerPoints(cs[0], at + [Contained(at, n)]), FramesPoints(cs[1..], at, n + 1);
      ContainerTidy(cs[0], at, n);
      FramesTidy(cs[1..], at, n + 1);
      FirstAndRest(first, rest, at, Contained(at, n), Contained(at, n + 1));
    }
  }

  lemma {:induction false} PointsTidy(cif: Cif)
    ensures Tidy(Points(cif), []) && Fits(Points(cif))
  {
    var start, body, end := StartOf([TheCif], CifStart(cif)), FramesPoints(cif.blocks, [TheCif], 0), EndOf([TheCif], CifEnd(cif));
    FramesTidy(cif.blocks, [TheCif], 0);
    assert [] + [TheCif] == [TheCif];
    TidyAround(start, body, end, [], TheCif);
    FitsAround(start, body, end);
  }
}
