/** Linking items into buckets, and redistributing them over twice as many. */
module BucketExpansion {
  import opened Buckets

  /** The array of buckets represents chains of items. */
  ghost predicate Represents(buckets: seq<Bucket>, chains: seq<seq<Item>>) {
    && |buckets| == |chains|
    && forall b :: 0 <= b < |chains| ==> buckets[b].head == ItemAt(chains[b], 0) && buckets[b].count == |chains[b]|
  }

  /** All chains of the table are well linked. */
  ghost predicate ChainsOk(chains: seq<seq<Item>>, items: set<Item>)
    requires Covers(chains, items)
    reads items`hhNext, items`hhPrev
  {
    forall b :: 0 <= b < |chains| ==> ChainOk(chains[b])
  }

  function Multiple(count: nat, ideal: nat): nat
    requires ideal > 0
  {
    if count > ideal then count / ideal else 0
  }

  /** Buckets longer than ideal are multiplied in their threshold for the next expansion. */
  predicate Multiples(buckets: seq<Bucket>, ideal: nat)
    requires ideal > 0
  {
    forall b :: 0 <= b < |buckets| ==> buckets[b].expandMult == Multiple(buckets[b].count, ideal)
  }

  /** Links an item in at the front of a chain. */
  method LinkFront(head: Item?, h: Item, ghost chain: seq<Item>)
    requires ChainOk(chain) && head == ItemAt(chain, 0) && h !in chain && Distinct(chain)
    modifies h`hhNext, h`hhPrev, chain`hhPrev
    ensures ChainOk([h] + chain)
  {
    h.hhPrev := null;
    h.hhNext := head;
    if head != null {
      head.hhPrev := h;
    }
  }

  /** Only the chain of its bucket changes when an item is linked in. */
  method LinkIn(buckets: array<Bucket>, h: Item, ghost chains: seq<seq<Item>>, ghost items: set<Item>)
    requires Represents(buckets[..], chains) && Covers(chains, items) && ChainsOk(chains, items) && h !in items
    modifies h`hhNext, h`hhPrev, items`hhPrev
    ensures Covers(Pushed(chains, h), items + {h}) && ChainsOk(Pushed(chains, h), items + {h})
  {
    var b := BucketOf(h, buckets.Length);
    CoversPush(chains, items, h);
    ChainsDisjoint(chains, items, b);
    assert forall g :: g in chains[b] ==> g in items;
    LinkFront(buckets[b].head, h, chains[b]);
    forall c | 0 <= c < |chains| ensures ChainOk(Pushed(chains, h)[c]) {
    }
  }

  /** The state of the expansion when some items have moved to new chains. */
  ghost predicate Moving(newBuckets: seq<Bucket>, ideal: nat, nonideal: nat, chains: seq<seq<Item>>, moved: set<Item>)
    requires ideal > 0
    reads moved`hhNext, moved`hhPrev
  {
    && Covers(chains, moved) && ChainsOk(chains, moved)
    && Counted(newBuckets, ideal, nonideal, chains)
  }

  ghost predicate Counted(newBuckets: seq<Bucket>, ideal: nat, nonideal: nat, chains: seq<seq<Item>>)
    requires ideal > 0
  {
    Represents(newBuckets, chains) && Multiples(newBuckets, ideal) && nonideal == Excess(chains, ideal)
  }

  /** The bucket of an item moved to it. */
  function Filled(bucket: Bucket, h: Item, ideal: nat): Bucket
    requires ideal > 0
  {
    Bucket(h, bucket.count + 1, if bucket.count + 1 > ideal then (bucket.count + 1) / ideal else bucket.expandMult)
  }

  lemma {:induction false} CountedStep(buckets: seq<Bucket>, ideal: nat, nonideal: nat, chains: seq<seq<Item>>, h: Item)
    requires ideal > 0 && |chains| > 0 && Counted(buckets, ideal, nonideal, chains)
    ensures var b := BucketOf(h, |chains|);
      Counted(buckets[b := Filled(buckets[b], h, ideal)], ideal,
              nonideal + (if buckets[b].count + 1 > ideal then 1 else 0), Pushed(chains, h))
  {
    var b := BucketOf(h, |chains|);
    ExcessUpdate(chains, b, [h] + chains[b], ideal);
  }

  /** Counts an item into its new bucket, which then begins with it. */
  method CountIn(newBuckets: array<Bucket>, h: Item, ideal: nat, nonideal: nat, ghost chains: seq<seq<Item>>)
    returns (nonideal': nat)
    requires ideal > 0 && |chains| > 0 && Counted(newBuckets[..], ideal, nonideal, chains)
    modifies newBuckets
    ensures Counted(newBuckets[..], ideal, nonideal', Pushed(chains, h))
  {
    var b := BucketOf(h, newBuckets.Length);
    ghost var before := newBuckets[..];
    CountedStep(before, ideal, nonideal, chains, h);
    nonideal' := nonideal;
    var bucket := newBuckets[b];
    bucket := bucket.(count := bucket.count + 1);
    if bucket.count > ideal {
      nonideal' := nonideal' + 1;
      bucket := bucket.(expandMult := bucket.count / ideal);
    }
    newBuckets[b] := bucket.(head := h);
    assert newBuckets[..] == before[b := Filled(before[b], h, ideal)];
  }

  /** One step of the expansion: an item moves to the front of its new chain. */
  method MoveItem(newBuckets: array<Bucket>, h: Item, ideal: nat, nonideal: nat,
                  ghost chains: seq<seq<Item>>, ghost moved: set<Item>)
    returns (nonideal': nat)
    requires ideal > 0 && h !in moved && Moving(newBuckets[..], ideal, nonideal, chains, moved)
    modifies newBuckets, h`hhNext, h`hhPrev, moved`hhPrev
    ensures Moving(newBuckets[..], ideal, nonideal', Pushed(chains, h), moved + {h})
  {
    LinkIn(newBuckets, h, chains, moved);
    nonideal' := CountIn(newBuckets, h, ideal, nonideal, chains);
  }

  /** The rest of an old chain can still be walked. */
  ghost predicate Walkable(first: Item?, rest: seq<Item>)
    reads rest`hhNext
  {
    && first == ItemAt(rest, 0) && Distinct(rest)
    && forall i {:trigger rest[i].hhNext} :: 0 <= i < |rest| ==> rest[i].hhNext == ItemAt(rest, i + 1)
  }

  lemma {:induction false} FirstMoves(rest: seq<Item>, moved: set<Item>)
    requires rest != [] && Distinct(rest) && ToSet(rest) !! moved
    ensures rest[0] !in rest[1..] && rest[0] !in moved && ToSet(rest[1..]) !! moved + {rest[0]}
    ensures moved + {rest[0]} + ToSet(rest[1..]) == moved + ToSet(rest)
  {
  }

  /** Moves the first item of the rest of an old chain; the others can still be walked. */
  method MoveFirst(newBuckets: array<Bucket>, h: Item, ideal: nat, nonideal: nat,
                   ghost rest: seq<Item>, ghost chains: seq<seq<Item>>, ghost moved: set<Item>)
    returns (nxt: Item?, nonideal': nat)
    requires ideal > 0 && Moving(newBuckets[..], ideal, nonideal, chains, moved)
    requires rest != [] && Walkable(h, rest) && ToSet(rest) !! moved
    modifies newBuckets, h`hhNext, h`hhPrev, moved`hhPrev
    ensures Moving(newBuckets[..], ideal, nonideal', Pushed(chains, h), moved + {h})
    ensures Walkable(nxt, rest[1..])
  {
    FirstMoves(rest, moved);
    RestWalkable(h, rest);
    nxt := h.hhNext;
    ghost var others := rest[1..];
    assert Distinct(others) && nxt == ItemAt(others, 0);
    nonideal' := MoveItem(newBuckets, h, ideal, nonideal, chains, moved);
    forall i | 0 <= i < |others| ensures others[i].hhNext == ItemAt(others, i + 1) {
      assert others[i] in ToSet(others);
      assert others[i].hhNext == old(others[i].hhNext);
    }
  }

  lemma {:induction false} RestWalkable(h: Item, rest: seq<Item>)
    requires rest != [] && Walkable(h, rest)
    ensures Walkable(h.hhNext, rest[1..])
  {
    assert forall i :: 0 <= i < |rest| - 1 ==> rest[1..][i] == rest[i + 1];
  }

  /** Moves the items of one old chain to their new chains. */
  method MoveChain(newBuckets: array<Bucket>, first: Item?, ideal: nat, nonideal0: nat,
                   ghost chain: seq<Item>, ghost chains0: seq<seq<Item>>, ghost moved0: set<Item>, ghost all: set<Item>)
    returns (nonideal: nat, ghost chains: seq<seq<Item>>)
    requires ideal > 0 && Moving(newBuckets[..], ideal, nonideal0, chains0, moved0)
    requires Walkable(first, chain) && ToSet(chain) !! moved0 && moved0 + ToSet(chain) == all
    modifies newBuckets, all`hhNext, all`hhPrev
    ensures Moving(newBuckets[..], ideal, nonideal, chains, all) && |chains| == |chains0|
  {
    nonideal, chains := nonideal0, chains0;
    var h := first;
    ghost var rest, moved := chain, moved0;
    while h != null
      invariant Walkable(h, rest) && ToSet(rest) !! moved && moved + ToSet(rest) == all && |chains| == |chains0|
      invariant Moving(newBuckets[..], ideal, nonideal, chains, moved)
      decreases |rest|
    {
      FirstMoves(rest, moved);
      ghost var g := h;
      assert g in all && moved <= all;
      h, nonideal := MoveFirst(newBuckets, h, ideal, nonideal, rest, chains, moved);
      chains, rest, moved := Pushed(chains, g), rest[1..], moved + {g};
    }
    assert moved == all;
  }

  lemma {:induction false} LaterBuckets(chains: seq<seq<Item>>, items: set<Item>, i: nat)
    requires Covers(chains, items) && i < |chains|
    ensures forall c, k :: i < c < |chains| && 0 <= k < |chains[c]| ==> chains[c][k] !in Before(items, |chains|, i + 1)
  {
  }

  lemma {:induction false} ChainWalkable(head: Item?, s: seq<Item>)
    requires ChainOk(s) && Distinct(s) && head == ItemAt(s, 0)
    ensures Walkable(head, s)
  {
  }

  /** The old chains from bucket i on are untouched. */
  ghost predicate Remaining(old0: seq<seq<Item>>, items: set<Item>, i: nat)
    requires Covers(old0, items)
    reads items`hhNext, items`hhPrev
  {
    forall c :: i <= c < |old0| ==> ChainOk(old0[c])
  }

  /** Moves the items of bucket i. */
  method MoveBucket(head: Item?, newBuckets: array<Bucket>, ideal: nat, nonideal: nat, ghost i: nat,
                    ghost old0: seq<seq<Item>>, ghost items: set<Item>, ghost chains: seq<seq<Item>>)
    returns (nonideal': nat, ghost chains': seq<seq<Item>>)
    requires ideal > 0 && Covers(old0, items) && i < |old0| && Remaining(old0, items, i) && head == ItemAt(old0[i], 0)
    requires Moving(newBuckets[..], ideal, nonideal, chains, Before(items, |old0|, i))
    modifies newBuckets, Before(items, |old0|, i + 1)`hhNext, Before(items, |old0|, i + 1)`hhPrev
    ensures Moving(newBuckets[..], ideal, nonideal', chains', Before(items, |old0|, i + 1)) && |chains'| == |chains|
    ensures Remaining(old0, items, i + 1)
  {
    NextBucket(old0, items, i);
    LaterBuckets(old0, items, i);
    ChainWalkable(head, old0[i]);
    nonideal', chains' := MoveChain(newBuckets, head, ideal, nonideal, old0[i], chains,
                                    Before(items, |old0|, i), Before(items, |old0|, i + 1));
  }

  /** Moves all items to the new buckets. */
  method MoveAll(buckets: array<Bucket>, newBuckets: array<Bucket>, ideal: nat,
                 ghost old0: seq<seq<Item>>, ghost items: set<Item>, ghost new0: seq<seq<Item>>)
    returns (nonideal: nat, ghost chains: seq<seq<Item>>)
    requires ideal > 0 && buckets != newBuckets
    requires Covers(old0, items) && ChainsOk(old0, items) && Represents(buckets[..], old0)
    requires Moving(newBuckets[..], ideal, 0, new0, {})
    modifies newBuckets, items`hhNext, items`hhPrev
    ensures Moving(newBuckets[..], ideal, nonideal, chains, items) && |chains| == |new0|
  {
    nonideal, chains := 0, new0;
    var i := 0;
    ghost var n := |old0|;
    AllBuckets(items, n);
    while i < buckets.Length
      invariant 0 <= i <= n && |chains| == |new0|
      invariant buckets[..] == old(buckets[..])
      invariant Moving(newBuckets[..], ideal, nonideal, chains, Before(items, n, i))
      invariant Remaining(old0, items, i)
    {
      assert Before(items, n, i + 1) <= items;
      var head := buckets[i].head;
      assert head == old(buckets[..])[i].head;
      nonideal, chains := MoveBucket(head, newBuckets, ideal, nonideal, i, old0, items, chains);
      i := i + 1;
    }
  }
}
