/**
 Items of a hash table, and how they are distributed over buckets: each item is
 in the chain of the bucket that its hash value selects, and nowhere else.
 */
module Buckets {
  import opened Units
  import opened Values

  /** A map entry with its hash handle: links of the insertion-order list, and of the chain of its bucket. */
  class Item {
    const key: Text
    const hashv: nat
    var keyOrig: Text
    var value: Value
    var next: Item?
    var prev: Item?
    var hhNext: Item?
    var hhPrev: Item?

    constructor (key: Text, hashv: nat, keyOrig: Text, value: Value)
      ensures this.key == key && this.hashv == hashv && this.keyOrig == keyOrig && this.value == value
      ensures next == null && prev == null && hhNext == null && hhPrev == null
    {
      this.key, this.hashv, this.keyOrig, this.value := key, hashv, keyOrig, value;
      next, prev, hhNext, hhPrev := null, null, null, null;
    }
  }

  datatype Bucket = Bucket(head: Item?, count: nat, expandMult: nat)

  ghost function ItemAt(s: seq<Item>, i: int): Item? {
    if 0 <= i < |s| then s[i] else null
  }

  ghost predicate Distinct(s: seq<Item>) {
    forall i, j :: 0 <= i < j < |s| ==> s[i] != s[j]
  }

  /** The insertion-order list: a doubly linked list of distinct items. */
  ghost predicate ListOk(s: seq<Item>)
    reads s`next, s`prev
  {
    && Distinct(s)
    && (forall i {:trigger s[i].next} :: 0 <= i < |s| ==> s[i].next == ItemAt(s, i + 1))
    && (forall i {:trigger s[i].prev} :: 0 <= i < |s| ==> s[i].prev == ItemAt(s, i - 1))
  }

  /** The chain of a bucket: a doubly linked list. */
  ghost predicate ChainOk(s: seq<Item>)
    reads s`hhNext, s`hhPrev
  {
    && (forall i {:trigger s[i].hhNext} :: 0 <= i < |s| ==> s[i].hhNext == ItemAt(s, i + 1))
    && (forall i {:trigger s[i].hhPrev} :: 0 <= i < |s| ==> s[i].hhPrev == ItemAt(s, i - 1))
  }

  /** The bucket for a hash value; the number of buckets is a power of two. */
  function BucketOf(h: Item, n: nat): (b: nat)
    requires n > 0
    ensures b < n
  {
    h.hashv % n
  }

  // Distribution

  /** The chains hold exactly the items of a set, each once, in the bucket that its hash value selects. */
  ghost predicate Covers(chains: seq<seq<Item>>, items: set<Item>) {
    && |chains| > 0
    && (forall b, k :: 0 <= b < |chains| && 0 <= k < |chains[b]| ==>
          chains[b][k] in items && BucketOf(chains[b][k], |chains|) == b)
    && (forall b :: 0 <= b < |chains| ==> Distinct(chains[b]))
    && (forall h {:trigger InBucket(h, chains)} :: h in items ==> InBucket(h, chains))
  }

  /** Is the item in the bucket that its hash value selects? */
  ghost predicate InBucket(h: Item, chains: seq<seq<Item>>)
    requires |chains| > 0
  {
    h in chains[BucketOf(h, |chains|)]
  }

  ghost function TotalLength(chains: seq<seq<Item>>): nat {
    if chains == [] then 0 else TotalLength(chains[..|chains| - 1]) + |chains[|chains| - 1]|
  }

  /** The number of items beyond the ideal length of their chains. */
  ghost function Excess(chains: seq<seq<Item>>, ideal: nat): nat {
    if chains == [] then 0
    else Excess(chains[..|chains| - 1], ideal) + Over(|chains[|chains| - 1]|, ideal)
  }

  function Over(length: nat, ideal: nat): nat {
    if length > ideal then length - ideal else 0
  }

  lemma {:induction false} ExcessUpdate(chains: seq<seq<Item>>, b: nat, c: seq<Item>, ideal: nat)
    requires b < |chains|
    ensures Excess(chains[b := c], ideal) == Excess(chains, ideal) - Over(|chains[b]|, ideal) + Over(|c|, ideal)
  {
    var n := |chains| - 1;
    if b < n {
      assert chains[b := c][..n] == chains[..n][b := c];
      ExcessUpdate(chains[..n], b, c, ideal);
    } else {
      assert chains[b := c][..n] == chains[..n];
    }
  }

  function EmptyChains(n: nat): (chains: seq<seq<Item>>)
    ensures |chains| == n && forall b :: 0 <= b < n ==> chains[b] == []
  {
    seq(n, i => [])
  }

  lemma {:induction false} NoExcess(n: nat, ideal: nat)
    ensures Excess(EmptyChains(n), ideal) == 0
  {
    if n > 0 {
      assert EmptyChains(n)[..n - 1] == EmptyChains(n - 1);
      NoExcess(n - 1, ideal);
    }
  }

  ghost function Pushed(chains: seq<seq<Item>>, h: Item): seq<seq<Item>>
    requires |chains| > 0
  {
    var b := BucketOf(h, |chains|);
    chains[b := [h] + chains[b]]
  }

  /** A new item at the front of its chain. */
  lemma {:induction false} CoversPush(chains: seq<seq<Item>>, items: set<Item>, h: Item)
    requires Covers(chains, items) && h !in items
    ensures Covers(Pushed(chains, h), items + {h})
  {
    var b := BucketOf(h, |chains|);
    var after := Pushed(chains, h);
    assert h !in chains[b];
    forall g | g in items + {h} ensures InBucket(g, after) {
      var c := BucketOf(g, |chains|);
      assert g != h ==> InBucket(g, chains);
      if g == h { assert after[b][0] == h; } else if c == b {
        var k :| 0 <= k < |chains[b]| && chains[b][k] == g;
        assert after[b][k + 1] == g;
      }
    }
  }

  ghost function Without(s: seq<Item>, k: nat): seq<Item>
    requires k < |s|
  {
    s[..k] + s[k + 1..]
  }

  lemma {:induction false} WithoutMember(s: seq<Item>, k: nat, h: Item)
    requires k < |s| && Distinct(s)
    ensures Distinct(Without(s, k)) && (h in Without(s, k) <==> h in s && h != s[k])
  {
    var t := Without(s, k);
    if h in s && h != s[k] {
      var i :| 0 <= i < |s| && s[i] == h;
      assert t[if i < k then i else i - 1] == h;
    }
  }

  /** An item taken out of its chain. */
  lemma {:induction false} CoversRemove(chains: seq<seq<Item>>, items: set<Item>, b: nat, k: nat)
    requires Covers(chains, items) && b < |chains| && k < |chains[b]|
    ensures Covers(chains[b := Without(chains[b], k)], items - {chains[b][k]})
  {
    var h, after := chains[b][k], chains[b := Without(chains[b], k)];
    WithoutMember(chains[b], k, h);
    assert BucketOf(h, |chains|) == b;
    forall g | g in items - {h} ensures InBucket(g, after) {
      assert InBucket(g, chains);
      WithoutMember(chains[b], k, g);
    }
    forall c, i | 0 <= c < |after| && 0 <= i < |after[c]| ensures after[c][i] in items - {h} && BucketOf(after[c][i], |after|) == c {
      if c == b {
        WithoutMember(chains[b], k, after[c][i]);
        assert after[c][i] in chains[b];
      } else {
        assert after[c][i] == chains[c][i];
      }
    }
  }

  /** Items of different chains are different. */
  lemma {:induction false} ChainsDisjoint(chains: seq<seq<Item>>, items: set<Item>, b: nat)
    requires Covers(chains, items) && b < |chains|
    ensures forall c, k :: 0 <= c < |chains| && c != b && 0 <= k < |chains[c]| ==> chains[c][k] !in chains[b]
  {
  }

  ghost function ToSet(s: seq<Item>): set<Item> {
    set h | h in s
  }

  lemma {:induction false} DistinctSize(s: seq<Item>)
    requires Distinct(s)
    ensures |ToSet(s)| == |s|
  {
    if s != [] {
      var n := |s| - 1;
      DistinctSize(s[..n]);
      assert ToSet(s) == ToSet(s[..n]) + {s[n]};
    }
  }

  /** The items in the first i buckets. */
  ghost function Before(items: set<Item>, n: nat, i: nat): set<Item>
    requires n > 0
  {
    set h | h in items && BucketOf(h, n) < i
  }

  lemma {:induction false} NextBucket(chains: seq<seq<Item>>, items: set<Item>, i: nat)
    requires Covers(chains, items) && i < |chains|
    ensures Before(items, |chains|, i + 1) == Before(items, |chains|, i) + ToSet(chains[i])
    ensures ToSet(chains[i]) !! Before(items, |chains|, i) && ToSet(chains[i]) <= items
  {
    forall h | h in items ensures h in chains[BucketOf(h, |chains|)] {
      assert InBucket(h, chains);
    }
  }

  lemma {:induction false} AllBuckets(items: set<Item>, n: nat)
    requires n > 0
    ensures Before(items, n, 0) == {} && Before(items, n, n) == items
  {
  }

  /** The chains' lengths sum up to the number of items. */
  lemma {:induction false} TotalIs(chains: seq<seq<Item>>, items: set<Item>, i: nat)
    requires Covers(chains, items) && i <= |chains|
    ensures TotalLength(chains[..i]) == |Before(items, |chains|, i)|
  {
    if i == 0 {
      AllBuckets(items, |chains|);
    } else {
      TotalIs(chains, items, i - 1);
      NextBucket(chains, items, i - 1);
      DistinctSize(chains[i - 1]);
      assert chains[..i][..i - 1] == chains[..i - 1];
    }
  }
}
