/** The hash table: a bucket array over an insertion-order list, doubled when chains grow long. */
module HashTable {
  import opened Bignum
  import opened BucketExpansion
  import opened Buckets
  import opened ItemList
  import opened Units

  const INITIAL_NUM_BUCKETS := 32
  const INITIAL_NUM_BUCKETS_LOG2 := 5
  const BKT_CAPACITY_THRESH := 10

  ghost predicate Keyed(items: seq<Item>, hash: Text -> nat) {
    && (forall i :: 0 <= i < |items| ==> items[i].hashv == hash(items[i].key))
    && (forall i, j :: 0 <= i < j < |items| ==> items[i].key != items[j].key)
  }

  ghost predicate HasKey(items: seq<Item>, key: Text) {
    exists i :: 0 <= i < |items| && items[i].key == key
  }

  /** q is the least integer that is at least n/d. */
  predicate IsCeiling(n: nat, d: nat, q: nat) {
    n <= q * d && (q > 0 ==> (q - 1) * d < n)
  }

  /** An empty head means that there is no table; the fields of the table then mean nothing. */
  class HashTable {
    const hash: Text -> nat
    var head: Item?
    var tail: Item?
    var buckets: array<Bucket>
    var numBuckets: nat
    var log2NumBuckets: nat
    var numItems: nat
    var idealChainMaxlen: nat
    var nonidealItems: nat
    var ineffExpands: nat
    var noexpand: bool

    /** The items in the order in which they were added, and the items in each bucket, latest first. */
    ghost var items: seq<Item>
    ghost var chains: seq<seq<Item>>

    constructor (hash: Text -> nat)
      ensures this.hash == hash && Valid() && items == [] && fresh(buckets)
    {
      this.hash := hash;
      head, tail := null, null;
      buckets := new Bucket[0];
      numBuckets, log2NumBuckets, numItems := 0, 0, 0;
      idealChainMaxlen, nonidealItems, ineffExpands, noexpand := 0, 0, 0, false;
      items, chains := [], [];
    }

    /** The table is consistent: list links and tail, chain links and counts, and each item in its bucket. */
    ghost predicate Valid()
      reads this, buckets, items`next, items`prev, items`hhNext, items`hhPrev
    {
      Keyed(items, hash) && Consistent(ToSet(items))
    }

    /** Links, tail and counts agree for a list of items, and for the set of them. */
    ghost predicate Agrees(list: seq<Item>, all: set<Item>)
      reads this`head, this`tail, this`numItems, this`buckets, this`numBuckets, this`log2NumBuckets, this`chains, buckets,
            list`next, list`prev, all`hhNext, all`hhPrev
    {
      && ListOk(list) && head == ItemAt(list, 0)
      && (list != [] ==> tail == list[|list| - 1] && Linked(all) && numItems == |list|)
    }

    ghost predicate Consistent(all: set<Item>)
      reads this, buckets, items`next, items`prev, all`hhNext, all`hhPrev
    {
      Agrees(items, all)
    }

    ghost predicate Linked(all: set<Item>)
      reads this`buckets, this`numBuckets, this`log2NumBuckets, this`chains, buckets, all`hhNext, all`hhPrev
    {
      && numBuckets == buckets.Length == Pow(2, log2NumBuckets)
      && Represents(buckets[..], chains) && Covers(chains, all) && ChainsOk(chains, all)
    }

    /** Sets up a table with empty buckets. */
    method MakeTable()
      modifies this`buckets, this`numBuckets, this`log2NumBuckets, this`numItems, this`idealChainMaxlen,
               this`nonidealItems, this`ineffExpands, this`noexpand, this`chains
      ensures fresh(buckets) && numItems == 0 && Linked({}) && numBuckets == INITIAL_NUM_BUCKETS
      ensures ineffExpands == 0 && !noexpand
    {
      numBuckets, log2NumBuckets, numItems := INITIAL_NUM_BUCKETS, INITIAL_NUM_BUCKETS_LOG2, 0;
      idealChainMaxlen, nonidealItems, ineffExpands, noexpand := 0, 0, 0, false;
      buckets := new Bucket[INITIAL_NUM_BUCKETS](i => Bucket(null, 0, 0));
      chains := EmptyChains(INITIAL_NUM_BUCKETS);
      assert Pow(2, 5) == 32;
    }

    /** Adds an item to the front of its bucket; it is not counted for expansion yet. */
    method PushItem(add: Item, ghost all: set<Item>, ghost list: seq<Item>) returns (bkt: nat)
      requires Linked(all) && add !in all && ListOk(list)
      modifies this`chains, buckets, add`hhNext, add`hhPrev, all`hhPrev
      ensures Linked(all + {add}) && bkt < buckets.Length && ListOk(list)
    {
      bkt := BucketOf(add, numBuckets);
      ghost var before, was := buckets[..], chains;
      LinkIn(buckets, add, chains, all);
      assert ListOk(list);
      var bucket := buckets[bkt];
      buckets[bkt] := bucket.(count := bucket.count + 1, head := add);
      chains := Pushed(chains, add);
      assert buckets[..] == before[bkt := Bucket(add, before[bkt].count + 1, before[bkt].expandMult)];
    }

    /** The table after an expansion: chains of ideal length as far as possible, and the excess counted. */
    ghost predicate Expanded(n: nat)
      reads this`buckets, this`numBuckets, this`chains, this`idealChainMaxlen, this`nonidealItems, buckets
    {
      && IsCeiling(n, numBuckets, idealChainMaxlen) && idealChainMaxlen > 0
      && nonidealItems == Excess(chains, idealChainMaxlen)
      && Multiples(buckets[..], idealChainMaxlen)
    }

    /** Doubles the number of buckets. */
    method ExpandBuckets(ghost all: set<Item>, ghost list: seq<Item>)
      requires Linked(all) && numItems > 0 && ListOk(list)
      modifies this`buckets, this`numBuckets, this`log2NumBuckets, this`idealChainMaxlen,
               this`nonidealItems, this`ineffExpands, this`noexpand, this`chains, all`hhNext, all`hhPrev
      ensures ListOk(list)
      ensures Linked(all) && fresh(buckets) && numBuckets == 2 * old(numBuckets) && Expanded(numItems)
      ensures ineffExpands == if nonidealItems > numItems / 2 then old(ineffExpands) + 1 else 0
      ensures noexpand <==> old(noexpand) || ineffExpands > 1
    {
      var ideal, newBuckets := PrepareExpansion();
      var nonideal;
      ghost var after;
      nonideal, after := MoveAll(buckets, newBuckets, ideal, chains, all, EmptyChains(2 * numBuckets));
      Install(newBuckets, ideal, nonideal, after, all);
    }

    /** Puts the new buckets in place of the old ones. */
    method Replace(newBuckets: array<Bucket>, ideal: nat, nonideal: nat, ghost after: seq<seq<Item>>, ghost all: set<Item>)
      requires ideal > 0 && Moving(newBuckets[..], ideal, nonideal, after, all) && IsCeiling(numItems, 2 * numBuckets, ideal)
      requires newBuckets.Length == 2 * numBuckets == Pow(2, log2NumBuckets + 1)
      modifies this`buckets, this`numBuckets, this`log2NumBuckets, this`idealChainMaxlen, this`nonidealItems, this`chains
      ensures Linked(all) && buckets == newBuckets && numBuckets == 2 * old(numBuckets) && Expanded(numItems)
    {
      nonidealItems := nonideal;
      chains := after;
      numBuckets := numBuckets * 2;
      log2NumBuckets := log2NumBuckets + 1;
      buckets := newBuckets;
      idealChainMaxlen := ideal;
    }

    /** Puts the new buckets in place of the old ones, and says whether expansion still pays. */
    method Install(newBuckets: array<Bucket>, ideal: nat, nonideal: nat, ghost after: seq<seq<Item>>, ghost all: set<Item>)
      requires ideal > 0 && Moving(newBuckets[..], ideal, nonideal, after, all) && IsCeiling(numItems, 2 * numBuckets, ideal)
      requires newBuckets.Length == 2 * numBuckets == Pow(2, log2NumBuckets + 1)
      modifies this`buckets, this`numBuckets, this`log2NumBuckets, this`idealChainMaxlen,
               this`nonidealItems, this`ineffExpands, this`noexpand, this`chains
      ensures Linked(all) && buckets == newBuckets && numBuckets == 2 * old(numBuckets) && Expanded(numItems)
      ensures ineffExpands == if nonidealItems > numItems / 2 then old(ineffExpands) + 1 else 0
      ensures noexpand <==> old(noexpand) || ineffExpands > 1
    {
      Replace(newBuckets, ideal, nonideal, after, all);
      ineffExpands := if nonidealItems > numItems / 2 then ineffExpands + 1 else 0;
      if ineffExpands > 1 {
        noexpand := true;
      }
    }

    /** Allocates twice as many buckets, and finds the ideal length of their chains. */
    method PrepareExpansion() returns (ideal: nat, newBuckets: array<Bucket>)
      requires numItems > 0 && numBuckets == Pow(2, log2NumBuckets)
      ensures ideal > 0 && IsCeiling(numItems, 2 * numBuckets, ideal)
      ensures newBuckets.Length == 2 * numBuckets == Pow(2, log2NumBuckets + 1)
      ensures fresh(newBuckets) && Moving(newBuckets[..], ideal, 0, EmptyChains(2 * numBuckets), {})
    {
      assert Pow(2, log2NumBuckets + 1) == 2 * numBuckets;
      var n := 2 * numBuckets;
      ideal := numItems / Pow(2, log2NumBuckets + 1) + if numItems % n != 0 then 1 else 0;
      Ceiling(numItems, n, ideal);
      newBuckets := new Bucket[n](i => Bucket(null, 0, 0));
      NoExcess(n, ideal);
    }

    /** Adds an item to its bucket, and expands the table when the bucket has become too full. */
    method AddToBucket(add: Item, ghost all: set<Item>, ghost list: seq<Item>)
      requires Linked(all) && add !in all && numItems > 0 && ListOk(list)
      modifies this`buckets, this`numBuckets, this`log2NumBuckets, this`idealChainMaxlen,
               this`nonidealItems, this`ineffExpands, this`noexpand, this`chains, buckets,
               add`hhNext, add`hhPrev, all`hhNext, all`hhPrev
      ensures Linked(all + {add}) && (buckets == old(buckets) || fresh(buckets)) && ListOk(list)
    {
      var bkt := PushItem(add, all, list);
      if buckets[bkt].count >= (buckets[bkt].expandMult + 1) * BKT_CAPACITY_THRESH && !noexpand {
        ExpandBuckets(all + {add}, list);
      }
    }

    /** Appends an item to the insertion-order list; the first item sets up the table. */
    method AppendItem(add: Item, ghost all: set<Item>)
      requires Consistent(all) && add !in items && (items == [] ==> all == {})
      modifies this`head, this`tail, this`buckets, this`numBuckets, this`log2NumBuckets, this`numItems, this`idealChainMaxlen,
               this`nonidealItems, this`ineffExpands, this`noexpand, this`chains, items`next, add`next, add`prev
      ensures ListOk(items + [add]) && head == ItemAt(items + [add], 0) && tail == add
      ensures Linked(all) && numItems == |items| + 1 && (buckets == old(buckets) || fresh(buckets))
    {
      add.next := null;
      if head == null {
        head := add;
        add.prev := null;
        MakeTable();
        tail := add;
      } else {
        LinkLast(tail, add, items);
        tail := add;
      }
      numItems := numItems + 1;
    }

    /** Links a new item into the list and into its bucket. */
    method LinkItem(add: Item, ghost all: set<Item>)
      requires Consistent(all) && add !in items && (items == [] ==> all == {}) && add !in all
      modifies this`head, this`tail, this`buckets, this`numBuckets, this`log2NumBuckets, this`numItems, this`idealChainMaxlen,
               this`nonidealItems, this`ineffExpands, this`noexpand, this`chains, buckets,
               add`next, add`prev, add`hhNext, add`hhPrev, items`next, all`hhNext, all`hhPrev
      ensures ListOk(items + [add]) && head == ItemAt(items + [add], 0) && tail == add && numItems == |items| + 1
      ensures Linked(all + {add})
      ensures buckets == old(buckets) || fresh(buckets)
    {
      AppendItem(add, all);
      AddToBucket(add, all, items + [add]);
    }

    /** Adds an item whose key is new. */
    method Add(add: Item)
      requires Valid() && add !in items && add.hashv == hash(add.key) && !HasKey(items, add.key)
      modifies this, buckets, add`next, add`prev, add`hhNext, add`hhPrev, items`next, items`prev, items`hhNext, items`hhPrev
      ensures Valid() && items == old(items) + [add]
      ensures buckets == old(buckets) || fresh(buckets)
    {
      ghost var more := items + [add];
      Appended(items, add, hash);
      LinkItem(add, ToSet(items));
      assert Agrees(more, ToSet(more));
      items := more;
    }

    /** Finds the item with a key, in the chain of the bucket that the key's hash value selects. */
    method Find(key: Text) returns (out: Item?)
      requires Valid()
      ensures out != null ==> out in items && out.key == key
      ensures out == null ==> !HasKey(items, key)
    {
      out := null;
      if head == null { return; }
      var bkt := hash(key) % numBuckets;
      out := buckets[bkt].head;
      ghost var k, chain := 0, chains[bkt];
      assert ChainOk(chain);
      while out != null
        invariant 0 <= k <= |chain| && out == ItemAt(chain, k)
        invariant forall j :: 0 <= j < k ==> chain[j].key != key
        decreases |chain| - k
      {
        assert chain[k] in ToSet(items);
        if out.key == key { return; }
        out := out.hhNext;
        k := k + 1;
      }
      forall i | 0 <= i < |items| ensures items[i].key != key {
        assert items[i] in ToSet(items);
        assert InBucket(items[i], chains);
      }
    }

    /** Takes an item out of its bucket. */
    method DeleteInBucket(del: Item, ghost all: set<Item>, ghost list: seq<Item>)
      requires Linked(all) && del in all && ListOk(list)
      modifies this`chains, buckets, all`hhNext, all`hhPrev
      ensures Linked(all - {del}) && ListOk(list)
    {
      var bkt := BucketOf(del, numBuckets);
      ghost var before, chain := buckets[..], chains[bkt];
      assert InBucket(del, chains);
      ghost var k :| 0 <= k < |chain| && chain[k] == del;
      var bucket := buckets[bkt];
      var head' := UnlinkFrom(bucket.head, del, chains, all, bkt, k);
      assert ListOk(list);
      bucket := bucket.(count := bucket.count - 1, head := head');
      buckets[bkt] := bucket;
      assert buckets[..] == before[bkt := bucket];
      chains := chains[bkt := Without(chain, k)];
    }

    /** Takes an item that is not the only one out of the insertion-order list. */
    method UnlinkOrder(del: Item, ghost k: nat)
      requires ListOk(items) && |items| > 1 && head == items[0] && tail == items[|items| - 1]
      requires k < |items| && items[k] == del
      modifies this`head, this`tail, items`next, items`prev
      ensures ListOk(Without(items, k)) && head == ItemAt(Without(items, k), 0)
      ensures tail == Without(items, k)[|items| - 2]
    {
      if del == tail {
        tail := del.prev;
      }
      Around(items, k);
      head := Unlink(head, del, items, k);
    }

    /** Unlinks an item that is not the only one. */
    method UnlinkItem(del: Item, ghost k: nat, ghost all: set<Item>)
      requires Consistent(all) && |items| > 1 && k < |items| && items[k] == del && del in all
      modifies this`head, this`tail, this`numItems, this`chains, buckets,
               items`next, items`prev, all`hhNext, all`hhPrev
      ensures ListOk(Without(items, k)) && head == ItemAt(Without(items, k), 0)
      ensures tail == Without(items, k)[|items| - 2] && numItems == |items| - 1
      ensures Linked(all - {del})
    {
      UnlinkOrder(del, k);
      DeleteInBucket(del, all, Without(items, k));
      numItems := numItems - 1;
    }

    /** Deletes an item; the last one takes the table with it. */
    method Delete(del: Item, ghost k: nat)
      requires Valid() && k < |items| && items[k] == del
      modifies this, buckets, items`next, items`prev, items`hhNext, items`hhPrev
      ensures Valid() && items == Without(old(items), k) && buckets == old(buckets)
    {
      OnlyItem(items, k);
      if del.prev == null && del.next == null {
        head := null;
        items := [];
      } else {
        DeleteOther(del, k);
      }
    }

    /** Deletes an item that is not the only one. */
    method DeleteOther(del: Item, ghost k: nat)
      requires Valid() && |items| > 1 && k < |items| && items[k] == del
      modifies this`head, this`tail, this`numItems, this`chains, this`items, buckets,
               items`next, items`prev, items`hhNext, items`hhPrev
      ensures Valid() && items == Without(old(items), k)
    {
      ghost var rest := Without(items, k);
      Removed(items, k, hash);
      UnlinkItem(del, k, ToSet(items));
      assert Agrees(rest, ToSet(rest));
      items := rest;
    }
  }

  /** The chains of a consistent table hold as many items as the insertion-order list. */
  lemma {:induction false} ChainTotal(chains: seq<seq<Item>>, items: seq<Item>)
    requires Covers(chains, ToSet(items)) && Distinct(items)
    ensures TotalLength(chains) == |items|
  {
    TotalIs(chains, ToSet(items), |chains|);
    AllBuckets(ToSet(items), |chains|);
    DistinctSize(items);
    assert chains[..|chains|] == chains;
  }

  /** An item without neighbours is the only one. */
  lemma {:induction false} OnlyItem(items: seq<Item>, k: nat)
    requires ListOk(items) && k < |items|
    ensures items[k].prev == null && items[k].next == null <==> |items| == 1
    ensures |items| == 1 ==> Without(items, k) == []
  {
  }

  lemma {:induction false} Appended(items: seq<Item>, add: Item, hash: Text -> nat)
    requires Keyed(items, hash) && add.hashv == hash(add.key) && !HasKey(items, add.key)
    ensures Keyed(items + [add], hash) && ToSet(items + [add]) == ToSet(items) + {add}
  {
    assert forall i :: 0 <= i < |items| ==> items[i].key != add.key;
  }

  lemma {:induction false} Removed(items: seq<Item>, k: nat, hash: Text -> nat)
    requires Keyed(items, hash) && Distinct(items) && k < |items|
    ensures Keyed(Without(items, k), hash) && ToSet(Without(items, k)) == ToSet(items) - {items[k]}
  {
    Around(items, k);
    forall h ensures h in ToSet(Without(items, k)) <==> h in ToSet(items) - {items[k]} {
      WithoutMember(items, k, h);
    }
  }

  /** The quotient, rounded up. */
  lemma {:induction false} Ceiling(n: nat, d: nat, q: nat)
    requires d > 0 && n > 0 && q == n / d + if n % d != 0 then 1 else 0
    ensures q > 0 && IsCeiling(n, d, q)
  {
    var a, r := n / d, n % d;
    assert n == a * d + r;
    Distribute(a, 1, d);
    if a > 0 { Distribute(a, -1, d); }
  }
}
