/** The insertion-order list of a hash table, linked through its items. */
module ItemList {
  import opened BucketExpansion
  import opened Buckets

  /** Links a new item in behind the last one. */
  method LinkLast(tail: Item, add: Item, ghost items: seq<Item>)
    requires ListOk(items) && items != [] && tail == items[|items| - 1] && add !in items && add.next == null
    modifies tail`next, add`prev
    ensures ListOk(items + [add])
  {
    tail.next := add;
    add.prev := tail;
  }

  /** Takes an item out of the list. */
  method Unlink(head: Item, del: Item, ghost items: seq<Item>, ghost k: nat) returns (head': Item?)
    requires ListOk(items) && |items| > 1 && head == items[0] && k < |items| && items[k] == del
    modifies items`next, items`prev
    ensures ListOk(Without(items, k)) && head' == ItemAt(Without(items, k), 0)
    ensures del.next == old(del.next) && del.prev == old(del.prev)
  {
    head' := head;
    if del.prev != null {
      del.prev.next := del.next;
    } else {
      head' := del.next;
    }
    if del.next != null {
      del.next.prev := del.prev;
    }
    Around(items, k);
  }

  /** The neighbours in the list without an item. */
  lemma {:induction false} Around(s: seq<Item>, k: nat)
    requires k < |s| && Distinct(s)
    ensures Distinct(Without(s, k))
    ensures forall i :: 0 <= i < |s| - 1 ==> Without(s, k)[i] == s[if i < k then i else i + 1]
  {
  }

  /** Takes an item out of its chain. */
  method UnlinkChain(head: Item, del: Item, ghost chain: seq<Item>, ghost k: nat) returns (head': Item?)
    requires ChainOk(chain) && Distinct(chain) && |chain| > 0 && head == chain[0] && k < |chain| && chain[k] == del
    modifies chain`hhNext, chain`hhPrev
    ensures ChainOk(Without(chain, k)) && head' == ItemAt(Without(chain, k), 0)
  {
    head' := head;
    if head == del {
      head' := del.hhNext;
    }
    if del.hhPrev != null {
      del.hhPrev.hhNext := del.hhNext;
    }
    if del.hhNext != null {
      del.hhNext.hhPrev := del.hhPrev;
    }
    Around(chain, k);
  }

  /** Only the chain of its bucket changes when an item is taken out. */
  method UnlinkFrom(head: Item, del: Item, ghost chains: seq<seq<Item>>, ghost items: set<Item>, ghost b: nat, ghost k: nat)
    returns (head': Item?)
    requires Covers(chains, items) && ChainsOk(chains, items)
    requires b < |chains| && k < |chains[b]| && chains[b][k] == del && head == chains[b][0]
    modifies items`hhNext, items`hhPrev
    ensures var after := chains[b := Without(chains[b], k)];
      Covers(after, items - {del}) && ChainsOk(after, items - {del}) && head' == ItemAt(after[b], 0)
  {
    CoversRemove(chains, items, b, k);
    ChainsDisjoint(chains, items, b);
    assert forall g :: g in chains[b] ==> g in items;
    head' := UnlinkChain(head, del, chains[b], k);
    ghost var after := chains[b := Without(chains[b], k)];
    forall c | 0 <= c < |chains| ensures ChainOk(after[c]) {
    }
  }
}
