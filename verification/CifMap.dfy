/** Maps with normalized keys, over the hash table. */
module CifMap {
  import opened Buckets
  import opened HashTable
  import opened ItemList
  import opened Units
  import opened Values
  import opened Wrappers

  const OK := 0
  const NOSUCH_ITEM := 43

  ghost function EntriesOf(items: seq<Item>): (es: seq<Entry>)
    reads items`keyOrig, items`value
    ensures |es| == |items|
    ensures forall i :: 0 <= i < |es| ==> es[i] == Entry(items[i].key, items[i].keyOrig, items[i].value)
  {
    if items == [] then [] else
      var h := items[|items| - 1];
      EntriesOf(items[..|items| - 1]) + [Entry(h.key, h.keyOrig, h.value)]
  }

  /** Each key is the normal form of the original key. */
  ghost predicate Normalized(items: seq<Item>, norm: Text -> Text)
    reads items`keyOrig
  {
    forall i :: 0 <= i < |items| ==> items[i].key == norm(items[i].keyOrig)
  }

  /** The value of the entry with a normalized key. */
  function Lookup(es: seq<Entry>, key: Text): Option<Value> {
    var i := IndexOf(es, key);
    if i < |es| then Some(es[i].value) else None
  }

  /** The entries without the one with a normalized key. */
  function Dropped(es: seq<Entry>, key: Text): seq<Entry> {
    var i := IndexOf(es, key);
    if i < |es| then es[..i] + es[i + 1..] else es
  }

  /** A standalone map: it owns its keys. */
  class CifMap {
    const normalizer: Text -> Text
    const isValid: Text -> bool
    const table: HashTable

    constructor (normalizer: Text -> Text, isValid: Text -> bool, hash: Text -> nat)
      ensures Valid() && Entries() == [] && this.normalizer == normalizer && this.isValid == isValid
      ensures fresh(table) && fresh(table.buckets)
    {
      this.normalizer, this.isValid := normalizer, isValid;
      table := new HashTable(hash);
    }

    ghost predicate Valid()
      reads table, table.buckets, table.items`next, table.items`prev, table.items`hhNext, table.items`hhPrev, table.items`keyOrig
    {
      table.Valid() && Normalized(table.items, normalizer)
    }

    ghost function Entries(): seq<Entry>
      reads table, table.items`keyOrig, table.items`value
    {
      EntriesOf(table.items)
    }

    /** The original keys, in the order of the entries. */
    method GetKeys() returns (names: seq<Text>)
      requires Valid()
      ensures |names| == |Entries()| && forall i :: 0 <= i < |names| ==> names[i] == Entries()[i].keyOrig
    {
      names := [];
      var item := table.head;
      ghost var items := table.items;
      while item != null
        invariant |names| <= |items| && item == ItemAt(items, |names|)
        invariant forall i :: 0 <= i < |names| ==> names[i] == items[i].keyOrig
        decreases |items| - |names|
      {
        names := names + [item.keyOrig];
        item := item.next;
      }
    }

    /** Sets the value for a key: an existing entry keeps its place but takes the key as it is now spelled. */
    method SetItem(key: Text, value: Option<Value>, invalidityCode: int) returns (code: int)
      requires Valid()
      modifies table, table.buckets, table.items
      ensures Valid()
      ensures !isValid(key) ==> code == invalidityCode && Entries() == old(Entries())
      ensures isValid(key) ==> code == OK
      ensures isValid(key) ==>
        Entries() == Values.SetItem(old(Entries()), normalizer, key, if value.Some? then value.value else Unknown)
    {
      if !isValid(key) {
        return invalidityCode;
      }
      SetValid(key, if value.Some? then value.value else Unknown);
      code := OK;
    }

    method SetValid(key: Text, v: Value)
      requires Valid()
      modifies table, table.buckets, table.items
      ensures Valid() && Entries() == Values.SetItem(old(Entries()), normalizer, key, v)
    {
      var keyNorm := normalizer(key);
      var item := table.Find(keyNorm);
      if item != null {
        ReplaceValue(item, key, v);
      } else {
        SetNew(keyNorm, key, v);
      }
    }

    /** Makes an entry for a key that no entry has. */
    method SetNew(keyNorm: Text, key: Text, v: Value)
      requires Valid() && keyNorm == normalizer(key) && !HasKey(table.items, keyNorm)
      modifies table, table.buckets, table.items`next, table.items`prev, table.items`hhNext, table.items`hhPrev
      ensures Valid() && Entries() == Values.SetItem(old(Entries()), normalizer, key, v)
    {
      var item := new Item(keyNorm, table.hash(keyNorm), key, v);
      AddNew(item);
    }

    /** Takes the new spelling of the key, and the new value. */
    method ReplaceValue(item: Item, key: Text, v: Value)
      requires Valid() && item in table.items && item.key == normalizer(key)
      modifies item`keyOrig, item`value
      ensures Valid() && Entries() == Values.SetItem(old(Entries()), normalizer, key, v)
    {
      ghost var es, items := Entries(), table.items;
      ghost var k := FoundAt(items, item);
      UpdateAt(es, normalizer, key, v, k);
      Overwrite(item, key, v, items, k, normalizer);
    }

    /** Adds an entry for a key that no entry has. */
    method AddNew(item: Item)
      requires Valid() && item !in table.items && !HasKey(table.items, item.key)
      requires item.key == normalizer(item.keyOrig) && item.hashv == table.hash(item.key)
      modifies table, table.buckets, table.items`next, table.items`prev, table.items`hhNext, table.items`hhPrev,
               item`next, item`prev, item`hhNext, item`hhPrev
      ensures Valid() && Entries() == Values.SetItem(old(Entries()), normalizer, item.keyOrig, item.value)
    {
      ghost var es, items := Entries(), table.items;
      NoIndex(items, item.key);
      table.Add(item);
      assert EntriesOf(items + [item]) == es + [Entry(item.key, item.keyOrig, item.value)];
    }

    /** Finds the entry with a normalized key. */
    method FindEntry(key: Text) returns (item: Item?, ghost k: nat)
      requires Valid()
      ensures item == null ==> Lookup(Entries(), key).None?
      ensures item != null ==> k < |table.items| && table.items[k] == item && item.key == key
      ensures item != null ==> IndexOf(Entries(), key) == k && Lookup(Entries(), key) == Some(item.value)
      ensures item != null ==> Dropped(Entries(), key) == Entries()[..k] + Entries()[k + 1..]
    {
      item := table.Find(key);
      k := 0;
      if item == null {
        NoIndex(table.items, key);
      } else {
        k := FoundAt(table.items, item);
      }
    }

    /** Looks up the value for a key, and removes its entry if so asked. */
    method RetrieveItem(key: Text, remove: bool, invalidityCode: int) returns (r: Result<Value, int>)
      requires Valid()
      modifies table, table.buckets, table.items`next, table.items`prev, table.items`hhNext, table.items`hhPrev
      ensures Valid()
      ensures !isValid(key) ==> r == Err(invalidityCode) && Entries() == old(Entries())
      ensures isValid(key) && Lookup(old(Entries()), normalizer(key)).None? ==>
        r == Err(NOSUCH_ITEM) && Entries() == old(Entries())
      ensures isValid(key) && Lookup(old(Entries()), normalizer(key)).Some? ==>
        r == Ok(Lookup(old(Entries()), normalizer(key)).value)
      ensures isValid(key) && Lookup(old(Entries()), normalizer(key)).Some? ==>
        Entries() == if remove then Dropped(old(Entries()), normalizer(key)) else old(Entries())
    {
      if !isValid(key) {
        return Err(invalidityCode);
      }
      var keyNorm := normalizer(key);
      var item;
      ghost var k;
      item, k := FindEntry(keyNorm);
      if item == null {
        return Err(NOSUCH_ITEM);
      }
      r := Ok(item.value);
      if remove {
        RemoveAt(item, k);
      }
    }

    method RemoveAt(item: Item, ghost k: nat)
      requires Valid() && k < |table.items| && table.items[k] == item
      modifies table, table.buckets, table.items`next, table.items`prev, table.items`hhNext, table.items`hhPrev
      ensures Valid() && Entries() == old(Entries())[..k] + old(Entries())[k + 1..]
    {
      WithoutEntry(table.items, k);
      WithoutNormalized(table.items, k, normalizer);
      table.Delete(item, k);
    }
  }

  /** Takes the new spelling of the key, if it is different, and the new value. */
  method Overwrite(item: Item, key: Text, v: Value, ghost items: seq<Item>, ghost k: nat, ghost norm: Text -> Text)
    requires Distinct(items) && k < |items| && items[k] == item && Normalized(items, norm) && item.key == norm(key)
    modifies item`keyOrig, item`value
    ensures EntriesOf(items) == old(EntriesOf(items))[k := Entry(item.key, key, v)] && Normalized(items, norm)
  {
    if key != item.keyOrig {
      item.keyOrig := key;
    }
    item.value := v;
  }

  /** The entry of an item is the one found by its key. */
  lemma {:induction false} IndexIs(items: seq<Item>, k: nat)
    requires k < |items| && forall i, j :: 0 <= i < j < |items| ==> items[i].key != items[j].key
    ensures IndexOf(EntriesOf(items), items[k].key) == k
  {
    IndexUnique(EntriesOf(items), items[k].key, k);
  }

  lemma {:induction false} WithoutEntry(items: seq<Item>, k: nat)
    requires k < |items|
    ensures EntriesOf(Without(items, k)) == EntriesOf(items)[..k] + EntriesOf(items)[k + 1..]
  {
    var rest := Without(items, k);
    forall i | 0 <= i < |rest| ensures EntriesOf(rest)[i] == (EntriesOf(items)[..k] + EntriesOf(items)[k + 1..])[i] {
      assert rest[i] == items[if i < k then i else i + 1];
    }
  }

  lemma {:induction false} WithoutNormalized(items: seq<Item>, k: nat, norm: Text -> Text)
    requires k < |items| && Normalized(items, norm)
    ensures Normalized(Without(items, k), norm)
  {
  }

  lemma {:induction false} FoundAt(items: seq<Item>, item: Item) returns (k: nat)
    requires item in items && forall i, j :: 0 <= i < j < |items| ==> items[i].key != items[j].key
    ensures k < |items| && items[k] == item && IndexOf(EntriesOf(items), item.key) == k
    ensures Lookup(EntriesOf(items), item.key) == Some(item.value)
  {
    k :| 0 <= k < |items| && items[k] == item;
    IndexIs(items, k);
  }

  lemma {:induction false} UpdateAt(es: seq<Entry>, norm: Text -> Text, key: Text, v: Value, k: nat)
    requires k < |es| && IndexOf(es, norm(key)) == k
    ensures Values.SetItem(es, norm, key, v) == es[k := Entry(norm(key), key, v)]
  {
  }

  lemma {:induction false} NoIndex(items: seq<Item>, key: Text)
    requires !HasKey(items, key)
    ensures IndexOf(EntriesOf(items), key) == |items|
  {
    IndexUnique(EntriesOf(items), key, |items|);
  }

  // Laws of setting an item

  /** Setting a key changes what is found for that normalized key, and for no other. */
  lemma {:induction false} LookupAfterSet(es: seq<Entry>, norm: Text -> Text, key: Text, v: Value, key': Text)
    ensures Lookup(Values.SetItem(es, norm, key, v), norm(key'))
      == if norm(key') == norm(key) then Some(v) else Lookup(es, norm(key'))
  {
    var e := Entry(norm(key), key, v);
    var i := IndexOf(es, norm(key));
    if i < |es| {
      IndexAfterUpdate(es, i, e, norm(key'));
    } else {
      IndexAfterAppend(es, e, norm(key'));
    }
  }

  lemma {:induction false} IndexAfterUpdate(es: seq<Entry>, i: nat, e: Entry, key: Text)
    requires i < |es| && es[i].key == e.key
    ensures IndexOf(es[i := e], key) == IndexOf(es, key)
  {
    IndexUnique(es[i := e], key, IndexOf(es, key));
  }

  lemma {:induction false} IndexAfterAppend(es: seq<Entry>, e: Entry, key: Text)
    ensures IndexOf(es + [e], key) == if IndexOf(es, key) < |es| || e.key == key then IndexOf(es, key) else |es| + 1
  {
    var i := IndexOf(es, key);
    IndexUnique(es + [e], key, if i < |es| || e.key == key then i else |es| + 1);
  }

  lemma {:induction false} IndexUnique(es: seq<Entry>, key: Text, i: nat)
    requires i <= |es| && (i < |es| ==> es[i].key == key) && forall k :: 0 <= k < i ==> es[k].key != key
    ensures IndexOf(es, key) == i
  {
  }

  /** Setting a key keeps the keys in place: it only appends a key that is new, and reports the latest spelling. */
  lemma {:induction false} OrderAfterSet(es: seq<Entry>, norm: Text -> Text, key: Text, v: Value)
    ensures var after, i := Values.SetItem(es, norm, key, v), IndexOf(es, norm(key));
      && |after| == (if i < |es| then |es| else |es| + 1)
      && after[i].key == norm(key) && after[i].keyOrig == key
      && (forall k :: 0 <= k < |es| ==> after[k].key == es[k].key && (k != i ==> after[k] == es[k]))
  {
  }
}
