/** CIF values. */
module Values {
  import opened Units
  import opened Wrappers

  /** The parsed parts of a number: digits and uncertainty digits are decimal, most significant first. */
  datatype Number = Number(negative: bool, digits: seq<nat>, scale: int, su: Option<seq<nat>>)

  datatype Value =
    | Unknown
    | NotApplicable
    | Char(text: Text, quoted: bool)
    | Numb(text: Text, quoted: bool, number: Number)
    | List(elements: seq<Value>)
    | Table(entries: seq<Entry>)

  /** key is the normalized form of keyOrig. */
  datatype Entry = Entry(key: Text, keyOrig: Text, value: Value)

  /** Index of the entry with the given normalized key, or the number of entries. */
  function IndexOf(entries: seq<Entry>, key: Text): (i: nat)
    ensures i <= |entries|
    ensures i < |entries| ==> entries[i].key == key
    ensures forall k :: 0 <= k < i ==> entries[k].key != key
  {
    if entries == [] || entries[0].key == key then 0 else IndexOf(entries[1..], key) + 1
  }

  predicate DistinctKeys(entries: seq<Entry>) {
    forall i, j :: 0 <= i < j < |entries| ==> entries[i].key != entries[j].key
  }

  /** Setting an item keeps the position of an existing entry, but takes the new spelling of its key. */
  function SetItem(entries: seq<Entry>, norm: Text -> Text, keyOrig: Text, value: Value): (r: seq<Entry>)
    ensures DistinctKeys(entries) ==> DistinctKeys(r)
  {
    var e := Entry(norm(keyOrig), keyOrig, value);
    var i := IndexOf(entries, norm(keyOrig));
    if i < |entries| then entries[i := e] else entries + [e]
  }
}
