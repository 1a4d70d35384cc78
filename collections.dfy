/**
 * Stand-ins for the two collection types the request-data conversions fill
 * in place: the framework library's NameValueCollection (an ordered
 * multi-value collection filled by Add) and Nancy's DynamicDictionary
 * (modelled through its indexer only).
 */
module Collections {
  import opened Wrappers

  /** One key of a NameValueCollection with the values added under it, in
      insertion order. An empty list is a key whose only additions were null. */
  datatype Entry = Entry(key: string, values: seq<string>)

  /** The keys of the entries, in order (NameValueCollection.AllKeys). */
  function KeysOf(es: seq<Entry>): seq<string>
  {
    seq(|es|, i requires 0 <= i < |es| => es[i].key)
  }

  /** A NameValueCollection holds each key once. */
  ghost predicate UniqueKeys(es: seq<Entry>)
  {
    forall i, j :: 0 <= i < j < |es| ==> es[i].key != es[j].key
  }

  /** The value list stored under key, empty when the key is absent. */
  function RawValues(es: seq<Entry>, key: string): (r: seq<string>)
    ensures key !in KeysOf(es) ==> r == []
    ensures UniqueKeys(es) ==> forall i :: 0 <= i < |es| && es[i].key == key ==> r == es[i].values
  {
    if es == [] then []
    else if es[0].key == key then
      assert KeysOf(es)[0] == key;
      es[0].values
    else
      assert KeysOf(es) == [es[0].key] + KeysOf(es[1..]);
      RawValues(es[1..], key)
  }

  /** An entry appended under another key does not change what key holds. */
  lemma {:induction false} RawValuesAppend(es: seq<Entry>, e: Entry, key: string)
    requires e.key != key
    ensures RawValues(es + [e], key) == RawValues(es, key)
  {
    if es != [] {
      assert (es + [e])[1..] == es[1..] + [e];
      RawValuesAppend(es[1..], e, key);
    }
  }

  /** GetValues hands out null instead of an empty array. */
  function AsValues(vs: seq<string>): Option<seq<string>>
  {
    if vs == [] then None else Some(vs)
  }

  /** NameValueCollection.GetValues(key) on the entries. */
  function ValuesOf(es: seq<Entry>, key: string): (r: Option<seq<string>>)
    ensures r.Some? ==> r.value != []
    ensures key !in KeysOf(es) ==> r == None
    ensures UniqueKeys(es) ==> forall i :: 0 <= i < |es| && es[i].key == key ==> r == AsValues(es[i].values)
  {
    AsValues(RawValues(es, key))
  }

  /** NameValueCollection.Add(key, value) for a non-null value: the value is
      appended to the key's list, and an unseen key becomes the last entry. */
  function Added(es: seq<Entry>, key: string, value: string): (r: seq<Entry>)
    ensures key in KeysOf(es) ==> |r| == |es|
    ensures key !in KeysOf(es) ==> r == es + [Entry(key, [value])]
    ensures forall i :: 0 <= i < |es| ==> r[i].key == es[i].key
  {
    if es == [] then [Entry(key, [value])]
    else if es[0].key == key then
      assert KeysOf(es)[0] == key;
      [Entry(key, es[0].values + [value])] + es[1..]
    else
      var tail := Added(es[1..], key, value);
      assert KeysOf(es) == [es[0].key] + KeysOf(es[1..]);
      [es[0]] + tail
  }

  /** After Add, key holds its earlier values followed by value, and every
      other key holds what it held. */
  lemma {:induction false} AddedValues(es: seq<Entry>, key: string, value: string)
    ensures RawValues(Added(es, key, value), key) == RawValues(es, key) + [value]
    ensures forall k :: k != key ==> RawValues(Added(es, key, value), k) == RawValues(es, k)
  {
    if es != [] && es[0].key != key {
      AddedValues(es[1..], key, value);
      var r := Added(es, key, value);
      assert r[1..] == Added(es[1..], key, value);
    }
  }

  /** Add keeps the keys of a NameValueCollection unique. */
  lemma AddedUnique(es: seq<Entry>, key: string, value: string)
    requires UniqueKeys(es)
    ensures UniqueKeys(Added(es, key, value))
  {
  }

  /** Adding to the last entry, when it is the only one under its key, extends that entry. */
  lemma {:induction false} AddedToLast(es: seq<Entry>, key: string, vs: seq<string>, value: string)
    requires key !in KeysOf(es)
    ensures Added(es + [Entry(key, vs)], key, value) == es + [Entry(key, vs + [value])]
  {
    if es != [] {
      var e := Entry(key, vs);
      assert KeysOf(es) == [es[0].key] + KeysOf(es[1..]);
      assert (es + [e])[0] == es[0] && es[0].key != key;
      assert (es + [e])[1..] == es[1..] + [e];
      AddedToLast(es[1..], key, vs, value);
      assert Added(es + [e], key, value) == [es[0]] + Added(es[1..] + [e], key, value);
      assert [es[0]] + (es[1..] + [Entry(key, vs + [value])]) == es + [Entry(key, vs + [value])];
    }
  }

  /** The library's multi-value collection, filled in place by Add. */
  class NameValueCollection {
    var entries: seq<Entry>

    ghost predicate Valid()
      reads this
    {
      UniqueKeys(entries)
    }

    constructor ()
      ensures Valid() && entries == []
    {
      entries := [];
    }

    /** AllKeys: every key once, in the order it was first added. */
    function AllKeys(): (ks: seq<string>)
      reads this
      ensures |ks| == |entries|
      ensures forall i :: 0 <= i < |entries| ==> ks[i] == entries[i].key
    {
      KeysOf(entries)
    }

    /** GetValues(key): the values added under key, or None (null) when there are none. */
    function GetValues(key: string): (r: Option<seq<string>>)
      reads this
      ensures r.Some? ==> r.value != [] && key in AllKeys()
      ensures Valid() ==> forall i :: 0 <= i < |entries| && entries[i].key == key ==> r == AsValues(entries[i].values)
    {
      ValuesOf(entries, key)
    }

    method Add(key: string, value: string)
      requires Valid()
      modifies this
      ensures Valid()
      ensures entries == Added(old(entries), key, value)
      ensures GetValues(key) == Some(RawValues(old(entries), key) + [value])
      ensures forall k :: k != key ==> GetValues(k) == old(GetValues(k))
    {
      AddedUnique(entries, key, value);
      AddedValues(entries, key, value);
      entries := Added(entries, key, value);
    }
  }

  /** A value stored in a DynamicDictionary by the form conversion. */
  datatype DynValue = Scalar(value: string) | Array(values: seq<string>)

  /** Nancy's DynamicDictionary, through its string indexer. */
  class DynamicDictionary {
    var items: map<string, DynValue>

    constructor ()
      ensures items == map[]
    {
      items := map[];
    }

    /** The indexer setter dict[key] = value: stores or replaces the value of key. */
    method Set(key: string, value: DynValue)
      modifies this
      ensures items == old(items)[key := value]
    {
      items := items[key := value];
    }
  }
}
