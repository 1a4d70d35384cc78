/**
 * The conversions between multi-value collections used to lift the host's
 * form fields and headers into Nancy's own collections
 * (Nancy.Extensions.CollectionExtensions).
 */
module CollectionExtensions {
  import opened Wrappers
  import opened Collections

  /** One key of an IDictionary<string, IEnumerable<string>>; None is a null sequence. */
  datatype DictEntry = DictEntry(key: string, values: Option<seq<string>>)

  /** A dictionary of value sequences, in its enumeration order (taken to be
      insertion order, which is what the library does when nothing is removed). */
  type Dict = seq<DictEntry>

  function DictKeys(d: Dict): seq<string>
  {
    seq(|d|, i requires 0 <= i < |d| => d[i].key)
  }

  /** A dictionary holds each key once. */
  ghost predicate DistinctKeys(d: Dict)
  {
    forall i, j :: 0 <= i < j < |d| ==> d[i].key != d[j].key
  }

  /** No key of the dictionary is bound to a null sequence. */
  ghost predicate NoNullSequences(d: Dict)
  {
    forall i :: 0 <= i < |d| ==> d[i].values.Some?
  }

  // ---------------------------------------------------------------------------
  // ToDictionary

  /** ToDictionary: every key of AllKeys, bound to its GetValues result as it
      is (null for a key without values). The LINQ ToDictionary cannot fail,
      because AllKeys holds no key twice. */
  function ToDictionary(source: NameValueCollection): (d: Dict)
    reads source
    requires source.Valid()
    ensures DictKeys(d) == source.AllKeys()
    ensures DistinctKeys(d)
    ensures forall i :: 0 <= i < |d| ==> d[i].values == source.GetValues(d[i].key)
  {
    var es := source.entries;
    seq(|es|, i requires 0 <= i < |es| => DictEntry(es[i].key, ValuesOf(es, es[i].key)))
  }

  // ---------------------------------------------------------------------------
  // ToDynamicDictionary

  /** How a non-empty value array is stored: one value as that string, several as the array. */
  function Lift(vs: seq<string>): (r: DynValue)
    requires vs != []
    ensures r.Scalar? <==> |vs| == 1
    ensures r.Scalar? ==> r.value == vs[0]
    ensures r.Array? ==> r.values == vs
  {
    if |vs| == 1 then Scalar(vs[0]) else Array(vs)
  }

  /** What ToDynamicDictionary has stored once it has visited the keys ks of entries es. */
  function Stored(es: seq<Entry>, ks: seq<string>): map<string, DynValue>
  {
    map k | k in ks && ValuesOf(es, k).Some? :: Lift(ValuesOf(es, k).value)
  }

  /** Visiting one more key stores its values when GetValues is not null, and nothing otherwise. */
  lemma StoredStep(es: seq<Entry>, ks: seq<string>, key: string)
    ensures Stored(es, ks + [key]) ==
      if ValuesOf(es, key).Some? then Stored(es, ks)[key := Lift(ValuesOf(es, key).value)] else Stored(es, ks)
  {
  }

  /** ToDynamicDictionary: a key whose GetValues is null is skipped, a key with
      one value is stored as that string, a key with several as the whole
      array in its order. */
  method ToDynamicDictionary(source: NameValueCollection) returns (dict: DynamicDictionary)
    ensures fresh(dict)
    ensures forall k :: k in dict.items <==> k in source.AllKeys() && source.GetValues(k).Some?
    ensures forall k :: k in dict.items ==> dict.items[k] == Lift(source.GetValues(k).value)
  {
    dict := new DynamicDictionary();
    var keys := source.AllKeys();
    ghost var es := source.entries;
    for i := 0 to |keys|
      invariant dict.items == Stored(es, keys[..i])
    {
      var key := keys[i];
      var values := source.GetValues(key);
      StoredStep(es, keys[..i], key);
      assert keys[..i + 1] == keys[..i] + [key];
      if values.Some? {
        if |values.value| == 1 {
          dict.Set(key, Scalar(values.value[0]));
        } else {
          dict.Set(key, Array(values.value));
        }
      }
    }
    assert keys[..|keys|] == keys;
  }

  /** A form posted with the single field Name=Chris reads back "Chris" through
      the indexer, as in src/Nancy.Hosting.Aspnet.Tests/NancyHandlerFixture.cs:129
      (the form is built at line 147). */
  method FormFieldExample()
  {
    var form := new NameValueCollection();
    form.Add("Name", "Chris");
    var dict := ToDynamicDictionary(form);
    assert form.entries == [Entry("Name", ["Chris"])];
    assert form.GetValues("Name") == Some(["Chris"]);
    assert dict.items["Name"] == Scalar("Chris");
  }

  // ---------------------------------------------------------------------------
  // ToNameValueCollection

  /** The entries ToNameValueCollection builds: one per key with a non-empty
      sequence, holding that sequence, in the dictionary's order. */
  function Collected(d: Dict): (es: seq<Entry>)
    requires NoNullSequences(d)
    ensures forall k :: k in KeysOf(es) <==>
      exists i :: 0 <= i < |d| && d[i].key == k && d[i].values.value != []
    ensures DistinctKeys(d) ==> UniqueKeys(es)
  {
    if d == [] then []
    else
      var init := d[..|d| - 1];
      var last := d[|d| - 1];
      var rest := Collected(init);
      assert forall i :: 0 <= i < |init| ==> init[i] == d[i];
      if last.values.value == [] then rest
      else
        var es := rest + [Entry(last.key, last.values.value)];
        assert KeysOf(es) == KeysOf(rest) + [last.key];
        assert DistinctKeys(d) ==> forall i :: 0 <= i < |rest| ==> rest[i].key != last.key by {
          if DistinctKeys(d) {
            forall i | 0 <= i < |rest| ensures rest[i].key != last.key {
              assert KeysOf(rest)[i] in KeysOf(rest);
              var j :| 0 <= j < |init| && init[j].key == rest[i].key && init[j].values.value != [];
              assert d[j] == init[j];
            }
          }
        }
        es
  }

  /** When no sequence is empty, ToNameValueCollection keeps every key, in
      order, with its whole sequence. */
  lemma {:induction false} CollectedAllNonEmpty(d: Dict)
    requires NoNullSequences(d)
    requires forall i :: 0 <= i < |d| ==> d[i].values.value != []
    ensures |Collected(d)| == |d|
    ensures forall i :: 0 <= i < |d| ==> Collected(d)[i] == Entry(d[i].key, d[i].values.value)
  {
    if d != [] {
      var init := d[..|d| - 1];
      assert forall i :: 0 <= i < |init| ==> init[i] == d[i];
      CollectedAllNonEmpty(init);
    }
  }

  /** After ToNameValueCollection, GetValues(key) is the key's sequence when
      that is non-empty, and None when it is empty (Add was never called). */
  lemma {:induction false} CollectedGetValues(d: Dict, i: nat)
    requires NoNullSequences(d) && DistinctKeys(d) && i < |d|
    ensures ValuesOf(Collected(d), d[i].key) == AsValues(d[i].values.value)
  {
    var n := |d|;
    var init, last := d[..n - 1], d[n - 1];
    var rest := Collected(init);
    assert forall j :: 0 <= j < |init| ==> init[j] == d[j];
    if i == n - 1 {
      if last.values.value != [] {
        var es := rest + [Entry(last.key, last.values.value)];
        assert es[|rest|].key == last.key;
      } else {
        assert last.key !in KeysOf(rest);
      }
    } else {
      CollectedGetValues(init, i);
      if last.values.value != [] {
        RawValuesAppend(rest, Entry(last.key, last.values.value), d[i].key);
      }
    }
  }

  /** Converting a dictionary whose sequences are all non-empty to a
      NameValueCollection and back gives the same dictionary. */
  lemma {:induction false} RoundTrip(d: Dict, c: NameValueCollection)
    requires DistinctKeys(d) && NoNullSequences(d)
    requires forall i :: 0 <= i < |d| ==> d[i].values.value != []
    requires c.entries == Collected(d)
    ensures c.Valid() && ToDictionary(c) == d
  {
    CollectedAllNonEmpty(d);
    var r := ToDictionary(c);
    forall i | 0 <= i < |d| ensures r[i] == d[i] {
      assert c.entries[i] == Entry(d[i].key, d[i].values.value);
    }
  }

  /** Converting a NameValueCollection whose keys all hold values to a
      dictionary and back gives the same entries. */
  lemma RoundTripBack(c: NameValueCollection)
    requires c.Valid()
    requires forall i :: 0 <= i < |c.entries| ==> c.entries[i].values != []
    ensures NoNullSequences(ToDictionary(c))
    ensures Collected(ToDictionary(c)) == c.entries
  {
    var d := ToDictionary(c);
    assert forall i :: 0 <= i < |d| ==> d[i].values == Some(c.entries[i].values);
    CollectedAllNonEmpty(d);
  }

  /** Before key i is processed, the collection under construction is
      valid and does not hold that key; afterwards it has gained at most that
      key's entry. */
  lemma CollectedStep(d: Dict, i: nat)
    requires NoNullSequences(d) && DistinctKeys(d) && i < |d|
    ensures UniqueKeys(Collected(d[..i]))
    ensures d[i].key !in KeysOf(Collected(d[..i]))
    ensures Collected(d[..i + 1]) == Collected(d[..i]) +
      (if d[i].values.value == [] then [] else [Entry(d[i].key, d[i].values.value)])
  {
    assert forall j :: 0 <= j < i ==> d[..i][j] == d[j];
    assert d[..i + 1][..i] == d[..i];
  }

  /** One call of Add in the inner loop of ToNameValueCollection extends the
      entry of the key being added, creating it on the first value. */
  lemma AddStep(before: seq<Entry>, key: string, values: seq<string>, j: nat)
    requires key !in KeysOf(before) && j < |values|
    ensures Added(before + (if j == 0 then [] else [Entry(key, values[..j])]), key, values[j])
      == before + [Entry(key, values[..j + 1])]
  {
    var current := before + (if j == 0 then [] else [Entry(key, values[..j])]);
    if j == 0 {
      assert current == before;
      assert Added(before, key, values[0]) == before + [Entry(key, [values[0]])];
      assert [values[0]] == values[..1];
    } else {
      AddedToLast(before, key, values[..j], values[j]);
      assert values[..j] + [values[j]] == values[..j + 1];
    }
  }

  /** ToNameValueCollection: Add is called once per (key, value) pair, key by
      key and each key's values in their order; a key with an empty sequence
      is never added. A null sequence would fault in the inner foreach. */
  method ToNameValueCollection(source: Dict) returns (collection: NameValueCollection)
    requires DistinctKeys(source)
    requires NoNullSequences(source)
    ensures fresh(collection) && collection.Valid()
    ensures collection.entries == Collected(source)
  {
    collection := new NameValueCollection();
    for i := 0 to |source|
      invariant collection.entries == Collected(source[..i])
    {
      // source[key] is this entry's sequence, because the keys are distinct.
      var key := source[i].key;
      var values := source[i].values.value;
      ghost var before := Collected(source[..i]);
      CollectedStep(source, i);
      for j := 0 to |values|
        invariant collection.entries == before + (if j == 0 then [] else [Entry(key, values[..j])])
        invariant collection.Valid()
      {
        AddStep(before, key, values, j);
        collection.Add(key, values[j]);
      }
      assert values[..|values|] == values;
    }
    assert source[..|source|] == source;
  }
}
