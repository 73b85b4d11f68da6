/** System.Collections.Generic.Dictionary<K, V> as the modelled code uses it: keys are added,
    never removed, and enumeration (`Values`, the pair enumerator) visits entries in the order
    their keys were added. */
module Dictionaries {
  import opened Wrappers
  import opened Exceptions
  import opened Sequences

  /** `order` lists each key once, in insertion order; `entries` maps it to its value. */
  datatype Dictionary<K(==), V> = Dictionary(order: seq<K>, entries: map<K, V>) {

    ghost predicate Valid() {
      && Distinct(order)
      && (forall k :: k in entries ==> k in order)
      && (forall i :: 0 <= i < |order| ==> order[i] in entries)
    }

    predicate ContainsKey(key: K) {
      key in entries
    }

    function TryGetValue(key: K): Option<V> {
      if key in entries then Some(entries[key]) else None
    }

    /** `Dictionary.Values`, in enumeration order. */
    function Values(): seq<V>
      requires Valid()
    {
      seq(|order|, i requires 0 <= i < |order| => entries[order[i]])
    }

    /** The key/value pairs the dictionary's enumerator yields, in order. */
    function Pairs(): seq<(K, V)>
      requires Valid()
    {
      seq(|order|, i requires 0 <= i < |order| => (order[i], entries[order[i]]))
    }

    /** `Dictionary.Add`: throws on a key already present, otherwise appends the pair. */
    function Add(key: K, value: V): (r: Result<Dictionary<K, V>, Exception>)
      requires Valid()
      ensures r.Failure? <==> key in entries
      ensures r.Failure? ==> r.error == DuplicateKey
      ensures r.Success? ==> r.value.Valid() && r.value.entries == entries[key := value]
      ensures r.Success? ==> r.value.Values() == Values() + [value]
      ensures r.Success? ==> r.value.Pairs() == Pairs() + [(key, value)]
    {
      if key in entries then Failure(DuplicateKey)
      else
        var d := Dictionary(order + [key], entries[key := value]);
        assert d.Values() == Values() + [value];
        assert d.Pairs() == Pairs() + [(key, value)];
        Success(d)
    }
  }

  function Empty<K(==), V>(): (d: Dictionary<K, V>)
    ensures d.Valid() && d.entries == map[] && d.Values() == []
  {
    Dictionary([], map[])
  }

  /** Every stored value is enumerated by `Values`, and nothing else is. */
  lemma ValuesAreEntries<K, V>(d: Dictionary<K, V>)
    requires d.Valid()
    ensures forall k :: k in d.entries ==> d.entries[k] in d.Values()
    ensures forall i :: 0 <= i < |d.Values()| ==> d.order[i] in d.entries && d.Values()[i] == d.entries[d.order[i]]
  {
    forall k | k in d.entries
      ensures d.entries[k] in d.Values()
    {
      var i :| 0 <= i < |d.order| && d.order[i] == k;
      assert d.Values()[i] == d.entries[k];
    }
  }

  /** A sequence without repetitions has as many distinct elements as it has positions. */
  lemma {:induction false} DistinctCardinality<K>(s: seq<K>)
    requires Distinct(s)
    ensures |set x | x in s| == |s|
  {
    if |s| > 0 {
      var init := s[..|s| - 1];
      DistinctCardinality(init);
      assert (set x | x in s) == (set x | x in init) + {s[|s| - 1]};
      assert s[|s| - 1] !in (set x | x in init);
    }
  }

  /** A valid dictionary enumerates exactly as many entries as it holds. */
  lemma CountMatchesEntries<K, V>(d: Dictionary<K, V>)
    requires d.Valid()
    ensures |d.Values()| == |d.Pairs()| == |d.entries|
  {
    DistinctCardinality(d.order);
    assert d.entries.Keys == set x | x in d.order;
  }
}
