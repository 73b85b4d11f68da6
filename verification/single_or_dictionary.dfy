/** SingleOrDictionary<TKey, TValue>: holds one key/value pair inline and moves to a Dictionary
    on the second `Add`. Its abstraction is the map of every pair successfully added. */
module SingleOrDictionaries {
  import opened Wrappers
  import opened Exceptions
  import opened Dictionaries

  /** The two fields `_singleValue` and `dictionary`; `null` is `None`. */
  datatype SingleOrDictionary<K(==), V> = SingleOrDictionary(singleValue: Option<(K, V)>, dictionary: Option<Dictionary<K, V>>) {

    /** Never in single mode and dictionary mode at once. */
    ghost predicate Valid() {
      && !(singleValue.Some? && dictionary.Some?)
      && (dictionary.Some? ==> dictionary.value.Valid())
    }

    /** The abstract map the container stands for. */
    ghost function Contents(): map<K, V> {
      if dictionary.Some? then dictionary.value.entries
      else if singleValue.Some? then map[singleValue.value.0 := singleValue.value.1]
      else map[]
    }

    /** `Add`. A second pair first moves the inline pair into a new dictionary and clears the
        inline slot; the new pair then goes into the dictionary, whose `Add` throws on a key
        already present. That throw comes after the move, so a failed `Add` can leave the
        container promoted, holding the same pairs as before. */
    function Add(key: K, value: V): (r: (SingleOrDictionary<K, V>, Outcome))
      requires Valid()
      ensures r.0.Valid()
      ensures r.1.Threw? <==> key in Contents()
      ensures r.1.Threw? ==> r.1.exception == DuplicateKey && r.0.Contents() == Contents()
      ensures r.1.Completed? ==> r.0.Contents() == Contents()[key := value]
      ensures singleValue.Some? ==> r.0.singleValue.None? && r.0.dictionary.Some?
      ensures dictionary.Some? ==> r.0.dictionary.Some?
      ensures singleValue.None? && dictionary.None? ==> r.0 == SingleOrDictionary(Some((key, value)), None)
    {
      var promoted :=
        if singleValue.Some? then
          SingleOrDictionary(None, Some(Empty<K, V>().Add(singleValue.value.0, singleValue.value.1).value))
        else this;
      if promoted.dictionary.Some? then
        match promoted.dictionary.value.Add(key, value)
        case Failure(e) => (promoted, Threw(e))
        case Success(d) => (promoted.(dictionary := Some(d)), Completed)
      else
        (SingleOrDictionary(Some((key, value)), None), Completed)
    }

    /** `TryGetValue`: `None` is the `false` result with `default(TValue)`. */
    function TryGetValue(key: K): (r: Option<V>)
      requires Valid()
      ensures r.Some? <==> key in Contents()
      ensures r.Some? ==> r.value == Contents()[key]
    {
      if dictionary.None? then
        if singleValue.None? || singleValue.value.0 != key then None
        else Some(singleValue.value.1)
      else dictionary.value.TryGetValue(key)
    }

    /** `Values`: nothing, the inline value, or the dictionary's values; the value of each
        enumerated pair, in enumeration order, so a value held under two keys appears twice. */
    function Values(): (r: seq<V>)
      requires Valid()
      ensures |r| == |Contents()|
      ensures |r| == |Pairs()| && forall i :: 0 <= i < |r| ==> r[i] == Pairs()[i].1
      ensures forall v :: v in r ==> exists k :: k in Contents() && Contents()[k] == v
      ensures forall k :: k in Contents() ==> Contents()[k] in r
    {
      if dictionary.None? then
        if singleValue.Some? then [singleValue.value.1] else []
      else
        CountMatchesEntries(dictionary.value);
        var d := dictionary.value;
        assert forall k :: k in d.entries ==> d.entries[k] in d.Values() by {
          forall k | k in d.entries
            ensures d.entries[k] in d.Values()
          {
            var i :| 0 <= i < |d.order| && d.order[i] == k;
            assert d.Values()[i] == d.entries[k];
          }
        }
        d.Values()
    }

    /** What `GetEnumerator()` enumerates: nothing, the inline pair (through a
        `SingleEnumerator`), or the dictionary's pairs. */
    function Pairs(): (r: seq<(K, V)>)
      requires Valid()
      ensures |r| == |Contents()|
      ensures forall p :: p in r ==> p.0 in Contents() && Contents()[p.0] == p.1
      ensures forall k :: k in Contents() ==> (k, Contents()[k]) in r
    {
      if dictionary.None? then
        if singleValue.Some? then [singleValue.value] else []
      else
        CountMatchesEntries(dictionary.value);
        var d := dictionary.value;
        assert forall k :: k in d.entries ==> (k, d.entries[k]) in d.Pairs() by {
          forall k | k in d.entries
            ensures (k, d.entries[k]) in d.Pairs()
          {
            var i :| 0 <= i < |d.order| && d.order[i] == k;
            assert d.Pairs()[i] == (k, d.entries[k]);
          }
        }
        d.Pairs()
    }
  }

  /** A new, empty container. */
  function New<K(==), V>(): (s: SingleOrDictionary<K, V>)
    ensures s.Valid() && s.Contents() == map[]
  {
    SingleOrDictionary(None, None)
  }

  /** A caller that adds `pairs` in order, catching any exception and carrying on. */
  function AddAll<K(==), V>(s: SingleOrDictionary<K, V>, pairs: seq<(K, V)>): (r: SingleOrDictionary<K, V>)
    requires s.Valid()
    ensures r.Valid()
  {
    if |pairs| == 0 then s
    else AddAll(s, pairs[..|pairs| - 1]).Add(pairs[|pairs| - 1].0, pairs[|pairs| - 1].1).0
  }

  /** The abstract effect of those adds: a pair is kept unless its key was already present. */
  ghost function AddedPairs<K, V>(m: map<K, V>, pairs: seq<(K, V)>): map<K, V> {
    if |pairs| == 0 then m
    else
      var before := AddedPairs(m, pairs[..|pairs| - 1]);
      var (k, v) := pairs[|pairs| - 1];
      if k in before then before else before[k := v]
  }

  /** Refinement: after any sequence of adds the container holds exactly the map of the pairs
      whose `Add` succeeded. */
  lemma {:induction false} AddAllRefinesMap<K, V>(s: SingleOrDictionary<K, V>, pairs: seq<(K, V)>)
    requires s.Valid()
    ensures AddAll(s, pairs).Contents() == AddedPairs(s.Contents(), pairs)
  {
    if |pairs| > 0 {
      AddAllRefinesMap(s, pairs[..|pairs| - 1]);
    }
  }

  /** `TryGetValue` on a container built by adds agrees with the abstract map of those adds. */
  lemma TryGetValueAfterAdds<K, V>(pairs: seq<(K, V)>, key: K)
    ensures var m := AddedPairs(map[], pairs);
            AddAll(New(), pairs).TryGetValue(key) == if key in m then Some(m[key]) else None
  {
    AddAllRefinesMap(New<K, V>(), pairs);
  }

  /** Once a container has reached dictionary mode, no later `Add` takes it back. */
  lemma {:induction false} DictionaryModeIsPermanent<K, V>(s: SingleOrDictionary<K, V>, pairs: seq<(K, V)>)
    requires s.Valid() && s.dictionary.Some?
    ensures AddAll(s, pairs).dictionary.Some? && AddAll(s, pairs).singleValue.None?
  {
    if |pairs| > 0 {
      DictionaryModeIsPermanent(s, pairs[..|pairs| - 1]);
    }
  }

  /** The enumerator handed out in single mode. `index` starts at -1; `MoveNext` increments it. */
  datatype SingleEnumerator<T> = SingleEnumerator(value: T, index: int) {

    /** `Current` throws unless positioned on the element. */
    function Current(): (r: Result<T, Exception>)
      ensures r.Success? <==> index == 0
      ensures r.Success? ==> r.value == value
      ensures r.Failure? ==> r.error == InvalidOperation
    {
      if index == 0 then Success(value) else Failure(InvalidOperation)
    }

    function MoveNext(): (SingleEnumerator<T>, bool) {
      var next := this.(index := index + 1);
      (next, next.index < 1)
    }

    function Reset(): SingleEnumerator<T> {
      this.(index := -1)
    }
  }

  function NewSingleEnumerator<T>(value: T): SingleEnumerator<T> {
    SingleEnumerator(value, -1)
  }

  /** The results of calling `MoveNext` `n` times in a row. */
  function MoveNextResults<T>(e: SingleEnumerator<T>, n: nat): seq<bool>
    decreases n
  {
    if n == 0 then [] else
    var (next, moved) := e.MoveNext();
    [moved] + MoveNextResults(next, n - 1)
  }

  /** Past the element, `MoveNext` keeps returning false. */
  lemma {:induction false} ExhaustedStaysExhausted<T>(e: SingleEnumerator<T>, n: nat)
    requires e.index >= 0
    ensures forall i :: 0 <= i < |MoveNextResults(e, n)| ==> !MoveNextResults(e, n)[i]
    ensures |MoveNextResults(e, n)| == n
    decreases n
  {
    if n > 0 {
      ExhaustedStaysExhausted(e.MoveNext().0, n - 1);
    }
  }

  /** From a fresh or reset enumerator, `MoveNext` returns true exactly once (the first call),
      `Current` then yields the element, and every later call returns false. */
  lemma MoveNextTrueExactlyOnce<T>(e: SingleEnumerator<T>, n: nat)
    requires e.index == -1 && n >= 1
    ensures MoveNextResults(e, n)[0]
    ensures e.MoveNext().0.Current() == Success(e.value)
    ensures forall i :: 1 <= i < |MoveNextResults(e, n)| ==> !MoveNextResults(e, n)[i]
    ensures |MoveNextResults(e, n)| == n
  {
    ExhaustedStaysExhausted(e.MoveNext().0, n - 1);
  }

  /** `Reset` puts any enumerator back in the fresh state. */
  lemma ResetRestarts<T>(e: SingleEnumerator<T>)
    ensures e.Reset() == NewSingleEnumerator(e.value)
    ensures e.Reset().Current().Failure?
    ensures e.Reset().MoveNext().1
  {
  }
}
