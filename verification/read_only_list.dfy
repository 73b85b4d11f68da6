/** ReadOnlyList<T>: a read-only struct view over a List<T>. `From` wraps the list it is given
    without copying it, so every member answers from the inner list's current contents. */
module ReadOnlyLists {
  import opened Wrappers
  import opened Exceptions
  import opened Enumerators

  datatype ReadOnlyList<T> = ReadOnlyList(inner: seq<T>) {

    function Count(): nat {
      |inner|
    }

    /** The indexer; List<T>'s indexer throws outside `0 <= index < Count`. */
    function Item(index: int): Result<T, Exception> {
      if 0 <= index < |inner| then Success(inner[index]) else Failure(ArgumentOutOfRange)
    }

    /** `GetEnumerator()`: a fresh enumerator of the inner list. */
    function GetEnumerator(): Enumerator<T> {
      Over(inner)
    }
  }

  function From<T>(inner: seq<T>): ReadOnlyList<T> {
    ReadOnlyList(inner)
  }

  /** `Enumerator.Reset`: disposes the inner list enumerator and starts a fresh one. */
  function Reset<T>(e: Enumerator<T>): Enumerator<T> {
    Over(e.items)
  }

  /** The view answers `Count` and the indexer from the wrapped list, fails exactly where the
      wrapped list's indexer does, and its indexer agrees with its own enumeration. */
  lemma ViewAgreesWithInner<T>(list: seq<T>, index: int)
    ensures From(list).Count() == |list|
    ensures 0 <= index < |list| ==> From(list).Item(index) == Success(list[index])
    ensures 0 <= index < |list| ==> From(list).Item(index) == Success(From(list).GetEnumerator().Drain()[index])
    ensures From(list).Item(index).Failure? <==> !(0 <= index < |list|)
  {
  }

  /** Enumerating the view yields the inner elements in index order, after which `MoveNext`
      reports false. */
  lemma EnumerationYieldsInner<T>(list: seq<T>)
    ensures From(list).GetEnumerator().Drain() == list
    ensures !Over(list).(position := |list| - 1).MoveNext().1
  {
  }

  /** `Reset` restarts enumeration from the first element, wherever the enumerator stood. */
  lemma ResetRestarts<T>(e: Enumerator<T>)
    ensures Reset(e).Valid() && Reset(e).Drain() == e.items
    ensures Reset(e).Current().None?
  {
  }
}
