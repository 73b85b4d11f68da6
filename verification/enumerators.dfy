/** IEnumerator<T> over a finite sequence, as List<T>.Enumerator behaves. */
module Enumerators {
  import opened Wrappers

  /** `position` is -1 before the first `MoveNext`, the index of `Current` while enumerating,
      and `|items|` once `MoveNext` has returned false. */
  datatype Enumerator<T> = Enumerator(items: seq<T>, position: int, disposed: bool) {

    predicate Valid() {
      -1 <= position <= |items|
    }

    /** Advances to the next element; false (and stays exhausted) when there is none. */
    function MoveNext(): (Enumerator<T>, bool)
      requires Valid()
    {
      if position + 1 < |items| then (this.(position := position + 1), true)
      else (this.(position := |items|), false)
    }

    /** `Current`: the element at the position, or `default(T)` off the ends. */
    function Current(): Option<T> {
      if 0 <= position < |items| then Some(items[position]) else None
    }

    function Dispose(): Enumerator<T> {
      this.(disposed := true)
    }

    /** The elements `MoveNext` has still to reach. */
    function Remaining(): seq<T>
      requires Valid()
    {
      if position < |items| then items[position + 1..] else []
    }

    /** What a `while (MoveNext()) yield Current` loop produces from here on. */
    function Drain(): (out: seq<T>)
      requires Valid()
      ensures out == Remaining()
      decreases |items| - position
    {
      var (next, moved) := MoveNext();
      if moved then [next.Current().value] + next.Drain() else []
    }
  }

  /** A fresh enumerator, as `GetEnumerator()` returns it. */
  function Over<T>(items: seq<T>): (e: Enumerator<T>)
    ensures e.Valid() && e.Remaining() == items
  {
    Enumerator(items, -1, false)
  }
}
