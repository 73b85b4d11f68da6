/** ReadOnlyListExtensions: `FirstOrDefault` and `Any` over a ReadOnlyList<T>, forwarded to
    EnumeratorOperations with the view's own enumerator. A view is a value, so none of these
    can change the list it wraps. */
module ReadOnlyListExtensions {
  import opened Wrappers
  import opened Sequences
  import opened ReadOnlyLists
  import EnumeratorOperations

  method FirstOrDefault<T, S>(source: ReadOnlyList<T>, state: S, pred: (T, S) -> bool) returns (result: Option<T>)
    ensures IsFirstMatch(source.inner, state, pred, result)
    ensures result == FirstMatch(source.inner, state, pred)
  {
    var finished;
    result, finished := EnumeratorOperations.FirstOrDefault(source.GetEnumerator(), state, pred);
    FirstMatchIsUnique(source.inner, state, pred, result, FirstMatch(source.inner, state, pred));
  }

  method Any<T>(source: ReadOnlyList<T>) returns (result: bool)
    ensures result <==> source.Count() > 0
  {
    var finished;
    result, finished := EnumeratorOperations.Any(source.GetEnumerator());
  }

  method AnyMatching<T, S>(source: ReadOnlyList<T>, state: S, pred: (T, S) -> bool) returns (result: bool)
    ensures result <==> exists i :: 0 <= i < |source.inner| && pred(source.inner[i], state)
  {
    var finished;
    result, finished := EnumeratorOperations.AnyMatching(source.GetEnumerator(), state, pred);
  }
}
