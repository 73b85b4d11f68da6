/** ListExtensions: `FirstOrDefault` and `Any` over a List<T> (a sequence here), forwarded to
    EnumeratorOperations with the list's own enumerator. The list is passed by value, so none
    of these can change it. */
module ListExtensions {
  import opened Wrappers
  import opened Sequences
  import opened Enumerators
  import EnumeratorOperations

  method FirstOrDefault<T, S>(source: seq<T>, state: S, pred: (T, S) -> bool) returns (result: Option<T>)
    ensures IsFirstMatch(source, state, pred, result)
    ensures result == FirstMatch(source, state, pred)
  {
    var finished;
    result, finished := EnumeratorOperations.FirstOrDefault(Over(source), state, pred);
    FirstMatchIsUnique(source, state, pred, result, FirstMatch(source, state, pred));
  }

  method Any<T>(source: seq<T>) returns (result: bool)
    ensures result <==> |source| > 0
  {
    var finished;
    result, finished := EnumeratorOperations.Any(Over(source));
  }

  method AnyMatching<T, S>(source: seq<T>, state: S, pred: (T, S) -> bool) returns (result: bool)
    ensures result <==> exists i :: 0 <= i < |source| && pred(source[i], state)
  {
    var finished;
    result, finished := EnumeratorOperations.AnyMatching(Over(source), state, pred);
  }
}
