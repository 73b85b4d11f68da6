/** EnumeratorOperations: the allocation-free linear searches behind the `FirstOrDefault` and
    `Any` extension methods. Each consumes the enumerator it is given and disposes of it on
    every path, the early returns included (the `finally` blocks). */
module EnumeratorOperations {
  import opened Wrappers
  import opened Sequences
  import opened Enumerators

  /** The first remaining element satisfying `pred`, or `default` (`None`). The enumerator is
      left positioned on the element returned. */
  method FirstOrDefault<T, S>(enumerator: Enumerator<T>, state: S, pred: (T, S) -> bool)
    returns (result: Option<T>, finished: Enumerator<T>)
    requires enumerator.Valid()
    ensures IsFirstMatch(enumerator.Remaining(), state, pred, result)
    ensures result.Some? ==> finished.Current() == result
    ensures finished.disposed && finished.items == enumerator.items
  {
    var e := enumerator;
    ghost var start := enumerator.position + 1;
    ghost var rest := enumerator.Remaining();
    assert forall j :: 0 <= j < |rest| ==> start + j < |e.items| && rest[j] == e.items[start + j];
    while true
      invariant e.Valid() && e.items == enumerator.items
      invariant enumerator.position <= e.position
      invariant forall j :: 0 <= j < |rest| && start + j <= e.position ==> !pred(rest[j], state)
      decreases |e.items| - e.position
    {
      var (next, moved) := e.MoveNext();
      if !moved {
        result := None;
        finished := next.Dispose();
        return;
      }
      e := next;
      var current := e.Current().value;
      if pred(current, state) {
        ghost var k := e.position - start;
        assert rest[k] == current && pred(rest[k], state);
        result := Some(current);
        finished := e.Dispose();
        return;
      }
    }
  }

  /** True iff the enumerator has an element left; advances it at most once. */
  method Any<T>(enumerator: Enumerator<T>) returns (result: bool, finished: Enumerator<T>)
    requires enumerator.Valid()
    ensures result <==> |enumerator.Remaining()| > 0
    ensures finished.position <= enumerator.position + 1
    ensures finished.disposed && finished.items == enumerator.items
  {
    var (next, moved) := enumerator.MoveNext();
    result := moved;
    finished := next.Dispose();
  }

  /** True iff some remaining element satisfies `pred`; stops on the first that does. */
  method AnyMatching<T, S>(enumerator: Enumerator<T>, state: S, pred: (T, S) -> bool)
    returns (result: bool, finished: Enumerator<T>)
    requires enumerator.Valid()
    ensures result <==> exists j :: 0 <= j < |enumerator.Remaining()| && pred(enumerator.Remaining()[j], state)
    ensures result ==> finished.Current().Some? && pred(finished.Current().value, state)
    ensures result ==> enumerator.position < finished.position < |enumerator.items|
    ensures result ==> forall j :: enumerator.position < j < finished.position ==> !pred(enumerator.items[j], state)
    ensures finished.disposed && finished.items == enumerator.items
  {
    var e := enumerator;
    ghost var start := enumerator.position + 1;
    while true
      invariant e.Valid() && e.items == enumerator.items
      invariant enumerator.position <= e.position
      invariant forall j :: start <= j <= e.position && j < |e.items| ==> !pred(e.items[j], state)
      decreases |e.items| - e.position
    {
      var (next, moved) := e.MoveNext();
      if !moved {
        assert forall j :: 0 <= j < |enumerator.Remaining()| ==> enumerator.Remaining()[j] == e.items[start + j];
        result := false;
        finished := next.Dispose();
        return;
      }
      e := next;
      var current := e.Current().value;
      if pred(current, state) {
        assert enumerator.Remaining()[e.position - start] == current;
        result := true;
        finished := e.Dispose();
        return;
      }
    }
  }
}
