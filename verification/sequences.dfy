/** The meaning of the linear searches the collection helpers perform. */
module Sequences {
  import opened Wrappers

  /** No element of `s` occurs twice. */
  ghost predicate Distinct<T>(s: seq<T>) {
    forall i, j :: 0 <= i < j < |s| ==> s[i] != s[j]
  }

  /** `result` is what a first-match search of `s` must return: the earliest element
      satisfying `pred` with `state`, or `None` when no element does. */
  ghost predicate IsFirstMatch<T, S>(s: seq<T>, state: S, pred: (T, S) -> bool, result: Option<T>) {
    match result
    case None => forall j :: 0 <= j < |s| ==> !pred(s[j], state)
    case Some(x) =>
      exists k :: 0 <= k < |s| && s[k] == x && pred(s[k], state) && forall j :: 0 <= j < k ==> !pred(s[j], state)
  }

  /** The position of the first element satisfying `pred` with `state`, or `|s|` if none does. */
  function FirstIndex<T, S>(s: seq<T>, state: S, pred: (T, S) -> bool): (k: nat)
    ensures k <= |s|
    ensures k < |s| ==> pred(s[k], state)
    ensures forall j :: 0 <= j < k ==> !pred(s[j], state)
  {
    if |s| == 0 || pred(s[0], state) then 0
    else 1 + FirstIndex(s[1..], state, pred)
  }

  /** A reference search, front to back. */
  function FirstMatch<T, S>(s: seq<T>, state: S, pred: (T, S) -> bool): (r: Option<T>)
    ensures IsFirstMatch(s, state, pred, r)
  {
    var k := FirstIndex(s, state, pred);
    if k < |s| then Some(s[k]) else None
  }

  /** The first match is unique: any two results meeting `IsFirstMatch` agree. */
  lemma FirstMatchIsUnique<T, S>(s: seq<T>, state: S, pred: (T, S) -> bool, a: Option<T>, b: Option<T>)
    requires IsFirstMatch(s, state, pred, a) && IsFirstMatch(s, state, pred, b)
    ensures a == b
  {
    if a.Some? && b.Some? {
      var ka :| 0 <= ka < |s| && s[ka] == a.value && pred(s[ka], state) && forall j :: 0 <= j < ka ==> !pred(s[j], state);
      var kb :| 0 <= kb < |s| && s[kb] == b.value && pred(s[kb], state) && forall j :: 0 <= j < kb ==> !pred(s[j], state);
      assert ka == kb;
    }
  }
}
