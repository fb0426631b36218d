/** The snapshot gate both to-do screens apply to a polled response:
    the local list is replaced only when the response carries `dues` and the
    list it carries is not deep-equal to the current one. Deep equality of
    the records is value equality of the datatype standing for them. */
module Snapshot {
  import opened Wrappers

  /** `content.dues && !isEqual(content.dues, toDos)`: whether `setToDos`
      is called. An absent `dues` is `None`; an empty list is present. */
  predicate Replaces<T(==)>(current: seq<T>, dues: Option<seq<T>>)
    ensures Replaces(current, dues) <==>
      dues.Some? && (|dues.value| != |current|
                     || exists i :: 0 <= i < |current| && dues.value[i] != current[i])
  {
    dues.Some? && dues.value != current
  }

  /** The local list after one polled response. Afterwards the list equals
      the snapshot whenever one was sent, and the same response applied
      again would not call `setToDos`. */
  function Apply<T(==)>(current: seq<T>, dues: Option<seq<T>>): (next: seq<T>)
    ensures dues.Some? ==> next == dues.value
    ensures dues.None? ==> next == current
    ensures !Replaces(next, dues)
  {
    if Replaces(current, dues) then dues.value else current
  }

  /** The last snapshot a run of polls carried, or `current` if none did. */
  function Latest<T>(current: seq<T>, polls: seq<Option<seq<T>>>): seq<T>
  {
    if |polls| == 0 then current
    else if polls[|polls| - 1].Some? then polls[|polls| - 1].value
    else Latest(current, polls[..|polls| - 1])
  }

  /** Taking the first poll's snapshot as the starting list does not change
      the last snapshot of the run. */
  lemma {:induction false} LatestAfterFirst<T>(current: seq<T>, polls: seq<Option<seq<T>>>)
    requires |polls| > 0
    ensures Latest(current, polls)
      == Latest(if polls[0].Some? then polls[0].value else current, polls[1..])
  {
    var n := |polls|;
    if n > 1 && polls[n - 1].None? {
      LatestAfterFirst(current, polls[..n - 1]);
      assert polls[..n - 1][1..] == polls[1..][..n - 2];
    }
  }

  /** A run of polls: the final list and how many of the polls called
      `setToDos` (each call re-renders and re-arms the polling effect).
      The final list is the last snapshot received, whatever came before. */
  function Poll<T(==)>(current: seq<T>, polls: seq<Option<seq<T>>>): (r: (seq<T>, nat))
    ensures r.0 == Latest(current, polls)
    ensures r.1 <= |polls|
    decreases |polls|
  {
    if |polls| == 0 then (current, 0)
    else
      LatestAfterFirst(current, polls);
      var rest := Poll(Apply(current, polls[0]), polls[1..]);
      (rest.0, rest.1 + if Replaces(current, polls[0]) then 1 else 0)
  }

  /** While the server's list stays `snapshot`, polling calls `setToDos` at
      most once, and not at all once the local list already equals it: the
      gate is what stops the poll/update cycle. */
  lemma {:induction false} SteadyServerSetsAtMostOnce<T>(current: seq<T>, snapshot: seq<T>, polls: seq<Option<seq<T>>>)
    requires forall i :: 0 <= i < |polls| ==> polls[i] == None || polls[i] == Some(snapshot)
    ensures Poll(current, polls).1 <= if current == snapshot then 0 else 1
    ensures Poll(current, polls).0 == if Some(snapshot) in polls then snapshot else current
    decreases |polls|
  {
    if |polls| > 0 {
      SteadyServerSetsAtMostOnce(Apply(current, polls[0]), snapshot, polls[1..]);
      assert Some(snapshot) in polls <==> polls[0] == Some(snapshot) || Some(snapshot) in polls[1..] by {
        assert polls == [polls[0]] + polls[1..];
      }
    }
  }
}
