/** Sequences of times. */
module Times {

  predicate Ascending(times: seq<int>) {
    forall i, j :: 0 <= i < j < |times| ==> times[i] <= times[j]
  }

  lemma AscendingCons(time: int, rest: seq<int>)
    requires Ascending(rest) && forall k :: 0 <= k < |rest| ==> time <= rest[k]
    ensures Ascending([time] + rest)
  {
  }
}
