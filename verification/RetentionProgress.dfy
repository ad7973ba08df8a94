/**
 Progress of the purge over many calls: what other documents see of the ones that keep failing.

 A stuck document is one whose S3 delete may fail.  A row delete may throw for any document; such a
 call ends early and counts for nothing in the bounds below.
 */
module RetentionProgress {
  import opened Retention

  /** An expired document outside the stuck ones. */
  predicate Due(docs: map<nat, Document>, now: int, stuck: set<nat>, id: nat) {
    id in docs && Expired(docs[id], now) && id !in stuck
  }

  function Work(docs: map<nat, Document>, now: int, stuck: set<nat>): (work: set<nat>)
    ensures forall id :: id in work <==> Due(docs, now, stuck, id)
  {
    set id | id in docs && Due(docs, now, stuck, id)
  }

  /** One call: its time, the batch, and the answers. */
  datatype Call = Call(now: int, batch: seq<nat>, answers: seq<Answer>)

  /** S3 deletes fail for stuck documents only. */
  ghost predicate GoodCall(st: Store, batchSize: nat, stuck: set<nat>, c: Call) {
    && IsBatch(st.docs, c.now, batchSize, c.batch) && |c.answers| == |c.batch|
    && forall i :: 0 <= i < |c.batch| && c.batch[i] !in stuck ==> RowGoes(st.docs[c.batch[i]], c.answers[i].blob)
  }

  /** Whether the call returns, and does not throw. */
  ghost predicate Returns(st: Store, batchSize: nat, stuck: set<nat>, c: Call)
    requires GoodCall(st, batchSize, stuck, c)
  {
    Purge(st, c.batch, c.answers).1.Ok?
  }

  lemma {:induction false} DistinctCount(batch: seq<nat>)
    requires Distinct(batch)
    ensures |(set i | 0 <= i < |batch| :: batch[i])| == |batch|
  {
    var all := set i | 0 <= i < |batch| :: batch[i];
    if batch != [] {
      var n := |batch| - 1;
      var front := set i | 0 <= i < n :: batch[..n][i];
      DistinctCount(batch[..n]);
      assert all == front + {batch[n]};
    }
  }

  lemma SubsetCount<T>(a: set<T>, b: set<T>)
    requires a <= b
    ensures |a| <= |b|
  {
    assert b == a + (b - a);
  }

  /** A full batch holds at least batchSize - |stuck| documents that will go. */
  lemma BatchHasWork(docs: map<nat, Document>, now: int, batchSize: nat, batch: seq<nat>, stuck: set<nat>)
    requires IsBatch(docs, now, batchSize, batch) && |stuck| <= |batch|
    ensures var todo := (set i | 0 <= i < |batch| :: batch[i]) - stuck;
            todo <= Work(docs, now, stuck) && |todo| >= |batch| - |stuck|
  {
    var all := set i | 0 <= i < |batch| :: batch[i];
    DistinctCount(batch);
    SubsetCount(all * stuck, stuck);
    assert all == (all - stuck) + (all * stuck);
  }

  /** Of a call that returns, every document that is not stuck is gone. */
  lemma ReturnedCallRemoves(st: Store, batchSize: nat, stuck: set<nat>, c: Call)
    requires GoodCall(st, batchSize, stuck, c) && Returns(st, batchSize, stuck, c)
    ensures forall i :: 0 <= i < |c.batch| && c.batch[i] !in stuck ==>
              c.batch[i] !in Purge(st, c.batch, c.answers).0.docs
  {
    PurgeCounts(st, c.batch, c.answers);
    forall i | 0 <= i < |c.batch| && c.batch[i] !in stuck ensures c.batch[i] !in Purge(st, c.batch, c.answers).0.docs {
      PurgeFate(st, c.batch, c.answers, i);
    }
  }

  /** No call adds work; one that returns finishes the work of its moment, or removes at least batchSize - |stuck| documents. */
  lemma CallProgress(st: Store, batchSize: nat, stuck: set<nat>, c: Call, horizon: int)
    requires GoodCall(st, batchSize, stuck, c) && |stuck| < batchSize && c.now <= horizon
    ensures var docs' := Purge(st, c.batch, c.answers).0.docs;
            (forall id :: id in docs' ==> id in st.docs && docs'[id] == st.docs[id])
            && |Work(docs', horizon, stuck)| <= |Work(st.docs, horizon, stuck)|
            && (Returns(st, batchSize, stuck, c) ==>
                  (forall id :: !Due(docs', c.now, stuck, id))
                  || |Work(docs', horizon, stuck)| + batchSize - |stuck| <= |Work(st.docs, horizon, stuck)|)
  {
    var docs' := Purge(st, c.batch, c.answers).0.docs;
    var before, after := Work(st.docs, horizon, stuck), Work(docs', horizon, stuck);
    PurgeFrame(st, c.batch, c.answers);
    SubsetCount(after, before);
    if Returns(st, batchSize, stuck, c) {
      ReturnedCallRemoves(st, batchSize, stuck, c);
      if |c.batch| == batchSize {
        BatchHasWork(st.docs, c.now, batchSize, c.batch, stuck);
        var todo := (set i | 0 <= i < |c.batch| :: c.batch[i]) - stuck;
        assert todo <= before && todo !! after;
        SubsetCount(todo + after, before);
      }
    }
  }

  /** Consecutive calls at non-decreasing times, with no new documents. */
  ghost predicate GoodCalls(st: Store, batchSize: nat, stuck: set<nat>, calls: seq<Call>, since: int, horizon: int)
    decreases calls
  {
    calls == []
    || (since <= calls[0].now <= horizon && GoodCall(st, batchSize, stuck, calls[0])
        && GoodCalls(Purge(st, calls[0].batch, calls[0].answers).0, batchSize, stuck, calls[1..], calls[0].now, horizon))
  }

  ghost function AfterCalls(st: Store, batchSize: nat, stuck: set<nat>, calls: seq<Call>, since: int, horizon: int): Store
    requires GoodCalls(st, batchSize, stuck, calls, since, horizon)
    decreases calls
  {
    if calls == [] then st
    else
      AfterCalls(Purge(st, calls[0].batch, calls[0].answers).0, batchSize, stuck, calls[1..], calls[0].now, horizon)
  }

  /** How many of the calls return. */
  ghost function ReturnCount(st: Store, batchSize: nat, stuck: set<nat>, calls: seq<Call>, since: int, horizon: int): nat
    requires GoodCalls(st, batchSize, stuck, calls, since, horizon)
    decreases calls
  {
    if calls == [] then 0
    else
      (if Returns(st, batchSize, stuck, calls[0]) then 1 else 0)
      + ReturnCount(Purge(st, calls[0].batch, calls[0].answers).0, batchSize, stuck, calls[1..], calls[0].now, horizon)
  }

  lemma OneMore(n: nat, slack: nat)
    ensures (n + 1) * slack == n * slack + slack
  {
  }

  /** While a document that was expired from the start survives, every call that returns removes at least the batch's slack. */
  lemma {:induction false} SurvivorMeansProgress(
    st: Store, batchSize: nat, stuck: set<nat>, calls: seq<Call>, since: int, horizon: int, id: nat)
    requires GoodCalls(st, batchSize, stuck, calls, since, horizon) && |stuck| < batchSize
    requires Due(AfterCalls(st, batchSize, stuck, calls, since, horizon).docs, since, stuck, id)
    requires since <= horizon
    ensures id in st.docs && st.docs[id] == AfterCalls(st, batchSize, stuck, calls, since, horizon).docs[id]
    ensures ReturnCount(st, batchSize, stuck, calls, since, horizon) * (batchSize - |stuck|)
            < |Work(st.docs, horizon, stuck)|
    decreases calls
  {
    hide Purge, RowGoes, Returns;
    if calls == [] {
      assert id in Work(st.docs, horizon, stuck);
    } else {
      var c := calls[0];
      var st' := Purge(st, c.batch, c.answers).0;
      var last := AfterCalls(st', batchSize, stuck, calls[1..], c.now, horizon);
      assert Due(last.docs, c.now, stuck, id);
      SurvivorMeansProgress(st', batchSize, stuck, calls[1..], c.now, horizon, id);
      CallProgress(st, batchSize, stuck, c, horizon);
      assert Due(st'.docs, c.now, stuck, id);
      OneMore(ReturnCount(st', batchSize, stuck, calls[1..], c.now, horizon), batchSize - |stuck|);
    }
  }

  /**
   If fewer than batchSize documents keep failing their S3 delete, enough calls that return remove
   every other document that was expired at the first call, whatever happens in the calls that throw:
   |work| / (batchSize - |stuck|) of them, rounded up, suffice.
   */
  lemma EverythingElseGoes(
    st: Store, batchSize: nat, stuck: set<nat>, calls: seq<Call>, since: int, horizon: int)
    requires GoodCalls(st, batchSize, stuck, calls, since, horizon) && |stuck| < batchSize && since <= horizon
    requires ReturnCount(st, batchSize, stuck, calls, since, horizon) * (batchSize - |stuck|)
             >= |Work(st.docs, horizon, stuck)|
    ensures Work(AfterCalls(st, batchSize, stuck, calls, since, horizon).docs, since, stuck) == {}
  {
    var last := AfterCalls(st, batchSize, stuck, calls, since, horizon).docs;
    if id :| id in Work(last, since, stuck) {
      SurvivorMeansProgress(st, batchSize, stuck, calls, since, horizon, id);
    }
  }

  // ---------------------------------------------------------------- row deletes that throw

  /** Row deletes throw for the documents of `bad` only. */
  ghost predicate ThrowsOnly(bad: set<nat>, calls: seq<Call>) {
    forall k, i :: 0 <= k < |calls| && 0 <= i < |calls[k].batch| && i < |calls[k].answers| ==>
      calls[k].answers[i].rowDeleteThrows ==> calls[k].batch[i] in bad
  }

  lemma {:induction false} AllReturn(
    st: Store, batchSize: nat, stuck: set<nat>, calls: seq<Call>, since: int, horizon: int)
    requires GoodCalls(st, batchSize, stuck, calls, since, horizon) && ThrowsOnly({}, calls)
    ensures ReturnCount(st, batchSize, stuck, calls, since, horizon) == |calls|
    decreases calls
  {
    if calls != [] {
      var c := calls[0];
      PurgeCounts(st, c.batch, c.answers);
      assert !StopsBefore(st.docs, c.batch, c.answers, |c.batch|);
      assert forall k :: 0 <= k < |calls| - 1 ==> calls[1..][k] == calls[k + 1];
      hide Purge;
      AllReturn(Purge(st, c.batch, c.answers).0, batchSize, stuck, calls[1..], c.now, horizon);
    }
  }

  lemma TimesAtLeast(n: nat, slack: nat)
    requires slack > 0
    ensures n * slack >= n
  {
  }

  /** When no row delete throws, as many calls as there is work suffice. */
  lemma AsManyCallsAsWork(
    st: Store, batchSize: nat, stuck: set<nat>, calls: seq<Call>, since: int, horizon: int)
    requires GoodCalls(st, batchSize, stuck, calls, since, horizon) && |stuck| < batchSize && since <= horizon
    requires ThrowsOnly({}, calls) && |calls| >= |Work(st.docs, horizon, stuck)|
    ensures Work(AfterCalls(st, batchSize, stuck, calls, since, horizon).docs, since, stuck) == {}
  {
    AllReturn(st, batchSize, stuck, calls, since, horizon);
    hide GoodCalls, AfterCalls, Work, ReturnCount;
    TimesAtLeast(|calls|, batchSize - |stuck|);
    EverythingElseGoes(st, batchSize, stuck, calls, since, horizon);
  }
}
