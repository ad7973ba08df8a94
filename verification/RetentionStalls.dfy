/**
 When the purge stands still: stuck documents that fill every batch, or a document whose row delete
 throws before any row has gone.
 */
module RetentionStalls {
  import opened Wrappers
  import opened Retention
  import opened RetentionProgress

  /** A batch in which nothing can go: only S3 documents whose delete is refused. */
  lemma {:induction false} BlockedBatch(st: Store, batch: seq<nat>, answers: seq<Answer>)
    requires |batch| == |answers| && Distinct(batch) && AllIn(batch, st.docs)
    requires forall i :: 0 <= i < |batch| ==> st.docs[batch[i]].storage == S3 && answers[i].blob.Refused?
    ensures Purge(st, batch, answers) == (st, Ok(0))
    decreases |batch|
  {
    if batch != [] {
      assert st.(blobs := st.blobs) == st;
      BlockedBatch(st, batch[1..], answers[1..]);
    }
  }

  /** A stuck document is one whose S3 delete keeps failing. */
  predicate StuckInS3(docs: map<nat, Document>, stuck: set<nat>) {
    forall id :: id in stuck && id in docs ==> docs[id].storage == S3
  }

  /** The stuck expired documents that expire no later than any of the work. */
  function Ahead(docs: map<nat, Document>, now: int, stuck: set<nat>): (ahead: set<nat>)
    ensures forall id :: id in ahead <==> IsAhead(docs, now, stuck, id)
  {
    set id | id in docs && IsAhead(docs, now, stuck, id)
  }

  predicate IsAhead(docs: map<nat, Document>, now: int, stuck: set<nat>, id: nat) {
    id in docs && id in stuck && Expired(docs[id], now)
    && forall other :: other in Work(docs, now, stuck) ==> Until(docs[id]) <= Until(docs[other])
  }

  predicate Reaches(docs: map<nat, Document>, now: int, stuck: set<nat>, batch: seq<nat>) {
    exists i :: 0 <= i < |batch| && batch[i] in Work(docs, now, stuck)
  }

  /** A batch that reaches none of the work is full, and of documents that are ahead. */
  lemma IdleBatchIsAhead(docs: map<nat, Document>, now: int, batchSize: nat, batch: seq<nat>, stuck: set<nat>)
    requires IsBatch(docs, now, batchSize, batch) && Work(docs, now, stuck) != {}
    requires !Reaches(docs, now, stuck, batch)
    ensures |Ahead(docs, now, stuck)| >= batchSize
  {
    var all := set i | 0 <= i < |batch| :: batch[i];
    forall i | 0 <= i < |batch| ensures batch[i] in stuck {
      assert batch[i] !in Work(docs, now, stuck);
    }
    forall id, other | id in all && other in Work(docs, now, stuck) ensures Until(docs[id]) <= Until(docs[other]) {
      assert other !in batch;
    }
    var w :| w in Work(docs, now, stuck);
    assert w !in batch && |batch| == batchSize;
    DistinctCount(batch);
    assert all <= Ahead(docs, now, stuck);
    SubsetCount(all, Ahead(docs, now, stuck));
  }

  /** Documents of a set, the first to expire first. */
  predicate InOrderOf(docs: map<nat, Document>, ids: set<nat>, batch: seq<nat>) {
    ids <= docs.Keys && (forall i :: 0 <= i < |batch| ==> batch[i] in ids)
    && forall i, j :: 0 <= i < j < |batch| ==>
         batch[i] != batch[j] && Until(docs[batch[i]]) <= Until(docs[batch[j]])
  }

  /** The `n` documents of a set that expire first, in that order. */
  lemma {:induction false} FirstToExpire(docs: map<nat, Document>, ids: set<nat>, n: nat) returns (batch: seq<nat>)
    requires n <= |ids| && ids <= docs.Keys
    ensures |batch| == n && InOrderOf(docs, ids, batch)
    ensures forall id, i :: id in ids && id !in batch && 0 <= i < n ==> Until(docs[batch[i]]) <= Until(docs[id])
    ensures n == |ids| ==> forall id :: id in ids ==> id in batch
    decreases n
  {
    if n == 0 {
      batch := [];
    } else {
      var first := SoonestOf(docs, ids);
      var rest := FirstToExpire(docs, ids - {first}, n - 1);
      batch := [first] + rest;
      forall id, i | id in ids && id !in batch && 0 <= i < n ensures Until(docs[batch[i]]) <= Until(docs[id]) {
        assert first in batch && (forall r :: r in rest ==> r in batch);
        assert id in ids - {first} && id !in rest;
      }
      assert ids == {first} + (ids - {first});
    }
  }

  lemma {:induction false} SoonestOf(docs: map<nat, Document>, ids: set<nat>) returns (first: nat)
    requires ids != {} && ids <= docs.Keys
    ensures first in ids && forall id :: id in ids ==> Until(docs[first]) <= Until(docs[id])
    decreases |ids|
  {
    first :| first in ids;
    assert ids == {first} + (ids - {first});
    if ids - {first} != {} {
      var other := SoonestOf(docs, ids - {first});
      if Until(docs[other]) < Until(docs[first]) {
        first := other;
      }
    }
  }

  /** With a batch's worth of documents ahead, the query may return a batch of them only. */
  lemma AheadFillsBatch(docs: map<nat, Document>, now: int, batchSize: nat, stuck: set<nat>) returns (batch: seq<nat>)
    requires Work(docs, now, stuck) != {} && |Ahead(docs, now, stuck)| >= batchSize
    ensures IsBatch(docs, now, batchSize, batch) && !Reaches(docs, now, stuck, batch)
    ensures forall i :: 0 <= i < |batch| ==> batch[i] in stuck
  {
    var ahead := Ahead(docs, now, stuck);
    batch := FirstToExpire(docs, ahead, batchSize);
    var w :| w in Work(docs, now, stuck);
    forall id, i | id in docs && Expired(docs[id], now) && id !in batch && 0 <= i < |batch|
      ensures Until(docs[batch[i]]) <= Until(docs[id])
    {
      assert batch[i] in ahead;
      if id in stuck && id !in ahead {
        var other :| other in Work(docs, now, stuck) && Until(docs[other]) < Until(docs[id]);
      } else if id !in stuck {
        assert id in Work(docs, now, stuck);
      }
    }
  }

  /** For a given table: every batch reaches some work exactly if fewer than batchSize documents are ahead of it. */
  lemma BatchReachesExactly(docs: map<nat, Document>, now: int, batchSize: nat, stuck: set<nat>)
    requires Work(docs, now, stuck) != {}
    ensures (forall batch :: IsBatch(docs, now, batchSize, batch) ==> Reaches(docs, now, stuck, batch))
            <==> |Ahead(docs, now, stuck)| < batchSize
  {
    if |Ahead(docs, now, stuck)| < batchSize {
      forall batch | IsBatch(docs, now, batchSize, batch) ensures Reaches(docs, now, stuck, batch) {
        if !Reaches(docs, now, stuck, batch) {
          IdleBatchIsAhead(docs, now, batchSize, batch, stuck);
        }
      }
    } else {
      var batch := AheadFillsBatch(docs, now, batchSize, stuck);
    }
  }

  // ---------------------------------------------------------------- one table: may the rows stay for good

  /** The expired documents that expire before `x`, and so come before it in a batch. */
  function Before(docs: map<nat, Document>, now: int, x: nat): (before: set<nat>)
    requires x in docs
    ensures forall id :: id in before <==> id in docs && Expired(docs[id], now) && Until(docs[id]) < Until(docs[x])
  {
    set id | id in docs && Expired(docs[id], now) && Until(docs[id]) < Until(docs[x])
  }

  /** Document `x` may be the first of a batch whose row goes, if the deletes of the stuck ones fail. */
  predicate MayGoFirst(docs: map<nat, Document>, now: int, batchSize: nat, stuck: set<nat>, x: nat) {
    x in docs && Expired(docs[x], now) && Before(docs, now, x) <= stuck && |Before(docs, now, x)| < batchSize
  }

  /** A batch in which only stuck documents come before `x`. */
  lemma BatchUpTo(docs: map<nat, Document>, now: int, batchSize: nat, stuck: set<nat>, x: nat)
    returns (batch: seq<nat>, k: nat)
    requires MayGoFirst(docs, now, batchSize, stuck, x)
    ensures IsBatch(docs, now, batchSize, batch) && k < |batch| && batch[k] == x
    ensures forall i :: 0 <= i < k ==> batch[i] in stuck
  {
    var before := Before(docs, now, x);
    var later := (set id | id in docs && Expired(docs[id], now) && id !in before) - {x};
    var room := batchSize - |before| - 1;
    var first := FirstToExpire(docs, before, |before|);
    var last := FirstToExpire(docs, later, if room < |later| then room else |later|);
    k := |first|;
    batch := first + [x] + last;
    hide InOrderOf, IsBatch;
    JoinedInOrder(docs, now, before, later, x, first, last);
    JoinedIsBatch(docs, now, batchSize, before, later, x, first, last);
  }

  predicate Parts(
    docs: map<nat, Document>, now: int, before: set<nat>, later: set<nat>, x: nat, first: seq<nat>, last: seq<nat>)
  {
    x in docs && Expired(docs[x], now) && before == Before(docs, now, x)
    && later == (set id | id in docs && Expired(docs[id], now) && id !in before) - {x}
    && InOrderOf(docs, before, first) && InOrderOf(docs, later, last)
  }

  /** The documents before `x`, then `x`, then later ones, are in order. */
  lemma JoinedInOrder(
    docs: map<nat, Document>, now: int, before: set<nat>, later: set<nat>, x: nat, first: seq<nat>, last: seq<nat>)
    requires Parts(docs, now, before, later, x, first, last)
    ensures InOrderOf(docs, before + {x} + later, first + [x] + last)
  {
    var batch := first + [x] + last;
    forall i | 0 <= i < |batch|
      ensures batch[i] == if i < |first| then first[i] else if i == |first| then x else last[i - |first| - 1]
    {
    }
  }

  lemma JoinedIsBatch(
    docs: map<nat, Document>, now: int, batchSize: nat, before: set<nat>, later: set<nat>, x: nat,
    first: seq<nat>, last: seq<nat>)
    requires Parts(docs, now, before, later, x, first, last)
    requires InOrderOf(docs, before + {x} + later, first + [x] + last)
    requires forall id :: id in before ==> id in first
    requires |first| + 1 + |last| <= batchSize
    requires |first| + 1 + |last| == batchSize || forall id :: id in later ==> id in last
    requires forall id, i :: id in later && id !in last && 0 <= i < |last| ==> Until(docs[last[i]]) <= Until(docs[id])
    ensures IsBatch(docs, now, batchSize, first + [x] + last)
  {
    var batch := first + [x] + last;
    forall id | id in docs && Expired(docs[id], now) && id !in batch
      ensures |batch| == batchSize && forall i :: 0 <= i < |batch| ==> Until(docs[batch[i]]) <= Until(docs[id])
    {
      assert (id in first ==> id in batch) && x in batch && (id in last ==> id in batch);
      assert id in later && id !in last;
      forall i | 0 <= i < |batch| ensures Until(docs[batch[i]]) <= Until(docs[id]) {
        assert batch[i] == if i < |first| then first[i] else if i == |first| then x else last[i - |first| - 1];
      }
    }
  }

  /** Some `n` calls, in which row deletes throw for `bad` documents only, leave all rows as they are. */
  ghost predicate Stalls(st: Store, batchSize: nat, stuck: set<nat>, bad: set<nat>, now: int, n: nat) {
    exists calls ::
      |calls| == n && GoodCalls(st, batchSize, stuck, calls, now, now) && ThrowsOnly(bad, calls)
      && AfterCalls(st, batchSize, stuck, calls, now, now).docs == st.docs
  }

  /** However many calls are made, they may all leave the rows as they are. */
  ghost predicate MayStall(st: Store, batchSize: nat, stuck: set<nat>, bad: set<nat>, now: int) {
    forall n: nat :: Stalls(st, batchSize, stuck, bad, now, n)
  }

  /** The call can be made on the store, and removes no row. */
  ghost predicate IdlesOn(st: Store, batchSize: nat, stuck: set<nat>, bad: set<nat>, c: Call) {
    GoodCall(st, batchSize, stuck, c) && ThrowsOnly(bad, [c]) && Purge(st, c.batch, c.answers).0.docs == st.docs
  }

  /** So it does on these documents, whatever blobs there are. */
  ghost predicate Idles(docs: map<nat, Document>, batchSize: nat, stuck: set<nat>, bad: set<nat>, c: Call) {
    forall blobs :: IdlesOn(Store(docs, blobs), batchSize, stuck, bad, c)
  }

  lemma {:induction false} StalledCalls(
    st: Store, batchSize: nat, stuck: set<nat>, bad: set<nat>, now: int, c: Call, n: nat) returns (calls: seq<Call>)
    requires Idles(st.docs, batchSize, stuck, bad, c) && c.now == now
    ensures |calls| == n && GoodCalls(st, batchSize, stuck, calls, now, now) && ThrowsOnly(bad, calls)
    ensures AfterCalls(st, batchSize, stuck, calls, now, now).docs == st.docs
    decreases n
  {
    if n == 0 {
      calls := [];
    } else {
      assert IdlesOn(Store(st.docs, st.blobs), batchSize, stuck, bad, c);
      var st' := Purge(st, c.batch, c.answers).0;
      var rest := StalledCalls(st', batchSize, stuck, bad, now, c, n - 1);
      calls := [c] + rest;
      assert calls[1..] == rest && [c][0] == c;
    }
  }

  /** Refused deletes for the documents before the `k`-th, and a row delete that throws at the `k`-th. */
  function AnswersUpTo(n: nat, k: nat): (answers: seq<Answer>)
    ensures |answers| == n
  {
    seq(n, i => if i < k then Answer(Refused("S3"), false) else Answer(Deleted, i == k))
  }

  /** With a throwing document that may go first, a call may leave all rows as they are. */
  lemma ThrowingCallIdles(docs: map<nat, Document>, batchSize: nat, stuck: set<nat>, bad: set<nat>, now: int, x: nat)
    returns (c: Call)
    requires StuckInS3(docs, stuck) && x in bad && MayGoFirst(docs, now, batchSize, stuck, x)
    ensures Idles(docs, batchSize, stuck, bad, c) && c.now == now
  {
    var batch, k := BatchUpTo(docs, now, batchSize, stuck, x);
    var answers := AnswersUpTo(|batch|, k);
    c := Call(now, batch, answers);
    forall blobs
      ensures IdlesOn(Store(docs, blobs), batchSize, stuck, bad, c)
    {
      assert RowThrows(docs, batch, answers, k);
      KeepsRowsExactly(Store(docs, blobs), batch, answers);
    }
  }

  /** With a batch's worth of stuck documents ahead, too. */
  lemma StuckCallIdles(docs: map<nat, Document>, batchSize: nat, stuck: set<nat>, bad: set<nat>, now: int)
    returns (c: Call)
    requires StuckInS3(docs, stuck) && Work(docs, now, stuck) != {} && |Ahead(docs, now, stuck)| >= batchSize
    ensures Idles(docs, batchSize, stuck, bad, c) && c.now == now
  {
    var batch := AheadFillsBatch(docs, now, batchSize, stuck);
    var answers := AnswersUpTo(|batch|, |batch|);
    c := Call(now, batch, answers);
    forall blobs
      ensures IdlesOn(Store(docs, blobs), batchSize, stuck, bad, c)
    {
      BlockedBatch(Store(docs, blobs), batch, answers);
    }
  }

  /** A call that leaves all rows as they are has a batch of stuck documents only, or throws at the first row that is to go. */
  lemma IdleCallCauses(st: Store, batchSize: nat, stuck: set<nat>, bad: set<nat>, c: Call)
    requires GoodCall(st, batchSize, stuck, c) && ThrowsOnly(bad, [c])
    requires Purge(st, c.batch, c.answers).0.docs == st.docs
    ensures (forall i :: 0 <= i < |c.batch| ==> c.batch[i] in stuck)
            || exists k :: 0 <= k < |c.batch| && c.batch[k] in bad && forall i :: 0 <= i < k ==> c.batch[i] in stuck
  {
    KeepsRowsExactly(st, c.batch, c.answers);
    if m :| 0 <= m < |c.batch| && c.batch[m] !in stuck {
      hide Purge, IsBatch;
      var k := FirstToGo(st.docs, c.batch, c.answers, m);
      assert [c][0] == c && c.batch[k] in bad;
    }
  }

  /** The first document of the batch whose row is to go: its row delete throws, if every row stays. */
  lemma {:induction false} FirstToGo(docs: map<nat, Document>, batch: seq<nat>, answers: seq<Answer>, m: nat)
    returns (k: nat)
    requires |batch| == |answers| && AllIn(batch, docs) && m < |batch| && RowGoes(docs[batch[m]], answers[m].blob)
    requires forall i :: 0 <= i < |batch| && RowGoes(docs[batch[i]], answers[i].blob) ==>
               StopsBefore(docs, batch, answers, i + 1)
    ensures k <= m && RowThrows(docs, batch, answers, k)
    ensures forall i :: 0 <= i < k ==> !RowGoes(docs[batch[i]], answers[i].blob)
    decreases m
  {
    if i :| 0 <= i < m && RowGoes(docs[batch[i]], answers[i].blob) {
      k := FirstToGo(docs, batch, answers, i);
    } else {
      assert StopsBefore(docs, batch, answers, m + 1);
      k := m;
    }
  }

  /** A document of a batch that has only stuck ones before it may go first. */
  lemma PlaceInBatch(docs: map<nat, Document>, now: int, batchSize: nat, stuck: set<nat>, batch: seq<nat>, k: nat)
    requires IsBatch(docs, now, batchSize, batch) && k < |batch|
    requires forall i :: 0 <= i < k ==> batch[i] in stuck
    ensures MayGoFirst(docs, now, batchSize, stuck, batch[k])
  {
    var x := batch[k];
    var front := batch[..k];
    var ids := set i | 0 <= i < |front| :: front[i];
    forall id | id in Before(docs, now, x) ensures id in ids {
      assert id in batch;
      var j :| 0 <= j < |batch| && batch[j] == id;
      assert j < k && front[j] == id;
    }
    DistinctCount(front);
    SubsetCount(Before(docs, now, x), ids);
  }

  /**
   For a given table with work to do: the rows may stay for good if and only if a batch's worth of
   stuck documents is ahead of the work, or a document whose row delete throws may go first.
   */
  lemma StallsExactly(st: Store, batchSize: nat, stuck: set<nat>, bad: set<nat>, now: int)
    requires StuckInS3(st.docs, stuck) && Work(st.docs, now, stuck) != {}
    ensures MayStall(st, batchSize, stuck, bad, now) <==>
            |Ahead(st.docs, now, stuck)| >= batchSize
            || exists x :: x in bad && MayGoFirst(st.docs, now, batchSize, stuck, x)
  {
    hide Idles, Ahead, MayGoFirst, Work;
    if |Ahead(st.docs, now, stuck)| >= batchSize {
      var c := StuckCallIdles(st.docs, batchSize, stuck, bad, now);
      IdleCallStalls(st, batchSize, stuck, bad, now, c);
    } else if x :| x in bad && MayGoFirst(st.docs, now, batchSize, stuck, x) {
      var c := ThrowingCallIdles(st.docs, batchSize, stuck, bad, now, x);
      IdleCallStalls(st, batchSize, stuck, bad, now, c);
    } else if MayStall(st, batchSize, stuck, bad, now) {
      StallHasCause(st, batchSize, stuck, bad, now);
    }
  }

  lemma IdleCallStalls(st: Store, batchSize: nat, stuck: set<nat>, bad: set<nat>, now: int, c: Call)
    requires Idles(st.docs, batchSize, stuck, bad, c) && c.now == now
    ensures MayStall(st, batchSize, stuck, bad, now)
  {
    hide Idles;
    forall n: nat ensures Stalls(st, batchSize, stuck, bad, now, n) {
      var calls := StalledCalls(st, batchSize, stuck, bad, now, c, n);
    }
  }

  lemma StallHasCause(st: Store, batchSize: nat, stuck: set<nat>, bad: set<nat>, now: int)
    requires Stalls(st, batchSize, stuck, bad, now, 1) && Work(st.docs, now, stuck) != {}
    ensures |Ahead(st.docs, now, stuck)| >= batchSize
            || exists x :: x in bad && MayGoFirst(st.docs, now, batchSize, stuck, x)
  {
    var calls: seq<Call> :| |calls| == 1 && GoodCalls(st, batchSize, stuck, calls, now, now) && ThrowsOnly(bad, calls)
                            && AfterCalls(st, batchSize, stuck, calls, now, now).docs == st.docs;
    var c := calls[0];
    assert calls == [c];
    assert AfterCalls(st, batchSize, stuck, calls, now, now) == Purge(st, c.batch, c.answers).0;
    IdleCallCauses(st, batchSize, stuck, bad, c);
    if forall i :: 0 <= i < |c.batch| ==> c.batch[i] in stuck {
      IdleBatchIsAhead(st.docs, now, batchSize, c.batch, stuck);
    } else {
      var k :| 0 <= k < |c.batch| && c.batch[k] in bad && forall i :: 0 <= i < k ==> c.batch[i] in stuck;
      PlaceInBatch(st.docs, now, batchSize, stuck, c.batch, k);
    }
  }

  // ---------------------------------------------------------------- stopped for certain

  /** At least batchSize of the stuck documents are expired at `now` and expire before every other document. */
  predicate StuckComeFirst(docs: map<nat, Document>, now: int, batchSize: nat, stuck: set<nat>, first: set<nat>) {
    first <= stuck && |first| >= batchSize
    && (forall id :: id in first ==> id in docs && Expired(docs[id], now))
    && (forall id, other :: id in first && other in docs && other !in stuck && docs[other].retentionUntil.Some? ==>
          Until(docs[id]) < Until(docs[other]))
  }

  /** Then every batch, from `now` on, consists of stuck documents. */
  lemma BatchIsStuck(
    docs: map<nat, Document>, since: int, now: int, batchSize: nat, stuck: set<nat>, first: set<nat>, batch: seq<nat>)
    requires StuckComeFirst(docs, since, batchSize, stuck, first) && since <= now
    requires IsBatch(docs, now, batchSize, batch)
    ensures forall i :: 0 <= i < |batch| ==> batch[i] in stuck
  {
    if i :| 0 <= i < |batch| && batch[i] !in stuck {
      var all := set j | 0 <= j < |batch| :: batch[j];
      forall id | id in first ensures id in all {
        assert Until(docs[id]) < Until(docs[batch[i]]);
      }
      DistinctCount(batch);
      SubsetCount(first + {batch[i]}, all);
    }
  }

  /** The deletes of the blobs of stuck documents fail in every call. */
  ghost predicate StuckFail(stuck: set<nat>, calls: seq<Call>) {
    forall k, i :: 0 <= k < |calls| && 0 <= i < |calls[k].batch| && i < |calls[k].answers| ==>
      calls[k].batch[i] in stuck ==> !calls[k].answers[i].blob.Deleted?
  }

  /** They fail with the blob kept. */
  ghost predicate StuckRefused(stuck: set<nat>, calls: seq<Call>) {
    forall k, i :: 0 <= k < |calls| && 0 <= i < |calls[k].batch| && i < |calls[k].answers| ==>
      calls[k].batch[i] in stuck ==> calls[k].answers[i].blob.Refused?
  }

  /**
   If batchSize stuck documents expire before all others, no sequence of calls ever removes a row:
   the purge is stopped for every document, stuck or not.
   */
  lemma {:induction false} StuckDocumentsStopPurge(
    st: Store, batchSize: nat, stuck: set<nat>, first: set<nat>, calls: seq<Call>, since: int, horizon: int)
    requires StuckInS3(st.docs, stuck) && StuckComeFirst(st.docs, since, batchSize, stuck, first)
    requires GoodCalls(st, batchSize, stuck, calls, since, horizon) && StuckFail(stuck, calls)
    ensures AfterCalls(st, batchSize, stuck, calls, since, horizon).docs == st.docs
    ensures StuckRefused(stuck, calls) ==> AfterCalls(st, batchSize, stuck, calls, since, horizon) == st
    decreases calls
  {
    if calls != [] {
      var c := calls[0];
      BatchIsStuck(st.docs, since, c.now, batchSize, stuck, first, c.batch);
      forall i | 0 <= i < |c.batch| ensures !RowGoes(st.docs[c.batch[i]], c.answers[i].blob) {
        assert c.batch[i] in stuck && c.batch[i] in st.docs;
      }
      KeepsRowsExactly(st, c.batch, c.answers);
      if StuckRefused(stuck, calls) {
        BlockedBatch(st, c.batch, c.answers);
      }
      assert forall k :: 0 <= k < |calls| - 1 ==> calls[1..][k] == calls[k + 1];
      StuckDocumentsStopPurge(
        Purge(st, c.batch, c.answers).0, batchSize, stuck, first, calls[1..], c.now, horizon);
    }
  }

  /** The row deletes of these documents throw in every call. */
  ghost predicate AlwaysThrow(bad: set<nat>, calls: seq<Call>) {
    forall k, i :: 0 <= k < |calls| && 0 <= i < |calls[k].batch| && i < |calls[k].answers| ==>
      calls[k].batch[i] in bad ==> calls[k].answers[i].rowDeleteThrows
  }

  /** Some `bad` documents are expired at `now`, none of them is stuck, and they expire before all others that are not stuck. */
  predicate BadComeFirst(docs: map<nat, Document>, now: int, stuck: set<nat>, bad: set<nat>) {
    bad != {} && bad !! stuck
    && (forall id :: id in bad ==> id in docs && Expired(docs[id], now))
    && (forall id, other :: id in bad && other in docs && other !in bad && other !in stuck
                            && docs[other].retentionUntil.Some? ==>
          Until(docs[id]) < Until(docs[other]))
  }

  /** Then in every batch, from `now` on, a document that is neither comes after one of them. */
  lemma BadBeforeOthers(
    docs: map<nat, Document>, since: int, now: int, batchSize: nat, stuck: set<nat>, bad: set<nat>, batch: seq<nat>,
    k: nat) returns (j: nat)
    requires BadComeFirst(docs, since, stuck, bad) && since <= now
    requires IsBatch(docs, now, batchSize, batch) && k < |batch| && batch[k] !in stuck
    ensures j <= k && batch[j] in bad
  {
    if batch[k] in bad {
      j := k;
    } else {
      var t :| t in bad;
      assert Expired(docs[t], now) && Until(docs[t]) < Until(docs[batch[k]]);
      assert t in batch;
      j :| 0 <= j < |batch| && batch[j] == t;
      assert j < k;
    }
  }

  lemma BadCallKeepsRows(
    st: Store, batchSize: nat, stuck: set<nat>, bad: set<nat>, since: int, c: Call)
    requires StuckInS3(st.docs, stuck) && BadComeFirst(st.docs, since, stuck, bad) && since <= c.now
    requires GoodCall(st, batchSize, stuck, c) && StuckFail(stuck, [c]) && AlwaysThrow(bad, [c])
    ensures Purge(st, c.batch, c.answers).0.docs == st.docs
  {
    assert [c][0] == c;
    KeepsRowsExactly(st, c.batch, c.answers);
    forall k | 0 <= k < |c.batch| && RowGoes(st.docs[c.batch[k]], c.answers[k].blob)
      ensures StopsBefore(st.docs, c.batch, c.answers, k + 1)
    {
      var j := BadBeforeOthers(st.docs, since, c.now, batchSize, stuck, bad, c.batch, k);
      assert RowThrows(st.docs, c.batch, c.answers, j);
    }
  }

  /**
   If documents whose row deletes keep throwing expire before all others that are not stuck, no
   sequence of calls ever removes a row, whatever batchSize is.
   */
  lemma {:induction false} ThrowingDocumentsStopPurge(
    st: Store, batchSize: nat, stuck: set<nat>, bad: set<nat>, calls: seq<Call>, since: int, horizon: int)
    requires StuckInS3(st.docs, stuck) && BadComeFirst(st.docs, since, stuck, bad)
    requires GoodCalls(st, batchSize, stuck, calls, since, horizon)
    requires StuckFail(stuck, calls) && AlwaysThrow(bad, calls)
    ensures AfterCalls(st, batchSize, stuck, calls, since, horizon).docs == st.docs
    decreases calls
  {
    if calls != [] {
      var c := calls[0];
      assert [c][0] == c;
      assert StuckFail(stuck, [c]) && AlwaysThrow(bad, [c]);
      assert forall k :: 0 <= k < |calls| - 1 ==> calls[1..][k] == calls[k + 1];
      BadCallKeepsRows(st, batchSize, stuck, bad, since, c);
      ThrowingDocumentsStopPurge(
        Purge(st, c.batch, c.answers).0, batchSize, stuck, bad, calls[1..], c.now, horizon);
    }
  }

  // ---------------------------------------------------------------- how many failing documents are too many

  /** Every batch, of any table with `k` stuck documents and some work, contains some of that work. */
  ghost predicate AlwaysReachesWork(batchSize: nat, k: nat) {
    forall docs: map<nat, Document>, now: int, stuck: set<nat>, batch: seq<nat> ::
      |stuck| == k && IsBatch(docs, now, batchSize, batch) && Work(docs, now, stuck) != {} ==>
        Reaches(docs, now, stuck, batch)
  }

  /**
   As many calls as there is work remove, from any store with `k` stuck documents and `b` whose row
   deletes may throw, all others that were due at the first call.
   */
  ghost predicate AlwaysDrains(batchSize: nat, k: nat, b: nat) {
    forall st: Store, stuck: set<nat>, bad: set<nat>, calls: seq<Call>, since: int, horizon: int ::
      |stuck| == k && |bad| == b && since <= horizon
      && GoodCalls(st, batchSize, stuck, calls, since, horizon) && ThrowsOnly(bad, calls)
      && |calls| >= |Work(st.docs, horizon, stuck)| ==>
        Work(AfterCalls(st, batchSize, stuck, calls, since, horizon).docs, since, stuck + bad) == {}
  }

  /** The `n` ids from `from` on. */
  lemma {:induction false} Ids(from: nat, n: nat) returns (ids: set<nat>)
    ensures |ids| == n && forall id :: id in ids <==> from <= id < from + n
    decreases n
  {
    if n == 0 {
      ids := {};
    } else {
      var front := Ids(from, n - 1);
      ids := front + {from + n - 1};
    }
  }

  function FailingDocument(k: nat, b: nat, id: nat): Document {
    Document(seq(id, _ => 'a'), if id < k then S3 else LOCAL, true, Some(if id < k then 0 else if id < k + b then 1 else 2))
  }

  ghost predicate IsFailingTable(st: Store, stuck: set<nat>, bad: set<nat>, k: nat, b: nat) {
    |stuck| == k && (forall id :: id in stuck <==> 0 <= id < k)
    && |bad| == b && (forall id :: id in bad <==> k <= id < k + b)
    && (forall id :: id in st.docs <==> 0 <= id <= k + b)
    && (forall id :: id in st.docs ==> IsFailingDocument(st.docs[id], k, b, id))
  }

  /** The documents of the failing tables: `k` stuck ones expire first, then `b` that throw, then one more. */
  ghost predicate IsFailingDocument(d: Document, k: nat, b: nat, id: nat) {
    |d.storageKey| == id && (d.storage == S3 <==> id < k)
    && Until(d) == (if id < k then 0 else if id < k + b then 1 else 2)
    && forall now :: now >= 2 ==> Expired(d, now)
  }

  /** There is such a table. */
  lemma FailingTable(k: nat, b: nat) returns (st: Store, stuck: set<nat>, bad: set<nat>)
    ensures IsFailingTable(st, stuck, bad, k, b)
  {
    stuck := Ids(0, k);
    bad := Ids(k, b);
    st := Store(map id: nat | 0 <= id <= k + b :: FailingDocument(k, b, id), {});
    forall id | id in st.docs ensures IsFailingDocument(st.docs[id], k, b, id) {
      FailingDocumentIs(k, b, id);
    }
    hide FailingDocument, IsFailingDocument;
  }

  lemma FailingDocumentIs(k: nat, b: nat, id: nat)
    ensures IsFailingDocument(FailingDocument(k, b, id), k, b, id)
  {
  }

  /** No sequence of calls removes a row from it, while stuck and throwing documents fail. */
  lemma FailingTableStops(batchSize: nat, k: nat, b: nat) returns (st: Store, stuck: set<nat>, bad: set<nat>)
    requires k >= batchSize || b > 0
    ensures |stuck| == k && |bad| == b && StuckInS3(st.docs, stuck)
    ensures Work(st.docs, 2, stuck) == bad + {k + b} && k + b !in bad && |Ahead(st.docs, 2, stuck)| >= k
    ensures k >= batchSize || exists x :: x in bad && MayGoFirst(st.docs, 2, batchSize, stuck, x)
    ensures forall calls, since, horizon ::
              since >= 2 && GoodCalls(st, batchSize, stuck, calls, since, horizon)
              && StuckFail(stuck, calls) && AlwaysThrow(bad, calls) ==>
                AfterCalls(st, batchSize, stuck, calls, since, horizon).docs == st.docs
  {
    st, stuck, bad := FailingTable(k, b);
    FailingTableDue(batchSize, st, stuck, bad, k, b);
    forall calls, since, horizon |
      since >= 2 && GoodCalls(st, batchSize, stuck, calls, since, horizon)
      && StuckFail(stuck, calls) && AlwaysThrow(bad, calls)
      ensures AfterCalls(st, batchSize, stuck, calls, since, horizon).docs == st.docs
    {
      FailingTableKeepsRows(batchSize, st, stuck, bad, k, b, calls, since, horizon);
    }
  }

  lemma FailingTableDue(batchSize: nat, st: Store, stuck: set<nat>, bad: set<nat>, k: nat, b: nat)
    requires IsFailingTable(st, stuck, bad, k, b) && (k >= batchSize || b > 0)
    ensures StuckInS3(st.docs, stuck)
    ensures Work(st.docs, 2, stuck) == bad + {k + b} && k + b !in bad && |Ahead(st.docs, 2, stuck)| >= k
    ensures k >= batchSize || exists x :: x in bad && MayGoFirst(st.docs, 2, batchSize, stuck, x)
  {
    hide Expired, Until;
    FailingTableWork(st, stuck, bad, k, b);
    FailingTableAhead(st, stuck, bad, k, b);
    if k < batchSize {
      FailingTableFirst(batchSize, st, stuck, bad, k, b);
    }
  }

  lemma FailingTableWork(st: Store, stuck: set<nat>, bad: set<nat>, k: nat, b: nat)
    requires IsFailingTable(st, stuck, bad, k, b)
    ensures Work(st.docs, 2, stuck) == bad + {k + b}
  {
    hide Expired, Until;
    forall id: nat ensures id in Work(st.docs, 2, stuck) <==> id in bad + {k + b} {
      assert id in st.docs ==> Expired(st.docs[id], 2);
    }
  }

  lemma FailingTableAhead(st: Store, stuck: set<nat>, bad: set<nat>, k: nat, b: nat)
    requires IsFailingTable(st, stuck, bad, k, b)
    ensures |Ahead(st.docs, 2, stuck)| >= k
  {
    hide Expired, Until;
    forall id | id in stuck ensures id in Ahead(st.docs, 2, stuck) {
      assert id in st.docs && Expired(st.docs[id], 2);
    }
    SubsetCount(stuck, Ahead(st.docs, 2, stuck));
  }

  lemma FailingTableFirst(batchSize: nat, st: Store, stuck: set<nat>, bad: set<nat>, k: nat, b: nat)
    requires IsFailingTable(st, stuck, bad, k, b) && k < batchSize && b > 0
    ensures k in bad && MayGoFirst(st.docs, 2, batchSize, stuck, k)
  {
    hide Expired, Until;
    forall id | id in Before(st.docs, 2, k) ensures id in stuck {
      assert IsFailingDocument(st.docs[id], k, b, id);
    }
    SubsetCount(Before(st.docs, 2, k), stuck);
  }

  lemma FailingTableKeepsRows(
    batchSize: nat, st: Store, stuck: set<nat>, bad: set<nat>, k: nat, b: nat,
    calls: seq<Call>, since: int, horizon: int)
    requires IsFailingTable(st, stuck, bad, k, b) && (k >= batchSize || b > 0) && since >= 2
    requires GoodCalls(st, batchSize, stuck, calls, since, horizon)
    requires StuckFail(stuck, calls) && AlwaysThrow(bad, calls)
    ensures AfterCalls(st, batchSize, stuck, calls, since, horizon).docs == st.docs
  {
    FailingTableIsStopped(st, stuck, bad, k, b, since);
    hide GoodCalls, AfterCalls, StuckFail, AlwaysThrow, IsFailingTable, BadComeFirst, StuckInS3;
    if k >= batchSize {
      assert StuckComeFirst(st.docs, since, batchSize, stuck, stuck);
      StuckDocumentsStopPurge(st, batchSize, stuck, stuck, calls, since, horizon);
    } else {
      ThrowingDocumentsStopPurge(st, batchSize, stuck, bad, calls, since, horizon);
    }
  }

  lemma FailingTableIsStopped(st: Store, stuck: set<nat>, bad: set<nat>, k: nat, b: nat, since: int)
    requires IsFailingTable(st, stuck, bad, k, b) && since >= 2
    ensures StuckInS3(st.docs, stuck) && StuckComeFirst(st.docs, since, k, stuck, stuck)
    ensures b > 0 ==> BadComeFirst(st.docs, since, stuck, bad)
  {
    assert b > 0 ==> k in bad;
  }

  /**
   Fewer than batchSize stuck documents, and only so many, leave every batch with some work; and all
   other documents drain exactly if moreover no row delete may throw.
   */
  lemma ProgressExactly(batchSize: nat, k: nat, b: nat)
    ensures AlwaysReachesWork(batchSize, k) <==> k < batchSize
    ensures AlwaysDrains(batchSize, k, b) <==> k < batchSize && b == 0
  {
    if k < batchSize {
      SlackReaches(batchSize, k);
    } else {
      FullBatchMisses(batchSize, k);
    }
    if k < batchSize && b == 0 {
      SlackDrains(batchSize, k);
    } else {
      FailuresStay(batchSize, k, b);
    }
  }

  lemma FullBatchMisses(batchSize: nat, k: nat)
    requires k >= batchSize
    ensures !AlwaysReachesWork(batchSize, k)
  {
    var st, stuck, bad := FailingTableStops(batchSize, k, 0);
    BatchReachesExactly(st.docs, 2, batchSize, stuck);
  }

  lemma FailuresStay(batchSize: nat, k: nat, b: nat)
    requires k >= batchSize || b > 0
    ensures !AlwaysDrains(batchSize, k, b)
  {
    var st, stuck, bad := FailingTableStops(batchSize, k, b);
    var n := |Work(st.docs, 2, stuck)|;
    StallsExactly(st, batchSize, stuck, bad, 2);
    assert Stalls(st, batchSize, stuck, bad, 2, n);
    hide GoodCalls, AfterCalls, ThrowsOnly, MayStall, Ahead, MayGoFirst;
    var calls: seq<Call> :| |calls| == n && GoodCalls(st, batchSize, stuck, calls, 2, 2)
                            && ThrowsOnly(bad, calls) && AfterCalls(st, batchSize, stuck, calls, 2, 2).docs == st.docs;
    assert k + b in Work(st.docs, 2, stuck + bad);
  }

  lemma SlackReaches(batchSize: nat, k: nat)
    requires k < batchSize
    ensures AlwaysReachesWork(batchSize, k)
  {
    forall docs: map<nat, Document>, now: int, stuck: set<nat>, batch: seq<nat> |
      |stuck| == k && IsBatch(docs, now, batchSize, batch) && Work(docs, now, stuck) != {}
      ensures Reaches(docs, now, stuck, batch)
    {
      SubsetCount(Ahead(docs, now, stuck), stuck);
      BatchReachesExactly(docs, now, batchSize, stuck);
    }
  }

  lemma SlackDrains(batchSize: nat, k: nat)
    requires k < batchSize
    ensures AlwaysDrains(batchSize, k, 0)
  {
    hide GoodCalls, AfterCalls, Work, ThrowsOnly;
    forall st: Store, stuck: set<nat>, bad: set<nat>, calls: seq<Call>, since: int, horizon: int |
      |stuck| == k && |bad| == 0 && since <= horizon
      && GoodCalls(st, batchSize, stuck, calls, since, horizon) && ThrowsOnly(bad, calls)
      && |calls| >= |Work(st.docs, horizon, stuck)|
      ensures Work(AfterCalls(st, batchSize, stuck, calls, since, horizon).docs, since, stuck + bad) == {}
    {
      assert bad == {} && stuck + bad == stuck;
      AsManyCallsAsWork(st, batchSize, stuck, calls, since, horizon);
    }
  }
}
