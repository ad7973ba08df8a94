/**
 The retention purge: a batch of expired documents, oldest first, each losing its blob and then its
 row.  A failed S3 delete keeps the row for a later batch; a failed local delete does not.
 */
module Retention {
  import opened Wrappers

  datatype Storage = LOCAL | S3

  datatype Document = Document(storageKey: string, storage: Storage, uploadCompleted: bool, retentionUntil: Option<int>)

  /** Documents by id, and the keys of the blobs that exist. */
  datatype Store = Store(docs: map<nat, Document>, blobs: set<string>)

  /** Deleting a blob succeeds, or throws with the blob kept or already gone. */
  datatype BlobAnswer = Deleted | Refused(message: string) | DeletedButFailed(message: string)

  /** What the environment answers for one document of a batch. */
  datatype Answer = Answer(blob: BlobAnswer, rowDeleteThrows: bool)

  predicate Expired(d: Document, now: int) {
    d.retentionUntil.Some? && d.retentionUntil.value <= now && (d.storage == LOCAL || d.uploadCompleted)
  }

  function Until(d: Document): int {
    if d.retentionUntil.Some? then d.retentionUntil.value else 0
  }

  predicate Distinct(batch: seq<nat>) {
    forall i, j :: 0 <= i < j < |batch| ==> batch[i] != batch[j]
  }

  predicate AllIn(batch: seq<nat>, docs: map<nat, Document>) {
    forall i :: 0 <= i < |batch| ==> batch[i] in docs
  }

  /** The answers that the query for a batch may give; ties are the database's choice. */
  ghost predicate IsBatch(docs: map<nat, Document>, now: int, batchSize: nat, batch: seq<nat>) {
    && |batch| <= batchSize
    && (forall i :: 0 <= i < |batch| ==> batch[i] in docs && Expired(docs[batch[i]], now))
    && (forall i, j :: 0 <= i < j < |batch| ==>
          batch[i] != batch[j] && Until(docs[batch[i]]) <= Until(docs[batch[j]]))
    && (forall id :: id in docs && Expired(docs[id], now) && id !in batch ==>
          |batch| == batchSize && forall i :: 0 <= i < |batch| ==> Until(docs[batch[i]]) <= Until(docs[id]))
  }

  function BlobsAfter(blobs: set<string>, key: string, a: BlobAnswer): set<string> {
    if a.Refused? then blobs else blobs - {key}
  }

  /** Whether the row goes once the blob has been dealt with. */
  predicate RowGoes(d: Document, a: BlobAnswer) {
    a.Deleted? || d.storage == LOCAL
  }

  /** One call, over the batch the query returned; an error is an exception of a row delete. */
  function Purge(st: Store, batch: seq<nat>, answers: seq<Answer>): (Store, Result<nat, ()>)
    requires |batch| == |answers| && Distinct(batch) && AllIn(batch, st.docs)
    decreases |batch|
  {
    if batch == [] then (st, Ok(0))
    else
      var id, d, a := batch[0], st.docs[batch[0]], answers[0];
      var st1 := st.(blobs := BlobsAfter(st.blobs, d.storageKey, a.blob));
      if !RowGoes(d, a.blob) then Purge(st1, batch[1..], answers[1..])
      else if a.rowDeleteThrows then (st1, Err(()))
      else
        var (st2, r) := Purge(st1.(docs := st1.docs - {id}), batch[1..], answers[1..]);
        (st2, if r.Ok? then Ok(r.value + 1) else r)
  }

  lemma RestOfBatch(batch: seq<nat>, docs: map<nat, Document>)
    requires Distinct(batch) && AllIn(batch, docs) && batch != []
    ensures batch[0] in docs && Distinct(batch[1..])
    ensures AllIn(batch[1..], docs) && AllIn(batch[1..], docs - {batch[0]})
  {
  }

  /** One step of a call. */
  lemma PurgeNext(st: Store, batch: seq<nat>, answers: seq<Answer>)
    requires |batch| == |answers| && Distinct(batch) && AllIn(batch, st.docs) && batch != []
    requires batch[0] in st.docs
    requires Distinct(batch[1..]) && AllIn(batch[1..], st.docs) && AllIn(batch[1..], st.docs - {batch[0]})
    ensures var d, a := st.docs[batch[0]], answers[0];
            var blobs := BlobsAfter(st.blobs, d.storageKey, a.blob);
            Purge(st, batch, answers)
            == if !a.blob.Deleted? && d.storage == S3 then
                 Purge(Store(st.docs, blobs), batch[1..], answers[1..])
               else if a.rowDeleteThrows then
                 (Store(st.docs, blobs), Err(()))
               else
                 var (after, r) := Purge(Store(st.docs - {batch[0]}, blobs), batch[1..], answers[1..]);
                 (after, if r.Ok? then Ok(r.value + 1) else r)
  {
    hide Distinct, AllIn, BlobsAfter;
  }

  lemma Tail<T>(s: seq<T>, i: nat)
    requires i < |s|
    ensures s[i..] != [] && s[i..][0] == s[i] && s[i..][1..] == s[i + 1..]
  {
  }

  /** With `deleted` rows gone before document `i`, the rest of the batch still leads to `goal`. */
  ghost predicate LeadsTo(
    st: Store, batch: seq<nat>, answers: seq<Answer>, i: nat, deleted: nat, goal: (Store, Result<nat, ()>))
    requires i <= |batch| == |answers|
  {
    Distinct(batch[i..]) && AllIn(batch[i..], st.docs)
    && var (after, r) := Purge(st, batch[i..], answers[i..]);
       (after, if r.Ok? then Ok(deleted + r.value) else r) == goal
  }

  lemma LeadsToNext(
    st: Store, batch: seq<nat>, answers: seq<Answer>, i: nat, deleted: nat, goal: (Store, Result<nat, ()>))
    requires i < |batch| == |answers| && LeadsTo(st, batch, answers, i, deleted, goal)
    ensures batch[i] in st.docs
    ensures var d, a := st.docs[batch[i]], answers[i];
            var blobs := BlobsAfter(st.blobs, d.storageKey, a.blob);
            if !a.blob.Deleted? && d.storage == S3 then
              LeadsTo(Store(st.docs, blobs), batch, answers, i + 1, deleted, goal)
            else if a.rowDeleteThrows then
              goal == (Store(st.docs, blobs), Err(()))
            else
              LeadsTo(Store(st.docs - {batch[i]}, blobs), batch, answers, i + 1, deleted + 1, goal)
  {
    Tail(batch, i);
    Tail(answers, i);
    RestOfBatch(batch[i..], st.docs);
    PurgeNext(st, batch[i..], answers[i..]);
    hide Purge, Distinct, AllIn, BlobsAfter;
  }

  lemma LeadsToEnds(
    st: Store, batch: seq<nat>, answers: seq<Answer>, deleted: nat, goal: (Store, Result<nat, ()>))
    requires |batch| == |answers|
    ensures Distinct(batch) && AllIn(batch, st.docs) ==> LeadsTo(st, batch, answers, 0, 0, Purge(st, batch, answers))
    ensures LeadsTo(st, batch, answers, |batch|, deleted, goal) ==> goal == (st, Ok(deleted))
  {
    assert batch[0..] == batch && answers[0..] == answers;
  }

  // ---------------------------------------------------------------- the program

  class Janitor {
    var docs: map<nat, Document>
    var blobs: set<string>
    var sessionRetentionPurged: nat

    ghost function View(): Store
      reads this
    {
      Store(docs, blobs)
    }

    /** `deleteBlob`; `failed` stands for an exception. */
    method DeleteBlob(key: string, answer: BlobAnswer) returns (failed: bool)
      modifies this`blobs
      ensures failed <==> !answer.Deleted?
      ensures blobs == BlobsAfter(old(blobs), key, answer)
      ensures forall other :: other in blobs <==> other in old(blobs) && (other == key ==> answer.Refused?)
    {
      if !answer.Refused? {
        blobs := blobs - {key};
      }
      failed := !answer.Deleted?;
    }

    /** `purgeExpiredCustomerDocuments`; `rows` is what the query returned. */
    method PurgeExpired(batchSize: nat, now: int, rows: seq<nat>, answers: seq<Answer>)
      returns (r: Result<nat, ()>)
      requires IsBatch(docs, now, batchSize, rows) && |answers| == |rows|
      modifies this`docs, this`blobs
      ensures (View(), r) == if batchSize < 1 then (old(View()), Ok(0)) else Purge(old(View()), rows, answers)
      ensures AllIn(rows, old(docs))
      ensures forall key :: KeyOutside(old(docs), rows, key) ==> (key in blobs <==> key in old(blobs))
      ensures UniqueKeys(old(docs)) && batchSize >= 1 ==>
                forall k :: 0 <= k < |rows| ==>
                  var key := old(docs)[rows[k]].storageKey;
                  key in blobs <==>
                  key in old(blobs) && (answers[k].blob.Refused? || StopsBefore(old(docs), rows, answers, k))
    {
      BlobsOfCall(View(), now, batchSize, rows, answers);
      if batchSize < 1 {
        return Ok(0);
      }
      ghost var goal := Purge(View(), rows, answers);
      LeadsToEnds(View(), rows, answers, 0, goal);
      hide IsBatch, Purge, BlobsAfter, Distinct, AllIn, LeadsTo, KeyOutside, UniqueKeys, StopsBefore;
      var deleted := 0;
      for i := 0 to |rows|
        invariant LeadsTo(View(), rows, answers, i, deleted, goal)
      {
        LeadsToNext(View(), rows, answers, i, deleted, goal);
        var row := docs[rows[i]];
        var failed := DeleteBlob(row.storageKey, answers[i].blob);
        if failed && row.storage == S3 {
          continue;
        }
        if answers[i].rowDeleteThrows {
          return Err(());
        }
        docs := docs - {rows[i]};
        deleted := deleted + 1;
      }
      LeadsToEnds(View(), rows, answers, deleted, goal);
      return Ok(deleted);
    }

    /** `purgeRetentionOnce`: adds what a call returns to the session total, and survives its exceptions. */
    method PurgeOnce(batchSize: nat, now: int, rows: seq<nat>, answers: seq<Answer>)
      requires IsBatch(docs, now, batchSize, rows) && |answers| == |rows|
      modifies this
      ensures View() == if batchSize < 1 then old(View()) else Purge(old(View()), rows, answers).0
      ensures sessionRetentionPurged - old(sessionRetentionPurged) <= |old(docs)| - |docs|
      ensures sessionRetentionPurged - old(sessionRetentionPurged) == |old(docs)| - |docs| <==>
              batchSize < 1 || ReportsAll(old(docs), rows, answers)
      ensures sessionRetentionPurged
              == old(sessionRetentionPurged)
                 + (if batchSize < 1 then 0 else Reported(Purge(old(View()), rows, answers).1))
    {
      if batchSize < 1 {
        return;
      }
      ReportsExactly(View(), rows, answers);
      var n := PurgeExpired(batchSize, now, rows, answers);
      if n.Ok? && n.value > 0 {
        sessionRetentionPurged := sessionRetentionPurged + n.value;
      }
    }
  }

  // ---------------------------------------------------------------- one call

  /** A call that returns reports the rows it removed; it throws exactly if the delete of a row that is to go throws. */
  lemma {:induction false} PurgeCounts(st: Store, batch: seq<nat>, answers: seq<Answer>)
    requires |batch| == |answers| && Distinct(batch) && AllIn(batch, st.docs)
    ensures var (after, r) := Purge(st, batch, answers);
            |after.docs| <= |st.docs| && (r.Ok? ==> r.value == |st.docs| - |after.docs|)
            && (r.Err? <==> StopsBefore(st.docs, batch, answers, |batch|))
    decreases |batch|
  {
    if batch != [] {
      var id, d, a := batch[0], st.docs[batch[0]], answers[0];
      var st1 := st.(blobs := BlobsAfter(st.blobs, d.storageKey, a.blob));
      var st2 := if RowGoes(d, a.blob) then st1.(docs := st.docs - {id}) else st1;
      assert (st.docs - {id}).Keys == st.docs.Keys - {id};
      if !RowGoes(d, a.blob) || !a.rowDeleteThrows {
        PurgeCounts(st2, batch[1..], answers[1..]);
        RestStops(st.docs, st2.docs, batch, answers, |batch|);
      } else {
        assert RowThrows(st.docs, batch, answers, 0);
      }
    }
  }

  /** Document `i` of the batch is to lose its row, and the delete of the row throws. */
  predicate RowThrows(docs: map<nat, Document>, batch: seq<nat>, answers: seq<Answer>, i: nat)
    requires |batch| == |answers| && AllIn(batch, docs) && i < |batch|
  {
    RowGoes(docs[batch[i]], answers[i].blob) && answers[i].rowDeleteThrows
  }

  /** The call ends before it comes to document `k` of the batch. */
  predicate StopsBefore(docs: map<nat, Document>, batch: seq<nat>, answers: seq<Answer>, k: nat)
    requires |batch| == |answers| && AllIn(batch, docs) && k <= |batch|
  {
    exists i :: 0 <= i < k && RowThrows(docs, batch, answers, i)
  }

  lemma RestStops(docs: map<nat, Document>, rest: map<nat, Document>, batch: seq<nat>, answers: seq<Answer>, k: nat)
    requires |batch| == |answers| && AllIn(batch, docs) && Distinct(batch) && 1 <= k <= |batch|
    requires rest == docs || rest == docs - {batch[0]}
    requires !RowThrows(docs, batch, answers, 0)
    ensures AllIn(batch[1..], rest)
    ensures StopsBefore(docs, batch, answers, k) <==> StopsBefore(rest, batch[1..], answers[1..], k - 1)
  {
    assert forall i :: 0 <= i < |batch| - 1 ==> rest[batch[1..][i]] == docs[batch[i + 1]];
    if i :| 0 <= i < k && RowThrows(docs, batch, answers, i) {
      assert RowThrows(rest, batch[1..], answers[1..], i - 1);
    }
    if i :| 0 <= i < k - 1 && RowThrows(rest, batch[1..], answers[1..], i) {
      assert RowThrows(docs, batch, answers, i + 1);
    }
  }

  /** What a call adds to the session total: nothing when it throws. */
  function Reported(r: Result<nat, ()>): nat {
    if r.Ok? then r.value else 0
  }

  /** No row delete throws, or the first row that is to go is the one that throws. */
  ghost predicate ReportsAll(docs: map<nat, Document>, batch: seq<nat>, answers: seq<Answer>)
    requires |batch| == |answers| && AllIn(batch, docs)
  {
    (forall i :: 0 <= i < |batch| ==> !RowThrows(docs, batch, answers, i))
    || (exists i :: 0 <= i < |batch| && RowThrows(docs, batch, answers, i)
                    && forall j :: 0 <= j < i ==> !RowGoes(docs[batch[j]], answers[j].blob))
  }

  /** A call leaves every row in place exactly if no row is to go before the first one that throws. */
  lemma {:induction false} RemovesNothing(st: Store, batch: seq<nat>, answers: seq<Answer>)
    requires |batch| == |answers| && Distinct(batch) && AllIn(batch, st.docs)
    ensures Purge(st, batch, answers).1.Err? && |Purge(st, batch, answers).0.docs| == |st.docs| <==>
            exists i :: 0 <= i < |batch| && RowThrows(st.docs, batch, answers, i)
                        && forall j :: 0 <= j < i ==> !RowGoes(st.docs[batch[j]], answers[j].blob)
    decreases |batch|
  {
    if batch != [] {
      var id, d, a := batch[0], st.docs[batch[0]], answers[0];
      var st1 := st.(blobs := BlobsAfter(st.blobs, d.storageKey, a.blob));
      if !RowGoes(d, a.blob) {
        RemovesNothing(st1, batch[1..], answers[1..]);
        if i :| 0 <= i < |batch| - 1 && RowThrows(st.docs, batch[1..], answers[1..], i)
                && forall j :: 0 <= j < i ==> !RowGoes(st.docs[batch[1..][j]], answers[1..][j].blob) {
          assert RowThrows(st.docs, batch, answers, i + 1);
          assert forall j :: 1 <= j < i + 1 ==> batch[j] == batch[1..][j - 1] && answers[j] == answers[1..][j - 1];
        }
        if i :| 0 <= i < |batch| && RowThrows(st.docs, batch, answers, i)
                && forall j :: 0 <= j < i ==> !RowGoes(st.docs[batch[j]], answers[j].blob) {
          assert RowThrows(st.docs, batch[1..], answers[1..], i - 1);
        }
      } else if a.rowDeleteThrows {
        assert RowThrows(st.docs, batch, answers, 0);
      } else {
        PurgeCounts(st1.(docs := st.docs - {id}), batch[1..], answers[1..]);
        assert (st.docs - {id}).Keys == st.docs.Keys - {id};
      }
    }
  }

  /** The reported count is the number of rows removed exactly if `ReportsAll`, and is never more. */
  lemma ReportsExactly(st: Store, batch: seq<nat>, answers: seq<Answer>)
    requires |batch| == |answers| && Distinct(batch) && AllIn(batch, st.docs)
    ensures var (after, r) := Purge(st, batch, answers);
            (Reported(r) == |st.docs| - |after.docs| <==> ReportsAll(st.docs, batch, answers))
            && Reported(r) <= |st.docs| - |after.docs|
  {
    PurgeCounts(st, batch, answers);
    RemovesNothing(st, batch, answers);
  }

  /** Two local documents, and the delete of the second row throws: one row is gone and none is reported. */
  lemma UnreportedRow() returns (st: Store, answers: seq<Answer>)
    ensures IsBatch(st.docs, 0, 2, [0, 1]) && |answers| == 2
    ensures var (after, r) := Purge(st, [0, 1], answers);
            Reported(r) == 0 && |st.docs| == 2 && |after.docs| == 1
  {
    var d, e := Document("a", LOCAL, true, Some(0)), Document("b", LOCAL, true, Some(0));
    st := Store(map[0 := d, 1 := e], {"a", "b"});
    answers := [Answer(Deleted, false), Answer(Deleted, true)];
    assert [0, 1][1..] == [1] && answers[1..] == [Answer(Deleted, true)];
    assert st.docs - {0} == map[1 := e];
    assert st.docs.Keys == {0, 1};
  }

  /** Rows that remain are unchanged, rows that go were in the batch, and blobs only disappear. */
  lemma {:induction false} PurgeFrame(st: Store, batch: seq<nat>, answers: seq<Answer>)
    requires |batch| == |answers| && Distinct(batch) && AllIn(batch, st.docs)
    ensures var after := Purge(st, batch, answers).0;
            after.docs.Keys <= st.docs.Keys && after.blobs <= st.blobs
            && (forall id :: id in after.docs ==> after.docs[id] == st.docs[id])
            && (forall id :: id in st.docs && id !in batch ==> id in after.docs)
    decreases |batch|
  {
    if batch != [] {
      var id, d, a := batch[0], st.docs[batch[0]], answers[0];
      var st1 := st.(blobs := BlobsAfter(st.blobs, d.storageKey, a.blob));
      if !RowGoes(d, a.blob) {
        PurgeFrame(st1, batch[1..], answers[1..]);
      } else if !a.rowDeleteThrows {
        PurgeFrame(st1.(docs := st.docs - {id}), batch[1..], answers[1..]);
      }
    }
  }

  /**
   The fate of each document of a batch: its row goes exactly if it is to go and no row delete up to
   its own throws, and its blob goes if the call comes to it and the blob delete is not refused.
   */
  lemma {:induction false} PurgeFate(st: Store, batch: seq<nat>, answers: seq<Answer>, k: nat)
    requires |batch| == |answers| && Distinct(batch) && AllIn(batch, st.docs)
    requires k < |batch|
    ensures var after := Purge(st, batch, answers).0; var d := st.docs[batch[k]];
            (batch[k] !in after.docs <==>
               (answers[k].blob.Deleted? || d.storage == LOCAL) && !StopsBefore(st.docs, batch, answers, k + 1))
            && (!answers[k].blob.Refused? && !StopsBefore(st.docs, batch, answers, k) ==> d.storageKey !in after.blobs)
    decreases |batch|
  {
    var id, d, a := batch[0], st.docs[batch[0]], answers[0];
    var st1 := st.(blobs := BlobsAfter(st.blobs, d.storageKey, a.blob));
    var st2 := if RowGoes(d, a.blob) then st1.(docs := st1.docs - {id}) else st1;
    if RowThrows(st.docs, batch, answers, 0) {
      assert StopsBefore(st.docs, batch, answers, k + 1);
    } else {
      RestStops(st.docs, st2.docs, batch, answers, k + 1);
      if k == 0 {
        PurgeFrame(st2, batch[1..], answers[1..]);
        assert id !in batch[1..];
      } else {
        RestStops(st.docs, st2.docs, batch, answers, k);
        PurgeFate(st2, batch[1..], answers[1..], k - 1);
      }
    }
  }

  /** A call leaves all rows exactly if a throwing row delete comes no later than every row that is to go. */
  lemma KeepsRowsExactly(st: Store, batch: seq<nat>, answers: seq<Answer>)
    requires |batch| == |answers| && Distinct(batch) && AllIn(batch, st.docs)
    ensures Purge(st, batch, answers).0.docs == st.docs <==>
            forall k :: 0 <= k < |batch| && RowGoes(st.docs[batch[k]], answers[k].blob) ==>
              StopsBefore(st.docs, batch, answers, k + 1)
  {
    var docs' := Purge(st, batch, answers).0.docs;
    PurgeFrame(st, batch, answers);
    forall k | 0 <= k < |batch|
      ensures batch[k] !in docs' <==>
              RowGoes(st.docs[batch[k]], answers[k].blob) && !StopsBefore(st.docs, batch, answers, k + 1)
    {
      PurgeFate(st, batch, answers, k);
    }
    hide Purge, RowGoes, StopsBefore;
    if forall k :: 0 <= k < |batch| ==> batch[k] in docs' {
      assert docs'.Keys == st.docs.Keys;
    } else {
      var k :| 0 <= k < |batch| && batch[k] !in docs';
      assert docs' != st.docs;
    }
  }

  /** An S3 row goes only when its blob is gone, whatever else happens in the call. */
  lemma {:induction false} S3RowGoesAfterBlob(st: Store, batch: seq<nat>, answers: seq<Answer>, id: nat)
    requires |batch| == |answers| && Distinct(batch) && AllIn(batch, st.docs)
    requires id in st.docs && st.docs[id].storage == S3
    ensures var after := Purge(st, batch, answers).0;
            id !in after.docs ==> st.docs[id].storageKey !in after.blobs
    decreases |batch|
  {
    if batch != [] {
      var d, a := st.docs[batch[0]], answers[0];
      var st1 := st.(blobs := BlobsAfter(st.blobs, d.storageKey, a.blob));
      if !RowGoes(d, a.blob) {
        S3RowGoesAfterBlob(st1, batch[1..], answers[1..], id);
      } else if !a.rowDeleteThrows {
        var st2 := st1.(docs := st1.docs - {batch[0]});
        if id == batch[0] {
          PurgeFrame(st2, batch[1..], answers[1..]);
        } else {
          S3RowGoesAfterBlob(st2, batch[1..], answers[1..], id);
        }
      }
    }
  }

  /** The key is that of no document of the batch. */
  predicate KeyOutside(docs: map<nat, Document>, batch: seq<nat>, key: string)
    requires AllIn(batch, docs)
  {
    forall i :: 0 <= i < |batch| ==> docs[batch[i]].storageKey != key
  }

  /** `storageKey` is unique. */
  predicate UniqueKeys(docs: map<nat, Document>) {
    forall id, other :: id in docs && other in docs && docs[id].storageKey == docs[other].storageKey ==> id == other
  }

  /** Blobs that belong to no document of the batch stay, and none appears. */
  lemma {:induction false} OtherBlobsStay(st: Store, batch: seq<nat>, answers: seq<Answer>, key: string)
    requires |batch| == |answers| && Distinct(batch) && AllIn(batch, st.docs) && KeyOutside(st.docs, batch, key)
    ensures key in Purge(st, batch, answers).0.blobs <==> key in st.blobs
    decreases |batch|
  {
    if batch != [] {
      var id, d, a := batch[0], st.docs[batch[0]], answers[0];
      assert d.storageKey != key;
      var st1 := st.(blobs := BlobsAfter(st.blobs, d.storageKey, a.blob));
      var st2 := if RowGoes(d, a.blob) then st1.(docs := st1.docs - {id}) else st1;
      if !RowThrows(st.docs, batch, answers, 0) {
        RestOfBatch(batch, st.docs);
        assert KeyOutside(st2.docs, batch[1..], key) by {
          forall i | 0 <= i < |batch| - 1 ensures st2.docs[batch[1..][i]].storageKey != key {
            assert batch[1..][i] == batch[i + 1] && st2.docs[batch[i + 1]] == st.docs[batch[i + 1]];
          }
        }
        OtherBlobsStay(st2, batch[1..], answers[1..], key);
      }
    }
  }

  /** With unique keys, the blob of a document of the batch goes exactly if the call comes to it and its delete is not refused. */
  lemma {:induction false} BlobFate(st: Store, batch: seq<nat>, answers: seq<Answer>, k: nat)
    requires |batch| == |answers| && Distinct(batch) && AllIn(batch, st.docs) && UniqueKeys(st.docs)
    requires k < |batch|
    ensures var key := st.docs[batch[k]].storageKey;
            key in Purge(st, batch, answers).0.blobs <==>
            key in st.blobs && (answers[k].blob.Refused? || StopsBefore(st.docs, batch, answers, k))
    decreases |batch|
  {
    var id, d, a := batch[0], st.docs[batch[0]], answers[0];
    var key := st.docs[batch[k]].storageKey;
    var st1 := st.(blobs := BlobsAfter(st.blobs, d.storageKey, a.blob));
    var st2 := if RowGoes(d, a.blob) then st1.(docs := st1.docs - {id}) else st1;
    RestOfBatch(batch, st.docs);
    if RowThrows(st.docs, batch, answers, 0) {
      assert k > 0 ==> StopsBefore(st.docs, batch, answers, k) && d.storageKey != key;
    } else if k == 0 {
      assert KeyOutside(st2.docs, batch[1..], key) by {
        forall i | 0 <= i < |batch| - 1 ensures st2.docs[batch[1..][i]].storageKey != key {
          assert batch[1..][i] == batch[i + 1] && st2.docs[batch[i + 1]] == st.docs[batch[i + 1]];
        }
      }
      OtherBlobsStay(st2, batch[1..], answers[1..], key);
    } else {
      assert d.storageKey != key;
      assert st2.docs[batch[1..][k - 1]] == st.docs[batch[k]];
      RestStops(st.docs, st2.docs, batch, answers, k);
      BlobFate(st2, batch[1..], answers[1..], k - 1);
    }
  }

  /** What a call does to the blobs. */
  lemma BlobsOfCall(st: Store, now: int, batchSize: nat, batch: seq<nat>, answers: seq<Answer>)
    requires IsBatch(st.docs, now, batchSize, batch) && |batch| == |answers|
    ensures Distinct(batch) && AllIn(batch, st.docs)
    ensures forall key :: KeyOutside(st.docs, batch, key) ==>
              (key in Purge(st, batch, answers).0.blobs <==> key in st.blobs)
    ensures UniqueKeys(st.docs) ==>
              forall k :: 0 <= k < |batch| ==>
                var key := st.docs[batch[k]].storageKey;
                key in Purge(st, batch, answers).0.blobs <==>
                key in st.blobs && (answers[k].blob.Refused? || StopsBefore(st.docs, batch, answers, k))
  {
    forall key | KeyOutside(st.docs, batch, key)
      ensures key in Purge(st, batch, answers).0.blobs <==> key in st.blobs
    {
      OtherBlobsStay(st, batch, answers, key);
    }
    if UniqueKeys(st.docs) {
      forall k | 0 <= k < |batch|
        ensures var key := st.docs[batch[k]].storageKey;
                key in Purge(st, batch, answers).0.blobs <==>
                key in st.blobs && (answers[k].blob.Refused? || StopsBefore(st.docs, batch, answers, k))
      {
        BlobFate(st, batch, answers, k);
      }
    }
  }

  /** A row that goes, whatever else happens in the call, was past its retention and uploaded if it is in S3. */
  lemma OnlyDueRowsGo(st: Store, now: int, batchSize: nat, batch: seq<nat>, answers: seq<Answer>, id: nat)
    requires IsBatch(st.docs, now, batchSize, batch) && |batch| == |answers|
    requires id in st.docs && id !in Purge(st, batch, answers).0.docs
    ensures st.docs[id].retentionUntil.Some? && st.docs[id].retentionUntil.value <= now
    ensures st.docs[id].storage == LOCAL || st.docs[id].uploadCompleted
  {
    PurgeFrame(st, batch, answers);
  }

  /** When nothing fails and the batch has room, exactly the due documents go. */
  lemma DueDocumentsGo(st: Store, now: int, batchSize: nat, batch: seq<nat>, answers: seq<Answer>, id: nat)
    requires IsBatch(st.docs, now, batchSize, batch) && |batch| == |answers| && |batch| < batchSize
    requires forall i :: 0 <= i < |answers| ==> answers[i].blob.Deleted? && !answers[i].rowDeleteThrows
    requires id in st.docs
    ensures id !in Purge(st, batch, answers).0.docs <==>
            match st.docs[id].retentionUntil
            case None => false
            case Some(until) => until <= now && (st.docs[id].storage == LOCAL || st.docs[id].uploadCompleted)
  {
    PurgeFrame(st, batch, answers);
    if k :| 0 <= k < |batch| && batch[k] == id {
      PurgeFate(st, batch, answers, k);
    }
  }

  /** No document outside the expired ones is touched. */
  lemma OnlyExpiredRowsGo(st: Store, now: int, batchSize: nat, batch: seq<nat>, answers: seq<Answer>, id: nat)
    requires IsBatch(st.docs, now, batchSize, batch) && |batch| == |answers|
    requires id in st.docs && !Expired(st.docs[id], now)
    ensures var after := Purge(st, batch, answers).0; id in after.docs && after.docs[id] == st.docs[id]
  {
    PurgeFrame(st, batch, answers);
  }
}
