/** The worker process: the table it works on, its session counters, and its methods. */
module CargosWorker {
  import opened Wrappers
  import opened Submissions
  import opened SingleWorker
  import opened Text
  import opened Decimals

  predicate Stale(row: Submission, deadline: int) {
    row.status == PROCESSING && row.updatedAt < deadline
  }

  /** Rows that the stale reset returns to PENDING. */
  function StaleCount(rows: seq<Submission>, deadline: int): nat {
    if rows == [] then 0
    else StaleCount(rows[..|rows| - 1], deadline) + (if Stale(rows[|rows| - 1], deadline) then 1 else 0)
  }

  /** Left in PROCESSING for more than a minute, and for more than `staleMs`. */
  predicate LeftBehind(row: Submission, staleMs: nat, now: int) {
    row.status == PROCESSING && row.updatedAt < now - 60_000 && row.updatedAt < now - staleMs
  }

  class Worker {
    const maxAttempts: nat
    var rows: seq<Submission>
    var wire: seq<Post>
    var sessionMockSent: nat
    var sessionSkipped: nat
    var sessionFailed: nat

    constructor (maxAttempts: nat, rows: seq<Submission>)
      ensures this.maxAttempts == maxAttempts
      ensures View() == Queue(rows, 0, 0, 0, [])
    {
      this.maxAttempts := maxAttempts;
      this.rows := rows;
      wire := [];
      sessionMockSent, sessionSkipped, sessionFailed := 0, 0, 0;
    }

    ghost function View(): Queue
      reads this
    {
      Queue(rows, sessionMockSent, sessionSkipped, sessionFailed, wire)
    }

    /** `updateMany` on the row if it is still pending: whether the claim was won. */
    method ClaimIfPending(id: nat, now: int) returns (won: bool)
      requires id < |rows|
      modifies this`rows
      ensures won <==> old(rows)[id].status == PENDING
      ensures rows == if won then old(rows)[id := Claimed(old(rows)[id], now)] else old(rows)
    {
      won := rows[id].status == PENDING;
      if won {
        rows := rows[id := rows[id].(status := PROCESSING, updatedAt := now)];
      }
    }

    method FailOrRequeue(id: nat, attemptCount: nat, errMsg: string, now: int)
      requires id < |rows|
      modifies this`rows, this`sessionFailed
      ensures rows == old(rows)[id := Submissions.FailOrRequeue(old(rows)[id], attemptCount, maxAttempts, errMsg, now)]
      ensures sessionFailed == old(sessionFailed) + (if rows[id].status == FAILED then 1 else 0)
    {
      var next := attemptCount + 1;
      if next >= maxAttempts {
        var msg := Head(errMsg, 2000);
        rows := rows[id := rows[id].(status := FAILED, errorMessage := Some(msg), processedAt := Some(now),
                                     attemptCount := next, updatedAt := now)];
        sessionFailed := sessionFailed + 1;
      } else {
        rows := rows[id := rows[id].(status := PENDING, errorMessage := Some(Head(errMsg, 2000)),
                                     attemptCount := next, updatedAt := now)];
      }
    }

    /** Writes a final status that is not the outcome of a counted attempt. */
    method Finish(id: nat, status: Status, errorMessage: Option<string>, now: int)
      requires id < |rows|
      modifies this`rows
      ensures rows == old(rows)[id := old(rows)[id].(status := status, errorMessage := errorMessage,
                                                     processedAt := Some(now), updatedAt := now)]
    {
      rows := rows[id := rows[id].(status := status, errorMessage := errorMessage, processedAt := Some(now),
                                   updatedAt := now)];
    }

    /** The HTTP branch, from the reservation lookup on. */
    method SendOverHttp(id: nat, attemptCount: nat, reservation: Lookup<()>, response: Response, now: int)
      requires id < |rows|
      modifies this
      ensures forall company: Company :: company.inScope && company.adapter == HTTP && HasUrl(company) ==>
                var row := Settled(old(rows)[id], Decide(Some(company), reservation, response),
                                   attemptCount, maxAttempts, now);
                rows == old(rows)[id := row]
                && sessionMockSent == old(sessionMockSent) + (if row.status == MOCK_SENT then 1 else 0)
                && sessionFailed == old(sessionFailed) + (if row.status == FAILED then 1 else 0)
      ensures sessionSkipped == old(sessionSkipped)
      ensures wire == old(wire) + (if reservation.Found? then [Post(id, response.Replied? && response.ok)] else [])
    {
      match reservation {
        case Failed(message) =>
          FailOrRequeue(id, attemptCount, message, now);
        case Missing =>
          Finish(id, FAILED, Some("Reservation not found"), now);
          sessionFailed := sessionFailed + 1;
        case Found(_) =>
          wire := wire + [Post(id, response.Replied? && response.ok)];
          match response {
            case NoReply(message) =>
              FailOrRequeue(id, attemptCount, message, now);
            case Replied(ok, status, body) =>
              if ok {
                Finish(id, MOCK_SENT, None, now);
                sessionMockSent := sessionMockSent + 1;
              } else {
                var text := if body.Some? then Head(body.value, 500) else "";
                FailOrRequeue(id, attemptCount, "HTTP " + IntText(status) + " " + text, now);
              }
          }
      }
    }

    /** The adapter branches, for a company that is in scope and not switched off. */
    method RunAdapter(id: nat, attemptCount: nat, company: Company, t: Turn)
      requires id < |rows| && company.inScope && company.adapter != OFF && t.company == Found(company)
      modifies this
      ensures View() == SettledQueue(old(View()), id, attemptCount, t, maxAttempts)
    {
      match company.adapter {
        case MOCK =>
          Finish(id, MOCK_SENT, None, t.settleAt);
          sessionMockSent := sessionMockSent + 1;
        case HTTP =>
          if HasUrl(company) {
            SendOverHttp(id, attemptCount, t.reservation, t.response, t.settleAt);
          } else {
            FailOrRequeue(id, attemptCount, "cargosHttpUrl not set for HTTP", t.settleAt);
          }
        case Other(name) =>
          Finish(id, FAILED, Some("Unknown adapter: " + name), t.settleAt);
          sessionFailed := sessionFailed + 1;
      }
    }

    /** One call of `processOne`. */
    method ProcessOne(t: Turn) returns (outcome: Outcome)
      requires OldestPending(rows, t.pick)
      modifies this
      ensures (View(), outcome) == TakeTurn(old(View()), t, maxAttempts)
    {
      if t.pick == None {
        return Idle;
      }
      var id := t.pick.value;
      var pending := rows[id];
      if t.rival.Some? {
        rows := rows[id := t.rival.value];
      }
      var won := ClaimIfPending(id, t.claimAt);
      if !won {
        return Worked;
      }
      match t.company {
        case Failed(message) =>
          return Escaped(message);
        case Missing =>
          Finish(id, FAILED, Some("Company not found"), t.settleAt);
          sessionFailed := sessionFailed + 1;
        case Found(company) =>
          if !company.inScope || company.adapter == OFF {
            var msg := if !company.inScope then "In scope: false (D5)" else "Adapter OFF (D5)";
            Finish(id, SKIPPED, Some(msg), t.settleAt);
            sessionSkipped := sessionSkipped + 1;
          } else {
            RunAdapter(id, pending.attemptCount, company, t);
          }
      }
      return Worked;
    }

    /** `resetStaleProcessing`, run at startup; returns how many rows it put back in the queue. */
    method ResetStaleProcessing(staleMs: nat, now: int, writeAt: int) returns (count: nat)
      modifies this`rows
      ensures var deadline := now - (if staleMs < 60_000 then 60_000 else staleMs);
              rows == RecoveredTable(old(rows), deadline, writeAt) && count == StaleCount(old(rows), deadline)
      ensures |rows| == |old(rows)|
      ensures forall id :: 0 <= id < |rows| ==>
                var was := old(rows)[id];
                rows[id] == if was.status == PROCESSING && was.updatedAt < now - 60_000 && was.updatedAt < now - staleMs
                            then was.(status := PENDING, updatedAt := writeAt) else was
      ensures count == |set id | 0 <= id < |old(rows)| && LeftBehind(old(rows)[id], staleMs, now)|
    {
      var threshold := if staleMs < 60_000 then 60_000 else staleMs;
      var deadline := now - threshold;
      count := 0;
      ghost var before := rows;
      for i := 0 to |rows|
        invariant |rows| == |before| && count == StaleCount(before[..i], deadline)
        invariant forall k :: 0 <= k < i ==> rows[k] == Recovered(before[k], deadline, writeAt)
        invariant forall k :: i <= k < |rows| ==> rows[k] == before[k]
      {
        assert before[..i + 1][..i] == before[..i];
        if rows[i].status == PROCESSING && rows[i].updatedAt < deadline {
          rows := rows[i := rows[i].(status := PENDING, updatedAt := writeAt)];
          count := count + 1;
        }
      }
      assert before[..|before|] == before;
      assert rows == RecoveredTable(before, deadline, writeAt);
      ResetMeans(before, staleMs, now, writeAt);
    }
  }

  /** The reset and its count, row by row. */
  lemma ResetMeans(rows: seq<Submission>, staleMs: nat, now: int, writeAt: int)
    ensures var deadline := now - (if staleMs < 60_000 then 60_000 else staleMs);
            var after := RecoveredTable(rows, deadline, writeAt);
            (forall id :: 0 <= id < |rows| ==>
               after[id]
               == if LeftBehind(rows[id], staleMs, now) then rows[id].(status := PENDING, updatedAt := writeAt)
                  else rows[id])
            && StaleCount(rows, deadline) == |set id | 0 <= id < |rows| && LeftBehind(rows[id], staleMs, now)|
  {
    var deadline := now - (if staleMs < 60_000 then 60_000 else staleMs);
    hide StaleCount, Stale, LeftBehind, Recovered;
    forall id | 0 <= id < |rows|
      ensures Stale(rows[id], deadline) <==> LeftBehind(rows[id], staleMs, now)
      ensures Recovered(rows[id], deadline, writeAt)
              == if LeftBehind(rows[id], staleMs, now) then rows[id].(status := PENDING, updatedAt := writeAt)
                 else rows[id]
    {
      RowReset(rows[id], staleMs, now, writeAt);
    }
    StaleCountIsCount(rows, deadline);
    SameIds(rows, deadline, staleMs, now);
  }

  lemma RowReset(row: Submission, staleMs: nat, now: int, writeAt: int)
    ensures var deadline := now - (if staleMs < 60_000 then 60_000 else staleMs);
            (Stale(row, deadline) <==> LeftBehind(row, staleMs, now))
            && Recovered(row, deadline, writeAt)
               == if LeftBehind(row, staleMs, now) then row.(status := PENDING, updatedAt := writeAt) else row
  {
  }

  lemma SameIds(rows: seq<Submission>, deadline: int, staleMs: nat, now: int)
    requires forall id :: 0 <= id < |rows| ==> (Stale(rows[id], deadline) <==> LeftBehind(rows[id], staleMs, now))
    ensures (set id | 0 <= id < |rows| && Stale(rows[id], deadline))
            == set id | 0 <= id < |rows| && LeftBehind(rows[id], staleMs, now)
  {
    hide Stale, LeftBehind;
  }

  /** The count is that of the rows in PROCESSING last written before the deadline. */
  lemma {:induction false} StaleCountIsCount(rows: seq<Submission>, deadline: int)
    ensures StaleCount(rows, deadline) == |set id | 0 <= id < |rows| && Stale(rows[id], deadline)|
  {
    hide Stale;
    if rows != [] {
      var n := |rows| - 1;
      StaleCountIsCount(rows[..n], deadline);
      var front := set id | 0 <= id < n && Stale(rows[..n][id], deadline);
      var all := set id | 0 <= id < |rows| && Stale(rows[id], deadline);
      assert forall id :: 0 <= id < n ==> rows[..n][id] == rows[id];
      assert all == front + (if Stale(rows[n], deadline) then {n} else {});
    }
  }
}
