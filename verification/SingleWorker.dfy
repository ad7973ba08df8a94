/**
 One call of `processOne` as a function of the table and of what the environment answers, and what
 whole runs of a single worker promise.
 */
module SingleWorker {
  import opened Wrappers
  import opened Submissions
  import opened Times
  import opened Text
  import opened Decimals

  /** The table, the session counters, and the POSTs sent so far. */
  datatype Queue = Queue(rows: seq<Submission>, mockSent: nat, skipped: nat, failed: nat, wire: seq<Post>)

  /** What the environment answers during one call. */
  datatype Turn = Turn(
    pick: Option<nat>,             // the oldest pending row
    rival: Option<Submission>,     // what another process wrote to that row before the claim
    claimAt: int,
    company: Lookup<Company>,
    reservation: Lookup<()>,
    response: Response,
    settleAt: int)

  /** The call returned false, returned true, or threw. */
  datatype Outcome = Idle | Worked | Escaped(message: string)

  function CompanyOf(l: Lookup<Company>): Option<Company> {
    if l.Found? then Some(l.value) else None
  }

  function VerdictOf(t: Turn): Verdict {
    Decide(CompanyOf(t.company), t.reservation, t.response)
  }

  function WireAfter(wire: seq<Post>, id: nat, t: Turn): seq<Post> {
    if Posts(CompanyOf(t.company), t.reservation) then wire + [Post(id, t.response.Replied? && t.response.ok)] else wire
  }

  /** The claimed row `id` is settled as the environment's answers decide, and counted. */
  function SettledQueue(q: Queue, id: nat, attemptCount: nat, t: Turn, maxAttempts: nat): Queue
    requires id < |q.rows|
  {
    var row := Settled(q.rows[id], VerdictOf(t), attemptCount, maxAttempts, t.settleAt);
    Queue(q.rows[id := row],
          q.mockSent + (if row.status == MOCK_SENT then 1 else 0),
          q.skipped + (if row.status == SKIPPED then 1 else 0),
          q.failed + (if row.status == FAILED then 1 else 0),
          WireAfter(q.wire, id, t))
  }

  /** One call of `processOne`. */
  function TakeTurn(q: Queue, t: Turn, maxAttempts: nat): (Queue, Outcome)
    requires t.pick.Some? ==> t.pick.value < |q.rows|
  {
    if t.pick == None then (q, Idle)
    else
      var id := t.pick.value;
      var count := q.rows[id].attemptCount;
      var found := if t.rival.Some? then q.rows[id := t.rival.value] else q.rows;
      if found[id].status != PENDING then (q.(rows := found), Worked)
      else
        var claimed := Claimed(found[id], t.claimAt);
        if t.company.Failed? then (q.(rows := found[id := claimed]), Escaped(t.company.message))
        else (SettledQueue(q.(rows := found[id := claimed]), id, count, t, maxAttempts), Worked)
  }

  /** What happens to the table: the worker takes a turn, or a fresh row arrives. */
  datatype Event = Work(turn: Turn) | Enqueue(row: Submission)

  /** The worker is the only writer and its company lookup does not throw. */
  predicate Alone(t: Turn) {
    t.rival == None && !t.company.Failed?
  }

  ghost predicate Possible(q: Queue, e: Event) {
    match e
    case Work(t) => Alone(t) && OldestPending(q.rows, t.pick)
    case Enqueue(row) => Fresh(row)
  }

  ghost function Next(q: Queue, e: Event, maxAttempts: nat): Queue
    requires Possible(q, e)
  {
    match e
    case Work(t) => TakeTurn(q, t, maxAttempts).0
    case Enqueue(row) => q.(rows := q.rows + [row])
  }

  ghost predicate History(q: Queue, events: seq<Event>, maxAttempts: nat)
    decreases events
  {
    events == [] || (Possible(q, events[0]) && History(Next(q, events[0], maxAttempts), events[1..], maxAttempts))
  }

  ghost function Finally(q: Queue, events: seq<Event>, maxAttempts: nat): Queue
    requires History(q, events, maxAttempts)
    decreases events
  {
    if events == [] then q else Finally(Next(q, events[0], maxAttempts), events[1..], maxAttempts)
  }

  /** A turn changes the picked row only, and never leaves it pending with the same count. */
  lemma TurnTouchesOneRow(q: Queue, t: Turn, maxAttempts: nat)
    requires Possible(q, Work(t)) && t.pick.Some?
    ensures var id := t.pick.value; var rows := TakeTurn(q, t, maxAttempts).0.rows;
            rows == q.rows[id := rows[id]] && rows[id] != q.rows[id]
            && (rows[id].status == PENDING ==> rows[id].attemptCount == q.rows[id].attemptCount + 1)
  {
    var id := t.pick.value;
    assert TakeTurn(q, t, maxAttempts).0.rows == q.rows[id := TakeTurn(q, t, maxAttempts).0.rows[id]];
  }

  // ---------------------------------------------------------------- the fate of the picked row

  /** What the call finds in the picked row when it claims it. */
  function FoundRow(q: Queue, t: Turn): Submission
    requires t.pick.Some? && t.pick.value < |q.rows|
  {
    if t.rival.Some? then t.rival.value else q.rows[t.pick.value]
  }

  /** An adapter URL that is more than white space. */
  predicate HasText(url: Option<string>) {
    url.Some? && exists i :: 0 <= i < |url.value| && !IsSpace(url.value[i])
  }

  /** The company is out of scope, or switched off. */
  predicate Skips(t: Turn) {
    t.company.Found? && (!t.company.value.inScope || t.company.value.adapter == OFF)
  }

  /** The company sends over HTTP and can be reached. */
  predicate Reaches(t: Turn) {
    t.company.Found? && t.company.value.inScope && t.company.value.adapter == HTTP && HasText(t.company.value.httpUrl)
  }

  /** A MOCK company in scope, or a POST answered with ok. */
  predicate Sends(t: Turn) {
    (t.company.Found? && t.company.value.inScope && t.company.value.adapter == MOCK)
    || (Reaches(t) && t.reservation.Found? && t.response.Replied? && t.response.ok)
  }

  /** No company, an unknown adapter, or no reservation to POST. */
  predicate Refuses(t: Turn) {
    t.company.Missing?
    || (t.company.Found? && t.company.value.inScope && t.company.value.adapter.Other?)
    || (Reaches(t) && t.reservation.Missing?)
  }

  /** The message that a failed attempt leaves. */
  function FailureText(t: Turn): string {
    if !Reaches(t) then "cargosHttpUrl not set for HTTP"
    else if t.reservation.Failed? then t.reservation.message
    else if t.response.NoReply? then t.response.message
    else "HTTP " + IntText(t.response.status) + " "
         + (if t.response.body.Some? then Head(t.response.body.value, 500) else "")
  }

  /**
   A claimed row is skipped, sent, refused, or charged with a failed attempt, as the lookups and the
   answer decide; this is everything that the call leaves in it.
   */
  lemma FateOfClaimedRow(q: Queue, t: Turn, maxAttempts: nat)
    requires t.pick.Some? && t.pick.value < |q.rows| && FoundRow(q, t).status == PENDING && !t.company.Failed?
    ensures var id := t.pick.value; var found := FoundRow(q, t); var next := q.rows[id].attemptCount + 1;
            var (q', outcome) := TakeTurn(q, t, maxAttempts);
            && outcome == Worked && |q'.rows| == |q.rows|
            && (forall other :: 0 <= other < |q.rows| && other != id ==> q'.rows[other] == q.rows[other])
            && q'.rows[id]
               == (if Skips(t) then
                     found.(status := SKIPPED, processedAt := Some(t.settleAt), updatedAt := t.settleAt,
                            errorMessage := Some(if t.company.value.inScope then "Adapter OFF (D5)"
                                                 else "In scope: false (D5)"))
                   else if Sends(t) then
                     found.(status := MOCK_SENT, processedAt := Some(t.settleAt), updatedAt := t.settleAt,
                            errorMessage := None)
                   else if Refuses(t) then
                     found.(status := FAILED, processedAt := Some(t.settleAt), updatedAt := t.settleAt,
                            errorMessage := Some(if t.company.Missing? then "Company not found"
                                                 else if Reaches(t) then "Reservation not found"
                                                 else "Unknown adapter: " + t.company.value.adapter.name))
                   else
                     found.(status := if next < maxAttempts then PENDING else FAILED, attemptCount := next,
                            processedAt := if next < maxAttempts then found.processedAt else Some(t.settleAt),
                            updatedAt := t.settleAt, errorMessage := Some(Head(FailureText(t), 2000))))
  {
    UrlHasText(t);
    hide Head, IntText, Trim;
  }

  /** What the call counts and POSTs, in the same terms. */
  lemma CountsOfClaimedRow(q: Queue, t: Turn, maxAttempts: nat)
    requires t.pick.Some? && t.pick.value < |q.rows| && FoundRow(q, t).status == PENDING && !t.company.Failed?
    ensures var q' := TakeTurn(q, t, maxAttempts).0;
            && q'.mockSent == q.mockSent + (if Sends(t) then 1 else 0)
            && q'.skipped == q.skipped + (if Skips(t) then 1 else 0)
            && q'.failed
               == q.failed + (if Refuses(t) || (!Sends(t) && !Skips(t) && q.rows[t.pick.value].attemptCount + 1 >= maxAttempts)
                              then 1 else 0)
            && q'.wire
               == q.wire + (if Reaches(t) && t.reservation.Found?
                            then [Post(t.pick.value, t.response.Replied? && t.response.ok)] else [])
  {
    UrlHasText(t);
    hide Head, IntText, Trim;
  }

  lemma UrlHasText(t: Turn)
    ensures t.company.Found? ==> (HasUrl(t.company.value) <==> HasText(t.company.value.httpUrl))
  {
    if t.company.Found? && t.company.value.httpUrl.Some? {
      TrimBlank(t.company.value.httpUrl.value);
    }
  }

  /** The calls that settle nothing: no pending row, a lost claim, and a company lookup that throws after the claim. */
  lemma CallsThatSettleNothing(q: Queue, t: Turn, maxAttempts: nat)
    requires t.pick.Some? ==> t.pick.value < |q.rows|
    ensures t.pick == None ==> TakeTurn(q, t, maxAttempts) == (q, Idle)
    ensures t.pick.Some? && FoundRow(q, t).status != PENDING ==>
              TakeTurn(q, t, maxAttempts) == (q.(rows := q.rows[t.pick.value := FoundRow(q, t)]), Worked)
    ensures t.pick.Some? && FoundRow(q, t).status == PENDING && t.company.Failed? ==>
              TakeTurn(q, t, maxAttempts)
              == (q.(rows := q.rows[t.pick.value := FoundRow(q, t).(status := PROCESSING, updatedAt := t.claimAt)]),
                  Escaped(t.company.message))
  {
    if t.pick.Some? {
      var id, found := t.pick.value, FoundRow(q, t);
      assert q.rows[id := q.rows[id]] == q.rows;
      assert q.rows[id := found][id := Claimed(found, t.claimAt)] == q.rows[id := Claimed(found, t.claimAt)];
    }
  }

  // ---------------------------------------------------------------- draining

  /** Attempts a pending row may still take; a settled row takes none. */
  function Budget(row: Submission, maxAttempts: nat): nat {
    if row.status != PENDING then 0
    else if row.attemptCount < maxAttempts then maxAttempts - row.attemptCount
    else 1
  }

  function TotalBudget(rows: seq<Submission>, maxAttempts: nat): nat {
    if rows == [] then 0
    else TotalBudget(rows[..|rows| - 1], maxAttempts) + Budget(rows[|rows| - 1], maxAttempts)
  }

  lemma {:induction false} BudgetUpdate(rows: seq<Submission>, id: nat, row: Submission, maxAttempts: nat)
    requires id < |rows|
    ensures TotalBudget(rows[id := row], maxAttempts) + Budget(rows[id], maxAttempts)
            == TotalBudget(rows, maxAttempts) + Budget(row, maxAttempts)
  {
    var n := |rows| - 1;
    if id == n {
      assert rows[id := row][..n] == rows[..n];
    } else {
      assert rows[id := row][..n] == rows[..n][id := row];
      BudgetUpdate(rows[..n], id, row, maxAttempts);
    }
  }

  /** The number of calls that return true. */
  ghost function WorkedCount(q: Queue, events: seq<Event>, maxAttempts: nat): nat
    requires History(q, events, maxAttempts)
    decreases events
  {
    if events == [] then 0
    else
      (if events[0].Work? && events[0].turn.pick.Some? then 1 else 0)
      + WorkedCount(Next(q, events[0], maxAttempts), events[1..], maxAttempts)
  }

  function Arrivals(events: seq<Event>): nat {
    if events == [] then 0 else (if events[0].Enqueue? then 1 else 0) + Arrivals(events[1..])
  }

  lemma BudgetStep(q: Queue, e: Event, maxAttempts: nat)
    requires Possible(q, e) && maxAttempts > 0
    ensures TotalBudget(Next(q, e, maxAttempts).rows, maxAttempts) + (if e.Work? && e.turn.pick.Some? then 1 else 0)
            <= TotalBudget(q.rows, maxAttempts) + (if e.Enqueue? then maxAttempts else 0)
  {
    match e
    case Enqueue(row) =>
      assert (q.rows + [row])[..|q.rows|] == q.rows;
    case Work(t) =>
      if t.pick.Some? {
        var id := t.pick.value;
        TurnTouchesOneRow(q, t, maxAttempts);
        BudgetUpdate(q.rows, id, Next(q, e, maxAttempts).rows[id], maxAttempts);
      }
  }

  /** Every call that works uses up one of the attempts that the table and the arrivals allow. */
  lemma {:induction false} WorkIsBounded(q: Queue, events: seq<Event>, maxAttempts: nat)
    requires History(q, events, maxAttempts) && maxAttempts > 0
    ensures WorkedCount(q, events, maxAttempts) + TotalBudget(Finally(q, events, maxAttempts).rows, maxAttempts)
            <= TotalBudget(q.rows, maxAttempts) + Arrivals(events) * maxAttempts
    decreases events
  {
    if events != [] {
      hide Next, TotalBudget, Possible;
      BudgetStep(q, events[0], maxAttempts);
      WorkIsBounded(Next(q, events[0], maxAttempts), events[1..], maxAttempts);
      var one := if events[0].Enqueue? then 1 else 0;
      assert (one + Arrivals(events[1..])) * maxAttempts == one * maxAttempts + Arrivals(events[1..]) * maxAttempts;
    }
  }

  lemma {:induction false} NoBudgetNoPending(rows: seq<Submission>, maxAttempts: nat)
    ensures TotalBudget(rows, maxAttempts) == 0 <==> forall i :: 0 <= i < |rows| ==> rows[i].status != PENDING
  {
    if rows != [] {
      var n := |rows| - 1;
      NoBudgetNoPending(rows[..n], maxAttempts);
      assert forall i :: 0 <= i < n ==> rows[..n][i] == rows[i];
    }
  }

  /** With no arrivals, as many calls as there are attempts left in the table empty the queue. */
  lemma {:induction false} QueueDrains(q: Queue, events: seq<Event>, maxAttempts: nat)
    requires History(q, events, maxAttempts) && maxAttempts > 0 && Arrivals(events) == 0
    requires |events| >= TotalBudget(q.rows, maxAttempts)
    ensures forall i :: 0 <= i < |Finally(q, events, maxAttempts).rows| ==>
              Finally(q, events, maxAttempts).rows[i].status != PENDING
    decreases events
  {
    NoBudgetNoPending(q.rows, maxAttempts);
    if events != [] {
      BudgetStep(q, events[0], maxAttempts);
      QueueDrains(Next(q, events[0], maxAttempts), events[1..], maxAttempts);
    }
  }

  // ---------------------------------------------------------------- what holds between calls

  /** The state of row `id` against the POSTs sent for it. */
  predicate Accounted(row: Submission, posts: nat, oks: nat, maxAttempts: nat) {
    && row.status != PROCESSING
    && (row.processedAt.Some? <==> Terminal(row.status))
    && (row.status == FAILED ==> row.attemptCount <= maxAttempts)
    && (row.status != FAILED ==> row.attemptCount < maxAttempts)
    && posts <= row.attemptCount + (if row.status == MOCK_SENT then 1 else 0)
    && oks <= (if row.status == MOCK_SENT then 1 else 0)
  }

  predicate Settling(q: Queue, maxAttempts: nat) {
    (forall id :: 0 <= id < |q.rows| ==>
      Accounted(q.rows[id], PostsTo(q.wire, id), OksFor(q.wire, id), maxAttempts))
    && (forall i :: 0 <= i < |q.wire| ==> q.wire[i].id < |q.rows|)
  }

  lemma WireGrows(wire: seq<Post>, id: nat, t: Turn, other: nat)
    ensures var after := WireAfter(wire, id, t); var posts := Posts(CompanyOf(t.company), t.reservation);
            PostsTo(after, other) == PostsTo(wire, other) + (if posts && other == id then 1 else 0)
            && OksFor(after, other) == OksFor(wire, other)
               + (if posts && other == id && t.response.Replied? && t.response.ok then 1 else 0)
  {
    var p := Post(id, t.response.Replied? && t.response.ok);
    assert (wire + [p])[..|wire|] == wire;
  }

  /** Settling a pending row keeps its account, with the POST that settling it sends. */
  lemma SettleAccount(row: Submission, t: Turn, posts: nat, oks: nat, maxAttempts: nat)
    requires row.status == PENDING && Accounted(row, posts, oks, maxAttempts)
    ensures var sent := Posts(CompanyOf(t.company), t.reservation);
            Accounted(Settled(Claimed(row, t.claimAt), VerdictOf(t), row.attemptCount, maxAttempts, t.settleAt),
                      posts + (if sent then 1 else 0),
                      oks + (if sent && t.response.Replied? && t.response.ok then 1 else 0), maxAttempts)
  {
    PostDecides(CompanyOf(t.company), t.reservation, t.response);
    hide Decide, Posts;
  }

  lemma SettlingStep(q: Queue, e: Event, maxAttempts: nat)
    requires Settling(q, maxAttempts) && Possible(q, e) && maxAttempts > 0
    ensures Settling(Next(q, e, maxAttempts), maxAttempts)
  {
    var q' := Next(q, e, maxAttempts);
    match e
    case Enqueue(row) =>
      NoPostsYet(q.wire, |q.rows|);
    case Work(t) =>
      if t.pick.Some? {
        hide Decide, Posts, Accounted, Settled, PostsTo, OksFor;
        var picked := t.pick.value;
        forall id | 0 <= id < |q'.rows|
          ensures Accounted(q'.rows[id], PostsTo(q'.wire, id), OksFor(q'.wire, id), maxAttempts)
        {
          WireGrows(q.wire, picked, t, id);
          if id == picked {
            SettleAccount(q.rows[id], t, PostsTo(q.wire, id), OksFor(q.wire, id), maxAttempts);
          }
        }
      }
  }

  /**
   In every history of a single worker, whatever the adapters and their answers: no row is left in
   PROCESSING, `processedAt` is set exactly on settled rows, a row gets at most `maxAttempts` POSTs
   and at most one ok response, and an ok response means MOCK_SENT.
   */
  lemma {:induction false} HistoryIsAccounted(q: Queue, events: seq<Event>, maxAttempts: nat)
    requires Settling(q, maxAttempts) && History(q, events, maxAttempts) && maxAttempts > 0
    ensures Settling(Finally(q, events, maxAttempts), maxAttempts)
    ensures var last := Finally(q, events, maxAttempts);
            forall id :: 0 <= id < |last.rows| ==>
              PostsTo(last.wire, id) <= maxAttempts && OksFor(last.wire, id) <= 1
              && (OksFor(last.wire, id) == 1 ==> last.rows[id].status == MOCK_SENT)
    decreases events
  {
    if events == [] {
      assert forall id :: 0 <= id < |q.rows| ==>
        Accounted(q.rows[id], PostsTo(q.wire, id), OksFor(q.wire, id), maxAttempts);
    } else {
      SettlingStep(q, events[0], maxAttempts);
      HistoryIsAccounted(Next(q, events[0], maxAttempts), events[1..], maxAttempts);
    }
  }

  /** When a call finds nothing to do, every row is settled. */
  lemma IdleMeansSettled(q: Queue, t: Turn, maxAttempts: nat)
    requires Settling(q, maxAttempts) && Possible(q, Work(t))
    ensures TakeTurn(q, t, maxAttempts).1 == Idle <==>
            forall id :: 0 <= id < |q.rows| ==> Terminal(q.rows[id].status)
  {
    if t.pick.Some? {
      assert !Terminal(q.rows[t.pick.value].status);
    } else {
      forall id | 0 <= id < |q.rows| ensures Terminal(q.rows[id].status) {
        assert Accounted(q.rows[id], PostsTo(q.wire, id), OksFor(q.wire, id), maxAttempts);
      }
    }
  }

  /** A row that is given up on after failed attempts has used exactly `maxAttempts` of them. */
  lemma RetriesEndAtMax(q: Queue, t: Turn, maxAttempts: nat)
    requires Settling(q, maxAttempts) && Possible(q, Work(t)) && t.pick.Some? && VerdictOf(t).Retry?
    ensures var row := TakeTurn(q, t, maxAttempts).0.rows[t.pick.value];
            (row.status == FAILED <==> row.attemptCount == maxAttempts)
            && (row.status == PENDING <==> row.attemptCount < maxAttempts)
            && row.attemptCount == q.rows[t.pick.value].attemptCount + 1
  {
    var id := t.pick.value;
    assert Accounted(q.rows[id], PostsTo(q.wire, id), OksFor(q.wire, id), maxAttempts);
  }

  /** Some turn settles row `id` as FAILED without counting the attempt. */
  predicate Rejects(events: seq<Event>, id: nat) {
    events != [] && (RejectsNow(events[0], id) || Rejects(events[1..], id))
  }

  predicate RejectsNow(e: Event, id: nat) {
    e.Work? && e.turn.pick == Some(id) && VerdictOf(e.turn).Reject?
  }

  /** A settled row is never picked and never written again. */
  lemma {:induction false} SettledForGood(q: Queue, events: seq<Event>, maxAttempts: nat, id: nat)
    requires History(q, events, maxAttempts) && id < |q.rows| && Terminal(q.rows[id].status)
    ensures id < |Finally(q, events, maxAttempts).rows|
            && Finally(q, events, maxAttempts).rows[id] == q.rows[id]
    ensures !Rejects(events, id)
    decreases events
  {
    if events != [] {
      if events[0].Work? && events[0].turn.pick.Some? {
        TurnTouchesOneRow(q, events[0].turn, maxAttempts);
      }
      SettledForGood(Next(q, events[0], maxAttempts), events[1..], maxAttempts, id);
    }
  }

  /** One turn: a row that it fails has used all attempts exactly if it was not rejected. */
  lemma FailedNow(q: Queue, e: Event, maxAttempts: nat, id: nat)
    requires Settling(q, maxAttempts) && Possible(q, e) && maxAttempts > 0
    requires id < |q.rows| ==> q.rows[id].status != FAILED
    ensures var q' := Next(q, e, maxAttempts);
            id < |q'.rows| ==>
              if q'.rows[id].status == FAILED then q'.rows[id].attemptCount == maxAttempts <==> !RejectsNow(e, id)
              else !RejectsNow(e, id)
  {
    if e.Work? && e.turn.pick.Some? {
      var picked := e.turn.pick.value;
      assert Accounted(q.rows[picked], PostsTo(q.wire, picked), OksFor(q.wire, picked), maxAttempts);
      hide Decide, PostsTo, OksFor, WireAfter;
    }
  }

  /**
   Over every history: a row that failed has used exactly `maxAttempts` attempts if and only if no
   turn rejected it outright.
   */
  lemma {:induction false} FailedByRetriesExactly(q: Queue, events: seq<Event>, maxAttempts: nat, id: nat)
    requires Settling(q, maxAttempts) && History(q, events, maxAttempts) && maxAttempts > 0
    requires id < |q.rows| ==> q.rows[id].status != FAILED
    ensures var last := Finally(q, events, maxAttempts);
            id < |last.rows| && last.rows[id].status == FAILED ==>
              (last.rows[id].attemptCount == maxAttempts <==> !Rejects(events, id))
    decreases events
  {
    if events != [] {
      var q' := Next(q, events[0], maxAttempts);
      SettlingStep(q, events[0], maxAttempts);
      FailedNow(q, events[0], maxAttempts, id);
      if id < |q'.rows| && q'.rows[id].status == FAILED {
        SettledForGood(q', events[1..], maxAttempts, id);
      } else {
        FailedByRetriesExactly(q', events[1..], maxAttempts, id);
      }
    }
  }

  // ---------------------------------------------------------------- HTTP companies

  /** A turn in which the company of the claimed row, if there is one, has the HTTP adapter. */
  predicate OverHttp(e: Event) {
    e.Work? && e.turn.pick.Some? && e.turn.company.Found? ==> e.turn.company.value.adapter == HTTP
  }

  /** A turn that claims a row only to POST it. */
  predicate Posting(e: Event) {
    e.Work? && e.turn.pick.Some? ==> Posts(CompanyOf(e.turn.company), e.turn.reservation)
  }

  /** MOCK_SENT means exactly one ok response. */
  predicate SentByOk(q: Queue) {
    forall id :: 0 <= id < |q.rows| ==> (q.rows[id].status == MOCK_SENT <==> OksFor(q.wire, id) == 1)
  }

  /** Each attempt is one POST. */
  predicate AttemptsArePosts(q: Queue) {
    forall id :: 0 <= id < |q.rows| ==>
      PostsTo(q.wire, id) == q.rows[id].attemptCount + (if q.rows[id].status == MOCK_SENT then 1 else 0)
  }

  /** With the HTTP adapter, a row is sent exactly when it is POSTed and the answer is ok. */
  lemma SentOnOkOnly(t: Turn)
    requires t.company.Found? ==> t.company.value.adapter == HTTP
    ensures VerdictOf(t) == Sent <==>
            Posts(CompanyOf(t.company), t.reservation) && t.response.Replied? && t.response.ok
  {
  }

  lemma SentByOkStep(q: Queue, e: Event, maxAttempts: nat)
    requires Settling(q, maxAttempts) && SentByOk(q) && Possible(q, e) && OverHttp(e)
    ensures SentByOk(Next(q, e, maxAttempts))
  {
    var q' := Next(q, e, maxAttempts);
    match e
    case Enqueue(row) =>
      NoPostsYet(q.wire, |q.rows|);
    case Work(t) =>
      if t.pick.Some? {
        var picked := t.pick.value;
        assert Accounted(q.rows[picked], PostsTo(q.wire, picked), OksFor(q.wire, picked), maxAttempts);
        SentOnOkOnly(t);
        hide Decide, Posts, PostsTo, OksFor, Accounted;
        forall id | 0 <= id < |q'.rows|
          ensures q'.rows[id].status == MOCK_SENT <==> OksFor(q'.wire, id) == 1
        {
          WireGrows(q.wire, picked, t, id);
        }
      }
  }

  /**
   With the HTTP adapter throughout, a row is MOCK_SENT exactly when one of its POSTs got an ok
   response: whatever companies are missing or out of scope, URLs blank, and reservations missing.
   */
  lemma {:induction false} HttpHistory(q: Queue, events: seq<Event>, maxAttempts: nat)
    requires Settling(q, maxAttempts) && SentByOk(q) && History(q, events, maxAttempts) && maxAttempts > 0
    requires forall i :: 0 <= i < |events| ==> OverHttp(events[i])
    ensures SentByOk(Finally(q, events, maxAttempts))
    decreases events
  {
    if events != [] {
      SettlingStep(q, events[0], maxAttempts);
      SentByOkStep(q, events[0], maxAttempts);
      HttpHistory(Next(q, events[0], maxAttempts), events[1..], maxAttempts);
    }
  }

  /** A turn that POSTs the row either sends it or counts the attempt. */
  lemma AttemptOrSent(row: Submission, t: Turn, maxAttempts: nat)
    requires row.status == PENDING && Posts(CompanyOf(t.company), t.reservation)
    ensures var after := Settled(Claimed(row, t.claimAt), VerdictOf(t), row.attemptCount, maxAttempts, t.settleAt);
            after.attemptCount + (if after.status == MOCK_SENT then 1 else 0) == row.attemptCount + 1
  {
    PostDecides(CompanyOf(t.company), t.reservation, t.response);
    hide Decide, Posts;
  }

  lemma AttemptsStep(q: Queue, e: Event, maxAttempts: nat)
    requires Settling(q, maxAttempts) && AttemptsArePosts(q) && Possible(q, e) && Posting(e)
    ensures AttemptsArePosts(Next(q, e, maxAttempts))
  {
    var q' := Next(q, e, maxAttempts);
    match e
    case Enqueue(row) =>
      NoPostsYet(q.wire, |q.rows|);
    case Work(t) =>
      if t.pick.Some? {
        var picked := t.pick.value;
        AttemptOrSent(q.rows[picked], t, maxAttempts);
        hide Decide, Posts, PostsTo, OksFor, Accounted, Settled, VerdictOf;
        forall id | 0 <= id < |q'.rows|
          ensures PostsTo(q'.wire, id) == q'.rows[id].attemptCount + (if q'.rows[id].status == MOCK_SENT then 1 else 0)
        {
          WireGrows(q.wire, picked, t, id);
        }
      }
  }

  /** If moreover each claimed row can be POSTed, its POSTs are its counted attempts, and the one that was ok. */
  lemma {:induction false} PostingHistory(q: Queue, events: seq<Event>, maxAttempts: nat)
    requires Settling(q, maxAttempts) && AttemptsArePosts(q) && History(q, events, maxAttempts) && maxAttempts > 0
    requires forall i :: 0 <= i < |events| ==> Posting(events[i])
    ensures AttemptsArePosts(Finally(q, events, maxAttempts))
    decreases events
  {
    if events != [] {
      SettlingStep(q, events[0], maxAttempts);
      AttemptsStep(q, events[0], maxAttempts);
      PostingHistory(Next(q, events[0], maxAttempts), events[1..], maxAttempts);
    }
  }

  // ---------------------------------------------------------------- session counters

  function CountOf(rows: seq<Submission>, s: Status): nat {
    if rows == [] then 0 else CountOf(rows[..|rows| - 1], s) + (if rows[|rows| - 1].status == s then 1 else 0)
  }

  lemma {:induction false} CountUpdate(rows: seq<Submission>, id: nat, row: Submission, s: Status)
    requires id < |rows|
    ensures CountOf(rows[id := row], s) + (if rows[id].status == s then 1 else 0)
            == CountOf(rows, s) + (if row.status == s then 1 else 0)
  {
    var n := |rows| - 1;
    if id == n {
      assert rows[id := row][..n] == rows[..n];
    } else {
      assert rows[id := row][..n] == rows[..n][id := row];
      CountUpdate(rows[..n], id, row, s);
    }
  }

  /** The counter that the session keeps for a final status. */
  function Counter(q: Queue, s: Status): nat
    requires Terminal(s)
  {
    if s == MOCK_SENT then q.mockSent else if s == SKIPPED then q.skipped else q.failed
  }

  lemma CounterStep(q: Queue, e: Event, maxAttempts: nat, s: Status)
    requires Possible(q, e) && Terminal(s)
    ensures var q' := Next(q, e, maxAttempts);
            Counter(q', s) - Counter(q, s) == CountOf(q'.rows, s) - CountOf(q.rows, s)
  {
    match e
    case Enqueue(row) =>
      assert (q.rows + [row])[..|q.rows|] == q.rows;
    case Work(t) =>
      if t.pick.Some? {
        TurnTouchesOneRow(q, t, maxAttempts);
        hide CountOf, Decide, WireAfter, OldestPending;
        CountUpdate(q.rows, t.pick.value, Next(q, e, maxAttempts).rows[t.pick.value], s);
      }
  }

  /** The session counters are the numbers of rows moved to each final status. */
  lemma {:induction false} CountersCountRows(q: Queue, events: seq<Event>, maxAttempts: nat, s: Status)
    requires History(q, events, maxAttempts) && Terminal(s)
    ensures var last := Finally(q, events, maxAttempts);
            Counter(last, s) - Counter(q, s) == CountOf(last.rows, s) - CountOf(q.rows, s)
            && |last.rows| == |q.rows| + Arrivals(events)
    decreases events
  {
    if events != [] {
      CounterStep(q, events[0], maxAttempts, s);
      CountersCountRows(Next(q, events[0], maxAttempts), events[1..], maxAttempts, s);
    }
  }

  // ---------------------------------------------------------------- first created, first settled

  /** Arrivals are created no earlier than anything in the table. */
  ghost predicate ArriveLater(q: Queue, events: seq<Event>, maxAttempts: nat)
    requires History(q, events, maxAttempts)
    decreases events
  {
    events == []
    || ((events[0].Enqueue? ==> forall i :: 0 <= i < |q.rows| ==> q.rows[i].createdAt <= events[0].row.createdAt)
        && ArriveLater(Next(q, events[0], maxAttempts), events[1..], maxAttempts))
  }

  /** The creation times of rows in the order in which they are settled. */
  ghost function SettledTimes(q: Queue, events: seq<Event>, maxAttempts: nat): seq<int>
    requires History(q, events, maxAttempts)
    decreases events
  {
    if events == [] then []
    else
      var q' := Next(q, events[0], maxAttempts);
      var rest := SettledTimes(q', events[1..], maxAttempts);
      if events[0].Work? && events[0].turn.pick.Some? && Terminal(q'.rows[events[0].turn.pick.value].status) then
        [q.rows[events[0].turn.pick.value].createdAt] + rest
      else rest
  }

  /** No pending row, and hence nothing settled later, is older than `time`. */
  predicate NoneOlder(q: Queue, time: int) {
    forall i :: 0 <= i < |q.rows| && q.rows[i].status == PENDING ==> time <= q.rows[i].createdAt
  }

  lemma NoneOlderStep(q: Queue, e: Event, maxAttempts: nat, time: int)
    requires Possible(q, e) && NoneOlder(q, time)
    requires e.Enqueue? ==> time <= e.row.createdAt
    ensures NoneOlder(Next(q, e, maxAttempts), time)
  {
  }

  lemma {:induction false} LaterSettledIsYounger(q: Queue, events: seq<Event>, maxAttempts: nat, time: int, id: nat)
    requires History(q, events, maxAttempts) && ArriveLater(q, events, maxAttempts) && NoneOlder(q, time)
    requires id < |q.rows| && time <= q.rows[id].createdAt
    ensures forall k :: 0 <= k < |SettledTimes(q, events, maxAttempts)| ==>
              time <= SettledTimes(q, events, maxAttempts)[k]
    decreases events
  {
    if events != [] {
      var q' := Next(q, events[0], maxAttempts);
      if events[0].Enqueue? {
        assert q.rows[id].createdAt <= events[0].row.createdAt;
      }
      NoneOlderStep(q, events[0], maxAttempts, time);
      assert q'.rows[id].createdAt == q.rows[id].createdAt;
      LaterSettledIsYounger(q', events[1..], maxAttempts, time, id);
    }
  }

  /** Rows are settled in the order in which they were created: a requeued row keeps its place. */
  lemma {:induction false} SettledInOrder(q: Queue, events: seq<Event>, maxAttempts: nat)
    requires History(q, events, maxAttempts) && ArriveLater(q, events, maxAttempts)
    ensures Ascending(SettledTimes(q, events, maxAttempts))
    decreases events
  {
    if events != [] {
      var q' := Next(q, events[0], maxAttempts);
      var rest := SettledTimes(q', events[1..], maxAttempts);
      SettledInOrder(q', events[1..], maxAttempts);
      if events[0].Work? && events[0].turn.pick.Some? {
        var id := events[0].turn.pick.value;
        var time := q.rows[id].createdAt;
        assert NoneOlder(q, time);
        NoneOlderStep(q, events[0], maxAttempts, time);
        LaterSettledIsYounger(q', events[1..], maxAttempts, time, id);
        AscendingCons(time, rest);
      }
    }
  }

  lemma {:induction false} NoneOlderAfter(q: Queue, events: seq<Event>, maxAttempts: nat, time: int, id: nat)
    requires History(q, events, maxAttempts) && ArriveLater(q, events, maxAttempts) && NoneOlder(q, time)
    requires id < |q.rows| && time <= q.rows[id].createdAt
    ensures NoneOlder(Finally(q, events, maxAttempts), time)
    decreases events
  {
    if events != [] {
      var q' := Next(q, events[0], maxAttempts);
      if events[0].Enqueue? {
        assert q.rows[id].createdAt <= events[0].row.createdAt;
      }
      NoneOlderStep(q, events[0], maxAttempts, time);
      assert q'.rows[id].createdAt == q.rows[id].createdAt;
      NoneOlderAfter(q', events[1..], maxAttempts, time, id);
    }
  }

  /** No younger row is settled while an older one is PENDING. */
  lemma {:induction false} NoYoungerFirst(q: Queue, events: seq<Event>, maxAttempts: nat)
    requires History(q, events, maxAttempts) && ArriveLater(q, events, maxAttempts)
    ensures forall k :: 0 <= k < |SettledTimes(q, events, maxAttempts)| ==>
              NoneOlder(Finally(q, events, maxAttempts), SettledTimes(q, events, maxAttempts)[k])
    decreases events
  {
    if events != [] {
      var q' := Next(q, events[0], maxAttempts);
      NoYoungerFirst(q', events[1..], maxAttempts);
      if events[0].Work? && events[0].turn.pick.Some? {
        var id := events[0].turn.pick.value;
        NoneOlderAfter(q, events, maxAttempts, q.rows[id].createdAt, id);
      }
    }
  }
}
