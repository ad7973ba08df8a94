/**
 The rows of the CaRGOS submission table and the writes a worker makes to one of them.

 A table is a sequence of rows, and a row is known by its position: rows are added at the end and
 never removed.
 */
module Submissions {
  import opened Wrappers
  import opened Text
  import opened Decimals

  datatype Status = PENDING | PROCESSING | MOCK_SENT | SKIPPED | FAILED

  predicate Terminal(s: Status) {
    s == MOCK_SENT || s == SKIPPED || s == FAILED
  }

  datatype Submission = Submission(
    companyId: string,
    reservationId: string,
    status: Status,
    errorMessage: Option<string>,
    attemptCount: nat,
    processedAt: Option<int>,
    createdAt: int,
    updatedAt: int)

  // ---------------------------------------------------------------- what the environment answers

  datatype Adapter = MOCK | HTTP | OFF | Other(name: string)

  datatype Company = Company(inScope: bool, adapter: Adapter, httpUrl: Option<string>)

  /** A database lookup: a row, no row, or an exception. */
  datatype Lookup<+T> = Found(value: T) | Missing | Failed(message: string)

  /** What a POST to the adapter yields: a response whose body may be unreadable, or an exception. */
  datatype Response = Replied(ok: bool, status: nat, body: Option<string>) | NoReply(message: string)

  /** How a claimed row is settled. */
  datatype Verdict =
    | Sent
    | Skip(reason: string)
    | Reject(reason: string)   // FAILED at once, the attempt is not counted
    | Retry(reason: string)    // handed to failOrRequeue

  predicate HasUrl(c: Company) {
    c.httpUrl.Some? && Trim(c.httpUrl.value) != ""
  }

  /** Whether settling a row of this company sends a POST to its adapter. */
  predicate Posts(company: Option<Company>, reservation: Lookup<()>) {
    company.Some? && company.value.inScope && company.value.adapter == HTTP && HasUrl(company.value)
    && reservation.Found?
  }

  /** The decision taken for a claimed row, from what the lookups and the POST return. */
  function Decide(company: Option<Company>, reservation: Lookup<()>, response: Response): Verdict {
    match company
    case None => Reject("Company not found")
    case Some(c) =>
      if !c.inScope then Skip("In scope: false (D5)")
      else match c.adapter
        case OFF => Skip("Adapter OFF (D5)")
        case MOCK => Sent
        case Other(name) => Reject("Unknown adapter: " + name)
        case HTTP =>
          if !HasUrl(c) then Retry("cargosHttpUrl not set for HTTP")
          else match reservation
            case Failed(message) => Retry(message)
            case Missing => Reject("Reservation not found")
            case Found(_) =>
              match response
              case NoReply(message) => Retry(message)
              case Replied(true, _, _) => Sent
              case Replied(false, status, body) =>
                Retry("HTTP " + IntText(status) + " " + (if body.Some? then Head(body.value, 500) else ""))
  }

  /** After a POST, only its answer decides. */
  lemma PostDecides(company: Option<Company>, reservation: Lookup<()>, response: Response)
    ensures Posts(company, reservation) ==>
              if response.Replied? && response.ok then Decide(company, reservation, response) == Sent
              else Decide(company, reservation, response).Retry?
  {
  }

  // ---------------------------------------------------------------- POSTs

  /** A POST that reached an adapter endpoint, and whether it was answered with an ok response. */
  datatype Post = Post(id: nat, ok: bool)

  function PostsTo(wire: seq<Post>, id: nat): nat {
    if wire == [] then 0 else PostsTo(wire[..|wire| - 1], id) + (if wire[|wire| - 1].id == id then 1 else 0)
  }

  function OksFor(wire: seq<Post>, id: nat): nat {
    if wire == [] then 0
    else OksFor(wire[..|wire| - 1], id) + (if wire[|wire| - 1].id == id && wire[|wire| - 1].ok then 1 else 0)
  }

  lemma {:induction false} NoPostsYet(wire: seq<Post>, id: nat)
    requires forall i :: 0 <= i < |wire| ==> wire[i].id < id
    ensures PostsTo(wire, id) == 0 && OksFor(wire, id) == 0
  {
    if wire != [] {
      NoPostsYet(wire[..|wire| - 1], id);
    }
  }

  // ---------------------------------------------------------------- the writes

  /** The conditional update that claims a pending row. */
  function Claimed(row: Submission, now: int): Submission {
    row.(status := PROCESSING, updatedAt := now)
  }

  /** `failOrRequeue`: counts the attempt, then gives up or puts the row back in the queue. */
  function FailOrRequeue(row: Submission, attemptCount: nat, maxAttempts: nat, reason: string, now: int): Submission {
    var next := attemptCount + 1;
    if next >= maxAttempts then
      row.(status := FAILED, errorMessage := Some(Head(reason, 2000)), processedAt := Some(now),
           attemptCount := next, updatedAt := now)
    else
      row.(status := PENDING, errorMessage := Some(Head(reason, 2000)), attemptCount := next, updatedAt := now)
  }

  /** The write that settles a row; `attemptCount` is the count read before the claim. */
  function Settled(row: Submission, v: Verdict, attemptCount: nat, maxAttempts: nat, now: int): Submission {
    match v
    case Sent => row.(status := MOCK_SENT, processedAt := Some(now), errorMessage := None, updatedAt := now)
    case Skip(reason) =>
      row.(status := SKIPPED, processedAt := Some(now), errorMessage := Some(reason), updatedAt := now)
    case Reject(reason) =>
      row.(status := FAILED, processedAt := Some(now), errorMessage := Some(reason), updatedAt := now)
    case Retry(reason) => FailOrRequeue(row, attemptCount, maxAttempts, reason, now)
  }

  /** Whether settling so puts the row back in the queue. */
  predicate Requeues(v: Verdict, attemptCount: nat, maxAttempts: nat) {
    v.Retry? && attemptCount + 1 < maxAttempts
  }

  /** The reset of rows left in PROCESSING since before `deadline`. */
  function Recovered(row: Submission, deadline: int, now: int): Submission {
    if row.status == PROCESSING && row.updatedAt < deadline then row.(status := PENDING, updatedAt := now) else row
  }

  function RecoveredTable(rows: seq<Submission>, deadline: int, now: int): (r: seq<Submission>)
    ensures |r| == |rows|
  {
    seq(|rows|, i requires 0 <= i < |rows| => Recovered(rows[i], deadline, now))
  }

  /** The answers that the query for the oldest pending row may give; ties are the database's choice. */
  ghost predicate OldestPending(rows: seq<Submission>, pick: Option<nat>) {
    match pick
    case None => forall i :: 0 <= i < |rows| ==> rows[i].status != PENDING
    case Some(id) =>
      id < |rows| && rows[id].status == PENDING
      && forall i :: 0 <= i < |rows| && rows[i].status == PENDING ==> rows[id].createdAt <= rows[i].createdAt
  }

  /** A fresh row, as enqueueing creates it. */
  predicate Fresh(row: Submission) {
    row.status == PENDING && row.attemptCount == 0 && row.processedAt == None
  }
}
