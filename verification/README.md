# Car-rental: the submission worker, seasonal pricing, retention purge and desk forms in Dafny

This project models five parts of the repository and proves what they promise.

**The CaRGOS submission queue.** `Submissions` has the rows, the verdict on a claimed row and the
writes. `WorkerProtocol` interleaves any number of workers at every database call and POST, with
crashes, restarts and the stale reset. Five modules argue about its runs: how often a row is claimed
(`ProtocolTermination`) and when no more often than it may be attempted (`ProtocolAttempts`), who may
write to a row (`ProtocolSafety`), when the attempt count only grows (`ProtocolCounts`), how many POSTs and
ok answers a row gets and what is settled at rest (`ProtocolPosts`). `CargosWorker` is the process as a
class, `SingleWorker` specifies one call of `processOne` and proves what whole histories of one worker
keep, and `ProtocolRefinement` shows that such a history is a run of the interleaved protocol with one
worker. `MainLoop` is the loop around it, with the purge, the cron calls and the sleep of its idle
iterations, and `CronTriggers` the throttle.

**Seasonal rent.** `Calendar` is the calendar of ECMA-262 (sections 21.4.1.3 to 21.4.1.12), `IsoDates`
the strings that `toISOString` makes of it (section 21.4.4.36) and their order, `RentalDays` the
24-hour day count, `SeasonRates` the winner among overlapping season rows, sorted in place,
`RateTotals` the null-propagating sum, `ClassRent` the rent.

**The retention purge** is `Retention`; `RetentionProgress` and `RetentionStalls` say what many calls of it
achieve, and when they achieve nothing. **The Partita IVA check** is `ItalianVat`, and **the form
converters** are `SeasonForm` and `ReservationForms`, over `FormRows`, `Text`, `Decimals` and
`Numerals`. `Times` and `Wrappers` are shared.

## Where the code does not do what one might expect

- The order of two `isoDateUtc` strings is the order of their days for all dates of years 0 to 9999, and
  not in general: an extended year is signed and six digits long, so the slice drops the day of the
  month. `IsoDates.IsoOrder` gives the exact condition over all valid dates.
- The write-back of `failOrRequeue` uses the count read before the claim. With two workers and three
  attempts a row's count can fall; `ProtocolCounts.CountsGrowExactly` says for which numbers of workers
  and attempts it cannot.
- The stale reset also takes the row of a worker that is alive but slower than the threshold, and a row
  already MOCK_SENT is then written again. `ProtocolSafety.SafeExactlyWithinThreshold` shows that the
  threshold is the exact bound.
- A worker that crashes between an ok answer and its settling write has the row POSTed again.
  `ProtocolPosts.OksExactly` shows that one ok answer more than recoveries is the exact bound.
- Splitting a rental may add one billing day; `RentalDays.SplitCount` says when.
- With two workers and two attempts a row can be claimed more often than it may be attempted;
  `ProtocolAttempts.NeverOverclaimedExactly` has the exact condition.
- `batchSize` documents that keep failing their S3 delete and expire before all others stop the purge for
  good (`RetentionStalls.StuckDocumentsStopPurge`). So does a single document whose row delete keeps
  throwing and that expires first, whatever `batchSize` is
  (`RetentionStalls.ThrowingDocumentsStopPurge`), because the exception ends the call.
  `RetentionStalls.ProgressExactly` says for which numbers of failing documents all others drain,
  `RetentionStalls.StallsExactly` for which tables the rows may stay for good.
- A purge that throws at a row delete reports nothing. The report falls short of the rows removed exactly
  if a row went before the one that threw: `Retention.ReportsExactly`, with an input in
  `Retention.UnreportedRow`.
- A blank Partita IVA is invalid and an empty one valid (`ItalianVat.WhiteSpaceIgnored`).
- `packages/shared/src/italian-fiscal.ts:30` calls the check digit mod-11; the code is the mod-10 formula of
  Annex B of ISO/IEC 7812-1. `packages/shared/src/italian-fiscal.ts:18` mentions an optional check digit
  after 11 digits; the code wants 11 digits in all.
- `apps/api/prisma/schema.prisma:657` has SKIPPED also for exceeded retries; the code writes FAILED.

## What is assumed

A database statement, or a POST with its answer, is one atomic step, and a table of submissions is a
sequence of rows known by position, to which rows are added and from which none is removed. Writes to
submissions are reliable; those of the purge may fail. Lookups, POST answers, the choice among rows of equal
age and the clock are parameters. The interleaved protocol has one clock that does not go back.
`maxAttempts` is at least 1 where a lemma says so, as `parsePosInt` makes it, and is constant in a run.
Integers are unbounded and time is in whole milliseconds.

## Model

| member | source | states |
|---|---|---|
| ProtocolTermination.ClaimsArePaidFor | apps/worker/src/main.ts:97-129 | For every run of any number of workers, with any verdicts, crashes and restarts: claims of a row plus its final potential are at most its initial potential plus the stale resets of that row |
| ProtocolTermination.RequeueLowersWeights | apps/worker/src/main.ts:271-292 | A requeue strictly lowers the sum over workers of (W+1)^(attempts left), however stale the count it writes |
| ProtocolTermination.PotentialStep | apps/worker/src/main.ts:115-129 | No single action raises the potential of a row except a stale reset of it, by one; each claim lowers it by at least one |
| ProtocolTermination.ClaimsOfFreshRow | apps/worker/src/main.ts:115-129 | With W crash-free workers a row enqueued in the run is claimed at most W*(W+1)^maxAttempts times |
| ProtocolAttempts.AttemptsArePaidFor | apps/worker/src/main.ts:271-292 | For every run of a lone worker, crashes and restarts included, each claim of a row is paid for by an attempt left or a recovery of it |
| ProtocolAttempts.AttemptsOfFreshRow | apps/worker/src/main.ts:271-292 | A lone worker claims, and POSTs, a row enqueued in the run at most maxAttempts times, and once more for each recovery |
| ProtocolAttempts.NeverOverclaimedExactly | apps/worker/src/main.ts:271-292 | n crash-free workers never claim a row more often than it may be attempted if and only if n <= 1 or maxAttempts <= 1 |
| ProtocolAttempts.Overclaimed | apps/worker/src/main.ts:123-129 | For any n >= 2 workers and maxAttempts >= 2, a crash-free run with maxAttempts + 1 claims of one row |
| ProtocolSafety.SafeExactlyWithinThreshold | apps/worker/src/main.ts:97-105 | All runs in which live workers settle within `limit` of their claim keep one holder a row and never rewrite a settled row, if and only if limit is at most 60000 or at most staleMs |
| ProtocolSafety.TimelyRunsAreSafe | apps/worker/src/main.ts:97-129 | Under any interleaving, crashes and restarts with the stale reset, timely workers never share a row and settled rows stay as they are |
| ProtocolSafety.CrashFreeRunsAreSafe | apps/worker/src/main.ts:115-129 | Without crashes the same holds with no timing assumption |
| ProtocolSafety.ClaimIsConditional | apps/worker/src/main.ts:123-131 | A claim takes a row exactly if it is still PENDING, with the count read before; otherwise nothing but the worker changes |
| ProtocolSafety.LateWorkerRewritesSettledRow | apps/worker/src/main.ts:97-105 | For every longer limit, a run in which a row that was POSTed with an ok answer and is MOCK_SENT becomes FAILED |
| ProtocolCounts.CountsGrowExactly | apps/worker/src/main.ts:271-292 | Attempt counts only grow in all timely runs of n workers if and only if n <= 1 or maxAttempts <= 2 |
| ProtocolCounts.CountCanFall | apps/worker/src/main.ts:271-292 | For any n >= 2 workers and maxAttempts >= 3, a run in which a count falls from 2 to 1 |
| ProtocolPosts.OksArePaidFor | apps/worker/src/main.ts:213-236 | For every run of any number of workers, timely or not: the ok answers of a row, plus those still open, grow only by its stale resets |
| ProtocolPosts.OksOfFreshRow | apps/worker/src/main.ts:213-236 | A row enqueued in the run gets at most one ok answer more than it is recovered, and at most one in crash-free runs of any number of workers |
| ProtocolPosts.OksExactly | apps/worker/src/main.ts:97-105 | Over all timely runs with n recoveries of a row, k bounds its ok answers if and only if k >= n + 1 |
| ProtocolPosts.PostsArePaidFor | apps/worker/src/main.ts:213-236 | For every run of any number of workers, each POST of a row is paid for by a claim of it |
| ProtocolPosts.PostsOfFreshRow | apps/worker/src/main.ts:213-236 | A row enqueued in the run gets no more POSTs than claims, and at most W*(W+1)^maxAttempts with W crash-free workers |
| ProtocolPosts.EachRecoveryMayPostAgain | apps/worker/src/main.ts:97-105 | For every n, a timely run of one worker with n recoveries and n + 1 ok answers for one row |
| ProtocolPosts.OneHolderExactly | apps/worker/src/main.ts:123-129 | In crash-free runs of any number of workers a row is in PROCESSING if and only if a worker holds it, and then exactly one |
| ProtocolPosts.RestIsSettled | apps/worker/src/main.ts:115-249 | When crash-free workers come to rest with nothing pending, every row is settled, and those with an ok answer are MOCK_SENT |
| ProtocolRefinement.CallIsRun | apps/worker/src/main.ts:115-249 | One call of processOne by a lone worker is a run read, claim, POST, settle of the interleaved protocol, with the same table and the same POSTs |
| ProtocolRefinement.HistoryIsRun | apps/worker/src/main.ts:552-554 | Every history of a lone worker, arrivals included, is a run of the interleaved protocol that ends in the same table and POSTs |
| CargosWorker.Worker.ProcessOne | apps/worker/src/main.ts:115-249 | The branches of processOne do to table, counters and POSTs what the decision table and one settling write do; returns false, returns true or throws accordingly |
| SingleWorker.FateOfClaimedRow | apps/worker/src/main.ts:115-249 | Every field of a claimed row after the call, from the lookups and the answer alone: SKIPPED when out of scope or OFF, MOCK_SENT for MOCK or an ok answer, FAILED at once for no company, an unknown adapter or no reservation, and otherwise a counted attempt; all other rows as before |
| SingleWorker.CountsOfClaimedRow | apps/worker/src/main.ts:132-243 | In the same terms, which counter the call raises and which POST it sends |
| SingleWorker.CallsThatSettleNothing | apps/worker/src/main.ts:116-131 | No pending row gives false; a lost claim gives true and leaves the row as the winner wrote it; a throwing company lookup leaves the row in PROCESSING and escapes |
| CargosWorker.Worker.FailOrRequeue | apps/worker/src/main.ts:271-293 | Counts the attempt, then FAILED with processedAt at the limit, else PENDING; the failure counter follows the status |
| CargosWorker.Worker.ClaimIfPending | apps/worker/src/main.ts:123-129 | The conditional update is won exactly when the row is still PENDING and then changes only that row |
| CargosWorker.Worker.SendOverHttp | apps/worker/src/main.ts:177-236 | The HTTP branch settles as decided from reservation and answer, and records a POST exactly when the reservation was found |
| CargosWorker.Worker.RunAdapter | apps/worker/src/main.ts:152-243 | Each adapter settles the row and counts it as its verdict says |
| CargosWorker.Worker.ResetStaleProcessing | apps/worker/src/main.ts:97-105 | Row by row: PROCESSING and last written before now - 60000 and before now - staleMs becomes PENDING with only updatedAt changed besides, every other row is untouched, and the count is the number of such rows |
| ProtocolSafety.RecoverReleases | apps/worker/src/main.ts:97-105 | A stale reset releases every row left in PROCESSING since before its deadline, and changes no other |
| ProtocolSafety.CrashedRowComesBack | apps/worker/src/main.ts:97-105 | A restart makes a row left in PROCESSING claimable again if and only if more than 60000 and more than staleMs milliseconds have passed since its last write |
| SingleWorker.SettledInOrder | apps/worker/src/main.ts:116-119 | With later arrivals created later, rows are settled in creation order: a requeued row keeps its place |
| SingleWorker.NoYoungerFirst | apps/worker/src/main.ts:116-119 | Then no younger row has been settled while an older one is PENDING |
| SingleWorker.WorkIsBounded | apps/worker/src/main.ts:115-249 | Calls that work plus attempts left at the end are at most the attempts left at the start plus maxAttempts an arrival |
| SingleWorker.QueueDrains | apps/worker/src/main.ts:552-554 | With no arrivals, as many calls as the attempts left in the table leave no row PENDING |
| SingleWorker.IdleMeansSettled | apps/worker/src/main.ts:116-122 | A call returns false exactly when every row is settled |
| SingleWorker.RetriesEndAtMax | apps/worker/src/main.ts:278-292 | A failed attempt adds exactly one, and ends in FAILED exactly at maxAttempts |
| SingleWorker.FailedByRetriesExactly | apps/worker/src/main.ts:278-292 | Over every history, a row that failed has used exactly maxAttempts attempts if and only if no turn rejected it outright |
| SingleWorker.SettledForGood | apps/worker/src/main.ts:116-129 | In every history of one worker a settled row is never picked nor written again |
| SingleWorker.HistoryIsAccounted | apps/worker/src/main.ts:165-247 | In every history of one worker: no row left in PROCESSING, processedAt set exactly on settled rows, at most maxAttempts POSTs and one ok answer a row, and an ok answer means MOCK_SENT |
| SingleWorker.HttpHistory | apps/worker/src/main.ts:165-236 | If every claimed row's company, when found, has the HTTP adapter, a row is MOCK_SENT if and only if exactly one of its POSTs got an ok answer, with the failure branches before and after the POST included |
| SingleWorker.SentOnOkOnly | apps/worker/src/main.ts:165-236 | Under the HTTP adapter the verdict is sent if and only if the row is POSTed and the answer is ok |
| SingleWorker.PostingHistory | apps/worker/src/main.ts:213-235 | If moreover each claimed row can be POSTed, its POSTs are its counted attempts plus the one that was ok |
| SingleWorker.CountersCountRows | apps/worker/src/main.ts:132-243 | Each session counter has grown by the number of rows moved to its status, and rows change in number only by arrivals |
| SingleWorker.TurnTouchesOneRow | apps/worker/src/main.ts:115-249 | A call changes only the picked row, and a row it leaves PENDING has one more attempt |
| MainLoop.Loop.Run | apps/worker/src/main.ts:552-572 | Over any script of iterations, until an exception or a shutdown: table, documents, session total, ticks, cron calls and sleeps end as the successive iterations of the specification leave them |
| MainLoop.Loop.Iterate | apps/worker/src/main.ts:553-560 | One pass takes a turn, and only if that found nothing to do purges, checks the triggers and sleeps |
| MainLoop.BusyIteration | apps/worker/src/main.ts:553-554 | While a row is pending an iteration takes a turn and neither purges, nor checks a trigger, nor sleeps |
| MainLoop.IdleIteration | apps/worker/src/main.ts:554-560 | With none pending it leaves the table, purges if purging is on, checks each trigger once and sleeps once |
| MainLoop.CronCallsAreFirings | apps/worker/src/main.ts:552-559 | The cron calls of a run are exactly the firings among the checks of its idle iterations; an iteration that works on a submission makes none |
| MainLoop.PurgedTotalExactly | apps/worker/src/main.ts:251-269 | Over a run the session total of purged documents never exceeds those that are gone, and equals them if and only if every purge reports all it removes |
| MainLoop.SleepsAreWhole | apps/worker/src/main.ts:560 | A run sleeps once an idle iteration, and every sleep of the process but the last lasts for the whole idle time |
| MainLoop.Loop.MaybeTrigger | apps/worker/src/main.ts:300-315 | A check calls the route exactly when armed and an interval has passed, and then moves the tick |
| MainLoop.Loop.CheckTriggers | apps/worker/src/main.ts:556-559 | An idle iteration checks each of the four triggers once |
| MainLoop.SleepInterruptible | apps/worker/src/main.ts:36-47 | Sleeps the whole time or stops at the first chunk boundary where the process no longer runs |
| CronTriggers.FiringsAreSpaced | apps/worker/src/main.ts:311-315 | Two firings are at least an interval apart, whatever the clock does |
| CronTriggers.FiresExactly | apps/worker/src/main.ts:300-315 | A check fires if and only if the interval is at least 1, the secret has 16 characters without the white space around it, and an interval has gone by |
| CronTriggers.WindowBound | apps/worker/src/main.ts:311-315 | A closed window of length L holds at most L / interval + 1 firings |
| CronTriggers.NeverStarved | apps/worker/src/main.ts:311-315 | With a clock that does not go back, every check of an armed trigger has a firing less than an interval before it, or fires |
| IsoDates.IsoOrder | packages/shared/src/class-rent.ts:12-14 | For all valid dates, string order agrees with day order exactly on the pairs given by a condition on year, month and date |
| IsoDates.IsoOrderFourDigits | packages/shared/src/class-rent.ts:12-14 | In years 0 to 9999, comparing date strings is comparing day numbers |
| IsoDates.IsoOrderBreaks | packages/shared/src/class-rent.ts:12-14 | Every day after year 9999 compares as earlier than every day of years 0 to 9999 |
| IsoDates.IsoOrderBreaksAtYear10000 | packages/shared/src/class-rent.ts:12-14 | The first day of year 10000 and the day before it are such a pair |
| IsoDates.IsoDateShape | packages/shared/src/class-rent.ts:12-14 | The ten characters kept are the whole date, or year and month only outside four-digit years |
| IsoDates.TimeOfDay | packages/shared/src/class-rent.ts:12-14 | The part of the ISO string after the date is hours, minutes, seconds and milliseconds |
| Numerals.StrLtMeans | packages/shared/src/class-rent.ts:38 | Of two strings the first difference decides, and a proper prefix comes first |
| IsoDates.DateTextParses | apps/web/components/VehicleClassForm.tsx:105-106 | A printed date is a date string and names the midnight of its own day |
| IsoDates.DateTextRoundTrip | apps/web/components/VehicleClassForm.tsx:114-116 | A date string names the midnight of the instant's day |
| Calendar.CivilOrder | packages/shared/src/class-rent.ts:12-14 | Day numbers are ordered as their calendar dates |
| Calendar.DayOfCivilClosed | packages/shared/src/class-rent.ts:12-14 | The day number of every valid date in closed form, with years from March and 153 days for five months |
| Calendar.MonthStarts | packages/shared/src/class-rent.ts:12-14 | The first days of the months as section 21.4.1.4 of ECMA-262 lists them |
| Calendar.KnownDays | packages/shared/src/class-rent.ts:12-14 | Day 0 is 1970-01-01, day 19783 is 2024-03-01, a day has 86400000 milliseconds |
| Calendar.DayCivilDay | packages/shared/src/class-rent.ts:12-14 | Every day has a valid calendar date and is the day of that date |
| Calendar.CivilDayCivil | packages/shared/src/class-rent.ts:12-14 | A calendar date is recovered from its day number |
| RentalDays.CountRentalDays24h | packages/shared/src/rental-days.ts:8-14 | 0 unless return is after pickup, else the k with (k-1) days < return - pickup <= k days |
| RentalDays.CountUnique | packages/shared/src/rental-days.ts:8-14 | No other number satisfies that bracket |
| RentalDays.SplitCount | packages/shared/src/rental-days.ts:8-14 | The parts of a split count as much as the whole, plus one exactly when two part-days would have shared a day |
| ClassRent.SumClassRentCents24h | packages/shared/src/class-rent.ts:21-48 | The loop returns the null-propagating total of the prices of consecutive UTC dates from the day of pickup |
| ClassRent.BlockRate | packages/shared/src/class-rent.ts:33-34 | Block i starts before the return and is priced as the i-th UTC date from the day of pickup |
| ClassRent.RentIsByIntervals | packages/shared/src/class-rent.ts:35-39 | In years 0 to 9999 the rent is that of a reference with no strings, by intervals of days |
| ClassRent.RentNullExactly | packages/shared/src/class-rent.ts:27-44 | There is no rent if and only if return is not after pickup or some billed date has no price |
| ClassRent.RentDependsOnDateAndCount | packages/shared/src/class-rent.ts:27-34 | The pickup matters only through its UTC date and the number of days |
| ClassRent.SplitRent | packages/shared/src/class-rent.ts:27-47 | Splitting at pickup + k days gives two rents that add up to the whole, null included |
| ClassRent.RentIgnoresOrder | packages/shared/src/class-rent.ts:35-41 | Any permutation of the season rows gives the same rent |
| ClassRent.OverrideChangesByGain | packages/shared/src/class-rent.ts:31-47 | A row of priority above all others changes a priced rent by exactly its price less the previous one, summed over the dates it covers |
| ClassRent.RentBounds | packages/shared/src/class-rent.ts:31-47 | A priced rent lies between days times the lowest and days times the highest price used |
| ClassRent.RaisingPricesNeverLowersRent | packages/shared/src/class-rent.ts:31-47 | Raising daily prices never lowers a rent nor changes which rentals have one |
| SeasonRates.SortCandidates | packages/shared/src/class-rent.ts:40 | Sorts the candidates in place into the stable order of the comparator |
| SeasonRates.SortedIsOrderedPermutation | packages/shared/src/class-rent.ts:40 | That order is a permutation of the candidates, sorted by the comparator |
| SeasonRates.SortIsStable | packages/shared/src/class-rent.ts:40 | Rows that the comparator does not tell apart stay in their order |
| SeasonRates.FilterCandidates | packages/shared/src/class-rent.ts:35-39 | Keeps the covering rows, in their order |
| SeasonRates.FilterKeepsPlaces | packages/shared/src/class-rent.ts:35-39 | Each covering row stays where it is among the others, every other row goes |
| SeasonRates.RateOfIsTheRate | packages/shared/src/class-rent.ts:35-41 | The head's price is the only one that belongs to a lexicographic maximum of (priority, dailyCents) among covering rows, else the default |
| SeasonRates.RateIgnoresOrder | packages/shared/src/class-rent.ts:40-41 | A day's price depends only on which rows there are |
| Retention.Janitor.PurgeExpired | apps/worker/src/purge-retention.ts:71-107 | The loop over the batch does to documents and blobs what the recursive specification says, and returns the count or throws; blobs of no document of the batch stay, and with unique keys a document's blob goes exactly if the call comes to it and its delete is not refused |
| Retention.Janitor.PurgeOnce | apps/worker/src/main.ts:251-269 | The session total never exceeds the rows removed, and equals them if and only if no row delete throws or the first row that is to go is the one that throws |
| Retention.ReportsExactly | apps/worker/src/purge-retention.ts:89-106 | What a call reports is what it removed under exactly that condition, and never more |
| Retention.UnreportedRow | apps/worker/src/purge-retention.ts:89-106 | Two local documents of which one goes unreported |
| RetentionProgress.EverythingElseGoes | apps/worker/src/purge-retention.ts:79-107 | With fewer than batchSize stuck documents, |work| / (batchSize - |stuck|) calls that return remove every other document expired at the first call, whatever the calls that throw do in between |
| RetentionProgress.CallProgress | apps/worker/src/purge-retention.ts:79-107 | No call adds work; one that returns finishes the work of its moment or removes at least batchSize - |stuck| documents |
| RetentionStalls.ProgressExactly | apps/worker/src/purge-retention.ts:79-107 | Over all tables with k stuck documents and b whose row deletes may throw: every batch reaches some work if and only if k < batchSize, and as many calls as there is work drain all other documents if and only if k < batchSize and b = 0 |
| RetentionStalls.BatchReachesExactly | apps/worker/src/purge-retention.ts:79-87 | For a given table every batch reaches some work if and only if fewer than batchSize stuck expired documents expire no later than the earliest of it |
| RetentionStalls.StallsExactly | apps/worker/src/purge-retention.ts:79-107 | For a given table with work, calls in any number may leave all rows in place if and only if batchSize stuck documents expire no later than the earliest of that work, or a document whose row delete throws may come with only stuck ones before it |
| RetentionStalls.ThrowingDocumentsStopPurge | apps/worker/src/purge-retention.ts:90-105 | If documents whose row deletes keep throwing expire before all others that are not stuck, no sequence of calls removes a row |
| RetentionStalls.FailingTableStops | apps/worker/src/purge-retention.ts:79-107 | For every k >= batchSize or b > 0, a table with k stuck and b throwing documents from which no sequence of calls removes a row |
| RetentionStalls.StuckDocumentsStopPurge | apps/worker/src/purge-retention.ts:79-107 | If batchSize stuck documents expire before all others and their blob deletes fail, no sequence of calls removes a row |
| RetentionStalls.BlockedBatch | apps/worker/src/purge-retention.ts:93-99 | A batch of refused S3 deletes removes nothing and reports 0 |
| Retention.S3RowGoesAfterBlob | apps/worker/src/purge-retention.ts:91-103 | An S3 row is gone only if its blob is, whatever throws |
| Retention.PurgeFate | apps/worker/src/purge-retention.ts:91-104 | A document of the batch loses its row exactly if its blob delete succeeded or it is local, and no row delete up to its own throws; its blob goes if the call comes to it and its delete is not refused |
| Retention.BlobFate | apps/worker/src/purge-retention.ts:54-105 | With unique keys, the blob of a document of the batch is there afterwards if and only if it was and its delete was refused or an earlier row delete threw |
| Retention.OtherBlobsStay | apps/worker/src/purge-retention.ts:54-105 | The blob of no document of the batch is there afterwards if and only if it was before |
| Retention.DueDocumentsGo | apps/worker/src/purge-retention.ts:78-107 | When nothing fails and the batch has room, exactly the documents past their retention go that are local or uploaded |
| Retention.OnlyDueRowsGo | apps/worker/src/purge-retention.ts:78-107 | Whatever fails, a row that goes was past its retention, and local or uploaded |
| Retention.KeepsRowsExactly | apps/worker/src/purge-retention.ts:90-105 | A call leaves all rows exactly if, for each row that is to go, a row delete throws no later in the batch |
| Retention.PurgeCounts | apps/worker/src/purge-retention.ts:89-106 | A returned count is the number of rows removed, and a call throws exactly if the delete of some row that is to go throws |
| Retention.OnlyExpiredRowsGo | apps/worker/src/purge-retention.ts:79-87 | No document outside the query's condition is touched |
| Retention.PurgeFrame | apps/worker/src/purge-retention.ts:90-105 | Rows outside the batch stay, rows that stay are unchanged, blobs only disappear |
| ItalianVat.IsValidItalianVatNumber | packages/shared/src/italian-fiscal.ts:31-52 | Valid if absent or empty, or if the weighted sum of all eleven digits is a multiple of ten |
| ItalianVat.LuhnFormula | packages/shared/src/italian-fiscal.ts:39-51 | The formula digit by digit: every second digit doubled with its own digits added up, the sum a multiple of ten |
| ItalianVat.PlainInput | packages/shared/src/italian-fiscal.ts:19-35 | Nothing entered is valid, eleven digits stand for themselves and are valid as the formula says |
| ItalianVat.CheckDigitUnique | packages/shared/src/italian-fiscal.ts:39-51 | Each ten-digit prefix is accepted with exactly one check digit |
| ItalianVat.SingleDigitError | packages/shared/src/italian-fiscal.ts:39-51 | Every change of one digit of an accepted number is rejected |
| ItalianVat.NeighbourSwap | packages/shared/src/italian-fiscal.ts:39-51 | A swap of unequal neighbours is accepted if and only if they are 0 and 9 |
| ItalianVat.WhiteSpaceIgnored | packages/shared/src/italian-fiscal.ts:19-37 | White space inserted anywhere leaves the verdict alone, exactly unless the input was empty |
| ItalianVat.CountryPrefix | packages/shared/src/italian-fiscal.ts:23-27 | One leading IT changes nothing; a second one makes a normalisable number unnormalisable, and nothing else does |
| ItalianVat.PrefixInAnyCase | packages/shared/src/italian-fiscal.ts:23-26 | The prefix may be written in capitals or small letters, and with the dotless i |
| ItalianVat.NormalizeTwice | packages/shared/src/italian-fiscal.ts:19-28 | Normalising again changes neither the digits nor the verdict |
| SeasonForm.BuildSeasonalRatesPayload | apps/web/components/VehicleClassForm.tsx:72-112 | The loop returns the items of the non-blank rows in order, or the error of the first row in error, or a schema issue |
| SeasonForm.PayloadExactly | apps/web/components/VehicleClassForm.tsx:82-111 | Saving succeeds with certain items if and only if they are those of the rows that are not empty, in order, with trimmed dates and parsed numbers, at most 48 and all with real dates |
| SeasonForm.PayloadFailsExactly | apps/web/components/VehicleClassForm.tsx:91-104 | It fails with an error of the form if and only if that is the error of the first row in error |
| SeasonForm.EmptyRowsDropOut | apps/web/components/VehicleClassForm.tsx:88-90 | A row with nothing but white space, and no priority or 0, may stand anywhere without making a difference |
| SeasonForm.LoadThenSave | apps/web/components/VehicleClassForm.tsx:156-169 | Loading well-formed rows and saving them unchanged succeeds with one item a row |
| SeasonForm.LoadNothing | apps/web/components/VehicleClassForm.tsx:167-169 | A class without season rows is loaded as one empty row |
| SeasonForm.SavingUnchangedKeepsRent | apps/web/components/VehicleClassForm.tsx:72-169 | After that, every rent is what it was, whatever the time of day in the saved windows |
| SeasonForm.RowRoundTrip | apps/web/components/VehicleClassForm.tsx:98-106 | The fields of a well-formed row are read back as its dates and numbers |
| ReservationForms.BuildExtraLinePayload | apps/web/components/ReservationForm.tsx:200-223 | The loop returns the non-blank lines in order or the error of the first line in error |
| ReservationForms.LinesExactly | apps/web/components/ReservationForm.tsx:206-222 | The payload holds certain lines if and only if they are those of the rows that are not empty, in order, with trimmed labels and parsed amounts |
| ReservationForms.LinesFailExactly | apps/web/components/ReservationForm.tsx:212-219 | It fails with an error if and only if that is the error of the first row in error |
| ReservationForms.EmptyLinesDropOut | apps/web/components/ReservationForm.tsx:209-211 | An empty row may stand anywhere without making a difference |
| ReservationForms.ExtraLinesRoundTrip | apps/web/components/ReservationForm.tsx:737-745 | Loading and rebuilding is the identity if and only if all labels are trimmed and non-empty and all amounts non-negative |
| ReservationForms.SumDamageLineEstimatedFees | apps/web/components/ReservationForm.tsx:235-249 | The sum of the positive fees of the report, 0 without one |
| ReservationForms.SumDmgLineFeeInputs | apps/web/components/ReservationOpsPanel.tsx:31-42 | The sum of the non-negative integers that the fee fields start with |
| ReservationForms.FeeAdds | apps/web/components/ReservationForm.tsx:241-247 | A fee anywhere in a report adds itself to the sum if it is positive, and nothing otherwise |
| ReservationForms.LoadedFees | apps/web/components/ReservationOpsPanel.tsx:138-144 | Each loaded fee field parses to its fee, and is blank exactly without one |
| ReservationForms.FieldAdds | apps/web/components/ReservationOpsPanel.tsx:33-40 | A fee field anywhere adds the non-negative integer it starts with, and nothing if there is none |
| ReservationForms.FeeSumsAgree | apps/web/components/ReservationOpsPanel.tsx:132-147 | The two sums agree on every saved report |
| Decimals.ParseIntText | apps/web/components/VehicleClassForm.tsx:94-101 | Printing an integer and parsing it back is the identity |
| Decimals.ParseIntOf | apps/web/components/VehicleClassForm.tsx:94-101 | White space, a sign if any, digits: the number they denote, whatever follows; without digits none |
| Text.TrimOf | apps/web/components/VehicleClassForm.tsx:84-87 | Trimming removes exactly the white space around a text |
| Text.TrimBlank | apps/web/components/VehicleClassForm.tsx:84-88 | Nothing is left exactly of a text that is all white space |

## Left out

- Lost acknowledgements: a write that is committed but reported as failed would be followed by a second write from the catch block; writes are reliable here.
- Exceptions of `prisma.cargosSubmission.update` inside the try block, which lead to one more `failOrRequeue`; the exceptions modelled are those of the lookups and of the POST.
- The API's own enqueue and immediate-send paths; in a lone worker's call another writer appears only as what it wrote between read and claim, and elsewhere only as arrivals.
- Deletion of submission rows by cascade.
- `buildCargosHttpAdapterBody` and the headers of the POST: field copying.
- Signals: a shutdown in the middle of a call is a crash of the interleaved protocol; in the main loop it is seen at a chunk of the sleep or at the loop test, and that `process.exit` may come even sooner is not modelled there.
- Environment parsing, logging, the heartbeat and the real timers.
- The responses of the cron routes, which are only logged.
- ReservationForms.SumDmgLineFeeInputs: sums are exact; doubles beyond 2^53 are not modelled, here or in pricing.
- SeasonForm.BuildSeasonalRatesPayload: the schema admits only real calendar dates; that some engines let the 30th of February through a date check is not modelled.
- ItalianVat.WhiteSpaceIgnored: capitals are those of a to z and of the dotless i. The other characters whose capital form holds an I or a T, such as the ligature U+FB06 or U+1E97, bring another character that is no digit with it, so the verdict is the same.
- SeasonRates.SortCandidates: the engine's sort is modelled as a stable insertion sort.
- How the four triggers share one body: their routes and the order of two statements in one of them differ, which no state shows.
- `getS3` and its cache: an unconfigured S3 is a refused delete.
- `isValidItalianFiscalCode`: a pattern match.
