# A verified model of the Balotly API's critical logic

This project models the parts of the Balotly API in which concurrency, deletion
rules and parsing can go wrong, and proves what they guarantee. `dafny verify
dfyconfig.toml` checks everything (Dafny 4.11).

## What is modelled

**The embedded workers** (`workers/runtime.py`, used by `main.py`).
`Supervision` is a step machine over the asyncio await points: any number of
`start` and `stop` calls queue on the lifecycle lock, supervisors are created,
invoke their runner, sleep in backoff, are cancelled and end, and time passes.
What runs between two awaits is one event. The environment is free except for
what the machine's `Act` and `Event` types list; two assumptions of the code are
explicit events instead of silent premises:

- the caller of `stop` may be cancelled while it waits in `gather` (`AbortStop`);
- a runner may return, raise, let a cancellation through, swallow it, or raise
  `CancelledError` unasked.

`SupervisionSafety` holds the invariant, `SupervisionTheorems` what a caller may
rely on, `StopTermination` when `stop` comes back, `AbortedStop` what one leaves
behind that was cancelled, `Isolation` that supervisors do not see each other,
`Linearization` that concurrent calls behave like sequential ones, `Backoff` the
delays and `Timing` that supervisors sleep exactly that long.
`EmbeddedWorkerRuntimes` is the class itself, method by method, proved against the
machine; its `Supervise` is the retry loop, driven by a script of what its awaits
answer. `Lifespan` puts the whole runtime inside the application's startup and
shutdown, `Startup` says when that comes to serve, and `LifespanProgram` is the
nested `finally` code proved against it.

**The payment-evidence schema** (the initial migration and the models).
`Schema` has the ten tables with every CHECK, unique index and foreign key.
`Cascade` defines the result of a DELETE without any order of work, and beside it
the database's list of pending referential checks, taken in any order;
`CascadeProof` proves that the two agree. `Statements` lets arbitrary INSERT,
UPDATE (of keys, too), DELETE and TRUNCATE statements act on the database;
`Acceptance` and `Columns` say column by column which of them the database takes
and what they leave. `Ledger` proves what all histories of them keep, and `Agreement` when votes can be
counted from confirmed payments and which statements keep that so. `Orm` is
SQLAlchemy's way of deleting, compared with the database's.

**The database URL** (`api/db/url.py`). `FormEncoding` is the
application/x-www-form-urlencoded text of a query, concretely: fields split on
`&`, the first `=`, `+`, `%XX` in either case, malformed escapes kept (sections
2.1, 2.3 and 3.4 of RFC 3986; section 5 of the WHATWG URL Standard). `UrlParts`
takes URLs apart and prints them, and `DatabaseUrl` is `build_async_url` with its
loop. Text encoding is a pair of functions of which only two things are assumed
(`Codec.Valid`): what was encoded decodes to itself, and bytes below 128 decode to
their own characters. `Utf8` proves that UTF-8 (section 3 of RFC 3629) is such a
codec, whatever its decoder makes of malformed bytes.

**The migration checks** (`tests/test_migration_schema_matches_models.py`). `Ddl`
replays a list of DDL statements in order and compares the result with the two
passes of the checks, which ignore the order.

**Passwords** (`api/core/security.py`). `Base64` is base64 with padding (section 4
of RFC 4648) with a decoder that accepts its outputs only; `Passwords` is the way
of a password through SHA-256 and base64 into bcrypt, both hash functions being
parameters.

## Where the code and its documentation disagree

- "How many votes does X have" is said to be always reconstructable from
  confirmed transactions alone (`api/v1/models/vote.py:3-7`), and the triggers to
  refuse every statement that could make a count disagree with the payment log
  (`alembic/versions/07f7b6151968_initial_schema.py:354-355`). The votes
  themselves are permanent (`VotesAreForever`), and the count can be reconstructed
  where every vote has its successful transaction and every successful transaction
  its package's number of votes (`VotesAreReconstructed`,
  `PaymentsDetermineTheCounts`). But one INSERT may put another vote on a payment
  (`VotesCanBeAdded`), and one UPDATE may mark the transaction under a vote failed
  and move it to another candidate (`PaymentsCanBeRewritten`). Votes and payments
  go on agreeing exactly as long as no statement leaves a transaction that it
  touches, or whose package it rewrites, out of balance
  (`AgreementIsKeptIffCareful`, `ReconstructableIffCareful`).
- `stop` is said to wait for every runner to clean up (`workers/runtime.py:87`).
  It does, unless some runner was being invoked and turns its cancellation into a
  return or an exception; then it may wait for ever
  (`StopIsBoundedIffNobodyInRunner`, `StopMayNeverReturn`). A `stop` cancelled in
  `gather` leaves its entries in `_tasks`, and the status "stopping" to every
  supervisor that had not begun, or was done, when `stop` got the lock
  (`AbortedStopLeavesTheSilentStopping`).
- A column added again after a drop is reported absent by the column check, and a
  default that went with a dropped column is still reported
  (`ColumnPassAgainstReplay`, `StaleDefaultIsReported`). The default check misses
  defaults that only ADD COLUMN IF NOT EXISTS gives, and takes for a column with a
  default the word IF, and whatever begins a definition that only mentions DEFAULT,
  be it a constraint or a column (`ConditionalDefaultIsMisread`,
  `MentionIsMisread`, `AddedMentionIsMisread`); exactly when it is right is
  `DefaultPassAgainstReplay` and `DefaultReportIsSafe`.

## Model

| member | source | states |
|---|---|---|
| Backoff.MaxExponent | workers/runtime.py:59-61 | the exponent stored at construction is the least number of doublings that takes the base delay to the cap |
| Backoff.ExponentIsUnique | workers/runtime.py:59-61 | no other exponent has that property, so the configuration is determined by base and cap |
| Backoff.ClampIsInvisible | workers/runtime.py:146-152 | clamping the exponent never changes the delay: it is min(base·2^k, max) for every restart count k |
| Backoff.ScaledStaysBelowTwiceMax | workers/runtime.py:147-150 | what the clamp is for: the scaled value stays in [base, 2·max) however many restarts occur |
| Backoff.DelayBounds | workers/runtime.py:146-152 | every delay lies in [base, max] |
| Backoff.DelayNeverShrinks | workers/runtime.py:146-152 | delays never shrink as restarts add up |
| Backoff.DelayIsMaxExactlyFromExponent | workers/runtime.py:146-152 | the cap is reached at the stored exponent, and not before |
| Backoff.TotalDelayClosedForm | workers/runtime.py:146-161 | n consecutive waits sum to base·(2^n - 1), and beyond the exponent to that at the exponent plus max for each further wait |
| Timing.SleepsAsAnnounced | workers/runtime.py:146-161 | after any exit in a reachable state, whatever else happens meanwhile, the supervisor can be woken iff it is not cancelled and the ticks since the exit sum to at least the next_retry_seconds that its status announced, which is min(base·2^k, max) for its restart count k |
| Timing.TheEnvironmentIsFree | workers/runtime.py:130-164 | in every reachable state a supervisor may do exactly what its phase allows: begin unless cancelled, exit either way or let go of the runner at any time, wake at its deadline unless cancelled, and take a cancellation when unstarted or asleep |
| Timing.RestartsOfOneLife | workers/runtime.py:131-161 | the n-th restart of a new supervisor comes at least the sum of the first n delays later than the time it spent awake, and exactly that if due timers fire at once |
| Timing.RestartsComeOnTime | workers/runtime.py:67-164 | the same for every worker of every run between an effective start and the next stop |
| SupervisionSafety.RunsKeepInv | workers/runtime.py:67-105 | every run keeps the invariant: entries and statuses belong to the runners, live supervisors are registered, and every status agrees with its worker's history |
| SupervisionSafety.ActsKeepTheStory | workers/runtime.py:130-164 | each step between two awaits of a supervisor keeps its status and its history in agreement |
| SupervisionTheorems.OneSupervisorPerName | workers/runtime.py:67-105 | in every reachable state a name has at most one live supervisor, hence at most one runner invocation |
| SupervisionTheorems.FreeLockMeaning | workers/runtime.py:67-105 | with the lock free: started means every runner is registered; otherwise no supervisor lives, and the registry is empty exactly if the machine's flag for an aborted stop is off |
| SupervisionTheorems.RegistryIsEmptyIffStopWasNotAborted | workers/runtime.py:86-105 | read off the events of any run: with the lock free and nothing started, the registry is empty iff nobody cancelled the last effective stop after it got the lock, and then every status is at rest |
| SupervisionTheorems.StartedOrAtRest | workers/runtime.py:67-105 | if no stop is cancelled inside gather, a free lock means started with one entry per runner, or no entry and every status stopped without a pending retry |
| SupervisionTheorems.AbortedStopLeavesEntries | workers/runtime.py:99-105 | without that assumption a reachable state has the lock free, nothing started, entries left and a status that reads stopping |
| AbortedStop.AbortedStopLeavesTheSilentStopping | workers/runtime.py:93-105 | after any stop that was cancelled inside gather all entries are left, and a status reads stopping exactly when its supervisor had not begun or was already done when stop got the lock; all others read stopped |
| SupervisionTheorems.HistoryOfEveryWorker | workers/runtime.py:62-105 | at every await point and for every runner, registered or not: before the first start the status is the initial one; afterwards the restart count and the last exit are those of its latest supervisor's trace, a prefix of (run, exit, sleep)*, with a last exit iff there was a restart; a retry is pending iff that supervisor is registered and asleep, and is the delay of the latest restart; and while started the state is where the supervisor stands |
| SupervisionTheorems.BackoffRate | workers/runtime.py:131-161 | in every run the waits completed since start are at most the exponent plus the elapsed time divided by the cap |
| StopTermination.StopBegins | workers/runtime.py:93-100 | an effective stop leaves every live supervisor with a cancellation on its way and takes none out; every status then reads stopping, and is otherwise as it was |
| StopTermination.StepsLeftUnderStop | workers/runtime.py:93-105 | while stop waits and no runner answers with a return or an exception, the steps that are not swallowings are exactly the supervisors that have died, and no more cancellations are swallowed than were under way or sent again by a cancelled caller: the measure that ends it |
| StopTermination.StopTakesTwoStepsEach | workers/runtime.py:93-105 | so a stop that is not itself cancelled takes at most two steps per supervisor, and exactly one for each that has died if nothing is swallowed |
| StopTermination.StopCanAdvance | workers/runtime.py:93-105 | a waiting stop is never stuck: gather can return exactly when no supervisor lives, and otherwise one can end |
| StopTermination.QuietAfterStop | workers/runtime.py:86-105 | from a stop until the next granted start no runner is invoked and no status changes, in any run |
| StopTermination.UnstartedAndSleepingOnlyDie | workers/runtime.py:130-164 | supervisors cancelled before their first step or asleep in backoff just end, whatever the runners are like |
| StopTermination.StopMayNeverReturn | workers/runtime.py:135-161 | for any runner being invoked under stop there is an infinite run in which it returns on cancellation, sleeps and is invoked again, and gather is pending in every state |
| StopTermination.StopIsBoundedIffNobodyInRunner | workers/runtime.py:99-105 | with no promise from the runners, the number of steps before gather returns is bounded iff no runner was being invoked |
| Isolation.RunsProject | workers/runtime.py:75-84 | between a start and the next stop, erasing all other workers leaves each worker a run it could have had alone, ending in the same task and status |
| Isolation.LivesInterleave | workers/runtime.py:123-164 | an interleaving of workers' steps is a run iff each worker's own part is possible alone, so no failure pattern of one affects another |
| Isolation.StepsCommute | workers/runtime.py:123-164 | steps of different supervisors commute, and neither disables the other |
| Linearization.LinearizesInLockOrder | workers/runtime.py:70-84 | after any interleaving, what is started, what is registered and how many supervisors were created is what the granted calls give one after another; while a stop waits, and after an aborted one, the entries are still those of the latest effective start |
| Linearization.FirstComeFirstServed | workers/runtime.py:65-70 | the lock is granted in order of arrival, and no caller is lost |
| EmbeddedWorkerRuntimes.EmbeddedWorkerRuntime.Create | workers/runtime.py:35-65 | construction succeeds iff there are names, none of them blank, and 0 < base <= max are finite; it then gives the machine's initial state with these numbers, and each error says which condition failed, all earlier ones holding |
| EmbeddedWorkerRuntimes.SpacesAre | workers/runtime.py:44-45 | the 29 characters that a blank name consists of |
| EmbeddedWorkerRuntimes.EmbeddedWorkerRuntime.Start | workers/runtime.py:67-84 | start under the lock does to the object exactly what the machine's start does to its state |
| EmbeddedWorkerRuntimes.EmbeddedWorkerRuntime.BeginStop | workers/runtime.py:89-100 | stop up to gather likewise, cancelling exactly the registered tasks |
| EmbeddedWorkerRuntimes.EmbeddedWorkerRuntime.FinishStop | workers/runtime.py:102-105 | stop after gather likewise |
| EmbeddedWorkerRuntimes.EmbeddedWorkerRuntime.Turn | workers/runtime.py:131-161 | one turn of the retry loop follows the machine, whose sleeps `Timing.SleepsAsAnnounced` fixes, with the machine's status in the object at each of its awaits, and ends the script or stands at the next wake |
| EmbeddedWorkerRuntimes.EmbeddedWorkerRuntime.Supervise | workers/runtime.py:123-164 | the coroutine, for every script of answers, ends with the task that the machine gives and its status in the object, including a cancellation before its first line |
| Lifespan.EveryShutdownStepIsAttempted | main.py:25-74 | however startup, serving and cleanup go, a finished lifespan has gone some part of the one way to serving (database, Redis, broker, the embedded runtime built and started if asked for and registered), then stopped the runtime if it built one, closed the broker, closed Redis and disposed of the engine, each once and in this order |
| Lifespan.NobodyWorksOnAClosingBroker | main.py:60-69 | from the moment the broker begins to close no supervisor is alive |
| Lifespan.ErrorsReachTheEnd | main.py:25-74 | at every moment of a lifespan, and so at its end, there is an error iff some action has ended badly, the broker's logged failure at startup aside; and it is the error of the last one that did |
| Startup.ServesExactlyWhen | main.py:25-58 | an application begins to serve iff the database and Redis answered, the attempt on the broker ended well or with a logged Exception, and the embedded workers, where asked for and registered, were built and started |
| Startup.PublishedExactlyWhen | main.py:45-67 | the runtime is built iff its start was begun; app.state shows it exactly while the application serves and, after that, until stop has ended; while serving it is shown, and started, iff embedded workers are asked for and registered |
| Startup.EndsInEveryWay | main.py:25-74 | at every moment of every life the action at hand may end in every way, but for stop, which ends once every supervisor is dead, and badly iff it was itself cancelled |
| LifespanProgram.Application.Lifespan | main.py:21-74 | the code with its variables and nested finally clauses ends, for every script of outcomes, in the machine's last state: same actions, error, runtime and published state |
| LifespanProgram.Application.StartAndServe | main.py:25-58 | whatever fails inside the try leads to the machine's shutdown with that error, and whatever does not fail on to serving as `Startup.ServesExactlyWhen` says |
| LifespanProgram.Application.StopTheRuntime | main.py:63-67 | the outer finally ends with nothing published and the machine at the closing of the broker, whether or not there was a runtime |
| LifespanProgram.Application.CloseTheClients | main.py:68-74 | the inner finally clauses end in the machine's last state, with the last error raised |
| CascadeProof.EveryOrderGivesTheResult | alembic/versions/07f7b6151968_initial_schema.py:96-111 | whatever order the pending referential checks are taken in, a DELETE is refused as a whole or leaves the one result: the CASCADE closure gone, SET NULL references cleared |
| CascadeProof.ChecksRunOut | alembic/versions/07f7b6151968_initial_schema.py:96-111 | despite the key cycle between organizations and users, every check removes rows or leaves one check less |
| CascadeProof.EveryDeleteEnds | alembic/versions/07f7b6151968_initial_schema.py:96-111 | from any state of the work some order of checks runs it to its end |
| CascadeProof.EveryCheckMayComeNext | alembic/versions/07f7b6151968_initial_schema.py:96-111 | the order is free: any pending check may come next, and leads to an end |
| Cascade.ClosureIsLeast | alembic/versions/07f7b6151968_initial_schema.py:146-148 | the CASCADE closure is the least set that contains the roots and everything that goes with its members |
| Statements.SurvivorsIntegrity | alembic/versions/07f7b6151968_initial_schema.py:396-413 | what a DELETE leaves satisfies every CHECK, every unique index and every foreign key, settlements with a cleared actor included |
| Statements.StepKeepsIntegrity | alembic/versions/07f7b6151968_initial_schema.py:85-415 | so does every statement of any kind |
| Statements.TruncatableTables | alembic/versions/07f7b6151968_initial_schema.py:375-381 | TRUNCATE, with or without CASCADE, succeeds exactly on subaccounts and settlements: from every other table references lead to votes |
| Columns.DeleteInColumns | alembic/versions/07f7b6151968_initial_schema.py:96-413 | which rows a DELETE takes, what stands in its way and what it leaves, column by column: every row that stays keeps every column, except that organizations.created_by, users.organization_id, candidates.user_id and settlements.actioned_by become null exactly if the row they name is gone |
| Columns.AcceptedDelete | alembic/versions/07f7b6151968_initial_schema.py:96-413 | the same for every accepted DELETE, read off the states before and after it |
| Columns.GoneIsDetermined | alembic/versions/07f7b6151968_initial_schema.py:96-413 | only one set of rows has the rows asked for and those that belong to one of its own |
| Columns.DeleteIsAccepted | alembic/versions/07f7b6151968_initial_schema.py:96-413 | a DELETE is accepted iff it names rows of one table and no vote, and no transaction, vote or settlement that stays needs a row that goes |
| Columns.EveryOrderInColumns | alembic/versions/07f7b6151968_initial_schema.py:96-413 | what the database leaves, in whatever order it takes its pending checks, is that |
| Columns.FlushInColumns | api/v1/models/organization.py:60-65 | and so is what the ORM leaves |
| Acceptance.RowsAreInserted | alembic/versions/07f7b6151968_initial_schema.py:85-415 | rows inserted together are accepted iff they bring new keys and each is in order in the database that they are part of |
| Acceptance.UpdateIsAccepted | alembic/versions/07f7b6151968_initial_schema.py:85-415 | an UPDATE of keys and contents is accepted iff it names no vote and takes no two rows to one place, every row is afterwards where it is taken, and integrity holds |
| Acceptance.UpdateKeepsTheNumberOfRows | alembic/versions/07f7b6151968_initial_schema.py:85-415 | it loses and makes no row |
| Acceptance.TruncateEmptiesWhatItNames | alembic/versions/07f7b6151968_initial_schema.py:375-381 | TRUNCATE is accepted iff it names subaccounts or settlements and nothing else, and then empties these tables and no other |
| Acceptance.OrganizationIsAccepted | alembic/versions/07f7b6151968_initial_schema.py:68-111 | the CHECKs, references and unique columns of an organization as an iff on one new or rewritten row in any state with integrity |
| Acceptance.UserIsAccepted | alembic/versions/07f7b6151968_initial_schema.py:85-102 | the same for a user |
| Acceptance.ContestIsAccepted | alembic/versions/07f7b6151968_initial_schema.py:113-151 | the same for a contest |
| Acceptance.CategoryIsAccepted | alembic/versions/07f7b6151968_initial_schema.py:156-164 | the same for a category |
| Acceptance.CandidateIsAccepted | alembic/versions/07f7b6151968_initial_schema.py:168-203 | the same for a candidate |
| Acceptance.PackageIsAccepted | alembic/versions/07f7b6151968_initial_schema.py:208-221 | the same for a vote package |
| Acceptance.SubaccountIsAccepted | alembic/versions/07f7b6151968_initial_schema.py:223-259 | the same for a subaccount |
| Acceptance.TransactionIsAccepted | alembic/versions/07f7b6151968_initial_schema.py:262-330 | the same for a transaction, the partial index as a condition on flag, contest, number and status of two rows |
| Acceptance.VoteIsAccepted | alembic/versions/07f7b6151968_initial_schema.py:332-349 | the same for a vote |
| Acceptance.SettlementIsAccepted | alembic/versions/07f7b6151968_initial_schema.py:383-415 | the same for a settlement |
| Ledger.VotesAreForever | alembic/versions/07f7b6151968_initial_schema.py:354-381 | no history of statements loses or changes a vote |
| Ledger.EvidenceIsPinned | alembic/versions/07f7b6151968_initial_schema.py:343-348 | no row that a vote rests on, through any chain of non-nullable keys, can be deleted |
| Ledger.EvidenceStands | alembic/versions/07f7b6151968_initial_schema.py:343-381 | in every state of every history each vote once cast stands unchanged, with its transaction, candidate, category, contest and organization, none of which any DELETE can remove |
| Ledger.OneVotePerIdentity | api/v1/models/transaction.py:63-86 | in every state of every history two transactions with the flag, of one contest and number and neither of them failed, are one row |
| Ledger.IdentityIsFreeIffNoneHoldsIt | api/v1/models/transaction.py:63-86 | a transaction that is otherwise in order is accepted iff no other row with the flag and not failed has its contest and number, while it has the flag and has not failed itself; one without the flag, or failed, is always accepted |
| Ledger.CheckoutIsAcceptedIffIdentityIsFree | api/v1/models/transaction.py:68-86 | the same for the INSERT, and for an UPDATE that flips the flag, the status or the contest |
| Agreement.VotesAreReconstructed | api/v1/models/vote.py:3-7 | what the promise comes to: if every vote has its successful transaction for its own candidate, and every successful transaction as many votes as its package sells, then a candidate's votes are as many as the candidate's confirmed transactions have bought (and at most as many, if transactions have at most as many) |
| Agreement.PaymentsDetermineTheCounts | api/v1/models/vote.py:3-7 | so two such states with the same transactions and packages have the same count for every candidate |
| Agreement.AgreementIsKeptIffCareful | api/v1/models/vote.py:3-7 | from a state in which votes and payments agree (in their numbers exactly, at most, or each vote having a payment at all), an accepted statement leads to another such state iff each transaction that an INSERT brings or gives votes to is in balance afterwards, each row that an UPDATE puts at a transaction's id balances the votes on that id, and each that it puts at a package's id fits every successful transaction referring to it; no other statement can break it |
| Agreement.ReconstructableIffCareful | api/v1/models/vote.py:3-7 | over a whole history votes and payments agree, in each of the three senses, at every moment iff they did at the start and every statement that took effect was careful |
| Agreement.VotesCanBeAdded | api/v1/models/vote.py:3-7 | the schema does not ask for that care: a copy of any vote under a fresh id is accepted; each vote still has a payment, but where the numbers agreed they no longer do, and there are too many votes |
| Agreement.EveryVoteIsPaid | api/v1/models/vote.py:3-7 | in the weakest sense agreement says that every vote has its successful transaction, for its own candidate |
| Agreement.AgreementInColumns | api/v1/models/vote.py:3-7 | agreement on raw columns, in each of the three senses: every vote has its successful transaction, and every successful transaction any number, at most, or exactly as many votes for its own candidate as its package sells |
| Agreement.PaymentsCanBeRewritten | api/v1/models/vote.py:3-7 | nor for this: under any vote an accepted UPDATE marks the transaction failed and moves it to any candidate, and votes and payments then disagree in every sense |
| Orm.MarksAreTheClosure | api/v1/models/contest.py:101-107 | the rows that session.delete marks are the CASCADE closure |
| Orm.OrmAgreesWithTheDatabase | api/v1/models/organization.py:60-65 | deleting through the ORM, in any order of statements its unit of work may pick, is refused when the database alone would refuse and leaves the same database otherwise |
| Orm.AnOrderExists | api/v1/models/category.py:34-37 | such an order always exists |
| FormEncoding.PrintedPairsParse | api/db/url.py:43-57 | reading back any printed pairs gives exactly those pairs: in order, with repeats, blanks and any characters |
| FormEncoding.QuotedTextDecodes | api/db/url.py:57 | quoted text decodes to itself |
| FormEncoding.BytePrintsAs | api/db/url.py:57 | letters, digits, `_`, `.`, `-` and `~` print as themselves, a space as `+`, every other byte as `%` and two upper-case hexadecimal digits |
| FormEncoding.BytesPrintOneByOne | api/db/url.py:57 | the bytes of a text print one by one |
| FormEncoding.FieldsPrintAs | api/db/url.py:57 | a printed query has one field for each pair, in order: the quoted name, an equals sign, the quoted value |
| FormEncoding.PercentMeans | api/db/url.py:43 | a `%` with two hexadecimal digits of either case is read as the byte they denote, and without them as itself |
| FormEncoding.MalformedEscapesStay | api/db/url.py:43 | text in which no `%` is followed by two hexadecimal digits is read as it stands, but for its plus signs |
| FormEncoding.TextIsReadInRuns | api/db/url.py:43 | a character outside ASCII stands for itself, and nothing is read across it |
| FormEncoding.AsciiIsReadAsBytes | api/db/url.py:43 | text between such characters is read as the bytes that it denotes |
| FormEncoding.SplitMeans | api/db/url.py:43 | the fields are the one way to take the query apart at every separator |
| FormEncoding.FieldMeans | api/db/url.py:43 | a field is the name before its first `=` and the value after it, and without one a name with a blank value |
| FormEncoding.EveryFieldIsAPair | api/db/url.py:43 | each non-empty field gives one pair, in order, and an empty field none |
| Utf8.Utf8CodecsAreValid | api/db/url.py:43-57 | UTF-8 with any decoder that undoes it has the two properties that the round trip assumes |
| Utf8.Utf8CodecExists | api/db/url.py:43-57 | there is such a decoder: no two texts have the same bytes |
| Utf8.CharacterBytes | api/db/url.py:43-57 | the one to four bytes of a character, bit by bit |
| Utf8.EncodesOneByOne | api/db/url.py:43-57 | a text is encoded character by character |
| UrlParts.PrintedPartsSplit | api/db/url.py:58 | splitting a printed URL gives its parts back, for all parts that splitting can produce |
| UrlParts.SplitIsWellFormed | api/db/url.py:32 | splitting produces such parts from every URL it accepts |
| UrlParts.SplitLosesNothing | api/db/url.py:32 | scheme, authority, path, query and fragment make up the cleaned text, but for the case of the scheme and the marks of empty parts |
| UrlParts.CleaningMeans | api/db/url.py:32 | before a URL is split, leading spaces and control characters go, tabs and line breaks go wherever they stand, and nothing else does |
| UrlParts.UrlReadsAsWritten | api/db/url.py:32 | a URL is read as it is written: scheme in either case, authority after two slashes, path, query and fragment with or without their marks; it is refused iff brackets of its authority do not match or the library objects |
| UrlParts.HasASchemeExactlyWhen | api/db/url.py:32 | a URL has a scheme iff its cleaned text begins with a letter, then letters, digits, `+`, `-` or `.`, then a colon |
| UrlParts.PartsPrintAs | api/db/url.py:58 | parts are printed in this order with their marks, and two slashes before an authority or a path that would be read as one |
| DatabaseUrl.BuildAsyncUrl | api/db/url.py:18-59 | the loop with its two lists returns, or raises, what the specification function says, about which the rows below are |
| DatabaseUrl.AcceptedExactlyWhen | api/db/url.py:6-15 | a URL is accepted iff it is not empty, splits, has one of the three schemes, and its decoded query names sslmode at most once and with one of the six modes; that mode is returned as it stands, and none if there is none |
| DatabaseUrl.ComplaintMeans | api/db/url.py:35-55 | each error names its own reason: the empty text, an authority that does not split, the scheme, a second sslmode key, or the one unsupported value, in this order |
| DatabaseUrl.RetainedIsTheRest | api/db/url.py:41-47 | the retained pairs are the only way to divide the query's pairs, both parts in their original order, into those named sslmode or channel_binding and those with other names |
| DatabaseUrl.PrintedUrlReadsBack | api/db/url.py:57-59 | the printed URL has the driver's scheme and the original's other parts, and form-decoding its query yields exactly the retained pairs, whatever escapes the original query contains |
| DatabaseUrl.OnlyTheTwoOptionsGo | api/db/url.py:26-59 | read back, the printed query has each pair of the original as often as the original, except those named sslmode or channel_binding, of which it has none; and in their order |
| DatabaseUrl.UrlIsRewritten | api/db/url.py:18-59 | what becomes of a URL as it is usually written, as text: the driver's scheme, its own authority, path and fragment, and the query without the two options |
| DatabaseUrl.ApplyingTwiceChangesNothing | api/db/url.py:18-59 | applying the function to its own result returns the same URL and no mode, for every accepted URL |
| Ddl.ColumnsInTheRenderedSchema | tests/test_migration_schema_matches_models.py:165-198 | the three loops report a column iff some statement creates or adds it and none drops it |
| Ddl.ColumnsCreatedWithADefault | tests/test_migration_schema_matches_models.py:60-71 | the loop reports a name iff it begins a line of some CREATE TABLE, be it a column or a constraint, that mentions DEFAULT anywhere |
| Ddl.ColumnsWithADefault | tests/test_migration_schema_matches_models.py:116-118 | a default is reported iff the patterns read some statement as giving it and none as stripping it |
| Ddl.ColumnPassAgainstReplay | tests/test_migration_schema_matches_models.py:165-198 | a column of the replayed schema is missed exactly when it was ever dropped, and a reported column is absent exactly when its table was dropped after it last came |
| Ddl.ColumnReportIsSafe | tests/test_migration_schema_matches_models.py:165-198 | without dropped tables every reported column is present, and the report equals the schema iff no column of the schema was ever dropped |
| Ddl.DefaultPassAgainstReplay | tests/test_migration_schema_matches_models.py:60-99 | for every script: a default of the replayed schema is missed exactly when it was ever stripped or only ADD COLUMN IF NOT EXISTS gives it, and a reported one is not there exactly when no statement really gave it or the column was dropped after it was last given one |
| Ddl.DefaultReportIsSafe | tests/test_migration_schema_matches_models.py:115-118 | without drops: every reported default is present iff each misread name (the first word of a line that only mentions DEFAULT, an added column that only mentions it, or the word IF) was stripped or really given a default; and the report equals the schema's iff, besides, none of its defaults was ever stripped or given by IF NOT EXISTS alone |
| Ddl.ReplayedDefault | tests/test_migration_schema_matches_models.py:74-99 | what the passes stand in for: after any number of statements a default is there iff it was given after it was last taken, where IF NOT EXISTS gives one only if the column is not there |
| Ddl.ReplaysExactlyWhen | tests/test_migration_schema_matches_models.py:74-99 | a script replays iff each statement finds what it needs in what the statements before it left: its table, its column, no column of that name, no table of that name, with IF EXISTS and IF NOT EXISTS |
| Ddl.StaleDefaultIsReported | tests/test_migration_schema_matches_models.py:115-118 | a column dropped and added again without its default is reported to have one |
| Ddl.ConditionalDefaultIsMisread | tests/test_migration_schema_matches_models.py:76-83 | ADD COLUMN IF NOT EXISTS with a default: the default is missed, and one for a column named IF is reported |
| Ddl.MentionIsMisread | tests/test_migration_schema_matches_models.py:66-70 | a constraint that mentions DEFAULT, or a column that does so only in passing, is reported as a column with a default, by its first word |
| Ddl.AddedMentionIsMisread | tests/test_migration_schema_matches_models.py:76-83 | and so is an added column that mentions it only in passing |
| Base64.DecodeInvertsEncode | api/core/security.py:123 | decoding accepts exactly the encodings, each as what it encodes |
| Base64.EncodedText | api/core/security.py:123 | the encoding has 4·ceil(n/3) bytes, all from the alphabet or padding |
| Base64.AlphabetIs | api/core/security.py:123 | the 64 codes are A-Z, a-z, 0-9, + and /, and padding is = |
| Base64.GroupsEncodeAsNumbers | api/core/security.py:123 | three bytes are one 24-bit number in four digits to the base 64, the highest first; digits that stand for no byte are written = |
| Base64.EncodesByGroups | api/core/security.py:123 | whole groups of three bytes are encoded on their own |
| Passwords.PrehashIsSeenWhole | api/core/security.py:115-123 | every prehashed password is the base64 text of its digest, 44 bytes with = at the end, and bcrypt looks at all of them |
| Passwords.SeenAlikeIffDigestsAgree | api/core/security.py:115-123 | two passwords are one input to bcrypt iff their digests are equal |
| Passwords.AcceptedIffDigestsAgree | api/core/security.py:126-135 | a password verifies against another's hash iff bcrypt gives their two 44-byte inputs one hash under that salt: iff their digests are equal or those inputs are a collision of bcrypt itself |
| Passwords.AcceptedExactlyWhen | api/core/security.py:126-135 | a password is accepted against any stored text iff that is bcrypt's hash of the encoded digest with some salt; a malformed text is a failed login |
| Passwords.SeenIs | api/core/security.py:118-119 | what bcrypt looks at: the first 72 bytes, and nothing from a zero byte on |
| Passwords.RawInputsCollide | api/core/security.py:118-119 | without the prehash, inputs that share their first 72 bytes are one input to bcrypt |

## Left out

- Backoff.MaxExponent: exact reals; the IEEE rounding of log2 and ldexp is not part of this model.
- EmbeddedWorkerRuntimes.EmbeddedWorkerRuntime.Create: statuses are values in a map field, replaced on every assignment, so aliasing of the `_WorkerStatus` objects is not captured.
- EmbeddedWorkerRuntimes.EmbeddedWorkerRuntime.Supervise: runs one supervisor alone; what other code does to the object during its awaits is the subject of `Supervision` and `Isolation`.
- EmbeddedWorkerRuntimes.EmbeddedWorkerRuntime.FinishStop: the way a cancelled `gather` raises out of `stop` is in the machine only.
- DatabaseUrl.BuildAsyncUrl: how malformed UTF-8 is replaced is a parameter; lone surrogates, which Python cannot print, are not characters here; the checks of bracketed hosts and of Unicode normalisation are one parameter; the message of the last error is its value alone. The printing of `//` before a path that starts with two slashes and has no authority is that of later releases of Python 3.12; `ApplyingTwiceChangesNothing` rests on it for such URLs.
- `status_snapshot` and the health endpoints: they repeat the fields that the theorems describe; snapshots taken in the middle of an atomic step by another thread are not part of this model.
- Supervisors cancelled by anyone but `stop`, and runners that raise KeyboardInterrupt or SystemExit.
- Callers withdrawn while they queue on the lock count as never having arrived.
- Timers may fire any time after their deadline; the resolution of the event loop's clock is not part of this model.
- Transactions, rollback and concurrent sessions of the database: a history is a sequence of committed statements.
- A statement that fails for another reason (a transient duplicate inside one UPDATE, a type or length error, a lock) is covered as one that changes nothing.
- Columns that no constraint mentions, string lengths, UUIDs, time zones; percentages are counted in hundredths.
- Matching DDL by regular expressions: the statements arrive parsed, each definition with where it has the word DEFAULT, if it has; renames and CREATE TABLE variants other than the plain one are not part of this model.
- `verify_password_equal_time`: without an account it answers false, and otherwise as `verify_password`.
- SHA-256 and bcrypt beyond what their inputs and outputs show, randomness, timing, the AES-GCM vault and the short-code HMAC.
- RabbitMQ, Redis, engine pooling, logging, settings and routing beyond their place in the lifespan.
- The webhook handler, checkout, settlement release, fee resolution and slug generation: no code exists for them.
