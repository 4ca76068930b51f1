# maniple-queue in Dafny

A functional model of the core of maniple-queue, a PHP message queue kept in
two relational tables (`queues` and `queue_messages`), with proofs about it.

- **DbTable** is the table-backed adapter. It covers:
  - the table-name prefix;
  - idempotent `create`;
  - `getQueues`, which lists queues with the least recently served first;
  - `receive`, a single transaction: it selects claimable rows, claims each one with a conditional (compare-and-set) update, advances the queue's `received` watermark, and commits or rolls back.
- **Service** is the dispatcher. It covers:
  - `addListener`, which puts the handler inside a wrapper: a handler result of `true` stops propagation and deletes the message, and handler exceptions are swallowed;
  - the `openQueue` cache;
  - the `process` worker loop. It makes round-robin sweeps over the queue list. Each queue gets one `receive(1)` per sweep. A received message goes to the queue's channel, then to the global `message` channel if it was not deleted.
- **MessageEvent** is the event that carries a message to listeners.

The modules follow the program:
- `Tables`: rows, eligibility and the conditional update.
- `Ranking`: ORDER BY with LIMIT.
- `DbTable` and `ReceiveFacts`: the adapter.
- `MessageEvent`.
- `Service`.
- `ProcessLimit`: the message limit of `process`; see Findings.

The store is plain data:
- a sequence of queue rows (id, name, lease, `received`);
- a sequence of message rows (id, queue id, body, priority, created, `handle: Option<Token>`, `timeout`);
- the two auto-increment counters.

Things the program cannot see become parameters:
- **The clock**: `now`. A `process` run reads the clock once.
- **The random handle**: `mint`. The i-th claim of the c-th adapter call gets `mint(c, i)`.
- **Store exceptions**: `fault`, the index of the store statement that throws.
- **Other workers**: `interfere`, the table another worker leaves behind just before each conditional update.

Adapter calls return the adapter afterwards. A failed call returns the adapter unchanged, which models the rollback, except getQueues, whose failure has already emptied the name-to-id cache (library/ManipleQueue/Adapter/DbTable.php:175-176). The worker loop terminates because every sweep that continues the loop claims at least one row, the clock does not move, and nothing else writes the store while `process` runs. Listeners are pure functions of the message, so they cannot enqueue or release messages, and the loop's receives run with no other worker. The termination measure is the number of claimable rows (`Service.Backlog`).

Where the code and its documentation disagree, the model follows the code:
- The `maxMessages` counter of `process` restarts at every sweep (library/ManipleQueue/Service.php:89), so the limit only shortens sweeps. See Findings.
- The queue list is read once per call (library/ManipleQueue/Service.php:82), not before every sweep.
- The loop passes no lease to `receive` (library/ManipleQueue/Service.php:94). Every claim therefore uses the adapter's default lease, not the queue's own lease.
- A store exception during the acknowledging delete is caught by the listener wrapper (library/ManipleQueue/Service.php:204-211). It does not end `process`: the message stays and the event stays stopped.
- A string first argument to `addListener` is always a queue name (library/ManipleQueue/Service.php:187). Only a non-string subject is taken as the handler itself.

## Model

| member | source | states |
|---|---|---|
| DbTable.MakeTableNames | library/ManipleQueue/Adapter/DbTable.php:23-37 | both table names start with the configured prefix (empty when unset) and the two names differ |
| DbTable.TableNamesInjective | library/ManipleQueue/Adapter/DbTable.php:23-34 | two adapters with the same queue table were configured with the same prefix |
| DbTable.Create | library/ManipleQueue/Adapter/DbTable.php:40-61 | an existing name gives false and changes nothing; a new name without failure gives true and appends exactly one row with that name and the given or default lease, records its id in the cache and leaves messages alone; a store failure changes nothing |
| DbTable.CreateTwice | library/ManipleQueue/Adapter/DbTable.php:40-55 | creating a new name twice: the first call gives true, the second false with nothing changed, and exactly one row has the name |
| DbTable.CreatePreservesValid | library/ManipleQueue/Adapter/DbTable.php:46-55 | create keeps queue names and ids unique, ids below the counter, and every cached id pointing at a row of that name |
| DbTable.CreateKeepsQueues | library/ManipleQueue/Adapter/DbTable.php:40-61 | every queue that existed still exists afterwards with the same id |
| DbTable.GetQueues | library/ManipleQueue/Adapter/DbTable.php:166-183 | the listing fails exactly when its query throws, and then leaves the adapter as it was except for an emptied name-to-id cache; on success the store is untouched and no name is listed twice |
| DbTable.GetQueuesListsAll | library/ManipleQueue/Adapter/DbTable.php:166-182 | a name is listed if and only if a queue of that name exists |
| DbTable.GetQueuesOrdered | library/ManipleQueue/Adapter/DbTable.php:171-173 | the listed names are in ascending order of their queues' `received` watermark |
| DbTable.ListedPairOrdered | library/ManipleQueue/Adapter/DbTable.php:171-180 | of any two listed names, the earlier one's queue was served no later than the later one's |
| DbTable.GetQueuesCacheSound | library/ManipleQueue/Adapter/DbTable.php:175-178 | the rebuilt name-to-id cache maps every name to the id of a queue row with that name |
| DbTable.Selectable | library/ManipleQueue/Adapter/DbTable.php:107-109 | a row passes the WHERE clause if and only if it belongs to the queue and is unclaimed or its lease expired strictly before now |
| DbTable.SelectSpec | library/ManipleQueue/Adapter/DbTable.php:107-111 | the select returns at most n eligible rows of the queue, highest priority then oldest first, and any eligible row left out ranks no higher than every row taken, which only happens when n rows were taken |
| DbTable.ClaimAll | library/ManipleQueue/Adapter/DbTable.php:113-133 | no more messages are kept than were selected (which ones, and in which order, is stated by ReceiveFacts.ClaimAllKeepsWinners and ReceiveFacts.WinnersAreMatches) |
| DbTable.ClaimAllKeepsCandidates | library/ManipleQueue/Adapter/DbTable.php:113-133 | every kept message is a selected row carrying the handle minted for its position in the loop |
| DbTable.Watermark | library/ManipleQueue/Adapter/DbTable.php:134-140 | only `received` of the target queue changes, it never decreases and it ends at least now; other queues are untouched |
| DbTable.WatermarkKeepsQueues | library/ManipleQueue/Adapter/DbTable.php:134-140 | the watermark update keeps every queue and its id |
| DbTable.Receive | library/ManipleQueue/Adapter/DbTable.php:72-159 | maxMessages at most 0 and a non-positive lease fail before any store access; a failure leaves the adapter unchanged; without failure the call succeeds exactly when the queue exists; a success returns at most maxMessages messages and keeps names, cache and counters |
| DbTable.DeleteMessage | library/ManipleQueue/Service.php:204 | the delete fails exactly when its statement throws; on success exactly the rows with the message's id are gone, the rest is unchanged, and the result tells whether such a row existed |
| DbTable.DeleteShrinks | library/ManipleQueue/Service.php:204 | a delete shrinks the table if and only if a row with that id was present |
| DbTable.DeletePreservesValid | library/ManipleQueue/Service.php:204 | deleting keeps the store's keys unique and the cache sound |
| Tables.ConditionalUpdate | library/ManipleQueue/Adapter/DbTable.php:117-126 | the table keeps its length; the affected-row count is positive if and only if some row has the id and is still eligible, and never exceeds the number of rows |
| Tables.ConditionalUpdateRows | library/ManipleQueue/Adapter/DbTable.php:117-126 | exactly the rows matching the id and the eligibility test get the new handle and timeout now; every other row is unchanged |
| Tables.ClaimedEligibleIff | library/ManipleQueue/Adapter/DbTable.php:117-124 | a row claimed at time t is claimable again at now if and only if now is later than t plus the lease |
| Tables.CasLoserChangesNothing | library/ManipleQueue/Adapter/DbTable.php:124-132 | an update whose row is no longer eligible affects no row and leaves the table as it was |
| Tables.CasExclusive | library/ManipleQueue/Adapter/DbTable.php:115-132 | after one conditional update on an id succeeds, a second one on the same id at the same now, under any non-negative lease, affects nothing |
| Tables.CasEligibleCount | library/ManipleQueue/Adapter/DbTable.php:117-126 | a conditional update lowers the number of claimable rows by exactly its count |
| Tables.DeleteEligibleCount | library/ManipleQueue/Service.php:204 | deleting a row never adds claimable rows |
| Ranking.TopN | library/ManipleQueue/Adapter/DbTable.php:110-111 | the result is a sorted sub-multiset of the input of length min(n, size); everything it takes ranks no lower than anything it leaves |
| Ranking.TopNIsTop | library/ManipleQueue/Adapter/DbTable.php:110-111 | an element taken ranks no lower than any element left out |
| Ranking.TopNShortTakesAll | library/ManipleQueue/Adapter/DbTable.php:111 | a result shorter than the limit contains every input element |
| ReceiveFacts.ClaimAllSorted | library/ManipleQueue/Adapter/DbTable.php:113-132 | when the selected rows are in rank order (highest priority, then oldest), so are the kept rows |
| ReceiveFacts.Winners | library/ManipleQueue/Adapter/DbTable.php:115-132 | the turns whose update affected a row are listed in the order the loop ran them, each once, each a turn of the loop |
| ReceiveFacts.ClaimAllKeepsWinners | library/ManipleQueue/Adapter/DbTable.php:115-132 | the kept rows are exactly the winning turns' candidates, in loop order, each with the handle minted for its turn: a subsequence of the selected rows, so rows of equal rank keep the select's order and none is kept twice |
| ReceiveFacts.WinnersAreMatches | library/ManipleQueue/Adapter/DbTable.php:117-132 | a candidate is kept if and only if, in the table its update ran against (after any other worker's writes), its row still had the id and was claimable |
| ReceiveFacts.ClaimAllOnlyClaims | library/ManipleQueue/Adapter/DbTable.php:117-126 | with no other worker, the claim loop keeps the table's length and changes no field of any row other than handle and timeout |
| ReceiveFacts.ClaimAllRaceLoser | library/ManipleQueue/Adapter/DbTable.php:124-132 | a row that is not claimable in the table the claim loop starts from, and that no other worker makes claimable again, is never returned |
| ReceiveFacts.ClaimAllUninterfered | library/ManipleQueue/Adapter/DbTable.php:113-133 | with no other worker, every selected row is kept with its minted handle, and the table ends with exactly those rows claimed at now |
| ReceiveFacts.FirstClaimWins | library/ManipleQueue/Adapter/DbTable.php:115-132 | the first selected row's update succeeds, claims exactly that row, and leaves the other selected rows still eligible |
| ReceiveFacts.ReceiveReturnsClaimable | library/ManipleQueue/Adapter/DbTable.php:107-132 | each returned message carries a handle and is the data of a row of the requested queue that was claimable at now when selected; there are at most maxMessages of them, highest priority then oldest first |
| ReceiveFacts.ReceiveKeepsSelectOrder | library/ManipleQueue/Adapter/DbTable.php:107-141 | a successful receive returns exactly the selected rows whose conditional update still found them claimable at update time, in select order, each with the handle minted for its turn |
| ReceiveFacts.ReceiveAdvancesWatermark | library/ManipleQueue/Adapter/DbTable.php:134-140 | after a success, also one that claimed nothing, the queue's `received` is the larger of its old value and now; other queues keep theirs and no watermark decreases |
| ReceiveFacts.ReceiveClaimsSelected | library/ManipleQueue/Adapter/DbTable.php:113-133 | with no other worker, a receive returns exactly the selected rows with their new handles and claims exactly those rows |
| ReceiveFacts.ReceiveEmptyDrained | library/ManipleQueue/Adapter/DbTable.php:107-140 | with no other worker, a receive that returns nothing found no claimable row in the queue and changed no message row |
| ReceiveFacts.ReceiveLeavesClaimed | library/ManipleQueue/Adapter/DbTable.php:115-132 | with no other worker, a returned message's row can no longer be claimed at the same now, under any non-negative lease |
| ReceiveFacts.SecondReceiveMissesClaimed | library/ManipleQueue/Adapter/DbTable.php:115-132 | two receives in a row at the same now never return the same message |
| ReceiveFacts.RacingReceiveMissesClaimed | library/ManipleQueue/Adapter/DbTable.php:122-132 | a worker that selected from the same state, and whose first update comes after another worker's commit, returns none of that worker's messages |
| ReceiveFacts.ReceiveDropsEligible | library/ManipleQueue/Adapter/DbTable.php:113-133 | with no other worker, the number of claimable rows drops by at least the number of messages returned |
| ReceiveFacts.ReceivePreservesValid | library/ManipleQueue/Adapter/DbTable.php:98-141 | with no other worker, a receive keeps the store's keys unique and the cache sound |
| MessageEvent.SetMessage | library/ManipleQueue/MessageEvent.php:24-28 | after setMessage the event carries the given message; name, parameters and the stop flag are kept |
| MessageEvent.SetThenGet | library/ManipleQueue/MessageEvent.php:15-28 | getMessage returns the message most recently set |
| MessageEvent.SetChangesOnlyMessage | library/ManipleQueue/MessageEvent.php:24-28 | setMessage changes nothing but the stored message |
| MessageEvent.GetParamMessage | library/ManipleQueue/MessageEvent.php:35-39 | getParam("message", d) answers the carried message for every default d, whatever the parameter map holds |
| MessageEvent.GetParamOther | library/ManipleQueue/MessageEvent.php:40-41 | any other name goes to the base lookup, and setting a message does not change its answer |
| Service.ChannelsApart | library/ManipleQueue/Service.php:187-192 | a queue's channel is never the global channel, and different queues have different channels |
| Service.AddListener | library/ManipleQueue/Service.php:185-215 | registration fails if and only if a queue name comes without a handler; otherwise the wrapped handler is appended to the subject's channel (the queue's channel for a name, the global channel for a callable) and no other channel changes |
| Service.AddListenerOrder | library/ManipleQueue/Service.php:196 | two handlers added for one queue sit on its channel in the order they were added |
| Service.OpenQueue | library/ManipleQueue/Service.php:141-148 | a cached name is answered from the cache with no adapter call; a miss makes exactly one create call, and on success caches the handle for that name of a queue that now exists; a failure changes nothing; queues, their ids and the message rows are kept |
| Service.OpenQueueTwice | library/ManipleQueue/Service.php:141-148 | once open, a queue is opened again with the same handle and no adapter call |
| Service.Invoke | library/ManipleQueue/Service.php:196-212 | a handler result other than true, including an exception, leaves the message, the store and propagation untouched; true stops propagation and deletes the message, and if the delete throws the error is swallowed and nothing changes |
| Service.Fire | library/ManipleQueue/Service.php:196-212 | listeners run in order until the first acknowledgement, which is the only adapter call and comes from the last listener run; with no acknowledgement every listener runs and nothing changes; an event already stopped runs only its first listener |
| Service.Offer | library/ManipleQueue/Service.php:105-124 | the global channel is skipped if and only if a queue listener acknowledged and its delete went through, and then the row is gone; if no queue listener acknowledges, the global channel fires |
| Service.Deliver | library/ManipleQueue/Service.php:91-124 | a queue's receive either fails with nothing changed or yields a visit for that queue; a delivered message lowers the number of claimable rows by at least one, queues and their ids are kept |
| Service.DeliverClaimable | library/ManipleQueue/Service.php:94-103 | a delivered message was claimable in its queue at the loop's clock reading and carries its new handle |
| Service.DeliverIdleDrained | library/ManipleQueue/Service.php:94-101 | a queue that came up empty has no claimable message left, and its turn changed no message row |
| Service.Turn | library/ManipleQueue/Service.php:90-124 | a queue turn keeps channels, queues and ids, does not grow the backlog, lowers it when a message is delivered, and keeps the store valid |
| Service.Sweep | library/ManipleQueue/Service.php:88-132 | a sweep visits the listed queues in list order, each at most once; its count is the number of messages delivered and never passes max(maxMessages, count at the start + 1), and each message lowers the backlog |
| Service.SweepStopsAtLimit | library/ManipleQueue/Service.php:126-131 | no turn follows the message that brings the count to maxMessages: every delivery before the last visit left the count below the limit |
| Service.SweepCutShort | library/ManipleQueue/Service.php:126-131 | a successful sweep that does not reach the end of the list has reached the limit, and its last visit delivered a message |
| Service.SweepPreservesValid | library/ManipleQueue/Service.php:88-132 | a sweep keeps the store's keys unique and the cache sound |
| Service.Sweeps | library/ManipleQueue/Service.php:88-133 | another sweep follows exactly those that received something; a run that ends normally ends with a sweep that received nothing; no sweep receives more than max(maxMessages, 1); all sweeps together lower the backlog by the number delivered, which bounds the number of sweeps |
| Service.SweepsEndFull | library/ManipleQueue/Service.php:88-133 | a run that ends normally ends with a sweep that found every listed queue empty |
| Service.Process | library/ManipleQueue/Service.php:80-134 | a failing listing ends the call at once, with only the adapter's name-to-id cache emptied; otherwise every sweep takes the queues of the one listing in order, no sweep receives more than max(maxMessages, 1), every sweep but the last received something, and the backlog falls by the total delivered |
| Service.ProcessEndsIdle | library/ManipleQueue/Service.php:88-133 | when process returns normally, its last sweep visited every listed queue and found each empty |
| Service.TurnIdleDrains | library/ManipleQueue/Service.php:91-101 | a turn that found its queue empty left the queue with nothing claimable and changed no message row |
| Service.IdleSweepDrains | library/ManipleQueue/Service.php:90-101 | a full sweep that received nothing leaves every listed queue with nothing claimable |
| Service.SweepsDrain | library/ManipleQueue/Service.php:88-133 | a loop that ends normally leaves every queue of its list with nothing claimable |
| Service.ProcessDrains | library/ManipleQueue/Service.php:80-134 | when process returns normally, no queue that existed at the start holds a message the loop could still claim |
| ProcessLimit.ProcessOneReceivesTwo | library/ManipleQueue/Service.php:88-133 | with limit 1, one queue and two claimable messages, the loop as written receives two messages in one call |
| ProcessLimit.CappedSweeps | library/ManipleQueue/Service.php:77-133 | with the counter carried across sweeps, a run never receives more than the limit, or one message when the limit is below one |
| ProcessLimit.CappedSweepsStop | library/ManipleQueue/Service.php:126-133 | a capped run that ends normally reached its limit or ended with a sweep that received nothing |
| ProcessLimit.ProcessCapped | library/ManipleQueue/Service.php:74-134 | process with the limit counted over the whole call: at most max(maxMessages, 1) messages per call, sweeps in list order |
| ProcessLimit.ProcessCappedStops | library/ManipleQueue/Service.php:126-133 | a capped call that returns normally either reached its limit or ended with a sweep that received nothing |
| ProcessLimit.CappedOneReceivesOne | library/ManipleQueue/Service.php:77 | on the same input the capped loop receives at most one message, fewer than the loop as written |

## Left out

- Logging: every logger call is a side effect with no bearing on the state, so it is dropped.
- `sendMessage` and its JSON encoding (library/ManipleQueue/Service.php:158-168): a producer-side foreign call, outside the modelled core.
- The clock: `floor(microtime(true) * 1000)` becomes the integer parameter `now`. A `process` call uses one reading for all its receives, which is what bounds its number of sweeps.
- The random handle `md5(uniqid(rand(), true))` becomes a caller-supplied `mint`. The model neither assumes nor needs the handles to be fresh.
- Parent-class helpers that are not part of this model (`isExists`, `getQueueId`, `deleteMessage` of Zend_Queue_Adapter_Db, `Zend_Queue`): existence is a lookup by name, the queue id is the id of the row found by name, and delete removes rows by message id.
- Detach on delete: the deleted message's queue reference becomes None. This is the behaviour the comment at library/ManipleQueue/Service.php:114 relies on; the parent code that would do it is not part of this model.
- `FOR UPDATE` row locking (library/ManipleQueue/Adapter/DbTable.php:104-106): it changes only how the store schedules transactions, which the interference parameter already covers.
- Real transactions and other workers: a failure returns the adapter from before the call. Another worker appears only as a table handed to each conditional update. A rollback after such interference is modelled as the pre-call store, without the other worker's commit.
- `intval` on the arguments: `maxMessages` and the lease are integers already.
- Zend EventManager internals (identifiers, shared and wildcard listeners, the listener priority queue): reduced to channels holding ordered listener lists and a stop flag. The stop flag is checked after each listener and is not reset between the two triggers of one message, so a stopped per-queue event still runs the first global listener.
- The `false` return at library/ManipleQueue/Adapter/DbTable.php:60 for a save that reports nothing saved: the store model's insert always saves.
- The `received` column default of a new queue row comes from a schema that is not part of this model. It is taken to be 0.
- `CREATE_TIMEOUT_DEFAULT` and `RECEIVE_TIMEOUT_DEFAULT` belong to the parent class. They are taken as 30 seconds; the proofs use only that they are positive.
- QueueWorker, Bootstrap and the configuration files: wiring with no logic of the core.
- DbTable.Receive: the source's default queue (a null queue argument means the adapter's own queue, library/ManipleQueue/Adapter/DbTable.php:87-89) is not modelled; the queue name is always given.
- Service.Process: the default `maxMessages = 1` (library/ManipleQueue/Service.php:80) is not modelled; the limit is always given.
- Ranking.TopN: `ORDER BY priority DESC, created ASC` leaves the order of rows that tie on both columns to the database. The model fixes one of the orders the database may produce, the rows' table order. No contract relies on it.
- Service.Sweeps: listeners are modelled as pure functions of the message (acknowledge, return anything else, or throw), and `process` runs with no other worker or producer. In the source, a listener that calls `sendMessage` on a listed queue at each delivery, or another process that keeps enqueueing, keeps `do … while ($messagesReceived > 0)` (library/ManipleQueue/Service.php:88-133) going forever. A producer writing into a queue after its turn in the final idle sweep also leaves a claimable message behind. The termination bound and the drain results (Service.SweepsDrain, Service.ProcessDrains) hold only under this single-writer premise.
- MessageEvent.GetParamOther: parameter names are strings only. The source also accepts integer names, and PHP's loose `switch` comparison (library/ManipleQueue/MessageEvent.php:36-41; the integer type is declared at line 30) makes `getParam(0, $d)` match the `'message'` case on PHP 5 and 7; that integer-name match is not modelled.
- Service.Invoke: a handler exception is a `Throws` reaction, and the wrapper treats it like any result other than true. Which exceptions PHP can raise is not modelled.

## Findings

| source | as written | input that shows it | evidently intended | confidence | as-written member | corrected member |
|---|---|---|---|---|---|---|
| library/ManipleQueue/Service.php:89 | the message counter restarts at 0 at every sweep, and the loop repeats while the last sweep received something, so `maxMessages` limits each sweep rather than the call | `process(1)` on one queue holding two claimable messages with no listeners: sweep one receives the first message and stops at the limit, sweep two the second, sweep three finds none; two messages are processed | at most `maxMessages` messages per call, as the parameter's documentation at line 77 says | medium, not executed | ProcessLimit.ProcessOneReceivesTwo | ProcessLimit.ProcessCapped |
