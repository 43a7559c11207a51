# Virtual waiting room: expiry reconciliation and reset

This project models two handlers of the waiting room's core API.

- **Expiry reconciliation** (`set_max_queue_position_expired`). A scheduler calls it periodically. Unless a reset is in progress (`RESET_IN_PROGRESS != 0`), it:
  - reads the watermark `MAX_QUEUE_POSITION_EXPIRED` from the counter store;
  - queries the serving-counter issued-at table for the records whose `serving_counter` lies above the watermark, in ascending order;
  - walks those candidates, looking up each one's entry time in the queue-position table.

  It stops at the first candidate that has no entry, or whose later of entry time and issue time is still within `QUEUE_POSITION_EXPIRY_PERIOD` of now. For every candidate before that point it:
  - moves the watermark to that candidate;
  - if `INCR_SVC_ON_QUEUE_POS_EXPIRY` is the string `"true"`, credits the serving counter with the positions in the gap that were not served (`incr_serving_counter`). A credit raises `SERVING_COUNTER`, writes a new issuance record under the new value with nothing served, and publishes an `automatic_serving_counter_incr` event.
- **Reset** (`reset_initial_state`). If the sanitised request id matches the configured `EVENT_ID`, it:
  - raises `RESET_IN_PROGRESS`;
  - zeroes six counters;
  - rebuilds the token table, the queue-position table and the serving-counter table, in that order, with five calls each: delete, wait until gone, create, wait until present, enable point-in-time recovery;
  - clears the flag and answers 200 "Reset completed".

  If any call raises, the error propagates: the flag stays at 1 and the counters stay zeroed. A mismatched id gets 400 "Invalid event ID" and changes nothing.

The stores are one value, `Store.State`. It holds:

- the counters;
- the issuance table keyed by `serving_counter`;
- the queue-position entry times keyed by position;
- the token table's request ids;
- the life cycle of each DynamoDB table (absent, deleting, creating, active with a key schema and a recovery flag);
- a journal of every mutation in order: counter writes, increments, record puts, published events and table calls.

Each handler is specified twice:

- As a function on `State`: `QueueExpiry.Pass` and `InitialState.Reset`. The properties of each handler are proved as lemmas about these functions.
- As a method of the class `Handlers.WaitingRoom`, whose fields are the stores. The methods update the fields in place, as the handlers do. Each method is proved to leave the fields equal to the function applied to the old state:
  - `SetMaxQueuePositionExpired` is a `while` loop with `break`s. Its invariant ties the state after `i` iterations to `QueueExpiry.ScanPrefix`.
  - `ResetInitialState` is a straight-line sequence of calls that return early when one raises.

Every table call of the reset may fail. The parameter `faults` names the calls that would raise if made. Independently of `faults`:

- a delete raises unless the table is active;
- a create raises unless it is absent;
- each waiter gives up on a table heading the wrong way.

So a reset that raised after deleting a table and before its exists-waiter returned leaves that table deleting, absent or creating, and a retry raises again at that table's delete (`InitialState.ResetNeedsActiveTables`). A reset that started with every table active and raised elsewhere, for instance at a faulty delete or at enabling recovery, leaves every table active, and a retry with no faulty call completes. `InitialState.ResetCompletesExactly` states when a reset completes: exactly when every table was active and no call was faulty.

## Model

| member | source | states |
|---|---|---|
| Store.WriteCounter | source/core-api/lambda_functions/set_max_queue_position_expired.py:94 | an unconditional `set` gives the key the new value, leaves every other counter, item and table as it was, and appends exactly that write to the journal |
| QueueExpiry.Candidates | source/core-api/lambda_functions/set_max_queue_position_expired.py:58-61 | the query result is strictly ascending and holds exactly the issuance keys strictly above the watermark |
| QueueExpiry.StopIndex | source/core-api/lambda_functions/set_max_queue_position_expired.py:82-91 | every candidate before the stop index has an entry and is past its grace period; the candidate at the stop index (if any) has no entry or is still within it |
| QueueExpiry.StopIndexUnique | source/core-api/lambda_functions/set_max_queue_position_expired.py:82-91 | any index with every earlier candidate expired and itself past the end or not expired is the stop index, so the loop stops at exactly that point |
| QueueExpiry.PreviousBelowCandidate | source/core-api/lambda_functions/set_max_queue_position_expired.py:68-105 | the `previous` handed to the credit is the starting watermark for the first candidate and the preceding candidate for later ones, and always lies below the candidate |
| QueueExpiry.Credit | source/core-api/lambda_functions/set_max_queue_position_expired.py:108-147 | with `increment_by = (pos - previous) - served` at most 0, nothing changes; otherwise `SERVING_COUNTER` rises by exactly that amount, a record (issue time, 0 served) is written at the new value, all other records and counters are unchanged, and one event (cur - increment_by, increment_by, cur) is published |
| QueueExpiry.MarkExpired | source/core-api/lambda_functions/set_max_queue_position_expired.py:93-128 | the loop body sets the watermark to the candidate (one watermark write in the journal); with crediting on, the serving counter rises by exactly the positive part of `(pos - previous) - served` and the events gain exactly the one credit event of a positive increment, and a positive increment writes the record (issue time, 0 served) at the new serving value and changes no other record; with crediting off the serving counter, records and events are untouched |
| QueueExpiry.MarkExpiredWithinServing | source/core-api/lambda_functions/set_max_queue_position_expired.py:93-102 | the loop body keeps the watermark and every issuance key at or below the serving counter when the candidate is at or below it |
| QueueExpiry.CreditEvents | source/core-api/lambda_functions/set_max_queue_position_expired.py:132-147 | crediting the first `n` candidates publishes at most `n` events, each with increment_by > 0 and current - previous = increment_by |
| QueueExpiry.CreditEventsTile | source/core-api/lambda_functions/set_max_queue_position_expired.py:102-105 | the credit events tile the rise of the serving counter: the first starts at the old value, each starts where the one before ended, and the last ends at the old value plus the credit total |
| QueueExpiry.ScanPrefix | source/core-api/lambda_functions/set_max_queue_position_expired.py:70-128 | after `n` iterations the watermark is the `n`-th candidate (or unchanged for none) and the watermark writes are exactly the first `n` candidates in order; with crediting on the serving counter has risen by exactly the sum of the positive increments, each computed with the `previous` of line 105, the events are exactly the credit events, and the records are the old ones with (issue time, 0 served) written at each credit event's new serving value, in order; with crediting off the serving counter, records and events are unchanged; other counters, entries and tables are unchanged |
| QueueExpiry.ScanExtend | source/core-api/lambda_functions/set_max_queue_position_expired.py:93-105 | running the loop body on the next candidate, with `previous` the candidate before it, turns the state after `n - 1` iterations into one that satisfies everything ScanPrefix states for `n` |
| QueueExpiry.ScanPrefixWithinServing | source/core-api/lambda_functions/set_max_queue_position_expired.py:70-105 | the scan keeps the watermark and every issuance key at or below the serving counter when every candidate starts at or below it |
| QueueExpiry.Pass | source/core-api/lambda_functions/set_max_queue_position_expired.py:42-65 | with the reset flag non-zero, or with no record above the watermark, the pass changes nothing at all |
| QueueExpiry.WatermarkAfterPass | source/core-api/lambda_functions/set_max_queue_position_expired.py:68-98 | after the pass the watermark is the last processed candidate, or its old value when none was processed, and it never decreases |
| QueueExpiry.ExpiredInOrder | source/core-api/lambda_functions/set_max_queue_position_expired.py:70-98 | the watermark writes of a pass are exactly the processed prefix of the ascending candidates, and every one of them is past its grace period |
| QueueExpiry.StopCandidateNotExpired | source/core-api/lambda_functions/set_max_queue_position_expired.py:82-91 | the candidate the scan stops at has no entry or is inside its grace period, and it and every later candidate stay above the new watermark |
| QueueExpiry.ServingNeverDecreases | source/core-api/lambda_functions/set_max_queue_position_expired.py:114-121 | a pass never lowers the serving counter |
| QueueExpiry.PassWithoutCredit | source/core-api/lambda_functions/set_max_queue_position_expired.py:100-102 | unless the credit flag is exactly "true", a pass leaves the serving counter, the issuance table and the event bus alone |
| QueueExpiry.PassEvents | source/core-api/lambda_functions/set_max_queue_position_expired.py:132-147 | a pass publishes at most one event per processed candidate, each with increment_by > 0 and current - previous = increment_by |
| QueueExpiry.PassCredits | source/core-api/lambda_functions/set_max_queue_position_expired.py:100-147 | with crediting on, a pass raises the serving counter by exactly the sum over the processed candidates of the positive part of `(pos - previous) - served`, publishes exactly one event per positive increment, those events tile the rise from the old serving counter to the new one, and the records are the old ones with (issue time, 0 served) written at each event's new serving value |
| QueueExpiry.PassWithinServing | source/core-api/lambda_functions/set_max_queue_position_expired.py:93-128 | a pass keeps the invariant that the watermark and every issuance key lie at or below the serving counter |
| QueueExpiry.PassKeepsReadable | source/core-api/lambda_functions/set_max_queue_position_expired.py:47-61 | after a pass the counters, tables and flag the handler reads are still present, so the next scheduled pass can run |
| QueueExpiry.PassIdempotent | source/core-api/lambda_functions/set_max_queue_position_expired.py:58-105 | a second pass at the same time changes nothing, when crediting is off or the appended records are stamped later than now minus the expiry period |
| QueueExpiry.FirstAfterScanNotExpired | source/core-api/lambda_functions/set_max_queue_position_expired.py:86-91 | after a scan that stopped, the least record above the new watermark exists and is not expired |
| InitialState.StepEffect | source/core-api/lambda_functions/reset_initial_state.py:62-79 | a table call succeeds exactly when it is not faulty and the table is in a state that allows it; a successful call changes no counter and adds nothing to the journal itself |
| InitialState.StepTransition | source/core-api/lambda_functions/reset_initial_state.py:62-79 | delete leaves the table deleting and drops its items; the not-exists waiter leaves it absent; create leaves it creating with its schema; the exists waiter leaves it active; PITR enables recovery; other tables and items are unchanged |
| InitialState.RunSteps | source/core-api/lambda_functions/reset_initial_state.py:61-130 | a run of calls never changes a counter, and the call it reports as raised is one of the run's calls |
| InitialState.RunStepsCompleted | source/core-api/lambda_functions/reset_initial_state.py:61-118 | a run that raises nowhere made every call and none of them was faulty |
| InitialState.RunStepsFrame | source/core-api/lambda_functions/reset_initial_state.py:61-117 | a run leaves alone every table none of its calls names |
| InitialState.RunStepsJournal | source/core-api/lambda_functions/reset_initial_state.py:61-117 | the journal of a run is the calls it made, in order |
| InitialState.RunStepsStopsAtFailure | source/core-api/lambda_functions/reset_initial_state.py:128-130 | a run that raises stops at the call that raised; one that does not makes every call |
| InitialState.RunStepsAppend | source/core-api/lambda_functions/reset_initial_state.py:61-117 | running two sequences of calls runs the second only if the first completed |
| InitialState.PlanInStages | source/core-api/lambda_functions/reset_initial_state.py:61-117 | the reset's calls run table by table: token, then queue position, then serving counter, each starting only if the previous table's rebuild completed |
| InitialState.Teardown | source/core-api/lambda_functions/reset_initial_state.py:62-66 | on an active table with no faulty call, delete and the not-exists waiter leave it absent with its items dropped |
| InitialState.Recreate | source/core-api/lambda_functions/reset_initial_state.py:142-266 | re-creating an absent table leaves it active with recovery enabled and the key schema of its `create_*_table` function: token table hash key request_id with index EventExpiresIndex (event_id, expires); queue-position table hash key request_id with index QueuePositionIndex (queue_position); serving-counter table key (event_id, serving_counter) |
| InitialState.RebuildActiveTable | source/core-api/lambda_functions/reset_initial_state.py:62-79 | the five calls on an active table with no faulty call complete and leave it active, empty, with its schema and recovery on, and every other table and item unchanged |
| InitialState.RebuildInactiveTable | source/core-api/lambda_functions/reset_initial_state.py:62 | rebuilding a table that is not active raises at its delete call |
| InitialState.RebuildUntouched | source/core-api/lambda_functions/reset_initial_state.py:61-117 | rebuilding one table leaves the state of every other table unchanged |
| InitialState.RunPlanWithoutFaults | source/core-api/lambda_functions/reset_initial_state.py:61-118 | with three active tables and no faulty call, all fifteen calls complete and leave all tables active, empty, with their schemas and recovery on |
| InitialState.ResponseOf | source/core-api/lambda_functions/reset_initial_state.py:123-136 | a completed reset answers 200 "Reset completed", a mismatched id 400 "Invalid event ID", and a raised error has no response |
| InitialState.ResetResponse | source/core-api/lambda_functions/reset_initial_state.py:48-136 | the handler answers 400 "Invalid event ID" exactly when the ids differ, and 200 "Reset completed" exactly when they match, every table was active and none of the reset's calls was faulty |
| InitialState.ZeroCounters | source/core-api/lambda_functions/reset_initial_state.py:53-58 | SERVING, QUEUE, TOKEN, COMPLETED_SESSION, ABANDONED_SESSION and MAX_QUEUE_POSITION_EXPIRED become 0 in that order; no other counter, item or table changes |
| InitialState.FrozenCounters | source/core-api/lambda_functions/reset_initial_state.py:49-58 | after the guard passes, the flag is 1, the six counters are 0, and the journal holds the flag write first and then the six zeroings, with no table touched yet |
| InitialState.Reset | source/core-api/lambda_functions/reset_initial_state.py:48-136 | a mismatched id returns InvalidEventId and leaves the stores exactly as they were; a matching id never returns InvalidEventId |
| InitialState.ResetJournalOrder | source/core-api/lambda_functions/reset_initial_state.py:49-120 | on a matching id the mutations are: the flag set to 1, the six zeroings, the table calls in plan order up to the one that raised, and, only when all completed, the flag set to 0 |
| InitialState.ResetCounters | source/core-api/lambda_functions/reset_initial_state.py:49-130 | on a matching id the six counters end at 0 and the flag ends at 0 after completion and at 1 after a raise |
| InitialState.CompletedResetTables | source/core-api/lambda_functions/reset_initial_state.py:61-127 | with active tables and no faulty call the reset completes, leaving all three tables active, empty, with their schemas and recovery on |
| InitialState.CompletedResetHadNoFault | source/core-api/lambda_functions/reset_initial_state.py:120-130 | a reset completes only if none of its calls was faulty |
| InitialState.ResetNeedsActiveTables | source/core-api/lambda_functions/reset_initial_state.py:62-117 | a reset started while some table is not active (deleting, absent or creating) raises |
| InitialState.ResetCompletesExactly | source/core-api/lambda_functions/reset_initial_state.py:61-130 | a matching reset completes if and only if every table was active and none of its calls was faulty |
| InitialState.FailedResetFreezesExpiry | source/core-api/lambda_functions/reset_initial_state.py:128-130 | after a reset that raised, the flag is still set, so the expiry pass can read the stores and changes nothing |
| InitialState.CompletedResetState | source/core-api/lambda_functions/reset_initial_state.py:120-127 | after a completed reset, whatever the state before, all tables are active with their schemas, all items are gone, the counters are present and the flag is 0 |
| InitialState.CompletedResetIsIdle | source/core-api/lambda_functions/reset_initial_state.py:120-127 | after a completed reset the expiry pass can run and finds nothing to expire, and the watermark bound holds, so every later pass keeps it |
| InitialState.EmptyStoresAreIdle | source/core-api/lambda_functions/set_max_queue_position_expired.py:58-65 | with the counters present, the flag clear and an empty issuance table, a pass changes nothing |
| Handlers.WaitingRoom.SetCounter | source/core-api/lambda_functions/set_max_queue_position_expired.py:94 | the in-place counter write leaves the stores as Store.WriteCounter says |
| Handlers.WaitingRoom.IncrServingCounter | source/core-api/lambda_functions/set_max_queue_position_expired.py:108-147 | the in-place credit leaves the stores as QueueExpiry.Credit says |
| Handlers.WaitingRoom.MarkExpired | source/core-api/lambda_functions/set_max_queue_position_expired.py:93-102 | the in-place loop body leaves the stores as QueueExpiry.MarkExpired says |
| Handlers.WaitingRoom.SetMaxQueuePositionExpired | source/core-api/lambda_functions/set_max_queue_position_expired.py:42-105 | the handler's loop, with its two breaks, leaves the stores exactly as QueueExpiry.Pass says, so every property proved of Pass holds of it |
| Handlers.WaitingRoom.PerformStep | source/core-api/lambda_functions/reset_initial_state.py:61-117 | one table call is logged and, when it succeeds, reports true and has the effect of InitialState.StepEffect; otherwise it reports false and changes nothing else |
| Handlers.WaitingRoom.RebuildTable | source/core-api/lambda_functions/reset_initial_state.py:62-79 | the five calls on one table, returning early at the first that raises, leave the stores as InitialState.RunSteps on that table's calls says and report the same raised call |
| Handlers.WaitingRoom.ZeroCounters | source/core-api/lambda_functions/reset_initial_state.py:53-58 | the six in-place zeroings leave the stores as InitialState.ZeroCounters says |
| Handlers.WaitingRoom.ResetInitialState | source/core-api/lambda_functions/reset_initial_state.py:35-139 | the handler leaves the stores and returns the outcome exactly as InitialState.Reset says, so every property proved of Reset holds of it |

## Left out

- Client construction, environment and Secrets Manager reads (both files, module level): the configuration (`EVENT_ID`, expiry period, credit flag string) is passed as parameters.
- `deep_clean` (reset_initial_state.py:41) is a foreign sanitiser: the model receives the id after cleaning.
- The clock: `now` is a parameter of the pass. `issueTime`, the time stamped on appended records, is a second parameter shared by all credits of one pass. The source reads the clock once per credit.
- QueueExpiry.PassIdempotent: needs `now - issueTime < expiryPeriod` when crediting is on. The source meets this only if the clock does not go back and the period is positive. With crediting on and records stamped long before `now`, a second pass could expire records the first one appended.
- Query pagination (lines 58-61): the query result is taken to be the complete ascending candidate sequence.
- Several items for one queue position: the model keeps one entry time per position, the one the source would read as `items[0]`.
- Missing counters or missing tables: the source would raise from `int(None)` or from the query. `QueueExpiry.Readable` requires them to be present, and that exception path is not modelled.
- A failed `rc.set` (line 98) only prints, so the model lets every counter write succeed.
- The reset's counter writes are also taken to succeed: the `getset` calls at reset_initial_state.py:49-58 run outside the `try`, and the `rc.set` at line 120 inside it. A Redis error at any of them is not modelled.
- Other store, network or event-bus failures during a pass are not modelled.
- `put_events` delivery: the published detail is recorded in the journal only.
- Waiter timing and polling, billing mode, SSE, attribute definitions and index projections are not modelled. The tables are life-cycle states, key schemas and a recovery flag.
- A waiter that gives up is a raised call: either it is listed in `faults` or the table is heading the wrong way.
- Redis's signed 64-bit range is not modelled: counters are unbounded integers.
- Concurrent overlapping invocations are not modelled. Each handler is one sequential run, and the reset flag is read once at the start of a pass.
- `print` logging, response headers and JSON body serialisation are not modelled. A response is its status code and message.
- The issued-at record append is an unconditional overwrite, as `put_item` at line 128 is: `put_item` has no condition, so a credit that lands on an existing `serving_counter` value overwrites that record.
- Table states do not change between invocations. In DynamoDB a table left creating by a waiter that gave up becomes active on its own, and a retried reset could then delete it; the model keeps it creating, so the retry raises at that delete.
