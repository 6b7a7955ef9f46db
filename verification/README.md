# Water-meter log: model and proofs

The program collects sensor messages from a Bluetooth mesh into complete rows, keeps the rows in a bounded SQLite
table, and answers window queries over that table for a web client. This project models the whole chain from message
to answer and proves what each stage promises and what the stages promise together.

| stage | modules |
|---|---|
| C widths, sensor readings, the shared block, table rows | `Types` |
| the fixed SQL statements as functions of a table in id order | `Sql`, `Table`, `Alarms` |
| gathering a row: one message and one `DB_AddRow` attempt a step | `Gathering`, `Epochs` |
| which step each stored row comes from, and what that makes of the table | `StoredRows` |
| the bounded log: insert, count, find the oldest id, delete a band, each of which can fail | `Retention` |
| table answers: one-pass reading, paging, earliest rows | `Answers` |
| two statements of one request with the parent's inserts and cuts in between | `TwoStatements`, `Serving` |
| which single state of the table a request can be said to have read | `OneState` |
| the keyword hash, the request fields, the base lookup | `Hash`, `Requests` |
| what a client can rely on, said of rows and request fields only | `Promises` |
| the column list edited in place, and the answer's columns | `Columns` |
| the manager object and the mesh bridge, as classes changed in place | `Manager`, `Bridge` |
| parent writes and child reads of the shared block, interleaved | `Snapshots` |
| facts about sequences | `Seqs` |

The classes follow the source statement by statement; each method is proved equal to a specification function
(`Receive`, `Append`, `Resolve`, `ServeTable`, ...), and the theorems are lemmas about those functions over all runs.
`Bridge.BleBridge.Handle` closes the gap: after any sequence of handler calls the object's memory, flags and table are
exactly those of `Gathering.Run` and `Retention.LogAfter`, so every theorem about runs is one about the object.

What the model takes from SQLite: every statement is atomic; an `INTEGER PRIMARY KEY` without AUTOINCREMENT gets the
greatest id plus one, or 1 on an empty table; with a single `MIN(id)` the bare columns come from the row holding the
minimum; a name selected twice names two equal result columns; `min` and `max` over no rows are NULL; a negative LIMIT is no limit. The retention limits are symbolic
(at least 1 row kept, a band of at least 2); `Retention.SOURCE_LIMITS` holds the program's values.

Some natural statements are false of the code. Each has an input that shows it and the exact condition:

- A change is lost when the INSERT that should record it fails, because the flags are reset first
  (`Epochs.FailedInsertLosesChange`); the newest row is current if and only if the last INSERT succeeded or the table
  already ended in such a row (`Epochs.NoLostChange`).
- A "down" answer can change between the two statements when rows are cut, even if none of its own rows was
  (`TwoStatements.CutCanChangeAnswer`, at any limits). It stays if and only if none of its rows was cut and every row that
  the cut made the earliest of its counter lies below all of them (`TwoStatements.DownAnswerIsStable`); on ordered
  counters the first half decides alone (`TwoStatements.OrderedDownAnswerIsStable`).
- An "up" answer can lose its rows too. It is only ever extended if and only if its base row is still stored
  (`TwoStatements.UpAnswerGrowsFromBase`), and unchanged if and only if, besides, it was full or no new row brought a new
  counter (`TwoStatements.UpAnswerIsStable`).
- A request need not read any single state of the table. One by "id", up or down, does if and only if its row is still
  stored at the end, unless it fails or asks for no rows (`OneState.IdRequestReadsOneState`).
- The switch on "base" compares hashes only: "He" is taken for "id" (`Hash.AnotherTextIsTaken`). A text is taken for a
  keyword if and only if its characters, up to the first NUL or 256 of them, peel off the keyword's hash down to 5381
  (`Hash.TakenExactly`).
- `GROUP BY` without a limit equals a one-pass scan if and only if counters never decrease (`Answers.ScanNeedsMonotone`);
  with one, if and only if the scan's rows are in strict counter order and earliest in the window
  (`Answers.ScanNeedsEarliest`), of which going up the order suffices (`Answers.UpScanNeedsOrder`).
- A row of an "up" answer can miss an earlier row with its counter (`Answers.UpAnswerMissesEarlier`), if and only if one
  lies before the base (`Answers.UpAnswersAreEarliest`).

The request documentation (readme_vpq.txt) and the default of 100 rows (up2web_comm.h:13) suggest that "amount" is optional; the code
reads a missing amount as 0 and answers no rows. The model follows the code (`Requests.AmountIsCapped`).

## Model

| member | source | states |
|---|---|---|
| Manager.Up2Web.constructor | up2web_comm.cpp:178-184 | counter -1, capacity and volume -1.0, no alarms, all else zero, and nothing being gathered |
| Manager.Up2Web.UpdateAccumulator | up2web_comm.cpp:191-198 | the counter field holds the value as a signed 32-bit number, no other field changes, and bit 0x01 is added if a row is open, or opens one if the value changed; this is the machine's step |
| Manager.Up2Web.UpdatePumpCapacity | up2web_comm.cpp:199-204 | the capacity field holds the reading if that is a normal number and zero otherwise, no other field changes, and bit 0x02 is added only while a row is open; this is the machine's step |
| Manager.Up2Web.UpdatePumpCapacityAvg | up2web_comm.cpp:205-210 | likewise for the average capacity and bit 0x10 |
| Manager.Up2Web.UpdateTankVolume | up2web_comm.cpp:211-216 | likewise for the tank volume and bit 0x04 |
| Manager.Up2Web.UpdateAlarms | up2web_comm.cpp:217-225 | the alarm word and the time are stored, no other field changes, and bit 0x08 is added if a row is open, or opens one if the word changed; this is the machine's step |
| Manager.Up2Web.UpdatePPtimeouts | up2web_comm.cpp:226-232 | all four values copied in place, no other field changes, and bit 0x20 is added only while a row is open; this is the machine's step |
| Manager.Up2Web.DB_AddRow | up2web_comm.cpp:301-349 | nothing unless all six bits are set; then the flags are reset whatever happens; return codes 1 to 4 for the four statements; on gapless ids the row stored has the next id and the memory's fields, column by column, and the oldest band goes when all succeed at or over the bound |
| Manager.FlagSetOr | up2web_comm.h:39 | OR-ing a flag bit into the word adds exactly that kind to the set |
| Manager.FlagSetBounds | up2web_comm.h:39 | comparing the word with NEW_EMPTY and NEW_FULL_ROW_MSK is comparing the set with none and all |
| Manager.Up2Web.DBreqGetBaseID | up2web_comm.cpp:400-460 | result, direction and amount are those of the specification lookup, early returns and both error codes included |
| Manager.Up2Web.DB_ServeTableRequest | up2web_comm.cpp:494-541 | leaves the known columns in the request, and answers the columns of the rows the two statements select, repeated names included, with the length of the last one, or the exact error code |
| Manager.Up2Web.DB_ServeAlarmsRequest | up2web_comm.cpp:543-568 | answers the three fixed columns of the change list, with their number, or the exact error code |
| Gathering.FlagsStayOk | up2web_comm.cpp:191-232 | in every reachable state the flags are not full, and if not empty hold the counter or the alarm flag |
| Gathering.CountingBound | up2web_comm.cpp:191-232 | over any run, six times the rows attempted plus the flags pending never exceed the messages executed |
| Gathering.Progress | up2web_comm.cpp:304-305 | any segment that starts with gathering open and brings every missing kind attempts a row |
| Gathering.RetryIsHarmless | main.cpp:26-38 | executing the buffer again after a failed read completes no row and changes only the alarm time |
| Epochs.RowFreshness | up2web_comm.cpp:191-232 | whenever a step completes a row, memory holds the last value of each of the six kinds received in the row's own epoch, which a changed counter or alarm opened |
| Epochs.EpochsAreDisjoint | up2web_comm.cpp:304-305 | epochs of different rows never overlap |
| Epochs.LastAttemptIsCurrent | up2web_comm.cpp:191-225 | while nothing is being gathered, the last row attempted (or the starting values) has exactly the counter and alarm word in memory |
| Epochs.NoLostChange | up2web_comm.cpp:301-321 | then the newest stored row is current if and only if the last INSERT succeeded or the table already ended in such a row |
| Epochs.NothingIsLost | main.cpp:37-38 | with INSERTs succeeding, at any moment of any run a row is being gathered, or the newest row is current, or nothing was stored and memory is as initialised |
| Epochs.FailedInsertLosesChange | up2web_comm.cpp:305-321 | a run after which a new counter is in memory, nothing is being gathered, and no row shows it |
| Epochs.EqualCountersMeanAlarm | up2web_comm.cpp:191-225 | of the values two steps complete, if incoming counters never decrease: the later counter is not smaller, it is larger if a counter opened the epoch, and if they are equal an alarm did |
| Epochs.RowsNeedSixMessages | up2web_comm.cpp:304-321 | six messages are executed for each row inserted |
| Epochs.ProgressInserts | up2web_comm.cpp:304-321 | the progress property for stored rows, when INSERTs succeed |
| Epochs.StepAfterRun | main.cpp:37-38 | one more message and one more attempt extend machine and table together |
| StoredRows.StoredSteps | up2web_comm.cpp:301-321 | the rows a run inserts are exactly those of the completing steps whose INSERT succeeded, in order, with that step's values and date |
| StoredRows.StoredRowsAreFresh | up2web_comm.cpp:191-232 | every row inserted in the table, whatever fails, has an epoch of its own and holds the last value of each of the six kinds received in it |
| StoredRows.StoredRowsHoldReadings | up2web_comm.cpp:191-232 | column by column: each stored row shows the last counter, capacity, average, volume, alarm word and timeouts received from the step that brought a changed counter or alarm word to the step that completed it, a float that is not normal as zero, and the latter step's date; steps of different rows do not overlap |
| StoredRows.EqualStoredCountersMeanAlarm | up2web_comm.cpp:488-493 | if incoming counters never decrease, neither do those of inserted rows; a row opened by a counter is strictly larger than all before it; of two rows with equal counters the later was opened by an alarm |
| StoredRows.CountersStayOrdered | up2web_comm.cpp:301-349 | then counters in the table never decrease with the id, whatever statements fail, which the query results assume |
| StoredRows.DatesStayOrdered | up2web_comm.cpp:309-310 | likewise for dates, if the clock never steps back |
| Retention.NextIdIsLastPlusOne | up2web_comm.cpp:282 | on gapless ids a new row's id is the last id plus one, or 1 |
| Retention.CutIsBand | up2web_comm.cpp:332-341 | on gapless ids the DELETE removes exactly the oldest band |
| Retention.AppendEffect | up2web_comm.cpp:301-349 | ids stay gapless, and rows are cut exactly when all four statements succeed at or over the bound |
| Retention.AppendMeans | up2web_comm.cpp:313-348 | the codes of one call, and the row it stores column by column |
| Retention.SuffixOfHistory | up2web_comm.cpp:313-348 | whatever fails, ids are gapless and never reused, the table is the end of all accepted rows, and the newest min(accepted, limit) rows are there |
| Retention.ClosedForm | up2web_comm.cpp:301-349 | with nothing failing, n calls leave the history without its first THRESH * max(0, floor((n - MAX) / THRESH)) rows, row number i has id i, and the size stays below the bound |
| Retention.SourceBound | up2web_comm.h:17-18 | with the program's constants: nothing is cut up to 1,000,099 rows, row 1,000,100 leaves a million, never more than 1,000,099 and never below a million again |
| Retention.Recovery | up2web_comm.cpp:322-348 | a table e rows over the bound is back under it after exactly floor(e / (THRESH - 1)) + 1 successful calls |
| Retention.EmptyingReusesIds | up2web_comm.cpp:332-348 | why at least one row must be kept: a cut that empties the table makes ids start again at 1 |
| Sql.MinIdIsLeast | up2web_comm.cpp:333-338 | min(id) is the least id satisfying the condition, NULL exactly when there is none |
| Sql.MaxIdIsGreatest | up2web_comm.cpp:410-412 | max(id) is the greatest, NULL exactly when there is none |
| Sql.FilterMembers | up2web_comm.cpp:341 | a WHERE clause keeps exactly the rows that satisfy it |
| Table.GroupsAreEarliest | up2web_comm.cpp:488-493 | GROUP BY with MIN(id) keeps exactly the rows that are earliest in the window for their counter |
| Table.AnswerIsSortedPage | up2web_comm.cpp:533-538 | for either direction the nested query is the first or last groups by id, in strictly increasing counter order |
| Answers.ScanRefinesGroupBy | up2web_comm.cpp:533-538 | on non-decreasing counters the whole query equals one pass that keeps the first row of each run and takes the first or last n |
| Answers.ScanNeedsMonotone | up2web_comm.cpp:533-538 | and the unlimited answer equals the pass only then |
| Answers.ScanNeedsEarliest | up2web_comm.cpp:533-538 | a limited answer equals the limited pass if and only if the rows of the pass are in strict counter order and each is the earliest in the window for its counter |
| Answers.UpScanNeedsOrder | up2web_comm.cpp:534-538 | going up, if and only if they are in strict counter order |
| Answers.DownAnswersAreEarliest | up2web_comm.cpp:536-538 | every row of a "down" answer is the earliest of the whole log for its counter |
| Answers.UpAnswersAreEarliest | up2web_comm.cpp:534-538 | on any log, a row of an "up" answer is the earliest of the whole log for its counter if and only if no row before the base has that counter |
| Answers.OnlyFirstMissesEarlier | up2web_comm.cpp:534-538 | on non-decreasing counters only the window's first row can fail that |
| Answers.UpAnswerMissesEarlier | up2web_comm.cpp:534-538 | and it can: a log of two rows and an answer that shows the later |
| Answers.DownPagingComposes | up2web_comm.cpp:536-538 | on any log, a full page of n and then a page of m from just below its oldest row hold exactly the rows of one page of n + m |
| Answers.PagingEndsAtOldest | up2web_comm.cpp:432 | if the id just below a full page is not stored, the page had exhausted all groups |
| TwoStatements.HistorySplits | up2web_comm.cpp:301-349 | after any parent calls the old and new rows are the cut ones followed by the table, all cut ids below all stored ones |
| TwoStatements.DownAnswerIsStable | up2web_comm.cpp:531-540 | a "down" data query after any parent calls answers as at lookup time if and only if no answered row was cut and every row the cut made the earliest of its counter lies below all answered ones |
| TwoStatements.UncutDownAnswerIsStable | up2web_comm.cpp:531-540 | so it does after any number of inserts, as long as the oldest row is there |
| TwoStatements.OrderedDownAnswerIsStable | up2web_comm.cpp:531-540 | and when counters in the window never decrease, if and only if no answered row was cut |
| TwoStatements.FreshIsPicked | up2web_comm.cpp:534-537 | the groups a window keeps after its older part are its own groups less the counters of that part |
| TwoStatements.UpAnswerOnlyGrows | up2web_comm.cpp:531-540 | while its base row is stored an "up" answer's groups are only ever extended, and a full answer never changes |
| TwoStatements.UpAnswerGrowsFromBase | up2web_comm.cpp:531-540 | from a base that was stored, they are extended if and only if it still is, or no rows are asked for |
| TwoStatements.UpAnswerIsStable | up2web_comm.cpp:531-540 | and the answer is the same if and only if no rows are asked for, or the base row is stored and the answer was full or every new row's counter was in the window |
| TwoStatements.CutReopensOne | up2web_comm.cpp:534-537 | on ordered counters a cut turns at most one row into a new group, the first one left |
| TwoStatements.RelapseChangesAnswer | up2web_comm.cpp:322-348 | keeping the answered rows is not enough: on any table whose last row repeats the counter of a first band of exactly THRESH rows, about to be cut, the answer of one row changes though that row stays |
| TwoStatements.CutCanChangeAnswer | up2web_comm.cpp:322-348 | for all limits, the program's included, there is such a table |
| Alarms.ChangesAreExact | up2web_comm.cpp:556-563 | on any table the join keeps, in id order, the rows on the base's side that some row one id below differs from (Promises.AlarmRequestIs says what that means for an answer) |
| Alarms.StoredFormDecides | up2web_comm.cpp:309-311 | comparing stored words (signed 32-bit, widened to 64) under a filter decides as comparing the 32-bit words under it |
| Types.StoredWordIs | up2web_comm.cpp:309-311 | a stored alarm word with bit 31 set is the word less 2^32, any other is the word |
| Alarms.FiltersUnite | up2web_comm.cpp:380-388 | the unlimited list for two filters together is the union of their lists |
| Alarms.ListReconstructs | up2web_comm.cpp:556-563 | on gapless ids, any list with all changes from a row on replays to the masked word of every later row it covers |
| Alarms.UpListIsLossless | up2web_comm.cpp:556-565 | the "up" list with the base row's masked word gives that of every later row, as far as LIMIT lets the list reach |
| Alarms.DownListIsLossless | up2web_comm.cpp:556-565 | the "down" list, cut or not, gives that of every row from its first change up to the base |
| Alarms.ReachableListIsLossless | up2web_comm.cpp:301-349 | the unlimited "up" list is lossless on every table DB_AddRow can leave, whatever statements failed |
| Alarms.GapHidesChange | up2web_comm.cpp:559-561 | the join needs gapless ids: across a gap a change is not listed |
| Hash.StrHashFolds | up2web_comm.cpp:357-359 | the recursive form on a terminated buffer folds the text up to its NUL |
| Hash.StrHashVol | up2web_comm.cpp:360-369 | the two-loop form equals the recursive form on the first min(length, limit) characters, modulo 2^32, whatever the signedness of char |
| Hash.WidenIs | up2web_comm.cpp:358-366 | a byte over 0x7f widens to the byte less 256 when char is signed |
| Hash.HashedIs | up2web_comm.cpp:360-364 | exactly the characters before the first NUL count, and of those the first 256 |
| Hash.KeywordTexts | up2web_comm.cpp:409-446 | the five keywords, letter by letter |
| Hash.PrefixCancels | up2web_comm.cpp:357-369 | texts with a common prefix collide exactly when the rests do |
| Hash.OneCharacterMatters | up2web_comm.cpp:357-369 | changing exactly one character, anywhere, changes the hash |
| Hash.PeelIsExact | up2web_comm.cpp:360-369 | p + s has a given hash if and only if s has the hash that p peels it down to, 33 being invertible |
| Hash.TakenExactly | up2web_comm.cpp:407-446 | the switch takes a text for a keyword if and only if its characters up to the first NUL, at most 256, hash to the keyword's value, that is, peel off it down to 5381 |
| Hash.KeywordsDispatch | up2web_comm.cpp:408-446 | each keyword, as a C string, reaches its own case |
| Hash.MistypedKeywordIsNotTaken | up2web_comm.cpp:408-446 | a keyword with exactly one character changed, even to a NUL, never reaches that keyword's case |
| Hash.AnotherTextIsTaken | up2web_comm.cpp:408-423 | a different text can: "He" reaches the case of "id" |
| Requests.AmountIsCapped | up2web_comm.cpp:371-378 | never over 1000; the amount itself up to there; 0 when missing |
| Requests.NamesExactly | up2web_comm.cpp:407-408 | a request names a keyword if and only if its "base" is a text that peels off the keyword's hash down to 5381 |
| Requests.AnotherBaseIsServed | up2web_comm.cpp:407-433 | a request with base "He" is looked up exactly as with base "id" |
| Requests.ResolveMatches | up2web_comm.cpp:400-460 | a base row comes back exactly when some keyword is named, its operand is there, the statement works and some row qualifies; it is one of those rows; otherwise -1 or -2 |
| Requests.BaseIsNearest | up2web_comm.cpp:409-457 | it is the first qualifying row in the direction of the answer, which "last" and "first" override, and the limit is unchanged |
| Promises.LookupEnds | up2web_comm.cpp:409-422 | "last" finds the greatest id and "first" the least; -2 on an empty table or a failed statement |
| Promises.LookupId | up2web_comm.cpp:423-433 | "id" finds the row's id if stored; -1 if not or if the field is missing; -2 when the statement fails |
| Promises.LookupDate | up2web_comm.cpp:434-445 | with a direction beginning "up", "date" finds the least id with date >= the one asked for, otherwise the greatest with date <= it; -2 when there is none or the statement fails, -1 when the field is missing |
| Promises.LookupCounter | up2web_comm.cpp:446-457 | likewise for "counter" |
| Promises.NoKeyword | up2web_comm.cpp:407-408 | a "base" that is missing, no text, or names no keyword gives -1 |
| Promises.NoIntegerIsZero | up2web_comm.cpp:424-449 | an operand that is there but is no integer counts as 0 |
| Requests.DateSplits | up2web_comm.cpp:438-441 | on non-decreasing dates, filtering by id against the row found selects exactly the rows on its side of the date |
| Requests.CounterSplits | up2web_comm.cpp:450-453 | likewise for counters |
| Requests.BaseSplitsLog | up2web_comm.cpp:434-457 | so the window of a resolved "date" or "counter" request is exactly the rows the request asks for |
| Promises.DateSides | up2web_comm.cpp:434-445 | on non-decreasing dates, row by row: a row is on the answer's side of the base if and only if it is on the requested side of the date |
| Promises.CounterSides | up2web_comm.cpp:446-457 | likewise for counters |
| Promises.TableRequestIs | up2web_comm.cpp:494-541 | of the rows on the base's side with no lower id there for their counter, a served request answers the first n by id going up and the last n going down, at most 1000, all if n is negative, in increasing counter order; it goes up for "first" and for a direction beginning "up" except with "last" |
| Promises.AlarmRequestIs | up2web_comm.cpp:543-568 | of the rows on the base's side whose alarm word differs from the row before's in a bit of the filter (all 32 if missing, otherwise the number modulo 2^32), a served request answers the first n going up and the last n going down, at most 1000, all if n is negative, in id order |
| Promises.ServedCodes | up2web_comm.cpp:531-568 | a failed lookup's code is the answer's, a failed data query's is -2 |
| Promises.NoAmountNoRows | up2web_comm.cpp:371-378 | a missing or non-integer amount answers no rows |
| Serving.DownRequestReadsLookupState | up2web_comm.cpp:531-540 | a whole "down" request, errors included, gives what the table at base-lookup time would have given, if and only if it fails anyway or its answer survives the cut in that sense |
| OneState.IdRequestReadsOneState | up2web_comm.cpp:423-433 | a resolved "id" request, in either direction, gives what some single state of the table, at the lookup or since, would have given if and only if the data query fails, no rows are asked for, or its row is still stored |
| OneState.UpRequestReadsLastState | up2web_comm.cpp:423-457 | a resolved upward "id", "date" or "counter" request gives what the table its data query sees would have given, while its base row is stored |
| OneState.FirstRequestReadsLastState | up2web_comm.cpp:416-422 | a "first" request on a table with rows always does |
| OneState.OrderedUpRequestReadsLastState | up2web_comm.cpp:434-457 | so does an upward "counter" ("date") request, base row cut or not, when the counters (dates) of all rows ever stored never decrease |
| Serving.IdRequestIsServed | up2web_comm.cpp:423-433 | an "id" request answers from the table of its data query when its row is in the table of its lookup, and with an error code when not |
| Serving.PagingByRequests | up2web_comm.cpp:423-433 | of two "id" requests with parent calls between all statements, the second is refused exactly when the row below the first page is gone (if it never was there, the first page had all rows); served, they hold exactly the rows of one request for n + m if and only if the second answer survived |
| Serving.UpFromCounterIsEarliest | up2web_comm.cpp:416-457 | a served "first" request, and an upward "counter" request if counters never decrease in the table its data query sees, answers only rows that are the earliest of that table for their counter, whatever the parent did between the statements |
| Serving.AlarmRequestIsLossless | up2web_comm.cpp:543-568 | an "up" alarm request across parent activity that keeps its base row gives every later row's masked word unless a limit filled it; a negative amount is none |
| Columns.FilterColumns | up2web_comm.cpp:506-523 | the in-place loop ends and leaves exactly the known names, in order, printed as the SQL list; the flag says whether WF_counter is among them |
| Columns.KnownIs | up2web_comm.cpp:264 | a name is kept, where it stands, exactly if it is one of the eleven columns |
| Columns.SplitGivesNamesBack | up2web_comm.cpp:469-476 | splitting a comma-separated list and trimming gives the names back |
| Columns.ListGivesNamesBack | up2web_comm.cpp:514-521 | in particular for the list the column loop prints |
| Columns.EmptyColumns | up2web_comm.cpp:467-476 | the walk from comma to comma makes one empty column for each name and ends holding the last name |
| Columns.ReceiveRow | up2web_comm.cpp:573-582 | one callback turns the columns of the rows so far into those of one row more, a repeated name getting its value as often as it is listed |
| Columns.RetrieveData | up2web_comm.cpp:462-487 | the answer holds every value of the result rows and its amount is the length of the last column, their number times how often that is listed; -2 when the statement fails |
| Columns.PivotIsTranspose | up2web_comm.cpp:573-582 | when no name is repeated the answer is the rectangular transpose of the rows |
| Columns.PivotShows | up2web_comm.cpp:281-292 | with distinct names, the columns id, date, WF_counter and alarms show those fields of the rows, in order |
| Columns.PivotShowsReadings | up2web_comm.cpp:281-292 | likewise PP_capacity, PP_capacity_avg and TK_volume |
| Columns.PivotShowsTimeouts | up2web_comm.cpp:281-292 | likewise the four timeouts |
| Columns.ColumnLength | up2web_comm.cpp:479 | a column is as long as the result times how often its name is listed |
| Columns.PivotDeterminesRows | up2web_comm.cpp:573-582 | an answer with every column determines its rows |
| Bridge.BleBridge.constructor | ble_messaging.cpp:23-26 | no destination is known and no message was executed |
| Bridge.BleBridge.UpdatePPmeshAddr | ble_messaging.cpp:31-34 | the shared destination becomes the given address |
| Bridge.BleBridge.ReceiveTimeouts | ble_messaging.cpp:68-75 | the four timeouts of the message reach the manager |
| Bridge.BleBridge.RememberSource | ble_messaging.cpp:40-43 | the private copy becomes the message's source, and the shared address too if the two agreed, as they do between messages; an equal one is not written again |
| Bridge.BleBridge.Dispatch | ble_messaging.cpp:44-81 | opcode and length select the machine's step; everything else leaves state and flags alone |
| Bridge.BleBridge.MessageExec | ble_messaging.cpp:36-83 | for opcodes 0xC802E5 to 0xCD02E5 at their length, in a type 1 packet to group 0xC00C, the field of that kind holds the payload and no other changes; any other packet leaves memory and flags alone; the shared destination becomes the source of such a packet and is otherwise kept |
| Bridge.LastSourceIs | ble_messaging.cpp:38-43 | the last source is that of the last type 1 packet to group 0xC00C executed, and 0 before the first |
| Bridge.BleBridge.Handle | main.cpp:26-40 | after any handler calls memory, flags and table are those a run of the machine leads to; a call whose read brings nothing stores no row |
| Bridge.BleBridge.Send | ble_messaging.cpp:84-107 | succeeds exactly when a destination is known, the opcode is 0xC002E5 or 0xC102E5 and the payload has at most 8 bytes, and then the frame holds them; each refusal has its code and leaves the payload alone |
| Bridge.RepeatIsHarmless | main.cpp:27-38 | executing the buffer again after a run that ended with it changes only the alarm time |
| Snapshots.WritesMakeUpdate | up2web_comm.cpp:191-232 | the single field writes of an update amount to the update |
| Snapshots.NextIsConsistent | up2web_comm.cpp:191-259 | every lock, write, read and unlock of either process keeps the shared block consistent |
| Snapshots.SnapshotsLinearize | up2web_comm.cpp:235-259 | in every interleaving, each Serialize returns memory as after some whole updates, and later ones see at least as many |
| Snapshots.TimeoutsAreNeverTorn | up2web_comm.cpp:226-259 | the four timeouts of a snapshot come from one message, or are the initial ones |
| Snapshots.SnapshotCompletes | up2web_comm.cpp:235-259 | whenever the mutex is free Serialize can take it and complete a snapshot of the updates complete by then |
| Snapshots.UpdateCompletes | up2web_comm.cpp:191-232 | and the next update can take it and complete |

## Left out

- Sockets, the accept loop, `fork`, `alarm`, `mmap`, console output and file logs: a handler call starts with what was read, if anything.
- A read that returns only part of a message: a packet arrives whole, or not at all.
- The byte layout of a message (main.cpp:27 and the struct in ble_messaging.h): payloads are given as each kind of message reads them.
- Bridge.BleBridge.ReceiveTimeouts: copies four values; ble_messaging.cpp:71 counts to the size in bytes, 8, and runs past both arrays, for which C gives no meaning.
- SQLite and jansson: only the meaning of the fixed statements and of the JSON accesses used; SQL text, types of stored columns and reference counting are not modelled, and a statement's failure is an input.
- Rounding and printing of floats, `strftime`, JSON output text: floats are kept as values with their class, timeouts as hundredths.
- The clock: dates and message times are inputs; since local time can step back, ordered dates are derived only where the clock is assumed not to.
- Manager.Up2Web.DB_ServeTableRequest: entries of "columns" that are not strings are not modelled; the source makes a C++ string of a null pointer there, which has no defined result.
- The mutexes are taken to be correct locks between processes, and signal handlers not to re-enter; `Snapshots` and `TwoStatements` interleave the processes, the classes take one call at a time.
- Message sequences in `Snapshots` cover the updates and `Serialize` only; the destination address is one word, and is covered by `Bridge`.
- Ids are unbounded: the end of SQLite's 64-bit range is not reached.
- `DB_Open`: the table at start is a parameter; theorems that need it take gapless ids from 1 or later, which is what the program itself leaves.
