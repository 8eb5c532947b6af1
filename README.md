# Secret Santa: a verified model of the service layer

This project models the core of a small Secret Santa web application, in Dafny. That core covers:

- the draw of recipients, with its exclusion rules and its one-step deadlock lookahead;
- the feasibility check run before a game;
- the SMS queue and its drain loop, and the gateway rules with their delivery log;
- the routing of notifications by preference, and the SMS templates;
- the wish-list permission rules and the purchase toggle;
- the partial update of notification preferences;
- the request validators;
- the browser's phone-number formatter.

Every database table is a field of one `Schema.Database` object:

- `participants`
- `exclusions`
- `queue`
- `logs`
- `nonParticipants`
- `items`
- `purchases`

Each AUTO_INCREMENT counter is a field of that object too. The services that change tables are methods modifying exactly those fields. Each method is proved against a pure function of the old tables, and the promises of the application are lemmas about those functions.

Values the application reads from outside are parameters of the model. These are:

- the clock (`now`, and the local hour for the allowed-hours window);
- the random number of the draw;
- the environment variables;
- the phone-number library;
- the URL and phone validators;
- the SMS carrier's answer.

Modules, one per source file:

- `Common` (common.dfy): options, results, JSON values and JavaScript truthiness, `Filter`, `ORDER BY` as a stable insertion sort, `String(n)`, and `Math.round` of a percentage.
- `Schema` (schema.dfy): row datatypes, the `Database` class and its key invariant.
- `AssignmentService` (assignment.dfy): `services/assignmentService.js`.
- `ExclusionService` (exclusion.dfy): `services/exclusionService.js`.
- `SmsQueueService` (sms_queue.dfy): `services/smsQueueService.js`.
- `TwilioService` (twilio.dfy): `services/twilioService.js`.
- `NotificationService` (notification.dfy): `services/notificationService.js`.
- `SmsTemplates` (templates.dfy): `templates/smsTemplates.js`.
- `WishlistController` (wishlist.dfy): `controllers/wishlistController.js`.
- `NotificationController` (preferences.dfy): `controllers/notificationController.js`.
- `Validation` (validation.dfy): `middleware/validation.js`.
- `PhoneInput` (phone_input.dfy): `formatPhoneNumber` of `public/js/main.js`.

## Model

| member | source | states |
|---|---|---|
| AssignmentService.AvailableRecipients | services/assignmentService.js:6-31 | A participant is a candidate exactly when it is not the drawer, nobody has drawn it, and the drawer has no rule against it. |
| AssignmentService.WouldCauseDeadlock | services/assignmentService.js:34-90 | The loop with its early return answers true exactly when some other un-picked participant would have no one left to draw once the candidate is taken. It answers false when no other un-picked participant exists. |
| AssignmentService.PickIndex | services/assignmentService.js:153-154 | `floor(random * n)` with `0 <= random < 1` is a valid index into the safe list. |
| AssignmentService.Chosen | services/assignmentService.js:153-154 | The randomly chosen recipient is one of the safe recipients. |
| AssignmentService.FilterSafe | services/assignmentService.js:137-143 | The push loop keeps exactly the candidates that pass the lookahead, in candidate order. |
| AssignmentService.DrawAssignment | services/assignmentService.js:93-188 | The reply and the new participant table are those of the draw function. A successful draw enqueues exactly the drawer's assignment text, and the queue counter advances by the rows enqueued. A failed draw enqueues nothing and leaves the counter alone. |
| AssignmentService.CommitDraw | services/assignmentService.js:93-169 | The guarded draw and its UPDATE agree with the draw function, and the table invariant is kept. |
| AssignmentService.CommitAt | services/assignmentService.js:159-163 | The UPDATE changes only the drawer's row, and in it only the assignment, the picked flag and the time of the pick. |
| AssignmentService.CommitRows | services/assignmentService.js:159-163 | The same as CommitAt, for every row at once. |
| AssignmentService.CommitKeepsOrder | services/assignmentService.js:159-163 | The commit keeps the table in id order. |
| AssignmentService.CommitNoSelf | services/assignmentService.js:137-163 | Committing a recipient other than the drawer keeps "nobody draws themselves". |
| AssignmentService.CommitRespects | services/assignmentService.js:137-163 | Committing a recipient the drawer does not exclude keeps "no exclusion is violated". |
| AssignmentService.CommitNoShared | services/assignmentService.js:137-163 | Committing a recipient nobody has drawn keeps "nobody is drawn twice". |
| AssignmentService.CommitPickedIff | services/assignmentService.js:159-163 | The commit keeps "has picked exactly when a recipient is assigned". |
| AssignmentService.CommitRecipientsExist | services/assignmentService.js:159-163 | Committing an existing participant keeps "every assigned recipient exists". |
| AssignmentService.IsAssignedAfterCommit | services/assignmentService.js:53-85 | After the commit, somebody has been drawn exactly when it is the new recipient or somebody other than the drawer drew it before. |
| AssignmentService.OptionsAfterCommit | services/assignmentService.js:53-85 | For every participant, the lookahead's count query equals the number of candidates that participant has after the commit. |
| AssignmentService.DeadlockIsLookahead | services/assignmentService.js:34-90 | A deadlock is reported exactly when, after the commit, some un-picked participant has no candidate left. This holds in both directions. |
| AssignmentService.DeadlockStrandsAfterCommit | services/assignmentService.js:53-85 | A reported deadlock really strands somebody after the commit. |
| AssignmentService.StrandedAfterCommitIsDeadlock | services/assignmentService.js:53-85 | Somebody stranded by the commit is always detected by the lookahead. |
| AssignmentService.DrawFailureChangesNothing | services/assignmentService.js:104-150 | Each failed or repeated draw leaves the table unchanged. "Not found" is reported exactly when the drawer's row is missing. The two "no candidates" replies mean that the safe list, or the candidate list, is empty. |
| AssignmentService.DrawnShape | services/assignmentService.js:104-169 | A successful draw found the drawer's row, which had not picked. It had a non-empty safe list, committed the chosen recipient, and that recipient is a candidate. |
| AssignmentService.DrawSuccess | services/assignmentService.js:137-169 | On success, the recipient is a safe recipient, not the drawer, not excluded and not yet drawn. Only the drawer's row changes. |
| AssignmentService.PickIndexHits | services/assignmentService.js:153-154 | For every index `k < n`, the random value `k / n` selects exactly `k`. |
| AssignmentService.EverySafeRecipientReachable | services/assignmentService.js:137-154 | Every safe recipient is drawn for some value of the random number. |
| AssignmentService.DrawerRowFound | services/assignmentService.js:104-124 | In an id-ordered table, the lookup finds the drawer's un-picked row. |
| AssignmentService.DrawChosen | services/assignmentService.js:137-169 | Past the guards, the draw commits the chosen safe recipient. |
| AssignmentService.DrawPreservesConsistency | services/assignmentService.js:93-188 | Sequential draws keep the table in order and consistent. Consistent means: no self-assignment, no exclusion violated, nobody drawn twice, picked exactly when assigned, and every recipient exists. |
| AssignmentService.DrawLeavesEveryoneAnOption | services/assignmentService.js:137-143 | After a successful draw, every participant who has not picked still has a candidate. |
| AssignmentService.DrawnTable | services/assignmentService.js:159-169 | After a successful draw the drawer's row is picked, holds the recipient and the time, and the recipient's name is the one reported. |
| AssignmentService.RedrawIsIdempotent | services/assignmentService.js:112-124 | Drawing again returns the same recipient with "already picked", and changes nothing. |
| AssignmentService.GetAssignment | services/assignmentService.js:191-234 | "Not found" means exactly that the caller's row is missing. Otherwise the row found decides: an assignment exactly when it has picked and names a recipient, else "not picked yet". An assignment carries that recipient's id, the row's `picked_at`, and the first name the LEFT JOIN finds for the recipient. |
| AssignmentService.GetAssignmentMeaning | services/assignmentService.js:191-234 | In a table with one row per id, the view is the caller's row: an assignment with recipient id, joined name and `picked_at` exactly when that row has picked and names a recipient. A name shown is the recipient row's first name. |
| AssignmentService.GetAssignmentAfterDraw | services/assignmentService.js:191-234 | After a draw, `getAssignment` shows the drawn recipient, that recipient's name and the time of the pick. |
| AssignmentService.ResetOutcome | services/assignmentService.js:237-259 | After a reset nobody has picked. Every other column is kept, the order is kept and the table is consistent. Every candidate list is "everybody else not excluded". |
| AssignmentService.ResetAllAssignments | services/assignmentService.js:237-259 | The UPDATE is the reset of every row, and the count returned is the number of rows. |
| AssignmentService.GameStatusCounts | services/assignmentService.js:262-317 | Picked plus not picked equals the total. Each list has its count as its length and holds exactly the rows it counts. |
| AssignmentService.PickedRowsExactly | services/assignmentService.js:285-297 | The "picked" list holds exactly one joined row per participant who has picked. |
| AssignmentService.GameStatusPercent | services/assignmentService.js:299-307 | The percentage is 0 for an empty table, and otherwise the rounded share of picked participants. It is 0 when nobody has picked and 100 when everybody has. |
| AssignmentService.CanPickAgreesWithDraw | services/assignmentService.js:320-365 | Every refusal of `canParticipantPick` is exactly the matching failure of the draw. "Can draw" means the draw gets past its candidate check, and the count given is the number of candidates. |
| AssignmentService.TwoPeopleOneRule | services/assignmentService.js:126-134 | Worked example, one concrete table: with two people and one rule against the only possible pick, the draw has no candidates. |
| ExclusionService.AddRuleOutcome | services/exclusionService.js:4-36 | The insert fails exactly for a self-exclusion or an existing pair, each with its own message, and a failure changes nothing. A success appends exactly one rule with a fresh id. Afterwards the pair is excluded exactly when it is not a self-pair. |
| ExclusionService.AddExclusion | services/exclusionService.js:4-36 | The rule table and the counter become those of the insert function. |
| ExclusionService.StoredId | services/exclusionService.js:11-16 | The id the INSERT stores for an accepted body value: the integral number itself, or the integer a decimal string spells. |
| ExclusionService.TrimmedReason | middleware/validation.js:91-94 | The reason the controller reads is the trimmed one, and it is present exactly when the body has one. |
| ExclusionService.AddRequestAsWritten | services/exclusionService.js:4-21 | The route as written: refused exactly when the validator reports errors. A failure leaves the table alone, and a success appends the rule for the two stored ids. |
| ExclusionService.MixedTypesStoreSelfRule | services/exclusionService.js:7 | The body `{participantId: 3, excludedParticipantId: "3"}` is accepted, and the rule "3 may not draw 3" is stored, breaking the table invariant. |
| ExclusionService.AddRequest | services/exclusionService.js:4-21 | The route as intended: refused with the validator's errors exactly when there are any. Otherwise the self-check compares the stored ids. |
| ExclusionService.AddRequestKeepsRulesValid | services/exclusionService.js:4-21 | On the intended route every request keeps the rule table valid, and the same id in two spellings is refused as a self-exclusion with nothing changed. |
| ExclusionService.AddRequestAgreesOffMixed | services/exclusionService.js:4-21 | The two routes give the same answer and table except for an accepted body whose two values spell the same id. |
| ExclusionService.RemoveRuleOutcome | services/exclusionService.js:39-55 | The `deleted` flag is true exactly when a rule had that id. That rule is gone, nothing else is, and the table stays valid. |
| ExclusionService.RemoveExclusion | services/exclusionService.js:39-55 | The rule table becomes that of the delete function. |
| ExclusionService.AddThenRemoveRestores | services/exclusionService.js:4-55 | Removing the rule that was just added gives back the rows as they were. |
| ExclusionService.FilterDropsNewRule | services/exclusionService.js:39-48 | Deleting by the fresh id of an appended rule removes exactly that rule. |
| ExclusionService.CanPickAfterAddAndRemove | services/exclusionService.js:152-172 | After adding (a, b), `canPick(a, b)` is false; after removing that rule it is true again. No other pair's answer changes. |
| ExclusionService.PairsBeforeLength | services/exclusionService.js:117-126 | The first m rows of the nested loops try m·(n−1) pairs. |
| ExclusionService.PairsBeforeAt | services/exclusionService.js:117-126 | Pair (ids[i], ids[k]) with i ≠ k is tried at a known position of the loops. |
| ExclusionService.PairsBeforeHas | services/exclusionService.js:117-126 | The first m rows try every pair (ids[i], ids[k]) with i < m and i ≠ k. |
| ExclusionService.PairsBeforeOnly | services/exclusionService.js:117-126 | The first m rows try only such pairs. |
| ExclusionService.FamilyPairsAreOrderedPairs | services/exclusionService.js:117-126 | A group of n ids tries exactly the n(n−1) ordered pairs of distinct positions. |
| ExclusionService.AddPairsOutcome | services/exclusionService.js:117-141 | Trying a list of pairs keeps every earlier rule and the table's validity, and adds at most one rule per pair. Afterwards every non-self pair tried is excluded. |
| ExclusionService.FamilyGroupOutcome | services/exclusionService.js:108-149 | After a family group, any two members with different ids exclude each other. The number added is at most n(n−1), and the table grows by exactly that number. |
| ExclusionService.TriedStep | services/exclusionService.js:117-126 | One turn of the inner loop tries (ids[i], ids[j]) off the diagonal, and skips j = i. |
| ExclusionService.TriedAtRowStart | services/exclusionService.js:117-126 | At the start of row i, the pairs of the earlier rows have been tried. |
| ExclusionService.TriedAtRowEnd | services/exclusionService.js:117-126 | At the end of row i, the pairs of rows 0..i have been tried. |
| ExclusionService.TryPair | services/exclusionService.js:118-134 | The loop body takes the state of the pairs tried so far to the state of one more pair tried. |
| ExclusionService.AddRowExclusions | services/exclusionService.js:118-135 | The inner loop takes the state of the first i rows to the state of the first i+1 rows. |
| ExclusionService.AddFamilyGroupExclusions | services/exclusionService.js:108-149 | Fewer than two ids are refused, with nothing changed. Otherwise the result and the rule table are those of trying every ordered pair in loop order. |
| ExclusionService.GameCheckNamesStranded | services/exclusionService.js:175-218 | "Too few" is reported exactly when there are fewer than two participants. "No valid picks" is reported exactly when somebody has no static candidate, and it names the first such participant in id order. |
| ExclusionService.GameCheckPossible | services/exclusionService.js:220-250 | The game is reported possible exactly when there are at least two participants and everybody has a static candidate. The warning comes exactly when twice the rule count exceeds n(n−1). Its percentage then lies between 50 and 100 provided there are at most n(n−1) rules. The model does not derive that bound from the rule table, and the mixed-type self rule of the findings can break it. |
| ExclusionService.GameCheckIgnoresAssignments | services/exclusionService.js:189-218 | The check does not look at who has drawn whom. |
| ExclusionService.ValidateGameIsPossible | services/exclusionService.js:175-250 | The loop with its early return gives the report of the check function. |
| SmsQueueService.NewEntry | services/smsQueueService.js:5-25 | The inserted row is unprocessed and carries the given fields. |
| SmsQueueService.QueueSms | services/smsQueueService.js:5-33 | The method appends exactly one entry with the next id, and returns that id. |
| SmsQueueService.PendingSms | services/smsQueueService.js:36-60 | The selection holds at most `limit` rows, as many as are due up to that limit. It holds only unprocessed rows due by `now`, ordered by (priority, scheduled_for). |
| SmsQueueService.PendingAreFirst | services/smsQueueService.js:48-51 | The selection takes the first due rows in send order. Every due row left out sorts no earlier. |
| SmsQueueService.MarkProcessed | services/smsQueueService.js:63-78 | The UPDATE marks processed, at `now`, exactly the rows with that id. Every other row is unchanged. |
| SmsQueueService.MarkKeepsKeys | services/smsQueueService.js:63-78 | Marking keeps the keys distinct and below the counter. |
| SmsQueueService.MarkAsProcessed | services/smsQueueService.js:63-78 | The queue becomes that of the mark function. |
| SmsQueueService.DrainPrefix | services/smsQueueService.js:94-150 | After n messages, success plus failure is n. The log grows by n rows and keeps its old rows. |
| SmsQueueService.DrainOne | services/smsQueueService.js:104-150 | One turn logs the send, marks the message and counts one outcome. |
| SmsQueueService.SendStep | services/smsQueueService.js:104-150 | On the tables, one turn appends the log row and marks the message processed. |
| SmsQueueService.DrainNext | services/smsQueueService.js:94-150 | The loop body moves the drain state from n messages to n+1. |
| SmsQueueService.DrainBatch | services/smsQueueService.js:94-150 | The loop over the batch ends in the state of the whole-batch drain. |
| SmsQueueService.ProcessQueue | services/smsQueueService.js:81-167 | The reply and the tables after `processQueue` are those of the drain function. |
| SmsQueueService.DrainLogAt | services/smsQueueService.js:112-147 | The i-th message adds the i-th new log row, for that message's own send. |
| SmsQueueService.DrainLogsEachMessage | services/smsQueueService.js:112-147 | Each fetched message yields exactly one log row, in batch order. |
| SmsQueueService.DrainMarksBatch | services/smsQueueService.js:121-150 | After the drain, a row is processed at `now` exactly when its id was in the batch, whether its send succeeded or not. Every other row is unchanged. |
| SmsQueueService.InBatchStep | services/smsQueueService.js:94-150 | A batch that grows by one message grows its set of ids by that message's id. |
| SmsQueueService.ProcessQueueCounts | services/smsQueueService.js:81-159 | Outside the allowed hours nothing happens. With nothing due nothing happens. Otherwise the count processed is success plus failure, equals the pending count up to the limit, is at most `maxMessages`, and is also the number of log rows added. |
| SmsQueueService.NoMessageSentTwice | services/smsQueueService.js:121-150 | At-most-once delivery: no later selection, at any time and with any limit, returns a message the drain fetched. |
| SmsQueueService.BatchRowsProcessed | services/smsQueueService.js:121-150 | Once the batch rows are marked, no unprocessed row belongs to the batch. |
| SmsQueueService.MinScheduled | services/smsQueueService.js:170-197 | `MIN(scheduled_for)` is NULL exactly for no rows, and otherwise the least time among them. |
| SmsQueueService.QueueStatsMeaning | services/smsQueueService.js:170-197 | The total is the row count. Pending plus processed is the total, and both are NULL on an empty table. The next send is the earliest pending time, or NULL when nothing is pending. |
| SmsQueueService.CleanupMeaning | services/smsQueueService.js:200-220 | Cleanup deletes exactly the processed rows older than `daysOld` days, and never a pending row. The count returned is the number deleted. |
| SmsQueueService.CleanupProcessed | services/smsQueueService.js:200-220 | The queue and the count become those of the cleanup function. |
| SmsQueueService.CancelMeaning | services/smsQueueService.js:223-250 | Cancel removes only that participant's pending rows, of the given type when a non-empty type is supplied. The count returned is the number removed. |
| SmsQueueService.CancelPendingSms | services/smsQueueService.js:223-250 | The queue and the count become those of the cancel function. |
| TwilioService.FormatPhoneNumber | services/twilioService.js:19-30 | The result is the library's E.164 form, or its error for a number the library rejects. |
| TwilioService.ExtractLastFour | services/twilioService.js:33-36 | The result is the last four characters of the formatted number, or the whole number when it is shorter. |
| TwilioService.SendSmsOutcome | services/twilioService.js:39-101 | With SMS disabled the result is the sentinel success `SMS_DISABLED`. Outside 9:00–21:00 the result is the "outside hours" failure. Otherwise it succeeds exactly when all preconditions hold and the carrier accepts. A failure carries an error and no sid. |
| TwilioService.LogRow | services/twilioService.js:104-131 | The status is `sent` exactly on a success and `failed` otherwise. A missing or empty sid or error is stored as NULL. |
| TwilioService.LogSms | services/twilioService.js:104-131 | The method appends exactly that row. |
| TwilioService.UpdateStatus | services/twilioService.js:134-150 | Only rows carrying that sid change, and in them only the status, the error and, for `delivered`, `delivered_at`. |
| TwilioService.UnknownSidChangesNothing | services/twilioService.js:136-144 | A callback for an unknown sid changes nothing. |
| TwilioService.ReplayedCallback | services/twilioService.js:140 | A replay gives the same statuses and errors as the first delivery. A replay of a status other than `delivered` changes nothing at all. |
| TwilioService.UpdateSmsStatus | services/twilioService.js:134-150 | The log becomes that of the update function. |
| NotificationService.FlagFor | services/notificationService.js:21-34 | The governing flag of a type, with the three reminder types mapped to the reminders flag. Unknown types have no flag. |
| NotificationService.ShouldReceiveMeaning | services/notificationService.js:6-39 | A missing participant, or one with SMS off, receives nothing. Otherwise a participant receives exactly the types whose flag is on. |
| NotificationService.SmsOffSilences | services/notificationService.js:17-19 | SMS off silences every type. |
| NotificationService.OneMessage | services/notificationService.js:98-119 | A template error aborts the notification. Otherwise there is exactly one message with the built text. |
| NotificationService.OkPrefix | services/notificationService.js:238-268 | The number of messages enqueued before the first template error. |
| NotificationService.EntriesOf | services/smsQueueService.js:5-25 | The rows a run of sends inserts, one per send, with consecutive ids. |
| NotificationService.BroadcastOutcome | services/notificationService.js:238-268 | A broadcast reports every message queued, or the first template error. |
| NotificationService.PlanEntries | services/smsQueueService.js:5-25 | A single plan inserts one row or none. |
| NotificationService.PlanOutcome | services/notificationService.js:84-120 | The outcome is skipped for a skip, failed for an abort, or the new queue id. |
| NotificationService.QueuePlan | services/notificationService.js:98-110 | The method enqueues what the plan says and returns its outcome. |
| NotificationService.QueueAll | services/notificationService.js:238-255 | The broadcast loop enqueues the sends up to the first template error, with consecutive ids. |
| NotificationService.AssignmentPlanMeaning | services/notificationService.js:84-120 | The drawer is texted exactly when they want assignment texts and the recipient's name is given. The text goes to their own number and names the recipient. |
| NotificationService.NotifyAssignment | services/notificationService.js:84-120 | The method enqueues that plan at priority 2. The queue counter advances by exactly the rows enqueued. |
| NotificationService.WishListUpdateGoesToSanta | services/notificationService.js:123-172 | Nobody is told before the recipient is drawn. Otherwise the text goes to a Santa of the recipient who wants wish-list texts, and it names the recipient. |
| NotificationService.WishListUpdateUniqueSanta | services/notificationService.js:133-162 | When nobody is drawn twice, that Santa is the only one. |
| NotificationService.NotifyWishListUpdate | services/notificationService.js:123-172 | The method enqueues that plan at priority 3. The queue counter advances by exactly the rows enqueued. |
| NotificationService.SameText | services/notificationService.js:51-67 | The same text goes to each of the selected participants. |
| NotificationService.GameStartReachesExactly | services/notificationService.js:42-81 | The game-start broadcast reaches exactly the participants with SMS and game-start texts on, each with the game-start text, and queues all of them. |
| NotificationService.BroadcastAgrees | services/notificationService.js:6-39 | A broadcast's selection agrees with the preference check. |
| NotificationService.OkPrefixAllOk | services/notificationService.js:51-73 | With no template error, every message is enqueued. |
| NotificationService.NotifyGameStart | services/notificationService.js:42-81 | The method enqueues the game-start sends at priority 3. The queue counter advances by exactly the rows enqueued. |
| NotificationService.WishListReminderReachesExactly | services/notificationService.js:175-221 | Reminders go exactly to the participants who picked more than a day ago, have SMS and reminders on, and have no items. |
| NotificationService.NoReminderWithItems | services/notificationService.js:178-202 | A participant with an item gets no reminder. |
| NotificationService.NotifyWishListReminders | services/notificationService.js:175-221 | The method enqueues those reminders at priority 5. The queue counter advances by exactly the rows enqueued. |
| NotificationService.RecipientSends | services/notificationService.js:224-316 | One text per joined row, built from that row's recipient name. |
| NotificationService.RecipientRemindersReachExactly | services/notificationService.js:224-316 | The shopping and exchange-day reminders reach exactly the participants who drew an existing recipient and have SMS and reminders on. Each text names that recipient; an empty name is a template error. |
| NotificationService.RecipientRemindersAbort | services/notificationService.js:224-316 | Such a broadcast fails exactly when some joined row has an empty recipient name. |
| NotificationService.NotifyShoppingReminder | services/notificationService.js:224-269 | The method enqueues the shopping reminders at priority 4. The queue counter advances by exactly the rows enqueued. |
| NotificationService.NotifyExchangeDay | services/notificationService.js:272-316 | The method enqueues the exchange-day texts at priority 1. The queue counter advances by exactly the rows enqueued. |
| NotificationService.TestPlanMeaning | services/notificationService.js:319-348 | The test text goes to every existing participant, whatever their preferences, and greets their first name or "there". A missing participant aborts. |
| NotificationService.SendTestSms | services/notificationService.js:319-348 | The method enqueues that plan at priority 1. The queue counter advances by exactly the rows enqueued. |
| SmsTemplates.AppUrl | templates/smsTemplates.js:65 | The URL is the given one, else the configured one, else the localhost default. It is never empty. |
| SmsTemplates.GameStartMessage | templates/smsTemplates.js:3-9 | The text contains the application URL. |
| SmsTemplates.AssignmentMessage | templates/smsTemplates.js:11-19 | The text names the recipient and links to their wish-list page. |
| SmsTemplates.WishListUpdateMessage | templates/smsTemplates.js:21-27 | The text names the recipient and links to their wish-list page. |
| SmsTemplates.WishListReminderMessage | templates/smsTemplates.js:29-33 | The text links to the wish-list page. |
| SmsTemplates.DayWord | templates/smsTemplates.js:38 | The word is "day" exactly for one day, and "days" otherwise. |
| SmsTemplates.ShoppingReminderMessage | templates/smsTemplates.js:35-43 | The text counts the days, names the recipient and links to their wish-list page. |
| SmsTemplates.ExchangeDayMessage | templates/smsTemplates.js:45-53 | The text names the recipient. |
| SmsTemplates.TestMessage | templates/smsTemplates.js:55-61 | The text greets the first name. |
| SmsTemplates.GetMessage | templates/smsTemplates.js:64-108 | It throws exactly for an unknown type, or for a named type without a recipient name. |
| SmsTemplates.GetMessageErrors | templates/smsTemplates.js:72-106 | Each error names the unknown type or the missing field. |
| SmsTemplates.GetMessageEmbedsName | templates/smsTemplates.js:11-53 | Every message that names somebody embeds the name it was given. All of them except the exchange-day text link to `/recipient-wishlist.html` under the application URL. |
| SmsTemplates.ShoppingReminderDays | templates/smsTemplates.js:86-94 | The days are the given count, or 7 when the count is missing or zero. The text says "day" exactly for one. |
| SmsTemplates.TestMessageName | templates/smsTemplates.js:102-103 | The test text always builds, and greets the first name or "there". |
| SmsTemplates.TestGreets | templates/smsTemplates.js:55-61 | The same, for a known first name. |
| SmsTemplates.Utf16Length | templates/smsTemplates.js:111-117 | JavaScript's length is between the character count and twice that count. |
| SmsTemplates.Utf16LengthConcat | templates/smsTemplates.js:111-117 | The length of a concatenation is the sum of the lengths. |
| SmsTemplates.ValidateMessageLength | templates/smsTemplates.js:111-117 | The segment count is ⌈length/160⌉, and the message is single-segment exactly when its length is at most 160. |
| SmsTemplates.SegmentsGrow | templates/smsTemplates.js:111-117 | Appending text never lowers the segment count. |
| WishlistController.PriorityOrDefault | controllers/wishlistController.js:114 | The priority is the one given, or 2 for a missing or zero one. |
| WishlistController.NewItem | controllers/wishlistController.js:104-115 | The new item has exactly one owner: the non-participant when one is given, else the caller. Empty text fields become NULL, and the priority defaults to 2. |
| WishlistController.AddRefusal | controllers/wishlistController.js:89-99 | Adding is refused, with 403, exactly for a non-participant the caller does not manage. |
| WishlistController.AddItem | controllers/wishlistController.js:83-135 | A refused add changes nothing, counters included. An accepted add appends the item, returns its id and advances the item counter by one. Only the caller's own item tells their Santa, and the queue counter advances by the rows enqueued. |
| WishlistController.SameKeysAndOwners | controllers/wishlistController.js:138-210 | Changing rows without touching their keys or owners keeps the item table valid. |
| WishlistController.FindItem | controllers/wishlistController.js:145-161 | The lookup finds a row with that id, or finds none because none exists. |
| WishlistController.ManagerOf | controllers/wishlistController.js:145-154 | The manager the join finds, if the non-participant exists. |
| WishlistController.MayEditMeaning | controllers/wishlistController.js:163-172 | The caller may edit exactly their own items and the items of non-participants they manage. |
| WishlistController.EditRefusal | controllers/wishlistController.js:156-172 | A missing item gives 404. An item the caller may not edit gives 403 with the handler's message. Otherwise the edit goes ahead. |
| WishlistController.UpdateItems | controllers/wishlistController.js:174-191 | The UPDATE rewrites each row with that id. |
| WishlistController.UpdateTouchesOneItem | controllers/wishlistController.js:174-191 | An update rewrites the item's own fields and nothing else. |
| WishlistController.UpdateItem | controllers/wishlistController.js:138-210 | A refused update changes nothing, the queue counter included. Otherwise the item is rewritten, and only an owner's own edit tells their Santa, with the queue counter advanced by the rows enqueued. |
| WishlistController.DeleteItems | controllers/wishlistController.js:248-249 | The DELETE removes exactly the rows with that id. |
| WishlistController.DeleteItem | controllers/wishlistController.js:213-262 | A refused delete changes nothing. Otherwise exactly that item is removed. |
| WishlistController.EditAllowedExactly | controllers/wishlistController.js:230-246 | Update and delete go ahead exactly for an existing item the caller may edit. |
| WishlistController.SetOrder | controllers/wishlistController.js:279-284 | One UPDATE sets display order i on the caller's row with that id. |
| WishlistController.ReorderPrefix | controllers/wishlistController.js:278-285 | The first n UPDATEs keep the table's length. |
| WishlistController.LastHit | controllers/wishlistController.js:278-285 | The last position among the first n that names the item. |
| WishlistController.HitIgnoresOrder | controllers/wishlistController.js:280-283 | Whether a row is hit does not depend on its display order. |
| WishlistController.ReorderMeaning | controllers/wishlistController.js:270-285 | Each of the caller's items ends at the last position naming it, and every other row is unchanged. |
| WishlistController.ReorderPlacesEachId | controllers/wishlistController.js:270-285 | With distinct ids, each named item of the caller gets its index. |
| WishlistController.ReorderOnlyOwnItems | controllers/wishlistController.js:270-285 | Nobody else's item is reordered. |
| WishlistController.ReorderItems | controllers/wishlistController.js:265-298 | A non-array or empty list is refused with nothing changed. Otherwise the table is that of the UPDATE loop. |
| WishlistController.DrawnRecipient | controllers/wishlistController.js:306-319 | The recipient is the one the Santa has drawn. |
| WishlistController.Annotate | controllers/wishlistController.js:324-341 | Each item is flagged as bought exactly when this Santa bought it. |
| WishlistController.GetRecipientItems | controllers/wishlistController.js:301-354 | A Santa who has not drawn is refused. Otherwise the list is ordered by (display order, priority). |
| WishlistController.RecipientItemsExactly | controllers/wishlistController.js:301-354 | The Santa sees exactly the recipient's own items, each once, each flagged by this Santa's purchases. |
| WishlistController.ToggleFlips | controllers/wishlistController.js:385-413 | The toggle reports and makes the new state, flips exactly the caller's record of the item, and keeps the table valid. |
| WishlistController.ToggleTwiceRestores | controllers/wishlistController.js:385-413 | Marking an unmarked item twice gives back the table it started from. |
| WishlistController.ToggleTwiceKeepsPairs | controllers/wishlistController.js:385-413 | Marking twice leaves every (item, santa) record as it was. |
| WishlistController.IndexFindsPair | controllers/wishlistController.js:380-387 | The lookup finds the caller's record exactly when there is one. |
| WishlistController.MarkPurchased | controllers/wishlistController.js:357-421 | The method refuses, changing nothing (the purchase counter included), unless the item belongs to the caller's drawn recipient. Otherwise it performs the toggle. |
| WishlistController.ParticipantLists | controllers/wishlistController.js:465-474 | One list per participant, holding that participant's items. |
| WishlistController.NonParticipantLists | controllers/wishlistController.js:477-487 | One list per joined non-participant, with the manager's name. |
| WishlistController.SortKeepsItems | controllers/wishlistController.js:448-462 | Sorting keeps the items. |
| WishlistController.ParticipantListsGroup | controllers/wishlistController.js:424-503 | Every participant's list comes first, in table order, and holds exactly their own items in display order. |
| WishlistController.NonParticipantListsGroup | controllers/wishlistController.js:424-503 | Next comes one list per non-participant whose manager exists, holding exactly that non-participant's items, sorted, with the manager's name. |
| NotificationController.GetPreferences | controllers/notificationController.js:6-47 | "Not found" means exactly that the caller's row is missing. Otherwise the result is that row's flags. |
| NotificationController.SetFlag | controllers/notificationController.js:64-83 | A missing field keeps its flag. A supplied one becomes its truthiness. |
| NotificationController.UpdateRows | controllers/notificationController.js:92-100 | Only the caller's row takes the update. |
| NotificationController.UpdatePreferencesOf | controllers/notificationController.js:50-113 | With no field supplied the request is refused with 400 and nothing changes. Otherwise only the caller's flags change: missing fields keep their value, and supplied ones become their truthiness. |
| NotificationController.WriteBackIsNoOp | controllers/notificationController.js:6-113 | Sending back the preferences just read changes nothing. |
| NotificationController.StringFalseSwitchesOn | controllers/notificationController.js:64-83 | The string "false" passes validation and then switches SMS on. |
| NotificationController.UpdatePreferences | controllers/notificationController.js:50-113 | The reply and the participant table are those of the update function. |
| Validation.Validate | middleware/validation.js:5-17 | The request goes on exactly when there is no error. Otherwise the reply is 400 with every error. |
| Validation.SpacesFrom | middleware/validation.js:31-32 | The run of whitespace that leads from a position. |
| Validation.SpacesBefore | middleware/validation.js:31-32 | The run of whitespace that trails up to a position. |
| Validation.Trim | middleware/validation.js:31-32 | The result is no longer than the input, and neither starts nor ends with whitespace. |
| Validation.TrimMeaning | middleware/validation.js:31-32 | Trimming removes whitespace from both ends and nothing else. |
| Validation.TrimEmpty | middleware/validation.js:31-32 | Trimming gives the empty string exactly for an all-whitespace input. |
| Validation.TrimIdempotent | middleware/validation.js:31-32 | Trimming twice is trimming once. |
| Validation.ValidatorLength | middleware/validation.js:34 | The validator's length is at most the number of characters. |
| Validation.NoSelectorsCount | middleware/validation.js:34 | Without variation selectors, none is discounted. |
| Validation.IntegerTextOfIntToString | middleware/validation.js:120-121 | `isInt` reads back every integer `String(i)` writes. |
| Validation.SignedText | middleware/validation.js:120-121 | A minus sign before digits reads as the negated value. |
| Validation.FirstNameErrors | middleware/validation.js:31-35 | The trimmed first name passes exactly when it has 2 to 50 characters, all letters, whitespace, `'` or `-`. |
| Validation.PhoneErrors | middleware/validation.js:36-39 | The trimmed phone passes exactly when it is present and valid. |
| Validation.PersonErrors | middleware/validation.js:30-55 | `validateLogin` and `validateParticipant` let a request through exactly when both fields pass. |
| Validation.EmptyNameReportsAll | middleware/validation.js:31-35 | An empty first name fails all three of its checks. |
| Validation.BlankNameRefused | middleware/validation.js:31-35 | A whitespace-only name is refused, with "required". |
| Validation.CappedErrors | middleware/validation.js:63-76 | A missing field passes. A given one passes exactly when its trimmed length is within the cap, and otherwise fails with one error. |
| Validation.LinkErrorsAsWritten | middleware/validation.js:67-72 | The link passes exactly when it is missing, or is a URL of at most 500 characters. |
| Validation.LinkErrors | middleware/validation.js:67-72 | The same, with a blank link read as no link. |
| Validation.ItemErrorsAround | middleware/validation.js:58-81 | The item passes exactly when the name is 2 to 255 characters, the description at most 1000, the price range at most 50, the priority an integer from 1 to 3, and the link passes. |
| Validation.ItemErrorsAsWritten | middleware/validation.js:58-81 | An accepted item has no link, or a URL link. |
| Validation.ItemErrors | middleware/validation.js:58-81 | The item rules, with a blank link accepted. |
| Validation.BlankLinkRefused | middleware/validation.js:67-72 | The form with its link box left blank is refused as written and accepted as intended. |
| Validation.ItemErrorsAgreeOffBlank | middleware/validation.js:58-81 | The two readings differ only on a blank link. |
| Validation.ExclusionRuleErrors | middleware/validation.js:84-96 | The rule passes exactly when both ids are positive integers, they are not strictly equal, and the reason is within its cap. |
| Validation.SelfCheckComparesRawValues | middleware/validation.js:88-90 | The number 3 and the string "3" pass the self-check. |
| Validation.FamilyGroupErrors | middleware/validation.js:133-143 | The group passes exactly when it is an array of at least two positive integers and the reason is within its cap. |
| Validation.GroupIds | middleware/validation.js:134-137 | The group's ids, in order. |
| Validation.AcceptedGroupHasIds | middleware/validation.js:133-143 | An accepted group names at least two positive ids. |
| Validation.FlagErrors | middleware/validation.js:99-116 | A missing field passes; otherwise it must read as a boolean. |
| Validation.PreferenceErrors | middleware/validation.js:99-116 | The five flags pass exactly when each is missing or boolean, with at most five errors. |
| Validation.AcceptedFlagTruthiness | middleware/validation.js:99-116 | An accepted string flag is truthy, whatever it says. |
| Validation.IdParamErrors | middleware/validation.js:119-123 | The id parameter passes exactly when it reads as an integer of at least 1. |
| Validation.IdParamAcceptsIds | middleware/validation.js:119-123 | The form `String(n)` passes exactly when n ≥ 1, and reads back as n. Other accepted forms, such as `"+5"` and `"007"`, are not covered by this lemma. |
| PhoneInput.Digits | public/js/main.js:90 | Only digits are kept, never more than the input had. |
| PhoneInput.FormatPhoneNumber | public/js/main.js:89-100 | More than ten digits are returned as typed. Otherwise 0 digits give "", 1–3 give `(d)`, 4–6 give `(ddd) d…`, and 7–10 give `(ddd) ddd-d…`. |
| PhoneInput.FormatKeepsDigits | public/js/main.js:90-99 | With at most ten digits, stripping the formatting gives back the same digits. |
| PhoneInput.FormatIdempotent | public/js/main.js:89-100 | Formatting what is already formatted changes nothing. |
| Schema.FindParticipant | services/assignmentService.js:96-109 | The lookup by id finds a row with that id, or finds none because none exists. |
| Schema.FindUnique | services/assignmentService.js:96-102 | In an id-ordered table, a row with that id is the one found. |
| Schema.NameOf | services/assignmentService.js:113-121 | The first name of the participant with that id. |

Some definitions carry no contract of their own. The lemmas and methods in the rows above state them:

- AssignmentService.Draw (services/assignmentService.js:93-188): DrawSuccess, DrawnShape, DrawnTable, DrawChosen, DrawFailureChangesNothing, DrawPreservesConsistency, DrawLeavesEveryoneAnOption, RedrawIsIdempotent and the method DrawAssignment.
- AssignmentService.ResetAll (services/assignmentService.js:237-259): ResetOutcome and the method ResetAllAssignments.
- AssignmentService.GetGameStatus (services/assignmentService.js:262-317): GameStatusCounts, PickedRowsExactly and GameStatusPercent.
- AssignmentService.CanParticipantPick (services/assignmentService.js:320-365): CanPickAgreesWithDraw.
- ExclusionService.AddRule (services/exclusionService.js:4-36): AddRuleOutcome, AddRequestKeepsRulesValid and the method AddExclusion.
- ExclusionService.RemoveRule (services/exclusionService.js:39-55): RemoveRuleOutcome, AddThenRemoveRestores and the method RemoveExclusion.
- ExclusionService.CanPick (services/exclusionService.js:152-172): CanPickAfterAddAndRemove.
- ExclusionService.GameCheckOf (services/exclusionService.js:175-250): GameCheckNamesStranded, GameCheckPossible, GameCheckIgnoresAssignments and the method ValidateGameIsPossible.
- TwilioService.SendSms, IsSmsEnabled, IsWithinAllowedHours and HasClient (services/twilioService.js:8-101): SendSmsOutcome, which gives each refusal and the carrier's answer.
- NotificationService.ShouldReceive (services/notificationService.js:6-39): ShouldReceiveMeaning and SmsOffSilences.
- NotificationService.AssignmentPlan (services/notificationService.js:84-120): AssignmentPlanMeaning and the method NotifyAssignment.
- NotificationService.WishListUpdatePlan (services/notificationService.js:123-172): WishListUpdateGoesToSanta, WishListUpdateUniqueSanta and the method NotifyWishListUpdate.
- NotificationService.TestPlan (services/notificationService.js:319-348): TestPlanMeaning and the method SendTestSms.
- NotificationService.GameStartSends (services/notificationService.js:42-81): GameStartReachesExactly, BroadcastAgrees and the method NotifyGameStart.
- NotificationService.WishListReminderSends (services/notificationService.js:175-221): WishListReminderReachesExactly, NoReminderWithItems and the method NotifyWishListReminders.
- NotificationService.ShoppingReminderSends and ExchangeDaySends (services/notificationService.js:224-316): RecipientSends, RecipientRemindersReachExactly, RecipientRemindersAbort and the methods NotifyShoppingReminder and NotifyExchangeDay.
- WishlistController.MayEdit (controllers/wishlistController.js:145-172): MayEditMeaning and EditAllowedExactly.
- WishlistController.TogglePurchase and MayMark (controllers/wishlistController.js:357-421): ToggleFlips, ToggleTwiceRestores, ToggleTwiceKeepsPairs and the method MarkPurchased.
- WishlistController.GetAllWishlists (controllers/wishlistController.js:424-503): ParticipantLists, NonParticipantLists, ParticipantListsGroup, NonParticipantListsGroup and SortKeepsItems.
- SmsQueueService.ProcessQueueOf (services/smsQueueService.js:81-167): ProcessQueueCounts, DrainMarksBatch, DrainLogsEachMessage, NoMessageSentTwice and the method ProcessQueue.
- SmsQueueService.GetQueueStats (services/smsQueueService.js:170-197): QueueStatsMeaning.
- SmsQueueService.Cleanup (services/smsQueueService.js:200-220): CleanupMeaning and the method CleanupProcessed.
- SmsQueueService.Cancel (services/smsQueueService.js:223-250): CancelMeaning and the method CancelPendingSms.
- Validation.IntegerText (`isInt` on strings): IntegerTextOfIntToString, UnsignedText, NegativeIntText, NegativeText and SignedText.
- Validation.IsIntIn (middleware/validation.js:79, 86-88, 121): IdParamErrors, IdParamAcceptsIds and ExclusionRuleErrors.
- Validation.IsBooleanText (middleware/validation.js:100-115): FlagErrors, PreferenceErrors and AcceptedFlagTruthiness.
- PhoneInput.Layout (public/js/main.js:91-99): the contract of PhoneInput.FormatPhoneNumber, and FormatKeepsDigits.

## Left out

- Row order: the participant table is kept in id order (`Schema.Database.Valid`). Lists the source sorts by name or by time come out in that table order. These are the candidate list of `getAvailableRecipients` (`ORDER BY first_name`, services/assignmentService.js:22), which the random pick indexes (so a given random number may pick a different candidate, while every safe candidate stays reachable: `AssignmentService.EverySafeRecipientReachable`), the not-picked and picked lists of `getGameStatus`, and the participant and non-participant lists of `getAllWishlists`. The item orders `(display_order, priority)` are a stable insertion sort, whose ties keep table order in place of `created_at`.
- NULL sums: in the queue statistics, `SUM` over an empty table is NULL, and the model keeps it as `None`. In the game status, the `|| 0` turns it into 0.
- Clock: the 100 ms delay between sends is left out. The whole drain uses one `now`. The first hour check of `processQueue` uses `hour`, and each send's own hour check reads `gw.hourAt(i)`.
- Concurrency: two simultaneous draws, and any other interleaving of requests, are not modelled. Every property is for sequential calls.
- Database failures: the catch branches for errors from the database are left out, and so are gaps in AUTO_INCREMENT ids.
- Collation: MySQL's default collation compares strings without regard to case. In `updateSMSStatus` the model compares `twilio_sid = ?` and the `? = 'delivered'` test exactly (TwilioService.UpdateRow), so `"Delivered"` or a sid differing only in case is not matched as MySQL would.
- The Twilio client cache (`getTwilioClient`) is left out. The client exists exactly when both credentials are configured.
- Foreign code: libphonenumber, the express-validator `isURL` and phone checks, and the carrier's network call are parameters or uninterpreted functions.
- Both `catch` blocks of `processQueue` (services/smsQueueService.js:133-151 and 160-166) are left out. They are unreachable in the source too: `getPendingSMS`, `sendSMS`, `logSMS` and `markAsProcessed` each catch their own errors and return a value.
- TwilioService.ReplayedCallback: a replayed `delivered` callback moves `delivered_at` to the later clock, as the source does. The lemma states only that statuses and errors repeat.
- Request values: an array or object value in any field fails every standard check in the model. This covers text fields, ids and preference flags. express-validator instead runs `isInt`, `isBoolean` and the string checks on an array's elements (the first one, or each one, depending on the library version, which is not pinned here). So `{participantId: [3], excludedParticipantId: 4}` or `{smsEnabled: [true]}` passes in the source and is refused in the model. Validation.ExclusionRuleErrors, Validation.FlagErrors, Validation.PreferenceErrors and the text-field validators are therefore exact only for scalar values. A text field is `Option<string>`, and `isInt` does not read numbers in exponent form.
- validateAdminPassword: not modelled. It guards an admin route outside the core.
- The exclusion rules the rest of the model adds (`ExclusionService.AddExclusion`, the family groups) take ids already read as integers, as on the intended route. The table invariant `ExclusionService.RuleTableValid` is therefore not kept by the route as written. The findings show how it fails.
- The `isBoolean` string quirk is modelled as the source behaves. NotificationController.StringFalseSwitchesOn and Validation.AcceptedFlagTruthiness show it.
- Other read-only reports are not modelled. These are getExclusionsForParticipant, getAllExclusions, getExclusionStats, getMyItems, getSMSLogs, getSMSStats, validateTwilioConfig, and the controllers' sendTest and getHistory. The first seven are plain SELECTs; the last two forward to modelled services.
- Purchases of a deleted item stay in the purchase table, as in the source; nothing is proved about them.
- `nonParticipantId` is `Option<Id>` in the model. The source also reads the other falsy values (`0`, `""`) as "no non-participant"; those request values are not modelled separately.
- `display_order` for a new item is the column default, taken as 0 (`WishlistController.DefaultDisplayOrder`). The schema file is not part of this model.
- In reorder, a string id matches the item whose id it spells in plain decimal. MySQL's looser coercions of strings (`"07"`, `" 7"`, `"7abc"`) are not modelled. Neither are other JSON elements of `itemIds`: MySQL reads `true` as 1 and `false` as 0, which the model treats as matching nothing, and an array or object element makes the `UPDATE` throw partway through the loop, after the earlier rows are written. The model has no such throw: such an element matches nothing and the loop goes on.
- `notifyAssignment` throws when the participant is missing (services/notificationService.js:98-100). That throw cannot be reached: the preference check before it already skips a missing participant.
- `queueSMS` never fails in the model.
- Fire-and-forget notifications are modelled as completed before the reply. These are the wish-list handlers' `notifyWishListUpdate` calls, and the `notifyAssignment` call that `drawAssignment` does not await (services/assignmentService.js:171-172, AssignmentService.DrawAssignment).
- The schedulers under jobs/ are not part of this model, nor is the HTTP, session and routing plumbing.
- Validation.EmptyNameReportsAll: states only the number of errors, not their order.
- Validation.CappedErrors: the messages say "less than N" while the checks allow N itself. The model follows the checks.
- The `processQueue` loop and the family-group loops are methods whose loop bodies are separate methods (SmsQueueService.DrainNext, SmsQueueService.SendStep, ExclusionService.AddRowExclusions, ExclusionService.TryPair).
- Math.random: the random number is a parameter in [0, 1).
- Floating point: the percentages are exact rationals rounded half up, and the density warning is `2·rules > n(n−1)`.

## Findings

| source | as written | input that shows it | evidently intended | confidence | as-written member | corrected member |
|---|---|---|---|---|---|---|
| middleware/validation.js:67-72 | `optional()` skips only a missing link, so an empty `link` goes through `isURL` and is refused | `{itemName: "Socks", description: "", link: "", priceRange: "", priority: 2}`, the wish-list form with its link box left blank | a blank link is no link: the controller stores `link \|\| null` (controllers/wishlistController.js:111) | medium, not executed | Validation.ItemErrorsAsWritten, Validation.BlankLinkRefused | Validation.ItemErrors |
| services/exclusionService.js:7 | the self-check is `===` on the raw body values, so a number and a string naming the same id differ; the validator's own check (middleware/validation.js:89) is the same `!==`, and the INSERT stores both as one integer | `POST /admin/exclusions` with `{participantId: 3, excludedParticipantId: "3"}` | nobody may exclude themselves, however the id is spelled | medium, not executed | ExclusionService.AddRequestAsWritten, ExclusionService.MixedTypesStoreSelfRule | ExclusionService.AddRequest |
