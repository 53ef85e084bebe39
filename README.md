# reminder_forU_bot — a verified model of the reminder core

reminder_forU_bot is a Telegram bot that stores people's birthdays and
one-off events in SQLite and sends reminders as they come due. This project
models the two parts of it that decide *what* is sent and *what is written
back*:

- the data layer (`db.py`): the `users` and `events` tables, the queries
  and updates on them, the reminder evaluator `get_events_to_notify`, and
  `mark_notified`, which sets the sent-stage flags or rolls a yearly event
  over to next year;
- the bot's handlers that validate input and write events (`bot.py`):
  titles, the "remind N minutes before" number, the next-birthday date
  computation, the edit dialog's final step, and one pass of
  `reminder_loop`.

Modules:

| file | module | what it holds |
|---|---|---|
| `wrappers.dfy` | `Wrappers` | `Option` |
| `civil.dfy` | `Civil` | Python's proleptic-Gregorian `date`/`datetime`: validity, `replace(year=…)` (which fails on 29 February), the microsecond timeline and `<` |
| `schema.dfy` | `Schema` | the `events`/`users` rows, the stage names `30d`/`7d`/`1d`/`before`/`main`, the flag columns, the category filter |
| `evaluator.dfy` | `Evaluator` | which stage of an event is due at a given instant, and the loop of `get_events_to_notify` as a method |
| `store.dfy` | `Store` | the database as a class `EventStore` whose methods update its `users`/`events` maps, and the pure effect of `mark_notified` on one row |
| `reminder.dfy` | `Reminder` | one pass of `reminder_loop`: templates, sending, committing every due item, the crash on a rollover that `datetime.replace` refuses, and the lifecycle of an event over several passes |
| `input.dfy` | `Input` | `str.strip`, `str.isdigit`/`int`, the title and minutes checks, the next-birthday date, and the handlers that add and edit events |

The central results: a stage is due exactly when the instant falls in that
stage's one-minute window and its flag is clear, and the windows of
different stages never overlap, so the evaluator's first-match cascade
emits at most one item per event and the same stage whichever order it
checks them in. After a pass that completes, every event in the join is
exactly what `mark_notified` makes of its due stage, and a second pass at
the same instant sends nothing. A one-off event goes through its lead
reminder and its main reminder once each and is then silent for good. A
yearly birthday moves to the same calendar position next year with every
flag cleared. The exceptions are 29 February when next year is a common
year, and any date in year 9999: there the year change raises and ends the
loop. The evaluation itself raises when an event's first subtraction falls
before 0001-01-01. For a birthday that subtraction is 30 days; for another
event it is its lead time, which the all-digits check lets grow to
thousands of years. The exception then ends the loop before anything is
sent, and it does so again on every later pass.

## Model

| member | source | states |
|---|---|---|
| Civil.ReplaceYearFailsOnlyOnLeapDay | db.py:411 | moving a valid datetime to another year fails exactly when it is 29 February and the target year is not a leap year |
| Civil.BeforeIsEarlier | bot.py:339 | Python's field-by-field datetime comparison agrees with the order of the absolute microsecond timeline |
| Civil.FirstDay | db.py:320 | no valid date comes before day 1 of the day count, the day of `datetime.min` |
| Civil.FirstInstant | db.py:320 | every valid datetime is at or after the first instant of day 1, so only a subtraction can fall below it |
| Civil.RolloverSpan | db.py:411 | a successful `replace(year=year+1)` lands strictly later, by 365 or 366 days |
| Schema.ParseKind | db.py:381-401 | a stage string is recognised exactly when it is the name of one of the five stages, and then it names that stage |
| Schema.ClearFlags | db.py:265-270 | the reset leaves no sent-stage flag set |
| Schema.CategoryFiltersPartition | db.py:154-166 | an event whose category is missing or one of the menu's four keys is listed under exactly one of the four category filters |
| Evaluator.DueStage | db.py:312-372 | a reported stage is one of the event type's stages and is ready: its window contains now and its flag is clear |
| Evaluator.FirstReady | db.py:318-372 | the reference first-match search over a stage list returns a ready member of the list |
| Evaluator.DueStageIsFirstReady | db.py:318-372 | the evaluator's cascade is the first ready stage in its type's stage order |
| Evaluator.StageWindowsDisjoint | db.py:320-370 | two different stages of one event are never ready at the same instant |
| Evaluator.DueStageExactly | db.py:318-372 | a stage is reported for an event if and only if it belongs to the event's type and is ready |
| Evaluator.DueItemsFromOrigins | db.py:310-374 | the due list consists of the rows whose stage is due, in row order, each with its stage |
| Evaluator.DueItemsMembership | db.py:310-374 | an item is in the due list if and only if its row is in the input and its stage is that row's due stage |
| Evaluator.AtMostOneEntryPerEvent | db.py:310-374 | with distinct event ids, no event appears twice in one due list |
| Evaluator.HugeLeadOverflows | db.py:358-359 | a lead of two billion minutes, which the all-digits check accepts (bot.py:399-406), makes the evaluation raise for every non-birthday event dated up to year 3000 |
| Evaluator.GetEventsToNotify | db.py:293-374 | raises exactly when some row's first subtraction falls before 0001-01-01; otherwise the loop builds exactly the due list of the rows read |
| Store.Committed | db.py:377-431 | marking a stage fails only for a yearly main stage whose date has no counterpart next year |
| Store.CommitSetsOnlyItsFlag | db.py:381-400 | marking a lead stage sets that one flag and changes no other column or flag |
| Store.CommitIdempotent | db.py:381-400 | marking a lead stage twice is the same as marking it once |
| Store.RolloverKeepsCalendarPosition | db.py:401-424 | a yearly rollover keeps month, day and time, adds one year, clears every flag and changes nothing else |
| Store.OneShotMainIsFinal | db.py:425-429 | marking the main stage of a one-off event always succeeds, and afterwards its main stage is never due again, whatever the instant |
| Store.RolloverMovesTargetsAhead | db.py:401-424 | after a rollover every non-`before` stage's target is later than before |
| Store.CommitSilencesWindow | db.py:377-431 | once the due stage is marked, nothing is due for that event at the same instant |
| Store.CommitKeepsOnlyBirthdaysRepeat | db.py:377-431 | marking a stage keeps every event's type and yearly switch, so if only birthdays repeat yearly before, the same holds after |
| Store.EventStore.constructor | db.py:13-58 | the database starts with no users and no events |
| Store.EventStore.GetOrCreateUser | db.py:64-78 | returns the existing user's id for a known Telegram id and changes nothing; otherwise inserts one user with a fresh id and no timezone; either way the user table becomes `Registered` of the old one |
| Store.EventStore.AddEvent | db.py:101-137 | inserts one event with the given columns under a fresh id, with every flag clear, leaving the other rows unchanged |
| Store.EventStore.EventById | db.py:200-207 | returns one of the user's own events with that id exactly when the user has one |
| Store.EventStore.DeleteEvent | db.py:210-218 | removes the event exactly when it exists and belongs to the user, and reports whether it did |
| Store.EventStore.DeleteEventById | db.py:221-225 | removes the event with that id, if any, and nothing else |
| Store.EventStore.UpdateEventTitle | db.py:228-235 | changes only the title of that event |
| Store.EventStore.UpdateEventDatetimeAndReset | db.py:238-277 | sets the new datetime and clears every flag; for a birthday it also sets `repeat_yearly`; the other columns are kept |
| Store.EventStore.UpdateEventRemindBefore | db.py:280-287 | changes only the lead time of that event |
| Store.EventStore.MarkNotified | db.py:377-431 | an unknown stage string changes nothing; a known one writes the effect of marking that stage on the event |
| Store.EventStore.UserEvents | db.py:140-151 | every event of the user and nothing else, each one a row of the table |
| Store.EventStore.EventsByCategory | db.py:154-166 | the user's events that match the category key |
| Store.EventStore.UserBirthdays | db.py:169-181 | the user's events of type birthday |
| Store.EventStore.BirthdaysByCategory | db.py:184-197 | the intersection of the category's events and the user's birthdays |
| Reminder.TemplatesTellStagesApart | bot.py:892-911 | among the stages an event can be sent, different stages get different texts, the text speaks of a birthday exactly for birthdays, and it is an "it is now" text exactly for `main` |
| Reminder.CrashSticks | bot.py:918 | once a commit has crashed, the rest of the pass changes nothing further |
| Reminder.CommitItem | bot.py:918 | commits one item exactly as `mark_notified` would and reports whether the rollover succeeded |
| Reminder.Dispatch | bot.py:882-918 | sends every due item in order, whether or not the send fails, commits each one, and stops at the first rollover that raises |
| Reminder.ReminderPass | bot.py:877-920 | a pass raises before sending or writing anything exactly when the evaluation raises; otherwise it computes the due list, sends it and commits it; a completed pass leaves every joined event as marking its due stage makes it, with the same set of ids; every pass keeps the rule that only birthdays repeat yearly |
| Reminder.CommitAllKeys | bot.py:882-918 | committing a list of items keeps the set of event ids |
| Reminder.CommitAllUntouched | bot.py:882-918 | an event no item refers to is unchanged by the commits |
| Reminder.CommitAllCommits | bot.py:882-918 | each committed event becomes its item's stage marked on its previous row |
| Reminder.CompletedPassEffect | bot.py:877-918 | after a completed pass, every row's event is the result of marking its own due stage |
| Reminder.PassOverJoin | db.py:301-308 | over the users-events join, events with an owner are marked and events without one are left untouched |
| Reminder.SecondPassSilent | bot.py:877-920 | when only birthdays repeat yearly (which the handlers and the pass keep), a second pass at the same instant finds nothing due |
| Reminder.CommitAllKeepsOnlyBirthdaysRepeat | bot.py:882-918 | committing a pass's items, whether it completes or crashes, keeps the rule that only birthdays repeat yearly |
| Reminder.ReplayAppend | bot.py:877-920 | passes after a run of passes continue from the row that run left, and their output follows the run's output |
| Reminder.SilentOnceFlagged | bot.py:877-920 | an event whose every stage is flagged sends nothing and is left as it is, however many passes follow |
| Reminder.OneShotLifecycle | bot.py:877-920 | a one-off event with a positive lead time, evaluated in its `before` window and then in its own window, sends `before` and then `main`; any number of later passes, at any instants, send nothing |
| Reminder.OneShotNeverRepeats | bot.py:877-920 | over any sequence of passes a one-off event stays one-off, every stage it has sent is flagged, and no stage is sent twice |
| Reminder.BirthdayYear | bot.py:877-920 | a yearly birthday with clear flags, evaluated once in each of its four windows, sends 30d, 7d, 1d and main in that order and ends as the yearly rollover of the original row, which does not depend on the flags the earlier passes set |
| Input.StripCut | bot.py:263 | `strip` returns a contiguous slice of the input whose ends are not whitespace and outside which there is only whitespace |
| Input.TrimsToUnique | bot.py:263 | every cut of a text into leading whitespace, content and trailing whitespace yields the same content |
| Input.StripIsTheTrim | bot.py:263 | for any such cut, `strip` returns exactly its content |
| Input.StripIdempotent | bot.py:263 | stripping twice is stripping once |
| Input.AcceptTitleExactly | bot.py:262-266 | for any cut of the text into leading whitespace, content and trailing whitespace, the title is accepted exactly when the content has at least the minimum length, and then the title is that content |
| Input.AcceptedTitleIsTrimmed | bot.py:776-783 | an accepted title has no whitespace at its ends |
| Input.ParseMinutes | bot.py:399-406 | minutes are accepted if and only if the text is a non-empty run of ASCII digits, and are never negative |
| Input.DecimalParses | bot.py:399-406 | the decimal rendering of every natural number is accepted and parses back to it |
| Input.ParsedPrintsBack | bot.py:853-861 | an accepted number without leading zeros prints back to the same text |
| Input.NextBirthdayIsNextOccurrence | bot.py:368-372 | the computed date has the birth month and day, is not before today, and falls in next year exactly when this year's date has already passed |
| Input.NextBirthdayFails | bot.py:800-804 | the computation raises exactly for 29 February when the year it needs is a common year, or when it needs the year after 9999 |
| Input.EditedBirthdayTimeKeepsDate | bot.py:812-827 | a new birthday time keeps the stored month and day and takes the new time; the year moves on by one exactly when the stored date at the new time is already past |
| Input.EditedBirthdayTimeNotPast | bot.py:822-824 | when the stored birthday is not before today, the edited instant is not before now |
| Input.AcceptedDatetimeNotPast | bot.py:339-341 | an event datetime passes the future check exactly when it is now or later on the timeline |
| Input.AddBirthday | bot.py:364-385 | given the already parsed time, raises exactly when the next birthday does not exist, and then writes nothing; otherwise registers the caller as `get_or_create_user` does and stores one new yearly birthday for them at the next occurrence and the chosen time, with no lead time and clear flags, leaving the other events alone; it keeps the rule that only birthdays repeat yearly |
| Input.AddEventWithReminder | bot.py:398-419 | refuses exactly when the minutes text is not all digits, and then writes nothing; otherwise registers the caller as `get_or_create_user` does and stores one new one-off event for them with the parsed minutes and clear flags, leaving the other events alone; it keeps the rule that only birthdays repeat yearly |
| Input.EditPlanChangesOnlyItsField | bot.py:757-873 | a written row keeps its id, owner, type and category; a title edit changes only the stripped title, a minutes edit only the lead time, and a date edit clears every flag and sets `repeat_yearly` only for a birthday |
| Input.EditPlanDates | bot.py:788-851 | an ordinary event's new datetime is not before now; a new birth date keeps the birth month and day and the stored time and is not before today; a new birthday time keeps the month and day |
| Input.WriteEdit | bot.py:776-869 | for the caller's own row, writes exactly what the edit plan says to that row, and nothing when the plan refuses, falls through or raises; the user table is untouched |
| Input.EditEventNewValue | bot.py:757-873 | the caller is registered as `get_or_create_user` does; the event is reported missing exactly when it is not one of the caller's, and then nothing is written; otherwise the handler writes exactly what the edit plan says, and nothing when the plan refuses, falls through or raises; it keeps the rule that only birthdays repeat yearly |

## Left out

- The Telegram user interface (aiogram handlers, keyboards, FSM bookkeeping, message texts apart from telling the stages apart) is not modelled.
- SQLite itself is not modelled: tables are maps from id to row, `AUTOINCREMENT` is a counter, and each function is one atomic step.
- `ORDER BY` in the listing queries is left out: `UserEvents`, `EventsByCategory`, `UserBirthdays` and `BirthdaysByCategory` return sets.
- The rows `get_events_to_notify` reads come in an order SQLite leaves open; `ReminderPass` takes them as a parameter that must be a snapshot of the table with distinct ids.
- Clock reads (`datetime.now()`) are parameters. `asyncio.sleep(60)` and the scheduling of passes are not modelled; each pass is modelled on its own.
- `bot.send_message` is a parameter, `sendOk`, that says which sends fail; the failure is caught and printed in the source and changes nothing in the model.
- `strptime` parsing of dates and times (bot.py:165-183) is not modelled: the handlers take the parsed value, or its absence, as a parameter.
- Timezone handling (`get_user_timezone`/`set_user_timezone`, db.py:81-95) and config.py are not modelled; the stored timezone is only carried in the join rows.
- The `created_at` column is left out because nothing reads it.
- The CSV/JSON export and the delete dialog of bot.py are outside the core and not modelled.
- `timedelta.total_seconds()` is a float in Python; the model compares exact microsecond counts, which gives the same answer for every datetime of microsecond resolution in the supported range.
- `ParseMinutes` accepts ASCII digits only. Python's `isdigit` also accepts other Unicode digits. `int()` converts the decimal ones (Arabic-Indic digits, say). It refuses others such as `²` or `①` with `ValueError`, which ends the handler with nothing written.
- A lead time too large for SQLite's 64-bit `INTEGER` makes `add_event` raise `OverflowError` when binding it; the model stores any natural number.
- `Dispatch` and `ReminderPass` treat a pass as one atomic step. In the bot, `await bot.send_message` (bot.py:914) lets other handlers run between the evaluation and `mark_notified`. An edit that lands there is not modelled: for a yearly event `mark_notified` re-reads `event_datetime` (db.py:404-411) and rolls over the edited date.
- `Replay` follows one event through passes on its own and does not include the evaluation's `OverflowError`; `GetEventsToNotify` and `ReminderPass` do.
- `Strip` uses the set of characters Python's `str.isspace` accepts, written out; case and normalisation are not involved.
- `add_event` is modelled with the parameters db.py:101-110 declares; the keyword names bot.py passes are taken to mean those parameters.
- `EditEventNewValue` reads the event type from the stored row rather than from the dialog state; the dialog puts the row's type there (bot.py:690-691), so the two agree.
- `Committed` states only when the commit fails; what it writes is stated by `CommitSetsOnlyItsFlag`, `RolloverKeepsCalendarPosition` and `OneShotMainIsFinal` instead, to keep its proof cheap.
- `CommitSilencesWindow` requires that only birthdays are yearly; a yearly non-birthday event is not covered by it. `AddBirthday`, `AddEventWithReminder`, `EditEventNewValue` and `ReminderPass` are proved to keep that rule. The plain store methods `AddEvent` and `UpdateEventDatetimeAndReset` take the yearly switch as a parameter and keep it only when their callers pass it for birthdays alone, as the handlers do.
- `RolloverMovesTargetsAhead` says nothing about the `before` stage, which birthdays do not have.
