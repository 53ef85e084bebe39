/**
 * One pass of `reminder_loop` (bot.py:877-920): evaluate the table at
 * `now`, and for every due entry, in list order, choose the message, attempt
 * to send it, and then commit the stage with `mark_notified` whether or not
 * the send failed.
 */
module Reminder {
  import opened Wrappers
  import opened Civil
  import opened Schema
  import opened Evaluator
  import opened Store

  /** The six reminder messages (bot.py:892-911); their wording and formatting are not modelled. */
  datatype Template =
    | BirthdayInAMonth | BirthdayInAWeek | BirthdayTomorrow | BirthdayToday
    | EventSoon | EventNow

  /**
   * Birthdays get their own text for 30d, 7d and 1d and the "today" text for
   * any other kind; other events get the "soon" text only for `before`.
   */
  function SelectTemplate(eventType: EventType, k: Kind): Template {
    if eventType == Birthday then
      if k == ThirtyDays then BirthdayInAMonth
      else if k == SevenDays then BirthdayInAWeek
      else if k == OneDay then BirthdayTomorrow
      else BirthdayToday
    else if k == Before then EventSoon
    else EventNow
  }

  predicate IsBirthdayTemplate(t: Template) {
    t.BirthdayInAMonth? || t.BirthdayInAWeek? || t.BirthdayTomorrow? || t.BirthdayToday?
  }

  /**
   * Over the stages the evaluator can emit for an event, the message tells
   * the stages apart, speaks of a birthday exactly for birthdays, and is an
   * "it is now" message exactly for `main`.
   */
  lemma TemplatesTellStagesApart(e: Event, j: Kind, k: Kind)
    requires j in Cascade(e) && k in Cascade(e)
    ensures SelectTemplate(e.eventType, j) == SelectTemplate(e.eventType, k) <==> j == k
    ensures IsBirthdayTemplate(SelectTemplate(e.eventType, k)) <==> e.eventType == Birthday
    ensures (SelectTemplate(e.eventType, k) in {BirthdayToday, EventNow}) <==> k == Main
  {
  }

  /** A send attempt: the chat, the message, and whether `send_message` returned or raised. */
  datatype Attempt = Attempt(tgId: int, template: Template, title: string, at: CivilDateTime, delivered: bool)

  function AttemptFor(item: DueItem, delivered: bool): Attempt {
    Attempt(item.row.tgId, SelectTemplate(item.row.event.eventType, item.kind),
            item.row.event.title, item.row.event.at, delivered)
  }

  // ---------------------------------------------------------------------------
  // The commits of one pass

  /**
   * The table after committing the entries in order. A `ValueError` from a
   * rollover leaves `mark_notified`, the loop body and `reminder_loop` itself:
   * the pass stops there with the earlier commits kept.
   */
  datatype PassOutcome = Completed(events: map<int, Event>) | Crashed(events: map<int, Event>, failedAt: nat)

  function CommitOne(events: map<int, Event>, item: DueItem): Option<map<int, Event>> {
    CommitInTable(events, item.row.event.id, item.kind, item.row.event.repeatYearly)
  }

  function CommitAll(events: map<int, Event>, items: seq<DueItem>): PassOutcome
    decreases |items|
  {
    if items == [] then Completed(events)
    else
      var n := |items| - 1;
      match CommitAll(events, items[..n])
      case Crashed(t, at) => Crashed(t, at)
      case Completed(t) =>
        match CommitOne(t, items[n])
        case None => Crashed(t, n)
        case Some(t') => Completed(t')
  }

  /** Committing one more entry: the step `CommitAll` takes at the end of a prefix. */
  lemma CommitAllStep(events: map<int, Event>, items: seq<DueItem>, i: nat)
    requires i < |items|
    ensures CommitAll(events, items[..i + 1]) ==
              match CommitAll(events, items[..i])
              case Crashed(t, at) => Crashed(t, at)
              case Completed(t) =>
                match CommitOne(t, items[i])
                case None => Crashed(t, i)
                case Some(t') => Completed(t')
  {
    assert items[..i + 1][..i] == items[..i];
  }

  /** Once the pass has stopped, later entries change nothing. */
  lemma {:induction false} CrashSticks(events: map<int, Event>, items: seq<DueItem>, k: nat)
    requires k <= |items|
    requires CommitAll(events, items[..k]).Crashed?
    ensures CommitAll(events, items) == CommitAll(events, items[..k])
    decreases |items| - k
  {
    if k < |items| {
      assert items[..k + 1][..k] == items[..k];
      CrashSticks(events, items, k + 1);
    } else {
      assert items[..k] == items;
    }
  }

  /**
   * `mark_notified(row["id"], kind, bool(row["repeat_yearly"]))` for one
   * entry (bot.py:918): the kind travels as its string.
   */
  method CommitItem(store: EventStore, item: DueItem) returns (ok: bool)
    requires store.Valid()
    modifies store
    ensures store.Valid()
    ensures store.users == old(store.users)
    ensures CommitOne(old(store.events), item) == if ok then Some(store.events) else None
    ensures !ok ==> store.events == old(store.events)
  {
    assert ParseKind(KindName(item.kind)) == Some(item.kind);
    ok := store.MarkNotified(item.row.event.id, KindName(item.kind), item.row.event.repeatYearly);
  }

  /**
   * The `for item in events` loop (bot.py:882-918): entry `j` is attempted
   * with answer `sendOk(j)` from the delivery collaborator, and every
   * attempted entry is then committed with `mark_notified`, in list order,
   * whatever the answer. The table ends as `CommitAll` says, which does not
   * depend on the answers. `crashed` reports the `ValueError` that ends the
   * loop; the entry it came from was attempted.
   */
  method Dispatch(store: EventStore, items: seq<DueItem>, sendOk: nat -> bool)
    returns (log: seq<Attempt>, crashed: bool)
    requires store.Valid()
    modifies store
    ensures store.Valid()
    ensures store.users == old(store.users)
    ensures |log| <= |items|
    ensures !crashed ==> |log| == |items|
    ensures crashed ==> |log| >= 1
    ensures forall j :: 0 <= j < |log| ==> log[j] == AttemptFor(items[j], sendOk(j))
    ensures CommitAll(old(store.events), items) ==
              if crashed then Crashed(store.events, |log| - 1) else Completed(store.events)
  {
    log := [];
    crashed := false;
    var i := 0;
    while i < |items| && !crashed
      invariant 0 <= i <= |items|
      invariant store.Valid()
      invariant store.users == old(store.users)
      invariant |log| == i
      invariant crashed ==> i >= 1
      invariant forall j :: 0 <= j < i ==> log[j] == AttemptFor(items[j], sendOk(j))
      invariant CommitAll(old(store.events), items[..i]) ==
                  if crashed then Crashed(store.events, i - 1) else Completed(store.events)
    {
      var item := items[i];
      var row := item.row;
      var template := SelectTemplate(row.event.eventType, item.kind);
      log := log + [Attempt(row.tgId, template, row.event.title, row.event.at, sendOk(i))];
      ghost var table := store.events;
      assert CommitAll(old(store.events), items[..i]) == Completed(table);
      var ok := CommitItem(store, item);
      CommitAllStep(old(store.events), items, i);
      if !ok {
        crashed := true;
      }
      i := i + 1;
    }
    if crashed {
      CrashSticks(old(store.events), items, i);
    } else {
      assert items[..i] == items;
    }
  }

  /**
   * One pass of `reminder_loop` at `now` over the rows the join returned:
   * the entries of `get_events_to_notify`, then `Dispatch` over them.
   * `overflowed` is the `OverflowError` of the evaluation (bot.py:880),
   * which ends `reminder_loop` before anything is sent or written; the row
   * that caused it is still in the table, so the next pass would raise too.
   */
  method ReminderPass(store: EventStore, now: CivilDateTime, rows: seq<Row>, sendOk: nat -> bool)
    returns (items: seq<DueItem>, log: seq<Attempt>, crashed: bool, overflowed: bool)
    requires store.Valid()
    requires DistinctIds(rows) && SnapshotOf(rows, store.events)
    modifies store
    ensures store.Valid()
    ensures store.users == old(store.users)
    ensures overflowed <==> EvaluationRaises(rows)
    ensures overflowed ==> items == [] && log == [] && !crashed && store.events == old(store.events)
    ensures !overflowed ==> items == DueItems(now, rows)
    ensures |log| <= |items|
    ensures !crashed ==> |log| == |items|
    ensures crashed ==> |log| >= 1
    ensures forall j :: 0 <= j < |log| ==> log[j] == AttemptFor(items[j], sendOk(j))
    ensures CommitAll(old(store.events), items) ==
              if crashed then Crashed(store.events, |log| - 1) else Completed(store.events)
    ensures !crashed ==> store.events.Keys == old(store.events).Keys
    ensures OnlyBirthdaysRepeat(old(store.events)) ==> OnlyBirthdaysRepeat(store.events)
    ensures !crashed && !overflowed ==> forall i :: 0 <= i < |rows| ==>
              rows[i].event.id in store.events &&
              Some(store.events[rows[i].event.id]) == AfterPass(now, rows[i].event)
  {
    var due := GetEventsToNotify(now, rows);
    if due.None? {
      return [], [], false, true;
    }
    overflowed := false;
    items := due.value;
    log, crashed := Dispatch(store, items, sendOk);
    if OnlyBirthdaysRepeat(old(store.events)) {
      CommitAllKeepsOnlyBirthdaysRepeat(old(store.events), items);
    }
    if !crashed {
      CompletedPassEffect(now, rows, old(store.events), store.events);
    }
  }

  // ---------------------------------------------------------------------------
  // What a completed pass does to the table

  /** The row after one pass at `now`: committed if it had a due stage, untouched otherwise. */
  function AfterPass(now: CivilDateTime, e: Event): Option<Event> {
    match DueStage(now, e)
    case None => Some(e)
    case Some(k) => Committed(e, k, e.repeatYearly)
  }

  /** The rows are a snapshot of the table: each row's event is the table's row with that id. */
  predicate SnapshotOf(rows: seq<Row>, events: map<int, Event>) {
    forall i :: 0 <= i < |rows| ==> rows[i].event.id in events && events[rows[i].event.id] == rows[i].event
  }

  /** The entries name pairwise different events, each as the table holds it. */
  predicate ItemsOfTable(items: seq<DueItem>, events: map<int, Event>) {
    && (forall j :: 0 <= j < |items| ==>
          items[j].row.event.id in events && events[items[j].row.event.id] == items[j].row.event)
    && (forall j, j' :: 0 <= j < j' < |items| ==> items[j].row.event.id != items[j'].row.event.id)
  }

  /** The ids of the events the entries name. */
  function ItemIds(items: seq<DueItem>): set<int> {
    set j | 0 <= j < |items| :: items[j].row.event.id
  }

  /** A pass that completed over all entries completed over all but the last, which then committed. */
  lemma CommitAllLast(events: map<int, Event>, items: seq<DueItem>, after: map<int, Event>)
    requires items != []
    requires CommitAll(events, items) == Completed(after)
    ensures CommitAll(events, items[..|items| - 1]).Completed?
    ensures CommitOne(CommitAll(events, items[..|items| - 1]).events, items[|items| - 1]) == Some(after)
  {
  }

  /** Committing entries for rows of the table keeps its ids. */
  lemma {:induction false} CommitAllKeys(events: map<int, Event>, items: seq<DueItem>, after: map<int, Event>)
    requires forall j :: 0 <= j < |items| ==> items[j].row.event.id in events
    requires CommitAll(events, items) == Completed(after)
    ensures after.Keys == events.Keys
    decreases |items|
  {
    if items != [] {
      var n := |items| - 1;
      CommitAllLast(events, items, after);
      var init := items[..n];
      assert forall j :: 0 <= j < n ==> init[j] == items[j];
      CommitAllKeys(events, init, CommitAll(events, init).events);
    }
  }

  /** Committing entries leaves every row they do not name as it was. */
  lemma {:induction false} CommitAllUntouched(events: map<int, Event>, items: seq<DueItem>,
                                              after: map<int, Event>, id: int)
    requires CommitAll(events, items) == Completed(after)
    requires id in events && id !in ItemIds(items)
    ensures id in after && after[id] == events[id]
    decreases |items|
  {
    if items != [] {
      var n := |items| - 1;
      CommitAllLast(events, items, after);
      var init := items[..n];
      assert ItemIds(init) <= ItemIds(items) by {
        assert forall j :: 0 <= j < n ==> init[j] == items[j];
      }
      assert items[n].row.event.id in ItemIds(items);
      CommitAllUntouched(events, init, CommitAll(events, init).events, id);
    }
  }

  /**
   * Committing entries for different rows of the table, without a crash,
   * replaces the row entry `j` names by its commit.
   */
  lemma {:induction false} CommitAllCommits(events: map<int, Event>, items: seq<DueItem>,
                                            after: map<int, Event>, j: nat)
    requires ItemsOfTable(items, events)
    requires CommitAll(events, items) == Completed(after)
    requires j < |items|
    ensures items[j].row.event.id in after
    ensures Some(after[items[j].row.event.id]) ==
              Committed(items[j].row.event, items[j].kind, items[j].row.event.repeatYearly)
    decreases |items|
  {
    var n := |items| - 1;
    var init, last := items[..n], items[n];
    CommitAllLast(events, items, after);
    var mid := CommitAll(events, init).events;
    var id := last.row.event.id;
    assert id !in ItemIds(init) by {
      assert forall i :: 0 <= i < n ==> init[i] == items[i];
    }
    CommitAllUntouched(events, init, mid, id);
    var c := Committed(last.row.event, last.kind, last.row.event.repeatYearly);
    assert c.Some? && after == mid[id := c.value] by {
      assert CommitOne(mid, last) == Some(after);
    }
    if j < n {
      assert ItemsOfTable(init, events) by {
        assert forall i :: 0 <= i < n ==> init[i] == items[i];
      }
      CommitAllCommits(events, init, mid, j);
      assert init[j] == items[j] && items[j].row.event.id != id;
    }
  }

  /** The entries of a pass over a snapshot with distinct ids name different rows of the table. */
  lemma PassItemsOfTable(now: CivilDateTime, rows: seq<Row>, before: map<int, Event>)
    requires DistinctIds(rows)
    requires SnapshotOf(rows, before)
    ensures ItemsOfTable(DueItems(now, rows), before)
  {
    var items, o := DueItems(now, rows), Origins(now, rows);
    DueItemsFromOrigins(now, rows);
    AtMostOneEntryPerEvent(now, rows);
    forall j | 0 <= j < |items| ensures items[j].row == rows[o[j]] { }
  }

  /** An id no entry of the pass names: exactly the ids of rows without a due stage, and those outside the rows. */
  lemma PassItemIds(now: CivilDateTime, rows: seq<Row>, id: int)
    requires DistinctIds(rows)
    requires forall i :: 0 <= i < |rows| && rows[i].event.id == id ==> DueStage(now, rows[i].event).None?
    ensures id !in ItemIds(DueItems(now, rows))
  {
    var items, o := DueItems(now, rows), Origins(now, rows);
    DueItemsFromOrigins(now, rows);
    forall j | 0 <= j < |items| ensures items[j].row.event.id != id {
      assert items[j].row == rows[o[j]] && DueStage(now, rows[o[j]].event).Some?;
    }
  }

  /** After a completed pass, row `i` of the snapshot is its `AfterPass`. */
  lemma PassRowEffect(now: CivilDateTime, rows: seq<Row>, before: map<int, Event>, after: map<int, Event>, i: nat)
    requires DistinctIds(rows)
    requires SnapshotOf(rows, before)
    requires CommitAll(before, DueItems(now, rows)) == Completed(after)
    requires i < |rows|
    ensures rows[i].event.id in after && Some(after[rows[i].event.id]) == AfterPass(now, rows[i].event)
  {
    var items := DueItems(now, rows);
    PassItemsOfTable(now, rows, before);
    var e := rows[i].event;
    match DueStage(now, e)
    case None =>
      PassItemIds(now, rows, e.id);
      CommitAllUntouched(before, items, after, e.id);
    case Some(k) =>
      DueItemsFromOrigins(now, rows);
      var o := Origins(now, rows);
      var j :| 0 <= j < |o| && o[j] == i;
      assert items[j] == DueItem(rows[i], k);
      CommitAllCommits(before, items, after, j);
  }

  /**
   * A completed pass commits every due row exactly once and touches nothing
   * else: the same ids, each row of the snapshot replaced by its `AfterPass`,
   * every other row as it was.
   */
  lemma CompletedPassEffect(now: CivilDateTime, rows: seq<Row>, before: map<int, Event>, after: map<int, Event>)
    requires DistinctIds(rows)
    requires SnapshotOf(rows, before)
    requires CommitAll(before, DueItems(now, rows)) == Completed(after)
    ensures after.Keys == before.Keys
    ensures forall id :: id in before && (forall i :: 0 <= i < |rows| ==> rows[i].event.id != id) ==>
              after[id] == before[id]
    ensures forall i :: 0 <= i < |rows| ==>
              rows[i].event.id in after && Some(after[rows[i].event.id]) == AfterPass(now, rows[i].event)
  {
    var items := DueItems(now, rows);
    PassItemsOfTable(now, rows, before);
    CommitAllKeys(before, items, after);
    forall id | id in before && (forall i :: 0 <= i < |rows| ==> rows[i].event.id != id)
      ensures after[id] == before[id]
    {
      PassItemIds(now, rows, id);
      CommitAllUntouched(before, items, after, id);
    }
    forall i | 0 <= i < |rows|
      ensures rows[i].event.id in after && Some(after[rows[i].event.id]) == AfterPass(now, rows[i].event)
    {
      PassRowEffect(now, rows, before, after, i);
    }
  }

  /**
   * Over the rows of the join, a completed pass brings every event whose
   * owner is a known user to its `AfterPass` and leaves every event without
   * one untouched, since the join drops it.
   */
  lemma PassOverJoin(store: EventStore, now: CivilDateTime, rows: seq<Row>, after: map<int, Event>)
    requires store.IsJoin(rows)
    requires CommitAll(store.events, DueItems(now, rows)) == Completed(after)
    ensures after.Keys == store.events.Keys
    ensures forall id :: id in store.events && store.events[id].userId in store.users ==>
              Some(after[id]) == AfterPass(now, store.events[id])
    ensures forall id :: id in store.events && store.events[id].userId !in store.users ==>
              after[id] == store.events[id]
  {
    var events := store.events;
    assert SnapshotOf(rows, events) by {
      forall i | 0 <= i < |rows| ensures JoinedRow(store.users, events, rows[i]) { }
    }
    CompletedPassEffect(now, rows, events, after);
    forall id | id in events && events[id].userId in store.users
      ensures Some(after[id]) == AfterPass(now, events[id])
    {
      var i :| 0 <= i < |rows| && rows[i].event.id == id;
      assert JoinedRow(store.users, events, rows[i]);
    }
    forall id | id in events && events[id].userId !in store.users
      ensures after[id] == events[id]
    {
      forall i | 0 <= i < |rows| ensures rows[i].event.id != id {
        assert JoinedRow(store.users, events, rows[i]);
      }
    }
  }

  /**
   * After a completed pass at `now`, evaluating the updated table at the same
   * `now` emits nothing for any row of the pass, so no stage fires twice
   * within one window.
   */
  lemma SecondPassSilent(now: CivilDateTime, rows: seq<Row>, before: map<int, Event>, after: map<int, Event>)
    requires DistinctIds(rows)
    requires SnapshotOf(rows, before)
    requires OnlyBirthdaysRepeat(before)
    requires CommitAll(before, DueItems(now, rows)) == Completed(after)
    ensures forall i :: 0 <= i < |rows| ==>
              rows[i].event.id in after && DueStage(now, after[rows[i].event.id]) == None
  {
    CompletedPassEffect(now, rows, before, after);
    forall i | 0 <= i < |rows|
      ensures rows[i].event.id in after && DueStage(now, after[rows[i].event.id]) == None
    {
      var e := rows[i].event;
      assert e == before[e.id];
      match DueStage(now, e)
      case None =>
      case Some(k) =>
        CommitSilencesWindow(now, e, k, e.repeatYearly);
    }
  }

  /** Every pass, completed or crashed, keeps the rule that only birthdays repeat yearly. */
  lemma {:induction false} CommitAllKeepsOnlyBirthdaysRepeat(events: map<int, Event>, items: seq<DueItem>)
    requires OnlyBirthdaysRepeat(events)
    ensures OnlyBirthdaysRepeat(CommitAll(events, items).events)
    decreases |items|
  {
    if items != [] {
      var n := |items| - 1;
      CommitAllKeepsOnlyBirthdaysRepeat(events, items[..n]);
      match CommitAll(events, items[..n])
      case Crashed(t, at) =>
      case Completed(t) =>
        var item := items[n];
        if CommitOne(t, item).Some? {
          CommitKeepsOnlyBirthdaysRepeat(t, item.row.event.id, item.kind, item.row.event.repeatYearly);
        }
    }
  }

  // ---------------------------------------------------------------------------
  // One event over several passes

  /** What successive passes emit for one event, and the event afterwards (`None` once a pass has crashed on it). */
  datatype History = History(emitted: seq<Option<Kind>>, last: Option<Event>)

  function Replay(e: Event, nows: seq<CivilDateTime>): History
    decreases |nows|
  {
    if nows == [] then History([], Some(e))
    else
      var h := Replay(e, nows[..|nows| - 1]);
      match h.last
      case None => h
      case Some(cur) =>
        var now := nows[|nows| - 1];
        History(h.emitted + [DueStage(now, cur)], AfterPass(now, cur))
  }

  /** One more pass extends the history by what it emits, unless an earlier pass crashed. */
  lemma ReplayStep(e: Event, nows: seq<CivilDateTime>, now: CivilDateTime)
    ensures Replay(e, nows + [now]) ==
              match Replay(e, nows).last
              case None => Replay(e, nows)
              case Some(cur) => History(Replay(e, nows).emitted + [DueStage(now, cur)], AfterPass(now, cur))
  {
    assert (nows + [now])[..|nows|] == nows;
  }

  /** A pass over an event still in the table extends its history by what the pass emits. */
  lemma ReplayExtend(e: Event, nows: seq<CivilDateTime>, now: CivilDateTime,
                     emitted: seq<Option<Kind>>, cur: Event, k: Kind)
    requires Replay(e, nows) == History(emitted, Some(cur))
    requires DueStage(now, cur) == Some(k)
    ensures Replay(e, nows + [now]) == History(emitted + [Some(k)], Committed(cur, k, cur.repeatYearly))
  {
    ReplayStep(e, nows, now);
  }

  /** A stage that applies, is unflagged and whose window contains `now` is the one emitted. */
  lemma EmitsReadyStage(now: CivilDateTime, e: Event, k: Kind)
    requires k in Cascade(e) && !Flag(e, k) && InWindow(now, Target(e, k))
    ensures DueStage(now, e) == Some(k)
  {
    DueStageExactly(now, e, k);
  }

  /** Two passes over an event, each emitting a stage that commits without a crash. */
  lemma ReplayTwo(e: Event, a: CivilDateTime, b: CivilDateTime, k1: Kind, k2: Kind, e1: Event)
    requires DueStage(a, e) == Some(k1) && Committed(e, k1, e.repeatYearly) == Some(e1)
    requires DueStage(b, e1) == Some(k2)
    ensures Replay(e, [a, b]) == History([Some(k1), Some(k2)], Committed(e1, k2, e1.repeatYearly))
  {
    assert Replay(e, []) == History([], Some(e));
    ReplayExtend(e, [], a, [], e, k1);
    assert [] + [a] == [a];
    ReplayExtend(e, [a], b, [Some(k1)], e1, k2);
    assert [a] + [b] == [a, b];
  }

  /** The `before` pass and the on-time pass of a one-shot event emit `before` and then `main`. */
  lemma OneShotStages(e: Event, early: CivilDateTime, onTime: CivilDateTime)
    requires e.eventType != Birthday && !e.repeatYearly && NoFlags(e)
    requires BeforeMinutes(e) > 0
    requires InWindow(early, Target(e, Before))
    requires InWindow(onTime, Target(e, Main))
    ensures Replay(e, [early, onTime]) ==
              History([Some(Before), Some(Main)], Some(e.(notifiedBefore := true, notifiedMain := true)))
  {
    assert !Flag(e, Before) && !Flag(e, Main);
    var e1 := e.(notifiedBefore := true);
    EmitsReadyStage(early, e, Before);
    EmitsReadyStage(onTime, e1, Main);
    ReplayTwo(e, early, onTime, Before, Main, e1);
  }

  lemma ConcatAssoc<T>(a: seq<T>, b: seq<T>, c: seq<T>)
    ensures (a + b) + c == a + (b + c)
  {
  }

  /** A pass after a crash changes nothing. */
  lemma ReplayStepCrashed(e: Event, nows: seq<CivilDateTime>, now: CivilDateTime)
    requires Replay(e, nows).last == None
    ensures Replay(e, nows + [now]) == Replay(e, nows)
  {
    ReplayStep(e, nows, now);
  }

  /** A pass over a surviving event appends what it emits and moves on to the event it leaves. */
  lemma ReplayStepLive(e: Event, nows: seq<CivilDateTime>, now: CivilDateTime, c: Event)
    requires Replay(e, nows).last == Some(c)
    ensures Replay(e, nows + [now]) == History(Replay(e, nows).emitted + [DueStage(now, c)], AfterPass(now, c))
  {
    ReplayStep(e, nows, now);
  }

  /** Passes after a prefix of passes carry on from the event the prefix left. */
  lemma {:induction false} ReplayAppend(e: Event, xs: seq<CivilDateTime>, ys: seq<CivilDateTime>, cur: Event)
    requires Replay(e, xs).last == Some(cur)
    ensures Replay(e, xs + ys) == History(Replay(e, xs).emitted + Replay(cur, ys).emitted, Replay(cur, ys).last)
    decreases |ys|
  {
    if ys == [] {
      assert xs + ys == xs;
      assert Replay(e, xs).emitted + [] == Replay(e, xs).emitted;
    } else {
      var n := |ys| - 1;
      var init, now := ys[..n], ys[n];
      ReplayAppend(e, xs, init, cur);
      assert ys == init + [now];
      assert xs + ys == (xs + init) + [now];
      var a, r := Replay(e, xs).emitted, Replay(cur, init);
      if r.last.None? {
        ReplayStepCrashed(e, xs + init, now);
        ReplayStepCrashed(cur, init, now);
      } else {
        var c := r.last.value;
        ReplayStepLive(e, xs + init, now, c);
        ReplayStepLive(cur, init, now, c);
        ConcatAssoc(a, r.emitted, [DueStage(now, c)]);
      }
    }
  }

  /** An event whose every stage is flagged emits nothing and stays as it is, however many passes follow. */
  lemma {:induction false} SilentOnceFlagged(e: Event, nows: seq<CivilDateTime>)
    requires forall k :: k in Cascade(e) ==> Flag(e, k)
    ensures |Replay(e, nows).emitted| == |nows|
    ensures forall j :: 0 <= j < |nows| ==> Replay(e, nows).emitted[j] == None
    ensures Replay(e, nows).last == Some(e)
    decreases |nows|
  {
    if nows != [] {
      var n := |nows| - 1;
      var init, now := nows[..n], nows[n];
      SilentOnceFlagged(e, init);
      assert DueStage(now, e).None?;
      ReplayStep(e, init, now);
      assert init + [now] == nows;
    }
  }

  /**
   * A one-shot event with an early reminder: the pass in the `before` window
   * emits `before`, the pass in the event's own window emits `main`, and no
   * pass after that, however many and whenever, emits anything.
   */
  lemma OneShotLifecycle(e: Event, early: CivilDateTime, onTime: CivilDateTime, laters: seq<CivilDateTime>)
    requires e.eventType != Birthday && !e.repeatYearly && NoFlags(e)
    requires BeforeMinutes(e) > 0
    requires InWindow(early, Target(e, Before))
    requires InWindow(onTime, Target(e, Main))
    ensures var h := Replay(e, [early, onTime] + laters);
      && |h.emitted| == 2 + |laters|
      && h.emitted[0] == Some(Before) && h.emitted[1] == Some(Main)
      && (forall j :: 2 <= j < |h.emitted| ==> h.emitted[j] == None)
      && h.last == Some(e.(notifiedBefore := true, notifiedMain := true))
  {
    OneShotStages(e, early, onTime);
    var e2 := e.(notifiedBefore := true, notifiedMain := true);
    assert Cascade(e2) == [Before, Main];
    SilentOnceFlagged(e2, laters);
    ReplayAppend(e, [early, onTime], laters, e2);
  }

  /**
   * Whatever the instants of the passes, a one-shot event never emits the
   * same stage twice: every emitted stage has its flag set in the current
   * row, and a flag, once set, stays set.
   */
  lemma {:induction false} OneShotNeverRepeats(e: Event, nows: seq<CivilDateTime>)
    requires !e.repeatYearly
    ensures var h := Replay(e, nows);
      && h.last.Some? && !h.last.value.repeatYearly && |h.emitted| == |nows|
      && (forall a :: 0 <= a < |h.emitted| && h.emitted[a].Some? ==> Flag(h.last.value, h.emitted[a].value))
      && (forall a, b :: 0 <= a < b < |h.emitted| && h.emitted[a].Some? ==> h.emitted[b] != h.emitted[a])
    decreases |nows|
  {
    if nows != [] {
      var n := |nows| - 1;
      var init, now := nows[..n], nows[n];
      OneShotNeverRepeats(e, init);
      ReplayStep(e, init, now);
      assert init + [now] == nows;
      var h := Replay(e, init);
      var cur := h.last.value;
      match DueStage(now, cur)
      case None =>
      case Some(k) =>
        CommitSetsOnlyItsFlag(cur, k, false);
        var cur' := Committed(cur, k, false).value;
        assert cur'.repeatYearly == ClearFlags(cur').repeatYearly == ClearFlags(cur).repeatYearly;
        assert !Flag(cur, k);
    }
  }

  /** The three advance passes of a birthday emit 30d, 7d and 1d and set those flags. */
  lemma BirthdayLeadStages(e: Event, monthAhead: CivilDateTime, weekAhead: CivilDateTime, dayAhead: CivilDateTime)
    requires e.eventType == Birthday && NoFlags(e)
    requires InWindow(monthAhead, Target(e, ThirtyDays))
    requires InWindow(weekAhead, Target(e, SevenDays))
    requires InWindow(dayAhead, Target(e, OneDay))
    ensures Replay(e, [monthAhead, weekAhead, dayAhead]) ==
              History([Some(ThirtyDays), Some(SevenDays), Some(OneDay)],
                      Some(e.(notified30d := true, notified7d := true, notified1d := true)))
  {
    assert !Flag(e, ThirtyDays) && !Flag(e, SevenDays) && !Flag(e, OneDay);
    var e1 := e.(notified30d := true);
    var e2 := e1.(notified7d := true);
    EmitsReadyStage(monthAhead, e, ThirtyDays);
    EmitsReadyStage(weekAhead, e1, SevenDays);
    EmitsReadyStage(dayAhead, e2, OneDay);
    ReplayTwo(e, monthAhead, weekAhead, ThirtyDays, SevenDays, e1);
    ReplayExtend(e, [monthAhead, weekAhead], dayAhead, [Some(ThirtyDays), Some(SevenDays)], e2, OneDay);
    assert [monthAhead, weekAhead] + [dayAhead] == [monthAhead, weekAhead, dayAhead];
  }

  /** The yearly rollover does not depend on the flags it clears. */
  lemma RolloverIgnoresFlags(e: Event, e': Event)
    requires SameExceptFlags(e, e')
    ensures Committed(e, Main, true) == Committed(e', Main, true)
  {
    assert e.at == ClearFlags(e).at;
  }

  /**
   * A birthday with no flags set, evaluated once in each of its four windows:
   * the passes emit 30d, 7d, 1d and main in that order, and the event ends
   * rolled over to the same date and time next year with every flag cleared.
   */
  lemma BirthdayYear(e: Event, monthAhead: CivilDateTime, weekAhead: CivilDateTime,
                     dayAhead: CivilDateTime, onTheDay: CivilDateTime)
    requires e.eventType == Birthday && e.repeatYearly && NoFlags(e)
    requires InWindow(monthAhead, Target(e, ThirtyDays))
    requires InWindow(weekAhead, Target(e, SevenDays))
    requires InWindow(dayAhead, Target(e, OneDay))
    requires InWindow(onTheDay, Target(e, Main))
    ensures Replay(e, [monthAhead, weekAhead, dayAhead, onTheDay]) ==
              History([Some(ThirtyDays), Some(SevenDays), Some(OneDay), Some(Main)], Committed(e, Main, true))
  {
    BirthdayLeadStages(e, monthAhead, weekAhead, dayAhead);
    var e3 := e.(notified30d := true, notified7d := true, notified1d := true);
    assert !Flag(e, Main);
    EmitsReadyStage(onTheDay, e3, Main);
    ReplayExtend(e, [monthAhead, weekAhead, dayAhead], onTheDay,
                 [Some(ThirtyDays), Some(SevenDays), Some(OneDay)], e3, Main);
    assert [monthAhead, weekAhead, dayAhead] + [onTheDay] == [monthAhead, weekAhead, dayAhead, onTheDay];
    RolloverIgnoresFlags(e3, e);
  }
}
