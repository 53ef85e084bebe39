/**
 * The event table and the user table (db.py), held in memory, with the
 * operations the bot performs on them. The per-row effect of
 * `mark_notified` (db.py:377-431) is the function `Committed`; the class
 * `EventStore` applies it, and the other writes, to the tables in place.
 */
module Store {
  import opened Wrappers
  import opened Civil
  import opened Schema
  import opened Evaluator

  // ---------------------------------------------------------------------------
  // mark_notified on one row

  /**
   * The row after `mark_notified(id, kind, repeat_yearly)`: a lead stage or
   * `before` sets its flag; `main` sets `notified_main`, or, when the event
   * repeats yearly, moves it to the same date and time one year later and
   * clears all five flags. `None` is the `ValueError` raised by
   * `replace(year=...)` on February 29 when the next year is common.
   */
  function Committed(e: Event, k: Kind, repeatYearly: bool): (r: Option<Event>)
    ensures r.None? <==> k == Main && repeatYearly && ReplaceYear(e.at, e.at.date.year + 1).None?
  {
    match k
    case ThirtyDays => Some(e.(notified30d := true))
    case SevenDays => Some(e.(notified7d := true))
    case OneDay => Some(e.(notified1d := true))
    case Before => Some(e.(notifiedBefore := true))
    case Main =>
      if repeatYearly then
        match ReplaceYear(e.at, e.at.date.year + 1)
        case None => None
        case Some(next) => Some(ClearFlags(e).(at := next))
      else Some(e.(notifiedMain := true))
  }

  /** The commits that only set a flag (everything but a yearly rollover). */
  predicate SetsFlag(k: Kind, repeatYearly: bool) {
    k != Main || !repeatYearly
  }

  /** A flag-setting commit sets exactly the flag of its stage and changes no other column. */
  lemma CommitSetsOnlyItsFlag(e: Event, k: Kind, repeatYearly: bool)
    requires SetsFlag(k, repeatYearly)
    ensures Committed(e, k, repeatYearly).Some?
    ensures var e' := Committed(e, k, repeatYearly).value;
      && SameExceptFlags(e, e')
      && forall j :: Flag(e', j) == (j == k || Flag(e, j))
  {
  }

  /** Committing the same flag-setting stage twice is the same as committing it once. */
  lemma CommitIdempotent(e: Event, k: Kind, repeatYearly: bool)
    requires SetsFlag(k, repeatYearly)
    ensures Committed(e, k, repeatYearly).Some?
    ensures Committed(Committed(e, k, repeatYearly).value, k, repeatYearly) == Committed(e, k, repeatYearly)
  {
  }

  /**
   * The yearly rollover keeps month, day and time of day, adds one to the
   * year, clears every flag and changes nothing else; it fails exactly for
   * February 29 before a common year, or in year 9999.
   */
  lemma RolloverKeepsCalendarPosition(e: Event)
    ensures Committed(e, Main, true).None? <==>
              || e.at.date.year == MaxYear
              || (e.at.date.month == 2 && e.at.date.day == 29 && !IsLeap(e.at.date.year + 1))
    ensures Committed(e, Main, true).Some? ==>
              var e' := Committed(e, Main, true).value;
              && e'.at.date == Date(e.at.date.year + 1, e.at.date.month, e.at.date.day)
              && e'.at.time == e.at.time
              && NoFlags(e')
              && e'.(at := e.at) == ClearFlags(e)
  {
    if e.at.date.year < MaxYear {
      ReplaceYearFailsOnlyOnLeapDay(e.at, e.at.date.year + 1);
    }
  }

  /** After `main` is committed on a one-shot event, no later pass emits `main` for it, whatever `now` is. */
  lemma OneShotMainIsFinal(e: Event, now: CivilDateTime)
    ensures Committed(e, Main, false).Some?
    ensures DueStage(now, Committed(e, Main, false).value) != Some(Main)
  {
  }

  /** Every lead stage of a rolled-over event lies at least 335 days after the old trigger instant. */
  lemma RolloverMovesTargetsAhead(e: Event, e': Event, k: Kind)
    requires Committed(e, Main, true) == Some(e')
    requires k != Before
    ensures Target(e', k) >= Micros(e.at) + 335 * MicrosPerDay
  {
    var next := e'.at;
    assert ReplaceYear(e.at, e.at.date.year + 1) == Some(next);
    RolloverSpan(e.at, next);
    assert BeforeMinutes(e') == BeforeMinutes(e);
  }

  /**
   * Committing the stage a pass emitted silences the event for the rest of
   * that window: evaluating it again at the same `now` yields nothing. Only
   * birthdays roll over, as the bot stores them (a one-shot event rolled over
   * with a lead of about a year could become due again at once).
   */
  lemma CommitSilencesWindow(now: CivilDateTime, e: Event, k: Kind, repeatYearly: bool)
    requires DueStage(now, e) == Some(k)
    requires repeatYearly ==> e.eventType == Birthday
    requires Committed(e, k, repeatYearly).Some?
    ensures DueStage(now, Committed(e, k, repeatYearly).value) == None
  {
    var e' := Committed(e, k, repeatYearly).value;
    assert Cascade(e') == Cascade(e);
    forall j | j in Cascade(e') && Ready(now, e', j)
      ensures false
    {
      if SetsFlag(k, repeatYearly) {
        if j != k {
          assert Ready(now, e, j);
          StageWindowsDisjoint(now, e, j, k);
        }
      } else {
        RolloverMovesTargetsAhead(e, e', j);
      }
    }
    if DueStage(now, e').Some? {
      DueStageExactly(now, e', DueStage(now, e').value);
    }
  }

  /** The whole table after `mark_notified` on row `id`; a missing row is left alone, as an `UPDATE` matching nothing. */
  function CommitInTable(events: map<int, Event>, id: int, k: Kind, repeatYearly: bool): Option<map<int, Event>> {
    if id !in events then Some(events)
    else
      match Committed(events[id], k, repeatYearly)
      case None => None
      case Some(e') => Some(events[id := e'])
  }

  /**
   * Only birthdays repeat yearly: the bot's writers set `repeat_yearly` only
   * for birthdays (bot.py:377-385, bot.py:411-419, db.py:247-261), and no
   * write changes an event's type.
   */
  predicate OnlyBirthdaysRepeat(events: map<int, Event>) {
    forall id :: id in events && events[id].repeatYearly ==> events[id].eventType == Birthday
  }

  /** `mark_notified` keeps every event's type and yearly switch, so it keeps the rule. */
  lemma CommitKeepsOnlyBirthdaysRepeat(events: map<int, Event>, id: int, k: Kind, repeatYearly: bool)
    requires OnlyBirthdaysRepeat(events)
    requires CommitInTable(events, id, k, repeatYearly).Some?
    ensures OnlyBirthdaysRepeat(CommitInTable(events, id, k, repeatYearly).value)
  {
    if id in events {
      var e := events[id];
      var e' := Committed(e, k, repeatYearly).value;
      assert e'.eventType == e.eventType && e'.repeatYearly == e.repeatYearly by {
        if k == Main && repeatYearly {
          assert e'.(at := e.at) == ClearFlags(e) by {
            RolloverKeepsCalendarPosition(e);
          }
        }
      }
    }
  }

  /**
   * The user table after `get_or_create_user(tg_id, username)` (db.py:64-78):
   * unchanged when the Telegram id is known, otherwise with one new user
   * under the next id, with no timezone.
   */
  function Registered(users: map<int, User>, nextUserId: int, tgId: int, username: Option<string>): map<int, User> {
    if exists id :: id in users && users[id].tgId == tgId then users
    else users[nextUserId := User(tgId, username, None)]
  }

  // ---------------------------------------------------------------------------
  // The tables

  /** Rows of `events` whose owner is known, with that owner's `tg_id` and `timezone`. */
  predicate JoinedRow(users: map<int, User>, events: map<int, Event>, row: Row) {
    var e := row.event;
    && e.id in events && events[e.id] == e
    && e.userId in users
    && row.tgId == users[e.userId].tgId
    && row.timezone == users[e.userId].timezone
  }

  class EventStore {
    var users: map<int, User>
    var events: map<int, Event>
    /** The next ids `AUTOINCREMENT` hands out; ids are never reused. */
    var nextUserId: int
    var nextEventId: int

    ghost predicate Valid()
      reads this
    {
      && 1 <= nextUserId && 1 <= nextEventId
      && (forall id :: id in users ==> 1 <= id < nextUserId)
      && (forall id :: id in events ==> 1 <= id < nextEventId && events[id].id == id)
      && (forall a, b :: a in users && b in users && users[a].tgId == users[b].tgId ==> a == b)
    }

    constructor ()
      ensures Valid()
      ensures users == map[] && events == map[]
    {
      users := map[];
      events := map[];
      nextUserId := 1;
      nextEventId := 1;
    }

    predicate KnownTgId(tgId: int)
      reads this
    {
      exists id :: id in users && users[id].tgId == tgId
    }

    /**
     * `get_or_create_user` (db.py:64-78): the id of the user with this
     * Telegram id, inserting the user first when there is none.
     */
    method GetOrCreateUser(tgId: int, username: Option<string>) returns (id: int)
      requires Valid()
      modifies this
      ensures Valid()
      ensures events == old(events) && nextEventId == old(nextEventId)
      ensures id in users && users[id].tgId == tgId
      ensures users == Registered(old(users), old(nextUserId), tgId, username)
      ensures old(KnownTgId(tgId)) ==> id in old(users) && users == old(users) && nextUserId == old(nextUserId)
      ensures !old(KnownTgId(tgId)) ==>
                && id == old(nextUserId) && id !in old(users)
                && users == old(users)[id := User(tgId, username, None)]
                && nextUserId == old(nextUserId) + 1
    {
      if KnownTgId(tgId) {
        id :| id in users && users[id].tgId == tgId;
        return;
      }
      id := nextUserId;
      users := users[id := User(tgId, username, None)];
      nextUserId := nextUserId + 1;
    }

    /**
     * `add_event` (db.py:101-137): a new row with a fresh id and all five
     * flags 0. The owner is not checked, as SQLite does not enforce the
     * foreign key unless asked to.
     */
    method AddEvent(userId: int, title: string, eventType: EventType, category: Option<string>,
                    at: CivilDateTime, remindBeforeMinutes: int, repeatYearly: bool)
      returns (id: int)
      requires Valid()
      modifies this
      ensures Valid()
      ensures users == old(users) && nextUserId == old(nextUserId)
      ensures id == old(nextEventId) && id !in old(events) && nextEventId == id + 1
      ensures events == old(events)[id := Event(id, userId, title, eventType, category, at,
                                                Some(remindBeforeMinutes), repeatYearly,
                                                false, false, false, false, false)]
    {
      id := nextEventId;
      events := events[id := Event(id, userId, title, eventType, category, at,
                                   Some(remindBeforeMinutes), repeatYearly,
                                   false, false, false, false, false)];
      nextEventId := nextEventId + 1;
    }

    /**
     * `get_event_by_id` (db.py:200-207): the row only if it belongs to the
     * user, that is, the user's own event with that id, if any.
     */
    function EventById(userId: int, eventId: int): (r: Option<Event>)
      requires Valid()
      reads this
      ensures r.Some? <==> exists e :: e in UserEvents(userId) && e.id == eventId
      ensures r.Some? ==> r.value in UserEvents(userId) && r.value.id == eventId
    {
      if eventId in events && events[eventId].userId == userId then Some(events[eventId]) else None
    }

    /**
     * `delete_event` (db.py:210-218): removes the row only when both the id
     * and the owner match, and reports whether a row went.
     */
    method DeleteEvent(userId: int, eventId: int) returns (deleted: bool)
      requires Valid()
      modifies this
      ensures Valid()
      ensures users == old(users) && nextUserId == old(nextUserId) && nextEventId == old(nextEventId)
      ensures deleted <==> eventId in old(events) && old(events)[eventId].userId == userId
      ensures events == if deleted then old(events) - {eventId} else old(events)
    {
      deleted := eventId in events && events[eventId].userId == userId;
      if deleted {
        events := events - {eventId};
      }
    }

    /** `delete_event_by_id` (db.py:221-225): removes the row whoever owns it. */
    method DeleteEventById(eventId: int)
      requires Valid()
      modifies this
      ensures Valid()
      ensures users == old(users) && nextUserId == old(nextUserId) && nextEventId == old(nextEventId)
      ensures events == old(events) - {eventId}
    {
      events := events - {eventId};
    }

    /** `update_event_title` (db.py:228-235). */
    method UpdateEventTitle(eventId: int, title: string)
      requires Valid()
      modifies this
      ensures Valid()
      ensures users == old(users) && nextUserId == old(nextUserId) && nextEventId == old(nextEventId)
      ensures events == if eventId in old(events)
                        then old(events)[eventId := old(events)[eventId].(title := title)]
                        else old(events)
    {
      if eventId in events {
        events := events[eventId := events[eventId].(title := title)];
      }
    }

    /**
     * `update_event_datetime_and_reset` (db.py:238-277): the new datetime, all
     * five flags 0, and for a birthday also `repeat_yearly = 1`; every other
     * column, `repeat_yearly` of other events included, is kept.
     */
    method UpdateEventDatetimeAndReset(eventId: int, newAt: CivilDateTime, isBirthday: bool)
      requires Valid()
      modifies this
      ensures Valid()
      ensures users == old(users) && nextUserId == old(nextUserId) && nextEventId == old(nextEventId)
      ensures eventId !in old(events) ==> events == old(events)
      ensures eventId in old(events) ==>
                var e := old(events)[eventId];
                events == old(events)[eventId := ClearFlags(e).(at := newAt, repeatYearly := isBirthday || e.repeatYearly)]
    {
      if eventId in events {
        var e := events[eventId];
        if isBirthday {
          events := events[eventId := ClearFlags(e).(at := newAt, repeatYearly := true)];
        } else {
          events := events[eventId := ClearFlags(e).(at := newAt)];
        }
      }
    }

    /** `update_event_remind_before` (db.py:280-287); the flags are not reset. */
    method UpdateEventRemindBefore(eventId: int, minutes: int)
      requires Valid()
      modifies this
      ensures Valid()
      ensures users == old(users) && nextUserId == old(nextUserId) && nextEventId == old(nextEventId)
      ensures events == if eventId in old(events)
                        then old(events)[eventId := old(events)[eventId].(remindBefore := Some(minutes))]
                        else old(events)
    {
      if eventId in events {
        events := events[eventId := events[eventId].(remindBefore := Some(minutes))];
      }
    }

    /**
     * `mark_notified` (db.py:377-431). An unknown kind changes nothing.
     * `ok` is false only when the rollover raised `ValueError`; then
     * nothing was written.
     */
    method MarkNotified(eventId: int, kind: string, repeatYearly: bool) returns (ok: bool)
      requires Valid()
      modifies this
      ensures Valid()
      ensures users == old(users) && nextUserId == old(nextUserId) && nextEventId == old(nextEventId)
      ensures ParseKind(kind).None? ==> ok && events == old(events)
      ensures ParseKind(kind).Some? ==>
                match CommitInTable(old(events), eventId, ParseKind(kind).value, repeatYearly)
                case None => !ok && events == old(events)
                case Some(t) => ok && events == t
    {
      ok := true;
      if kind == "30d" {
        if eventId in events {
          events := events[eventId := events[eventId].(notified30d := true)];
        }
      } else if kind == "7d" {
        if eventId in events {
          events := events[eventId := events[eventId].(notified7d := true)];
        }
      } else if kind == "1d" {
        if eventId in events {
          events := events[eventId := events[eventId].(notified1d := true)];
        }
      } else if kind == "before" {
        if eventId in events {
          events := events[eventId := events[eventId].(notifiedBefore := true)];
        }
      } else if kind == "main" {
        if repeatYearly {
          if eventId in events {
            var e := events[eventId];
            var next := ReplaceYear(e.at, e.at.date.year + 1);
            if next.None? {
              ok := false;
            } else {
              events := events[eventId := ClearFlags(e).(at := next.value)];
            }
          }
        } else if eventId in events {
          events := events[eventId := events[eventId].(notifiedMain := true)];
        }
      }
    }

    // -------------------------------------------------------------------------
    // Queries

    /** `get_user_events` (db.py:140-151), without the ordering. */
    function UserEvents(userId: int): (r: set<Event>)
      reads this
      ensures forall e :: e in r ==> e.userId == userId && exists id :: id in events && events[id] == e
      ensures forall id :: id in events && events[id].userId == userId ==> events[id] in r
    {
      set id | id in events && events[id].userId == userId :: events[id]
    }

    /** `get_user_events_by_category` (db.py:154-166), without the ordering. */
    function EventsByCategory(userId: int, key: string): (r: set<Event>)
      reads this
      ensures r <= UserEvents(userId)
      ensures forall e :: e in r <==> e in UserEvents(userId) && CategoryMatches(e.category, key)
    {
      set id | id in events && events[id].userId == userId && CategoryMatches(events[id].category, key) :: events[id]
    }

    /** `get_user_birthdays` (db.py:169-181), without the ordering. */
    function UserBirthdays(userId: int): (r: set<Event>)
      reads this
      ensures r <= UserEvents(userId)
      ensures forall e :: e in r <==> e in UserEvents(userId) && e.eventType == Birthday
    {
      set id | id in events && events[id].userId == userId && events[id].eventType == Birthday :: events[id]
    }

    /** `get_user_birthdays_by_category` (db.py:184-197): the birthdays among the category's events. */
    function BirthdaysByCategory(userId: int, key: string): (r: set<Event>)
      reads this
      ensures r == EventsByCategory(userId, key) * UserBirthdays(userId)
    {
      set id | id in events && events[id].userId == userId && events[id].eventType == Birthday
                 && CategoryMatches(events[id].category, key) :: events[id]
    }

    /**
     * The rows `get_events_to_notify` reads (db.py:301-308): every event whose
     * owner exists, once, joined with the owner's `tg_id` and `timezone`, in
     * an order the query leaves open.
     */
    ghost predicate IsJoin(rows: seq<Row>)
      reads this
    {
      && DistinctIds(rows)
      && (forall i :: 0 <= i < |rows| ==> JoinedRow(users, events, rows[i]))
      && (forall id :: id in events && events[id].userId in users ==>
            exists i :: 0 <= i < |rows| && rows[i].event.id == id)
    }
  }
}
