/**
 * The due-event evaluator, `get_events_to_notify` (db.py:293-374): for each
 * joined event row it picks at most one notification stage whose flag is
 * still 0 and whose trigger instant lies in the 60-second window ending at
 * `now`.
 */
module Evaluator {
  import opened Wrappers
  import opened Civil
  import opened Schema

  /** The width of the window, `< 60` seconds. */
  const WindowMicros := 60 * MicrosPerSecond

  /** How long before the event a stage fires: 30, 7 or 1 days, the row's minutes, or nothing. */
  function LeadMicros(e: Event, k: Kind): int {
    match k
    case ThirtyDays => 30 * MicrosPerDay
    case SevenDays => 7 * MicrosPerDay
    case OneDay => MicrosPerDay
    case Before => BeforeMinutes(e) * MicrosPerMinute
    case Main => 0
  }

  /** The stage's trigger instant: `event_dt_utc - timedelta(...)` on the timeline. */
  function Target(e: Event, k: Kind): int {
    Micros(e.at) - LeadMicros(e, k)
  }

  /** `0 <= (now_utc - target).total_seconds() < 60` */
  predicate InWindow(now: CivilDateTime, target: int) {
    0 <= Micros(now) - target < WindowMicros
  }

  /** Stage `k` of `e` is unflagged and its window contains `now`. */
  predicate Ready(now: CivilDateTime, e: Event, k: Kind) {
    !Flag(e, k) && InWindow(now, Target(e, k))
  }

  /**
   * The stage the loop body picks for one row (db.py:313-372): birthdays try
   * 30d, 7d, 1d and main in that order; other events try `before` (only when
   * the minutes are positive) and then main; the first match ends the row.
   */
  function DueStage(now: CivilDateTime, e: Event): (r: Option<Kind>)
    ensures r.Some? ==> r.value in Cascade(e) && Ready(now, e, r.value)
  {
    if e.eventType == Birthday then
      if !e.notified30d && InWindow(now, Target(e, ThirtyDays)) then Some(ThirtyDays)
      else if !e.notified7d && InWindow(now, Target(e, SevenDays)) then Some(SevenDays)
      else if !e.notified1d && InWindow(now, Target(e, OneDay)) then Some(OneDay)
      else if !e.notifiedMain && InWindow(now, Target(e, Main)) then Some(Main)
      else None
    else
      var beforeMin := BeforeMinutes(e);
      if beforeMin > 0 && !e.notifiedBefore && InWindow(now, Target(e, Before)) then Some(Before)
      else if !e.notifiedMain && InWindow(now, Target(e, Main)) then Some(Main)
      else None
  }

  /**
   * The loop body's first subtraction for a row lands before `datetime.min`
   * and raises `OverflowError`. For a birthday, `event_dt_utc -
   * timedelta(days=30)` (db.py:320) is computed before any flag is read, and
   * the 7- and 1-day subtractions come later. For another event,
   * `event_dt_utc - timedelta(minutes=before_min)` (db.py:358-359) is computed
   * whenever the minutes are positive. In both cases this happens whatever
   * the flags hold.
   */
  predicate LeadOverflows(e: Event) {
    if e.eventType == Birthday then Target(e, ThirtyDays) < FirstMicros
    else BeforeMinutes(e) > 0 && Target(e, Before) < FirstMicros
  }

  /**
   * The all-digits check accepts a lead of two billion minutes (about 3800
   * years), and that lead overflows for every event dated up to year 3000.
   */
  lemma HugeLeadOverflows(e: Event)
    requires e.eventType != Birthday && e.at.date.year <= 3000
    requires BeforeMinutes(e) >= 2_000_000_000
    ensures LeadOverflows(e)
  {
    var d := e.at.date;
    var a := d.year - 1;
    assert DaysBeforeYear(d.year) <= 367 * a;
    assert Ordinal(d) <= 367 * 3000;
    TimeMicrosIncreasing(e.at.time, e.at.time);
    assert Micros(e.at) <= 367 * 3000 * MicrosPerDay + MicrosPerDay;
    assert BeforeMinutes(e) * MicrosPerMinute >= 2_000_000_000 * MicrosPerMinute;
  }

  // ---------------------------------------------------------------------------
  // Reference definition: the applicable stages in order, and the first ready one

  /** The stages that apply to an event, in the order they are tried. */
  function Cascade(e: Event): seq<Kind> {
    if e.eventType == Birthday then [ThirtyDays, SevenDays, OneDay, Main]
    else if BeforeMinutes(e) > 0 then [Before, Main]
    else [Main]
  }

  /** Index of the first ready stage in `ks`. */
  function FirstReady(now: CivilDateTime, e: Event, ks: seq<Kind>): (r: Option<nat>)
    ensures r.Some? ==> r.value < |ks| && Ready(now, e, ks[r.value])
    ensures r.Some? ==> forall j :: 0 <= j < r.value ==> !Ready(now, e, ks[j])
    ensures r.None? ==> forall j :: 0 <= j < |ks| ==> !Ready(now, e, ks[j])
  {
    if ks == [] then None
    else if Ready(now, e, ks[0]) then Some(0)
    else
      match FirstReady(now, e, ks[1..])
      case None => None
      case Some(i) => Some(i + 1)
  }

  /** The evaluator's nested conditions pick the first ready stage of the cascade. */
  lemma DueStageIsFirstReady(now: CivilDateTime, e: Event)
    ensures DueStage(now, e) ==
              match FirstReady(now, e, Cascade(e))
              case None => None
              case Some(i) => Some(Cascade(e)[i])
  {
    var ks := Cascade(e);
    match FirstReady(now, e, ks)
    case None =>
    case Some(i) =>
      forall j | 0 <= j < i ensures !Ready(now, e, ks[j]) { }
  }

  /** The windows of two different stages of one event never overlap. */
  lemma StageWindowsDisjoint(now: CivilDateTime, e: Event, j: Kind, k: Kind)
    requires j in Cascade(e) && k in Cascade(e) && j != k
    ensures !(InWindow(now, Target(e, j)) && InWindow(now, Target(e, k)))
  {
  }

  /**
   * Because the windows of an event's stages are disjoint, the cascade order
   * never hides a ready stage: the evaluator emits stage `k` for `e` exactly
   * when `k` applies to `e`, its flag is 0 and its window contains `now`.
   */
  lemma DueStageExactly(now: CivilDateTime, e: Event, k: Kind)
    ensures DueStage(now, e) == Some(k) <==> k in Cascade(e) && Ready(now, e, k)
  {
    if k in Cascade(e) && Ready(now, e, k) {
      DueStageIsFirstReady(now, e);
      var ks := Cascade(e);
      var i :| 0 <= i < |ks| && ks[i] == k;
      assert FirstReady(now, e, ks).Some?;
      var j := FirstReady(now, e, ks).value;
      if ks[j] != k {
        StageWindowsDisjoint(now, e, ks[j], k);
      }
    }
  }

  // ---------------------------------------------------------------------------
  // The whole pass

  /** One `{"row": row, "kind": kind}` entry of the result list. */
  datatype DueItem = DueItem(row: Row, kind: Kind)

  /** The result of `get_events_to_notify` over the rows in the order the query returns them. */
  function DueItems(now: CivilDateTime, rows: seq<Row>): seq<DueItem>
    decreases |rows|
  {
    if rows == [] then []
    else
      var last := rows[|rows| - 1];
      DueItems(now, rows[..|rows| - 1]) +
        match DueStage(now, last.event)
        case None => []
        case Some(k) => [DueItem(last, k)]
  }

  /** Positions of the rows that contributed an entry. */
  function Origins(now: CivilDateTime, rows: seq<Row>): seq<nat>
    decreases |rows|
  {
    if rows == [] then []
    else
      Origins(now, rows[..|rows| - 1]) +
        if DueStage(now, rows[|rows| - 1].event).Some? then [|rows| - 1] else []
  }

  lemma {:induction false} OriginsIncrease(now: CivilDateTime, rows: seq<Row>)
    ensures var o := Origins(now, rows);
      && |o| == |DueItems(now, rows)|
      && (forall j :: 0 <= j < |o| ==> o[j] < |rows|)
      && (forall j, j' :: 0 <= j < j' < |o| ==> o[j] < o[j'])
    decreases |rows|
  {
    if rows != [] {
      OriginsIncrease(now, rows[..|rows| - 1]);
    }
  }

  lemma {:induction false} OriginsComplete(now: CivilDateTime, rows: seq<Row>)
    ensures forall i :: 0 <= i < |rows| && DueStage(now, rows[i].event).Some? ==> i in Origins(now, rows)
    decreases |rows|
  {
    if rows != [] {
      var n := |rows| - 1;
      OriginsComplete(now, rows[..n]);
      forall i | 0 <= i < n ensures rows[..n][i] == rows[i] { }
    }
  }

  lemma {:induction false} OriginsMatchItems(now: CivilDateTime, rows: seq<Row>)
    ensures var items, o := DueItems(now, rows), Origins(now, rows);
      forall j :: 0 <= j < |o| && j < |items| && o[j] < |rows| ==>
        items[j].row == rows[o[j]] && DueStage(now, rows[o[j]].event) == Some(items[j].kind)
    decreases |rows|
  {
    if rows != [] {
      var n := |rows| - 1;
      var init := rows[..n];
      OriginsMatchItems(now, init);
      OriginsIncrease(now, init);
      var items, o := DueItems(now, rows), Origins(now, rows);
      var items0, o0 := DueItems(now, init), Origins(now, init);
      forall j | 0 <= j < |o| && j < |items| && o[j] < |rows|
        ensures items[j].row == rows[o[j]] && DueStage(now, rows[o[j]].event) == Some(items[j].kind)
      {
        if j < |o0| {
          assert o[j] == o0[j] && items[j] == items0[j];
          assert init[o0[j]] == rows[o0[j]];
        }
      }
    }
  }

  /**
   * The result is the due rows in query order, each with its stage: entry `j`
   * comes from row `Origins[j]`, those positions strictly increase (so no row
   * contributes twice), and every row with a due stage contributes.
   */
  lemma DueItemsFromOrigins(now: CivilDateTime, rows: seq<Row>)
    ensures var items, o := DueItems(now, rows), Origins(now, rows);
      && |o| == |items|
      && (forall j :: 0 <= j < |o| ==> o[j] < |rows|)
      && (forall j, j' :: 0 <= j < j' < |o| ==> o[j] < o[j'])
      && (forall j :: 0 <= j < |o| ==>
            items[j].row == rows[o[j]] && DueStage(now, rows[o[j]].event) == Some(items[j].kind))
      && (forall i :: 0 <= i < |rows| && DueStage(now, rows[i].event).Some? ==> i in o)
  {
    OriginsIncrease(now, rows);
    OriginsComplete(now, rows);
    OriginsMatchItems(now, rows);
  }

  /** An entry is produced for a row exactly when that row has a due stage, and with that stage. */
  lemma DueItemsMembership(now: CivilDateTime, rows: seq<Row>, item: DueItem)
    ensures item in DueItems(now, rows) <==>
              item.row in rows && DueStage(now, item.row.event) == Some(item.kind)
  {
    DueItemsFromOrigins(now, rows);
    var items, o := DueItems(now, rows), Origins(now, rows);
    if item.row in rows && DueStage(now, item.row.event) == Some(item.kind) {
      var i :| 0 <= i < |rows| && rows[i] == item.row;
      var j :| 0 <= j < |o| && o[j] == i;
      assert items[j] == item;
    }
    if item in items {
      var j :| 0 <= j < |items| && items[j] == item;
      assert rows[o[j]] == item.row;
    }
  }

  /** The event ids of the rows are pairwise different (ids are the table's primary key). */
  predicate DistinctIds(rows: seq<Row>) {
    forall i, j :: 0 <= i < j < |rows| ==> rows[i].event.id != rows[j].event.id
  }

  /** No event gets two entries in one pass. */
  lemma AtMostOneEntryPerEvent(now: CivilDateTime, rows: seq<Row>)
    requires DistinctIds(rows)
    ensures var items := DueItems(now, rows);
      forall j, j' :: 0 <= j < j' < |items| ==> items[j].row.event.id != items[j'].row.event.id
  {
    DueItemsFromOrigins(now, rows);
  }

  /** Some row makes the loop raise `OverflowError`, so `get_events_to_notify` returns nothing. */
  predicate EvaluationRaises(rows: seq<Row>) {
    exists i :: 0 <= i < |rows| && LeadOverflows(rows[i].event)
  }

  /**
   * The loop of `get_events_to_notify`, appending one entry per row with a
   * due stage; `None` is the `OverflowError` that leaves the function from
   * the first row whose lead reaches before year 1.
   */
  method GetEventsToNotify(now: CivilDateTime, rows: seq<Row>) returns (result: Option<seq<DueItem>>)
    ensures result.None? <==> EvaluationRaises(rows)
    ensures result.Some? ==> result.value == DueItems(now, rows)
  {
    var items := [];
    for i := 0 to |rows|
      invariant items == DueItems(now, rows[..i])
      invariant forall j :: 0 <= j < i ==> !LeadOverflows(rows[j].event)
    {
      assert rows[..i + 1][..i] == rows[..i];
      var row := rows[i];
      if LeadOverflows(row.event) {
        return None;
      }
      match DueStage(now, row.event)
      case Some(k) =>
        items := items + [DueItem(row, k)];
      case None =>
    }
    assert rows[..|rows|] == rows;
    return Some(items);
  }
}
