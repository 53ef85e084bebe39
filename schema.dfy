/**
 * The rows of the `events` and `users` tables (db.py:18-56) and the
 * notification kinds the scheduler passes around as strings.
 */
module Schema {
  import opened Wrappers
  import opened Civil

  /** The `type` column: the three values the add-event menu can store. */
  datatype EventType = Birthday | Meeting | Other

  /** Notification stages: the strings "30d", "7d", "1d", "before" and "main". */
  datatype Kind = ThirtyDays | SevenDays | OneDay | Before | Main

  function KindName(k: Kind): string {
    match k
    case ThirtyDays => "30d"
    case SevenDays => "7d"
    case OneDay => "1d"
    case Before => "before"
    case Main => "main"
  }

  /** The string dispatch of `mark_notified`; any other string is no kind at all. */
  function ParseKind(s: string): (r: Option<Kind>)
    ensures forall k :: r == Some(k) <==> s == KindName(k)
  {
    if s == "30d" then Some(ThirtyDays)
    else if s == "7d" then Some(SevenDays)
    else if s == "1d" then Some(OneDay)
    else if s == "before" then Some(Before)
    else if s == "main" then Some(Main)
    else None
  }

  /**
   * A row of `events`. The five `notified_*` columns only ever hold 0 or 1 and
   * are booleans here; `remind_before_minutes` may be NULL; `created_at` is
   * written once and never read by the scheduler, so it is not kept.
   */
  datatype Event = Event(
    id: int,
    userId: int,
    title: string,
    eventType: EventType,
    category: Option<string>,
    at: CivilDateTime,
    remindBefore: Option<int>,
    repeatYearly: bool,
    notified30d: bool,
    notified7d: bool,
    notified1d: bool,
    notifiedBefore: bool,
    notifiedMain: bool)

  /** A row of `users`. */
  datatype User = User(tgId: int, username: Option<string>, timezone: Option<string>)

  /** A row of `events e JOIN users u ON e.user_id = u.id`, with `u.tg_id` and `u.timezone`. */
  datatype Row = Row(event: Event, tgId: int, timezone: Option<string>)

  /** The `notified_*` column that records stage `k`. */
  function Flag(e: Event, k: Kind): bool {
    match k
    case ThirtyDays => e.notified30d
    case SevenDays => e.notified7d
    case OneDay => e.notified1d
    case Before => e.notifiedBefore
    case Main => e.notifiedMain
  }

  predicate NoFlags(e: Event) {
    forall k :: !Flag(e, k)
  }

  /** The row with all five `notified_*` columns set to 0. */
  function ClearFlags(e: Event): (r: Event)
    ensures NoFlags(r)
  {
    e.(notified30d := false, notified7d := false, notified1d := false,
       notifiedBefore := false, notifiedMain := false)
  }

  /** Two rows that agree on every column except the five `notified_*` ones. */
  predicate SameExceptFlags(a: Event, b: Event) {
    ClearFlags(a) == ClearFlags(b)
  }

  /** `row["remind_before_minutes"] or 0`: NULL counts as 0. */
  function BeforeMinutes(e: Event): int {
    match e.remindBefore
    case None => 0
    case Some(m) => m
  }

  /** `category = ? OR (category IS NULL AND ? = 'other')` (db.py:161 and db.py:192). */
  predicate CategoryMatches(category: Option<string>, key: string) {
    match category
    case Some(c) => c == key
    case None => key == "other"
  }

  /** The four category keys the menu offers (bot.py:279-284). */
  const CategoryKeys: seq<string> := ["family", "friends", "work", "other"]

  /**
   * Every event whose category is NULL or one of the menu's keys is listed
   * under exactly one of the four category filters.
   */
  lemma CategoryFiltersPartition(category: Option<string>)
    requires category.None? || category.value in CategoryKeys
    ensures exists i :: 0 <= i < |CategoryKeys| && CategoryMatches(category, CategoryKeys[i])
    ensures forall i, j :: 0 <= i < j < |CategoryKeys| ==>
              !(CategoryMatches(category, CategoryKeys[i]) && CategoryMatches(category, CategoryKeys[j]))
  {
    if category.None? {
      assert CategoryMatches(category, CategoryKeys[3]);
    } else {
      var c := category.value;
      var i :| 0 <= i < |CategoryKeys| && CategoryKeys[i] == c;
      assert CategoryMatches(category, CategoryKeys[i]);
    }
  }
}
