/**
 * The date rules and input checks of the bot's conversation handlers
 * (bot.py:262-419 and bot.py:757-869): trimming and accepting titles, the
 * all-digits check on reminder minutes, the next occurrence of a birthday,
 * the year bump of a birthday-time edit, and the handlers that write the
 * result through the event store. Parsing with `strptime` is not modelled:
 * its results arrive as `Option` values.
 */
module Input {
  import opened Wrappers
  import opened Civil
  import opened Schema
  import opened Store

  // ---------------------------------------------------------------------------
  // str.strip()

  /** The characters for which Python's `str.isspace()` holds, which `str.strip()` removes. */
  const Whitespace: set<char> := {
    '\t', '\n', '\U{0B}', '\U{0C}', '\r', '\U{1C}', '\U{1D}', '\U{1E}', '\U{1F}', ' ',
    '\U{85}', '\U{A0}', '\U{1680}',
    '\U{2000}', '\U{2001}', '\U{2002}', '\U{2003}', '\U{2004}', '\U{2005}',
    '\U{2006}', '\U{2007}', '\U{2008}', '\U{2009}', '\U{200A}',
    '\U{2028}', '\U{2029}', '\U{202F}', '\U{205F}', '\U{3000}'
  }

  predicate IsSpace(c: char) {
    c in Whitespace
  }

  /** Leading whitespace removed. */
  function TrimStart(s: string): (r: string)
    ensures |r| <= |s| && r == s[|s| - |r|..]
    ensures forall i :: 0 <= i < |s| - |r| ==> IsSpace(s[i])
    ensures r == [] || !IsSpace(r[0])
  {
    if s == [] || !IsSpace(s[0]) then s
    else TrimStart(s[1..])
  }

  /** Trailing whitespace removed. */
  function TrimEnd(s: string): (r: string)
    ensures |r| <= |s| && r == s[..|r|]
    ensures forall i :: |r| <= i < |s| ==> IsSpace(s[i])
    ensures r == [] || !IsSpace(r[|r| - 1])
  {
    if s == [] || !IsSpace(s[|s| - 1]) then s
    else TrimEnd(s[..|s| - 1])
  }

  /** `str.strip()`: whitespace removed at both ends. */
  function Strip(s: string): string {
    TrimEnd(TrimStart(s))
  }

  /** A prefix `r` of the suffix `t` of `s` is a slice of `s`, followed by what `t` has after `r`. */
  lemma PrefixOfSuffix(s: string, t: string, r: string, i: nat)
    requires i <= |s| && t == s[i..]
    requires |r| <= |t| && r == t[..|r|]
    requires forall k :: |r| <= k < |t| ==> IsSpace(t[k])
    ensures i + |r| <= |s| && r == s[i..i + |r|]
    ensures forall k :: i + |r| <= k < |s| ==> IsSpace(s[k])
  {
    forall k | i + |r| <= k < |s| ensures IsSpace(s[k]) {
      assert s[k] == t[k - i];
    }
  }

  /** The stripped text neither starts nor ends with whitespace. */
  lemma StripEnds(s: string)
    ensures Strip(s) == [] || (!IsSpace(Strip(s)[0]) && !IsSpace(Strip(s)[|Strip(s)| - 1]))
  {
    var t := TrimStart(s);
    var r := TrimEnd(t);
    if r != [] {
      assert r[0] == t[0];
    }
  }

  /** Stripping twice is stripping once. */
  lemma StripIdempotent(s: string)
    ensures Strip(Strip(s)) == Strip(s)
  {
    var r := Strip(s);
    StripEnds(s);
    if r != [] {
      assert TrimStart(r) == r;
      assert TrimEnd(r) == r;
    }
  }

  /**
   * The title check: the stripped text, if it is at least `minLength`
   * characters long (1 when adding, bot.py:262-266; 2 when editing,
   * bot.py:776-780).
   */
  function AcceptTitle(text: string, minLength: nat): (r: Option<string>)
    ensures r.Some? <==> |Strip(text)| >= minLength
    ensures r.Some? ==> r.value == Strip(text)
  {
    var title := Strip(text);
    if |title| < minLength then None else Some(title)
  }

  /**
   * `text[i..j]` is the text with its surrounding whitespace cut away: only
   * whitespace lies outside it, and it is empty or neither starts nor ends
   * with whitespace.
   */
  predicate TrimsTo(text: string, i: nat, j: nat) {
    && i <= j <= |text|
    && (forall k :: 0 <= k < i ==> IsSpace(text[k]))
    && (forall k :: j <= k < |text| ==> IsSpace(text[k]))
    && (i < j ==> !IsSpace(text[i]) && !IsSpace(text[j - 1]))
  }

  /** Every such cut yields the same content. */
  lemma TrimsToUnique(text: string, i: nat, j: nat, i': nat, j': nat)
    requires TrimsTo(text, i, j) && TrimsTo(text, i', j')
    ensures text[i..j] == text[i'..j']
  {
    if i < j && i' < j' {
      assert !IsSpace(text[i]) && !IsSpace(text[i']);
      assert !IsSpace(text[j - 1]) && !IsSpace(text[j' - 1]);
      assert i == i' && j == j';
    }
  }

  /** A slice with only whitespace outside it and none at its ends is such a cut. */
  lemma SliceIsCut(text: string, t: string, i: nat, j: nat)
    requires i <= j <= |text| && t == text[i..j]
    requires forall k :: 0 <= k < i ==> IsSpace(text[k])
    requires forall k :: j <= k < |text| ==> IsSpace(text[k])
    requires t == [] || (!IsSpace(t[0]) && !IsSpace(t[|t| - 1]))
    ensures TrimsTo(text, i, j)
  {
    if i < j {
      var m := |t| - 1;
      assert t[0] == text[i];
      assert t[m] == text[i + m];
    }
  }

  /**
   * The stripped text is a slice `text[i..j]` of the input with only
   * whitespace cut away on either side, and it neither starts nor ends with
   * whitespace: it is such a cut.
   */
  lemma StripCut(text: string) returns (i: nat, j: nat)
    ensures TrimsTo(text, i, j) && Strip(text) == text[i..j]
  {
    var t := TrimStart(text);
    var r := TrimEnd(t);
    i := |text| - |t|;
    j := i + |r|;
    PrefixOfSuffix(text, t, r, i);
    assert r == [] || r[0] == t[0];
    SliceIsCut(text, r, i, j);
  }

  /** Any such cut yields exactly what `strip` returns. */
  lemma StripIsTheTrim(text: string, i: nat, j: nat)
    requires TrimsTo(text, i, j)
    ensures Strip(text) == text[i..j]
  {
    var i', j' := StripCut(text);
    TrimsToUnique(text, i, j, i', j');
  }

  /**
   * The title check against any cut of the text into leading whitespace, a
   * content and trailing whitespace: the title is accepted exactly when the
   * content has at least `minLength` characters, and it is the content.
   */
  lemma AcceptTitleExactly(text: string, minLength: nat, i: nat, j: nat)
    requires TrimsTo(text, i, j)
    ensures AcceptTitle(text, minLength) == if j - i >= minLength then Some(text[i..j]) else None
  {
    StripIsTheTrim(text, i, j);
  }

  /** A title accepted with a positive minimum length has no whitespace at either end. */
  lemma AcceptedTitleIsTrimmed(text: string, minLength: nat)
    requires minLength >= 1
    requires AcceptTitle(text, minLength).Some?
    ensures var t := AcceptTitle(text, minLength).value;
      |t| >= 1 && !IsSpace(t[0]) && !IsSpace(t[|t| - 1]) && AcceptTitle(t, minLength) == Some(t)
  {
    var t := Strip(text);
    assert |t| >= 1;
    StripEnds(text);
    assert AcceptTitle(t, minLength) == Some(t) by {
      StripIdempotent(text);
    }
  }

  // ---------------------------------------------------------------------------
  // str.isdigit() and int()

  predicate IsAsciiDigit(c: char) {
    '0' <= c <= '9'
  }

  /** `str.isdigit()` on ASCII text: at least one character, all of them digits. */
  predicate IsDigits(s: string) {
    |s| >= 1 && forall i :: 0 <= i < |s| ==> IsAsciiDigit(s[i])
  }

  function DigitValue(c: char): int
    requires IsAsciiDigit(c)
  {
    c as int - '0' as int
  }

  /** `int(s)` on a string of decimal digits. */
  function DigitsValue(s: string): (r: int)
    requires forall i :: 0 <= i < |s| ==> IsAsciiDigit(s[i])
    ensures r >= 0
  {
    if s == [] then 0
    else DigitsValue(s[..|s| - 1]) * 10 + DigitValue(s[|s| - 1])
  }

  /** The decimal text `str(n)` of a natural number. */
  function Decimal(n: nat): (r: string)
    ensures IsDigits(r)
  {
    var c := ('0' as int + n % 10) as char;
    if n < 10 then [c] else Decimal(n / 10) + [c]
  }

  /**
   * The reminder-minutes check (bot.py:399-406 and bot.py:855-861): only
   * all-digit text gets past `isdigit()`, and the `minutes < 0` test that
   * follows never rejects it.
   */
  function ParseMinutes(text: string): (r: Option<int>)
    ensures r.Some? <==> IsDigits(text)
    ensures r.Some? ==> r.value >= 0
  {
    if !IsDigits(text) then None
    else
      var minutes := DigitsValue(text);
      if minutes < 0 then None else Some(minutes)
  }

  /** Reading back the decimal text of a number gives the number. */
  lemma {:induction false} DecimalValue(n: nat)
    ensures DigitsValue(Decimal(n)) == n
    decreases n
  {
    var s := Decimal(n);
    assert s[..|s| - 1] == if n < 10 then [] else Decimal(n / 10);
    if n >= 10 {
      DecimalValue(n / 10);
    }
  }

  /** Every number of minutes can be entered: its decimal text parses back to it. */
  lemma DecimalParses(n: nat)
    ensures ParseMinutes(Decimal(n)) == Some(n)
  {
    DecimalValue(n);
  }

  /** A digit string without a leading zero other than "0" itself has a positive value. */
  lemma {:induction false} LeadingDigitPositive(s: string)
    requires IsDigits(s) && s[0] != '0'
    ensures DigitsValue(s) >= 1
    decreases |s|
  {
    if |s| > 1 {
      LeadingDigitPositive(s[..|s| - 1]);
    }
  }

  /** The accepted text is the decimal text of its value, unless it has leading zeros. */
  lemma {:induction false} ParsedPrintsBack(s: string)
    requires IsDigits(s) && (s[0] != '0' || |s| == 1)
    ensures Decimal(DigitsValue(s)) == s
    decreases |s|
  {
    if |s| > 1 {
      var init := s[..|s| - 1];
      LeadingDigitPositive(init);
      ParsedPrintsBack(init);
      var n := DigitsValue(s);
      assert n / 10 == DigitsValue(init) && n % 10 == DigitValue(s[|s| - 1]);
    }
  }

  // ---------------------------------------------------------------------------
  // Dates

  /**
   * The next birthday (bot.py:368-372 and bot.py:800-804): the birth date's
   * month and day in today's year, or in the next year when that is before
   * today. `None` is the `ValueError` of `date(...)`: February 29 in a common
   * year, or a year past 9999.
   */
  function NextBirthday(today: CivilDate, birth: CivilDate): Option<CivilDate> {
    match MakeDate(today.year, birth.month, birth.day)
    case None => None
    case Some(d) =>
      if DateBefore(d, today) then MakeDate(today.year + 1, birth.month, birth.day)
      else Some(d)
  }

  /**
   * The next birthday has the birth date's month and day, is never before
   * today, and is the first such date: it falls in the next year only when
   * the date in today's year has already passed.
   */
  lemma NextBirthdayIsNextOccurrence(today: CivilDate, birth: CivilDate)
    requires NextBirthday(today, birth).Some?
    ensures var d := NextBirthday(today, birth).value;
      && d.month == birth.month && d.day == birth.day
      && !DateBefore(d, today)
      && (d.year == today.year || d.year == today.year + 1)
      && (d.year == today.year + 1 <==> DateBefore(Date(today.year, birth.month, birth.day), today))
  {
  }

  /**
   * `NextBirthday` fails exactly on February 29 when today's year is a
   * common year, or when the year after today's is needed and is a common
   * year or past 9999.
   */
  lemma NextBirthdayFails(today: CivilDate, birth: CivilDate)
    ensures NextBirthday(today, birth).None? <==>
              || (birth.month == 2 && birth.day == 29 && !IsLeap(today.year))
              || (DateBefore(Date(today.year, birth.month, birth.day), today)
                  && MakeDate(today.year + 1, birth.month, birth.day).None?)
  {
  }

  /**
   * A birthday-time edit (bot.py:822-824): the stored date with the new time
   * of day, a year later when that is before `now`. `None` is the
   * `ValueError` of `replace` on February 29.
   */
  function EditedBirthdayTime(existing: CivilDateTime, t: CivilTime, now: CivilDateTime): Option<CivilDateTime> {
    var candidate: CivilDateTime := DateTime(existing.date, t);
    if Civil.Before(candidate, now) then ReplaceYear(candidate, candidate.date.year + 1)
    else Some(candidate)
  }

  /**
   * The edit keeps the stored month and day, takes the new time, and moves
   * to the next year exactly when the stored date at the new time is
   * before `now`.
   */
  lemma EditedBirthdayTimeKeepsDate(existing: CivilDateTime, t: CivilTime, now: CivilDateTime)
    requires EditedBirthdayTime(existing, t, now).Some?
    ensures var r := EditedBirthdayTime(existing, t, now).value;
      && r.time == t
      && r.date.month == existing.date.month && r.date.day == existing.date.day
      && (r.date.year == existing.date.year + 1 <==> Civil.Before(DateTime(existing.date, t), now))
      && (r.date.year == existing.date.year <==> !Civil.Before(DateTime(existing.date, t), now))
  {
  }

  /**
   * When the stored birthday is today or later, the edited instant is never
   * before `now`: a time already passed today moves to next year.
   */
  lemma EditedBirthdayTimeNotPast(existing: CivilDateTime, t: CivilTime, now: CivilDateTime)
    requires !DateBefore(existing.date, now.date)
    requires EditedBirthdayTime(existing, t, now).Some?
    ensures !Civil.Before(EditedBirthdayTime(existing, t, now).value, now)
  {
  }

  /** The future check on an event's datetime (bot.py:339 when adding, bot.py:842-844 when editing). */
  predicate AcceptEventDatetime(dt: CivilDateTime, now: CivilDateTime) {
    !Civil.Before(dt, now)
  }

  /** An accepted datetime is `now` or later on the timeline. */
  lemma AcceptedDatetimeNotPast(dt: CivilDateTime, now: CivilDateTime)
    ensures AcceptEventDatetime(dt, now) <==> Micros(now) <= Micros(dt)
  {
    BeforeIsEarlier(dt, now);
  }

  // ---------------------------------------------------------------------------
  // Handlers that write to the store

  /** How an adding handler ended. */
  datatype AddOutcome = Added(id: int) | Refused | Raised

  /**
   * `add_birthday_time` (bot.py:355-385): the next birthday at the chosen
   * time, stored with `remind_before_minutes = 0` and `repeat_yearly = 1`.
   * The date is computed before the user is looked up, so a `ValueError`
   * leaves both tables as they were.
   */
  method AddBirthday(store: EventStore, tgId: int, username: Option<string>, title: string,
                     category: string, birth: CivilDate, t: CivilTime, today: CivilDate)
    returns (outcome: AddOutcome)
    requires store.Valid()
    modifies store
    ensures store.Valid()
    ensures outcome != Refused
    ensures outcome == Raised <==> NextBirthday(today, birth).None?
    ensures outcome == Raised ==> store.users == old(store.users) && store.events == old(store.events)
    ensures outcome.Added? ==> store.users == Registered(old(store.users), old(store.nextUserId), tgId, username)
    ensures OnlyBirthdaysRepeat(old(store.events)) ==> OnlyBirthdaysRepeat(store.events)
    ensures outcome.Added? ==>
              && outcome.id !in old(store.events)
              && store.events.Keys == old(store.events).Keys + {outcome.id}
              && (forall id :: id in old(store.events) ==> store.events[id] == old(store.events)[id])
              && var e := store.events[outcome.id];
                 && e.userId in store.users && store.users[e.userId].tgId == tgId
                 && e.title == title && e.eventType == Birthday && e.category == Some(category)
                 && Some(e.at.date) == NextBirthday(today, birth) && e.at.time == t
                 && e.remindBefore == Some(0) && e.repeatYearly && NoFlags(e)
  {
    var next := NextBirthday(today, birth);
    if next.None? {
      return Raised;
    }
    var at: CivilDateTime := DateTime(next.value, t);
    var userId := store.GetOrCreateUser(tgId, username);
    var id := store.AddEvent(userId, title, Birthday, Some(category), at, 0, true);
    outcome := Added(id);
  }

  /**
   * `add_event_remind` (bot.py:398-419): the minutes must be all digits;
   * the event is stored with those minutes and `repeat_yearly = 0`. The
   * datetime was checked for being in the future when it was entered.
   */
  method AddEventWithReminder(store: EventStore, tgId: int, username: Option<string>, title: string,
                              eventType: EventType, category: string, at: CivilDateTime, minutesText: string)
    returns (outcome: AddOutcome)
    requires store.Valid()
    modifies store
    ensures store.Valid()
    ensures outcome != Raised
    ensures outcome == Refused <==> !IsDigits(minutesText)
    ensures outcome == Refused ==> store.users == old(store.users) && store.events == old(store.events)
    ensures outcome.Added? ==> store.users == Registered(old(store.users), old(store.nextUserId), tgId, username)
    ensures OnlyBirthdaysRepeat(old(store.events)) ==> OnlyBirthdaysRepeat(store.events)
    ensures outcome.Added? ==>
              && outcome.id !in old(store.events)
              && store.events.Keys == old(store.events).Keys + {outcome.id}
              && (forall id :: id in old(store.events) ==> store.events[id] == old(store.events)[id])
              && var e := store.events[outcome.id];
                 && e.userId in store.users && store.users[e.userId].tgId == tgId
                 && e.title == title && e.eventType == eventType && e.category == Some(category)
                 && e.at == at && e.remindBefore == ParseMinutes(minutesText)
                 && !e.repeatYearly && NoFlags(e)
  {
    var minutes := ParseMinutes(minutesText);
    if minutes.None? {
      return Refused;
    }
    var userId := store.GetOrCreateUser(tgId, username);
    var id := store.AddEvent(userId, title, eventType, Some(category), at, minutes.value, false);
    outcome := Added(id);
  }

  /** The field being edited, with the text or the parsed value the user sent. */
  datatype Edit =
    | Title(text: string)
    | Birthdate(birth: Option<CivilDate>)
    | BirthdayTime(time: Option<CivilTime>)
    | EventDatetime(at: Option<CivilDateTime>)
    | RemindMinutes(text: string)

  /** How `edit_event_new_value` ended, and for a write the new row. */
  datatype EditOutcome = NotFound | Rejected | Unchanged | Crashed | Write(event: Event)

  /**
   * What `edit_event_new_value` (bot.py:757-869) does with the user's row:
   * a title of at least two characters; for a birthday a new birth date or
   * time of day; for any other event a datetime not in the past or a number
   * of minutes. A field that does not belong to the event's kind falls
   * through with nothing written.
   */
  function EditPlan(e: Event, edit: Edit, now: CivilDateTime, today: CivilDate): EditOutcome {
    match edit
    case Title(text) =>
      (match AcceptTitle(text, 2)
       case None => Rejected
       case Some(title) => Write(e.(title := title)))
    case Birthdate(birth) =>
      if e.eventType != Birthday then Unchanged
      else if birth.None? then Rejected
      else
        (match NextBirthday(today, birth.value)
         case None => Crashed
         case Some(d) => Write(ClearFlags(e).(at := DateTime(d, e.at.time), repeatYearly := true)))
    case BirthdayTime(t) =>
      if e.eventType != Birthday then Unchanged
      else if t.None? then Rejected
      else
        (match EditedBirthdayTime(e.at, t.value, now)
         case None => Crashed
         case Some(at) => Write(ClearFlags(e).(at := at, repeatYearly := true)))
    case EventDatetime(at) =>
      if e.eventType == Birthday then Unchanged
      else if at.None? || !AcceptEventDatetime(at.value, now) then Rejected
      else Write(ClearFlags(e).(at := at.value))
    case RemindMinutes(text) =>
      if e.eventType == Birthday then Unchanged
      else
        match ParseMinutes(text)
        case None => Rejected
        case Some(m) => Write(e.(remindBefore := Some(m)))
  }

  /**
   * A written row keeps its id, owner and type. A title edit changes only
   * the title and a minutes edit only the minutes, flags included; a date
   * edit clears every flag, and only a birthday's sets `repeat_yearly`.
   */
  lemma EditPlanChangesOnlyItsField(e: Event, edit: Edit, now: CivilDateTime, today: CivilDate)
    requires EditPlan(e, edit, now, today).Write?
    ensures var w := EditPlan(e, edit, now, today).event;
      && w.id == e.id && w.userId == e.userId && w.eventType == e.eventType && w.category == e.category
      && (edit.Title? ==> w == e.(title := Strip(edit.text)))
      && (edit.RemindMinutes? ==> w == e.(remindBefore := ParseMinutes(edit.text)))
      && (edit.Birthdate? || edit.BirthdayTime? || edit.EventDatetime? ==>
            NoFlags(w) && w.title == e.title && w.remindBefore == e.remindBefore
            && w.repeatYearly == (e.eventType == Birthday || e.repeatYearly))
  {
    match edit
    case Title(text) =>
    case Birthdate(birth) =>
    case BirthdayTime(t) =>
    case EventDatetime(at) =>
    case RemindMinutes(text) =>
  }

  /**
   * A date edit never writes an instant before `now` for an ordinary event,
   * and a birthday keeps its month and day (new birth date: the birth
   * date's, never before today) or its date (new time: a year later only
   * when the time has passed).
   */
  lemma EditPlanDates(e: Event, edit: Edit, now: CivilDateTime, today: CivilDate)
    requires EditPlan(e, edit, now, today).Write?
    ensures var w := EditPlan(e, edit, now, today).event;
      && (edit.EventDatetime? ==> !Civil.Before(w.at, now))
      && (edit.Birthdate? ==>
            w.at.date.month == edit.birth.value.month && w.at.date.day == edit.birth.value.day
            && !DateBefore(w.at.date, today) && w.at.time == e.at.time)
      && (edit.BirthdayTime? ==>
            w.at.time == edit.time.value
            && w.at.date.month == e.at.date.month && w.at.date.day == e.at.date.day)
  {
    if edit.Birthdate? {
      NextBirthdayIsNextOccurrence(today, edit.birth.value);
    }
    if edit.BirthdayTime? {
      EditedBirthdayTimeKeepsDate(e.at, edit.time.value, now);
    }
  }

  /**
   * `edit_event_new_value` (bot.py:757-869): look up the caller (creating
   * the user if new), fetch the row only if it is theirs, and write what
   * `EditPlan` says through the store's update operations; nothing is
   * written when the row is missing, the input is refused, the field does
   * not belong to the event's kind, or a date raised `ValueError`.
   */
  method EditEventNewValue(store: EventStore, tgId: int, username: Option<string>, eventId: int,
                           edit: Edit, now: CivilDateTime, today: CivilDate)
    returns (outcome: EditOutcome)
    requires store.Valid()
    modifies store
    ensures store.Valid()
    ensures store.users == Registered(old(store.users), old(store.nextUserId), tgId, username)
    ensures exists u :: u in store.users && store.users[u].tgId == tgId &&
              (outcome.NotFound? <==> !(eventId in old(store.events) && old(store.events)[eventId].userId == u))
    ensures OnlyBirthdaysRepeat(old(store.events)) ==> OnlyBirthdaysRepeat(store.events)
    ensures outcome.NotFound? ==> store.events == old(store.events)
    ensures !outcome.NotFound? ==>
              && eventId in old(store.events)
              && outcome == EditPlan(old(store.events)[eventId], edit, now, today)
              && store.events == (if outcome.Write? then old(store.events)[eventId := outcome.event]
                                  else old(store.events))
  {
    var userId := store.GetOrCreateUser(tgId, username);
    var row := store.EventById(userId, eventId);
    if row.None? {
      return NotFound;
    }
    var e := row.value;
    assert e == old(store.events)[eventId];
    outcome := WriteEdit(store, eventId, e, edit, now, today);
    if outcome.Write? {
      EditPlanChangesOnlyItsField(e, edit, now, today);
    }
  }

  /**
   * The field branches of `edit_event_new_value` (bot.py:776-869) for a row
   * the caller owns: the store's update operation for the planned write,
   * or none.
   */
  method WriteEdit(store: EventStore, eventId: int, e: Event, edit: Edit, now: CivilDateTime, today: CivilDate)
    returns (outcome: EditOutcome)
    requires store.Valid()
    requires eventId in store.events && store.events[eventId] == e
    modifies store
    ensures store.Valid()
    ensures store.users == old(store.users) && store.nextUserId == old(store.nextUserId)
    ensures outcome == EditPlan(e, edit, now, today)
    ensures store.events == (if outcome.Write? then old(store.events)[eventId := outcome.event]
                             else old(store.events))
  {
    outcome := EditPlan(e, edit, now, today);
    match edit
    case Title(text) =>
      var title := AcceptTitle(text, 2);
      if title.Some? {
        store.UpdateEventTitle(eventId, title.value);
      }
    case Birthdate(birth) =>
      if e.eventType == Birthday && birth.Some? {
        var next := NextBirthday(today, birth.value);
        if next.Some? {
          store.UpdateEventDatetimeAndReset(eventId, DateTime(next.value, e.at.time), true);
        }
      }
    case BirthdayTime(t) =>
      if e.eventType == Birthday && t.Some? {
        var at := EditedBirthdayTime(e.at, t.value, now);
        if at.Some? {
          store.UpdateEventDatetimeAndReset(eventId, at.value, true);
        }
      }
    case EventDatetime(at) =>
      if e.eventType != Birthday && at.Some? && AcceptEventDatetime(at.value, now) {
        store.UpdateEventDatetimeAndReset(eventId, at.value, false);
      }
    case RemindMinutes(text) =>
      if e.eventType != Birthday {
        var minutes := ParseMinutes(text);
        if minutes.Some? {
          store.UpdateEventRemindBefore(eventId, minutes.value);
        }
      }
  }
}
