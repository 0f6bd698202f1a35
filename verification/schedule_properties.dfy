/**
 * What the office-hours grid promises, stated about `Schedule.Week` and
 * `Schedule.ScheduleOf`: the loop of slice assignments builds exactly the
 * declarative schedule, only qualifying events matter, their order and
 * repetition do not, and some slots can never open.
 */
module ScheduleProperties {
  import opened Results
  import opened CivilTime
  import opened Timestamp
  import opened Schedule

  /** `[["c" for j in range(48)] for i in range(7)]`, each row joined. */
  function AllClosed(): (w: seq<string>)
    ensures IsWeekSchedule(w)
    ensures forall d, slot :: 0 <= d < Days && 0 <= slot < SlotsPerDay ==> w[d][slot] == Closed
  {
    seq(Days, _ => seq(SlotsPerDay, _ => Closed))
  }

  /**
   * `row[start:end] = ["o" for i in range(end - start)]` on a row of
   * slots. When `end <= start` the list is empty and so is the slice at
   * `start`, so the row is unchanged.
   */
  function SliceAssign(row: string, start: int, end: int): (r: string)
    requires 0 <= start <= |row| && 0 <= end <= |row|
    ensures |r| == |row|
    ensures forall i :: 0 <= i < |row| ==> r[i] == if start <= i < end then Open else row[i]
  {
    if start < end then row[..start] + seq(end - start, _ => Open) + row[end..]
    else row
  }

  /** One pass of the loop body: the session's slots of its day are opened. */
  function Mark(week: seq<string>, s: Session): (w: seq<string>)
    requires IsWeekSchedule(week)
    ensures IsWeekSchedule(w)
    ensures forall d, slot :: 0 <= d < Days && 0 <= slot < SlotsPerDay ==>
      w[d][slot] == if Covers(s, d, slot) then Open else week[d][slot]
  {
    var day := DayIndex(s.start);
    week[day := SliceAssign(week[day], HalfHourIdx(s.start), HalfHourIdx(s.end))]
  }

  /** The loop of `form_schedule` as a left fold over the sessions, in order. */
  function MarkAll(week: seq<string>, sessions: seq<Session>): (w: seq<string>)
    requires IsWeekSchedule(week)
    ensures IsWeekSchedule(w)
    decreases |sessions|
  {
    if sessions == [] then week
    else Mark(MarkAll(week, sessions[..|sessions| - 1]), sessions[|sessions| - 1])
  }

  /** Two week schedules that open the same slots are the same. */
  lemma SameOpenSlots(v: seq<string>, w: seq<string>)
    requires IsWeekSchedule(v) && IsWeekSchedule(w)
    requires forall d, slot :: 0 <= d < Days && 0 <= slot < SlotsPerDay ==> (v[d][slot] == Open <==> w[d][slot] == Open)
    ensures v == w
  {
    forall d | 0 <= d < Days ensures v[d] == w[d] {
      assert forall slot :: 0 <= slot < SlotsPerDay ==> v[d][slot] == w[d][slot];
    }
  }

  lemma EmptyWeek()
    ensures IsWeekSchedule(AllClosed())
    ensures Week([]) == AllClosed()
  {
    SameOpenSlots(Week([]), AllClosed());
  }

  /** One more session opens exactly the slots it covers. */
  lemma WeekSnoc(sessions: seq<Session>, s: Session)
    ensures Week(sessions + [s]) == Mark(Week(sessions), s)
  {
    var all := sessions + [s];
    assert all[..|sessions|] == sessions && all[..|sessions| + 1] == all;
    forall d, slot | 0 <= d < Days && 0 <= slot < SlotsPerDay
      ensures IsOpen(all, d, slot) <==> IsOpen(sessions, d, slot) || Covers(s, d, slot)
    {
      OpenAfterOneMore(all, |sessions|, d, slot);
    }
    SameOpenSlots(Week(all), Mark(Week(sessions), s));
  }

  /**
   * The loop, started from the all-closed grid, builds the declarative
   * schedule: a slot is open iff some session covers it.
   */
  lemma {:induction false} MarkAllIsWeek(sessions: seq<Session>)
    ensures IsWeekSchedule(AllClosed())
    ensures MarkAll(AllClosed(), sessions) == Week(sessions)
    decreases |sessions|
  {
    EmptyWeek();
    if sessions != [] {
      var init, last := sessions[..|sessions| - 1], sessions[|sessions| - 1];
      assert init + [last] == sessions;
      MarkAllIsWeek(init);
      assert MarkAll(AllClosed(), sessions) == Mark(Week(init), last);
      WeekSnoc(init, last);
    }
  }

  /**
   * A session whose end slot is not after its start slot, such as one
   * ending at midnight, leaves the grid unchanged.
   */
  lemma EmptyRangeChangesNothing(week: seq<string>, s: Session)
    requires IsWeekSchedule(week) && HalfHourIdx(s.end) <= HalfHourIdx(s.start)
    ensures Mark(week, s) == week
  {
    SameOpenSlots(Mark(week, s), week);
  }

  lemma MidnightEndChangesNothing(sessions: seq<Session>, s: Session)
    requires s.end.hour == 0 && s.end.minute < 30
    ensures Week(sessions + [s]) == Week(sessions)
  {
    WeekSnoc(sessions, s);
    EmptyRangeChangesNothing(Week(sessions), s);
  }

  /** Marks are never reset, so marking twice is marking once ... */
  lemma MarkIdempotent(week: seq<string>, s: Session)
    requires IsWeekSchedule(week)
    ensures Mark(Mark(week, s), s) == Mark(week, s)
  {
    SameOpenSlots(Mark(Mark(week, s), s), Mark(week, s));
  }

  /** ... and the order in which sessions are marked does not matter. */
  lemma MarkCommutes(week: seq<string>, s: Session, t: Session)
    requires IsWeekSchedule(week)
    ensures Mark(Mark(week, s), t) == Mark(Mark(week, t), s)
  {
    SameOpenSlots(Mark(Mark(week, s), t), Mark(Mark(week, t), s));
  }

  /** Only the end's time of day is read: its date never matters. */
  lemma EndDateIgnored(sessions: seq<Session>, s: Session, t: Session)
    requires s.start == t.start && s.end.hour == t.end.hour && s.end.minute == t.end.minute
    ensures Week(sessions + [s]) == Week(sessions + [t])
  {
    WeekSnoc(sessions, s);
    WeekSnoc(sessions, t);
    SameOpenSlots(Mark(Week(sessions), s), Mark(Week(sessions), t));
  }

  /** Slot 47, 23:30 to midnight, never opens: no end index exceeds 47. */
  lemma LastSlotNeverOpens(events: seq<Event>, d: int)
    requires ScheduleOf(events).Ok? && 0 <= d < Days
    ensures ScheduleOf(events).value[d][SlotsPerDay - 1] == Closed
  {
  }

  lemma SplitLast<T>(a: seq<T>, b: seq<T>)
    requires b != []
    ensures (a + b)[..|a + b| - 1] == a + b[..|b| - 1]
    ensures (a + b)[|a + b| - 1] == b[|b| - 1]
  {
  }

  /** Filtering distributes over concatenation: the qualifying events keep their order. */
  lemma {:induction false} OfficeHoursAppend(a: seq<Event>, b: seq<Event>)
    ensures OfficeHours(a + b) == OfficeHours(a) + OfficeHours(b)
    decreases |b|
  {
    if b == [] {
      assert a + b == a;
    } else {
      var init, last := b[..|b| - 1], b[|b| - 1];
      var kept := if IsOfficeHours(last) then [last] else [];
      SplitLast(a, b);
      OfficeHoursAppend(a, init);
      assert OfficeHours(a + b) == OfficeHours(a + init) + kept;
      assert OfficeHours(b) == OfficeHours(init) + kept;
    }
  }

  /** Filtering keeps each qualifying event as often as it occurs, and drops the rest. */
  lemma {:induction false} OfficeHoursCounts(events: seq<Event>, e: Event)
    ensures multiset(OfficeHours(events))[e] == if IsOfficeHours(e) then multiset(events)[e] else 0
    decreases |events|
  {
    if events != [] {
      var init, last := events[..|events| - 1], events[|events| - 1];
      OfficeHoursCounts(init, e);
      assert events == init + [last];
    }
  }

  /** An event that does not qualify changes nothing, not even which error is raised. */
  lemma IgnoredEvent(a: seq<Event>, e: Event, b: seq<Event>)
    requires !IsOfficeHours(e)
    ensures ScheduleOf(a + [e] + b) == ScheduleOf(a + b)
  {
    IgnoredEventFiltered(a, e, b);
    SameQualifyingSameSchedule(a + [e] + b, a + b);
  }

  lemma IgnoredEventFiltered(a: seq<Event>, e: Event, b: seq<Event>)
    requires !IsOfficeHours(e)
    ensures OfficeHours(a + [e] + b) == OfficeHours(a + b)
  {
    OfficeHoursAppend(a + [e], b);
    OfficeHoursAppend(a, [e]);
    OfficeHoursAppend(a, b);
    NoneQualify([e]);
    assert OfficeHours(a + [e]) == OfficeHours(a);
  }

  /** The schedule depends on the events only through the qualifying ones, in order. */
  lemma SameQualifyingSameSchedule(x: seq<Event>, y: seq<Event>)
    requires OfficeHours(x) == OfficeHours(y)
    ensures ScheduleOf(x) == ScheduleOf(y)
  {
  }

  /** Without a qualifying event every slot of every day is closed. */
  lemma NoOfficeHoursAllClosed(events: seq<Event>)
    requires forall e :: e in events ==> !IsOfficeHours(e)
    ensures ScheduleOf(events) == Ok(AllClosed())
  {
    NoneQualify(events);
    NoneQualify([]);
    SameQualifyingSameSchedule(events, []);
    EmptyWeek();
  }

  lemma {:induction false} NoneQualify(events: seq<Event>)
    requires forall e :: e in events ==> !IsOfficeHours(e)
    ensures OfficeHours(events) == []
    decreases |events|
  {
    if events != [] {
      NoneQualify(events[..|events| - 1]);
    }
  }

  /** A schedule that is built is the declarative week of the parsed qualifying events. */
  lemma BuiltSchedule(events: seq<Event>)
    requires ScheduleOf(events).Ok?
    ensures ParseSessions(OfficeHours(events)).Ok?
    ensures ScheduleOf(events).value == Week(ParseSessions(OfficeHours(events)).value)
  {
  }

  /** The event qualifies, both its timestamps parse, and its session covers the slot. */
  predicate Marks(e: Event, day: int, slot: int) {
    IsOfficeHours(e) && Readable(e) && Covers(SessionOf(e), day, slot)
  }

  /**
   * The whole schedule, read event by event: a slot is open iff some
   * qualifying event's session covers it.
   */
  lemma ScheduleByEvents(events: seq<Event>, d: int, slot: int)
    requires ScheduleOf(events).Ok? && 0 <= d < Days && 0 <= slot < SlotsPerDay
    ensures ScheduleOf(events).value[d][slot] == Open <==> exists e :: e in events && Marks(e, d, slot)
  {
    BuiltSchedule(events);
    var sessions := ParseSessions(OfficeHours(events)).value;
    assert Week(sessions)[d][slot] == Open <==> IsOpen(sessions, d, slot);
    OpenByEvents(events, sessions, d, slot);
  }

  lemma OpenByEvents(events: seq<Event>, sessions: seq<Session>, d: int, slot: int)
    requires ParseSessions(OfficeHours(events)) == Ok(sessions)
    ensures IsOpen(sessions, d, slot) <==> exists e :: e in events && Marks(e, d, slot)
  {
    var q := OfficeHours(events);
    if IsOpen(sessions, d, slot) {
      var k :| 0 <= k < |sessions| && Covers(sessions[k], d, slot);
      SessionOfParsed(q, sessions, k);
      assert q[k] in q && Marks(q[k], d, slot);
    }
    if e :| e in events && Marks(e, d, slot) {
      assert e in q;
      EventOpens(q, sessions, e, d, slot);
    }
  }

  /** Each parsed session comes from the event at the same index. */
  lemma SessionOfParsed(q: seq<Event>, sessions: seq<Session>, k: int)
    requires ParseSessions(q) == Ok(sessions) && 0 <= k < |sessions|
    ensures sessions[k] == SessionOf(q[k])
  {
  }

  /** A parsed event that covers a slot opens it. */
  lemma EventOpens(q: seq<Event>, sessions: seq<Session>, e: Event, d: int, slot: int)
    requires ParseSessions(q) == Ok(sessions)
    requires e in q && Readable(e) && Covers(SessionOf(e), d, slot)
    ensures IsOpen(sessions, d, slot)
  {
    var k :| 0 <= k < |q| && q[k] == e;
    assert sessions[k] == SessionOf(q[k]);
  }

  /** The builder fails iff some qualifying event has a timestamp `strptime` rejects. */
  lemma FailsByEvents(events: seq<Event>)
    ensures ScheduleOf(events).Err? <==> exists e :: e in events && IsOfficeHours(e) && !Readable(e)
  {
    if e :| e in events && IsOfficeHours(e) && !Readable(e) {
      var k :| 0 <= k < |events| && events[k] == e;
    }
  }

  /**
   * Only the set of events matters: reordering or repeating them gives the
   * same grid, and one fails iff the other does (the error reported is the
   * first failing timestamp in order, so it may differ).
   */
  lemma SameEventsSameSchedule(a: seq<Event>, b: seq<Event>)
    requires forall e :: e in a <==> e in b
    ensures ScheduleOf(a).Ok? <==> ScheduleOf(b).Ok?
    ensures ScheduleOf(a).Ok? ==> ScheduleOf(a) == ScheduleOf(b)
  {
    FailsByEvents(a);
    FailsByEvents(b);
    if ScheduleOf(a).Ok? {
      var v, w := ScheduleOf(a).value, ScheduleOf(b).value;
      forall d, slot | 0 <= d < Days && 0 <= slot < SlotsPerDay ensures v[d][slot] == Open <==> w[d][slot] == Open {
        ScheduleByEvents(a, d, slot);
        ScheduleByEvents(b, d, slot);
      }
      SameOpenSlots(v, w);
    }
  }

  lemma PermutedEventsSameSchedule(a: seq<Event>, b: seq<Event>)
    requires multiset(a) == multiset(b)
    ensures ScheduleOf(a).Ok? <==> ScheduleOf(b).Ok?
    ensures ScheduleOf(a).Ok? ==> ScheduleOf(a) == ScheduleOf(b)
  {
    assert forall e :: e in a <==> e in multiset(b);
    SameEventsSameSchedule(a, b);
  }

  /**
   * An event repeated right after itself changes nothing: not the grid, and
   * not the error either, because the copy is parsed only once the original
   * has parsed.
   */
  lemma RepeatedEventSameSchedule(a: seq<Event>, e: Event, b: seq<Event>)
    ensures ScheduleOf(a + [e] + b) == ScheduleOf(a + [e, e] + b)
  {
    if IsOfficeHours(e) {
      RepeatedQualifyingEvent(a, e, b);
    } else {
      IgnoredEvent(a, e, b);
      IgnoredEvent(a + [e], e, b);
      Doubled(a, e, b);
    }
  }

  lemma RepeatedQualifyingEvent(a: seq<Event>, e: Event, b: seq<Event>)
    requires IsOfficeHours(e)
    ensures ScheduleOf(a + [e] + b) == ScheduleOf(a + [e, e] + b)
  {
    FilteredAround(a, e, b);
    RepeatedFiltered(a, e, b);
    ParseSessionsRepeated(OfficeHours(a), e, OfficeHours(b));
    if ParseSessions(OfficeHours(a + [e] + b)).Err? {
      SameFailureSameSchedule(a + [e] + b, a + [e, e] + b);
    } else {
      SameEventsSameSchedule(a + [e] + b, a + [e, e] + b);
    }
  }

  lemma SameFailureSameSchedule(u: seq<Event>, v: seq<Event>)
    requires ParseSessions(OfficeHours(u)).Err?
    requires ParseSessions(OfficeHours(v)) == ParseSessions(OfficeHours(u))
    ensures ScheduleOf(u) == ScheduleOf(v)
  {
  }

  lemma RepeatedFiltered(a: seq<Event>, e: Event, b: seq<Event>)
    requires IsOfficeHours(e)
    ensures OfficeHours(a + [e, e] + b) == OfficeHours(a) + [e, e] + OfficeHours(b)
  {
    Doubled(a, e, b);
    FilteredAround(a + [e], e, b);
    FilteredSnoc(a, e);
    Doubled(OfficeHours(a), e, OfficeHours(b));
  }

  lemma Doubled<T>(a: seq<T>, e: T, b: seq<T>)
    ensures a + [e, e] + b == a + [e] + [e] + b
  {
  }

  lemma FilteredAround(a: seq<Event>, e: Event, b: seq<Event>)
    requires IsOfficeHours(e)
    ensures OfficeHours(a + [e] + b) == OfficeHours(a) + [e] + OfficeHours(b)
  {
    FilteredSnoc(a, e);
    OfficeHoursAppend(a + [e], b);
  }

  lemma FilteredSnoc(a: seq<Event>, e: Event)
    requires IsOfficeHours(e)
    ensures OfficeHours(a + [e]) == OfficeHours(a) + [e]
  {
    assert (a + [e])[..|a|] == a;
  }

  /** Parsing an event twice in a row fails exactly as parsing it once does. */
  lemma {:induction false} ParseSessionsRepeated(x: seq<Event>, e: Event, y: seq<Event>)
    ensures ParseSessions(x + [e] + y).Err? ==> ParseSessions(x + [e, e] + y) == ParseSessions(x + [e] + y)
    decreases |x|
  {
    if x == [] {
      assert x + [e] + y == [e] + y && ([e] + y)[1..] == y;
      assert x + [e, e] + y == [e] + ([e] + y) && ([e] + ([e] + y))[1..] == [e] + y;
    } else {
      var once, twice := x + [e] + y, x + [e, e] + y;
      assert once[0] == twice[0] == x[0];
      assert once[1..] == x[1..] + [e] + y && twice[1..] == x[1..] + [e, e] + y;
      ParseSessionsRepeated(x[1..], e, y);
    }
  }

  /** A session's day is the one after its start's, cyclically, for consecutive dates. */
  lemma DayOfNextDate(t: ParsedTime, u: ParsedTime)
    requires t.date != LastDate && u.date == NextDay(t.date)
    ensures DayIndex(u) == (DayIndex(t) + 1) % 7
  {
    WeekdayOfNextDay(t.date);
  }

  /** 7 January 2024 has ordinal 738892 and so is a Sunday. */
  lemma SeventhOfJanuary2024(d: Date)
    requires d.year == 2024 && d.month == 1 && d.day == 7
    ensures ValidDate(d) && Weekday(d) == 6
  {
    assert DaysBeforeYear(d.year) == 738885;
    assert DaysBeforeMonth(d.year, d.month) == 0;
    WeekdayOf(d, 105556, 6);
  }

  /**
   * A worked case: an office-hours event on Sunday 7 January 2024 from
   * 14:00 to 15:30 opens slots 28, 29 and 30 of the week's first row and
   * nothing else.
   */
  lemma SundayAfternoon(e: Event)
    requires e == Event("CS101 Office Hours", "confirmed", "2024-01-07T14:00:00+00:00", "2024-01-07T15:30:00+00:00")
    ensures ScheduleOf([e]).Ok?
    ensures forall d, slot :: 0 <= d < Days && 0 <= slot < SlotsPerDay ==>
      (ScheduleOf([e]).value[d][slot] == Open <==> d == 0 && 28 <= slot < 31)
  {
    SundayAfternoonParses(e);
    SundayAfternoonCovers(SessionOf(e));
    FailsByEvents([e]);
    forall d, slot | 0 <= d < Days && 0 <= slot < SlotsPerDay
      ensures ScheduleOf([e]).value[d][slot] == Open <==> d == 0 && 28 <= slot < 31
    {
      ScheduleByEvents([e], d, slot);
    }
  }

  lemma SundayAfternoonParses(e: Event)
    requires e == Event("CS101 Office Hours", "confirmed", "2024-01-07T14:00:00+00:00", "2024-01-07T15:30:00+00:00")
    ensures IsOfficeHours(e) && Readable(e)
    ensures SessionOf(e).start == DateTime(Date(2024, 1, 7), 14, 0, 0, 0)
    ensures SessionOf(e).end == DateTime(Date(2024, 1, 7), 15, 30, 0, 0)
  {
    var start, end := DateTime(Date(2024, 1, 7), 14, 0, 0, 0), DateTime(Date(2024, 1, 7), 15, 30, 0, 0);
    CourseSummaryQualifies(e.summary);
    assert e.status[1] != "cancelled"[1];
    SundayTexts(start, end);
    SeventhOfJanuary2024(start.date);
    ParsesTo(e.start, start);
    ParsesTo(e.end, end);
  }

  /** Text that `Format` wrote for a valid date-time parses back to it. */
  lemma ParsesTo(s: string, t: DateTime)
    requires Printable(t) && ValidDateTime(t) && s == Format(t)
    ensures Parse(s) == Ok(t)
  {
    ParseFormat(t);
  }

  /** The phrase is found after the course code, at index 6. */
  lemma CourseSummaryQualifies(summary: string)
    requires summary == "CS101 Office Hours"
    ensures Contains(summary, "Office Hours")
  {
    assert summary[6..] == "Office Hours";
    assert OccursAt(summary, "Office Hours", 6);
  }

  /** The two timestamps are what `Format` writes for the session's start and end. */
  lemma SundayTexts(start: DateTime, end: DateTime)
    requires start == DateTime(Date(2024, 1, 7), 14, 0, 0, 0) && end == DateTime(Date(2024, 1, 7), 15, 30, 0, 0)
    ensures Printable(start) && Format(start) == "2024-01-07T14:00:00+00:00"
    ensures Printable(end) && Format(end) == "2024-01-07T15:30:00+00:00"
  {
    SundayNumerals();
    assert "2024" + "-" + "01" + "-" + "07" == "2024-01-07";
    StartText(start);
    EndText(end);
  }

  lemma StartText(t: DateTime)
    requires t == DateTime(Date(2024, 1, 7), 14, 0, 0, 0)
    requires Four(2024) + "-" + Two(1) + "-" + Two(7) == "2024-01-07"
    ensures Printable(t) && Format(t) == "2024-01-07T14:00:00+00:00"
  {
    SundayNumerals();
    assert "14" + ":" + "00" + ":" + "00" == "14:00:00";
    FormatText(t, "2024-01-07", "14:00:00", "+00:00");
    assert "2024-01-07" + "T" + "14:00:00" + "+00:00" == "2024-01-07T14:00:00+00:00";
  }

  lemma EndText(t: DateTime)
    requires t == DateTime(Date(2024, 1, 7), 15, 30, 0, 0)
    requires Four(2024) + "-" + Two(1) + "-" + Two(7) == "2024-01-07"
    ensures Printable(t) && Format(t) == "2024-01-07T15:30:00+00:00"
  {
    SundayNumerals();
    assert "15" + ":" + "30" + ":" + "00" == "15:30:00";
    FormatText(t, "2024-01-07", "15:30:00", "+00:00");
    assert "2024-01-07" + "T" + "15:30:00" + "+00:00" == "2024-01-07T15:30:00+00:00";
  }

  /** `Format` writes the date, a `T`, the time of day and the offset. */
  lemma FormatText(t: DateTime, date: string, time: string, z: string)
    requires Printable(t)
    requires Four(t.date.year) + "-" + Two(t.date.month) + "-" + Two(t.date.day) == date
    requires Two(t.hour) + ":" + Two(t.minute) + ":" + Two(t.second) == time && OffsetText(t.utcOffset) == z
    ensures Format(t) == date + "T" + time + z
  {
  }

  lemma SundayNumerals()
    ensures Four(2024) == "2024" && OffsetText(0) == "+00:00"
    ensures Two(0) == "00" && Two(1) == "01" && Two(7) == "07" && Two(14) == "14" && Two(15) == "15" && Two(30) == "30"
  {
  }

  lemma SundayAfternoonCovers(s: Session)
    requires s.start.date.year == 2024 && s.start.date.month == 1 && s.start.date.day == 7
    requires s.start.hour == 14 && s.start.minute == 0 && s.end.hour == 15 && s.end.minute == 30
    ensures forall d, slot :: Covers(s, d, slot) <==> d == 0 && 28 <= slot < 31
  {
    SeventhOfJanuary2024(s.start.date);
    assert DayIndex(s.start) == 0;
  }
}
