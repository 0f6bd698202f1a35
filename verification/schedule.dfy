/**
 * The office-hours schedule builder of the `qiocli` package: the calendar's
 * event list becomes seven strings (Sunday first) of 48 half-hour slots,
 * `'o'` where a qualifying event is in session and `'c'` elsewhere.
 */
module Schedule {
  import opened Results
  import opened CivilTime
  import opened Timestamp

  /** One item of the calendar's `items` list, already decoded from JSON. */
  datatype Event = Event(summary: string, status: string, start: string, end: string)

  /** A `datetime` object: every field is in range. */
  type ParsedTime = t: DateTime | ValidDateTime(t) witness DateTime(Date(1, 1, 1), 0, 0, 0, 0)

  /** A qualifying event after its `start.dateTime` and `end.dateTime` are parsed. */
  datatype Session = Session(summary: string, start: ParsedTime, end: ParsedTime)

  const Days := 7
  const SlotsPerDay := 48
  const Open := 'o'
  const Closed := 'c'

  /** `pattern` occurs in `text` starting at index `i`. */
  predicate OccursAt(text: string, pattern: string, i: int) {
    0 <= i && i + |pattern| <= |text| && text[i..i + |pattern|] == pattern
  }

  /** Python's `pattern in text` on strings: a contiguous, case-sensitive occurrence. */
  function Contains(text: string, pattern: string): (r: bool)
    ensures r <==> exists i :: OccursAt(text, pattern, i)
    decreases |text|
  {
    if |pattern| > |text| then false
    else if text[..|pattern|] == pattern then assert OccursAt(text, pattern, 0); true
    else
      var r := Contains(text[1..], pattern);
      assert r ==> exists i :: OccursAt(text, pattern, i) by {
        if r {
          var i :| OccursAt(text[1..], pattern, i);
          assert text[i + 1..i + 1 + |pattern|] == text[1..][i..i + |pattern|];
          assert OccursAt(text, pattern, i + 1);
        }
      }
      assert (exists i :: OccursAt(text, pattern, i)) ==> r by {
        if i :| OccursAt(text, pattern, i) {
          assert i != 0;
          assert text[1..][i - 1..i - 1 + |pattern|] == text[i..i + |pattern|];
          assert OccursAt(text[1..], pattern, i - 1);
        }
      }
      r
  }

  /** The filter's test: the event is not cancelled and its summary mentions office hours. */
  predicate IsOfficeHours(e: Event): (r: bool)
    ensures r <==> e.status != "cancelled" && exists i :: OccursAt(e.summary, "Office Hours", i)
  {
    e.status != "cancelled" && Contains(e.summary, "Office Hours")
  }

  /** `list(filter(...))`: the qualifying events, in their original order. */
  function OfficeHours(events: seq<Event>): (r: seq<Event>)
    ensures forall e :: e in r <==> e in events && IsOfficeHours(e)
    decreases |events|
  {
    if events == [] then []
    else
      var last := events[|events| - 1];
      assert events == events[..|events| - 1] + [last];
      OfficeHours(events[..|events| - 1]) + (if IsOfficeHours(last) then [last] else [])
  }

  /** Both timestamps of the event are accepted by `strptime`. */
  predicate Readable(e: Event) {
    Parse(e.start).Ok? && Parse(e.end).Ok?
  }

  /** The dictionary the comprehension builds for a readable event. */
  function SessionOf(e: Event): (r: Session)
    requires Readable(e)
    ensures r.summary == e.summary && Parse(e.start) == Ok(r.start) && Parse(e.end) == Ok(r.end)
  {
    Session(e.summary, Parse(e.start).value, Parse(e.end).value)
  }

  /** The error `strptime` raises first for the event: its start is parsed before its end. */
  function FirstError(e: Event): (r: ParseError)
    requires !Readable(e)
    ensures r == if Parse(e.start).Err? then ParseError(e.start) else ParseError(e.end)
  {
    if Parse(e.start).Err? then Parse(e.start).error else Parse(e.end).error
  }

  /**
   * The list comprehension that parses every qualifying event, in order.
   * The first timestamp `strptime` rejects aborts it.
   */
  function ParseSessions(events: seq<Event>): (r: Result<seq<Session>, ParseError>)
    ensures r.Ok? <==> forall k :: 0 <= k < |events| ==> Readable(events[k])
    ensures r.Ok? ==> (|r.value| == |events|
      && forall k :: 0 <= k < |events| ==> Readable(events[k]) && r.value[k] == SessionOf(events[k]))
    decreases |events|
  {
    if events == [] then Ok([])
    else
      var start :- Parse(events[0].start);
      var end :- Parse(events[0].end);
      var rest :- ParseSessions(events[1..]);
      assert forall k :: 0 < k < |events| ==> events[k] == events[1..][k - 1];
      Ok([Session(events[0].summary, start, end)] + rest)
  }

  /** The error raised is the one for the first event whose timestamps do not parse. */
  lemma {:induction false} ParseSessionsError(events: seq<Event>)
    requires ParseSessions(events).Err?
    ensures exists k :: (0 <= k < |events| && !Readable(events[k]) && ParseSessions(events).error == FirstError(events[k])
                         && forall j :: 0 <= j < k ==> Readable(events[j]))
    decreases |events|
  {
    if Readable(events[0]) {
      ParseSessionsError(events[1..]);
      var k :| 0 <= k < |events| - 1 && !Readable(events[1..][k]) && ParseSessions(events[1..]).error == FirstError(events[1..][k])
        && forall j :: 0 <= j < k ==> Readable(events[1..][j]);
      ReadablePrefix(events, k);
    }
  }

  /** The events before index `k + 1` are readable when the first one and the `k` after it are. */
  lemma ReadablePrefix(events: seq<Event>, k: nat)
    requires k < |events| - 1 && Readable(events[0])
    requires forall j :: 0 <= j < k ==> Readable(events[1..][j])
    ensures forall j :: 0 <= j < k + 1 ==> Readable(events[j])
  {
    forall j | 0 < j < k + 1 ensures Readable(events[j]) {
      assert events[j] == events[1..][j - 1];
    }
  }

  /**
   * The half-hour slot of the day that holds the timestamp's wall-clock
   * time (the UTC offset is not applied).
   */
  function HalfHourIdx(t: ParsedTime): (i: int)
    ensures 0 <= i < SlotsPerDay
    ensures 30 * i <= 60 * t.hour + t.minute < 30 * (i + 1)
  {
    t.hour * 2 + (if t.minute < 30 then 0 else 1)
  }

  /** The schedule's day for a date: the queue's week runs from Sunday (0) to Saturday (6). */
  function DayIndex(t: ParsedTime): (d: int)
    ensures 0 <= d < Days
    ensures Weekday(t.date) == (d + 6) % 7
  {
    ShiftBack(Weekday(t.date));
    (Weekday(t.date) + 1) % 7
  }

  lemma ShiftBack(w: int)
    requires 0 <= w < 7
    ensures ((w + 1) % 7 + 6) % 7 == w
  {
  }

  /** The session puts office hours in the given slot of the given day. */
  predicate Covers(s: Session, day: int, slot: int) {
    DayIndex(s.start) == day && HalfHourIdx(s.start) <= slot < HalfHourIdx(s.end)
  }

  predicate IsOpen(sessions: seq<Session>, day: int, slot: int) {
    exists k :: 0 <= k < |sessions| && Covers(sessions[k], day, slot)
  }

  /** Seven rows of 48 slots, each open or closed. */
  predicate IsWeekSchedule(w: seq<string>) {
    |w| == Days && forall d :: 0 <= d < Days ==> (|w[d]| == SlotsPerDay
      && forall slot :: 0 <= slot < SlotsPerDay ==> w[d][slot] == Open || w[d][slot] == Closed)
  }

  /** The schedule the sessions describe: a slot is open iff some session covers it. */
  function Week(sessions: seq<Session>): (w: seq<string>)
    ensures IsWeekSchedule(w)
  {
    seq(Days, d => seq(SlotsPerDay, slot => if IsOpen(sessions, d, slot) then Open else Closed))
  }

  /** What `form_schedule(events)` returns, or the error it raises. */
  function ScheduleOf(events: seq<Event>): (r: Result<seq<string>, ParseError>)
    ensures r.Ok? ==> IsWeekSchedule(r.value)
    ensures r.Err? <==> exists k :: 0 <= k < |events| && IsOfficeHours(events[k]) && !Readable(events[k])
  {
    var qualifying := OfficeHours(events);
    var parsed := ParseSessions(qualifying);
    assert parsed.Err? <==> exists k :: 0 <= k < |events| && IsOfficeHours(events[k]) && !Readable(events[k]) by {
      if parsed.Err? {
        var k :| 0 <= k < |qualifying| && !Readable(qualifying[k]);
        assert qualifying[k] in qualifying;
        var j :| 0 <= j < |events| && events[j] == qualifying[k];
      }
      if k :| 0 <= k < |events| && IsOfficeHours(events[k]) && !Readable(events[k]) {
        assert events[k] in qualifying;
      }
    }
    match parsed
    case Err(e) => Err(e)
    case Ok(sessions) => Ok(Week(sessions))
  }

  lemma OpenAfterOneMore(sessions: seq<Session>, k: nat, day: int, slot: int)
    requires k < |sessions|
    ensures IsOpen(sessions[..k + 1], day, slot) <==> IsOpen(sessions[..k], day, slot) || Covers(sessions[k], day, slot)
  {
    if IsOpen(sessions[..k + 1], day, slot) && !Covers(sessions[k], day, slot) {
      var j :| 0 <= j < k + 1 && Covers(sessions[..k + 1][j], day, slot);
      assert sessions[..k][j] == sessions[j];
    }
    if Covers(sessions[k], day, slot) {
      assert sessions[..k + 1][k] == sessions[k];
    }
    if IsOpen(sessions[..k], day, slot) {
      var j :| 0 <= j < k && Covers(sessions[..k][j], day, slot);
      assert sessions[..k + 1][j] == sessions[j];
    }
  }

  /**
   * `form_schedule`: keep the qualifying events, parse their timestamps
   * (any failure propagates before a grid exists), then build the grid.
   */
  method FormSchedule(events: seq<Event>) returns (r: Result<seq<string>, ParseError>)
    ensures r == ScheduleOf(events)
  {
    var parsed := ParseSessions(OfficeHours(events));
    if parsed.Err? {
      return Err(parsed.error);
    }
    var week := MarkSessions(parsed.value);
    r := Ok(week);
  }

  /**
   * The grid of `form_schedule`: start from 7 by 48 closed slots and, for
   * each session in turn, open the slots `[start, end)` of its day by slice
   * assignment; finally join each day into a string.
   */
  method MarkSessions(sessions: seq<Session>) returns (week: seq<string>)
    ensures week == Week(sessions)
  {
    var schedule := new char[Days, SlotsPerDay]((_, _) => Closed);
    for k := 0 to |sessions|
      invariant forall d, slot :: 0 <= d < Days && 0 <= slot < SlotsPerDay ==>
        schedule[d, slot] == if IsOpen(sessions[..k], d, slot) then Open else Closed
    {
      var session := sessions[k];
      var start := HalfHourIdx(session.start);
      var end := HalfHourIdx(session.end);
      var day := DayIndex(session.start);
      forall slot | start <= slot < end {
        schedule[day, slot] := Open;
      }
      forall d, slot | 0 <= d < Days && 0 <= slot < SlotsPerDay
        ensures IsOpen(sessions[..k + 1], d, slot) <==> IsOpen(sessions[..k], d, slot) || Covers(session, d, slot)
      {
        OpenAfterOneMore(sessions, k, d, slot);
      }
    }
    assert sessions[..|sessions|] == sessions;
    week := JoinRows(schedule);
    assert week == Week(sessions) by {
      forall d | 0 <= d < Days ensures week[d] == Week(sessions)[d] { }
    }
  }

  /** `["".join(x) for x in schedule]`: one string per row of the grid. */
  method JoinRows(grid: array2<char>) returns (rows: seq<string>)
    ensures |rows| == grid.Length0
    ensures forall d :: 0 <= d < grid.Length0 ==> (|rows[d]| == grid.Length1
      && forall slot :: 0 <= slot < grid.Length1 ==> rows[d][slot] == grid[d, slot])
  {
    rows := seq(grid.Length0, d requires 0 <= d < grid.Length0 reads grid =>
      seq(grid.Length1, slot requires 0 <= slot < grid.Length1 reads grid => grid[d, slot]));
  }
}
