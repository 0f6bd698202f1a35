/**
 * The command-line script keeps its own copies of the two helpers instead
 * of importing them from the package. Its half-hour index and its grid loop
 * (with the day computed inline) are modelled here on their own and proved
 * to agree with the package's. Its filter and its parsing comprehension are
 * the same text as the package's, so `FormSchedule` reuses
 * `Schedule.OfficeHours` and `Schedule.ParseSessions` for them, and those
 * two stages agree by construction.
 */
module LegacyMain {
  import opened Results
  import opened CivilTime
  import opened Timestamp
  import Schedule

  /** The script's `timestamp_to_half_hour_idx`. */
  function HalfHourIdx(t: Schedule.ParsedTime): (i: int)
    ensures 0 <= i < Schedule.SlotsPerDay
    ensures 30 * i <= 60 * t.hour + t.minute < 30 * (i + 1)
    ensures i == Schedule.HalfHourIdx(t)
  {
    t.hour * 2 + (if t.minute < 30 then 0 else 1)
  }

  /**
   * The script's `form_schedule`: the same filter, parse and slice
   * assignments, giving the same grid or the same error as the package.
   */
  method FormSchedule(events: seq<Schedule.Event>) returns (r: Result<seq<string>, ParseError>)
    ensures r == Schedule.ScheduleOf(events)
  {
    var parsed := Schedule.ParseSessions(Schedule.OfficeHours(events));
    if parsed.Err? {
      return Err(parsed.error);
    }
    var week := MarkSessions(parsed.value);
    r := Ok(week);
  }

  /** The script's loop over the parsed sessions and its final join. */
  method MarkSessions(sessions: seq<Schedule.Session>) returns (week: seq<string>)
    ensures week == Schedule.Week(sessions)
  {
    var schedule := new char[Schedule.Days, Schedule.SlotsPerDay]((_, _) => Schedule.Closed);
    for k := 0 to |sessions|
      invariant forall d, slot :: 0 <= d < Schedule.Days && 0 <= slot < Schedule.SlotsPerDay ==>
        schedule[d, slot] == if Schedule.IsOpen(sessions[..k], d, slot) then Schedule.Open else Schedule.Closed
    {
      var session := sessions[k];
      var start := HalfHourIdx(session.start);
      var end := HalfHourIdx(session.end);
      var day := (Weekday(session.start.date) + 1) % 7;
      forall slot | start <= slot < end {
        schedule[day, slot] := Schedule.Open;
      }
      forall d, slot | 0 <= d < Schedule.Days && 0 <= slot < Schedule.SlotsPerDay
        ensures Schedule.IsOpen(sessions[..k + 1], d, slot)
          <==> Schedule.IsOpen(sessions[..k], d, slot) || Schedule.Covers(session, d, slot)
      {
        Schedule.OpenAfterOneMore(sessions, k, d, slot);
      }
    }
    assert sessions[..|sessions|] == sessions;
    week := Schedule.JoinRows(schedule);
    assert week == Schedule.Week(sessions) by {
      forall d | 0 <= d < Schedule.Days ensures week[d] == Schedule.Week(sessions)[d] { }
    }
  }
}
