/**
 * Free-time computation for one person's calendar (`calculateFreeSlots`).
 *
 * Times are local: a calendar day index and a minute count from that day's
 * midnight. The routine walks the days of a date range, keeps each day's
 * timed events that start on that day, sorts them by start, and sweeps a
 * cursor from the start of working hours, reporting every gap of at least
 * an hour before an event and the gap left before working hours end.
 */
module Calendar {

  const MinutesPerDay := 1440
  const MinutesPerHour := 60
  /** Gaps shorter than this many minutes are not reported. */
  const MinSlotMinutes := 60

  type MinuteOfDay = m: int | 0 <= m < 1440

  /** A local date and time: day index and minute of that day. */
  datatype Instant = Instant(day: int, minute: MinuteOfDay)

  /** `a <= b` on instants. */
  predicate NotAfter(a: Instant, b: Instant) {
    a.day < b.day || (a.day == b.day && a.minute <= b.minute)
  }

  /**
   * One calendar event. `day` is the calendar day its start falls on,
   * `start` its minute of that day, and `end` is counted in minutes from the
   * same midnight, so an event that runs past midnight has `end >= 1440`.
   */
  datatype CalendarEvent = CalendarEvent(day: int, start: MinuteOfDay, end: int, isAllDay: bool)

  /** Working hours as whole hours of the day. */
  datatype WorkingHours = WorkingHours(startHour: int, endHour: int)

  const DefaultHours := WorkingHours(9, 21)

  /** A reported free gap `[start, end)` on day `date`, in minutes from that day's midnight. */
  datatype FreeSlot = FreeSlot(date: int, start: int, end: int)

  function Max(a: int, b: int): int { if a >= b then a else b }

  function DayStart(hours: WorkingHours): int { hours.startHour * MinutesPerHour }

  function DayEnd(hours: WorkingHours): int { hours.endHour * MinutesPerHour }

  /** Events whose end is not before their start, as a calendar provider delivers them. */
  predicate WellFormed(events: seq<CalendarEvent>) {
    forall i :: 0 <= i < |events| ==> events[i].start <= events[i].end
  }

  // ---------------------------------------------------------------------
  // Selecting and ordering one day's events
  // ---------------------------------------------------------------------

  /** The timed events that start on `day`, in input order (the `filter` step). */
  function TimedEventsOn(events: seq<CalendarEvent>, day: int): seq<CalendarEvent> {
    if events == [] then []
    else
      var rest := TimedEventsOn(events[1..], day);
      if events[0].day == day && !events[0].isAllDay then [events[0]] + rest else rest
  }

  /** The filter keeps exactly the timed events that start on `day`. */
  lemma {:induction false} TimedEventsOnMembers(events: seq<CalendarEvent>, day: int)
    ensures forall e :: e in TimedEventsOn(events, day) <==> e in events && e.day == day && !e.isAllDay
  {
    if events != [] {
      TimedEventsOnMembers(events[1..], day);
      assert events == [events[0]] + events[1..];
    }
  }

  lemma {:induction false} TimedEventsOnAppend(a: seq<CalendarEvent>, b: seq<CalendarEvent>, day: int)
    ensures TimedEventsOn(a + b, day) == TimedEventsOn(a, day) + TimedEventsOn(b, day)
  {
    if a == [] {
      assert a + b == b;
    } else {
      assert (a + b)[1..] == a[1..] + b;
      TimedEventsOnAppend(a[1..], b, day);
    }
  }

  /** Each event starts no earlier than the one before it. */
  predicate SortedByStart(s: seq<CalendarEvent>) {
    forall i, j :: 0 <= i < j < |s| ==> s[i].start <= s[j].start
  }

  /** Inserts `e` before the first element that does not start earlier, so equal starts keep their order. */
  function InsertByStart(e: CalendarEvent, s: seq<CalendarEvent>): seq<CalendarEvent> {
    if s == [] || e.start <= s[0].start then [e] + s
    else [s[0]] + InsertByStart(e, s[1..])
  }

  /** The stable `sort` by start time applied to a day's events, as an insertion sort. */
  function SortByStart(s: seq<CalendarEvent>): seq<CalendarEvent> {
    if s == [] then []
    else InsertByStart(s[0], SortByStart(s[1..]))
  }

  /** Inserting adds exactly `e`, at the front or behind the old first element. */
  lemma {:induction false} InsertByStartPermutes(e: CalendarEvent, s: seq<CalendarEvent>)
    ensures multiset(InsertByStart(e, s)) == multiset(s) + multiset{e}
    ensures |InsertByStart(e, s)| == |s| + 1
    ensures InsertByStart(e, s)[0] == e || (s != [] && InsertByStart(e, s)[0] == s[0])
  {
    if s != [] && e.start > s[0].start {
      assert s == [s[0]] + s[1..];
      InsertByStartPermutes(e, s[1..]);
    }
  }

  /** A lower bound on every start in `s` and on `e` bounds every start after inserting `e`. */
  lemma {:induction false} InsertByStartBound(e: CalendarEvent, s: seq<CalendarEvent>, b: int)
    requires b <= e.start
    requires forall i :: 0 <= i < |s| ==> b <= s[i].start
    ensures forall i :: 0 <= i < |InsertByStart(e, s)| ==> b <= InsertByStart(e, s)[i].start
  {
    if s != [] && e.start > s[0].start {
      InsertByStartBound(e, s[1..], b);
      assert InsertByStart(e, s) == [s[0]] + InsertByStart(e, s[1..]);
    }
  }

  /** Inserting into a sequence sorted by start keeps it sorted. */
  lemma {:induction false} InsertByStartSorted(e: CalendarEvent, s: seq<CalendarEvent>)
    requires SortedByStart(s)
    ensures SortedByStart(InsertByStart(e, s))
  {
    if s != [] && e.start > s[0].start {
      InsertByStartSorted(e, s[1..]);
      InsertByStartBound(e, s[1..], s[0].start);
      assert InsertByStart(e, s) == [s[0]] + InsertByStart(e, s[1..]);
    }
  }

  /** `SortByStart` returns its input reordered by start time. */
  lemma {:induction false} SortByStartSorted(s: seq<CalendarEvent>)
    ensures SortedByStart(SortByStart(s))
    ensures multiset(SortByStart(s)) == multiset(s)
  {
    if s != [] {
      assert s == [s[0]] + s[1..];
      SortByStartSorted(s[1..]);
      InsertByStartSorted(s[0], SortByStart(s[1..]));
      InsertByStartPermutes(s[0], SortByStart(s[1..]));
    }
  }

  /** The events `calculateFreeSlots` considers on `day`: timed, starting that day, sorted by start. */
  function DayEvents(events: seq<CalendarEvent>, day: int): seq<CalendarEvent> {
    SortByStart(TimedEventsOn(events, day))
  }

  /** The considered events are sorted by start and are exactly the day's timed events. */
  lemma DayEventsMembers(events: seq<CalendarEvent>, day: int)
    ensures SortedByStart(DayEvents(events, day))
    ensures forall e :: e in DayEvents(events, day) <==> e in events && e.day == day && !e.isAllDay
  {
    var r := DayEvents(events, day);
    SortByStartSorted(TimedEventsOn(events, day));
    TimedEventsOnMembers(events, day);
    assert forall e :: e in r <==> e in multiset(r);
    assert forall e :: e in TimedEventsOn(events, day) <==> e in multiset(TimedEventsOn(events, day));
  }

  // ---------------------------------------------------------------------
  // The sweep over one day
  // ---------------------------------------------------------------------

  /** State of the sweep: the gaps reported so far and the cursor (`slotStart`). */
  datatype Sweep = Sweep(gaps: seq<FreeSlot>, cursor: int)

  /** Whether an event starting at `start` leaves a reportable gap after `cursor`. */
  predicate LeavesGap(cursor: int, start: int) {
    start > cursor && start - cursor >= MinSlotMinutes
  }

  /**
   * One step of the sweep: a gap of at least an hour before `e` is reported,
   * then the cursor moves to the later of itself and the end of `e`.
   */
  function Advance(st: Sweep, e: CalendarEvent, date: int): Sweep {
    Sweep(if LeavesGap(st.cursor, e.start) then st.gaps + [FreeSlot(date, st.cursor, e.start)] else st.gaps,
          Max(st.cursor, e.end))
  }

  /** The sweep after the events `evs`, taken in order, starting from `workStart`. */
  function SweepDay(evs: seq<CalendarEvent>, date: int, workStart: int): Sweep
    decreases |evs|
  {
    if evs == [] then Sweep([], workStart)
    else Advance(SweepDay(evs[..|evs| - 1], date, workStart), evs[|evs| - 1], date)
  }

  /** The cursor never falls below `workStart` and ends past every event's end. */
  lemma {:induction false} SweepCursorBounds(evs: seq<CalendarEvent>, date: int, workStart: int)
    ensures SweepDay(evs, date, workStart).cursor >= workStart
    ensures forall k :: 0 <= k < |evs| ==> evs[k].end <= SweepDay(evs, date, workStart).cursor
    decreases |evs|
  {
    if evs != [] {
      var n := |evs| - 1;
      var prefix := evs[..n];
      assert forall k :: 0 <= k < n ==> prefix[k] == evs[k];
      SweepCursorBounds(prefix, date, workStart);
      assert SweepDay(evs, date, workStart) == Advance(SweepDay(prefix, date, workStart), evs[n], date);
    }
  }

  /** The cursor ends either at `workStart` or at the end of one of the events: it is their latest. */
  lemma {:induction false} SweepCursorReached(evs: seq<CalendarEvent>, date: int, workStart: int)
    ensures SweepDay(evs, date, workStart).cursor == workStart ||
            exists k :: 0 <= k < |evs| && evs[k].end == SweepDay(evs, date, workStart).cursor
    decreases |evs|
  {
    if evs != [] {
      var n := |evs| - 1;
      var prefix := evs[..n];
      SweepCursorReached(prefix, date, workStart);
      var prev := SweepDay(prefix, date, workStart);
      var r := SweepDay(evs, date, workStart);
      assert r == Advance(prev, evs[n], date);
      if prev.cursor != workStart && r.cursor == prev.cursor {
        var k :| 0 <= k < |prefix| && prefix[k].end == prev.cursor;
        assert evs[k].end == r.cursor;
      }
    }
  }

  /** Every gap is dated `date`, starts no earlier than `workStart` and lasts at least an hour. */
  lemma {:induction false} SweepGapBounds(evs: seq<CalendarEvent>, date: int, workStart: int)
    ensures forall i :: 0 <= i < |SweepDay(evs, date, workStart).gaps| ==>
              SweepDay(evs, date, workStart).gaps[i].date == date &&
              workStart <= SweepDay(evs, date, workStart).gaps[i].start &&
              SweepDay(evs, date, workStart).gaps[i].end - SweepDay(evs, date, workStart).gaps[i].start >= MinSlotMinutes
    decreases |evs|
  {
    if evs != [] {
      var n := |evs| - 1;
      var prefix := evs[..n];
      SweepGapBounds(prefix, date, workStart);
      SweepCursorBounds(prefix, date, workStart);
      var prev := SweepDay(prefix, date, workStart);
      var r := SweepDay(evs, date, workStart);
      assert r == Advance(prev, evs[n], date);
      if LeavesGap(prev.cursor, evs[n].start) {
        assert r.gaps == prev.gaps + [FreeSlot(date, prev.cursor, evs[n].start)];
      } else {
        assert r.gaps == prev.gaps;
      }
    }
  }

  /** Every gap ends exactly where one of the events starts. */
  lemma {:induction false} SweepGapEndsAtEvent(evs: seq<CalendarEvent>, date: int, workStart: int)
    ensures forall i :: 0 <= i < |SweepDay(evs, date, workStart).gaps| ==>
              exists k :: 0 <= k < |evs| && evs[k].start == SweepDay(evs, date, workStart).gaps[i].end
    decreases |evs|
  {
    if evs != [] {
      var n := |evs| - 1;
      var prefix := evs[..n];
      SweepGapEndsAtEvent(prefix, date, workStart);
      var prev := SweepDay(prefix, date, workStart);
      var r := SweepDay(evs, date, workStart);
      assert r == Advance(prev, evs[n], date);
      forall i | 0 <= i < |SweepDay(evs, date, workStart).gaps|
        ensures exists k :: 0 <= k < |evs| && evs[k].start == SweepDay(evs, date, workStart).gaps[i].end
      {
        if i < |prev.gaps| {
          assert r.gaps[i] == prev.gaps[i];
          var k :| 0 <= k < |prefix| && prefix[k].start == prev.gaps[i].end;
          assert evs[k].start == r.gaps[i].end;
        } else {
          assert evs[n].start == r.gaps[i].end;
        }
      }
    } else {
      assert SweepDay(evs, date, workStart).gaps == [];
    }
  }

  /** The gap reported after the last event, up to the end of working hours. */
  function TrailingSlot(cursor: int, date: int, workEnd: int): seq<FreeSlot> {
    if cursor < workEnd && workEnd - cursor >= MinSlotMinutes
    then [FreeSlot(date, cursor, workEnd)]
    else []
  }

  /** Everything `calculateFreeSlots` reports for one day, in order. */
  function DaySlots(events: seq<CalendarEvent>, date: int, hours: WorkingHours): seq<FreeSlot> {
    var sweep := SweepDay(DayEvents(events, date), date, DayStart(hours));
    sweep.gaps + TrailingSlot(sweep.cursor, date, DayEnd(hours))
  }

  /** The end of the busy time that the day's events leave inside working hours. */
  function BusyUntil(events: seq<CalendarEvent>, date: int, hours: WorkingHours): int {
    SweepDay(DayEvents(events, date), date, DayStart(hours)).cursor
  }

  // ---------------------------------------------------------------------
  // The whole date range
  // ---------------------------------------------------------------------

  /** The last day the loop visits: the start time of day is kept while stepping. */
  function LastDay(startDate: Instant, endDate: Instant): int {
    if startDate.minute <= endDate.minute then endDate.day else endDate.day - 1
  }

  /** The slots of days `first` .. `upto - 1`, day after day. */
  function SlotsForDays(events: seq<CalendarEvent>, first: int, upto: int, hours: WorkingHours): seq<FreeSlot>
    decreases upto - first
  {
    if upto <= first then []
    else SlotsForDays(events, first, upto - 1, hours) + DaySlots(events, upto - 1, hours)
  }

  /** The result of `calculateFreeSlots(events, startDate, endDate, hours)`. */
  function FreeSlots(events: seq<CalendarEvent>, startDate: Instant, endDate: Instant, hours: WorkingHours)
    : seq<FreeSlot>
  {
    SlotsForDays(events, startDate.day, LastDay(startDate, endDate) + 1, hours)
  }

  /** One more day appends that day's slots. */
  lemma SlotsForDaysStep(events: seq<CalendarEvent>, first: int, d: int, hours: WorkingHours)
    requires first <= d
    ensures SlotsForDays(events, first, d + 1, hours) ==
            SlotsForDays(events, first, d, hours) + DaySlots(events, d, hours)
  {
  }

  /** A day's slots are the sweep's gaps followed by the trailing slot. */
  lemma DaySlotsSplit(events: seq<CalendarEvent>, date: int, hours: WorkingHours)
    ensures DaySlots(events, date, hours) ==
            SweepDay(DayEvents(events, date), date, DayStart(hours)).gaps +
            TrailingSlot(SweepDay(DayEvents(events, date), date, DayStart(hours)).cursor, date, DayEnd(hours))
  {
  }

  lemma AppendAssoc<T>(a: seq<T>, b: seq<T>, c: seq<T>)
    ensures (a + b) + c == a + (b + c)
  {
  }

  /** The loop visits day `d` exactly when `d` is at most `LastDay`. */
  lemma VisitedDays(startDate: Instant, endDate: Instant, d: int)
    ensures NotAfter(Instant(d, startDate.minute), endDate) <==> d <= LastDay(startDate, endDate)
  {
  }

  /**
   * The inner loop of `calculateFreeSlots`: walks one day's sorted events,
   * pushing onto `freeSlots` each gap of at least an hour before an event and
   * moving `slotStart` to the latest end seen.
   */
  method SweepEvents(dayEvents: seq<CalendarEvent>, day: int, dayStart: int, slots: seq<FreeSlot>)
    returns (freeSlots: seq<FreeSlot>, slotStart: int)
    ensures freeSlots == slots + SweepDay(dayEvents, day, dayStart).gaps
    ensures slotStart == SweepDay(dayEvents, day, dayStart).cursor
  {
    freeSlots := slots;
    slotStart := dayStart;
    for k := 0 to |dayEvents|
      invariant freeSlots == slots + SweepDay(dayEvents[..k], day, dayStart).gaps
      invariant slotStart == SweepDay(dayEvents[..k], day, dayStart).cursor
    {
      var event := dayEvents[k];
      assert dayEvents[..k + 1][..k] == dayEvents[..k];
      if event.start > slotStart {
        var gapMinutes := event.start - slotStart;
        if gapMinutes >= MinSlotMinutes {
          freeSlots := freeSlots + [FreeSlot(day, slotStart, event.start)];
        }
      }
      slotStart := Max(slotStart, event.end);
    }
    assert dayEvents[..|dayEvents|] == dayEvents;
  }

  /**
   * `calculateFreeSlots`: steps a date from `startDate` while it is not after
   * `endDate`, and for each day sweeps its sorted timed events, pushing the
   * gaps of at least an hour into `freeSlots`.
   */
  method CalculateFreeSlots(events: seq<CalendarEvent>, startDate: Instant, endDate: Instant,
                            workingHours: WorkingHours)
    returns (freeSlots: seq<FreeSlot>)
    ensures freeSlots == FreeSlots(events, startDate, endDate, workingHours)
    ensures !NotAfter(startDate, endDate) ==> freeSlots == []
  {
    freeSlots := [];
    var currentDate := startDate;
    while NotAfter(currentDate, endDate)
      invariant currentDate.minute == startDate.minute
      invariant currentDate.day == startDate.day ||
                startDate.day < currentDate.day <= LastDay(startDate, endDate) + 1
      invariant freeSlots == SlotsForDays(events, startDate.day, currentDate.day, workingHours)
      decreases LastDay(startDate, endDate) - currentDate.day
    {
      VisitedDays(startDate, endDate, currentDate.day);
      SlotsForDaysStep(events, startDate.day, currentDate.day, workingHours);
      DaySlotsSplit(events, currentDate.day, workingHours);
      var dayStart := DayStart(workingHours);
      var dayEnd := DayEnd(workingHours);
      var dayEvents := DayEvents(events, currentDate.day);
      ghost var before := freeSlots;

      var slotStart;
      freeSlots, slotStart := SweepEvents(dayEvents, currentDate.day, dayStart, freeSlots);

      ghost var swept := freeSlots;
      if slotStart < dayEnd {
        var gapMinutes := dayEnd - slotStart;
        if gapMinutes >= MinSlotMinutes {
          freeSlots := freeSlots + [FreeSlot(currentDate.day, slotStart, dayEnd)];
        }
      }
      assert freeSlots == swept + TrailingSlot(slotStart, currentDate.day, dayEnd);
      AppendAssoc(before, SweepDay(dayEvents, currentDate.day, dayStart).gaps,
                  TrailingSlot(slotStart, currentDate.day, dayEnd));
      assert freeSlots == before + DaySlots(events, currentDate.day, workingHours);
      currentDate := Instant(currentDate.day + 1, currentDate.minute);
    }
    VisitedDays(startDate, endDate, currentDate.day);
  }

  // ---------------------------------------------------------------------
  // Properties
  // ---------------------------------------------------------------------

  /** Every reported slot lies in the date range, lasts at least an hour and starts inside working hours. */
  lemma SlotsInRange(events: seq<CalendarEvent>, startDate: Instant, endDate: Instant, hours: WorkingHours)
    ensures forall s :: s in FreeSlots(events, startDate, endDate, hours) ==>
              startDate.day <= s.date <= LastDay(startDate, endDate) &&
              s.end - s.start >= MinSlotMinutes && s.start >= DayStart(hours)
  {
    var last := LastDay(startDate, endDate);
    forall s | s in FreeSlots(events, startDate, endDate, hours)
      ensures startDate.day <= s.date <= last
      ensures s.end - s.start >= MinSlotMinutes && s.start >= DayStart(hours)
    {
      var d := DayOfSlot(events, startDate.day, last + 1, hours, s);
      DaySlotsBounds(events, d, hours);
    }
  }

  /** Each slot of `SlotsForDays` comes from the slots of one day in range. */
  lemma {:induction false} DayOfSlot(events: seq<CalendarEvent>, first: int, upto: int, hours: WorkingHours,
                                     s: FreeSlot)
    returns (d: int)
    requires s in SlotsForDays(events, first, upto, hours)
    ensures first <= d < upto && s in DaySlots(events, d, hours)
    decreases upto - first
  {
    if s in SlotsForDays(events, first, upto - 1, hours) {
      d := DayOfSlot(events, first, upto - 1, hours, s);
    } else {
      d := upto - 1;
    }
  }

  /** One day's slots are dated that day, start no earlier than working hours and last at least an hour. */
  lemma DaySlotsBounds(events: seq<CalendarEvent>, date: int, hours: WorkingHours)
    ensures forall s :: s in DaySlots(events, date, hours) ==>
              s.date == date && s.start >= DayStart(hours) && s.end - s.start >= MinSlotMinutes
  {
    var evs := DayEvents(events, date);
    var sweep := SweepDay(evs, date, DayStart(hours));
    SweepGapBounds(evs, date, DayStart(hours));
    SweepCursorBounds(evs, date, DayStart(hours));
    var r := DaySlots(events, date, hours);
    assert r == sweep.gaps + TrailingSlot(sweep.cursor, date, DayEnd(hours));
    forall s | s in r
      ensures s.date == date && s.start >= DayStart(hours) && s.end - s.start >= MinSlotMinutes
    {
      var i :| 0 <= i < |r| && r[i] == s;
      if i < |sweep.gaps| {
        assert s == sweep.gaps[i];
      }
    }
  }

  /**
   * One day's slots end either exactly at the end of working hours or where
   * one of that day's timed events starts.
   */
  lemma DaySlotsEnds(events: seq<CalendarEvent>, date: int, hours: WorkingHours)
    ensures forall s :: s in DaySlots(events, date, hours) ==>
              s.end == DayEnd(hours) ||
              exists e :: e in events && e.day == date && !e.isAllDay && e.start == s.end
  {
    var evs := DayEvents(events, date);
    DayEventsMembers(events, date);
    var sweep := SweepDay(evs, date, DayStart(hours));
    SweepGapEndsAtEvent(evs, date, DayStart(hours));
    var r := DaySlots(events, date, hours);
    assert r == sweep.gaps + TrailingSlot(sweep.cursor, date, DayEnd(hours));
    forall s | s in r
      ensures s.end == DayEnd(hours) ||
              exists e :: e in events && e.day == date && !e.isAllDay && e.start == s.end
    {
      var i :| 0 <= i < |r| && r[i] == s;
      if i < |sweep.gaps| {
        var k :| 0 <= k < |evs| && evs[k].start == sweep.gaps[i].end;
        assert evs[k] in evs;
      }
    }
  }

  /** The cursor the sweep ends on is the latest of the working-hours start and the day's event ends. */
  lemma BusyUntilIsLatestEnd(events: seq<CalendarEvent>, date: int, hours: WorkingHours)
    ensures BusyUntil(events, date, hours) >= DayStart(hours)
    ensures forall e :: e in events && e.day == date && !e.isAllDay ==> e.end <= BusyUntil(events, date, hours)
    ensures BusyUntil(events, date, hours) == DayStart(hours) ||
            exists e :: e in events && e.day == date && !e.isAllDay && e.end == BusyUntil(events, date, hours)
  {
    var evs := DayEvents(events, date);
    DayEventsMembers(events, date);
    SweepCursorBounds(evs, date, DayStart(hours));
    SweepCursorReached(evs, date, DayStart(hours));
    forall e | e in events && e.day == date && !e.isAllDay
      ensures e.end <= BusyUntil(events, date, hours)
    {
      assert e in evs;
      var i :| 0 <= i < |evs| && evs[i] == e;
    }
    if BusyUntil(events, date, hours) != DayStart(hours) {
      var i :| 0 <= i < |evs| && evs[i].end == BusyUntil(events, date, hours);
      assert evs[i] in evs;
    }
  }

  /**
   * The day's last slot runs from where the events leave off to exactly the
   * end of working hours whenever that leaves at least an hour; otherwise
   * no slot ends at the end of working hours unless an event starts there.
   */
  lemma TrailingSlotEndsAtWorkEnd(events: seq<CalendarEvent>, date: int, hours: WorkingHours)
    ensures DayEnd(hours) - BusyUntil(events, date, hours) >= MinSlotMinutes ==>
              |DaySlots(events, date, hours)| > 0 &&
              DaySlots(events, date, hours)[|DaySlots(events, date, hours)| - 1] ==
                FreeSlot(date, BusyUntil(events, date, hours), DayEnd(hours))
    ensures DayEnd(hours) - BusyUntil(events, date, hours) < MinSlotMinutes ==>
              DaySlots(events, date, hours) == SweepDay(DayEvents(events, date), date, DayStart(hours)).gaps
  {
  }

  lemma DayEventsWellFormed(events: seq<CalendarEvent>, date: int)
    requires WellFormed(events)
    ensures WellFormed(DayEvents(events, date))
  {
    var evs := DayEvents(events, date);
    DayEventsMembers(events, date);
    forall i | 0 <= i < |evs| ensures evs[i].start <= evs[i].end {
      assert evs[i] in evs;
      var k :| 0 <= k < |events| && events[k] == evs[i];
    }
  }

  /** With well-formed events, one day's slots come out in increasing order, none overlapping the next. */
  lemma DaySlotsOrdered(events: seq<CalendarEvent>, date: int, hours: WorkingHours)
    requires WellFormed(events)
    ensures forall i, j :: 0 <= i < j < |DaySlots(events, date, hours)| ==>
              DaySlots(events, date, hours)[i].end <= DaySlots(events, date, hours)[j].start
  {
    var evs := DayEvents(events, date);
    DayEventsWellFormed(events, date);
    DayEventsMembers(events, date);
    var sweep := SweepDay(evs, date, DayStart(hours));
    SweepGapsOrdered(evs, date, DayStart(hours));
    SweepGapsBeforeCursor(evs, date, DayStart(hours));
    var r := DaySlots(events, date, hours);
    assert r == sweep.gaps + TrailingSlot(sweep.cursor, date, DayEnd(hours));
    forall i, j | 0 <= i < j < |r| ensures r[i].end <= r[j].start {
      assert r[i] == sweep.gaps[i];
      if j >= |sweep.gaps| {
        assert r[j].start == sweep.cursor;
      } else {
        assert r[j] == sweep.gaps[j];
      }
    }
  }

  /** No slot of a day overlaps a timed event that starts that day. */
  lemma DaySlotsAvoidEvents(events: seq<CalendarEvent>, date: int, hours: WorkingHours)
    ensures forall s, e :: s in DaySlots(events, date, hours) && e in events && e.day == date && !e.isAllDay ==>
              e.end <= s.start || s.end <= e.start
  {
    var evs := DayEvents(events, date);
    DayEventsMembers(events, date);
    var sweep := SweepDay(evs, date, DayStart(hours));
    SweepGapsAvoidEvents(evs, date, DayStart(hours));
    SweepCursorBounds(evs, date, DayStart(hours));
    var r := DaySlots(events, date, hours);
    assert r == sweep.gaps + TrailingSlot(sweep.cursor, date, DayEnd(hours));
    forall s, e | s in r && e in events && e.day == date && !e.isAllDay
      ensures e.end <= s.start || s.end <= e.start
    {
      assert e in evs;
      var k :| 0 <= k < |evs| && evs[k] == e;
      var i :| 0 <= i < |r| && r[i] == s;
      if i < |sweep.gaps| {
        assert s == sweep.gaps[i];
      } else {
        assert s.start == sweep.cursor;
      }
    }
  }

  /**
   * A window `[a, b)` of at least an hour that starts no earlier than `workStart`
   * and that none of `evs` overlaps is either inside one of the sweep's gaps, or
   * the cursor ends no later than `a`. `covered` says which, and `g` is the gap.
   */
  lemma {:induction false} SweepCoversFreeWindow(evs: seq<CalendarEvent>, date: int, workStart: int, a: int, b: int)
    returns (covered: bool, g: FreeSlot)
    requires workStart <= a && a + MinSlotMinutes <= b
    requires forall k :: 0 <= k < |evs| ==> evs[k].end <= a || b <= evs[k].start
    ensures covered ==> g in SweepDay(evs, date, workStart).gaps && g.start <= a && b <= g.end
    ensures !covered ==> SweepDay(evs, date, workStart).cursor <= a
    decreases |evs|
  {
    if evs == [] {
      covered, g := false, FreeSlot(date, a, b);
    } else {
      var prefix, e := evs[..|evs| - 1], evs[|evs| - 1];
      assert forall k :: 0 <= k < |prefix| ==> prefix[k] == evs[k];
      covered, g := SweepCoversFreeWindow(prefix, date, workStart, a, b);
      var st := SweepDay(prefix, date, workStart);
      assert SweepDay(evs, date, workStart) == Advance(st, e, date);
      if !covered && b <= e.start {
        // The event starts after the window, and the cursor is still before it.
        covered, g := true, FreeSlot(date, st.cursor, e.start);
      }
    }
  }

  /**
   * Every free hour is reported: a window of at least an hour inside working
   * hours that no timed event of the day overlaps lies inside one of the day's
   * slots.
   */
  lemma DaySlotsCoverFreeWindow(events: seq<CalendarEvent>, date: int, hours: WorkingHours, a: int, b: int)
    returns (s: FreeSlot)
    requires DayStart(hours) <= a && a + MinSlotMinutes <= b <= DayEnd(hours)
    requires forall e :: e in events && e.day == date && !e.isAllDay ==> e.end <= a || b <= e.start
    ensures s in DaySlots(events, date, hours) && s.start <= a && b <= s.end
  {
    var evs := DayEvents(events, date);
    DayEventsMembers(events, date);
    forall k | 0 <= k < |evs| ensures evs[k].end <= a || b <= evs[k].start {
      assert evs[k] in evs;
    }
    var covered, g := SweepCoversFreeWindow(evs, date, DayStart(hours), a, b);
    var sweep := SweepDay(evs, date, DayStart(hours));
    if covered {
      s := g;
    } else {
      s := FreeSlot(date, sweep.cursor, DayEnd(hours));
      assert TrailingSlot(sweep.cursor, date, DayEnd(hours)) == [s];
    }
  }

  /** The slots of every day in `first` .. `upto - 1` are among the range's slots. */
  lemma {:induction false} SlotsForDaysIncludesDay(events: seq<CalendarEvent>, first: int, upto: int,
                                                   hours: WorkingHours, d: int)
    requires first <= d < upto
    ensures forall s :: s in DaySlots(events, d, hours) ==> s in SlotsForDays(events, first, upto, hours)
    decreases upto - first
  {
    if d < upto - 1 {
      SlotsForDaysIncludesDay(events, first, upto - 1, hours, d);
    }
  }

  /**
   * `calculateFreeSlots` misses no free hour: on every visited day, a window of
   * at least an hour inside working hours that no timed event of that day
   * overlaps lies inside a reported slot dated that day.
   */
  lemma FreeSlotsComplete(events: seq<CalendarEvent>, startDate: Instant, endDate: Instant, hours: WorkingHours,
                          d: int, a: int, b: int)
    returns (s: FreeSlot)
    requires startDate.day <= d <= LastDay(startDate, endDate)
    requires DayStart(hours) <= a && a + MinSlotMinutes <= b <= DayEnd(hours)
    requires forall e :: e in events && e.day == d && !e.isAllDay ==> e.end <= a || b <= e.start
    ensures s in FreeSlots(events, startDate, endDate, hours) && s.date == d && s.start <= a && b <= s.end
  {
    s := DaySlotsCoverFreeWindow(events, d, hours, a, b);
    DaySlotsBounds(events, d, hours);
    SlotsForDaysIncludesDay(events, startDate.day, LastDay(startDate, endDate) + 1, hours, d);
  }

  /** With well-formed events, the cursor ends past every gap of the sweep. */
  lemma {:induction false} SweepGapsBeforeCursor(evs: seq<CalendarEvent>, date: int, workStart: int)
    requires WellFormed(evs)
    ensures forall i :: 0 <= i < |SweepDay(evs, date, workStart).gaps| ==>
              SweepDay(evs, date, workStart).gaps[i].end <= SweepDay(evs, date, workStart).cursor
    decreases |evs|
  {
    if evs != [] {
      var n := |evs| - 1;
      var prefix := evs[..n];
      assert forall k :: 0 <= k < n ==> prefix[k] == evs[k];
      SweepGapsBeforeCursor(prefix, date, workStart);
      var prev := SweepDay(prefix, date, workStart);
      assert forall i :: 0 <= i < |prev.gaps| ==> prev.gaps[i].end <= prev.cursor;
      var e := evs[n];
      assert e.start <= e.end;
      var r := SweepDay(evs, date, workStart);
      assert r == Advance(prev, e, date);
      assert r.cursor >= prev.cursor;
      if LeavesGap(prev.cursor, e.start) {
        assert r.gaps == prev.gaps + [FreeSlot(date, prev.cursor, e.start)];
      } else {
        assert r.gaps == prev.gaps;
        assert forall i :: 0 <= i < |r.gaps| ==> r.gaps[i].end <= r.cursor;
      }
    }
  }

  /** With well-formed events, the gaps of the sweep are in increasing order and do not overlap. */
  lemma {:induction false} SweepGapsOrdered(evs: seq<CalendarEvent>, date: int, workStart: int)
    requires WellFormed(evs)
    ensures forall i, j :: 0 <= i < j < |SweepDay(evs, date, workStart).gaps| ==>
              SweepDay(evs, date, workStart).gaps[i].end <= SweepDay(evs, date, workStart).gaps[j].start
    decreases |evs|
  {
    if evs != [] {
      var n := |evs| - 1;
      var prefix := evs[..n];
      assert forall k :: 0 <= k < n ==> prefix[k] == evs[k];
      SweepGapsOrdered(prefix, date, workStart);
      SweepGapsBeforeCursor(prefix, date, workStart);
      var prev := SweepDay(prefix, date, workStart);
      var e := evs[n];
      var r := SweepDay(evs, date, workStart);
      assert r == Advance(prev, e, date);
      if LeavesGap(prev.cursor, e.start) {
        assert r.gaps == prev.gaps + [FreeSlot(date, prev.cursor, e.start)];
      } else {
        assert r.gaps == prev.gaps;
      }
    }
  }

  /** With events sorted by start, no gap of the sweep overlaps any of the events. */
  lemma {:induction false} SweepGapsAvoidEvents(evs: seq<CalendarEvent>, date: int, workStart: int)
    requires SortedByStart(evs)
    ensures forall i, k :: 0 <= i < |SweepDay(evs, date, workStart).gaps| && 0 <= k < |evs| ==>
              evs[k].end <= SweepDay(evs, date, workStart).gaps[i].start ||
              SweepDay(evs, date, workStart).gaps[i].end <= evs[k].start
    decreases |evs|
  {
    if evs != [] {
      var n := |evs| - 1;
      var prefix := evs[..n];
      assert forall k :: 0 <= k < n ==> prefix[k] == evs[k];
      SweepGapsAvoidEvents(prefix, date, workStart);
      SweepGapEndsAtEvent(prefix, date, workStart);
      SweepCursorBounds(prefix, date, workStart);
      var prev := SweepDay(prefix, date, workStart);
      var e := evs[n];
      var r := SweepDay(evs, date, workStart);
      assert r == Advance(prev, e, date);
      // Every earlier gap ends at an earlier event's start, so no later than `e` starts.
      forall i | 0 <= i < |prev.gaps| ensures prev.gaps[i].end <= e.start {
        var k :| 0 <= k < |prefix| && prefix[k].start == prev.gaps[i].end;
        assert evs[k] == prefix[k];
      }
      forall i, k | 0 <= i < |r.gaps| && 0 <= k < |evs|
        ensures evs[k].end <= r.gaps[i].start || r.gaps[i].end <= evs[k].start
      {
        if i < |prev.gaps| {
          assert r.gaps[i] == prev.gaps[i];
          if k < n {
            assert prefix[k] == evs[k];
          }
        } else {
          assert r.gaps[i] == FreeSlot(date, prev.cursor, e.start);
          if k < n {
            assert evs[k].end <= prev.cursor;
          } else {
            assert evs[k] == e;
          }
        }
      }
    }
  }

  /** A day without timed events has the whole of working hours free, if that is at least an hour. */
  lemma EmptyDay(events: seq<CalendarEvent>, date: int, hours: WorkingHours)
    requires forall e :: e in events ==> e.day != date || e.isAllDay
    ensures DaySlots(events, date, hours) ==
            if DayEnd(hours) - DayStart(hours) >= MinSlotMinutes
            then [FreeSlot(date, DayStart(hours), DayEnd(hours))]
            else []
  {
    DayEventsMembers(events, date);
  }

  /** With the default hours, an event-free day is reported as one slot from 09:00 to 21:00. */
  lemma EmptyDayDefaultHours(events: seq<CalendarEvent>, date: int)
    requires forall e :: e in events ==> e.day != date || e.isAllDay
    ensures DaySlots(events, date, DefaultHours) == [FreeSlot(date, 9 * 60, 21 * 60)]
  {
    EmptyDay(events, date, DefaultHours);
  }

  /** An all-day event, or one starting on another day, changes nothing about a day's slots. */
  lemma IgnoredEvent(events: seq<CalendarEvent>, i: nat, e: CalendarEvent, date: int, hours: WorkingHours)
    requires i <= |events|
    requires e.isAllDay || e.day != date
    ensures DaySlots(events[..i] + [e] + events[i..], date, hours) == DaySlots(events, date, hours)
  {
    var withE := events[..i] + [e] + events[i..];
    TimedEventsOnAppend(events[..i] + [e], events[i..], date);
    TimedEventsOnAppend(events[..i], [e], date);
    TimedEventsOnAppend(events[..i], events[i..], date);
    assert TimedEventsOn([e], date) == [];
    assert events[..i] + events[i..] == events;
    assert TimedEventsOn(withE, date) == TimedEventsOn(events, date);
    assert DayEvents(withE, date) == DayEvents(events, date);
  }

  /** The slots of a list dated `d`, in order. */
  function SlotsOn(slots: seq<FreeSlot>, d: int): (r: seq<FreeSlot>)
    ensures |r| <= |slots|
  {
    if slots == [] then []
    else if slots[0].date == d then [slots[0]] + SlotsOn(slots[1..], d)
    else SlotsOn(slots[1..], d)
  }

  lemma {:induction false} SlotsOnAppend(a: seq<FreeSlot>, b: seq<FreeSlot>, d: int)
    ensures SlotsOn(a + b, d) == SlotsOn(a, d) + SlotsOn(b, d)
  {
    if a == [] {
      assert a + b == b;
    } else {
      assert (a + b)[1..] == a[1..] + b;
      SlotsOnAppend(a[1..], b, d);
    }
  }

  lemma {:induction false} SlotsOnAll(slots: seq<FreeSlot>, d: int)
    requires forall s :: s in slots ==> s.date == d
    ensures SlotsOn(slots, d) == slots
  {
    if slots != [] {
      assert slots[0] in slots;
      SlotsOnAll(slots[1..], d);
    }
  }

  lemma {:induction false} SlotsOnNone(slots: seq<FreeSlot>, d: int)
    requires forall s :: s in slots ==> s.date != d
    ensures SlotsOn(slots, d) == []
  {
    if slots != [] {
      assert slots[0] in slots;
      SlotsOnNone(slots[1..], d);
    }
  }

  /**
   * Each day of the range is processed exactly once: the slots dated `d`
   * are exactly that day's slots when `d` is in the range and there are none
   * otherwise.
   */
  lemma {:induction false} EachDayOnce(events: seq<CalendarEvent>, first: int, upto: int, hours: WorkingHours,
                                       d: int)
    ensures SlotsOn(SlotsForDays(events, first, upto, hours), d) ==
            if first <= d < upto then DaySlots(events, d, hours) else []
    decreases upto - first
  {
    if upto > first {
      var prev := SlotsForDays(events, first, upto - 1, hours);
      var day := DaySlots(events, upto - 1, hours);
      EachDayOnce(events, first, upto - 1, hours, d);
      SlotsOnAppend(prev, day, d);
      DaySlotsBounds(events, upto - 1, hours);
      if d == upto - 1 {
        SlotsOnAll(day, d);
      } else {
        SlotsOnNone(day, d);
      }
    }
  }

  /** Every slot of days `first` .. `upto - 1` is dated inside that range. */
  lemma SlotDatesInRange(events: seq<CalendarEvent>, first: int, upto: int, hours: WorkingHours)
    ensures forall s :: s in SlotsForDays(events, first, upto, hours) ==> first <= s.date < upto
  {
    forall s | s in SlotsForDays(events, first, upto, hours) ensures first <= s.date < upto {
      var d := DayOfSlot(events, first, upto, hours, s);
      DaySlotsBounds(events, d, hours);
    }
  }

  /** The output is grouped by day, in date order. */
  lemma {:induction false} DaysInOrder(events: seq<CalendarEvent>, first: int, upto: int, hours: WorkingHours)
    ensures forall i, j :: 0 <= i < j < |SlotsForDays(events, first, upto, hours)| ==>
              SlotsForDays(events, first, upto, hours)[i].date <= SlotsForDays(events, first, upto, hours)[j].date
    decreases upto - first
  {
    if upto > first {
      var prev := SlotsForDays(events, first, upto - 1, hours);
      var day := DaySlots(events, upto - 1, hours);
      DaysInOrder(events, first, upto - 1, hours);
      SlotDatesInRange(events, first, upto - 1, hours);
      DaySlotsBounds(events, upto - 1, hours);
      var r := prev + day;
      assert r == SlotsForDays(events, first, upto, hours);
      forall i, j | 0 <= i < j < |r| ensures r[i].date <= r[j].date {
        if j < |prev| {
          assert r[i] == prev[i] && r[j] == prev[j];
        } else if i >= |prev| {
          assert r[i] == day[i - |prev|] && r[j] == day[j - |prev|];
          assert r[i] in day && r[j] in day;
        } else {
          assert r[i] == prev[i] && r[i] in prev;
          assert r[j] == day[j - |prev|] && r[j] in day;
        }
      }
    }
  }

  /** `calculateFreeSlots` reports, for each day of the range, exactly that day's slots, in date order. */
  lemma FreeSlotsPerDay(events: seq<CalendarEvent>, startDate: Instant, endDate: Instant, hours: WorkingHours,
                        d: int)
    ensures SlotsOn(FreeSlots(events, startDate, endDate, hours), d) ==
            if startDate.day <= d <= LastDay(startDate, endDate) then DaySlots(events, d, hours) else []
    ensures forall i, j :: 0 <= i < j < |FreeSlots(events, startDate, endDate, hours)| ==>
              FreeSlots(events, startDate, endDate, hours)[i].date <= FreeSlots(events, startDate, endDate, hours)[j].date
  {
    EachDayOnce(events, startDate.day, LastDay(startDate, endDate) + 1, hours, d);
    DaysInOrder(events, startDate.day, LastDay(startDate, endDate) + 1, hours);
  }

  /**
   * A gap that ends at an event starting after working hours end is not
   * clipped: one event from 22:00 to 23:00 yields the slot 09:00-22:00.
   */
  lemma GapPastWorkEndNotClipped()
    ensures DaySlots([CalendarEvent(0, 22 * 60, 23 * 60, false)], 0, DefaultHours) == [FreeSlot(0, 9 * 60, 22 * 60)]
    ensures 22 * 60 > DayEnd(DefaultHours)
  {
    var events := [CalendarEvent(0, 22 * 60, 23 * 60, false)];
    assert TimedEventsOn(events, 0) == events;
    assert SortByStart(events) == events;
    assert DayEvents(events, 0) == events;
    assert events[..0] == [];
  }
}
