/** The calendar of src/components/Calendar.tsx: the start times its grid
    offers, its own end-time arithmetic (no reduction modulo 24), the
    multi-engineer availability test behind every cell, and the interview a
    click on a cell proposes. */
module Calendar {
  import opened Types
  import opened Clock
  import Availability

  /** The interview lengths the calendar is given. */
  type Duration = d: nat | d == 15 || d == 30 || d == 60 witness 30

  /** What the calendar receives from the application. The `onSlotSelect`
      callback is modelled by HandleClick returning the slot it would be passed. */
  datatype CalendarProps = CalendarProps(
    engineers: seq<Engineer>,
    selectedCandidate: Option<Candidate>,
    scheduledInterviews: seq<InterviewSlot>,
    duration: Duration)

  // ---------------------------------------------------------------------------
  // The grid of start times: 09:00 up to, not including, 18:00.

  /** Nine working hours, `60 / duration` start times in each. */
  function GridLength(duration: Duration): nat {
    9 * (60 / duration)
  }

  /** The k-th start time of the grid: `k * duration` minutes after 09:00. */
  function GridEntry(duration: Duration, k: nat): string {
    ClockAt(9 * 60 + k * duration)
  }

  /** A count of minutes since midnight as hours and minutes, hours not reduced. */
  function ClockAt(total: nat): string {
    Format(total / 60, total % 60)
  }

  function Grid(duration: Duration): seq<string> {
    seq(GridLength(duration), k requires 0 <= k => GridEntry(duration, k))
  }

  /** Dividing hours * 60 + minutes by 60, for minutes below 60. */
  lemma SplitMinutes(total: nat, hours: nat, minutes: nat)
    requires total == hours * 60 + minutes && minutes < 60
    ensures total / 60 == hours && total % 60 == minutes
  {
  }

  /** How far into the grid hour `hour`, interval `i` lies, in minutes. */
  lemma GridOffsetAt(duration: Duration, hour: nat, i: nat)
    requires 9 <= hour < 18 && i < 60 / duration
    ensures 0 <= (hour - 9) * (60 / duration)
    ensures ((hour - 9) * (60 / duration) + i) * duration == (hour - 9) * 60 + i * duration
    ensures 0 <= i * duration < 60
  {
    var h := hour - 9;
    if duration == 15 {
      assert (h * 4 + i) * 15 == h * 60 + i * 15;
    } else if duration == 30 {
      assert (h * 2 + i) * 30 == h * 60 + i * 30;
    } else {
      assert (h * 1 + i) * 60 == h * 60 + i * 60;
    }
  }

  /** The position of hour `hour`, interval `i` in the grid is written as the
      source writes that pair. */
  lemma GridEntryAt(duration: Duration, hour: nat, i: nat, k: nat)
    requires 9 <= hour < 18 && i < 60 / duration
    requires k == (hour - 9) * (60 / duration) + i
    ensures 0 <= i * duration < 60
    ensures GridEntry(duration, k) == Format(hour, i * duration)
  {
    GridOffsetAt(duration, hour, i);
    SplitMinutes(9 * 60 + k * duration, hour, i * duration);
  }

  /** generateTimeSlots: two nested loops push one string per hour and interval. */
  method GenerateTimeSlots(duration: Duration) returns (slots: seq<string>)
    ensures slots == Grid(duration)
  {
    slots := [];
    var startHour, endHour := 9, 18;
    for hour := startHour to endHour
      invariant |slots| == (hour - startHour) * (60 / duration)
      invariant forall k :: 0 <= k < |slots| ==> slots[k] == GridEntry(duration, k)
    {
      var intervals := 60 / duration;
      for i := 0 to intervals
        invariant |slots| == (hour - startHour) * intervals + i
        invariant forall k :: 0 <= k < |slots| ==> slots[k] == GridEntry(duration, k)
      {
        var minutes := i * duration;
        GridEntryAt(duration, hour, i, |slots|);
        slots := slots + [Format(hour, minutes)];
      }
      NextRow(hour - startHour, intervals);
    }
  }

  lemma NextRow(row: nat, width: nat)
    ensures (row + 1) * width == row * width + width
  {
  }

  /** The k-th grid entry lies before 18:00 by at least one duration, at a
      minute of the hour that is a multiple of the duration. */
  lemma GridOffset(duration: Duration, k: nat)
    requires k < GridLength(duration)
    ensures 0 <= k * duration <= 9 * 60 - duration
    ensures (9 * 60 + k * duration) % 60 % duration == 0
  {
    if duration == 15 {
      assert k * duration == 15 * k && k < 36;
      var q, r := k / 4, k % 4;
      SplitMinutes(540 + 15 * k, 9 + q, 15 * r);
    } else if duration == 30 {
      assert k * duration == 30 * k && k < 18;
      var q, r := k / 2, k % 2;
      SplitMinutes(540 + 30 * k, 9 + q, 30 * r);
    } else {
      assert k * duration == 60 * k && k < 9;
      SplitMinutes(540 + 60 * k, 9 + k, 0);
    }
  }

  /** Each grid entry is a time of day, hour 09-17, `k * duration` minutes
      after 09:00. */
  lemma GridEntryShape(duration: Duration, k: nat)
    requires k < GridLength(duration)
    ensures IsTimeOfDay(GridEntry(duration, k))
    ensures ToMinutes(GridEntry(duration, k)) == 9 * 60 + k * duration
    ensures 9 <= Hours(GridEntry(duration, k)) <= 17
  {
    GridOffset(duration, k);
    var total := 9 * 60 + k * duration;
    ClockAtShape(total);
    assert 9 * 60 <= total < 18 * 60;
  }

  /** The minutes of every grid entry are a multiple of the duration. */
  lemma GridEntryMinutes(duration: Duration, k: nat)
    requires k < GridLength(duration)
    ensures IsClock(GridEntry(duration, k))
    ensures Mins(GridEntry(duration, k)) % duration == 0
  {
    GridOffset(duration, k);
    var total := 9 * 60 + k * duration;
    ClockAtShape(total);
  }

  /** A minute count within a day written as a clock string. */
  lemma ClockAtShape(total: nat)
    requires total < 24 * 60
    ensures IsTimeOfDay(ClockAt(total))
    ensures ToMinutes(ClockAt(total)) == total
    ensures Hours(ClockAt(total)) == total / 60
    ensures Mins(ClockAt(total)) == total % 60
  {
    FormatIsClock(total / 60, total % 60);
  }

  /** Every entry of the grid is a well-formed time of day. */
  lemma GridWellFormed(duration: Duration, k: nat)
    requires k < |Grid(duration)|
    ensures Grid(duration)[k] == GridEntry(duration, k)
    ensures IsTimeOfDay(Grid(duration)[k])
    ensures 9 <= Hours(Grid(duration)[k]) <= 17 && Mins(Grid(duration)[k]) % duration == 0
  {
    GridEntryShape(duration, k);
    GridEntryMinutes(duration, k);
  }

  /** generateTimeSlots returns 9 * (60 / duration) entries: 36, 18 or 9. */
  lemma GridSize(duration: Duration)
    ensures |Grid(duration)| == 9 * (60 / duration)
    ensures |Grid(duration)| == if duration == 15 then 36 else if duration == 30 then 18 else 9
  {
  }

  /** The grid starts at 09:00. */
  lemma GridFirst(duration: Duration)
    ensures Grid(duration)[0] == "09:00"
  {
    assert Grid(duration)[0] == Format(9, 0);
    FormatChars(9, 0);
  }

  /** The last start time of the grid is one duration before 18:00. */
  lemma GridLast(duration: Duration)
    ensures IsClock(Grid(duration)[|Grid(duration)| - 1])
    ensures ToMinutes(Grid(duration)[|Grid(duration)| - 1]) == 18 * 60 - duration
  {
    var last := GridLength(duration) - 1;
    GridEntryShape(duration, last);
    LastOffset(duration);
  }

  lemma LastOffset(duration: Duration)
    ensures (GridLength(duration) - 1) * duration == 9 * 60 - duration
  {
    if duration == 15 {
      assert GridLength(duration) == 36;
    } else if duration == 30 {
      assert GridLength(duration) == 18;
    } else {
      assert GridLength(duration) == 9;
    }
  }

  /** Consecutive grid entries are `duration` minutes apart. */
  lemma GridStep(duration: Duration, k: nat)
    requires k + 1 < |Grid(duration)|
    ensures IsClock(Grid(duration)[k]) && IsClock(Grid(duration)[k + 1])
    ensures ToMinutes(Grid(duration)[k + 1]) == ToMinutes(Grid(duration)[k]) + duration
  {
    GridEntryShape(duration, k);
    GridEntryShape(duration, k + 1);
    NextRow(k, duration);
  }

  /** The grid is strictly increasing in string order. */
  lemma GridIncreasing(duration: Duration, i: nat, j: nat)
    requires i < j < |Grid(duration)|
    ensures Less(Grid(duration)[i], Grid(duration)[j])
  {
    GridEntryShape(duration, i);
    GridEntryShape(duration, j);
    ScaleLess(i, j, duration);
    LessIsNumeric(Grid(duration)[i], Grid(duration)[j]);
  }

  lemma ScaleLess(i: nat, j: nat, duration: Duration)
    requires i < j
    ensures i * duration < j * duration
  {
    if duration == 15 {
      assert i * duration == i * 15 && j * duration == j * 15;
    } else if duration == 30 {
      assert i * duration == i * 30 && j * duration == j * 30;
    } else {
      assert i * duration == i * 60 && j * duration == j * 60;
    }
  }

  // ---------------------------------------------------------------------------
  // The calendar's own end time: hours are not reduced modulo 24.
  // (src/App.tsx:77-83 holds the same function, with the duration as a parameter.)

  function CalendarEndTime(startTime: string, duration: nat): string
    requires IsClock(startTime)
  {
    var totalMinutes := Hours(startTime) * 60 + Mins(startTime) + duration;
    var endHours := totalMinutes / 60;
    var endMinutes := totalMinutes % 60;
    Format(endHours, endMinutes)
  }

  /** The calendar's end time is plain addition: while the hour stays below 100
      (where the fixed width ends) it reads back as start plus duration, past
      23:59 included. */
  lemma CalendarEndTimeAdds(startTime: string, duration: nat)
    requires IsClock(startTime) && ToMinutes(startTime) + duration < 100 * 60
    ensures IsClock(CalendarEndTime(startTime, duration))
    ensures ToMinutes(CalendarEndTime(startTime, duration)) == ToMinutes(startTime) + duration
  {
    var total := ToMinutes(startTime) + duration;
    FormatIsClock(total / 60, total % 60);
  }

  /** Before midnight the two end-time functions agree. */
  lemma EndTimesAgreeBeforeMidnight(startTime: string, duration: nat)
    requires IsClock(startTime) && ToMinutes(startTime) + duration < 1440
    ensures CalendarEndTime(startTime, duration) == Availability.CalculateEndTime(startTime, duration)
  {
    var total := Hours(startTime) * 60 + Mins(startTime) + duration;
    assert (total / 60) % 24 == total / 60;
  }

  /** Past midnight they differ: 23:45 plus 30 minutes is "24:15" here and "00:15"
      in the utility. */
  lemma EndTimesDifferPastMidnight()
    ensures CalendarEndTime("23:45", 30) == "24:15"
    ensures Availability.CalculateEndTime("23:45", 30) == "00:15"
  {
    CalendarEndTimeAdds("23:45", 30);
    ClockInjective(CalendarEndTime("23:45", 30), "24:15");
    Availability.EndTimeIs("23:45", 30, "00:15");
  }

  /** On the grid the end time never passes 18:00, so the reduction modulo 24
      makes no difference there. */
  lemma GridEndTime(duration: Duration, k: nat)
    requires k < |Grid(duration)|
    ensures IsTimeOfDay(Grid(duration)[k])
    ensures IsClock(CalendarEndTime(Grid(duration)[k], duration))
    ensures !Less("18:00", CalendarEndTime(Grid(duration)[k], duration))
    ensures CalendarEndTime(Grid(duration)[k], duration) == Availability.CalculateEndTime(Grid(duration)[k], duration)
  {
    var t := Grid(duration)[k];
    GridEntryShape(duration, k);
    GridOffset(duration, k);
    CalendarEndTimeAdds(t, duration);
    EndTimesAgreeBeforeMidnight(t, duration);
    FormatOfFields("18:00");
    LessIsNumeric("18:00", CalendarEndTime(t, duration));
  }

  // ---------------------------------------------------------------------------
  // The availability test behind each cell, and the click on a cell.

  /** `engineers.filter(...)`: the engineers with a window containing the slot. */
  function AvailableEngineers(engineers: seq<Engineer>, day: string, time: string, endTime: string): (available: seq<Engineer>)
    ensures forall e :: e in available <==> e in engineers && Availability.EngineerIsAvailable(e, day, time, endTime)
  {
    if engineers == [] then []
    else
      (if Availability.EngineerIsAvailable(engineers[0], day, time, endTime) then [engineers[0]] else []) +
      AvailableEngineers(engineers[1..], day, time, endTime)
  }

  /** isSlotAvailable: a candidate is selected, no booking locks the slot, the
      candidate's preferred window contains it and at least one engineer has a
      window containing it. */
  predicate IsSlotAvailable(props: CalendarProps, day: string, time: string)
    requires IsClock(time)
  {
    match props.selectedCandidate
    case None => false
    case Some(candidate) =>
      var endTime := CalendarEndTime(time, props.duration);
      if Availability.IsSlotLocked(props.scheduledInterviews, day, time, endTime) then false
      else
        var availableEngineers := AvailableEngineers(props.engineers, day, time, endTime);
        Availability.Covers(candidate.preferredTime, day, time, endTime) && |availableEngineers| > 0
  }

  /** Engineer `i` is the first of the list whose window contains the slot. */
  predicate FirstAvailableAt(engineers: seq<Engineer>, i: int, day: string, time: string, endTime: string) {
    0 <= i < |engineers| &&
    Availability.EngineerIsAvailable(engineers[i], day, time, endTime) &&
    forall j :: 0 <= j < i ==> !Availability.EngineerIsAvailable(engineers[j], day, time, endTime)
  }

  /** `engineers.find(...)`: the first engineer, in list order, with a window
      containing the slot. */
  function FindEngineer(engineers: seq<Engineer>, day: string, time: string, endTime: string): (found: Option<Engineer>)
    ensures found.None? <==> forall e :: e in engineers ==> !Availability.EngineerIsAvailable(e, day, time, endTime)
    ensures found.Some? ==>
              exists i :: FirstAvailableAt(engineers, i, day, time, endTime) && engineers[i] == found.value
  {
    if engineers == [] then None
    else if Availability.EngineerIsAvailable(engineers[0], day, time, endTime) then
      assert FirstAvailableAt(engineers, 0, day, time, endTime);
      Some(engineers[0])
    else
      var rest := FindEngineer(engineers[1..], day, time, endTime);
      assert rest.Some? ==>
               exists i :: FirstAvailableAt(engineers, i, day, time, endTime) && engineers[i] == rest.value by {
        if rest.Some? {
          var i :| FirstAvailableAt(engineers[1..], i, day, time, endTime) && engineers[1..][i] == rest.value;
          assert engineers[i + 1] == rest.value;
          forall j | 0 <= j < i + 1 ensures !Availability.EngineerIsAvailable(engineers[j], day, time, endTime) {
            if j > 0 { assert engineers[j] == engineers[1..][j - 1]; }
          }
          assert FirstAvailableAt(engineers, i + 1, day, time, endTime);
        }
      }
      rest
  }

  /** The button's onClick: the interview proposed to `onSlotSelect`, or None when
      no engineer has a window containing the slot. The proposal has the first
      such engineer in list order, the selected candidate, and the slot from the
      cell's time to the calendar's end time. */
  function HandleClick(props: CalendarProps, day: string, time: string): (selected: Option<InterviewSlot>)
    requires props.selectedCandidate.Some? && IsClock(time)
    ensures var endTime := CalendarEndTime(time, props.duration);
            selected.None? <==>
              forall e :: e in props.engineers ==> !Availability.EngineerIsAvailable(e, day, time, endTime)
    ensures var endTime := CalendarEndTime(time, props.duration);
            selected.Some? ==>
              selected.value.candidate == props.selectedCandidate.value &&
              selected.value.timeSlot == TimeSlot(day, time, endTime) &&
              exists i :: FirstAvailableAt(props.engineers, i, day, time, endTime) &&
                          props.engineers[i] == selected.value.engineer
  {
    var engineer := FindEngineer(props.engineers, day, time, CalendarEndTime(time, props.duration));
    match engineer
    case None => None
    case Some(e) =>
      Some(InterviewSlot(e, props.selectedCandidate.value, TimeSlot(day, time, CalendarEndTime(time, props.duration))))
  }

  /** With no candidate selected every cell is unavailable. */
  lemma NoCandidateNothingAvailable(props: CalendarProps, day: string, time: string)
    requires IsClock(time) && props.selectedCandidate.None?
    ensures !IsSlotAvailable(props, day, time)
  {
  }

  /** With no engineers every cell is unavailable. */
  lemma NoEngineersNothingAvailable(props: CalendarProps, day: string, time: string)
    requires IsClock(time) && props.engineers == []
    ensures !IsSlotAvailable(props, day, time)
  {
    var endTime := CalendarEndTime(time, props.duration);
    assert |AvailableEngineers([], day, time, endTime)| == 0;
  }

  /** A cell is available exactly when a candidate is selected, the slot is not
      locked, the preferred window contains it and some engineer's window does. */
  lemma CellAvailability(props: CalendarProps, day: string, time: string)
    requires IsClock(time)
    ensures var endTime := CalendarEndTime(time, props.duration);
            IsSlotAvailable(props, day, time) <==>
              props.selectedCandidate.Some? &&
              !Availability.IsSlotLocked(props.scheduledInterviews, day, time, endTime) &&
              Availability.Covers(props.selectedCandidate.value.preferredTime, day, time, endTime) &&
              exists e :: e in props.engineers && Availability.EngineerIsAvailable(e, day, time, endTime)
  {
    var endTime := CalendarEndTime(time, props.duration);
    var available := AvailableEngineers(props.engineers, day, time, endTime);
    if |available| > 0 {
      assert available[0] in available;
    }
  }

  /** On the grid a cell is available exactly when a candidate is selected and
      the single-engineer predicate holds for at least one engineer. */
  lemma GridCellMatchesSingleEngineer(props: CalendarProps, day: string, k: nat)
    requires k < |Grid(props.duration)|
    ensures var time := Grid(props.duration)[k];
            IsClock(time) &&
            (IsSlotAvailable(props, day, time) <==>
              props.selectedCandidate.Some? &&
              exists e :: e in props.engineers &&
                Availability.IsTimeSlotAvailable(day, time, props.duration, e, props.selectedCandidate.value,
                                                 props.scheduledInterviews))
  {
    var time := Grid(props.duration)[k];
    GridEndTime(props.duration, k);
    var endTime := CalendarEndTime(time, props.duration);
    CellAvailability(props, day, time);
    if props.selectedCandidate.Some? {
      var candidate := props.selectedCandidate.value;
      var locked := Availability.IsSlotLocked(props.scheduledInterviews, day, time, endTime);
      var covers := Availability.Covers(candidate.preferredTime, day, time, endTime);
      forall e | e in props.engineers
        ensures Availability.IsTimeSlotAvailable(day, time, props.duration, e, candidate, props.scheduledInterviews) ==
                (!locked && covers && Availability.EngineerIsAvailable(e, day, time, endTime))
      {
        Availability.AvailableWithEnd(day, time, props.duration, e, candidate, props.scheduledInterviews, endTime);
      }
    }
  }

  /** Clicking an available cell proposes an interview with the first engineer,
      in list order, whose window contains the slot, for the selected candidate,
      on that day, from the cell's time to the calendar's end time. */
  lemma ClickOnAvailableCell(props: CalendarProps, day: string, time: string)
    requires IsClock(time) && IsSlotAvailable(props, day, time)
    ensures props.selectedCandidate.Some?
    ensures var endTime := CalendarEndTime(time, props.duration);
            var selected := HandleClick(props, day, time);
            selected.Some? &&
            selected.value.candidate == props.selectedCandidate.value &&
            selected.value.timeSlot == TimeSlot(day, time, endTime) &&
            exists i :: FirstAvailableAt(props.engineers, i, day, time, endTime) &&
                        props.engineers[i] == selected.value.engineer
  {
    CellAvailability(props, day, time);
  }
}
