/** The end-time arithmetic and the single-engineer availability predicate
    (src/utils/availability.ts). Times stay the strings the application uses and
    are compared as strings, as the source does; the minute-based predicates
    after IsTimeSlotAvailable are the reference reading of the same rules. */
module Availability {
  import opened Types
  import opened Clock

  /** calculateEndTime: the clock time `durationMinutes` after `startTime`,
      with the hour reduced modulo 24. */
  function CalculateEndTime(startTime: string, durationMinutes: nat): (endTime: string)
    requires IsClock(startTime)
    ensures IsTimeOfDay(endTime)
    ensures ToMinutes(endTime) == (ToMinutes(startTime) + durationMinutes) % 1440
  {
    var totalMinutes := Hours(startTime) * 60 + Mins(startTime) + durationMinutes;
    var endHours := (totalMinutes / 60) % 24;
    var endMinutes := totalMinutes % 60;
    FormatIsClock(endHours, endMinutes);
    WrapToDay(totalMinutes);
    Format(endHours, endMinutes)
  }

  /** Reducing the hour modulo 24 reduces the total modulo one day. */
  lemma WrapToDay(total: nat)
    ensures ((total / 60) % 24) * 60 + total % 60 == total % 1440
  {
    var q, r := total / 60, total % 60;
    assert total == 60 * q + r;
    assert q == 24 * (q / 24) + q % 24;
    assert total == 1440 * (q / 24) + (60 * (q % 24) + r);
  }

  /** The lock test on one booked interview: same day, and the new start lies in
      [start, end) of the booking or the new end lies in (start, end]. */
  predicate Locks(interview: InterviewSlot, day: string, startTime: string, endTime: string) {
    var booked := interview.timeSlot;
    booked.day == day &&
    ((!Less(startTime, booked.startTime) && Less(startTime, booked.endTime)) ||
     (Less(booked.startTime, endTime) && !Less(booked.endTime, endTime)))
  }

  /** `scheduledInterviews.some(...)` over the lock test. */
  predicate IsSlotLocked(scheduled: seq<InterviewSlot>, day: string, startTime: string, endTime: string) {
    exists interview :: interview in scheduled && Locks(interview, day, startTime, endTime)
  }

  /** A window on `day` that contains [startTime, endTime], both ends inclusive. */
  predicate Covers(window: TimeSlot, day: string, startTime: string, endTime: string) {
    window.day == day && !Less(startTime, window.startTime) && !Less(window.endTime, endTime)
  }

  /** `engineer.availability.some(...)` over the containment test. */
  predicate EngineerIsAvailable(engineer: Engineer, day: string, startTime: string, endTime: string) {
    exists window :: window in engineer.availability && Covers(window, day, startTime, endTime)
  }

  /** isTimeSlotAvailable: the slot is not locked by a booking, some window of the
      engineer contains it, and the candidate's preferred window contains it. */
  predicate IsTimeSlotAvailable(day: string, startTime: string, duration: nat, engineer: Engineer,
                                candidate: Candidate, scheduled: seq<InterviewSlot>)
    requires IsClock(startTime)
  {
    var endTime := CalculateEndTime(startTime, duration);
    if IsSlotLocked(scheduled, day, startTime, endTime) then false
    else EngineerIsAvailable(engineer, day, startTime, endTime) &&
         Covers(candidate.preferredTime, day, startTime, endTime)
  }

  /** isTimeSlotAvailable once its end time has been computed. */
  lemma AvailableWithEnd(day: string, startTime: string, duration: nat, engineer: Engineer,
                         candidate: Candidate, scheduled: seq<InterviewSlot>, endTime: string)
    requires IsClock(startTime) && endTime == CalculateEndTime(startTime, duration)
    ensures IsTimeSlotAvailable(day, startTime, duration, engineer, candidate, scheduled) ==
            (!IsSlotLocked(scheduled, day, startTime, endTime) &&
             Covers(candidate.preferredTime, day, startTime, endTime) &&
             EngineerIsAvailable(engineer, day, startTime, endTime))
  {
  }

  // ---------------------------------------------------------------------------
  // The same rules on minutes since midnight.

  predicate IsClockSlot(slot: TimeSlot) {
    IsClock(slot.startTime) && IsClock(slot.endTime)
  }

  predicate IsClockEngineer(engineer: Engineer) {
    forall window :: window in engineer.availability ==> IsClockSlot(window)
  }

  predicate IsClockSchedule(scheduled: seq<InterviewSlot>) {
    forall interview :: interview in scheduled ==> IsClockSlot(interview.timeSlot)
  }

  /** The asymmetric lock rule on minutes: s <= start < e, or s < end <= e. */
  predicate LocksByMinutes(booked: TimeSlot, day: string, start: int, end: int)
    requires IsClockSlot(booked)
  {
    booked.day == day &&
    ((ToMinutes(booked.startTime) <= start < ToMinutes(booked.endTime)) ||
     (ToMinutes(booked.startTime) < end <= ToMinutes(booked.endTime)))
  }

  /** Inclusive containment on minutes. */
  predicate CoversByMinutes(window: TimeSlot, day: string, start: int, end: int)
    requires IsClockSlot(window)
  {
    window.day == day && ToMinutes(window.startTime) <= start && end <= ToMinutes(window.endTime)
  }

  /** Availability on minutes, the end taken modulo one day. */
  predicate AvailableByMinutes(day: string, startTime: string, duration: nat, engineer: Engineer,
                               candidate: Candidate, scheduled: seq<InterviewSlot>)
    requires IsClock(startTime) && IsClockEngineer(engineer)
    requires IsClockSlot(candidate.preferredTime) && IsClockSchedule(scheduled)
  {
    var start := ToMinutes(startTime);
    var end := (start + duration) % 1440;
    (forall interview :: interview in scheduled ==> !LocksByMinutes(interview.timeSlot, day, start, end)) &&
    (exists window :: window in engineer.availability && CoversByMinutes(window, day, start, end)) &&
    CoversByMinutes(candidate.preferredTime, day, start, end)
  }

  lemma LocksMatchMinutes(interview: InterviewSlot, day: string, startTime: string, endTime: string)
    requires IsClockSlot(interview.timeSlot) && IsClock(startTime) && IsClock(endTime)
    ensures Locks(interview, day, startTime, endTime) <==>
            LocksByMinutes(interview.timeSlot, day, ToMinutes(startTime), ToMinutes(endTime))
  {
    var booked := interview.timeSlot;
    LessIsNumeric(startTime, booked.startTime);
    LessIsNumeric(startTime, booked.endTime);
    LessIsNumeric(booked.startTime, endTime);
    LessIsNumeric(booked.endTime, endTime);
  }

  lemma CoversMatchMinutes(window: TimeSlot, day: string, startTime: string, endTime: string)
    requires IsClockSlot(window) && IsClock(startTime) && IsClock(endTime)
    ensures Covers(window, day, startTime, endTime) <==>
            CoversByMinutes(window, day, ToMinutes(startTime), ToMinutes(endTime))
  {
    LessIsNumeric(startTime, window.startTime);
    LessIsNumeric(window.endTime, endTime);
  }

  lemma LockedMatchesMinutes(scheduled: seq<InterviewSlot>, day: string, startTime: string, endTime: string)
    requires IsClockSchedule(scheduled) && IsClock(startTime) && IsClock(endTime)
    ensures IsSlotLocked(scheduled, day, startTime, endTime) <==>
            exists interview :: interview in scheduled &&
              LocksByMinutes(interview.timeSlot, day, ToMinutes(startTime), ToMinutes(endTime))
  {
    forall interview | interview in scheduled
      ensures Locks(interview, day, startTime, endTime) <==>
              LocksByMinutes(interview.timeSlot, day, ToMinutes(startTime), ToMinutes(endTime))
    {
      LocksMatchMinutes(interview, day, startTime, endTime);
    }
  }

  lemma EngineerMatchesMinutes(engineer: Engineer, day: string, startTime: string, endTime: string)
    requires IsClockEngineer(engineer) && IsClock(startTime) && IsClock(endTime)
    ensures EngineerIsAvailable(engineer, day, startTime, endTime) <==>
            exists window :: window in engineer.availability &&
              CoversByMinutes(window, day, ToMinutes(startTime), ToMinutes(endTime))
  {
    forall window | window in engineer.availability
      ensures Covers(window, day, startTime, endTime) <==>
              CoversByMinutes(window, day, ToMinutes(startTime), ToMinutes(endTime))
    {
      CoversMatchMinutes(window, day, startTime, endTime);
    }
  }

  /** On well-formed times, the string comparisons of isTimeSlotAvailable decide
      exactly what the minute-based rules decide. */
  lemma AvailableMatchesMinutes(day: string, startTime: string, duration: nat, engineer: Engineer,
                                candidate: Candidate, scheduled: seq<InterviewSlot>)
    requires IsClock(startTime) && IsClockEngineer(engineer)
    requires IsClockSlot(candidate.preferredTime) && IsClockSchedule(scheduled)
    ensures IsTimeSlotAvailable(day, startTime, duration, engineer, candidate, scheduled) <==>
            AvailableByMinutes(day, startTime, duration, engineer, candidate, scheduled)
  {
    var endTime := CalculateEndTime(startTime, duration);
    var start := ToMinutes(startTime);
    var end := (start + duration) % 1440;
    assert ToMinutes(endTime) == end;
    var locked := IsSlotLocked(scheduled, day, startTime, endTime);
    var engineerOk := EngineerIsAvailable(engineer, day, startTime, endTime);
    var candidateOk := Covers(candidate.preferredTime, day, startTime, endTime);
    assert IsTimeSlotAvailable(day, startTime, duration, engineer, candidate, scheduled) == (!locked && engineerOk && candidateOk);
    var lockedM := exists interview :: interview in scheduled && LocksByMinutes(interview.timeSlot, day, start, end);
    var engineerM := exists window :: window in engineer.availability && CoversByMinutes(window, day, start, end);
    var candidateM := CoversByMinutes(candidate.preferredTime, day, start, end);
    assert AvailableByMinutes(day, startTime, duration, engineer, candidate, scheduled) == (!lockedM && engineerM && candidateM);
    LockedMatchesMinutes(scheduled, day, startTime, endTime);
    EngineerMatchesMinutes(engineer, day, startTime, endTime);
    CoversMatchMinutes(candidate.preferredTime, day, startTime, endTime);
    assert locked == lockedM;
    assert engineerOk == engineerM;
    assert candidateOk == candidateM;
  }

  // ---------------------------------------------------------------------------
  // What the end-time arithmetic promises.

  lemma {:induction false} AddWholeDays(minutes: nat, days: nat)
    requires minutes < 1440
    ensures (minutes + days * 1440) % 1440 == minutes
  {
    if days > 0 {
      AddWholeDays(minutes, days - 1);
      assert minutes + days * 1440 == (minutes + (days - 1) * 1440) + 1440;
    }
  }

  /** Whole days added to a time of day give back the same string. */
  lemma EndTimeWrapsWholeDays(startTime: string, days: nat)
    requires IsTimeOfDay(startTime)
    ensures CalculateEndTime(startTime, days * 1440) == startTime
  {
    AddWholeDays(ToMinutes(startTime), days);
    ClockInjective(CalculateEndTime(startTime, days * 1440), startTime);
  }

  /** The end time is the one clock string for its minute. */
  lemma EndTimeIs(startTime: string, duration: nat, expected: string)
    requires IsClock(startTime) && IsClock(expected)
    requires ToMinutes(expected) == (ToMinutes(startTime) + duration) % 1440
    ensures CalculateEndTime(startTime, duration) == expected
  {
    ClockInjective(CalculateEndTime(startTime, duration), expected);
  }

  /** Half an hour after 09:00 and after 09:30, as the source's tests record. */
  lemma EndTimeHalfHourExamples()
    ensures CalculateEndTime("09:00", 30) == "09:30"
    ensures CalculateEndTime("09:30", 30) == "10:00"
  {
    EndTimeIs("09:00", 30, "09:30");
    EndTimeIs("09:30", 30, "10:00");
  }

  /** Half an hour after a quarter to, within the day and past midnight. */
  lemma EndTimeQuarterToExamples()
    ensures CalculateEndTime("09:45", 30) == "10:15"
    ensures CalculateEndTime("23:45", 30) == "00:15"
  {
    EndTimeIs("09:45", 30, "10:15");
    EndTimeIs("23:45", 30, "00:15");
  }

  /** Further rollovers past midnight the source's tests record. */
  lemma EndTimeRolloverExamples()
    ensures CalculateEndTime("23:45", 45) == "00:30"
    ensures CalculateEndTime("23:00", 120) == "01:00"
  {
    EndTimeIs("23:45", 45, "00:30");
    EndTimeIs("23:00", 120, "01:00");
  }

  /** Five minutes short of a whole day lands five minutes before the start. */
  lemma EndTimeAlmostDayExample()
    ensures CalculateEndTime("23:45", 1435) == "23:40"
  {
    EndTimeIs("23:45", 1435, "23:40");
  }

  /** The whole-day additions the source's tests record. */
  lemma EndTimeWholeDayExamples()
    ensures CalculateEndTime("23:45", 1440) == "23:45"
    ensures CalculateEndTime("12:00", 2880) == "12:00"
  {
    EndTimeIs("23:45", 1440, "23:45");
    EndTimeIs("12:00", 2880, "12:00");
  }

  /** Forty-eight hours from a late start, as the source's tests record it. */
  lemma EndTimeTwoDaysLateExample()
    ensures CalculateEndTime("23:45", 2880) == "23:45"
  {
    EndTimeIs("23:45", 2880, "23:45");
  }

  // ---------------------------------------------------------------------------
  // What the availability predicate promises.

  /** The booked interviews on `day`, in their original order. */
  function OnDay(scheduled: seq<InterviewSlot>, day: string): (sameDay: seq<InterviewSlot>)
    ensures forall interview :: interview in sameDay <==> interview in scheduled && interview.timeSlot.day == day
  {
    if scheduled == [] then []
    else (if scheduled[0].timeSlot.day == day then [scheduled[0]] else []) + OnDay(scheduled[1..], day)
  }

  /** Bookings on other days never change the answer. */
  lemma OtherDaysIrrelevant(day: string, startTime: string, duration: nat, engineer: Engineer,
                            candidate: Candidate, scheduled: seq<InterviewSlot>)
    requires IsClock(startTime)
    ensures IsTimeSlotAvailable(day, startTime, duration, engineer, candidate, scheduled) ==
            IsTimeSlotAvailable(day, startTime, duration, engineer, candidate, OnDay(scheduled, day))
  {
    var endTime := CalculateEndTime(startTime, duration);
    assert IsSlotLocked(scheduled, day, startTime, endTime) == IsSlotLocked(OnDay(scheduled, day), day, startTime, endTime);
  }

  /** Booking an interview on another day leaves every answer for `day` as it was. */
  lemma BookingOtherDayIrrelevant(day: string, startTime: string, duration: nat, engineer: Engineer,
                                  candidate: Candidate, scheduled: seq<InterviewSlot>, booking: InterviewSlot)
    requires IsClock(startTime) && booking.timeSlot.day != day
    ensures IsTimeSlotAvailable(day, startTime, duration, engineer, candidate, scheduled + [booking]) ==
            IsTimeSlotAvailable(day, startTime, duration, engineer, candidate, scheduled)
  {
    var endTime := CalculateEndTime(startTime, duration);
    assert forall interview :: interview in scheduled + [booking] <==> interview in scheduled || interview == booking;
    assert IsSlotLocked(scheduled + [booking], day, startTime, endTime) == IsSlotLocked(scheduled, day, startTime, endTime);
  }

  /** A booking on `day` whose [start, end) holds the new start, or whose
      (start, end] holds the new end, makes the slot unavailable. */
  lemma LockedSlotUnavailable(day: string, startTime: string, duration: nat, engineer: Engineer,
                              candidate: Candidate, scheduled: seq<InterviewSlot>, booking: InterviewSlot)
    requires IsClock(startTime) && booking in scheduled && IsClockSlot(booking.timeSlot)
    requires LocksByMinutes(booking.timeSlot, day, ToMinutes(startTime),
                            (ToMinutes(startTime) + duration) % 1440)
    ensures !IsTimeSlotAvailable(day, startTime, duration, engineer, candidate, scheduled)
  {
    var endTime := CalculateEndTime(startTime, duration);
    LocksMatchMinutes(booking, day, startTime, endTime);
  }

  /** An available slot lies, both ends inclusive, inside a window of the
      engineer on `day` and inside the candidate's preferred window on `day`. */
  lemma AvailableImpliesWindows(day: string, startTime: string, duration: nat, engineer: Engineer,
                                candidate: Candidate, scheduled: seq<InterviewSlot>)
    requires IsClock(startTime) && IsClockEngineer(engineer) && IsClockSlot(candidate.preferredTime)
    requires IsTimeSlotAvailable(day, startTime, duration, engineer, candidate, scheduled)
    ensures var start := ToMinutes(startTime);
            var end := (start + duration) % 1440;
            (exists window :: window in engineer.availability && CoversByMinutes(window, day, start, end)) &&
            CoversByMinutes(candidate.preferredTime, day, start, end)
  {
    var endTime := CalculateEndTime(startTime, duration);
    EngineerMatchesMinutes(engineer, day, startTime, endTime);
    CoversMatchMinutes(candidate.preferredTime, day, startTime, endTime);
  }

  /** With nothing booked, a slot is available exactly when both windows contain it. */
  lemma NoBookingsMeansWindows(day: string, startTime: string, duration: nat, engineer: Engineer,
                               candidate: Candidate)
    requires IsClock(startTime) && IsClockEngineer(engineer) && IsClockSlot(candidate.preferredTime)
    ensures var start := ToMinutes(startTime);
            var end := (start + duration) % 1440;
            IsTimeSlotAvailable(day, startTime, duration, engineer, candidate, []) <==>
            (exists window :: window in engineer.availability && CoversByMinutes(window, day, start, end)) &&
            CoversByMinutes(candidate.preferredTime, day, start, end)
  {
    var endTime := CalculateEndTime(startTime, duration);
    assert !IsSlotLocked([], day, startTime, endTime);
    EngineerMatchesMinutes(engineer, day, startTime, endTime);
    CoversMatchMinutes(candidate.preferredTime, day, startTime, endTime);
  }

  /** The lock rule as written misses a booking that lies strictly inside the
      new slot: such a booking changes nothing. */
  lemma ContainedBookingIgnored(day: string, startTime: string, duration: nat, engineer: Engineer,
                                candidate: Candidate, booking: InterviewSlot)
    requires IsClock(startTime) && IsClockSlot(booking.timeSlot)
    requires ToMinutes(startTime) < ToMinutes(booking.timeSlot.startTime)
    requires ToMinutes(booking.timeSlot.endTime) < (ToMinutes(startTime) + duration) % 1440
    ensures IsTimeSlotAvailable(day, startTime, duration, engineer, candidate, [booking]) ==
            IsTimeSlotAvailable(day, startTime, duration, engineer, candidate, [])
  {
    var endTime := CalculateEndTime(startTime, duration);
    LocksMatchMinutes(booking, day, startTime, endTime);
    assert !IsSlotLocked([booking], day, startTime, endTime);
    assert !IsSlotLocked([], day, startTime, endTime);
  }

  /** The hour wraps before the windows are consulted: a slot of less than a day
      that runs past midnight ends, on the clock, before it starts, so any windows
      that reach its start accept it (23:45 for 30 minutes ends at "00:15"). */
  lemma MidnightCrossingAccepted(day: string, startTime: string, duration: nat, engineer: Engineer,
                                 candidate: Candidate, window: TimeSlot)
    requires IsTimeOfDay(startTime) && IsClockEngineer(engineer) && IsClockSlot(candidate.preferredTime)
    requires 1440 <= ToMinutes(startTime) + duration && duration < 1440
    requires window in engineer.availability && window.day == day
    requires ToMinutes(window.startTime) <= ToMinutes(startTime) <= ToMinutes(window.endTime)
    requires candidate.preferredTime.day == day
    requires ToMinutes(candidate.preferredTime.startTime) <= ToMinutes(startTime) <= ToMinutes(candidate.preferredTime.endTime)
    ensures IsTimeSlotAvailable(day, startTime, duration, engineer, candidate, [])
  {
    var start := ToMinutes(startTime);
    var total := start + duration;
    assert total % 1440 == total - 1440 by {
      assert total == 1440 + (total - 1440) && 0 <= total - 1440 < 1440;
    }
    NoBookingsMeansWindows(day, startTime, duration, engineer, candidate);
    assert CoversByMinutes(window, day, start, total % 1440);
    assert CoversByMinutes(candidate.preferredTime, day, start, total % 1440);
  }
}
