/** The availability cases of src/utils/__tests__/availability.test.ts, on its
    mock engineer, candidate and booking, plus one booking the lock rule misses. */
module AvailabilityExamples {
  import opened Types
  import Availability

  /** Monday 09:00-12:00 and Tuesday 14:00-17:00. */
  const MockEngineer: Engineer :=
    Engineer(1, "Test Engineer", [TimeSlot("Monday", "09:00", "12:00"), TimeSlot("Tuesday", "14:00", "17:00")])

  /** Prefers Monday 10:00-11:00. */
  const MockCandidate: Candidate :=
    Candidate(1, "Test Candidate", TimeSlot("Monday", "10:00", "11:00"))

  /** One interview booked on Monday 09:00-09:30. */
  const MockScheduled: seq<InterviewSlot> :=
    [InterviewSlot(MockEngineer, MockCandidate, TimeSlot("Monday", "09:00", "09:30"))]

  /** Monday 10:00 for 30 minutes, nothing booked: available. */
  lemma AvailableSlotExample()
    ensures Availability.IsTimeSlotAvailable("Monday", "10:00", 30, MockEngineer, MockCandidate, [])
  {
    Availability.EndTimeIs("10:00", 30, "10:30");
    assert Availability.Covers(MockEngineer.availability[0], "Monday", "10:00", "10:30");
  }

  /** Monday 09:00 for 30 minutes, against the 09:00-09:30 booking: locked. */
  lemma ScheduledSlotExample()
    ensures !Availability.IsTimeSlotAvailable("Monday", "09:00", 30, MockEngineer, MockCandidate, MockScheduled)
  {
    Availability.EndTimeIs("09:00", 30, "09:30");
    assert Availability.Locks(MockScheduled[0], "Monday", "09:00", "09:30");
  }

  /** Monday 13:00 for 30 minutes: outside the engineer's windows. */
  lemma OutsideEngineerExample()
    ensures !Availability.IsTimeSlotAvailable("Monday", "13:00", 30, MockEngineer, MockCandidate, [])
  {
    Availability.EndTimeIs("13:00", 30, "13:30");
    assert !Availability.Covers(MockEngineer.availability[0], "Monday", "13:00", "13:30");
    assert !Availability.Covers(MockEngineer.availability[1], "Monday", "13:00", "13:30");
  }

  /** Monday 11:30 for 30 minutes: outside the candidate's preferred window. */
  lemma OutsideCandidateExample()
    ensures !Availability.IsTimeSlotAvailable("Monday", "11:30", 30, MockEngineer, MockCandidate, [])
  {
    Availability.EndTimeIs("11:30", 30, "12:00");
    assert !Availability.Covers(MockCandidate.preferredTime, "Monday", "11:30", "12:00");
  }

  /** Monday 11:30 for 30 minutes with a preferred window of 09:00-12:00: the end
      equals both windows' end and is accepted. */
  lemma BoundaryExample()
    ensures Availability.IsTimeSlotAvailable("Monday", "11:30", 30, MockEngineer,
                                             MockCandidate.(preferredTime := TimeSlot("Monday", "09:00", "12:00")), [])
  {
    Availability.EndTimeIs("11:30", 30, "12:00");
    assert Availability.Covers(MockEngineer.availability[0], "Monday", "11:30", "12:00");
  }

  /** A booking at 09:15-09:45 lies strictly inside a 09:00 slot of 60 minutes and
      does not lock it. */
  lemma ContainedBookingExample()
    ensures var booking := InterviewSlot(MockEngineer, MockCandidate, TimeSlot("Monday", "09:15", "09:45"));
            !Availability.IsSlotLocked([booking], "Monday", "09:00", Availability.CalculateEndTime("09:00", 60))
  {
    Availability.EndTimeIs("09:00", 60, "10:00");
  }
}
