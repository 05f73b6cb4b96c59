/** The record shapes the scheduler passes around. Times are the zero-padded
    "HH:MM" strings the application stores; days are day names such as "Monday". */
module Types {

  datatype Option<+T> = None | Some(value: T)

  /** A window on one named weekday, from startTime to endTime. */
  datatype TimeSlot = TimeSlot(day: string, startTime: string, endTime: string)

  /** An interviewer and the weekly windows in which they can be booked. */
  datatype Engineer = Engineer(id: int, name: string, availability: seq<TimeSlot>)

  /** A candidate and their single preferred window. */
  datatype Candidate = Candidate(id: int, name: string, preferredTime: TimeSlot)

  /** A booked interview. */
  datatype InterviewSlot = InterviewSlot(engineer: Engineer, candidate: Candidate, timeSlot: TimeSlot)
}
