/**
 * The insert of `POST /schedule-test-drive` and how the row it adds bears on later
 * availability checks. The insert is unconditional: no overlap re-check, no duration
 * validation and no check that the vehicle exists.
 */
module Scheduling {
  import opened Tables
  import opened Availability

  datatype ScheduleRequest = ScheduleRequest(
    vehicleId: string,
    startDateTime: int,
    durationMins: int,
    customerName: string,
    customerPhone: string,
    customerEmail: string)

  const ScheduledMessage: string := "Test drive scheduled successfully"

  /** The last instant of the booking: the start plus the duration in milliseconds. */
  function EndOf(b: ScheduleRequest): int {
    b.startDateTime + b.durationMins * MillisPerMinute
  }

  /** The row the scheduler inserts for booking `b`. */
  function NewReservation(b: ScheduleRequest): (r: Reservation)
    ensures r.vehicleId == b.vehicleId && r.startDateTime == b.startDateTime
    ensures r.customerName == b.customerName && r.customerPhone == b.customerPhone
    ensures r.customerEmail == b.customerEmail
    ensures r.endDateTime - r.startDateTime == b.durationMins * MillisPerMinute
    ensures Covers(r, b.startDateTime) <==> b.durationMins >= 0
  {
    Reservation(b.vehicleId, b.startDateTime, EndOf(b),
                b.customerName, b.customerPhone, b.customerEmail)
  }

  /**
   * After booking `b`, a check whose start lies in the booking's closed interval never
   * names `b.vehicleId`, whatever type and location it asks for. With a duration of zero
   * or more this covers a check at the booking's own start.
   */
  lemma ScheduledIntervalIsTaken(vs: seq<Vehicle>, rs: seq<Reservation>, b: ScheduleRequest, q: AvailabilityRequest)
    requires b.startDateTime <= q.startDateTime <= EndOf(b)
    ensures Check(vs, rs + [NewReservation(b)], q) != Available(b.vehicleId)
  {
    CheckAppendCovering(vs, rs, NewReservation(b), q);
  }

  /** A check whose start lies outside the booking's closed interval gets the answer it had before. */
  lemma ScheduleElsewhereIsInert(vs: seq<Vehicle>, rs: seq<Reservation>, b: ScheduleRequest, q: AvailabilityRequest)
    requires !(b.startDateTime <= q.startDateTime <= EndOf(b))
    ensures Check(vs, rs + [NewReservation(b)], q) == Check(vs, rs, q)
  {
    CheckAppendNotCovering(vs, rs, NewReservation(b), q);
  }

  /** A booking with a negative duration ends before it starts and blocks no check at all. */
  lemma NegativeDurationBlocksNothing(vs: seq<Vehicle>, rs: seq<Reservation>, b: ScheduleRequest, q: AvailabilityRequest)
    requires b.durationMins < 0
    ensures Check(vs, rs + [NewReservation(b)], q) == Check(vs, rs, q)
  {
    assert EndOf(b) < b.startDateTime;
    ScheduleElsewhereIsInert(vs, rs, b, q);
  }
}
