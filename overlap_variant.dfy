/**
 * A VARIANT, not the server's behaviour: the availability check under the closed-interval
 * overlap rule `s1 <= e2 && e1 >= s2`, where the requested interval runs from the start for
 * `durationMins` minutes. The server itself tests only the start point (module Availability);
 * this module states how the two rules relate.
 */
module OverlapVariant {
  import opened Query
  import opened Tables
  import opened Availability
  import opened Scheduling

  /** The last instant of the requested interval. */
  function RequestedEnd(q: AvailabilityRequest): int {
    q.startDateTime + q.durationMins * MillisPerMinute
  }

  /** The closed intervals `[r.start, r.end]` and `[s, e]` overlap. */
  predicate Overlaps(r: Reservation, s: int, e: int) {
    r.startDateTime <= e && r.endDateTime >= s
  }

  /** Some reservation of vehicle `id` overlaps `[s, e]`. */
  predicate BookedDuring(id: string, rs: seq<Reservation>, s: int, e: int) {
    exists i :: 0 <= i < |rs| && rs[i].vehicleId == id && Overlaps(rs[i], s, e)
  }

  predicate EligibleForInterval(v: Vehicle, rs: seq<Reservation>, q: AvailabilityRequest) {
    Matches(v, q) && !BookedDuring(v.id, rs, q.startDateTime, RequestedEnd(q))
  }

  /** The check under the overlap rule: first eligible row of `vs`, as in `Availability.Check`. */
  function CheckOverlap(vs: seq<Vehicle>, rs: seq<Reservation>, q: AvailabilityRequest): (r: Verdict)
    ensures r.Available? ==>
      exists k :: 0 <= k < |vs| && vs[k].id == r.vehicleId && EligibleForInterval(vs[k], rs, q) &&
        forall j :: 0 <= j < k ==> !EligibleForInterval(vs[j], rs, q)
    ensures r.Unavailable? <==> forall v :: v in vs ==> !EligibleForInterval(v, rs, q)
  {
    match FirstWhere(vs, v => EligibleForInterval(v, rs, q))
    case Some(k) => Available(vs[k].id)
    case None => Unavailable
  }

  /**
   * With a duration of zero or more the overlap rule is the stricter one: when the
   * start-point check finds no vehicle, neither does the overlap check.
   */
  lemma OverlapRuleIsStricter(vs: seq<Vehicle>, rs: seq<Reservation>, q: AvailabilityRequest)
    requires q.durationMins >= 0
    requires Check(vs, rs, q) == Unavailable
    ensures CheckOverlap(vs, rs, q) == Unavailable
  {
  }

  /**
   * Under the overlap rule a booked vehicle is refused for every requested interval that
   * overlaps its booking, not only for starts inside it.
   */
  lemma ScheduledIntervalRefusesOverlap(vs: seq<Vehicle>, rs: seq<Reservation>, b: ScheduleRequest, q: AvailabilityRequest)
    requires Overlaps(NewReservation(b), q.startDateTime, RequestedEnd(q))
    ensures CheckOverlap(vs, rs + [NewReservation(b)], q) != Available(b.vehicleId)
  {
    var rs' := rs + [NewReservation(b)];
    assert rs'[|rs|] == NewReservation(b);
    assert BookedDuring(b.vehicleId, rs', q.startDateTime, RequestedEnd(q));
  }

  /**
   * The two rules differ: a booking of 10:00 to 11:00 and a request for 09:30 lasting
   * 60 minutes. The start-point check offers the vehicle; the overlap check does not.
   */
  lemma StartPointCheckMissesOverlap()
    ensures
      var ev := Vehicle("ev1", "suv", "NYC", 32400, 64800, ["Mon"], 15);
      var booked := Reservation("ev1", 36000000, 39600000, "A", "1", "a@example.com");
      var q := AvailabilityRequest("NYC", "suv", 34200000, 60);
      Check([ev], [booked], q) == Available("ev1") && CheckOverlap([ev], [booked], q) == Unavailable
  {
    var ev := Vehicle("ev1", "suv", "NYC", 32400, 64800, ["Mon"], 15);
    var booked := Reservation("ev1", 36000000, 39600000, "A", "1", "a@example.com");
    var q := AvailabilityRequest("NYC", "suv", 34200000, 60);
    assert Eligible(ev, [booked], q);
    assert [ev][0] == ev && [booked][0] == booked;
    assert BookedDuring("ev1", [booked], q.startDateTime, RequestedEnd(q));
  }
}
