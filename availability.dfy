/**
 * The availability check of `POST /check-availability`: the first vehicle of the requested
 * type and location for which no reservation's closed interval contains the requested start.
 * The requested duration is part of the request but takes no part in the decision.
 */
module Availability {
  import opened Query
  import opened Tables

  datatype AvailabilityRequest = AvailabilityRequest(
    location: string,
    vehicleType: string,
    startDateTime: int,
    durationMins: int)

  /** The two 200 answers: `{available: true, vehicleId}` and `{available: false}`. */
  datatype Verdict = Available(vehicleId: string) | Unavailable

  /** The row has exactly the requested type and location. */
  predicate Matches(v: Vehicle, q: AvailabilityRequest) {
    v.vehicleType == q.vehicleType && v.location == q.location
  }

  /** Some reservation of vehicle `id` has a closed interval that contains `t`. */
  predicate BookedAt(id: string, rs: seq<Reservation>, t: int) {
    exists i :: 0 <= i < |rs| && rs[i].vehicleId == id && Covers(rs[i], t)
  }

  /** The row survives both the `where` on type and location and the `whereNotExists`. */
  predicate Eligible(v: Vehicle, rs: seq<Reservation>, q: AvailabilityRequest) {
    Matches(v, q) && !BookedAt(v.id, rs, q.startDateTime)
  }

  /** The answer for request `q` against tables `vs` and `rs`. */
  function Check(vs: seq<Vehicle>, rs: seq<Reservation>, q: AvailabilityRequest): (r: Verdict)
    ensures r.Available? ==>
      exists k :: 0 <= k < |vs| && vs[k].id == r.vehicleId && Eligible(vs[k], rs, q) &&
        forall j :: 0 <= j < k ==> !Eligible(vs[j], rs, q)
    ensures r.Unavailable? <==> forall v :: v in vs ==> !Eligible(v, rs, q)
  {
    match FirstWhere(vs, v => Eligible(v, rs, q))
    case Some(k) => Available(vs[k].id)
    case None => Unavailable
  }

  /** A vehicle the check names matches the request and is not booked at the start. */
  lemma AvailableIsEligible(vs: seq<Vehicle>, rs: seq<Reservation>, q: AvailabilityRequest, v: Vehicle)
    requires v in vs && Check(vs, rs, q) == Available(v.id)
    requires UniqueIds(vs)
    ensures v.vehicleType == q.vehicleType && v.location == q.location
    ensures forall r :: r in rs && r.vehicleId == v.id ==> !(r.startDateTime <= q.startDateTime <= r.endDateTime)
  {
  }

  /**
   * Whether some vehicle is offered does not depend on the order in which the store
   * returns the rows; only which vehicle is named does.
   */
  lemma CheckStatusIgnoresOrder(vs: seq<Vehicle>, ws: seq<Vehicle>, rs: seq<Reservation>, q: AvailabilityRequest)
    requires multiset(vs) == multiset(ws)
    ensures Check(vs, rs, q).Available? == Check(ws, rs, q).Available?
  {
    forall v
      ensures v in vs <==> v in ws
    {
      assert v in vs <==> v in multiset(vs);
      assert v in ws <==> v in multiset(ws);
    }
  }

  /** Two requests that differ only in their duration get the same answer. */
  lemma CheckIgnoresDuration(vs: seq<Vehicle>, rs: seq<Reservation>, q: AvailabilityRequest, d: int)
    ensures Check(vs, rs, q) == Check(vs, rs, q.(durationMins := d))
  {
  }

  /** Appending one reservation books its vehicle at the instants its interval covers, and nothing else. */
  lemma BookedAtAppend(id: string, rs: seq<Reservation>, x: Reservation, t: int)
    ensures BookedAt(id, rs + [x], t) <==> BookedAt(id, rs, t) || (x.vehicleId == id && Covers(x, t))
  {
    var rs' := rs + [x];
    if BookedAt(id, rs, t) {
      var i :| 0 <= i < |rs| && rs[i].vehicleId == id && Covers(rs[i], t);
      assert rs'[i] == rs[i];
    }
    if x.vehicleId == id && Covers(x, t) {
      assert rs'[|rs|] == x;
    }
    if BookedAt(id, rs', t) {
      var i :| 0 <= i < |rs'| && rs'[i].vehicleId == id && Covers(rs'[i], t);
      if i < |rs| {
        assert rs'[i] == rs[i];
      }
    }
  }

  /** A new reservation that does not cover the requested start leaves the answer unchanged. */
  lemma CheckAppendNotCovering(vs: seq<Vehicle>, rs: seq<Reservation>, x: Reservation, q: AvailabilityRequest)
    requires !Covers(x, q.startDateTime)
    ensures Check(vs, rs + [x], q) == Check(vs, rs, q)
  {
    forall v | v in vs
      ensures Eligible(v, rs + [x], q) == Eligible(v, rs, q)
    {
      BookedAtAppend(v.id, rs, x, q.startDateTime);
    }
    FirstWhereCongruent(vs, v => Eligible(v, rs + [x], q), v => Eligible(v, rs, q));
  }

  /** A new reservation that covers the requested start keeps its vehicle out of the answer. */
  lemma CheckAppendCovering(vs: seq<Vehicle>, rs: seq<Reservation>, x: Reservation, q: AvailabilityRequest)
    requires Covers(x, q.startDateTime)
    ensures Check(vs, rs + [x], q) != Available(x.vehicleId)
  {
    BookedAtAppend(x.vehicleId, rs, x, q.startDateTime);
  }
}
