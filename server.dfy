/**
 * The three request handlers over one store holding the two tables. A failing store
 * (unreachable, a rejected row) is the flag `storeFault`: the handler then answers
 * 500 and, for the insert, leaves the table as it was.
 */
module Server {
  import opened Tables
  import opened Availability
  import opened Scheduling
  import opened Catalogue

  /** A 200 response carrying `body`, or the 500 `{error: "Internal Server Error"}`. */
  datatype Response<T> = Ok(body: T) | InternalServerError

  class Database {
    var vehicles: seq<Vehicle>
    var reservations: seq<Reservation>

    /** The primary key of `vehicles` holds. */
    ghost predicate Valid()
      reads this
    {
      UniqueIds(vehicles)
    }

    constructor (vehicles: seq<Vehicle>, reservations: seq<Reservation>)
      requires UniqueIds(vehicles)
      ensures Valid()
      ensures this.vehicles == vehicles && this.reservations == reservations
    {
      this.vehicles := vehicles;
      this.reservations := reservations;
    }

    /** `GET /vehicle-types`. */
    method ListVehicleTypes(storeFault: bool) returns (resp: Response<seq<TypeOption>>)
      ensures storeFault <==> resp.InternalServerError?
      ensures resp.Ok? ==> resp.body == VehicleTypes(vehicles)
    {
      if storeFault {
        resp := InternalServerError;
      } else {
        resp := Ok(VehicleTypes(vehicles));
      }
    }

    /** `POST /check-availability`: reads both tables and changes neither. */
    method CheckAvailability(q: AvailabilityRequest, storeFault: bool) returns (resp: Response<Verdict>)
      requires Valid()
      ensures storeFault <==> resp.InternalServerError?
      ensures resp.Ok? ==> resp.body == Check(vehicles, reservations, q)
      ensures resp.Ok? && resp.body.Available? ==>
        forall v :: v in vehicles && v.id == resp.body.vehicleId ==>
          v.vehicleType == q.vehicleType && v.location == q.location &&
          forall r :: r in reservations && r.vehicleId == v.id ==> !(r.startDateTime <= q.startDateTime <= r.endDateTime)
    {
      if storeFault {
        resp := InternalServerError;
      } else {
        resp := Ok(Check(vehicles, reservations, q));
        forall v | resp.body.Available? && v in vehicles && v.id == resp.body.vehicleId
          ensures v.vehicleType == q.vehicleType && v.location == q.location
          ensures forall r :: r in reservations && r.vehicleId == v.id ==> !(r.startDateTime <= q.startDateTime <= r.endDateTime)
        {
          AvailableIsEligible(vehicles, reservations, q, v);
        }
      }
    }

    /** `POST /schedule-test-drive`: one unconditional insert, all or nothing. */
    method ScheduleTestDrive(b: ScheduleRequest, storeFault: bool) returns (resp: Response<string>)
      requires Valid()
      modifies this
      ensures Valid() && vehicles == old(vehicles)
      ensures storeFault <==> resp.InternalServerError?
      ensures storeFault ==> reservations == old(reservations)
      ensures !storeFault ==> resp == Ok(ScheduledMessage) && reservations == old(reservations) + [NewReservation(b)]
    {
      if storeFault {
        resp := InternalServerError;
      } else {
        reservations := reservations + [NewReservation(b)];
        resp := Ok(ScheduledMessage);
      }
    }
  }

  /**
   * A scenario for the contracts above: one SUV in NYC and no bookings; the check finds it,
   * the booking is made, and the same check then finds nothing.
   */
  method TestDriveScenario() {
    var suv := Vehicle("V1", "suv", "NYC", 32400, 64800, ["Mon", "Tue"], 15);
    var db := new Database([suv], []);
    var q := AvailabilityRequest("NYC", "suv", 1704103200000, 60);
    var first := db.CheckAvailability(q, false);
    assert Eligible(suv, [], q);
    assert first == Ok(Available("V1"));
    var b := ScheduleRequest("V1", q.startDateTime, q.durationMins, "John Doe", "+123456789", "john.doe@example.com");
    var booked := db.ScheduleTestDrive(b, false);
    assert booked == Ok(ScheduledMessage);
    ScheduledIntervalIsTaken([suv], [], b, q);
    var again := db.CheckAvailability(q, false);
    assert again == Ok(Unavailable);
  }
}
