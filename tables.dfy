/** The two tables of the store, as rows. Timestamps are integer milliseconds. */
module Tables {

  /** One minute in milliseconds, the factor the scheduler applies to a duration. */
  const MillisPerMinute: int := 60000

  /**
   * A row of `vehicles`. The availability window, the weekday list and the minimum gap
   * between bookings are carried as data only: no query of the server consults them.
   * Times of day are seconds since midnight.
   */
  datatype Vehicle = Vehicle(
    id: string,
    vehicleType: string,
    location: string,
    availableFromTime: int,
    availableToTime: int,
    availableDays: seq<string>,
    minimumMinutesBetweenBookings: int)

  /** A row of `reservations` as the scheduler writes it. */
  datatype Reservation = Reservation(
    vehicleId: string,
    startDateTime: int,
    endDateTime: int,
    customerName: string,
    customerPhone: string,
    customerEmail: string)

  /** No two rows share an `id`: the primary key of `vehicles`. */
  predicate UniqueIds(vs: seq<Vehicle>) {
    forall i, j :: 0 <= i < j < |vs| ==> vs[i].id != vs[j].id
  }

  /** The closed interval of `r` contains instant `t`. */
  predicate Covers(r: Reservation, t: int) {
    r.startDateTime <= t <= r.endDateTime
  }
}
