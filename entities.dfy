/**
 * The Room entities the booking logic reads and writes.  Dates ("yyyy-MM-dd")
 * are day numbers: zero-padded ISO dates compare and sort like the days they
 * name.  Slot times stay the "HH:mm" strings the slot table stores, because
 * the table's unique key compares them as strings.
 */
module Entities {

  /** A calendar date as a day number (a `LocalDate`, or its ISO string). */
  type Day = int

  /** `TimeSlotEntity`: one bookable interval of one business on one date. */
  datatype TimeSlot = TimeSlot(
    tmsId: int,          // auto-generated primary key; 0 asks for a fresh one
    busId: int,
    date: Day,
    startTime: string,   // "HH:mm"
    endTime: string,     // "HH:mm"
    status: string)      // "available", "pending" or "reserved"

  /** The columns of the unique index on the slot table. */
  datatype SlotKey = SlotKey(busId: int, date: Day, startTime: string, endTime: string)

  function KeyOf(s: TimeSlot): SlotKey
  {
    SlotKey(s.busId, s.date, s.startTime, s.endTime)
  }

  /** `ReservationEntity`: a client's request for a slot. */
  datatype Reservation = Reservation(
    resId: int,          // auto-generated primary key; 0 asks for a fresh one
    cliId: int,
    busId: int,
    tmsId: int,
    status: string,      // "pending", "accepted" or "declined"
    createdAt: Day)      // the day the booking was made

  /** `UserEntitiy`: an account, with its password in clear and its role. */
  datatype User = User(usrId: int, username: string, password: string, role: string)

  /** `BusinessEntity`, reduced to the fields the booking logic uses. */
  datatype Business = Business(busId: int, usrId: int, name: string, workingHours: string, reservationTime: int)

  // Status strings.
  const SlotAvailable := "available"
  const SlotReserved := "reserved"
  const Pending := "pending"
  const Accepted := "accepted"
  const Declined := "declined"

  // Role strings.
  const ClientRole := "client"
  const BusinessRole := "business"

  function ResIdOf(r: Reservation): int { r.resId }
  function UsrIdOf(u: User): int { u.usrId }
}
