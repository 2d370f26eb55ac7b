/**
 * The stored reservation record. Instants (the booked window and the
 * creation time) are integers on one absolute time line; nullable columns
 * are options.
 */
module Reservations {
  import opened Wrappers

  datatype Reservation = Reservation(
    id: string,
    phoneNumber: string,
    fullName: string,
    startDateTime: int,
    endDateTime: int,
    guests: Option<int>,           // None: missing, or a NaN count
    specialOccasion: Option<string>,
    chefsTable: bool,
    createdAt: int)
}
