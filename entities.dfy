/** Entities of the reservation workflow: the reservation record kept by the
    reservation repository, the room entry kept by the room directory, and the
    error results the workflow raises. */
module Entities {

  /** Student ids and room ids are Java `Long`s; unbounded here, compared by equality only. */
  type StudentId = int
  type RoomId = int

  /** The academic year is a `java.util.Date` in the service; the workflow only
      compares it for equality, so any type with equality serves. */
  type Year = int

  /** Reservation ids are the string form of a random UUID. */
  type ReservationId = string

  /** A reservation record: `idReservation`, `anneeUniversitaire`, `estValide`,
      `idEtudiant` and `idChambre`. */
  datatype Reservation = Reservation(
    id: ReservationId,
    year: Year,
    isValid: bool,
    studentId: StudentId,
    roomId: RoomId)

  /** What the room directory holds about a room: its reservation ids and its
      availability flag. */
  datatype Room = Room(reservationIds: seq<ReservationId>, available: bool)

  /** The five failures the workflow raises, one per message of the service.
      The four failures of `createReservation` are `ReservationException`s; the
      two "Reservation not found" paths throw a plain `RuntimeException`. */
  datatype Error =
    | StudentNotFound        // "Etudiant not found with ID"
    | RoomNotFound           // "Chambre not found with ID"
    | ReservationNotFound    // "Reservation not found"
    | StudentAlreadyReserved // active reservation for the academic year exists
    | RoomFull               // maximum number of reservations for the academic year
  {
    /** The "not found" kind of failure. */
    predicate IsNotFound() {
      StudentNotFound? || RoomNotFound? || ReservationNotFound?
    }

    /** The "conflict" kind of failure: a business rule refused the request. */
    predicate IsConflict() {
      StudentAlreadyReserved? || RoomFull?
    }

    /** Raised as a `ReservationException` rather than a plain `RuntimeException`. */
    predicate IsReservationException() {
      StudentNotFound? || RoomNotFound? || StudentAlreadyReserved? || RoomFull?
    }
  }

  /** The value of an operation, or the failure it raised. */
  datatype Result<T> = Ok(value: T) | Err(error: Error)
}
