/** Clients of the reservation service that send it concrete requests: a
    student refused a second room for the same year, a second student joining a
    room, a third student refused a full room, and cancellations of shared and
    sole reservations, including what follows from cancelled records still
    being counted. Each starts the service from a prepared repository and
    directories. */
module Scenarios {
  import opened Entities
  import opened Repository
  import opened Services

  /** Student 1 reserves room 10 for 2024 and is then refused room 20 for the
      same year. */
  method StudentConflictScenario()
    returns (first: Result<Reservation>, second: Result<Reservation>, studentList: seq<ReservationId>)
    ensures first == Ok(Reservation("X", 2024, true, 1, 10))
    ensures second == Err(StudentAlreadyReserved)
    ensures studentList == ["X"]
  {
    var service := new ReservationService(map[], map[1 := []], map[10 := Room([], true), 20 := Room([], true)]);
    assert RoomYearIds(service.store, 10, 2024) == {};
    first := service.CreateReservation(1, 10, 2024, "X");
    second := service.CreateReservation(1, 20, 2024, "Y");
    studentList := service.students[1];
  }

  /** Room 10 holds student 1's record for 2024 and student 2 joins it. */
  method JoinRoomScenario() returns (second: Result<Reservation>, roomList: seq<ReservationId>)
    ensures second == Ok(Reservation("Z", 2024, true, 2, 10))
    ensures roomList == ["X", "Z"]
  {
    var x := Reservation("X", 2024, true, 1, 10);
    var service := new ReservationService(map["X" := x], map[1 := ["X"], 2 := []],
                                          map[10 := Room(["X"], true)]);
    assert RoomYearIds(service.store, 10, 2024) == {"X"};
    assert !HasValidForStudentAndYear(service.store, 2, 2024);
    second := service.CreateReservation(2, 10, 2024, "Z");
    roomList := service.rooms[10].reservationIds;
  }

  /** Students 1 and 2 share room 10 for 2024; student 3 is refused it, and
      refused without any change to the repository or the directories. */
  method RoomFullScenario() returns (third: Result<Reservation>, storeSize: nat, roomList: seq<ReservationId>)
    ensures third == Err(RoomFull)
    ensures storeSize == 2 && roomList == ["X", "Z"]
  {
    var x, z := Reservation("X", 2024, true, 1, 10), Reservation("Z", 2024, true, 2, 10);
    var service := new ReservationService(map["X" := x, "Z" := z], map[1 := ["X"], 2 := ["Z"], 3 := []],
                                          map[10 := Room(["X", "Z"], true)]);
    assert RoomYearIds(service.store, 10, 2024) == {"X", "Z"};
    assert !HasValidForStudentAndYear(service.store, 3, 2024);
    third := service.CreateReservation(3, 10, 2024, "W");
    storeSize, roomList := |service.store|, service.rooms[10].reservationIds;
  }

  /** Students 1 and 2 share room 10 for 2024 and student 1 cancels: the record
      is kept, marked cancelled, and leaves both lists; the count for the room
      and year still includes it, so the room's availability flag is untouched. */
  method CancelOneOfTwoScenario()
    returns (cancelled: Result<Reservation>, available: bool,
             studentList: seq<ReservationId>, roomList: seq<ReservationId>)
    ensures cancelled == Ok(Reservation("X", 2024, false, 1, 10))
    ensures available
    ensures studentList == [] && roomList == ["Z"]
  {
    var x, z := Reservation("X", 2024, true, 1, 10), Reservation("Z", 2024, true, 2, 10);
    var service := new ReservationService(map["X" := x, "Z" := z], map[1 := ["X"], 2 := ["Z"]],
                                          map[10 := Room(["X", "Z"], true)]);
    assert RoomYearIds(service.store, 10, 2024) == {"X", "Z"};
    var done := service.CancelReservation("X");
    cancelled := service.GetReservationById("X");
    available := service.rooms[10].available;
    studentList, roomList := service.students[1], service.rooms[10].reservationIds;
  }

  /** After that cancellation a third student is still refused room 10, while
      student 1 may reserve again for 2024. */
  method CancelledStillCountsScenario() returns (thirdStudent: Result<Reservation>, rebooked: Result<Reservation>)
    ensures thirdStudent == Err(RoomFull)
    ensures rebooked == Ok(Reservation("Y", 2024, true, 1, 20))
  {
    var x, z := Reservation("X", 2024, false, 1, 10), Reservation("Z", 2024, true, 2, 10);
    var service := new ReservationService(map["X" := x, "Z" := z], map[1 := [], 2 := ["Z"], 3 := []],
                                          map[10 := Room(["Z"], true), 20 := Room([], true)]);
    assert RoomYearIds(service.store, 10, 2024) == {"X", "Z"};
    assert RoomYearIds(service.store, 20, 2024) == {};
    assert !HasValidForStudentAndYear(service.store, 3, 2024);
    assert !HasValidForStudentAndYear(service.store, 1, 2024);
    thirdStudent := service.CreateReservation(3, 10, 2024, "W");
    rebooked := service.CreateReservation(1, 20, 2024, "Y");
  }

  /** A student alone in room 10 for 2024 cancels: the room is marked unavailable. */
  method CancelSoleScenario() returns (available: bool, roomList: seq<ReservationId>)
    ensures !available && roomList == []
  {
    var x := Reservation("X", 2024, true, 1, 10);
    var service := new ReservationService(map["X" := x], map[1 := ["X"]], map[10 := Room(["X"], true)]);
    assert RoomYearIds(service.store, 10, 2024) == {"X"};
    var done := service.CancelReservation("X");
    available, roomList := service.rooms[10].available, service.rooms[10].reservationIds;
  }
}
