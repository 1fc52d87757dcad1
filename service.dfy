/** The reservation service: it owns the reservation repository and talks to the
    student directory and the room directory, all three held here as maps that
    its operations update in place. */
module Services {
  import opened Entities
  import opened IdLists
  import opened Repository
  import opened DirectorySync

  class ReservationService {
    /** The reservation repository. */
    var store: Store
    /** The student directory: each known student's list of reservation ids. */
    var students: StudentDirectory
    /** The room directory: each known room's reservation ids and availability. */
    var rooms: RoomDirectory

    /** The two business invariants hold over the store. */
    ghost predicate Valid()
      reads this
    {
      Invariant(store)
    }

    /** The directory lists hold exactly the ids of the valid reservations. */
    ghost predicate InSync()
      reads this
    {
      StudentsInSync(store, students) && RoomsInSync(store, rooms)
    }

    constructor (store: Store, students: StudentDirectory, rooms: RoomDirectory)
      ensures this.store == store && this.students == students && this.rooms == rooms
    {
      this.store, this.students, this.rooms := store, students, rooms;
    }

    /** Reserves a room for a student for an academic year. `freshId` stands for
        the random UUID the service draws for the new record. */
    method CreateReservation(studentId: StudentId, roomId: RoomId, year: Year, freshId: ReservationId)
      returns (r: Result<Reservation>)
      requires freshId !in store
      modifies this
      // the guards, in the order the service runs them
      ensures studentId !in old(students) ==> r == Err(StudentNotFound)
      ensures studentId in old(students) && roomId !in old(rooms) ==> r == Err(RoomNotFound)
      ensures studentId in old(students) && roomId in old(rooms)
              && HasValidForStudentAndYear(old(store), studentId, year)
              ==> r == Err(StudentAlreadyReserved)
      ensures studentId in old(students) && roomId in old(rooms)
              && !HasValidForStudentAndYear(old(store), studentId, year)
              && CountByRoomAndYear(old(store), roomId, year) >= 2
              ==> r == Err(RoomFull)
      ensures r.Ok? <==> studentId in old(students) && roomId in old(rooms)
                         && !HasValidForStudentAndYear(old(store), studentId, year)
                         && CountByRoomAndYear(old(store), roomId, year) < 2
      // every refusal is a `ReservationException`: "not found" exactly when a
      // directory lacks the student or the room, a conflict otherwise
      ensures r.Err? ==> r.error.IsReservationException()
      ensures r.Err? ==> (r.error.IsNotFound() <==> studentId !in old(students) || roomId !in old(rooms))
      ensures r.Err? ==> (r.error.IsConflict() <==> studentId in old(students) && roomId in old(rooms))
      // a refused request changes nothing
      ensures r.Err? ==> store == old(store) && students == old(students) && rooms == old(rooms)
      // an accepted one adds one valid record and appends its id to both lists
      ensures r.Ok? ==> r.value == Reservation(freshId, year, true, studentId, roomId)
      ensures r.Ok? ==> store == Insert(old(store), r.value)
      ensures r.Ok? ==> students == old(students)[studentId := old(students)[studentId] + [freshId]]
      ensures r.Ok? ==> rooms == old(rooms)[roomId := Room(old(rooms)[roomId].reservationIds + [freshId],
                                                           old(rooms)[roomId].available)]
      // what a second request then sees
      ensures r.Ok? ==> HasValidForStudentAndYear(store, studentId, year)
      ensures r.Ok? ==> CountByRoomAndYear(store, roomId, year) == CountByRoomAndYear(old(store), roomId, year) + 1
      ensures old(Valid()) ==> Valid()
      ensures old(InSync()) ==> InSync()
    {
      if studentId !in students {
        return Err(StudentNotFound);
      }
      var studentIds := students[studentId];
      if roomId !in rooms {
        return Err(RoomNotFound);
      }
      var room := rooms[roomId];
      if HasValidForStudentAndYear(store, studentId, year) {
        return Err(StudentAlreadyReserved);
      }
      var count := CountByRoomAndYear(store, roomId, year);
      if count >= 2 {
        return Err(RoomFull);
      }
      var reservation := Reservation(freshId, year, true, studentId, roomId);
      store := Insert(store, reservation);
      students := students[studentId := studentIds + [reservation.id]];
      rooms := rooms[roomId := room.(reservationIds := room.reservationIds + [reservation.id])];
      r := Ok(reservation);

      HasValidAfterInsert(old(store), reservation, studentId, year);
      CountAfterInsert(old(store), reservation, roomId, year);
      assert old(Valid()) ==> Valid() by {
        if old(Valid()) {
          InsertPreservesInvariant(old(store), reservation);
        }
      }
      assert old(InSync()) ==> InSync() by {
        if old(InSync()) {
          InsertKeepsStudentsInSync(old(store), old(students), reservation);
          InsertKeepsRoomsInSync(old(store), old(rooms), reservation);
        }
      }
    }

    /** Cancels a reservation: the record stays in the store, marked invalid, and
        its id leaves the student's and the room's lists. */
    method CancelReservation(id: ReservationId) returns (r: Result<()>)
      requires id in store ==> store[id].studentId in students && store[id].roomId in rooms
      modifies this
      ensures id !in old(store) ==> r == Err(ReservationNotFound)
      ensures id !in old(store) ==> store == old(store) && students == old(students) && rooms == old(rooms)
      ensures id in old(store) ==> r == Ok(())
      ensures id in old(store) ==> store == Invalidate(old(store), id)
      ensures id in old(store) ==>
        var rec := old(store)[id];
        students == old(students)[rec.studentId := RemoveFirst(old(students)[rec.studentId], id)]
      ensures id in old(store) ==>
        var rec := old(store)[id];
        rooms == old(rooms)[rec.roomId := Room(RemoveFirst(old(rooms)[rec.roomId].reservationIds, id),
                                               if CountByRoomAndYear(store, rec.roomId, rec.year) < 2 then false
                                               else old(rooms)[rec.roomId].available)]
      // the record is kept, as cancelled
      ensures id in old(store) ==> GetReservationById(id) == Ok(old(store)[id].(isValid := false))
      // availability is only ever switched off
      ensures NoRoomSwitchedOn(old(rooms), rooms)
      // it is switched off exactly when the record was alone in its room and year
      ensures id in old(store) ==>
        var rec := old(store)[id];
        (CountByRoomAndYear(store, rec.roomId, rec.year) < 2 <==> RoomYearIds(old(store), rec.roomId, rec.year) == {id})
      // cancelled records keep counting towards their room and year
      ensures CountsUnchanged(old(store), store)
      // cancelling never makes a valid reservation appear
      ensures NoValidAdded(old(store), store)
      ensures old(Valid()) ==> Valid()
      ensures old(InSync()) ==> InSync()
    {
      if id !in store {
        return Err(ReservationNotFound);
      }
      var reservation := store[id];
      reservation := reservation.(isValid := false);
      store := store[id := reservation];
      assert store == Invalidate(old(store), id);

      var roomId, year := reservation.roomId, reservation.year;
      var remaining := CountByRoomAndYear(store, roomId, year);
      // the availability update and the list update reach the same room entry
      var room := rooms[roomId];
      if remaining < 2 {
        room := room.(available := false);
      }

      var studentIds := students[reservation.studentId];
      students := students[reservation.studentId := RemoveFirst(studentIds, id)];
      assert students == old(students)[old(store)[id].studentId := RemoveFirst(old(students)[old(store)[id].studentId], id)];

      rooms := rooms[roomId := room.(reservationIds := RemoveFirst(room.reservationIds, id))];
      r := Ok(());
      assert rooms == old(rooms)[roomId := Room(RemoveFirst(old(rooms)[roomId].reservationIds, id), room.available)];

      RoomUpdateSwitchesNoneOn(old(rooms), roomId, rooms[roomId]);
      InvalidateEffects(old(store), id);
      assert old(InSync()) ==> InSync() by {
        if old(InSync()) {
          InvalidateKeepsStudentsInSync(old(store), old(students), id);
          InvalidateKeepsRoomsInSync(old(store), old(rooms), id, room.available);
        }
      }
    }

    /** Looks a reservation up by id. */
    function GetReservationById(id: ReservationId): (r: Result<Reservation>)
      reads this
      ensures r.Ok? <==> id in store
      ensures r.Err? ==> r.error == ReservationNotFound
      ensures r.Err? ==> r.error.IsNotFound() && !r.error.IsReservationException()
      ensures r.Ok? ==> r.value in store.Values
      ensures WellKeyed(store) && r.Ok? ==> r.value.id == id
    {
      if id in store then Ok(store[id]) else Err(ReservationNotFound)
    }

    /** All reservations of a student, valid or cancelled. */
    function GetReservationsByEtudiant(studentId: StudentId): (rs: set<Reservation>)
      reads this
      ensures forall r | r in rs :: r in store.Values && r.studentId == studentId
      ensures forall id | id in store && store[id].studentId == studentId :: store[id] in rs
    {
      FindByStudent(store, studentId)
    }

    /** The valid reservations of a room for an academic year; at most two while
        the invariant holds. */
    function GetReservationsByChambreAndAnnee(roomId: RoomId, year: Year): (rs: set<Reservation>)
      reads this
      ensures forall r | r in rs :: r in store.Values && r.roomId == roomId && r.year == year && r.isValid
      ensures forall id | id in store && store[id].roomId == roomId && store[id].year == year && store[id].isValid
                :: store[id] in rs
      ensures Valid() ==> |rs| <= 2
    {
      ValidByRoomAndYearAtMostTwo(store, roomId, year);
      FindValidByRoomAndYear(store, roomId, year)
    }
  }
}
