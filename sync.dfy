/** The student and room directories each hold a list of reservation ids that the
    workflow keeps in step with the store: a student's list holds the ids of the
    student's valid reservations, a room's list those of the room's valid
    reservations (all years), each exactly once. The directories belong to other
    services, so this is a property the workflow preserves, not one it can rely on. */
module DirectorySync {
  import opened Entities
  import opened Repository
  import opened IdLists

  type StudentDirectory = map<StudentId, seq<ReservationId>>
  type RoomDirectory = map<RoomId, Room>

  /** Ids of the valid reservations of a student. */
  function ValidIdsOfStudent(store: Store, student: StudentId): set<ReservationId> {
    set id | id in store && store[id].studentId == student && store[id].isValid
  }

  /** Ids of the valid reservations of a room, over all years. */
  function ValidIdsOfRoom(store: Store, room: RoomId): set<ReservationId> {
    set id | id in store && store[id].roomId == room && store[id].isValid
  }

  /** No room becomes available: the room directory keeps its rooms, and every
      room available afterwards was available before. */
  ghost predicate NoRoomSwitchedOn(before: RoomDirectory, after: RoomDirectory) {
    after.Keys == before.Keys && forall c | c in after :: after[c].available ==> before[c].available
  }

  /** Rewriting one room's entry, with availability at most kept, switches no room on. */
  lemma RoomUpdateSwitchesNoneOn(rooms: RoomDirectory, c: RoomId, entry: Room)
    requires c in rooms && (entry.available ==> rooms[c].available)
    ensures NoRoomSwitchedOn(rooms, rooms[c := entry])
  {
    assert rooms[c := entry].Keys == rooms.Keys;
  }

  /** A list holds exactly the ids of a set, each once. */
  ghost predicate ListsExactly(list: seq<ReservationId>, ids: set<ReservationId>) {
    multiset(list) == multiset(ids)
  }

  ghost predicate StudentsInSync(store: Store, students: StudentDirectory) {
    forall s | s in students :: ListsExactly(students[s], ValidIdsOfStudent(store, s))
  }

  ghost predicate RoomsInSync(store: Store, rooms: RoomDirectory) {
    forall c | c in rooms :: ListsExactly(rooms[c].reservationIds, ValidIdsOfRoom(store, c))
  }

  /** Appending a new id to a list in sync puts the list in sync with the grown set. */
  lemma AppendKeepsSync(list: seq<ReservationId>, ids: set<ReservationId>, x: ReservationId)
    requires ListsExactly(list, ids) && x !in ids
    ensures ListsExactly(list + [x], ids + {x})
  {
    assert multiset(ids + {x}) == multiset(ids) + multiset{x};
  }

  /** Removing the first occurrence of an id from a list in sync puts the list in
      sync with the set less that id, whether or not the id was there. */
  lemma RemoveFirstKeepsSync(list: seq<ReservationId>, ids: set<ReservationId>, x: ReservationId)
    requires ListsExactly(list, ids)
    ensures ListsExactly(RemoveFirst(list, x), ids - {x})
  {
    if x in ids {
      assert ids == (ids - {x}) + {x};
      assert multiset(ids) == multiset(ids - {x}) + multiset{x};
    } else {
      assert ids - {x} == ids;
    }
  }

  lemma StudentIdsAfterInsert(store: Store, rec: Reservation, student: StudentId)
    requires rec.id !in store && rec.isValid
    ensures ValidIdsOfStudent(Insert(store, rec), student)
         == ValidIdsOfStudent(store, student) + (if rec.studentId == student then {rec.id} else {})
  {
    var after := Insert(store, rec);
    forall id | id in after
      ensures (id in ValidIdsOfStudent(after, student))
          <==> (id in ValidIdsOfStudent(store, student) || (id == rec.id && rec.studentId == student))
    {
      if id != rec.id {
        assert after[id] == store[id];
      }
    }
  }

  lemma RoomIdsAfterInsert(store: Store, rec: Reservation, room: RoomId)
    requires rec.id !in store && rec.isValid
    ensures ValidIdsOfRoom(Insert(store, rec), room)
         == ValidIdsOfRoom(store, room) + (if rec.roomId == room then {rec.id} else {})
  {
    var after := Insert(store, rec);
    forall id | id in after
      ensures (id in ValidIdsOfRoom(after, room))
          <==> (id in ValidIdsOfRoom(store, room) || (id == rec.id && rec.roomId == room))
    {
      if id != rec.id {
        assert after[id] == store[id];
      }
    }
  }

  lemma ValidIdsAfterInvalidate(store: Store, id: ReservationId, student: StudentId, room: RoomId)
    requires id in store
    ensures ValidIdsOfStudent(Invalidate(store, id), student) == ValidIdsOfStudent(store, student) - {id}
    ensures ValidIdsOfRoom(Invalidate(store, id), room) == ValidIdsOfRoom(store, room) - {id}
  {
  }

  /** The create step keeps the student directory in sync: the new valid
      record's id is appended to its student's list. */
  lemma InsertKeepsStudentsInSync(store: Store, students: StudentDirectory, rec: Reservation)
    requires rec.id !in store && rec.isValid && rec.studentId in students
    requires StudentsInSync(store, students)
    ensures StudentsInSync(Insert(store, rec), students[rec.studentId := students[rec.studentId] + [rec.id]])
  {
    var after := Insert(store, rec);
    var students' := students[rec.studentId := students[rec.studentId] + [rec.id]];
    forall s | s in students' ensures ListsExactly(students'[s], ValidIdsOfStudent(after, s)) {
      StudentIdsAfterInsert(store, rec, s);
      if s == rec.studentId {
        AppendKeepsSync(students[s], ValidIdsOfStudent(store, s), rec.id);
      }
    }
  }

  /** The create step keeps the room directory in sync: the new valid record's id
      is appended to its room's list. */
  lemma InsertKeepsRoomsInSync(store: Store, rooms: RoomDirectory, rec: Reservation)
    requires rec.id !in store && rec.isValid && rec.roomId in rooms
    requires RoomsInSync(store, rooms)
    ensures RoomsInSync(Insert(store, rec),
                        rooms[rec.roomId := rooms[rec.roomId].(reservationIds := rooms[rec.roomId].reservationIds + [rec.id])])
  {
    var after := Insert(store, rec);
    var rooms' := rooms[rec.roomId := rooms[rec.roomId].(reservationIds := rooms[rec.roomId].reservationIds + [rec.id])];
    forall c | c in rooms' ensures ListsExactly(rooms'[c].reservationIds, ValidIdsOfRoom(after, c)) {
      RoomIdsAfterInsert(store, rec, c);
      if c == rec.roomId {
        AppendKeepsSync(rooms[c].reservationIds, ValidIdsOfRoom(store, c), rec.id);
      }
    }
  }

  /** The cancel step keeps the student directory in sync: the cancelled id
      leaves its student's list. */
  lemma InvalidateKeepsStudentsInSync(store: Store, students: StudentDirectory, id: ReservationId)
    requires id in store && store[id].studentId in students
    requires StudentsInSync(store, students)
    ensures StudentsInSync(Invalidate(store, id),
                           students[store[id].studentId := RemoveFirst(students[store[id].studentId], id)])
  {
    var after, st := Invalidate(store, id), store[id].studentId;
    var students' := students[st := RemoveFirst(students[st], id)];
    forall s | s in students' ensures ListsExactly(students'[s], ValidIdsOfStudent(after, s)) {
      ValidIdsAfterInvalidate(store, id, s, store[id].roomId);
      if s == st {
        RemoveFirstKeepsSync(students[s], ValidIdsOfStudent(store, s), id);
      } else {
        assert id !in ValidIdsOfStudent(store, s);
      }
    }
  }

  /** The cancel step keeps the room directory in sync: the cancelled id leaves
      its room's list, whatever becomes of the room's availability flag. */
  lemma InvalidateKeepsRoomsInSync(store: Store, rooms: RoomDirectory, id: ReservationId, available: bool)
    requires id in store && store[id].roomId in rooms
    requires RoomsInSync(store, rooms)
    ensures RoomsInSync(Invalidate(store, id),
                        rooms[store[id].roomId := Room(RemoveFirst(rooms[store[id].roomId].reservationIds, id), available)])
  {
    var after, c0 := Invalidate(store, id), store[id].roomId;
    var rooms' := rooms[c0 := Room(RemoveFirst(rooms[c0].reservationIds, id), available)];
    forall c | c in rooms' ensures ListsExactly(rooms'[c].reservationIds, ValidIdsOfRoom(after, c)) {
      ValidIdsAfterInvalidate(store, id, store[id].studentId, c);
      if c == c0 {
        RemoveFirstKeepsSync(rooms[c].reservationIds, ValidIdsOfRoom(store, c), id);
      } else {
        assert id !in ValidIdsOfRoom(store, c);
      }
    }
  }
}
