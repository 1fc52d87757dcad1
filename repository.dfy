/** The reservation repository: the records of the store, the derived queries the
    service asks of it, the two writes it performs, and the two business
    invariants the workflow maintains over it. */
module Repository {
  import opened Entities

  /** The reservation store, keyed by reservation id. */
  type Store = map<ReservationId, Reservation>

  /** `save` keys each record by its own id. */
  ghost predicate WellKeyed(store: Store) {
    forall id | id in store :: store[id].id == id
  }

  /** Ids of the records, valid or cancelled, for a room and a year. */
  function RoomYearIds(store: Store, room: RoomId, year: Year): set<ReservationId> {
    set id | id in store && store[id].roomId == room && store[id].year == year
  }

  /** `countByChambreAndAnneeUniversitaire`: the query has no validity filter,
      so cancelled records are counted too, and the count is never below the
      number of valid records the room's finder returns. */
  function CountByRoomAndYear(store: Store, room: RoomId, year: Year): (n: nat)
    ensures n <= |store|
  {
    var ids := RoomYearIds(store, room, year);
    SubsetNoLarger(ids, store.Keys);
    |ids|
  }

  /** Whether `findByIdEtudiantAndAnneeUniversitaireAndEstValideTrue` finds a
      record: exactly when one of the student's records is valid for the year. */
  predicate HasValidForStudentAndYear(store: Store, student: StudentId, year: Year): (b: bool)
    ensures b <==> exists r | r in FindByStudent(store, student) :: r.year == year && r.isValid
  {
    exists id | id in store :: store[id].studentId == student && store[id].year == year && store[id].isValid
  }

  /** `findByIdEtudiant`: every stored record of a student, whatever its validity. */
  function FindByStudent(store: Store, student: StudentId): (rs: set<Reservation>)
    ensures forall r | r in rs :: r in store.Values && r.studentId == student
  {
    set id | id in store && store[id].studentId == student :: store[id]
  }

  /** `findByIdChambreAndAnneeUniversitaireAndEstValideTrue`: the stored valid
      records of a room and year. */
  function FindValidByRoomAndYear(store: Store, room: RoomId, year: Year): (rs: set<Reservation>)
    ensures forall r | r in rs :: r in store.Values && r.roomId == room && r.year == year && r.isValid
  {
    set id | id in store && store[id].roomId == room && store[id].year == year && store[id].isValid :: store[id]
  }

  /** `save` of a record whose id is new to the store. */
  function Insert(store: Store, rec: Reservation): (r: Store)
    requires rec.id !in store
    ensures r.Keys == store.Keys + {rec.id} && |r| == |store| + 1
    ensures r[rec.id] == rec
    ensures forall id | id in store :: r[id] == store[id]
  {
    store[rec.id := rec]
  }

  /** `setEstValide(false)` on a stored record, then `save`: the record is kept. */
  function Invalidate(store: Store, id: ReservationId): (r: Store)
    requires id in store
    ensures r.Keys == store.Keys
    ensures r[id] == store[id].(isValid := false)
    ensures forall j | j in store && j != id :: r[j] == store[j]
    ensures !store[id].isValid ==> r == store
  {
    store[id := store[id].(isValid := false)]
  }

  /** At most one valid reservation per student and academic year. */
  ghost predicate AtMostOneValidPerStudentYear(store: Store) {
    forall i, j | i in store && j in store ::
      (store[i].isValid && store[j].isValid &&
       store[i].studentId == store[j].studentId && store[i].year == store[j].year) ==> i == j
  }

  /** At most two records per room and academic year. */
  ghost predicate WithinRoomCapacity(store: Store) {
    forall room, year :: CountByRoomAndYear(store, room, year) <= 2
  }

  ghost predicate Invariant(store: Store) {
    WellKeyed(store) && AtMostOneValidPerStudentYear(store) && WithinRoomCapacity(store)
  }

  /** Every (room, year) count is the same in both stores. */
  ghost predicate CountsUnchanged(before: Store, after: Store) {
    forall room, year :: CountByRoomAndYear(after, room, year) == CountByRoomAndYear(before, room, year)
  }

  /** No (student, year) pair gains a valid reservation. */
  ghost predicate NoValidAdded(before: Store, after: Store) {
    forall student, year ::
      HasValidForStudentAndYear(after, student, year) ==> HasValidForStudentAndYear(before, student, year)
  }

  /** The empty store satisfies the invariant. */
  lemma EmptyStoreInvariant()
    ensures Invariant(map[])
  {
    forall room, year ensures CountByRoomAndYear(map[], room, year) <= 2 {
      assert RoomYearIds(map[], room, year) == {};
    }
  }

  /** Inserting a record adds one to the count of its own room and year and
      leaves every other count unchanged. */
  lemma CountAfterInsert(store: Store, rec: Reservation, room: RoomId, year: Year)
    requires rec.id !in store
    ensures CountByRoomAndYear(Insert(store, rec), room, year)
         == CountByRoomAndYear(store, room, year) + (if rec.roomId == room && rec.year == year then 1 else 0)
  {
    RoomYearIdsAfterInsert(store, rec, room, year);
    assert rec.id !in RoomYearIds(store, room, year);
  }

  /** A save adds the new id to the ids of its own room and year only. */
  lemma RoomYearIdsAfterInsert(store: Store, rec: Reservation, room: RoomId, year: Year)
    requires rec.id !in store
    ensures RoomYearIds(Insert(store, rec), room, year)
         == RoomYearIds(store, room, year) + (if rec.roomId == room && rec.year == year then {rec.id} else {})
  {
    var after := Insert(store, rec);
    var before := RoomYearIds(store, room, year);
    var added := if rec.roomId == room && rec.year == year then {rec.id} else {};
    forall id | id in RoomYearIds(after, room, year) ensures id in before + added {
      if id != rec.id {
        assert after[id] == store[id];
      }
    }
    forall id | id in before ensures id in RoomYearIds(after, room, year) {
      assert after[id] == store[id];
    }
    assert rec.id in after && after[rec.id] == rec;
  }



  /** Cancelling a record changes no count: cancelled records still count. */
  lemma CountAfterInvalidate(store: Store, id: ReservationId, room: RoomId, year: Year)
    requires id in store
    ensures CountByRoomAndYear(Invalidate(store, id), room, year) == CountByRoomAndYear(store, room, year)
  {
    assert RoomYearIds(Invalidate(store, id), room, year) == RoomYearIds(store, room, year);
  }

  /** After an insert, a student has a valid reservation for a year exactly when
      they had one before or the inserted record is one. */
  lemma HasValidAfterInsert(store: Store, rec: Reservation, student: StudentId, year: Year)
    requires rec.id !in store
    ensures HasValidForStudentAndYear(Insert(store, rec), student, year)
        <==> HasValidForStudentAndYear(store, student, year)
             || (rec.isValid && rec.studentId == student && rec.year == year)
  {
    var after := Insert(store, rec);
    if HasValidForStudentAndYear(after, student, year) {
      var id :| id in after && after[id].studentId == student && after[id].year == year && after[id].isValid;
      if id != rec.id {
        assert store[id] == after[id];
      }
    }
    if HasValidForStudentAndYear(store, student, year) {
      var id :| id in store && store[id].studentId == student && store[id].year == year && store[id].isValid;
      assert after[id] == store[id];
    }
    if rec.isValid && rec.studentId == student && rec.year == year {
      assert after[rec.id] == rec;
    }
  }

  /** With at most one valid reservation per student and year, cancelling a
      record clears exactly its own (student, year) pair. */
  lemma HasValidAfterInvalidate(store: Store, id: ReservationId, student: StudentId, year: Year)
    requires id in store && AtMostOneValidPerStudentYear(store)
    ensures HasValidForStudentAndYear(Invalidate(store, id), student, year)
        <==> HasValidForStudentAndYear(store, student, year)
             && !(store[id].isValid && store[id].studentId == student && store[id].year == year)
  {
    var after := Invalidate(store, id);
    if HasValidForStudentAndYear(after, student, year) {
      var j :| j in after && after[j].studentId == student && after[j].year == year && after[j].isValid;
      assert j != id && after[j] == store[j];
    }
    if HasValidForStudentAndYear(store, student, year)
       && !(store[id].isValid && store[id].studentId == student && store[id].year == year) {
      var j :| j in store && store[j].studentId == student && store[j].year == year && store[j].isValid;
      assert j != id && after[j] == store[j];
    }
  }

  /** The guards of the create operation are what keeps the invariant: a record
      whose student has no valid reservation for its year, and whose room and
      year have fewer than two records, can be inserted. */
  lemma InsertPreservesInvariant(store: Store, rec: Reservation)
    requires Invariant(store) && rec.id !in store
    requires !HasValidForStudentAndYear(store, rec.studentId, rec.year)
    requires CountByRoomAndYear(store, rec.roomId, rec.year) < 2
    ensures Invariant(Insert(store, rec))
  {
    var after := Insert(store, rec);
    forall room, year ensures CountByRoomAndYear(after, room, year) <= 2 {
      CountAfterInsert(store, rec, room, year);
    }
  }

  /** Cancelling a record keeps the invariant. */
  lemma InvalidatePreservesInvariant(store: Store, id: ReservationId)
    requires Invariant(store) && id in store
    ensures Invariant(Invalidate(store, id))
  {
    var after := Invalidate(store, id);
    forall room, year ensures CountByRoomAndYear(after, room, year) <= 2 {
      CountAfterInvalidate(store, id, room, year);
    }
  }

  /** What a cancellation does to the store, as the service relies on it. */
  lemma InvalidateEffects(store: Store, id: ReservationId)
    requires id in store
    ensures CountsUnchanged(store, Invalidate(store, id))
    ensures NoValidAdded(store, Invalidate(store, id))
    ensures AtMostOneValidPerStudentYear(store) && store[id].isValid ==>
              !HasValidForStudentAndYear(Invalidate(store, id), store[id].studentId, store[id].year)
    ensures CountByRoomAndYear(Invalidate(store, id), store[id].roomId, store[id].year) < 2
        <==> RoomYearIds(store, store[id].roomId, store[id].year) == {id}
    ensures Invariant(store) ==> Invariant(Invalidate(store, id))
  {
    var after := Invalidate(store, id);
    forall room, year ensures CountByRoomAndYear(after, room, year) == CountByRoomAndYear(store, room, year) {
      CountAfterInvalidate(store, id, room, year);
    }
    forall student, year | HasValidForStudentAndYear(after, student, year)
      ensures HasValidForStudentAndYear(store, student, year)
    {
      var j :| j in after && after[j].studentId == student && after[j].year == year && after[j].isValid;
      assert store[j] == after[j];
    }
    if AtMostOneValidPerStudentYear(store) && store[id].isValid {
      HasValidAfterInvalidate(store, id, store[id].studentId, store[id].year);
    }
    CountBelowTwoIffSole(store, id);
    if Invariant(store) {
      InvalidatePreservesInvariant(store, id);
    }
  }

  /** A stored record counts towards its own room and year; the count is below
      two exactly when the record is the only one for that room and year. */
  lemma CountBelowTwoIffSole(store: Store, id: ReservationId)
    requires id in store
    ensures CountByRoomAndYear(store, store[id].roomId, store[id].year) >= 1
    ensures CountByRoomAndYear(store, store[id].roomId, store[id].year) < 2
        <==> RoomYearIds(store, store[id].roomId, store[id].year) == {id}
  {
    var ids := RoomYearIds(store, store[id].roomId, store[id].year);
    assert id in ids;
    if |ids| < 2 {
      assert ids - {id} == {} by {
        assert |ids - {id}| == |ids| - 1;
      }
    }
  }

  /** `findByIdEtudiant` after an insert: the new record joins its student's records. */
  lemma FindByStudentAfterInsert(store: Store, rec: Reservation, student: StudentId)
    requires rec.id !in store
    ensures FindByStudent(Insert(store, rec), student)
         == FindByStudent(store, student) + (if rec.studentId == student then {rec} else {})
  {
    var after := Insert(store, rec);
    assert after[rec.id] == rec;
    forall r | r in FindByStudent(after, student)
      ensures r in FindByStudent(store, student) + (if rec.studentId == student then {rec} else {})
    {
      var id :| id in after && after[id].studentId == student && after[id] == r;
      if id != rec.id {
        assert store[id] == r;
      }
    }
    forall r | r in FindByStudent(store, student) ensures r in FindByStudent(after, student) {
      var id :| id in store && store[id].studentId == student && store[id] == r;
      assert after[id] == r;
    }
  }

  /** `findByIdEtudiant` after a cancellation: the cancelled record is still
      returned, now with its validity flag false. */
  lemma FindByStudentAfterInvalidate(store: Store, id: ReservationId)
    requires WellKeyed(store) && id in store
    ensures FindByStudent(Invalidate(store, id), store[id].studentId)
         == FindByStudent(store, store[id].studentId) - {store[id]} + {store[id].(isValid := false)}
  {
    var after, student := Invalidate(store, id), store[id].studentId;
    forall r | r in FindByStudent(after, student)
      ensures r in FindByStudent(store, student) - {store[id]} + {store[id].(isValid := false)}
    {
      var j :| j in after && after[j].studentId == student && after[j] == r;
      if j != id {
        assert store[j] == r && r.id == j;
      }
    }
    forall r | r in FindByStudent(store, student) - {store[id]}
      ensures r in FindByStudent(after, student)
    {
      var j :| j in store && store[j].studentId == student && store[j] == r;
      assert j != id && after[j] == r;
    }
    assert after[id] in FindByStudent(after, student);
  }

  /** `findByIdChambreAndAnneeUniversitaireAndEstValideTrue` after a
      cancellation: the cancelled record is no longer returned. */
  lemma FindValidByRoomAndYearAfterInvalidate(store: Store, id: ReservationId, room: RoomId, year: Year)
    requires WellKeyed(store) && id in store
    ensures FindValidByRoomAndYear(Invalidate(store, id), room, year)
         == FindValidByRoomAndYear(store, room, year) - {store[id]}
  {
    var after := Invalidate(store, id);
    forall r | r in FindValidByRoomAndYear(after, room, year)
      ensures r in FindValidByRoomAndYear(store, room, year) - {store[id]}
    {
      var j :| j in after && after[j].roomId == room && after[j].year == year && after[j].isValid && after[j] == r;
      assert j != id && store[j] == r && r.id == j;
    }
    forall r | r in FindValidByRoomAndYear(store, room, year) - {store[id]}
      ensures r in FindValidByRoomAndYear(after, room, year)
    {
      var j :| j in store && store[j].roomId == room && store[j].year == year && store[j].isValid && store[j] == r;
      assert j != id && after[j] == r;
    }
  }

  /** The records stored under a set of ids. */
  function Image(store: Store, ids: set<ReservationId>): set<Reservation>
    requires ids <= store.Keys
  {
    set id | id in ids :: store[id]
  }

  /** There are no more records under a set of ids than there are ids. */
  lemma {:induction false} ImageNoLarger(store: Store, ids: set<ReservationId>)
    requires ids <= store.Keys
    ensures |Image(store, ids)| <= |ids|
  {
    if ids != {} {
      var x :| x in ids;
      var rest := ids - {x};
      ImageNoLarger(store, rest);
      assert Image(store, ids) == Image(store, rest) + {store[x]};
    } else {
      assert Image(store, ids) == {};
    }
  }

  /** The count covers cancelled records as well as valid ones, so the valid
      records the room's finder returns never outnumber it. */
  lemma ValidFoundNoMoreThanCounted(store: Store, room: RoomId, year: Year)
    ensures |FindValidByRoomAndYear(store, room, year)| <= CountByRoomAndYear(store, room, year)
  {
    var ids := RoomYearIds(store, room, year);
    ImageNoLarger(store, ids);
    SubsetNoLarger(FindValidByRoomAndYear(store, room, year), Image(store, ids));
  }

  /** Under the invariant, a room never has more than two valid reservations for a year. */
  lemma ValidByRoomAndYearAtMostTwo(store: Store, room: RoomId, year: Year)
    ensures WithinRoomCapacity(store) ==> |FindValidByRoomAndYear(store, room, year)| <= 2
  {
    ValidFoundNoMoreThanCounted(store, room, year);
  }

  lemma SubsetNoLarger<T>(a: set<T>, b: set<T>)
    requires a <= b
    ensures |a| <= |b|
  {
    assert b == a + (b - a);
  }
}
