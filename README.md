# Reservation workflow of the student-housing service

A Dafny model of `ReservationServiceImpl`, the reservation workflow of a
student-housing ("foyer") microservice. The service keeps reservation records in
a repository. It looks students and rooms up in two directories that other
services own. It enforces two business rules:

- a student holds at most one valid reservation per academic year;
- a room holds at most two reservations per academic year.

Cancelling a reservation never deletes it: the record stays, with `estValide`
set to false.

The model is one class, `Services.ReservationService`, with three fields that
its methods update in place:

- `store`: the reservation repository, a map from reservation id to record;
- `students`: the student directory, a map from student id to that student's
  list of reservation ids;
- `rooms`: the room directory, a map from room id to the room's list of
  reservation ids and its availability flag.

`CreateReservation` and `CancelReservation` are methods. Each is proved against
pure functions of the store (`Repository.Insert`, `Repository.Invalidate`) and
against the lemmas about those functions. The three getters are functions over
the fields. Two properties are proved to be preserved by every operation:

- `Valid()`: the two business rules, plus every record being stored under its
  own id;
- `InSync()`: each directory list holds exactly the ids of that student's or
  that room's valid reservations, each id once.

Both are stated as `old(P()) ==> P()`. The service never demands them of its
callers. The directories can also change through other services.

Modules:

- `Entities` (entities.dfy): the record, the room entry, the error kinds.
- `IdLists` (idlists.dfy): `List.remove(Object)` on the directories' id lists.
- `Repository` (repository.dfy): the repository queries and writes, the
  invariants, and the lemmas about them.
- `DirectorySync` (sync.dfy): how the directory lists follow the store.
- `Services` (service.dfy): the service class.
- `Scenarios` (scenarios.dfy): clients that send concrete requests. Student 1
  reserves room 10 for 2024 and is refused room 20 for the same year. Student 2
  joins room 10, and student 3 is then refused it. Cancellations are shown for
  a reservation shared with another student and for a room's only
  reservation.

Type choices:

- Student and room ids are Java `Long`s, modelled as unbounded `int`s.
- The academic year is a `java.util.Date`. The workflow only compares it for
  equality, so it is modelled as an `int`.
- The random UUID of a new reservation is the parameter `freshId`. Its
  precondition is that the id is not yet in the store.

Counting rule. `countByChambreAndAnneeUniversitaire` (ReservationServiceImpl.java:54, :87)
has no validity filter, unlike the two finders at :49 and :119. The model
follows the code and counts every record of a room and year, cancelled ones
included. In particular, the count that `cancelReservation` takes after its
write still includes the record just cancelled. Because of this rule:

- the count taken in `cancelReservation` is never below 1;
- it is below 2 exactly when the cancelled record was the only one for its room
  and year (`Repository.CountBelowTwoIffSole`);
- cancelling one of two shared reservations leaves the availability flag alone
  (`Scenarios.CancelOneOfTwoScenario`);
- a cancelled record keeps taking one of the room's two places for that year
  (`Scenarios.CancelledStillCountsScenario`).

Cancellation only ever sets availability to false, never back to true. The
model keeps this behaviour (`DirectorySync.NoRoomSwitchedOn`).

Error kinds. The source raises five distinct messages from two exception
classes:

- the four refusals of `createReservation` (ReservationServiceImpl.java:40, :45,
  :51, :56) throw `ReservationException`;
- the two "Reservation not found" paths of `cancelReservation` and
  `getReservationById` (:79, :105) throw a plain `RuntimeException`.

`Entities.Error` has one constructor per message. `IsReservationException`
tells the two classes apart. `IsNotFound` and `IsConflict` group the failures
by meaning, across the two classes. The contract of `CreateReservation` states
that its refusals are `ReservationException`s: "not found" exactly when a
directory lacks the student or the room, and a conflict otherwise.

## Model

| member | source | states |
|---|---|---|
| `IdLists.FirstIndex` | src/main/java/tn/esprit/tpfoyer/services/ReservationServiceImpl.java:94 | the index returned holds the element, and no earlier position does: it is the first occurrence |
| `IdLists.RemoveFirst` | src/main/java/tn/esprit/tpfoyer/services/ReservationServiceImpl.java:94 | `List.remove(Object)`: exactly one copy of the element leaves the list if present (multiset less one copy, length less one); the list is unchanged if absent |
| `IdLists.RemoveFirstSplices` | src/main/java/tn/esprit/tpfoyer/services/ReservationServiceImpl.java:98 | removal cuts out exactly the first occurrence, and the elements before and after it keep their order |
| `Repository.Insert` | src/main/java/tn/esprit/tpfoyer/services/ReservationServiceImpl.java:59-66 | saving a new record: the store gains exactly that key, holding the record, and every earlier record is unchanged |
| `Repository.Invalidate` | src/main/java/tn/esprit/tpfoyer/services/ReservationServiceImpl.java:81-82 | cancelling keeps the record and all keys, changes only that record's validity flag, and leaves an already-cancelled store as it was |
| `Repository.CountByRoomAndYear` | src/main/java/tn/esprit/tpfoyer/services/ReservationServiceImpl.java:54 | `countByChambreAndAnneeUniversitaire`, also used at :87: counts every stored record of the room and year, cancelled ones included (no validity filter), so never more than the store holds |
| `Repository.HasValidForStudentAndYear` | src/main/java/tn/esprit/tpfoyer/services/ReservationServiceImpl.java:48-50 | the `...EstValideTrue` lookup followed by `isPresent()`: it holds exactly when one of the records `findByIdEtudiant` returns for the student is valid and for that year |
| `Repository.FindByStudent` | src/main/java/tn/esprit/tpfoyer/services/ReservationServiceImpl.java:109 | `findByIdEtudiant`: only stored records of that student, with no validity filter |
| `Repository.FindValidByRoomAndYear` | src/main/java/tn/esprit/tpfoyer/services/ReservationServiceImpl.java:118-119 | `findByIdChambreAndAnneeUniversitaireAndEstValideTrue`: only stored records of that room and year that are valid |
| `Repository.ValidFoundNoMoreThanCounted` | src/main/java/tn/esprit/tpfoyer/services/ReservationServiceImpl.java:54-57 | the count used by the capacity guard is never below the number of valid records the room's finder (:119) returns, since it also counts cancelled ones |
| `Repository.EmptyStoreInvariant` | src/main/java/tn/esprit/tpfoyer/services/ReservationServiceImpl.java:22 | an empty repository satisfies both business rules |
| `Repository.CountAfterInsert` | src/main/java/tn/esprit/tpfoyer/services/ReservationServiceImpl.java:54-66 | a save raises the count of its own room and year by one and leaves every other count unchanged |
| `Repository.CountAfterInvalidate` | src/main/java/tn/esprit/tpfoyer/services/ReservationServiceImpl.java:81-87 | cancelling changes no room/year count, because cancelled records are counted |
| `Repository.HasValidAfterInsert` | src/main/java/tn/esprit/tpfoyer/services/ReservationServiceImpl.java:48-66 | after a save, a student/year has a valid reservation if and only if it had one before or the saved record is one |
| `Repository.HasValidAfterInvalidate` | src/main/java/tn/esprit/tpfoyer/services/ReservationServiceImpl.java:48-52 | under one-valid-per-student-year, cancelling clears exactly the cancelled record's own student/year pair |
| `Repository.InsertPreservesInvariant` | src/main/java/tn/esprit/tpfoyer/services/ReservationServiceImpl.java:48-66 | when the two guards pass, saving the new record keeps at most one valid reservation per student/year and at most two records per room/year |
| `Repository.InvalidatePreservesInvariant` | src/main/java/tn/esprit/tpfoyer/services/ReservationServiceImpl.java:81-82 | cancelling keeps both business rules |
| `Repository.InvalidateEffects` | src/main/java/tn/esprit/tpfoyer/services/ReservationServiceImpl.java:81-91 | cancelling leaves all counts unchanged and adds no valid reservation; it frees the student for that year when the record was valid; the count is below 2 exactly when the record was alone in its room/year; the invariant is kept |
| `Repository.CountBelowTwoIffSole` | src/main/java/tn/esprit/tpfoyer/services/ReservationServiceImpl.java:87-91 | a stored record counts at least 1 for its room/year, and the count is below 2 if and only if that record is the only one there |
| `Repository.RoomYearIdsAfterInsert` | src/main/java/tn/esprit/tpfoyer/services/ReservationServiceImpl.java:59-66 | a save adds the new id to the ids of its own room and year, and to no other room/year |
| `Repository.FindByStudentAfterInsert` | src/main/java/tn/esprit/tpfoyer/services/ReservationServiceImpl.java:108-113 | after a create, a student's records are the previous ones plus the new record (only for that student) |
| `Repository.FindByStudentAfterInvalidate` | src/main/java/tn/esprit/tpfoyer/services/ReservationServiceImpl.java:108-113 | after a cancel, the student's records still include the record, now marked cancelled, and nothing else changes |
| `Repository.FindValidByRoomAndYearAfterInvalidate` | src/main/java/tn/esprit/tpfoyer/services/ReservationServiceImpl.java:117-123 | after a cancel, the valid records of a room/year are the previous ones less the cancelled record |
| `Repository.ValidByRoomAndYearAtMostTwo` | src/main/java/tn/esprit/tpfoyer/services/ReservationServiceImpl.java:117-123 | under the capacity rule, a room has at most two valid records per year |
| `DirectorySync.RoomUpdateSwitchesNoneOn` | src/main/java/tn/esprit/tpfoyer/services/ReservationServiceImpl.java:89-91 | rewriting a room entry without raising its flag makes no room available |
| `DirectorySync.AppendKeepsSync` | src/main/java/tn/esprit/tpfoyer/services/ReservationServiceImpl.java:67 | appending a new id to a list that holds exactly a set of ids gives a list that holds exactly the set plus that id |
| `DirectorySync.RemoveFirstKeepsSync` | src/main/java/tn/esprit/tpfoyer/services/ReservationServiceImpl.java:94 | removing the first occurrence of an id from such a list gives one that holds exactly the set less that id, whether or not the id was present |
| `DirectorySync.StudentIdsAfterInsert` | src/main/java/tn/esprit/tpfoyer/services/ReservationServiceImpl.java:66-67 | a valid new record adds its id to its own student's valid ids only |
| `DirectorySync.RoomIdsAfterInsert` | src/main/java/tn/esprit/tpfoyer/services/ReservationServiceImpl.java:66-70 | a valid new record adds its id to its own room's valid ids only |
| `DirectorySync.ValidIdsAfterInvalidate` | src/main/java/tn/esprit/tpfoyer/services/ReservationServiceImpl.java:81-82 | cancelling removes the id from every student's and every room's valid ids |
| `DirectorySync.InsertKeepsStudentsInSync` | src/main/java/tn/esprit/tpfoyer/services/ReservationServiceImpl.java:66-68 | appending the new id to the student's list keeps every student list equal to that student's valid ids |
| `DirectorySync.InsertKeepsRoomsInSync` | src/main/java/tn/esprit/tpfoyer/services/ReservationServiceImpl.java:66-71 | appending the new id to the room's list keeps every room list equal to that room's valid ids |
| `DirectorySync.InvalidateKeepsStudentsInSync` | src/main/java/tn/esprit/tpfoyer/services/ReservationServiceImpl.java:93-95 | removing the cancelled id from the student's list keeps every student list in sync |
| `DirectorySync.InvalidateKeepsRoomsInSync` | src/main/java/tn/esprit/tpfoyer/services/ReservationServiceImpl.java:97-99 | removing the cancelled id from the room's list keeps every room list in sync, whatever the availability flag becomes |
| `Services.ReservationService.constructor` | src/main/java/tn/esprit/tpfoyer/services/ReservationServiceImpl.java:18-24 | the service starts from the given repository and directories |
| `Services.ReservationService.CreateReservation` | src/main/java/tn/esprit/tpfoyer/services/ReservationServiceImpl.java:37-75 | the four guards run in source order: student missing, room missing, student already reserved, room/year count at least 2. Every refusal is a `ReservationException`: "not found" exactly when a directory lacks the student or the room, a conflict otherwise. A refusal changes nothing. Success inserts the fresh valid record and returns it, appends its id to the end of the student's and the room's lists, and leaves other entries and every availability flag unchanged. Afterwards the student has a valid reservation for the year and the room/year count is one higher. Both invariants are preserved |
| `Services.ReservationService.CancelReservation` | src/main/java/tn/esprit/tpfoyer/services/ReservationServiceImpl.java:77-101 | an unknown id gives "not found" and changes nothing. Otherwise the store becomes `Invalidate`, and the record is still returned by `GetReservationById`, now cancelled. The first occurrence of the id leaves the student's and the room's lists. The room is marked unavailable exactly when the count after the write is below 2 (exactly when the record was alone in its room and year), and no room is switched on. Counts are unchanged and no valid reservation appears. Both invariants are preserved |
| `Services.ReservationService.GetReservationById` | src/main/java/tn/esprit/tpfoyer/services/ReservationServiceImpl.java:103-106 | succeeds exactly when the id is stored, with a stored record carrying that id; otherwise "not found", raised as a plain `RuntimeException` rather than a `ReservationException` |
| `Services.ReservationService.GetReservationsByEtudiant` | src/main/java/tn/esprit/tpfoyer/services/ReservationServiceImpl.java:108-114 | exactly the stored records of the student, valid or cancelled |
| `Services.ReservationService.GetReservationsByChambreAndAnnee` | src/main/java/tn/esprit/tpfoyer/services/ReservationServiceImpl.java:117-124 | exactly the stored valid records of the room and year; at most two of them while the invariant holds |
| `Scenarios.StudentConflictScenario` | src/main/java/tn/esprit/tpfoyer/services/ReservationServiceImpl.java:48-52 | a student who reserved a room for a year is refused a second room that year, and their list holds the one id |
| `Scenarios.JoinRoomScenario` | src/main/java/tn/esprit/tpfoyer/services/ReservationServiceImpl.java:54-71 | a second student joins a room with one record, and the room list gets the id at its end |
| `Scenarios.RoomFullScenario` | src/main/java/tn/esprit/tpfoyer/services/ReservationServiceImpl.java:54-57 | a third student is refused a room holding two records for the year, and nothing changes |
| `Scenarios.CancelOneOfTwoScenario` | src/main/java/tn/esprit/tpfoyer/services/ReservationServiceImpl.java:77-106 | after cancelling one of two shared reservations, the record is still found, marked cancelled; it has left both lists; the room stays available |
| `Scenarios.CancelledStillCountsScenario` | src/main/java/tn/esprit/tpfoyer/services/ReservationServiceImpl.java:48-57 | the cancelled record still fills a place, so a third student is refused; the cancelling student may book again that year |
| `Scenarios.CancelSoleScenario` | src/main/java/tn/esprit/tpfoyer/services/ReservationServiceImpl.java:87-99 | cancelling the only reservation of a room and year marks the room unavailable and empties its list |

## Left out

- The Feign clients `EtudiantClient` and `ChambreClient` and the JPA
  `ReservationRepository` are remote and persistence calls. They are modelled
  only as the maps `students`, `rooms` and `store`. Network failures are not
  modelled, and neither is the missing compensation when a directory update
  fails after the store write.
- Concurrency is not modelled: operations run one at a time. The
  check-then-act race between two concurrent creates is therefore outside the
  model.
- `java.util.UUID.randomUUID()` is the parameter `freshId` of
  `CreateReservation`, which requires it to be absent from the store.
- `java.util.Date` is modelled as an `int` academic year, compared only for
  equality.
- `convertToDto` and the `forEach(this::convertToDto)` calls in the two list
  getters are not modelled. Their results are discarded, so they have no
  effect.
- The list getters return sets. The order of the repository's result lists is
  not modelled.
- `Services.ReservationService.CancelReservation`: when the record's student or
  room is missing from its directory, the source dereferences null. The model
  instead requires both to exist when the id is stored.
- `Services.ReservationService.CancelReservation` writes the availability flag
  and the room's id list to the room entry in one map update. The source makes
  two writes to the room directory (:90, :99) and re-reads the room with
  `getChambreById` (:97) between them. Without concurrent changes the final
  state is the same.
- The exception classes are not modelled as types. `Entities.Error` keeps the
  message and whether it is a `ReservationException` or a plain
  `RuntimeException`. It does not model what a caller catching one class
  catches: whether `ReservationException` extends `RuntimeException` is
  defined outside this model.
- src/test/java/service/EtudiantServiceImplTest.java exercises a student CRUD
  service that is not part of this model.
