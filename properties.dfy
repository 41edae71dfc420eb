/** Properties of the lifecycle that relate several operations: keys count
    up, a reservation converts once, the foreign keys survive every step, a
    late rental can never be returned (so the overdue count never grows), and
    a worked reserve-convert-return sequence. */
module Properties {
  import opened Tables
  import opened Text
  import opened Lifecycle

  // ---------------------------------------------------------------------
  // Keys

  /** One reservation request as the reservation tab submits it. */
  datatype Request = Request(studentId: int, equipmentId: int, period: int)

  /** The requests reserved one after the other on the same day: the final
      tables and each call's result, in order. */
  function ReserveAll(db: Db, reqs: seq<Request>, today: int): (r: (Db, seq<Result<int>>))
    ensures |r.1| == |reqs|
    decreases |reqs|
  {
    if reqs == [] then (db, [])
    else
      var s := Reserve(db, reqs[0].studentId, reqs[0].equipmentId, reqs[0].period, today);
      var rest := ReserveAll(s.db, reqs[1..], today);
      (rest.0, [s.result] + rest.1)
  }

  /** One reservation on a table whose keys are 3001..3000+n. */
  lemma ReserveNextId(db: Db, req: Request, today: int, n: nat)
    requires db.reservations.Keys == IdRange(RESERVATION_BASE, n)
    requires req.studentId in db.students && req.equipmentId in db.equipment
    ensures var s := Reserve(db, req.studentId, req.equipmentId, req.period, today);
      && s.result == Success(RESERVATION_BASE + n + 1)
      && s.db.reservations.Keys == IdRange(RESERVATION_BASE, n + 1)
      && s.db.students.Keys == db.students.Keys
      && s.db.equipment.Keys == db.equipment.Keys
  {
    NextIdAfterRange(RESERVATION_BASE, n);
  }

  /** Success(first), Success(first + 1), ..., len results in all. */
  function CountUp(first: int, len: nat): (r: seq<Result<int>>)
    ensures |r| == len
    ensures forall i :: 0 <= i < len ==> r[i] == Success(first + i)
    decreases len
  {
    if len == 0 then [] else [Success(first)] + CountUp(first + 1, len - 1)
  }

  /** Reservations made one after another on a table whose keys are
      3001..3000+n leave the keys 3001..3000+n+N after N of them. */
  lemma {:induction false} ReservationKeysCountUp(db: Db, reqs: seq<Request>, today: int, n: nat)
    requires db.reservations.Keys == IdRange(RESERVATION_BASE, n)
    requires forall q :: q in reqs ==> q.studentId in db.students && q.equipmentId in db.equipment
    ensures ReserveAll(db, reqs, today).0.reservations.Keys == IdRange(RESERVATION_BASE, n + |reqs|)
    decreases |reqs|
  {
    if reqs != [] {
      var first, tail := reqs[0], reqs[1..];
      var s := Reserve(db, first.studentId, first.equipmentId, first.period, today);
      ReserveNextId(db, first, today, n);
      forall q | q in tail ensures q.studentId in s.db.students && q.equipmentId in s.db.equipment {
        assert q in reqs;
      }
      ReservationKeysCountUp(s.db, tail, today, n + 1);
      ReserveAllUnfold(db, reqs, today);
    }
  }

  /** ... and the reservations receive 3001+n, 3002+n, ... in order; from an
      empty table the k-th reservation gets 3000+k. */
  lemma {:induction false} ReservationIdsCountUp(db: Db, reqs: seq<Request>, today: int, n: nat)
    requires db.reservations.Keys == IdRange(RESERVATION_BASE, n)
    requires forall q :: q in reqs ==> q.studentId in db.students && q.equipmentId in db.equipment
    ensures ReserveAll(db, reqs, today).1 == CountUp(RESERVATION_BASE + n + 1, |reqs|)
    decreases |reqs|
  {
    if reqs != [] {
      var first, tail := reqs[0], reqs[1..];
      var s := Reserve(db, first.studentId, first.equipmentId, first.period, today);
      ReserveNextId(db, first, today, n);
      forall q | q in tail ensures q.studentId in s.db.students && q.equipmentId in s.db.equipment {
        assert q in reqs;
      }
      ReservationIdsCountUp(s.db, tail, today, n + 1);
      ReserveAllUnfold(db, reqs, today);
    }
  }

  lemma ReserveAllUnfold(db: Db, reqs: seq<Request>, today: int)
    requires reqs != []
    ensures var s := Reserve(db, reqs[0].studentId, reqs[0].equipmentId, reqs[0].period, today);
      var rest := ReserveAll(s.db, reqs[1..], today);
      ReserveAll(db, reqs, today) == (rest.0, [s.result] + rest.1)
  {
  }

  /** The same for rentals: converting on a rental table whose keys are
      4001..4000+n yields rental 4001+n, and the keys become 4001..4001+n. */
  lemma RentalIdsCountUp(db: Db, reservationId: int, today: int, n: nat)
    requires db.rentals.Keys == IdRange(RENTAL_BASE, n)
    requires Convert(db, reservationId, today).result.Success?
    ensures Convert(db, reservationId, today).result.value == RENTAL_BASE + n + 1
    ensures Convert(db, reservationId, today).db.rentals.Keys == IdRange(RENTAL_BASE, n + 1)
  {
    NextIdAfterRange(RENTAL_BASE, n);
  }

  // ---------------------------------------------------------------------
  // One conversion per reservation

  /** A converted reservation is In Progress, so converting it again fails
      and leaves every table as it was. */
  lemma ConvertTwiceFails(db: Db, reservationId: int, today: int, later: int)
    requires Convert(db, reservationId, today).result.Success?
    ensures var s := Convert(db, reservationId, today);
      Convert(s.db, reservationId, later) == Step(s.db, Failure(ReservationNotFound))
  {
    var s := Convert(db, reservationId, today);
    assert s.db.reservations[reservationId].status == InProgress;
  }

  // ---------------------------------------------------------------------
  // Foreign keys

  /** Under the schema's foreign keys a conversion never trips over a
      missing student or equipment row: it fails only for a reservation that
      is missing or not Pending. */
  lemma ConvertFailsOnlyWhenNotPending(db: Db, reservationId: int, today: int)
    requires Integrity(db)
    ensures Convert(db, reservationId, today).result.Failure? <==> !IsPending(db, reservationId)
  {
    if IsPending(db, reservationId) {
      var res := db.reservations[reservationId];
      assert res.equipmentId in db.equipment && res.studentId in db.students;
    }
  }

  lemma ReserveKeepsIntegrity(db: Db, studentId: int, equipmentId: int, period: int, today: int)
    requires Integrity(db)
    ensures Integrity(Reserve(db, studentId, equipmentId, period, today).db)
  {
  }

  lemma ConvertKeepsIntegrity(db: Db, reservationId: int, today: int)
    requires Integrity(db)
    ensures Integrity(Convert(db, reservationId, today).db)
  {
    var s := Convert(db, reservationId, today);
    if s.result.Success? {
      var id := s.result.value;
      forall k | k in s.db.rentals
        ensures s.db.rentals[k].equipmentId in s.db.equipment && s.db.rentals[k].studentId in s.db.students
      {
        if k != id { assert k in db.rentals; }
      }
    }
  }

  lemma ReturnKeepsIntegrity(db: Db, rentalId: int, note: Option<string>, today: int)
    requires Integrity(db)
    ensures Integrity(Return(db, rentalId, note, today).db)
  {
  }

  // ---------------------------------------------------------------------
  // Returns

  /** The lookup only finds rentals due today or later, so a rental past its
      return date can never be returned: the call fails and nothing changes.
      This is why Return never raises an overdue count. */
  lemma LateRentalCannotBeReturned(db: Db, rentalId: int, note: Option<string>, today: int)
    requires rentalId in db.rentals && db.rentals[rentalId].returnDate.Some?
    requires db.rentals[rentalId].returnDate.value < today
    ensures Return(db, rentalId, note, today) == Step(db, Failure(RentalNotFound))
  {
  }

  /** "Already returned" is only detected from the next day on: on the day of
      a return the rental still matches the lookup, so a second return that
      day succeeds again, and on any later day it fails. */
  lemma ReturnedRentalStaysOpenThatDay(db: Db, rentalId: int, note: Option<string>, again: Option<string>, today: int, later: int)
    requires IsOpen(db, rentalId, today)
    requires later > today
    ensures var s := Return(db, rentalId, note, today);
      && Return(s.db, rentalId, again, today).result.Success?
      && Return(s.db, rentalId, again, later) == Step(s.db, Failure(RentalNotFound))
  {
    var s := Return(db, rentalId, note, today);
    assert s.db.rentals[rentalId].returnDate == Some(today);
  }

  // ---------------------------------------------------------------------
  // A worked sequence: student 1001 with no overdue items reserves the
  // available equipment 501 for 7 days.

  function ScenarioDb(): (db: Db)
    ensures db.equipment.Keys == {501} && db.students.Keys == {1001}
    ensures db.reservations == map[] && db.rentals == map[]
  {
    Db(map[501 := Equipment("Tennis racket", "Tennis", AVAILABLE, GOOD, 1)],
       map[1001 := Student("Student 1001", "s1001@example.edu", "555-0101", 0, 1)],
       map[],
       map[])
  }

  /** Reservation 3001 puts 501 in Reserved; converting it gives rental 4001,
      due on day t + 7, with 501 In Use; returning it on its due day with no
      report makes 501 Available and "Good" and leaves the overdue count at 0. */
  lemma ScenarioReturnedOnTime(t: int)
    ensures var s1 := Reserve(ScenarioDb(), 1001, 501, 7, t);
      var s2 := Convert(s1.db, 3001, t);
      var s3 := Return(s2.db, 4001, None, t + 7);
      && s1.result == Success(3001) && s1.db.equipment[501].status == RESERVED
      && s2.result == Success(4001) && s2.db.equipment[501].status == IN_USE
      && s2.db.rentals[4001].returnDate == Some(t + 7)
      && s2.db.reservations[3001].status == InProgress
      && s3.result == Success(())
      && s3.db.equipment[501].status == AVAILABLE && s3.db.equipment[501].maintenance == GOOD
      && s3.db.students[1001].overdue == 0
  {
    var s1 := Reserve(ScenarioDb(), 1001, 501, 7, t);
    assert s1.result == Success(3001);
    var s2 := Convert(s1.db, 3001, t);
    assert s2.db.rentals.Keys == {} + {s2.result.value};
    assert s2.result == Success(4001);
    var s3 := Return(s2.db, 4001, None, t + 7);
    assert IsOpen(s2.db, 4001, t + 7);
  }

  /** The same rental brought back two days late is not found: the return
      fails, 501 stays In Use and the overdue count stays 0. */
  lemma ScenarioReturnedLate(t: int)
    ensures var s1 := Reserve(ScenarioDb(), 1001, 501, 7, t);
      var s2 := Convert(s1.db, 3001, t);
      var s3 := Return(s2.db, 4001, None, t + 9);
      && s3 == Step(s2.db, Failure(RentalNotFound))
      && s3.db.equipment[501].status == IN_USE
      && s3.db.students[1001].overdue == 0
  {
    ScenarioReturnedOnTime(t);
  }

  /** A report reading "Damage detected" sends the equipment to Maintenance
      with "Needs inspection". */
  lemma DamagedReturnNeedsInspection(db: Db, rentalId: int, today: int)
    requires IsOpen(db, rentalId, today)
    requires db.rentals[rentalId].equipmentId in db.equipment
    ensures var e := Return(db, rentalId, Some("Damage detected"), today).db.equipment[db.rentals[rentalId].equipmentId];
      e.status == MAINTENANCE && e.maintenance == NEEDS_INSPECTION
  {
    DamageDetectedMentionsDamage();
  }

  /** A report without the word, however long, still marks the equipment
      "Needs inspection" but makes it Available again. */
  lemma ScratchedReturnIsAvailable(db: Db, rentalId: int, today: int)
    requires IsOpen(db, rentalId, today)
    requires db.rentals[rentalId].equipmentId in db.equipment
    ensures var e := Return(db, rentalId, Some("Scratched"), today).db.equipment[db.rentals[rentalId].equipmentId];
      e.status == AVAILABLE && e.maintenance == NEEDS_INSPECTION
  {
    ScratchedDoesNotMentionDamage();
  }
}
