/** The rental lifecycle on a snapshot of the four tables: the two read-only
    gates (eligibility, availability) and the three transitions (reserve,
    convert a reservation into a rental, return). Each transition is one
    atomic step from a Db to a Db and a result; Desk.RentalDesk performs the
    same steps statement by statement and is proved to agree with these. */
module Lifecycle {
  import opened Tables
  import opened Text

  /** What the gates say, in place of the source's message strings. */
  datatype Notice =
    | Eligible
    | OverdueLimit(count: int)       // "You have {count} overdue items. ..."
    | EquipmentAvailable
    | EquipmentNotFound
    | Unavailable(name: string, status: string)  // "{name} is currently {status}"

  /** The (flag, message) pair a gate returns. */
  datatype Answer = Answer(ok: bool, notice: Notice)

  datatype Error =
    | ReservationNotFound            // "Reservation not found or already processed"
    | RentalNotFound                 // "Rental not found or already returned"
    | DanglingReference              // the store refuses an insert whose foreign key has no row
    | Refused(notice: Notice)        // a gate said no before anything was written

  datatype Result<+T> = Success(value: T) | Failure(error: Error)

  /** The tables after an operation, and what the operation returned. */
  datatype Step<+T> = Step(db: Db, result: Result<T>)

  /** A student with this many overdue items may not reserve. */
  const OVERDUE_LIMIT: int := 3

  const NEEDS_INSPECTION: string := "Needs inspection"
  const GOOD: string := "Good"

  // ---------------------------------------------------------------------
  // Read-only gates

  /** check_student_eligibility: refused exactly when the student has a row
      whose overdue count is at least 3; a student with no row is eligible. */
  function Eligibility(db: Db, studentId: int): (a: Answer)
    ensures a.ok <==> !(studentId in db.students && db.students[studentId].overdue >= OVERDUE_LIMIT)
    ensures a.ok ==> a.notice == Eligible
    ensures !a.ok ==> a.notice == OverdueLimit(db.students[studentId].overdue)
  {
    if studentId in db.students && db.students[studentId].overdue >= OVERDUE_LIMIT then
      Answer(false, OverdueLimit(db.students[studentId].overdue))
    else
      Answer(true, Eligible)
  }

  /** check_equipment_availability: not found when there is no row, refused
      naming the current status when that status is not "Available", and
      available otherwise. */
  function Availability(db: Db, equipmentId: int): (a: Answer)
    ensures a.ok <==> equipmentId in db.equipment && db.equipment[equipmentId].status == AVAILABLE
    ensures a.ok ==> a.notice == EquipmentAvailable
    ensures equipmentId !in db.equipment ==> a.notice == EquipmentNotFound
    ensures equipmentId in db.equipment && !a.ok ==>
      a.notice == Unavailable(db.equipment[equipmentId].name, db.equipment[equipmentId].status)
  {
    if equipmentId !in db.equipment then
      Answer(false, EquipmentNotFound)
    else if db.equipment[equipmentId].status != AVAILABLE then
      Answer(false, Unavailable(db.equipment[equipmentId].name, db.equipment[equipmentId].status))
    else
      Answer(true, EquipmentAvailable)
  }

  // ---------------------------------------------------------------------
  // Transitions

  /** make_reservation: a fresh key above every existing one, a Pending
      reservation dated today, and the equipment marked Reserved. The insert
      is refused by the store, and nothing changes, when the student or the
      equipment has no row. */
  function Reserve(db: Db, studentId: int, equipmentId: int, period: int, today: int): (s: Step<int>)
    ensures s.result.Failure? <==> equipmentId !in db.equipment || studentId !in db.students
    ensures s.result.Failure? ==> s.result.error == DanglingReference && s.db == db
    ensures s.result.Success? ==>
      var id := s.result.value;
      && id == NextId(db.reservations.Keys, RESERVATION_BASE)
      && (forall k :: k in db.reservations ==> k < id)
      && s.db.reservations.Keys == db.reservations.Keys + {id}
      && s.db.reservations[id] == Reservation(period, Pending, today, equipmentId, studentId)
      && (forall k :: k in db.reservations ==> s.db.reservations[k] == db.reservations[k])
      && s.db.equipment.Keys == db.equipment.Keys
      && s.db.equipment[equipmentId] == db.equipment[equipmentId].(status := RESERVED)
      && (forall k :: k in db.equipment && k != equipmentId ==> s.db.equipment[k] == db.equipment[k])
      && s.db.students == db.students
      && s.db.rentals == db.rentals
  {
    var id := NextId(db.reservations.Keys, RESERVATION_BASE);
    if equipmentId !in db.equipment || studentId !in db.students then
      Step(db, Failure(DanglingReference))
    else
      var row := Reservation(period, Pending, today, equipmentId, studentId);
      var e := db.equipment[equipmentId];
      Step(db.(reservations := db.reservations[id := row],
               equipment := db.equipment[equipmentId := e.(status := RESERVED)]),
           Success(id))
  }

  /** The reservation a conversion can pick up: it exists and is Pending. */
  predicate IsPending(db: Db, reservationId: int) {
    reservationId in db.reservations && db.reservations[reservationId].status == Pending
  }

  /** convert_to_rental: fails with nothing changed unless the reservation is
      Pending; otherwise one new rental (fresh key, starting today, due after
      the reservation's period, no damage report), the reservation In
      Progress and its equipment In Use. */
  function Convert(db: Db, reservationId: int, today: int): (s: Step<int>)
    ensures !IsPending(db, reservationId) ==> s == Step(db, Failure(ReservationNotFound))
    ensures IsPending(db, reservationId) && s.result.Failure? ==>
      var res := db.reservations[reservationId];
      && s == Step(db, Failure(DanglingReference))
      && (res.equipmentId !in db.equipment || res.studentId !in db.students)
    ensures s.result.Success? ==>
      var id := s.result.value;
      var res := db.reservations[reservationId];
      && IsPending(db, reservationId)
      && id == NextId(db.rentals.Keys, RENTAL_BASE)
      && (forall k :: k in db.rentals ==> k < id)
      && s.db.rentals.Keys == db.rentals.Keys + {id}
      && s.db.rentals[id] == Rental(today, Some(today + res.period), None, res.studentId, res.equipmentId)
      && (forall k :: k in db.rentals ==> s.db.rentals[k] == db.rentals[k])
      && s.db.reservations == db.reservations[reservationId := res.(status := InProgress)]
      && res.equipmentId in db.equipment
      && s.db.equipment == db.equipment[res.equipmentId := db.equipment[res.equipmentId].(status := IN_USE)]
      && s.db.students == db.students
  {
    if !IsPending(db, reservationId) then
      Step(db, Failure(ReservationNotFound))
    else
      var res := db.reservations[reservationId];
      var id := NextId(db.rentals.Keys, RENTAL_BASE);
      if res.equipmentId !in db.equipment || res.studentId !in db.students then
        Step(db, Failure(DanglingReference))
      else
        var row := Rental(today, Some(today + res.period), None, res.studentId, res.equipmentId);
        var e := db.equipment[res.equipmentId];
        Step(Db(db.equipment[res.equipmentId := e.(status := IN_USE)],
                db.students,
                db.reservations[reservationId := res.(status := InProgress)],
                db.rentals[id := row]),
             Success(id))
  }

  /** The rental a return can pick up: `Rental_ID = id AND Return_Date >=
      CURDATE()`, so a NULL or past return date never matches. */
  predicate IsOpen(db: Db, rentalId: int, today: int) {
    && rentalId in db.rentals
    && db.rentals[rentalId].returnDate.Some?
    && db.rentals[rentalId].returnDate.value >= today
  }

  /** Truthiness of the report: present and not empty. */
  predicate HasReport(note: Option<string>) {
    note.Some? && note.value != ""
  }

  /** `UPDATE Student SET Overdue_Items = Overdue_Items + 1 WHERE Student_ID = id`:
      one more overdue item for that student, no row added, nothing else changed. */
  function AddOverdue(students: map<int, Student>, studentId: int): (m: map<int, Student>)
    ensures m.Keys == students.Keys
    ensures studentId in students ==>
      m[studentId] == students[studentId].(overdue := students[studentId].overdue + 1)
    ensures forall k :: k in students && k != studentId ==> m[k] == students[k]
  {
    if studentId in students then
      students[studentId := students[studentId].(overdue := students[studentId].overdue + 1)]
    else
      students
  }

  /** return_equipment. Fails with nothing changed unless the rental is open.
      Otherwise the rental's return date becomes today and its damage report
      the given note; the equipment goes to Maintenance exactly when the note
      mentions damage (else Available), and its maintenance note is "Needs
      inspection" exactly when a non-empty note was given (else "Good"). The
      overdue count is raised only when today is after the old return date,
      which the lookup has already excluded: no student row ever changes. */
  function Return(db: Db, rentalId: int, note: Option<string>, today: int): (s: Step<()>)
    ensures !IsOpen(db, rentalId, today) ==> s == Step(db, Failure(RentalNotFound))
    ensures IsOpen(db, rentalId, today) ==> s.result == Success(())
    ensures IsOpen(db, rentalId, today) ==>
      var rent := db.rentals[rentalId];
      && s.db.rentals == db.rentals[rentalId := rent.(returnDate := Some(today), damageReport := note)]
      && s.db.equipment.Keys == db.equipment.Keys
      && (forall k :: k in db.equipment && k != rent.equipmentId ==> s.db.equipment[k] == db.equipment[k])
      && (rent.equipmentId in db.equipment ==>
            var e := s.db.equipment[rent.equipmentId];
            && e.name == db.equipment[rent.equipmentId].name
            && e.kind == db.equipment[rent.equipmentId].kind
            && e.adminId == db.equipment[rent.equipmentId].adminId
            && (e.status == MAINTENANCE <==> MentionsDamage(note))
            && (e.status == AVAILABLE <==> !MentionsDamage(note))
            && (e.maintenance == NEEDS_INSPECTION <==> HasReport(note))
            && (e.maintenance == GOOD <==> !HasReport(note)))
      && s.db.reservations == db.reservations
    ensures s.db.students == db.students
  {
    if !IsOpen(db, rentalId, today) then
      Step(db, Failure(RentalNotFound))
    else
      var rent := db.rentals[rentalId];
      var scheduled := rent.returnDate.value;
      var rentals' := db.rentals[rentalId := rent.(returnDate := Some(today), damageReport := note)];
      var status := if MentionsDamage(note) then MAINTENANCE else AVAILABLE;
      var condition := if HasReport(note) then NEEDS_INSPECTION else GOOD;
      var equipment' :=
        if rent.equipmentId in db.equipment then
          db.equipment[rent.equipmentId := db.equipment[rent.equipmentId].(status := status, maintenance := condition)]
        else
          db.equipment;
      var students' := if today > scheduled then AddOverdue(db.students, rent.studentId) else db.students;
      Step(Db(equipment', students', db.reservations, rentals'), Success(()))
  }

  // ---------------------------------------------------------------------
  // The student's reservation request: the gates in the order the
  // reservation tab calls them, then the reservation itself.

  function RequestReservation(db: Db, studentId: int, equipmentId: int, period: int, today: int): (s: Step<int>)
    ensures !Eligibility(db, studentId).ok ==>
      s == Step(db, Failure(Refused(Eligibility(db, studentId).notice)))
    ensures Eligibility(db, studentId).ok && !Availability(db, equipmentId).ok ==>
      s == Step(db, Failure(Refused(Availability(db, equipmentId).notice)))
    ensures Eligibility(db, studentId).ok && Availability(db, equipmentId).ok ==>
      s == Reserve(db, studentId, equipmentId, period, today)
    ensures s.result.Success? ==>
      && equipmentId in db.equipment
      && db.equipment[equipmentId].status == AVAILABLE
      && equipmentId in s.db.equipment && s.db.equipment[equipmentId].status == RESERVED
      && (studentId in db.students ==> db.students[studentId].overdue < OVERDUE_LIMIT)
  {
    var eligible := Eligibility(db, studentId);
    if !eligible.ok then
      Step(db, Failure(Refused(eligible.notice)))
    else
      var available := Availability(db, equipmentId);
      if !available.ok then
        Step(db, Failure(Refused(available.notice)))
      else
        Reserve(db, studentId, equipmentId, period, today)
  }
}
