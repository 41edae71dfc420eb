/** The rental desk as the source runs it: four tables updated in place, one
    SQL statement at a time. Each method is proved to leave the tables in
    the state, and to return the value, that Lifecycle specifies for the
    operation as a whole. */
module Desk {
  import opened Tables
  import opened Text
  import opened Lifecycle

  class RentalDesk {
    var equipment: map<int, Equipment>
    var students: map<int, Student>
    var reservations: map<int, Reservation>
    var rentals: map<int, Rental>

    /** The four tables as one value. */
    function State(): Db
      reads this
    {
      Db(equipment, students, reservations, rentals)
    }

    constructor (db: Db)
      ensures State() == db
    {
      equipment := db.equipment;
      students := db.students;
      reservations := db.reservations;
      rentals := db.rentals;
    }

    /** make_reservation: read the largest key, insert the Pending row, mark
        the equipment Reserved. */
    method MakeReservation(studentId: int, equipmentId: int, period: int, today: int) returns (r: Result<int>)
      modifies this
      ensures var s := Reserve(old(State()), studentId, equipmentId, period, today);
        State() == s.db && r == s.result
      ensures r.Success? ==> r.value !in old(reservations) && r.value in reservations
      ensures students == old(students) && rentals == old(rentals)
    {
      var newId := NextId(reservations.Keys, RESERVATION_BASE);
      if equipmentId !in equipment || studentId !in students {
        return Failure(DanglingReference);
      }
      reservations := reservations[newId := Reservation(period, Pending, today, equipmentId, studentId)];
      equipment := equipment[equipmentId := equipment[equipmentId].(status := RESERVED)];
      return Success(newId);
    }

    /** convert_to_rental: look the Pending reservation up, read the largest
        rental key, insert the rental, then update the reservation and the
        equipment. */
    method ConvertToRental(reservationId: int, today: int) returns (r: Result<int>)
      modifies this
      ensures var s := Convert(old(State()), reservationId, today);
        State() == s.db && r == s.result
      ensures r.Failure? ==> State() == old(State())
      ensures r.Success? ==> r.value !in old(rentals) && rentals[r.value].returnDate.Some?
      ensures students == old(students)
    {
      if !IsPending(State(), reservationId) {
        return Failure(ReservationNotFound);
      }
      var res := reservations[reservationId];
      var newId := NextId(rentals.Keys, RENTAL_BASE);
      if res.equipmentId !in equipment || res.studentId !in students {
        return Failure(DanglingReference);
      }
      rentals := rentals[newId := Rental(today, Some(today + res.period), None, res.studentId, res.equipmentId)];
      reservations := reservations[reservationId := res.(status := InProgress)];
      equipment := equipment[res.equipmentId := equipment[res.equipmentId].(status := IN_USE)];
      return Success(newId);
    }

    /** return_equipment: look the open rental up, close it, set the
        equipment's status and maintenance note from the report, and count
        an overdue item if today is after the old return date. */
    method ReturnEquipment(rentalId: int, note: Option<string>, today: int) returns (r: Result<()>)
      modifies this
      ensures var s := Return(old(State()), rentalId, note, today);
        State() == s.db && r == s.result
      ensures r.Success? <==> IsOpen(old(State()), rentalId, today)
      ensures students == old(students) && reservations == old(reservations)
    {
      if !IsOpen(State(), rentalId, today) {
        return Failure(RentalNotFound);
      }
      var rent := rentals[rentalId];
      var scheduled := rent.returnDate.value;

      rentals := rentals[rentalId := rent.(returnDate := Some(today), damageReport := note)];

      var status := if MentionsDamage(note) then MAINTENANCE else AVAILABLE;
      var condition := if HasReport(note) then NEEDS_INSPECTION else GOOD;
      if rent.equipmentId in equipment {
        equipment := equipment[rent.equipmentId := equipment[rent.equipmentId].(status := status, maintenance := condition)];
      }

      // The lookup above already demands scheduled >= today, so this never adds.
      students := if today > scheduled then AddOverdue(students, rent.studentId) else students;
      return Success(());
    }
  }

  /** The desk used the way the reservation tab uses it: the eligibility and
      availability gates, then the reservation, on the desk's own tables. */
  method RequestReservationOn(desk: RentalDesk, studentId: int, equipmentId: int, period: int, today: int)
    returns (r: Result<int>)
    modifies desk
    ensures var s := RequestReservation(old(desk.State()), studentId, equipmentId, period, today);
      desk.State() == s.db && r == s.result
  {
    var eligible := Eligibility(desk.State(), studentId);
    if !eligible.ok {
      return Failure(Refused(eligible.notice));
    }
    var available := Availability(desk.State(), equipmentId);
    if !available.ok {
      return Failure(Refused(available.notice));
    }
    r := desk.MakeReservation(studentId, equipmentId, period, today);
  }
}
