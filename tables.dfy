/** The four tables of the rental store (Equipment, Student, Reservation,
    Rental) as maps from integer key to row, and the key allocator that the
    lifecycle operations share. Dates are day numbers. */
module Tables {

  datatype Option<+T> = None | Some(value: T)

  /** Return_Status of a reservation: the column only ever holds these three. */
  datatype ReturnStatus = Pending | InProgress | Returned

  /** Equipment row. Status and Maintenance_Status are free text in the store
      (administrators type them), so they are strings here. */
  datatype Equipment = Equipment(
    name: string,
    kind: string,
    status: string,
    maintenance: string,
    adminId: int)

  datatype Student = Student(
    name: string,
    email: string,
    phone: string,
    overdue: int,
    adminId: int)

  datatype Reservation = Reservation(
    period: int,
    status: ReturnStatus,
    date: int,
    equipmentId: int,
    studentId: int)

  /** Rental row. Return_Date first holds the scheduled return date and is
      overwritten with the actual one on return; it may be NULL. */
  datatype Rental = Rental(
    rentalDate: int,
    returnDate: Option<int>,
    damageReport: Option<string>,
    studentId: int,
    equipmentId: int)

  datatype Db = Db(
    equipment: map<int, Equipment>,
    students: map<int, Student>,
    reservations: map<int, Reservation>,
    rentals: map<int, Rental>)

  const AVAILABLE: string := "Available"
  const RESERVED: string := "Reserved"
  const IN_USE: string := "In Use"
  const MAINTENANCE: string := "Maintenance"

  /** Key a fresh reservation counts up from (the first one is 3001). */
  const RESERVATION_BASE: int := 3000
  /** Key a fresh rental counts up from (the first one is 4001). */
  const RENTAL_BASE: int := 4000

  /** The foreign keys of the schema: every reservation and every rental
      names an existing student and an existing piece of equipment. */
  ghost predicate Integrity(db: Db) {
    && (forall k :: k in db.reservations ==>
          db.reservations[k].equipmentId in db.equipment && db.reservations[k].studentId in db.students)
    && (forall k :: k in db.rentals ==>
          db.rentals[k].equipmentId in db.equipment && db.rentals[k].studentId in db.students)
  }

  /** m is the largest key of s. */
  predicate IsLargest(s: set<int>, m: int) {
    m in s && forall k :: k in s ==> k <= m
  }

  lemma NonEmptyHasMember(s: set<int>)
    requires s != {}
    ensures exists x :: x in s
  {
    if forall x :: x !in s {
      assert false;
    }
  }

  /** Every non-empty finite set of integers has a largest element. */
  lemma {:induction false} HasLargest(s: set<int>)
    requires s != {}
    ensures exists m :: IsLargest(s, m)
    decreases s
  {
    NonEmptyHasMember(s);
    var x :| x in s;
    var rest := s - {x};
    if rest == {} {
      assert s == {x};
      assert IsLargest(s, x);
    } else {
      HasLargest(rest);
      var m :| IsLargest(rest, m);
      var top := if x <= m then m else x;
      forall k | k in s ensures k <= top {
        if k != x { assert k in rest; }
      }
      assert IsLargest(s, top);
    }
  }

  /** SQL MAX over a non-empty key column. */
  function Largest(s: set<int>): (m: int)
    requires s != {}
    ensures m in s
    ensures forall k :: k in s ==> k <= m
  {
    HasLargest(s);
    var m :| IsLargest(s, m); m
  }

  /** `MAX(key) or base` plus one: the aggregate is NULL on an empty table, and
      Python's `or` also replaces a largest key of 0 by the base. */
  function NextId(ids: set<int>, base: int): (r: int)
    requires base >= 0
    ensures forall k :: k in ids ==> k < r
    ensures r - 1 in ids || r == base + 1
    ensures ids != {} && Largest(ids) != 0 ==> r == Largest(ids) + 1
    ensures ids == {} || Largest(ids) == 0 ==> r == base + 1
  {
    var top := if ids == {} then 0 else Largest(ids);
    (if top == 0 then base else top) + 1
  }

  /** Keys base+1 .. base+n, the keys of a table filled only by the allocator. */
  function IdRange(base: int, n: nat): (s: set<int>)
    ensures forall k :: k in s <==> base < k <= base + n
  {
    if n == 0 then {} else IdRange(base, n - 1) + {base + n}
  }

  /** On a table filled only by the allocator from base, the next key is
      base + n + 1: keys come out as base+1, base+2, ... */
  lemma NextIdAfterRange(base: int, n: nat)
    requires base >= 0
    ensures NextId(IdRange(base, n), base) == base + n + 1
    ensures IdRange(base, n) + {base + n + 1} == IdRange(base, n + 1)
  {
    var s := IdRange(base, n);
    if n > 0 {
      assert base + n in s;
      assert Largest(s) == base + n;
    } else {
      assert s == {};
    }
  }

  /** The `or` quirk: a table whose largest key is 0 is treated like an empty
      one, so the next key jumps to base + 1. */
  lemma NextIdSkipsFromZero(ids: set<int>, base: int)
    requires base >= 0
    requires 0 in ids && forall k :: k in ids ==> k <= 0
    ensures NextId(ids, base) == base + 1
  {
    assert Largest(ids) == 0;
  }
}
