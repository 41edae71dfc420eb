/** The due-date reminders of the student's reservation list: the number of
    days left until a due date sorts an entry into overdue, due soon or on
    schedule. */
module DueDates {
  import opened Tables
  import opened Lifecycle

  datatype Urgency = Overdue | DueSoon | OnSchedule

  const SECONDS_PER_DAY: int := 86400

  /** Negative is overdue, up to two days is due soon, more is on schedule. */
  function Classify(daysLeft: int): (u: Urgency)
    ensures u == Overdue <==> daysLeft < 0
    ensures u == DueSoon <==> 0 <= daysLeft <= 2
    ensures u == OnSchedule <==> daysLeft > 2
  {
    if daysLeft < 0 then Overdue else if daysLeft <= 2 then DueSoon else OnSchedule
  }

  /** `(due_date - now).days` as the view computes it: the due date is
      midnight of day `due`, now is `seconds` into day `today`, and the whole
      days of the difference are rounded down. Any moment after midnight
      therefore loses a day. */
  function DaysLeftAsWritten(due: int, today: int, seconds: int): (d: int)
    requires 0 <= seconds < SECONDS_PER_DAY
    ensures seconds == 0 ==> d == due - today
    ensures seconds > 0 ==> d == due - today - 1
  {
    var diff := (due - today) * SECONDS_PER_DAY - seconds;
    FloorDays(due - today, seconds);
    diff / SECONDS_PER_DAY
  }

  lemma FloorDays(days: int, seconds: int)
    requires 0 <= seconds < SECONDS_PER_DAY
    ensures seconds == 0 ==> (days * SECONDS_PER_DAY - seconds) / SECONDS_PER_DAY == days
    ensures seconds > 0 ==> (days * SECONDS_PER_DAY - seconds) / SECONDS_PER_DAY == days - 1
  {
    if seconds > 0 {
      var x := days * SECONDS_PER_DAY - seconds;
      assert x == (days - 1) * SECONDS_PER_DAY + (SECONDS_PER_DAY - seconds);
    }
  }

  /** The reminder as the view shows it. */
  function ClassifyDueAsWritten(due: int, today: int, seconds: int): (u: Urgency)
    requires 0 <= seconds < SECONDS_PER_DAY
    ensures seconds > 0 ==> (u == Overdue <==> due <= today)
    ensures seconds > 0 ==> (u == DueSoon <==> today < due <= today + 3)
  {
    Classify(DaysLeftAsWritten(due, today, seconds))
  }

  /** The reminder on whole days: overdue exactly when the due date has
      passed, due soon on the due date and the two days before it. */
  function ClassifyDue(due: int, today: int): (u: Urgency)
    ensures u == Overdue <==> due < today
    ensures u == DueSoon <==> today <= due <= today + 2
    ensures u == OnSchedule <==> due > today + 2
  {
    Classify(due - today)
  }

  /** Shown after midnight, an item due today is already "Overdue", though it
      is not late: it is due soon on whole days. */
  lemma DueTodayShownOverdue(today: int, seconds: int)
    requires 0 < seconds < SECONDS_PER_DAY
    ensures ClassifyDueAsWritten(today, today, seconds) == Overdue
    ensures ClassifyDue(today, today) == DueSoon
  {
  }

  /** On whole days the reminder agrees with the return lookup: a rental
      with a return date can be returned exactly when it is not overdue. */
  lemma ReturnableIffNotOverdue(db: Db, rentalId: int, today: int)
    requires rentalId in db.rentals && db.rentals[rentalId].returnDate.Some?
    ensures IsOpen(db, rentalId, today) <==>
      ClassifyDue(db.rentals[rentalId].returnDate.value, today) != Overdue
  {
  }
}
