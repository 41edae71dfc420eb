# Sports-equipment rental lifecycle, in Dafny

This project models the rental lifecycle of a campus sports-equipment rental
manager. The store has four tables: Equipment, Student, Reservation and
Rental. A student passes two read-only gates:

- eligibility: fewer than 3 overdue items;
- availability: the equipment's status is "Available".

Then the equipment moves through three transitions:

- a reservation: a Pending row, and the equipment becomes Reserved;
- a conversion of that reservation into a rental: the reservation becomes
  In Progress and the equipment In Use;
- a return: the equipment becomes Available or Maintenance, according to
  the damage report.

The student pages call the two gates, `make_reservation` and
`return_equipment` (app.py:616, 636, 639 and 664). Nothing in app.py calls
`convert_to_rental`, so in the application as written no reservation is ever
converted and no rental is ever created by it. The model still covers the
conversion, because it is the only way a rental that a return can pick up
comes into being.

Layout:

- `tables.dfy` (module `Tables`): the four row types, the tables as maps from
  integer key to row, the schema's foreign keys (`Integrity`), and the key
  allocator (`MAX(key) or base`, plus one).
- `text.dfy` (module `Text`): the case-insensitive test for "damage" in a
  damage report.
- `lifecycle.dfy` (module `Lifecycle`): the gates and the three transitions.
  Each one is a pure function from a snapshot of the tables to the new
  snapshot and the returned value.
- `desk.dfy` (module `Desk`): class `RentalDesk` holds the four tables as
  mutable map fields. Its methods make the same updates one SQL statement at
  a time. Each method is proved to end in the state its `Lifecycle` function
  specifies.
- `properties.dfy` (module `Properties`): lemmas that relate several
  operations. Keys count up, a reservation converts only once, the foreign
  keys survive every step, a late rental can never be returned, and one
  reserve-convert-return sequence is worked through.
- `duedates.dfy` (module `DueDates`): the days-left reminders in the
  student's reservation list.

Modelling choices:

- "Today" (`CURDATE()`) is an integer day number passed in. Dates are day
  numbers.
- Equipment `Status` and `Maintenance_Status` are free text, because
  administrators type them. Reservation `Return_Status` is one of three
  values.
- A rental's `Return_Date` may be NULL (`Option<int>`). So may its
  `Damage_Report` and the damage note passed to a return (`Option<string>`).
- Each operation is one atomic step.
- The source's (flag, message) pairs become `Answer` and `Result` values.
  Each message text is named by its own constructor.
- The insert in a reservation or a conversion is refused by the store when
  it names a student or equipment row that does not exist (foreign keys). The
  source does not catch that error. The model returns
  `Failure(DanglingReference)` and changes nothing, because the statements
  are never committed.
- `MAX(...) or 3000` uses Python's `or`. A largest key of 0 is therefore
  treated like an empty table, and the next key is 3001
  (`Tables.NextIdSkipsFromZero`).
- The return lookup matches only `Return_Date >= CURDATE()`. The overdue
  increment needs `today > Return_Date`. The increment branch is kept as
  written (`Lifecycle.Return`, `Desk.RentalDesk.ReturnEquipment`), and the
  model proves that it never runs. A late rental cannot be returned at all.
  The student's overdue count is never changed by a return. This rests on
  one `today` for the whole return. The source reads two clocks: the
  store's `CURDATE()` in the lookup (app.py:86) and the application's
  `datetime.now()` in the late test (app.py:113). If they disagree (a
  different time zone, or a return that straddles midnight), the late
  branch can run; that case is not modelled.
- The `if` at app.py:113 is meant to raise the overdue count by one for a
  late return. A return two days late never reaches it: the code fails that
  return with "Rental not found or already returned". The model follows the
  code (`Properties.ScenarioReturnedLate`).
- The lookup also still matches a rental on the day it was returned. A
  second return that same day therefore succeeds
  (`Properties.ReturnedRentalStaysOpenThatDay`).

## Model

| member | source | states |
|---|---|---|
| `Tables.Largest` | app.py:29-30 | `SELECT MAX(key)` on a non-empty table: the result is one of the keys and no key is larger |
| `Tables.NextId` | app.py:29-31 | the allocated key is strictly greater than every existing key, so it is fresh; on a table whose largest key is not 0 it is exactly that key + 1 (even below base); on an empty table, or one whose largest key is 0, it is base + 1 |
| `Tables.NextIdAfterRange` | app.py:29-31 | on a table holding exactly keys base+1..base+n the next key is base+n+1, and adding it gives keys base+1..base+n+1 |
| `Tables.NextIdSkipsFromZero` | app.py:30 | `MAX(...) or base`: a table whose largest key is 0 is treated like an empty one, and the next key is base + 1 |
| `Text.Contains` | app.py:104 | Python's `p in s`: true exactly when p occurs in s at some index |
| `Text.Lower` | app.py:104 | `str.lower()` on ASCII letters: same length, each upper-case letter lowered, no upper-case letter left |
| `Text.MentionsDamage` | app.py:104 | `note and 'damage' in note.lower()`: true exactly when a note is given and "damage" occurs in it, in any case; a missing or empty note is false |
| `Text.DamageDetectedMentionsDamage` | app.py:104 | the report "Damage detected" counts as mentioning damage |
| `Text.ScratchedDoesNotMentionDamage` | app.py:104 | the report "Scratched" does not |
| `Lifecycle.Eligibility` | app.py:8-14 | ineligible exactly when the student has a row with overdue count >= 3, and the message then carries the count; a student with no row is eligible; reads only |
| `Lifecycle.Availability` | app.py:16-24 | not found when there is no equipment row; unavailable, naming the equipment and its status, when the status is not "Available"; available otherwise; reads only |
| `Lifecycle.Reserve` | app.py:26-43 | the new reservation key is the allocator's (`Tables.NextId`: largest key + 1, or 3001 on an empty table), above every existing key; exactly one new row (Pending, the given period, equipment and student, dated today); that equipment becomes Reserved; no other equipment row, no existing reservation, no student and no rental changes; a dangling student or equipment makes the store refuse the insert, and then nothing changes |
| `Lifecycle.Convert` | app.py:45-78 | a missing or non-Pending reservation fails with nothing changed; otherwise exactly one new rental (the allocator's key, `Tables.NextId`: largest rental key + 1, or 4001 on an empty table), starting today, due today + period, with no damage report; the reservation becomes In Progress and its equipment In Use; students are unchanged |
| `Lifecycle.AddOverdue` | app.py:113-118 | `UPDATE ... Overdue_Items + 1 WHERE Student_ID`: that student's count goes up by exactly one; no row is added and no other row changes |
| `Lifecycle.Return` | app.py:80-120 | fails with nothing changed unless the rental has a return date >= today; on success the return date becomes today and the damage report becomes the note; the equipment becomes Maintenance exactly when the note mentions damage (else Available), and its maintenance note becomes "Needs inspection" exactly when a non-empty note is given (else "Good"); reservations are unchanged; the student table is unchanged in every case, because the lookup excludes the late branch |
| `Lifecycle.RequestReservation` | app.py:616-641 | the reservation tab's order: an ineligible student is refused with the overdue message, and unavailable equipment with its notice, both before any table changes; a request that passes both gates is exactly `Lifecycle.Reserve` on the same tables; a success started from Available equipment and an eligible student, and leaves that equipment Reserved |
| `Desk.RentalDesk.MakeReservation` | app.py:26-43 | the in-place statements (read max, insert, update equipment) leave the tables and the result exactly as `Lifecycle.Reserve` says; the new key was absent before; students and rentals are untouched |
| `Desk.RentalDesk.ConvertToRental` | app.py:45-78 | the in-place statements leave the tables and the result exactly as `Lifecycle.Convert` says; a failure changes nothing; the new rental key was absent before |
| `Desk.RentalDesk.ReturnEquipment` | app.py:80-120 | the in-place statements, including the late-return branch, leave the tables and the result exactly as `Lifecycle.Return` says; success exactly when the rental is open; students and reservations are untouched |
| `Desk.RequestReservationOn` | app.py:616-641 | gates then reservation on the desk's tables, ending as `Lifecycle.RequestReservation` says |
| `Properties.ReserveNextId` | app.py:29-43 | on a reservation table holding keys 3001..3000+n, one reservation gets key 3001+n and leaves the keys 3001..3001+n |
| `Properties.ReservationKeysCountUp` | app.py:29-43 | N reservations in a row on keys 3001..3000+n leave keys 3001..3000+n+N |
| `Properties.ReservationIdsCountUp` | app.py:29-43 | N reservations in a row on keys 3001..3000+n return 3001+n, 3002+n, ... in order; from an empty table they get 3001..3000+N |
| `Properties.RentalIdsCountUp` | app.py:60-63 | a conversion on a rental table holding keys 4001..4000+n creates rental 4001+n |
| `Properties.ConvertTwiceFails` | app.py:48-56 | once a reservation is converted, converting it again, on any day, fails with every table unchanged |
| `Properties.ConvertFailsOnlyWhenNotPending` | app.py:48-56 | when the foreign keys hold, a conversion fails exactly when the reservation is missing or not Pending |
| `Properties.ReserveKeepsIntegrity` | app.py:34-41 | a reservation keeps every reservation and rental pointing at existing students and equipment |
| `Properties.ConvertKeepsIntegrity` | app.py:65-76 | so does a conversion |
| `Properties.ReturnKeepsIntegrity` | app.py:96-118 | so does a return |
| `Properties.LateRentalCannotBeReturned` | app.py:83-92 | a rental whose return date has passed is never found by a return: the call fails and nothing changes |
| `Properties.ReturnedRentalStaysOpenThatDay` | app.py:83-101 | a returned rental is still found on the day of its return, so a second return that day succeeds; from the next day on it fails |
| `Properties.ScenarioReturnedOnTime` | app.py:26-120 | student 1001 reserves equipment 501 for 7 days and gets reservation 3001, with 501 Reserved; conversion gives rental 4001 due on day t+7, with 501 In Use; a return on the due day makes 501 Available and "Good", with overdue still 0 |
| `Properties.ScenarioReturnedLate` | app.py:80-92 | the same rental brought back two days late is not found: 501 stays In Use and the overdue count stays 0 |
| `Properties.DamagedReturnNeedsInspection` | app.py:104-109 | returning with "Damage detected" leaves the equipment in Maintenance with "Needs inspection" |
| `Properties.ScratchedReturnIsAvailable` | app.py:104-109 | returning with "Scratched" marks it "Needs inspection" but Available |
| `DueDates.Classify` | app.py:766-771 | days left < 0 is overdue, 0..2 is due soon, more is on schedule |
| `DueDates.DaysLeftAsWritten` | app.py:763-764 | `(due_date - now).days` from midnight of the due day: equal to due - today at exactly midnight, and one less at any moment after |
| `DueDates.ClassifyDueAsWritten` | app.py:763-771 | as the view shows it after midnight: overdue exactly when due <= today, due soon when due is 1..3 days ahead |
| `DueDates.ClassifyDue` | app.py:763-771 | on whole days: overdue exactly when the due date has passed, due soon from two days before through the due date |
| `DueDates.DueTodayShownOverdue` | app.py:763-767 | after midnight an item due today is shown as overdue, though on whole days it is due soon |
| `DueDates.ReturnableIffNotOverdue` | app.py:86 | on whole days, a rental with a return date can be returned exactly when the reminder would not call it overdue |

## Left out

- The web interface: the login page and its fixed credentials, session
  state, tabs, forms, tables, styling and summary counts. These are
  presentation only. The only part modelled is the order in which the
  reservation tab calls the gates (`Lifecycle.RequestReservation`).
- The database connection, `verify_admin`, `commit()` and error reporting
  for a lost connection. These are I/O.
- The administrator's view/add/update/delete forms. They pass form fields
  straight to SQL. The model allows any table contents those forms can
  produce: free-text statuses, NULL return dates, and arbitrary keys.
- Concurrency: two callers racing between the availability check and the
  status update, or on key allocation. Each operation is one atomic step.
- The wall clock. `CURDATE()`, `datetime.now()` and `pd.Timestamp.now()`
  become day numbers. For the reminders, they also become a count of
  seconds since midnight. Time zones are not modelled. A return uses one
  `today` for both the store's `CURDATE()` (app.py:86) and the
  application's `datetime.now()` (app.py:113), so a return at which the two
  clocks disagree, the only way the late increment could run, is not
  covered.
- Text.Lower: lowers only the ASCII letters A-Z, whereas `str.lower()` is
  Unicode-wide. This does not change the "damage" test, because no other
  character lowers to one of its letters.
- The message strings are not built character by character. Each message
  is a constructor carrying the values it formats.
- The store raising an error on an insert with a dangling foreign key is
  modelled as a failure with no change. The uncaught exception and the page
  it leaves behind are not modelled.
- No operation sets a reservation to "Returned", so the model has no such
  transition either.
- "At most one active rental per piece of equipment" is not proved. A
  conversion does not check the equipment's status, and administrators can
  insert rows directly, so the source does not keep this invariant.

## Findings

| source | as written | input that shows it | evidently intended | confidence | as-written member | corrected member |
|---|---|---|---|---|---|---|
| app.py:763-767 | `days_left = (due_date - pd.Timestamp.now()).days` subtracts the current moment from midnight of the due day and rounds down | an item due today, viewed at any time after midnight, gets days_left = -1 and is shown as "Overdue" (`DueDates.DueTodayShownOverdue`) | days left counted on whole days, so an item is overdue only after its due date; a return on the due day is accepted and not counted late (app.py:86, 113) | medium, not executed | `DueDates.ClassifyDueAsWritten` | `DueDates.ClassifyDue` |
