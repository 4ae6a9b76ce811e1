# Tuition billing: monthly fee sweep and enrollment billing

This project models, in Dafny, the recurring tuition billing of a
school-management back end, and proves properties of that model.

The back end keeps students, subjects (each with a monthly price) and
payment records. Each record holds a student, a stored month label, a total,
an amount paid, an amount due, a discount and a due date. Two pieces of code
write payment records:

- **The monthly fee sweep** (`checkAndCreatePaymentsForCurrentMonth`). It
  visits every student and looks at the student's most recently created
  record:
  - With no record, it writes a first record due 30 days after
    registration.
  - While the latest due date has not passed, it writes nothing.
  - Once the latest due date has passed, it writes a record due 31 days
    later. It skips this when some record of the student already has a due
    date whose month has the same name, whatever the year.
  - One try/catch wraps the whole loop, so the first failing insert ends the
    sweep. Records written before it stay.
- **The student controller** (`createStudent`, `updateStudent`).
  - Both first check that the referenced user, level and centre exist, in
    that order, and answer 400 when one is missing.
  - Creating a student also inserts an initial payment due 31 days after
    registration.
  - Editing a student looks up the student's first record whose stored
    month equals the current month's name. It recomputes that record's total
    and discount in place, and what is owed becomes the new total minus what
    was already paid.

Both use one charge formula:
- the sum of the monthly prices;
- a discount of 50 per subject once more than one subject is taken;
- the stored total is the sum minus the discount. It is not clamped.

Modules, one file each:

- `Calendar` (`calendar.dfy`): dates as day numbers since 1970-01-01. It
  gives a proleptic Gregorian conversion to calendar dates and back, proved
  to round-trip, and English month names as the month label.
- `Charge` (`charge.dfy`): the charge formula.
- `Database` (`database.dfy`): the tables.
  - The class `Db` holds them as sequences in insertion order, so "most
    recently created" means "latest in the sequence".
  - It also holds per-student histories and the billing invariant that the
    code is meant to keep. Per student, due-date labels are distinct. Each
    stored month is its due date's label. Each record owes its total minus
    what was paid.
- `MonthlyFees` (`monthly_fees.dfy`): the sweep as a looping method over the
  store.
  - Each student's outcome is given by the function `NewRecords`, and the
    sweep's output by `Created`.
  - The clock reading `now` and the host's month naming `monthName` are
    parameters.
  - The set `failing` names the students whose insert throws.
- `StudentController` (`student_controller.dfy`): the create and edit
  handlers as methods on the store.

Month labels come from the host's default locale. Every billing definition
therefore takes the naming `monthName: int -> string` as a parameter.
`Calendar.Label` (English names) is the instance used by the examples and by
the twelve-record bound.

Where the two pieces disagree, the model follows the code:
- The student controller's initial payment falls due 31 days after
  registration.
- The sweep's first record for a student with no records falls due 30 days
  after registration.

`StudentController.InitialPaymentOneDayLater` states the difference. For a
student whose only record is the one created with it, the sweep's 30-day
rule never applies, whatever later edits changed
(`StudentController.CreatedStudentSkipsFirstCycle`).

The proved properties say four things worth knowing about the guard:
- **At most twelve records per student.** A record's due-date label
  ignores the year, and the guard refuses any month name a student already
  has. So a student accumulates at most twelve records
  (`Database.AtMostTwelveRecords`).
- **A held-back student stays held back.** Once the guard holds a student
  back, it does so at every later time while the student's records stay
  the same (`MonthlyFees.AlreadyBilledStaysBilled`). This can happen
  before the twelfth record, whenever the candidate's month name repeats.
  That includes the turn of the year: after a record due 2024-12-06, the
  candidate 2025-01-06 is refused when January is already billed.
- **A student still behind is not always caught up.** After a run, a
  student whose new record is already overdue is billed one more period by
  the next run, unless the guard refuses it
  (`MonthlyFees.BehindThenNextPeriod`).
- **Months can be skipped.** The 31-day step can jump over a short month.
  A first record due 2024-01-31 is followed by one due 2024-03-02, labelled
  March (`MonthlyFees.FirstAndNextCycleExample`).

## Model

| member | source | states |
|---|---|---|
| Calendar.DaysFromCivilInverts | jobs/createMonthlyFees.js:28-29 | Converting a day number to its calendar date and back gives the same day, so day numbers and dates determine each other. |
| Calendar.MonthOf | jobs/createMonthlyFees.js:32-34 | Every day number falls in a month numbered 1 to 12. |
| Calendar.LabelsEqualIffSameMonth | jobs/createMonthlyFees.js:37-42 | Two days have the same month label exactly when they fall in the same month, whatever their years. |
| Calendar.MonthNamesInjective | jobs/createMonthlyFees.js:32-34 | Two months have the same English name exactly when they are the same month. |
| Calendar.EndOfJanuary2024 | jobs/createMonthlyFees.js:88-89 | Day 19753, 30 days after 2024-01-01, is 2024-01-31. |
| Calendar.FirstOfFebruary2024 | controllers/student.js:64-65 | Day 19754, 31 days after 2024-01-01, is 2024-02-01, labelled February. |
| Calendar.ThirdOfMarch2024 | jobs/createMonthlyFees.js:28-34 | 31 days after 2024-01-31 is 2024-03-02, labelled March. |
| Charge.FeeForNoSubjects | jobs/createMonthlyFees.js:46-52 | With no subjects the charge and the discount are both 0. |
| Charge.FeeForOneSubject | jobs/createMonthlyFees.js:46-52 | With one subject there is no discount and the charge is its price. |
| Charge.FeeForSeveralSubjects | jobs/createMonthlyFees.js:46-52 | With more than one subject the discount is 50 per subject and the stored total is the sum of prices minus it. |
| Charge.FeeNegativeWhenSubjectsCheap | jobs/createMonthlyFees.js:46-52 | The total is not clamped: several subjects each priced below 50 give a negative total. |
| Charge.SumPricesPermutation | controllers/student.js:52-60 | The sum of prices does not depend on the order in which the store returns the subjects. |
| Charge.ThreeSubjectExample | controllers/student.js:56-62 | Prices 100, 80 and 60 give a discount of 150 and a total of 90. |
| Database.EnrolledMembers | controllers/student.js:52-54 | The subjects charged are exactly the table's subjects whose key is among the student's subject keys. |
| Database.HistoryMembers | jobs/createMonthlyFees.js:8-15 | A student's history holds exactly the table's records for that student. |
| Database.HistoryOfAppend | jobs/createMonthlyFees.js:55-65 | Appending records appends each student's share of them to that student's history. |
| Database.StoredMonthsDistinct | controllers/student.js:199-207 | Under the billing invariant, no two records of one student store the same month. |
| Database.AtMostTwelveRecords | jobs/createMonthlyFees.js:37-44 | With English month names, a table whose due-date labels are distinct per student holds at most twelve records per student. |
| MonthlyFees.HasLabelIff | jobs/createMonthlyFees.js:37-42 | The duplicate guard fires exactly when some record of the student has a due date carrying the candidate's label. |
| MonthlyFees.BilledLabelIsNew | jobs/createMonthlyFees.js:36-44 | A due date the sweep bills has a label that differs from the due-date label of every earlier record of the student. |
| MonthlyFees.FirstRecordAfterThirtyDays | jobs/createMonthlyFees.js:77-107 | A student with no records gets exactly one record, due 30 days after registration, with no duplicate check. |
| MonthlyFees.NothingBeforeDueDate | jobs/createMonthlyFees.js:22-26 | While the latest record's due date is not before now, nothing is written for the student. |
| MonthlyFees.NextRecordAfterThirtyOneDays | jobs/createMonthlyFees.js:26-44 | Once the latest record is overdue, a record due 31 days after it is written exactly when no record of the student has a due date with that month's name. |
| MonthlyFees.FeeRecordOwesWholeTotal | jobs/createMonthlyFees.js:55-65 | A written record belongs to the student, stores its due date's label, has nothing paid and owes its whole charge, and carries the charge formula's total and discount. |
| MonthlyFees.NoneThrowsIff | jobs/createMonthlyFees.js:116-118 | No insert threw among the first n students exactly when each of them was not due a record or is not among the failing ones. |
| MonthlyFees.CheckAndCreatePayments | jobs/createMonthlyFees.js:5-119 | The sweep appends, in student order, each visited student's records to the payments read at the start. It stops at the first student whose insert throws, keeping what was written before. It changes nothing else and keeps the store's key constraints. |
| MonthlyFees.BillStudent | jobs/createMonthlyFees.js:21-112 | One iteration appends the student's due record, if any. It throws exactly when a record is due and the insert fails, and then writes nothing. |
| MonthlyFees.NewRecordFacts | jobs/createMonthlyFees.js:97-107 | Every record written for a student belongs to that student, stores its due date's label, has nothing paid and owes its whole total. |
| MonthlyFees.CreatedRecordsAreFresh | jobs/createMonthlyFees.js:55-65 | Every record a sweep writes is such a fresh record and belongs to one of the students it visited. |
| MonthlyFees.SweepKeepsKeys | jobs/createMonthlyFees.js:55-65 | A sweep keeps every payment's student key among the handed-out keys. |
| MonthlyFees.NotVisitedNotBilled | jobs/createMonthlyFees.js:20-113 | A student the sweep does not reach gets no record. |
| MonthlyFees.CreatedForStudent | jobs/createMonthlyFees.js:20-113 | What a sweep writes for a visited student whose key no other visited student shares is exactly that student's own outcome: at most one record per student per sweep. |
| MonthlyFees.AtMostOneRecord | jobs/createMonthlyFees.js:24-112 | The outcome for one student is one record or none. |
| MonthlyFees.SweepKeepsInvariant | jobs/createMonthlyFees.js:20-113 | A sweep keeps the billing invariant: due-date labels stay distinct per student, stored months match due dates, and every record owes its total minus what was paid. |
| MonthlyFees.CaughtUpThenNotDue | jobs/createMonthlyFees.js:22-26 | A student whose new record is not yet overdue is not billed again once that record is in the table. |
| MonthlyFees.SecondSweepCreatesNothing | jobs/createMonthlyFees.js:22-29 | Re-running at the same time writes nothing when every student's new record from the first run is not yet overdue. |
| MonthlyFees.BehindThenNextPeriod | jobs/createMonthlyFees.js:22-44 | A student whose new record is already overdue is billed by the next run 31 days after that record exactly when no record of the student has that month's name; otherwise nothing is written though the student is still behind. |
| MonthlyFees.AlreadyBilledStaysBilled | jobs/createMonthlyFees.js:26-44 | Once the duplicate guard holds a student back, it gives the same answer at every later time while the student's records are unchanged. |
| MonthlyFees.FirstAndNextCycleExample | jobs/createMonthlyFees.js:77-107 | Registered 2024-01-01 with one subject at 100: first record due 2024-01-31 (January, 100), the next due 2024-03-02 (March). |
| StudentController.MissingReference | controllers/student.js:18-26 | The request passes the checks exactly when user, level and centre all exist; a missing user is reported first, then a missing level. |
| StudentController.InitialPayment | controllers/student.js:64-77 | The initial payment falls due 31 days after registration, stores that date's label, has nothing paid, owes its whole total, and carries the charge formula's total and discount. |
| StudentController.Recompute | controllers/student.js:222-229 | A recomputed record keeps its owner, stored month, due date and amount paid, takes the new total and discount, and owes the new total minus what was paid. |
| StudentController.FindStudent | controllers/student.js:173-174 | The student written by an edit is the first with the requested key, and there is none when no student has it. |
| StudentController.FirstMonthRecord | controllers/student.js:199-207 | The record an edit finds belongs to the student, stores the current month's name, and no earlier record does; none is found when no record matches. |
| StudentController.Retotal | controllers/student.js:209-230 | An edit leaves every payment record other than the one found as it was, and the table's length unchanged. |
| StudentController.CreateStudent | controllers/student.js:4-92 | A missing reference gives 400 and an unknown subject 500, both with no write. Otherwise one student and exactly one initial payment for it are appended under the next key. The store's key constraints and the billing invariant are kept. |
| StudentController.UpdateStudent | controllers/student.js:146-246 | A missing reference gives 400, and an unknown student or subject gives 500, both with no write. Otherwise the student is rewritten and only the current month's record, if found, is recomputed. The key constraints and the billing invariant are kept. |
| StudentController.CreateKeepsInvariant | controllers/student.js:67-77 | Appending a fresh record for a student with no records keeps the billing invariant. |
| StudentController.RetotalKeepsInvariant | controllers/student.js:222-229 | An edit keeps the billing invariant. |
| StudentController.EditTargetIsUnique | controllers/student.js:199-207 | Under the billing invariant, the record an edit finds is the student's only record storing that month, and its due date carries that month's name. |
| StudentController.InitialPaymentOneDayLater | controllers/student.js:64-65 | The initial payment equals the sweep's first-cycle record except that it falls due one day later, with that day's label. |
| StudentController.CreatedStudentSkipsFirstCycle | controllers/student.js:64-77 | For a student whose only record is the initial payment, however later edits changed it, the sweep writes nothing until that record is overdue. After that it bills 31 days later, unless the month name repeats. |
| StudentController.RecomputeExample | controllers/student.js:214-227 | Paid 20 and re-enrolled in subjects at 100, 80 and 60: the total becomes 90, the discount 150, and 70 is owed. |
| StudentController.RecomputeOverpaid | controllers/student.js:227 | What is owed is not clamped: paying more than the new total leaves a negative amount owed. |
| StudentController.InitialPaymentExample | controllers/student.js:64-75 | Registered 2024-01-01 with one subject at 100: the initial payment is due 2024-02-01, labelled February, for 100 with no discount. |

## Left out

- The database client and the HTTP layer are left out. The tables are in-memory sequences, and only the 201/200/400/500 outcomes are modelled, without their message bodies or the related rows returned with them.
- Student fields that billing does not read are left out: names, phone numbers and sex. An edit is modelled with every billing field present; fields left out of a request body are not modelled.
- The cron schedule and all console logging are left out.
- Time zones, daylight saving and locale are left out. Dates are whole day numbers, "now" is a day number parameter, and the month naming is a parameter.
- Prices are integers; fractional prices are not modelled.
- Store failures are modelled only as listed here. In the sweep, only payment inserts may throw, and the initial fetch of students is not modelled as failing. In the controller, failures are an unknown student key, or an unknown subject key in the link. A failure of the payment insert after the student insert in `createStudent`, which would leave a student without a payment, is not modelled.
- Concurrency is not modelled: overlapping sweeps (the schedule fires every minute) and edits racing a sweep. Each operation is atomic.
- `getAllStudents`, `getStudentById` and `deleteStudent` are left out; they contain no billing rules.
- controllers/payment.js is left out. That includes its `amountDue || totalAmount - amountPaid` fallback, and the user, level, centre, subject and auth controllers and the router.
- MonthlyFees.CheckAndCreatePayments: its postcondition keeps the store's key constraints but does not restate the billing invariant. The invariant follows from the postcondition's payment equation by `MonthlyFees.SweepKeepsInvariant`, which is stated on the same function.
- StudentController.FirstMonthRecord: `payments.findFirst` is called without an ordering, so the store does not define which matching record comes first. The model takes creation order. Under the billing invariant at most one record matches (`StudentController.EditTargetIsUnique`), so there the order makes no difference.
