/** The monthly fee job: one sweep over every student, each student getting
    at most one new payment record.

    For a student with no records the first record falls due 30 days after
    registration. Otherwise the student's most recently created record
    decides: while its due date has not passed nothing happens; once it has,
    the next record falls due 31 days after it, unless some existing record
    of the student already has a due date in that month (by name, whatever
    the year).

    Month labels come from the host's default locale, so the job and its
    properties take the naming `monthName` (day number to label) as a
    parameter; `Calendar.Label`, the English names, is the instance the
    examples use.
 */
module MonthlyFees {
  import opened Calendar
  import opened Charge
  import opened Database

  /** What the sweep decides for one student. */
  datatype Decision =
    | NotDue                       // the latest record's due date has not passed
    | AlreadyBilled(month: string) // a record already falls in the candidate's month
    | Bill(dueDate: int)           // create a record due on `dueDate`

  /** What one run of the job reads: the payments table as it stood when
      the run fetched the students, the subjects table, the clock and the
      host's month naming. */
  datatype Sweep = Sweep(snapshot: seq<Payment>, subjects: seq<Subject>, now: int, monthName: int -> string)

  /** Whether some record of the history has a due date labelled `name`:
      the `student.payments.find(...)` duplicate guard. */
  predicate HasLabel(history: seq<Payment>, name: string, monthName: int -> string)
  {
    history != [] && (monthName(history[|history| - 1].dueDate) == name || HasLabel(history[..|history| - 1], name, monthName))
  }

  lemma {:induction false} HasLabelIff(history: seq<Payment>, name: string, monthName: int -> string)
    ensures HasLabel(history, name, monthName) <==> exists i :: 0 <= i < |history| && monthName(history[i].dueDate) == name
  {
    if history != [] {
      var init := history[..|history| - 1];
      HasLabelIff(init, name, monthName);
      assert forall i :: 0 <= i < |init| ==> init[i] == history[i];
    }
  }

  /** The decision for a student registered on `registrationDate`, whose
      records in creation order are `history`, at time `now`. */
  function Decide(registrationDate: int, history: seq<Payment>, now: int, monthName: int -> string): (d: Decision)
  {
    if history == [] then Bill(registrationDate + 30)
    else
      var latest := history[|history| - 1];
      if latest.dueDate < now then
        var next := latest.dueDate + 31;
        if HasLabel(history, monthName(next), monthName) then AlreadyBilled(monthName(next)) else Bill(next)
      else NotDue
  }

  /** The duplicate guard: a billed due date's label differs from the
      due-date label of every earlier record of the student. */
  lemma BilledLabelIsNew(registrationDate: int, history: seq<Payment>, now: int, monthName: int -> string)
    requires Decide(registrationDate, history, now, monthName).Bill?
    ensures forall i :: 0 <= i < |history| ==>
      monthName(history[i].dueDate) != monthName(Decide(registrationDate, history, now, monthName).dueDate)
  {
    if history != [] {
      HasLabelIff(history, monthName(Decide(registrationDate, history, now, monthName).dueDate), monthName);
    }
  }

  /** The decision for student `s` in a run, read against the run's snapshot. */
  function DecisionFor(s: Student, run: Sweep): Decision
  {
    Decide(s.registrationDate, HistoryOf(run.snapshot, s.id), run.now, run.monthName)
  }

  /** The record written for a student due on `dueDate`, charged for the
      subjects the student is linked to. */
  function FeeRecord(s: Student, dueDate: int, run: Sweep): (p: Payment)
  {
    var fee := FeeFor(Enrolled(run.subjects, s.subjectIds));
    Payment(s.id, run.monthName(dueDate), fee.finalAmount, 0, fee.finalAmount, fee.discount, dueDate)
  }

  /** The records a run writes for one student. */
  function NewRecords(s: Student, run: Sweep): (r: seq<Payment>)
  {
    var d := DecisionFor(s, run);
    if d.Bill? then [FeeRecord(s, d.dueDate, run)] else []
  }

  /** The records a run writes for the first `n` students, in order. */
  function Created(students: seq<Student>, n: nat, run: Sweep): (r: seq<Payment>)
    requires n <= |students|
  {
    if n == 0 then []
    else Created(students, n - 1, run) + NewRecords(students[n - 1], run)
  }

  /** Whether the run's insert for student `s` throws: the student is due a
      record and the store fails on it. */
  predicate InsertThrows(s: Student, run: Sweep, failing: set<nat>)
  {
    DecisionFor(s, run).Bill? && s.id in failing
  }

  /** No insert for the first `n` students throws. */
  predicate NoneThrows(students: seq<Student>, n: nat, run: Sweep, failing: set<nat>)
    requires n <= |students|
  {
    n == 0 || (NoneThrows(students, n - 1, run, failing) && !InsertThrows(students[n - 1], run, failing))
  }

  lemma {:induction false} NoneThrowsIff(students: seq<Student>, n: nat, run: Sweep, failing: set<nat>)
    requires n <= |students|
    ensures NoneThrows(students, n, run, failing) <==> forall j :: 0 <= j < n ==> !InsertThrows(students[j], run, failing)
  {
    if n > 0 {
      NoneThrowsIff(students, n - 1, run, failing);
    }
  }

  /** `checkAndCreatePaymentsForCurrentMonth`: the clock reading is `now`,
      the host's month naming is `monthName`, and `failing` names the
      students whose insert throws. One try/catch wraps the whole loop, so
      the first insert that throws ends the sweep; the records inserted
      before it stay. Returns how many students were visited in full. */
  method CheckAndCreatePayments(db: Db, now: int, monthName: int -> string, failing: set<nat>) returns (processed: nat)
    modifies db`payments
    ensures processed <= |db.students|
    ensures var run := Sweep(old(db.payments), db.subjects, now, monthName);
      && db.payments == old(db.payments) + Created(db.students, processed, run)
      && NoneThrows(db.students, processed, run, failing)
      && (processed < |db.students| ==> InsertThrows(db.students[processed], run, failing))
    ensures old(db.Valid()) ==> db.Valid()
  {
    var students, next := db.students, db.nextStudentId;
    var run := Sweep(db.payments, db.subjects, now, monthName);
    ghost var wasValid := db.Valid();
    processed := 0;
    while processed < |students|
      invariant processed <= |students|
      invariant db.payments == run.snapshot + Created(students, processed, run)
      invariant NoneThrows(students, processed, run, failing)
    {
      var thrown := BillStudent(db, students, processed, run, failing);
      if thrown {
        break;
      }
      processed := processed + 1;
    }
    if wasValid {
      SweepKeepsKeys(students, processed, run, next);
    }
  }

  /** The body of the loop for student `students[i]`: decide, and insert
      the record the student is due, if any. Reports whether the insert
      threw; an insert that throws writes nothing. */
  method BillStudent(db: Db, students: seq<Student>, i: nat, run: Sweep, failing: set<nat>) returns (thrown: bool)
    requires i < |students|
    requires db.payments == run.snapshot + Created(students, i, run)
    requires NoneThrows(students, i, run, failing)
    modifies db`payments
    ensures thrown == InsertThrows(students[i], run, failing)
    ensures thrown ==> db.payments == old(db.payments)
    ensures !thrown ==> db.payments == run.snapshot + Created(students, i + 1, run) && NoneThrows(students, i + 1, run, failing)
  {
    var s := students[i];
    var decision := Decide(s.registrationDate, HistoryOf(run.snapshot, s.id), run.now, run.monthName);
    thrown := false;
    if decision.Bill? {
      if s.id in failing {
        thrown := true;
        return;
      }
      db.payments := db.payments + [FeeRecord(s, decision.dueDate, run)];
    } else {
      assert Created(students, i + 1, run) == Created(students, i, run) + [];
    }
  }

  /** A record as the job writes it: labelled with its due date's month,
      nothing paid yet, the whole total owed. */
  predicate Fresh(p: Payment, monthName: int -> string)
  {
    p.month == monthName(p.dueDate) && p.amountPaid == 0 && p.amountDue == p.totalAmount
  }

  /** Whether one of the first `n` students has key `studentId`. */
  predicate OneOf(students: seq<Student>, n: nat, studentId: nat)
    requires n <= |students|
  {
    exists k :: 0 <= k < n && students[k].id == studentId
  }

  /** A record written for `s` belongs to `s` and is fresh. */
  lemma NewRecordFacts(s: Student, run: Sweep)
    ensures forall p :: p in NewRecords(s, run) ==> p.studentId == s.id && Fresh(p, run.monthName)
  {
  }

  /** Every record a run writes is fresh and belongs to one of the students
      it visited. */
  lemma {:induction false} CreatedRecordsAreFresh(students: seq<Student>, n: nat, run: Sweep)
    requires n <= |students|
    ensures forall i :: 0 <= i < |Created(students, n, run)| ==>
      && Fresh(Created(students, n, run)[i], run.monthName)
      && OneOf(students, n, Created(students, n, run)[i].studentId)
  {
    if n > 0 {
      CreatedRecordsAreFresh(students, n - 1, run);
      var earlier := Created(students, n - 1, run);
      var own := NewRecords(students[n - 1], run);
      var c := Created(students, n, run);
      forall i | 0 <= i < |c|
        ensures Fresh(c[i], run.monthName) && OneOf(students, n, c[i].studentId)
      {
        if i < |earlier| {
          assert c[i] == earlier[i];
          var k :| 0 <= k < n - 1 && students[k].id == earlier[i].studentId;
        } else {
          assert c[i] == own[i - |earlier|];
          NewRecordFacts(students[n - 1], run);
          assert students[n - 1].id == c[i].studentId;
        }
      }
    }
  }

  /** The records a run writes belong to students it visited, so they keep
      every payment's student key below the auto-increment counter. */
  lemma SweepKeepsKeys(students: seq<Student>, n: nat, run: Sweep, nextStudentId: nat)
    requires n <= |students|
    requires KeysValid(students, run.snapshot, nextStudentId)
    ensures KeysValid(students, run.snapshot + Created(students, n, run), nextStudentId)
  {
    var c := Created(students, n, run);
    CreatedRecordsAreFresh(students, n, run);
    forall i | 0 <= i < |run.snapshot + c|
      ensures (run.snapshot + c)[i].studentId < nextStudentId
    {
      if i >= |run.snapshot| {
        assert (run.snapshot + c)[i] == c[i - |run.snapshot|];
        assert OneOf(students, n, c[i - |run.snapshot|].studentId);
      }
    }
  }

  /** The records written for student `s`, seen from the history of `studentId`. */
  lemma OwnRecordsOnly(s: Student, run: Sweep, studentId: nat)
    ensures HistoryOf(NewRecords(s, run), studentId) == if studentId == s.id then NewRecords(s, run) else []
  {
  }

  /** A student the run does not visit gets no record. */
  lemma {:induction false} NotVisitedNotBilled(students: seq<Student>, n: nat, run: Sweep, studentId: nat)
    requires n <= |students|
    requires forall k :: 0 <= k < n ==> students[k].id != studentId
    ensures HistoryOf(Created(students, n, run), studentId) == []
  {
    if n > 0 {
      NotVisitedNotBilled(students, n - 1, run, studentId);
      HistoryOfAppend(Created(students, n - 1, run), NewRecords(students[n - 1], run), studentId);
      OwnRecordsOnly(students[n - 1], run, studentId);
    }
  }

  /** What a run writes for a visited student is exactly that student's
      own decision: one record or none, never more. */
  lemma {:induction false} CreatedForStudent(students: seq<Student>, n: nat, run: Sweep, k: nat)
    requires k < n <= |students|
    requires forall j :: 0 <= j < n && j != k ==> students[j].id != students[k].id
    ensures HistoryOf(Created(students, n, run), students[k].id) == NewRecords(students[k], run)
    ensures |HistoryOf(Created(students, n, run), students[k].id)| <= 1
  {
    if k < n - 1 {
      CreatedForStudent(students, n - 1, run, k);
      CreatedKeepsOthers(students, n, run, students[k].id);
    } else {
      CreatedForLast(students, n, run);
    }
    AtMostOneRecord(students[k], run);
  }

  /** Visiting one more student leaves every other student's history as it was. */
  lemma CreatedKeepsOthers(students: seq<Student>, n: nat, run: Sweep, studentId: nat)
    requires 0 < n <= |students|
    requires studentId != students[n - 1].id
    ensures HistoryOf(Created(students, n, run), studentId) == HistoryOf(Created(students, n - 1, run), studentId)
  {
    CreatedStep(students, n, run, studentId);
  }

  /** The last visited student's history holds exactly its own new records. */
  lemma CreatedForLast(students: seq<Student>, n: nat, run: Sweep)
    requires 0 < n <= |students|
    requires forall j :: 0 <= j < n - 1 ==> students[j].id != students[n - 1].id
    ensures HistoryOf(Created(students, n, run), students[n - 1].id) == NewRecords(students[n - 1], run)
  {
    var last := students[n - 1];
    NotVisitedNotBilled(students, n - 1, run, last.id);
    HistoryOfAfterNone(Created(students, n - 1, run), NewRecords(last, run), last.id);
    OwnRecordsOnly(last, run, last.id);
  }

  /** One more visited student adds its own records, and only those, to
      each student's history. */
  lemma CreatedStep(students: seq<Student>, n: nat, run: Sweep, studentId: nat)
    requires 0 < n <= |students|
    ensures HistoryOf(Created(students, n, run), studentId)
      == HistoryOf(Created(students, n - 1, run), studentId)
         + (if studentId == students[n - 1].id then NewRecords(students[n - 1], run) else [])
  {
    HistoryOfAppend(Created(students, n - 1, run), NewRecords(students[n - 1], run), studentId);
    OwnRecordsOnly(students[n - 1], run, studentId);
  }

  /** A run writes at most one record per student. */
  lemma AtMostOneRecord(s: Student, run: Sweep)
    ensures |NewRecords(s, run)| <= 1
  {
  }

  lemma LabelsDistinctExtend(history: seq<Payment>, p: Payment, monthName: int -> string)
    requires LabelsDistinct(history, monthName)
    requires forall i :: 0 <= i < |history| ==> monthName(history[i].dueDate) != monthName(p.dueDate)
    ensures LabelsDistinct(history + [p], monthName)
  {
  }

  /** A run keeps the billing invariant: the duplicate guard keeps due-date
      labels distinct per student, and every new record carries its due
      date's label and owes its whole total. */
  lemma SweepKeepsInvariant(students: seq<Student>, n: nat, run: Sweep)
    requires n <= |students|
    requires DistinctIds(students)
    requires BillingInvariant(run.snapshot, run.monthName)
    ensures BillingInvariant(run.snapshot + Created(students, n, run), run.monthName)
  {
    var snapshot, monthName := run.snapshot, run.monthName;
    var c := Created(students, n, run);
    var after := snapshot + c;
    CreatedRecordsAreFresh(students, n, run);
    forall i | 0 <= i < |after|
      ensures after[i].month == monthName(after[i].dueDate)
      ensures after[i].amountDue == after[i].totalAmount - after[i].amountPaid
    {
      if i >= |snapshot| {
        assert after[i] == c[i - |snapshot|];
        assert Fresh(c[i - |snapshot|], monthName);
      }
    }
    forall studentId: nat
      ensures LabelsDistinct(HistoryOf(after, studentId), monthName)
    {
      HistoryOfAppend(snapshot, c, studentId);
      var h := HistoryOf(snapshot, studentId);
      assert LabelsDistinct(h, monthName);
      if k :| 0 <= k < n && students[k].id == studentId {
        CreatedForStudent(students, n, run, k);
        var d := DecisionFor(students[k], run);
        if d.Bill? {
          BilledLabelIsNew(students[k].registrationDate, h, run.now, monthName);
          LabelsDistinctExtend(h, FeeRecord(students[k], d.dueDate, run), monthName);
        } else {
          assert h + [] == h;
        }
      } else {
        NotVisitedNotBilled(students, n, run, studentId);
        assert h + [] == h;
      }
    }
  }

  /** Whether a student is caught up after a run: the record the run wrote
      for it, if any, is not yet overdue. */
  predicate CaughtUp(s: Student, run: Sweep)
  {
    var d := DecisionFor(s, run);
    d.Bill? ==> d.dueDate >= run.now
  }

  /** Running the job again at the same time writes nothing when every
      student was caught up by the first run. For a student still behind,
      see `BehindThenNextPeriod`. */
  lemma SecondSweepCreatesNothing(students: seq<Student>, run: Sweep)
    requires DistinctIds(students)
    requires forall k :: 0 <= k < |students| ==> CaughtUp(students[k], run)
    ensures Created(students, |students|, run.(snapshot := run.snapshot + Created(students, |students|, run))) == []
  {
    NothingCreatedOnPrefix(students, run, |students|);
  }

  lemma {:induction false} NothingCreatedOnPrefix(students: seq<Student>, run: Sweep, m: nat)
    requires DistinctIds(students)
    requires forall k :: 0 <= k < |students| ==> CaughtUp(students[k], run)
    requires m <= |students|
    ensures Created(students, m, run.(snapshot := run.snapshot + Created(students, |students|, run))) == []
  {
    if m > 0 {
      var c := Created(students, |students|, run);
      NothingCreatedOnPrefix(students, run, m - 1);
      var s := students[m - 1];
      CreatedForStudent(students, |students|, run, m - 1);
      HistoryOfAppend(run.snapshot, c, s.id);
      CaughtUpThenNotDue(s, run, run.snapshot + c);
    }
  }

  /** A caught-up student, seen after its own record was appended, is not
      billed again. */
  lemma CaughtUpThenNotDue(s: Student, run: Sweep, after: seq<Payment>)
    requires CaughtUp(s, run)
    requires HistoryOf(after, s.id) == HistoryOf(run.snapshot, s.id) + NewRecords(s, run)
    ensures NewRecords(s, run.(snapshot := after)) == []
  {
    var h := HistoryOf(run.snapshot, s.id);
    var d := DecisionFor(s, run);
    if d.Bill? {
      var h' := h + [FeeRecord(s, d.dueDate, run)];
      assert h'[|h'| - 1].dueDate == d.dueDate >= run.now;
    } else {
      assert h + [] == h;
    }
  }

  /** A student still behind after a run, its new record already overdue,
      is billed by the next run 31 days after that record, unless some
      record of the student already has a due date with that month's name;
      then nothing is written although the student is still behind. */
  lemma BehindThenNextPeriod(s: Student, run: Sweep, after: seq<Payment>)
    requires DecisionFor(s, run).Bill? && DecisionFor(s, run).dueDate < run.now
    requires HistoryOf(after, s.id) == HistoryOf(run.snapshot, s.id) + NewRecords(s, run)
    ensures var h, next := HistoryOf(after, s.id), DecisionFor(s, run).dueDate + 31;
      NewRecords(s, run.(snapshot := after))
        == if exists i :: 0 <= i < |h| && run.monthName(h[i].dueDate) == run.monthName(next) then []
           else [FeeRecord(s, next, run.(snapshot := after))]
  {
    var h := HistoryOf(after, s.id);
    var d := DecisionFor(s, run);
    assert h[|h| - 1].dueDate == d.dueDate;
    NextRecordAfterThirtyOneDays(s, run.(snapshot := after));
  }

  /** Once the duplicate guard holds a student back, it does so at every
      later time while the student's records stay the same: the latest due
      date and the candidate do not depend on the time. */
  lemma AlreadyBilledStaysBilled(registrationDate: int, history: seq<Payment>, now: int, later: int, monthName: int -> string)
    requires Decide(registrationDate, history, now, monthName).AlreadyBilled?
    requires later >= now
    ensures Decide(registrationDate, history, later, monthName) == Decide(registrationDate, history, now, monthName)
  {
  }

  /** A student with no records is billed 30 days after registration. */
  lemma FirstRecordAfterThirtyDays(s: Student, run: Sweep)
    requires HistoryOf(run.snapshot, s.id) == []
    ensures NewRecords(s, run) == [FeeRecord(s, s.registrationDate + 30, run)]
  {
  }

  /** While the latest record's due date has not passed, nothing is written. */
  lemma NothingBeforeDueDate(s: Student, run: Sweep)
    requires HistoryOf(run.snapshot, s.id) != []
    requires run.now <= HistoryOf(run.snapshot, s.id)[|HistoryOf(run.snapshot, s.id)| - 1].dueDate
    ensures NewRecords(s, run) == []
  {
  }

  /** Once the latest record is overdue, the next record falls due 31 days
      after it, and is written exactly when no record of the student has a
      due date with that month's name. */
  lemma NextRecordAfterThirtyOneDays(s: Student, run: Sweep)
    requires HistoryOf(run.snapshot, s.id) != []
    requires HistoryOf(run.snapshot, s.id)[|HistoryOf(run.snapshot, s.id)| - 1].dueDate < run.now
    ensures var h := HistoryOf(run.snapshot, s.id);
      var next := h[|h| - 1].dueDate + 31;
      NewRecords(s, run)
        == if exists i :: 0 <= i < |h| && run.monthName(h[i].dueDate) == run.monthName(next) then [] else [FeeRecord(s, next, run)]
  {
    var h := HistoryOf(run.snapshot, s.id);
    HasLabelIff(h, run.monthName(h[|h| - 1].dueDate + 31), run.monthName);
  }

  /** A written record starts with nothing paid and owes its net total, and
      its stored month is the label of its due date. */
  lemma FeeRecordOwesWholeTotal(s: Student, dueDate: int, run: Sweep)
    ensures var p := FeeRecord(s, dueDate, run);
      var fee := FeeFor(Enrolled(run.subjects, s.subjectIds));
      && p.studentId == s.id && p.dueDate == dueDate && p.month == run.monthName(dueDate)
      && p.amountPaid == 0 && p.amountDue == p.totalAmount
      && p.totalAmount == fee.finalAmount && p.discount == fee.discount
  {
  }

  /** Registered on 2024-01-01 (day 19723) with one subject at 100 and no
      records, under English month names: the first record is due
      2024-01-31, labelled January, for 100 with no discount. Once it is
      overdue the next one is due 2024-03-02, labelled March. */
  lemma FirstAndNextCycleExample(now: int)
    requires now > 19753
    ensures var s := Student(7, 19723, 1, 1, 1, {3});
      var table := [Subject(3, 100)];
      var first := Payment(7, "January", 100, 0, 100, 0, 19753);
      && NewRecords(s, Sweep([], table, now, Label)) == [first]
      && NewRecords(s, Sweep([first], table, now, Label)) == [Payment(7, "March", 100, 0, 100, 0, 19784)]
  {
    var table := [Subject(3, 100)];
    EndOfJanuary2024();
    ThirdOfMarch2024();
    assert Enrolled(table, {3}) == [Subject(3, 100)] by {
      assert table[..0] == [];
    }
    FeeForOneSubject(Subject(3, 100));
    var first := Payment(7, "January", 100, 0, 100, 0, 19753);
    assert HistoryOf([first], 7) == [first];
    assert Label(19753) == "January";
    assert [first][..0] == [];
    assert !HasLabel([first], "March", Label);
  }
}
