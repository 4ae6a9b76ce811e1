/** The billing side of the student controller.

    Creating a student checks that the referenced user, level and centre
    exist, inserts the student linked to its subjects, and inserts one
    initial payment record due 31 days after registration. Editing a
    student runs the same checks, rewrites the student, and recomputes in
    place the student's first record whose stored month is the current
    month's name, keeping what has already been paid.

    The responses other than 400 and 500 carry only what billing needs:
    the new student's key, or that the edit went through.
 */
module StudentController {
  import opened Calendar
  import opened Charge
  import opened Database
  import MonthlyFees

  datatype Option<T> = None | Some(value: T)

  /** The request body fields billing depends on; names, phone numbers and
      sex are stored but play no part in billing. */
  datatype StudentForm = StudentForm(
    registrationDate: int,
    registeredBy: nat,
    levelId: nat,
    centreId: nat,
    subjectIds: seq<nat>)

  /** The reference found missing, reported with status 400. */
  datatype Missing = UserMissing | LevelMissing | CentreMissing

  datatype Response =
    | StudentCreated(studentId: nat) // 201
    | StudentUpdated                 // 200
    | BadRequest(missing: Missing)   // 400
    | ServerError                    // 500: the store threw

  /** The three existence checks, user first, then level, then centre; the
      first one that fails decides the response. */
  function MissingReference(users: set<nat>, levels: set<nat>, centres: set<nat>, form: StudentForm): (r: Option<Missing>)
    ensures r.None? <==> form.registeredBy in users && form.levelId in levels && form.centreId in centres
    ensures r == Some(UserMissing) <==> form.registeredBy !in users
    ensures r == Some(LevelMissing) <==> form.registeredBy in users && form.levelId !in levels
  {
    if form.registeredBy !in users then Some(UserMissing)
    else if form.levelId !in levels then Some(LevelMissing)
    else if form.centreId !in centres then Some(CentreMissing)
    else None
  }

  /** Whether every subject key of the form names a subject of the table;
      linking a student to a missing subject makes the store throw. */
  predicate SubjectsExist(table: seq<Subject>, ids: seq<nat>)
  {
    forall id :: id in ids ==> exists k :: 0 <= k < |table| && table[k].id == id
  }

  function SubjectSet(form: StudentForm): set<nat>
  {
    set id | id in form.subjectIds
  }

  /** The student row written from the form under key `id`. */
  function StudentFrom(id: nat, form: StudentForm): Student
  {
    Student(id, form.registrationDate, form.registeredBy, form.levelId, form.centreId, SubjectSet(form))
  }

  /** The payment inserted with a new student: due 31 days after
      registration, labelled with that date's month, nothing paid yet. */
  function InitialPayment(studentId: nat, registrationDate: int, subjects: seq<Subject>, monthName: int -> string): (p: Payment)
    ensures p.studentId == studentId && p.dueDate == registrationDate + 31
    ensures MonthlyFees.Fresh(p, monthName)
    ensures p.totalAmount == FeeFor(subjects).finalAmount && p.discount == FeeFor(subjects).discount
  {
    var fee := FeeFor(subjects);
    Payment(studentId, monthName(registrationDate + 31), fee.finalAmount, 0, fee.finalAmount, fee.discount, registrationDate + 31)
  }

  /** The record an edit recomputes: the new charge and discount, and the
      new charge minus what was already paid still owed. */
  function Recompute(p: Payment, fee: Fee): (q: Payment)
    ensures q.studentId == p.studentId && q.month == p.month && q.dueDate == p.dueDate
    ensures q.amountPaid == p.amountPaid
    ensures q.totalAmount == fee.finalAmount && q.discount == fee.discount
    ensures q.amountDue == q.totalAmount - q.amountPaid
  {
    p.(totalAmount := fee.finalAmount, discount := fee.discount, amountDue := fee.finalAmount - p.amountPaid)
  }

  /** The position of the first student with key `id` among the first `n`:
      what `students.update({ where: { id } })` writes to. */
  function FindStudent(students: seq<Student>, n: nat, id: nat): (r: Option<nat>)
    requires n <= |students|
    ensures r.Some? ==> r.value < n && students[r.value].id == id
    ensures r.None? ==> forall k :: 0 <= k < n ==> students[k].id != id
  {
    if n == 0 then None
    else match FindStudent(students, n - 1, id)
      case Some(k) => Some(k)
      case None => if students[n - 1].id == id then Some(n - 1) else None
  }

  /** Whether a record belongs to the student and stores month `month`. */
  predicate IsMonthRecord(p: Payment, studentId: nat, month: string)
  {
    p.studentId == studentId && p.month == month
  }

  /** The position of the first of the first `n` records that belongs to the
      student and stores month `month`: what
      `payments.findFirst({ where: { studentId, month } })` returns, in
      creation order. */
  function FirstMonthRecord(payments: seq<Payment>, n: nat, studentId: nat, month: string): (r: Option<nat>)
    requires n <= |payments|
    ensures r.Some? ==> r.value < n && IsMonthRecord(payments[r.value], studentId, month)
    ensures r.Some? ==> forall i :: 0 <= i < r.value ==> !IsMonthRecord(payments[i], studentId, month)
    ensures r.None? ==> forall i :: 0 <= i < n ==> !IsMonthRecord(payments[i], studentId, month)
  {
    if n == 0 then None
    else match FirstMonthRecord(payments, n - 1, studentId, month)
      case Some(i) => Some(i)
      case None => if IsMonthRecord(payments[n - 1], studentId, month) then Some(n - 1) else None
  }

  /** The payments table after an edit of student `studentId` whose new
      charge is `fee`, in month `month`: the one record found is
      recomputed, every other record stays as it was. */
  function Retotal(payments: seq<Payment>, studentId: nat, month: string, fee: Fee): (r: seq<Payment>)
    ensures |r| == |payments|
    ensures forall i :: 0 <= i < |r| && FirstMonthRecord(payments, |payments|, studentId, month) != Some(i) ==> r[i] == payments[i]
  {
    match FirstMonthRecord(payments, |payments|, studentId, month)
    case None => payments
    case Some(j) => payments[j := Recompute(payments[j], fee)]
  }

  /** `createStudent`. The form's subjects are linked to the new student
      and charged on its initial payment. */
  method CreateStudent(db: Db, form: StudentForm, monthName: int -> string) returns (response: Response)
    modifies db`students, db`payments, db`nextStudentId
    ensures MissingReference(db.users, db.levels, db.centres, form).Some? ==>
      && response == BadRequest(MissingReference(db.users, db.levels, db.centres, form).value)
      && unchanged(db)
    ensures MissingReference(db.users, db.levels, db.centres, form).None? && !SubjectsExist(db.subjects, form.subjectIds) ==>
      response == ServerError && unchanged(db)
    ensures MissingReference(db.users, db.levels, db.centres, form).None? && SubjectsExist(db.subjects, form.subjectIds) ==>
      var id := old(db.nextStudentId);
      && response == StudentCreated(id)
      && db.students == old(db.students) + [StudentFrom(id, form)]
      && db.payments == old(db.payments) + [InitialPayment(id, form.registrationDate, Enrolled(db.subjects, SubjectSet(form)), monthName)]
      && db.nextStudentId == id + 1
    ensures old(db.Valid()) ==> db.Valid()
    ensures old(db.Valid()) && old(BillingInvariant(db.payments, monthName)) ==> BillingInvariant(db.payments, monthName)
  {
    var missing := MissingReference(db.users, db.levels, db.centres, form);
    if missing.Some? {
      return BadRequest(missing.value);
    }
    if !SubjectsExist(db.subjects, form.subjectIds) {
      return ServerError;
    }
    var id := db.nextStudentId;
    db.students := db.students + [StudentFrom(id, form)];
    db.nextStudentId := id + 1;
    var subjects := Enrolled(db.subjects, SubjectSet(form));
    ghost var before := db.payments;
    db.payments := db.payments + [InitialPayment(id, form.registrationDate, subjects, monthName)];
    response := StudentCreated(id);
    if old(db.Valid()) && BillingInvariant(before, monthName) {
      CreateKeepsInvariant(before, InitialPayment(id, form.registrationDate, subjects, monthName), monthName);
    }
  }

  /** `updateStudent` for the student with key `id`, at time `now`. */
  method UpdateStudent(db: Db, id: nat, form: StudentForm, now: int, monthName: int -> string) returns (response: Response)
    modifies db`students, db`payments
    ensures MissingReference(db.users, db.levels, db.centres, form).Some? ==>
      && response == BadRequest(MissingReference(db.users, db.levels, db.centres, form).value)
      && unchanged(db)
    ensures MissingReference(db.users, db.levels, db.centres, form).None? ==>
      FindStudent(old(db.students), |old(db.students)|, id).None? || !SubjectsExist(db.subjects, form.subjectIds) ==>
      response == ServerError && unchanged(db)
    ensures MissingReference(db.users, db.levels, db.centres, form).None? ==>
      FindStudent(old(db.students), |old(db.students)|, id).Some? && SubjectsExist(db.subjects, form.subjectIds) ==>
      var k := FindStudent(old(db.students), |old(db.students)|, id).value;
      && response == StudentUpdated
      && db.students == old(db.students)[k := StudentFrom(id, form)]
      && db.payments == Retotal(old(db.payments), id, monthName(now), FeeFor(Enrolled(db.subjects, SubjectSet(form))))
    ensures old(db.Valid()) ==> db.Valid()
    ensures old(BillingInvariant(db.payments, monthName)) ==> BillingInvariant(db.payments, monthName)
  {
    var missing := MissingReference(db.users, db.levels, db.centres, form);
    if missing.Some? {
      return BadRequest(missing.value);
    }
    var k := FindStudent(db.students, |db.students|, id);
    if k.None? || !SubjectsExist(db.subjects, form.subjectIds) {
      return ServerError;
    }
    db.students := db.students[k.value := StudentFrom(id, form)];
    ghost var fee := FeeFor(Enrolled(db.subjects, SubjectSet(form)));
    ghost var before := db.payments;
    var current := FirstMonthRecord(db.payments, |db.payments|, id, monthName(now));
    if current.Some? {
      var subjects := Enrolled(db.subjects, SubjectSet(form));
      db.payments := db.payments[current.value := Recompute(db.payments[current.value], FeeFor(subjects))];
    }
    response := StudentUpdated;
    if BillingInvariant(before, monthName) {
      RetotalKeepsInvariant(before, id, monthName(now), fee, monthName);
    }
  }

  /** Inserting a fresh record for a student with no records keeps the
      billing invariant: the student's history is that one record. */
  lemma CreateKeepsInvariant(payments: seq<Payment>, p: Payment, monthName: int -> string)
    requires forall i :: 0 <= i < |payments| ==> payments[i].studentId != p.studentId
    requires MonthlyFees.Fresh(p, monthName)
    requires BillingInvariant(payments, monthName)
    ensures BillingInvariant(payments + [p], monthName)
  {
    forall studentId: nat
      ensures LabelsDistinct(HistoryOf(payments + [p], studentId), monthName)
    {
      HistoryOfAppend(payments, [p], studentId);
      assert HistoryOf([p], studentId) == HistoryUpTo([p], 0, studentId) + (if p.studentId == studentId then [p] else []);
      if studentId == p.studentId {
        HistoryUpToAbsent(payments, |payments|, studentId);
      } else {
        assert HistoryOf(payments, studentId) + [] == HistoryOf(payments, studentId);
      }
    }
    assert forall i :: 0 <= i < |payments| ==> (payments + [p])[i] == payments[i];
  }

  /** An edit keeps the billing invariant: the recomputed record keeps its
      owner, stored month and due date, and owes its new total minus what
      was paid. */
  lemma RetotalKeepsInvariant(payments: seq<Payment>, studentId: nat, month: string, fee: Fee, monthName: int -> string)
    requires BillingInvariant(payments, monthName)
    ensures BillingInvariant(Retotal(payments, studentId, month, fee), monthName)
  {
    var r := Retotal(payments, studentId, month, fee);
    forall i | 0 <= i < |r|
      ensures r[i].studentId == payments[i].studentId && r[i].dueDate == payments[i].dueDate
      ensures r[i].month == payments[i].month
      ensures r[i].amountDue == r[i].totalAmount - r[i].amountPaid
    {
      if FirstMonthRecord(payments, |payments|, studentId, month) == Some(i) {
        assert r[i] == Recompute(payments[i], fee);
      }
    }
    forall sid: nat
      ensures LabelsDistinct(HistoryOf(r, sid), monthName)
    {
      HistoryUpToSameDueDates(payments, r, |payments|, sid);
      assert LabelsDistinct(HistoryOf(payments, sid), monthName);
    }
  }

  /** Under the billing invariant the record an edit finds is the student's
      only record storing that month, and its due date carries that
      month's name. */
  lemma EditTargetIsUnique(payments: seq<Payment>, studentId: nat, month: string, monthName: int -> string)
    requires BillingInvariant(payments, monthName)
    requires FirstMonthRecord(payments, |payments|, studentId, month).Some?
    ensures var j := FirstMonthRecord(payments, |payments|, studentId, month).value;
      && monthName(payments[j].dueDate) == month
      && forall i :: 0 <= i < |payments| && i != j ==> !IsMonthRecord(payments[i], studentId, month)
  {
    var j := FirstMonthRecord(payments, |payments|, studentId, month).value;
    forall i | 0 <= i < |payments| && i != j
      ensures !IsMonthRecord(payments[i], studentId, month)
    {
      if j < i && IsMonthRecord(payments[i], studentId, month) {
        StoredMonthsDistinct(payments, monthName, j, i);
      }
    }
  }

  /** The initial payment is the record the job would write for a student
      without records, except that it falls due one day later and carries
      that day's label. */
  lemma InitialPaymentOneDayLater(s: Student, run: MonthlyFees.Sweep)
    ensures var p := InitialPayment(s.id, s.registrationDate, Enrolled(run.subjects, s.subjectIds), run.monthName);
      var q := MonthlyFees.FeeRecord(s, s.registrationDate + 30, run);
      p.dueDate == q.dueDate + 1 && p == q.(dueDate := q.dueDate + 1, month := run.monthName(q.dueDate + 1))
  {
  }

  /** A student whose only record is `p` never receives the job's
      first-cycle record: nothing is written until `p`'s due date has
      passed, and then the next record falls due 31 days after it unless
      that month has the same name. This holds of the initial payment
      whatever edits have done to its totals since, and whatever the
      student's registration date or subjects have become: the job reads
      only the record's due date. For the initial payment that due date is
      registration + 31, so the job's registration + 30 rule never applies. */
  lemma {:induction false} CreatedStudentSkipsFirstCycle(s: Student, run: MonthlyFees.Sweep, p: Payment)
    requires HistoryOf(run.snapshot, s.id) == [p]
    ensures run.now <= p.dueDate ==> MonthlyFees.NewRecords(s, run) == []
    ensures run.now > p.dueDate ==>
      MonthlyFees.NewRecords(s, run)
        == if run.monthName(p.dueDate + 31) == run.monthName(p.dueDate) then []
           else [MonthlyFees.FeeRecord(s, p.dueDate + 31, run)]
  {
    var h := HistoryOf(run.snapshot, s.id);
    MonthlyFees.HasLabelIff(h, run.monthName(p.dueDate + 31), run.monthName);
  }

  /** Already paid 20, the edit links subjects priced 100, 80 and 60: the
      record's total becomes 90 (240 less a discount of 150) and 70 is
      still owed. */
  lemma RecomputeExample(p: Payment)
    requires p.amountPaid == 20
    ensures var q := Recompute(p, FeeFor([Subject(1, 100), Subject(2, 80), Subject(3, 60)]));
      q.totalAmount == 90 && q.discount == 150 && q.amountDue == 70 && q.amountPaid == 20
  {
    ThreeSubjectExample();
  }

  /** The amount owed is not clamped: when more was paid than the new
      charge, the record owes a negative amount. */
  lemma RecomputeOverpaid(p: Payment, fee: Fee)
    requires p.amountPaid > fee.finalAmount
    ensures Recompute(p, fee).amountDue < 0
  {
  }

  /** A student registered on 2024-01-01 (day 19723) with one subject at
      100: the initial payment is due 2024-02-01, labelled February, for
      100 with no discount. */
  lemma InitialPaymentExample()
    ensures InitialPayment(7, 19723, [Subject(3, 100)], Label) == Payment(7, "February", 100, 0, 100, 0, 19754)
  {
    FirstOfFebruary2024();
    FeeForOneSubject(Subject(3, 100));
  }
}
