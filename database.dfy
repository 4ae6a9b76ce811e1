/** The tables the billing code reads and writes, held in memory.

    Each table is a sequence in insertion order. A payment record has no
    separate identifier: its position in `payments` identifies it, and
    "most recently created" means "latest in the sequence".
 */
module Database {
  import opened Calendar
  import opened Charge

  /** A student row; names, phone numbers and sex are not used by billing and
      are left out. `subjectIds` is the many-to-many link to subjects. */
  datatype Student = Student(
    id: nat,
    registrationDate: int,
    registeredBy: nat,
    levelId: nat,
    centreId: nat,
    subjectIds: set<nat>)

  /** A payment record. `month` is the stored month label; `dueDate` is a
      day number. */
  datatype Payment = Payment(
    studentId: nat,
    month: string,
    totalAmount: int,
    amountPaid: int,
    amountDue: int,
    discount: int,
    dueDate: int)

  class Db {
    var users: set<nat>
    var levels: set<nat>
    var centres: set<nat>
    var subjects: seq<Subject>
    var students: seq<Student>
    var payments: seq<Payment>
    /** The next value of the students table's auto-increment key. */
    var nextStudentId: nat

    /** The store's own key constraints. */
    ghost predicate Valid()
      reads this
    {
      KeysValid(students, payments, nextStudentId)
    }

    constructor ()
      ensures Valid()
      ensures users == {} && levels == {} && centres == {}
      ensures subjects == [] && students == [] && payments == []
    {
      users, levels, centres := {}, {}, {};
      subjects, students, payments := [], [], [];
      nextStudentId := 0;
    }
  }

  /** Student keys are unique and below the auto-increment counter, and
      every payment belongs to a student key that has been handed out. */
  ghost predicate KeysValid(students: seq<Student>, payments: seq<Payment>, nextStudentId: nat)
  {
    && DistinctIds(students)
    && (forall i :: 0 <= i < |students| ==> students[i].id < nextStudentId)
    && (forall i :: 0 <= i < |payments| ==> payments[i].studentId < nextStudentId)
  }

  predicate DistinctIds(students: seq<Student>)
  {
    forall i, j :: 0 <= i < j < |students| ==> students[i].id != students[j].id
  }

  /** The subjects a student is linked to, in table order: what both
      `include: { subjects: true }` and `subjects.findMany({ where: { id: { in: ids } } })`
      return. */
  function Enrolled(table: seq<Subject>, ids: set<nat>): (r: seq<Subject>)
    ensures |r| <= |table|
  {
    if table == [] then []
    else
      var last := table[|table| - 1];
      Enrolled(table[..|table| - 1], ids) + (if last.id in ids then [last] else [])
  }

  /** The linked subjects are exactly the table's subjects whose key is
      among the student's subject keys. */
  lemma {:induction false} EnrolledMembers(table: seq<Subject>, ids: set<nat>)
    ensures forall x :: x in Enrolled(table, ids) <==> x in table && x.id in ids
  {
    if table != [] {
      var init := table[..|table| - 1];
      EnrolledMembers(init, ids);
      assert table == init + [table[|table| - 1]];
    }
  }

  /** A student's payment records in creation order. */
  function HistoryOf(payments: seq<Payment>, studentId: nat): (h: seq<Payment>)
    ensures |h| <= |payments|
  {
    HistoryUpTo(payments, |payments|, studentId)
  }

  /** The student's records among the first `n` of the table. */
  function HistoryUpTo(payments: seq<Payment>, n: nat, studentId: nat): (h: seq<Payment>)
    requires n <= |payments|
    ensures |h| <= n
  {
    if n == 0 then []
    else HistoryUpTo(payments, n - 1, studentId) + (if payments[n - 1].studentId == studentId then [payments[n - 1]] else [])
  }

  /** A student's history holds exactly the student's records. */
  lemma HistoryMembers(payments: seq<Payment>, studentId: nat)
    ensures forall p :: p in HistoryOf(payments, studentId) <==> p in payments && p.studentId == studentId
  {
    HistoryUpToMembers(payments, |payments|, studentId);
    assert payments[..|payments|] == payments;
  }

  lemma {:induction false} HistoryUpToMembers(payments: seq<Payment>, n: nat, studentId: nat)
    requires n <= |payments|
    ensures forall p :: p in HistoryUpTo(payments, n, studentId) <==> p in payments[..n] && p.studentId == studentId
  {
    if n > 0 {
      HistoryUpToMembers(payments, n - 1, studentId);
      assert payments[..n] == payments[..n - 1] + [payments[n - 1]];
    }
  }

  /** A student without records among the first `n` has an empty history
      there. */
  lemma {:induction false} HistoryUpToAbsent(payments: seq<Payment>, n: nat, studentId: nat)
    requires n <= |payments|
    requires forall i :: 0 <= i < n ==> payments[i].studentId != studentId
    ensures HistoryUpTo(payments, n, studentId) == []
  {
    if n > 0 {
      HistoryUpToAbsent(payments, n - 1, studentId);
    }
  }

  /** The history among the first `n` records depends on those records only. */
  lemma {:induction false} HistoryUpToPrefix(a: seq<Payment>, b: seq<Payment>, n: nat, studentId: nat)
    requires n <= |a| && n <= |b|
    requires a[..n] == b[..n]
    ensures HistoryUpTo(a, n, studentId) == HistoryUpTo(b, n, studentId)
  {
    if n > 0 {
      assert a[n - 1] == a[..n][n - 1] == b[..n][n - 1] == b[n - 1];
      assert a[..n - 1] == a[..n][..n - 1] == b[..n][..n - 1] == b[..n - 1];
      HistoryUpToPrefix(a, b, n - 1, studentId);
    }
  }

  /** Appending records to the table appends that student's share of them
      to the student's history. */
  lemma HistoryOfAppend(a: seq<Payment>, b: seq<Payment>, studentId: nat)
    ensures HistoryOf(a + b, studentId) == HistoryOf(a, studentId) + HistoryOf(b, studentId)
  {
    HistoryUpToAppend(a, b, |b|, studentId);
  }

  /** Records appended after a table holding none of the student's give
      the student's history of the appended part alone. */
  lemma HistoryOfAfterNone(a: seq<Payment>, b: seq<Payment>, studentId: nat)
    requires HistoryOf(a, studentId) == []
    ensures HistoryOf(a + b, studentId) == HistoryOf(b, studentId)
  {
    HistoryOfAppend(a, b, studentId);
  }

  lemma {:induction false} HistoryUpToAppend(a: seq<Payment>, b: seq<Payment>, m: nat, studentId: nat)
    requires m <= |b|
    ensures HistoryUpTo(a + b, |a| + m, studentId) == HistoryOf(a, studentId) + HistoryUpTo(b, m, studentId)
  {
    if m == 0 {
      assert (a + b)[..|a|] == a[..|a|];
      HistoryUpToPrefix(a + b, a, |a|, studentId);
    } else {
      HistoryUpToAppend(a, b, m - 1, studentId);
      assert (a + b)[|a| + m - 1] == b[m - 1];
    }
  }

  /** The histories among the first `m` records are a prefix of the
      histories among the first `n`, for `m <= n`. */
  lemma {:induction false} HistoryUpToExtends(payments: seq<Payment>, m: nat, n: nat, studentId: nat)
    requires m <= n <= |payments|
    ensures |HistoryUpTo(payments, m, studentId)| <= |HistoryUpTo(payments, n, studentId)|
    ensures forall k :: 0 <= k < |HistoryUpTo(payments, m, studentId)| ==>
      HistoryUpTo(payments, n, studentId)[k] == HistoryUpTo(payments, m, studentId)[k]
  {
    if m < n {
      HistoryUpToExtends(payments, m, n - 1, studentId);
    }
  }

  /** Record `i` of a student sits in the student's history right after the
      student's records that come before it in the table. */
  lemma HistoryPosition(payments: seq<Payment>, i: nat)
    requires i < |payments|
    ensures var h, a := HistoryOf(payments, payments[i].studentId), |HistoryUpTo(payments, i, payments[i].studentId)|;
      a < |h| && h[a] == payments[i]
  {
    HistoryUpToExtends(payments, i + 1, |payments|, payments[i].studentId);
  }

  /** Records of one student keep their table order in the history. */
  lemma HistoryOrder(payments: seq<Payment>, i: nat, j: nat)
    requires i < j < |payments|
    requires payments[i].studentId == payments[j].studentId
    ensures |HistoryUpTo(payments, i, payments[i].studentId)| < |HistoryUpTo(payments, j, payments[j].studentId)|
  {
    HistoryUpToExtends(payments, i + 1, j, payments[i].studentId);
  }

  /** Tables that agree position by position on owners and due dates. */
  ghost predicate SameOwnersAndDueDates(a: seq<Payment>, b: seq<Payment>)
  {
    |a| == |b| && forall i :: 0 <= i < |a| ==> a[i].studentId == b[i].studentId && a[i].dueDate == b[i].dueDate
  }

  /** Such tables give every student histories that agree on due dates. */
  lemma {:induction false} HistoryUpToSameDueDates(a: seq<Payment>, b: seq<Payment>, n: nat, studentId: nat)
    requires SameOwnersAndDueDates(a, b)
    requires n <= |a|
    ensures |HistoryUpTo(a, n, studentId)| == |HistoryUpTo(b, n, studentId)|
    ensures forall k :: 0 <= k < |HistoryUpTo(a, n, studentId)| ==>
      HistoryUpTo(a, n, studentId)[k].dueDate == HistoryUpTo(b, n, studentId)[k].dueDate
  {
    if n > 0 {
      HistoryUpToSameDueDates(a, b, n - 1, studentId);
    }
  }

  /** No two records of a history have due dates with the same month label
      under the naming `monthName`. */
  ghost predicate LabelsDistinct(history: seq<Payment>, monthName: int -> string)
  {
    forall i, j :: 0 <= i < j < |history| ==> monthName(history[i].dueDate) != monthName(history[j].dueDate)
  }

  /** Per student, no two records have due dates with the same month label.
      This is what the monthly job's duplicate guard is meant to keep. */
  ghost predicate DueLabelsDistinct(payments: seq<Payment>, monthName: int -> string)
  {
    forall studentId: nat :: LabelsDistinct(HistoryOf(payments, studentId), monthName)
  }

  /** Every record's stored month label is the label of its due date. */
  ghost predicate MonthsMatchDueDates(payments: seq<Payment>, monthName: int -> string)
  {
    forall i :: 0 <= i < |payments| ==> payments[i].month == monthName(payments[i].dueDate)
  }

  /** Every record owes its total minus what has been paid. */
  ghost predicate Balanced(payments: seq<Payment>)
  {
    forall i :: 0 <= i < |payments| ==> payments[i].amountDue == payments[i].totalAmount - payments[i].amountPaid
  }

  /** What holds of the payments table while only the billing code writes
      to it. */
  ghost predicate BillingInvariant(payments: seq<Payment>, monthName: int -> string)
  {
    DueLabelsDistinct(payments, monthName) && MonthsMatchDueDates(payments, monthName) && Balanced(payments)
  }

  /** Under the billing invariant no two records of one student store the
      same month. */
  lemma StoredMonthsDistinct(payments: seq<Payment>, monthName: int -> string, i: nat, j: nat)
    requires BillingInvariant(payments, monthName)
    requires i < j < |payments| && payments[i].studentId == payments[j].studentId
    ensures payments[i].month != payments[j].month
  {
    HistoryPosition(payments, i);
    HistoryPosition(payments, j);
    HistoryOrder(payments, i, j);
    assert LabelsDistinct(HistoryOf(payments, payments[i].studentId), monthName);
  }

  /** Because English month names ignore the year, a table whose due-date
      labels are distinct per student holds at most twelve records for any
      student. */
  lemma AtMostTwelveRecords(payments: seq<Payment>, studentId: nat)
    requires DueLabelsDistinct(payments, Label)
    ensures |HistoryOf(payments, studentId)| <= 12
  {
    var h := HistoryOf(payments, studentId);
    assert LabelsDistinct(h, Label);
    var months := seq(|h|, i requires 0 <= i < |h| => MonthOf(h[i].dueDate));
    forall i, j | 0 <= i < j < |months|
      ensures months[i] != months[j]
    {
      LabelsEqualIffSameMonth(h[i].dueDate, h[j].dueDate);
    }
    DistinctValuesSize(months);
    BoundedSetSize(set m | m in months, 1, 12);
  }

  /** A sequence of pairwise distinct values has as many distinct values as
      elements. */
  lemma {:induction false} DistinctValuesSize(xs: seq<int>)
    requires forall i, j :: 0 <= i < j < |xs| ==> xs[i] != xs[j]
    ensures |set x | x in xs| == |xs|
  {
    if xs != [] {
      var init := xs[..|xs| - 1];
      var last := xs[|xs| - 1];
      DistinctValuesSize(init);
      assert (set x | x in xs) == (set x | x in init) + {last};
      assert last !in (set x | x in init);
    }
  }

  /** A set of integers drawn from `lo..hi` has at most `hi - lo + 1` members. */
  lemma {:induction false} BoundedSetSize(s: set<int>, lo: int, hi: int)
    requires forall x :: x in s ==> lo <= x <= hi
    ensures |s| <= if hi < lo then 0 else hi - lo + 1
    decreases hi - lo
  {
    if hi < lo {
      assert s == {};
    } else {
      BoundedSetSize(s - {hi}, lo, hi - 1);
      if hi in s {
        assert s == (s - {hi}) + {hi};
      } else {
        assert s == s - {hi};
      }
    }
  }
}
