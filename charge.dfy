/** The tuition charge for a set of enrolled subjects, shared by the monthly
    fee job and the student controller: the sum of the monthly prices, a flat
    discount of 50 per subject once more than one subject is taken, and the
    net amount (sum minus discount) that is stored as the payment's total.
 */
module Charge {

  datatype Subject = Subject(id: nat, pricePerMonth: int)

  /** `subjects.reduce((sum, subject) => sum + subject.pricePerMonth, 0)`:
      a left fold, so the last subject is added last. */
  function SumPrices(subjects: seq<Subject>): (total: int)
  {
    if subjects == [] then 0
    else SumPrices(subjects[..|subjects| - 1]) + subjects[|subjects| - 1].pricePerMonth
  }

  /** The discount for taking `count` subjects. */
  function DiscountFor(count: nat): (discount: int)
  {
    if count > 1 then 50 * count else 0
  }

  /** What is written to a payment record: the discount and the net amount
      stored as `totalAmount`. */
  datatype Fee = Fee(discount: int, finalAmount: int)

  function FeeFor(subjects: seq<Subject>): (fee: Fee)
  {
    var discount := DiscountFor(|subjects|);
    Fee(discount, SumPrices(subjects) - discount)
  }

  /** No subjects: nothing is charged and nothing is discounted. */
  lemma FeeForNoSubjects()
    ensures FeeFor([]) == Fee(0, 0)
  {
  }

  /** One subject: its own price, no discount. */
  lemma FeeForOneSubject(s: Subject)
    ensures FeeFor([s]) == Fee(0, s.pricePerMonth)
  {
    var one := [s];
    assert one[..|one| - 1] == [];
    assert SumPrices(one) == s.pricePerMonth;
  }

  /** Several subjects: 50 off per subject, taken from the sum of prices. */
  lemma FeeForSeveralSubjects(subjects: seq<Subject>)
    requires |subjects| > 1
    ensures FeeFor(subjects).discount == 50 * |subjects|
    ensures FeeFor(subjects).finalAmount + 50 * |subjects| == SumPrices(subjects)
  {
  }

  /** The fee is not clamped: when every subject costs less than 50 and more
      than one is taken, the stored total is negative. */
  lemma FeeNegativeWhenSubjectsCheap(subjects: seq<Subject>)
    requires |subjects| > 1
    requires forall i :: 0 <= i < |subjects| ==> subjects[i].pricePerMonth < 50
    ensures FeeFor(subjects).finalAmount < 0
  {
    SumBelowBound(subjects, 50);
  }

  lemma {:induction false} SumBelowBound(subjects: seq<Subject>, bound: int)
    requires forall i :: 0 <= i < |subjects| ==> subjects[i].pricePerMonth < bound
    ensures subjects != [] ==> SumPrices(subjects) < bound * |subjects|
    ensures subjects == [] ==> SumPrices(subjects) == 0
  {
    if subjects != [] {
      var init := subjects[..|subjects| - 1];
      SumBelowBound(init, bound);
      assert SumPrices(init) <= bound * |init|;
    }
  }

  /** The sum does not depend on the order in which the subjects come back
      from the store. */
  lemma {:induction false} SumPricesPermutation(a: seq<Subject>, b: seq<Subject>)
    requires multiset(a) == multiset(b)
    ensures SumPrices(a) == SumPrices(b)
    decreases |a|
  {
    if a != [] {
      var init, last := a[..|a| - 1], a[|a| - 1];
      assert a == init + [last];
      assert last in multiset(b);
      var k :| 0 <= k < |b| && b[k] == last;
      var rest := b[..k] + b[k + 1..];
      WithoutOne(b, k);
      assert multiset(init) == multiset(a) - multiset{last};
      SumPricesPermutation(init, rest);
      SumWithout(b, k);
    } else {
      assert |b| == |multiset(b)| == 0;
    }
  }

  /** Taking one subject out of a sequence takes one copy of it out of its
      multiset. */
  lemma WithoutOne(s: seq<Subject>, k: nat)
    requires k < |s|
    ensures multiset(s[..k] + s[k + 1..]) == multiset(s) - multiset{s[k]}
  {
    assert s == s[..k] + [s[k]] + s[k + 1..];
  }

  /** Taking one subject out of the fold subtracts exactly its price. */
  lemma {:induction false} SumWithout(s: seq<Subject>, k: nat)
    requires k < |s|
    ensures SumPrices(s) == SumPrices(s[..k] + s[k + 1..]) + s[k].pricePerMonth
    decreases |s|
  {
    var init := s[..|s| - 1];
    if k < |s| - 1 {
      SumWithout(init, k);
      assert s[..k] + s[k + 1..] == (init[..k] + init[k + 1..]) + [s[|s| - 1]];
    } else {
      assert s[..k] + s[k + 1..] == init;
    }
  }

  /** Two subjects priced 100 and 80: total 180, discount 100, net 80. */
  lemma TwoSubjectExample()
    ensures FeeFor([Subject(1, 100), Subject(2, 80)]) == Fee(100, 80)
  {
    var s := [Subject(1, 100), Subject(2, 80)];
    assert s[..1][..0] == [];
    assert SumPrices(s) == 180;
  }

  /** Three subjects priced 100, 80 and 60: total 240, discount 150, net 90. */
  lemma ThreeSubjectExample()
    ensures FeeFor([Subject(1, 100), Subject(2, 80), Subject(3, 60)]) == Fee(150, 90)
  {
    var s := [Subject(1, 100), Subject(2, 80), Subject(3, 60)];
    assert s[..2][..1][..0] == [];
    assert SumPrices(s[..2][..1]) == 100;
    assert SumPrices(s[..2]) == 180;
  }
}
