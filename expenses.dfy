/**
 * Expense reimbursement: the auto-approval policy for a single expense, and
 * the roll-up of auto-approved amounts over a department hierarchy. Amounts
 * are JavaScript numbers in the source and whole numbers here.
 */
module Expenses {
  import opened Wrappers

  datatype Category = Meals | Travel | OfficeSupplies | Technology | Other

  /** An expense; a missing `is_domestic` or `has_manager_approval` reads as false. */
  datatype Expense = Expense(amount: int, category: Category, isDomestic: bool,
                             hasManagerApproval: bool, employeeId: string)

  datatype Eligibility = Eligibility(autoApproved: bool, reason: string)

  /** The policy's table: each category's amount limit (strict), none for "other". */
  function Limit(c: Category): Option<int>
  {
    match c
    case Meals => Some(75)
    case Travel => Some(500)
    case OfficeSupplies => Some(200)
    case Technology => Some(1000)
    case Other => None
  }

  /** The policy's extra condition: a domestic trip for travel, manager pre-approval for technology. */
  predicate ConditionMet(e: Expense)
  {
    match e.category
    case Travel => e.isDomestic
    case Technology => e.hasManagerApproval
    case _ => true
  }

  /** The written policy: under the category's limit, and its condition met. */
  predicate Policy(e: Expense)
  {
    Limit(e.category).Some? && e.amount < Limit(e.category).value && ConditionMet(e)
  }

  const ReviewReason := "Unknown expenses needs reviews"

  /** The reason given with an approval, one per rule. */
  function ApprovalReason(c: Category): string
  {
    match c
    case Travel => "Travel expense under $500 for domestic trip"
    case Technology => "Technology expense under $1000 with manager approval"
    case Meals => "Meal expenses under $75 are auto-approved"
    case _ => "Office supplies under $200"
  }

  /**
   * `checkExpenseEligibility` with the technology rule as the policy states
   * it: approved exactly when the policy's table says so, with the reason of
   * the rule that applied; otherwise sent to review.
   */
  function Check(e: Expense): (r: Eligibility)
    ensures r.autoApproved <==> Policy(e)
    ensures r.autoApproved ==> r.reason == ApprovalReason(e.category)
    ensures !r.autoApproved ==> r.reason == ReviewReason
  {
    if e.category == Travel && e.amount < 500 && e.isDomestic then
      Eligibility(true, "Travel expense under $500 for domestic trip")
    else if e.category == Technology && e.amount < 1000 && e.hasManagerApproval then
      Eligibility(true, "Technology expense under $1000 with manager approval")
    else if e.category == Meals && e.amount < 75 then
      Eligibility(true, "Meal expenses under $75 are auto-approved")
    else if e.category == OfficeSupplies && e.amount < 200 then
      Eligibility(true, "Office supplies under $200")
    else
      Eligibility(false, ReviewReason)
  }

  /**
   * `checkExpenseEligibility` as written: the technology rule never looks at
   * `has_manager_approval`, and the technology and office-supplies approvals
   * carry the travel and meal reasons.
   */
  function CheckAsWritten(e: Expense): (r: Eligibility)
    ensures r.autoApproved <==> Limit(e.category).Some? && e.amount < Limit(e.category).value
                                && (e.category == Travel ==> e.isDomestic)
    ensures r.autoApproved && e.category == Technology ==> r.reason == ApprovalReason(Travel)
    ensures r.autoApproved && e.category == OfficeSupplies ==> r.reason == ApprovalReason(Meals)
  {
    if e.category == Travel && e.amount < 500 && e.isDomestic then
      Eligibility(true, "Travel expense under $500 for domestic trip")
    else if e.category == Technology && e.amount < 1000 then
      Eligibility(true, "Travel expense under $500 for domestic trip")
    else if e.category == Meals && e.amount < 75 then
      Eligibility(true, "Meal expenses under $75 are auto-approved")
    else if e.category == OfficeSupplies && e.amount < 200 then
      Eligibility(true, "Meal expenses under $75 are auto-approved")
    else
      Eligibility(false, "Unknown expenses needs reviews")
  }

  /** A $900 technology expense without manager approval: approved as written, not by the policy. */
  lemma ApprovalIgnored()
    ensures CheckAsWritten(Expense(900, Technology, true, false, "emp_126")).autoApproved
    ensures !Check(Expense(900, Technology, true, false, "emp_126")).autoApproved
  {
  }

  /** The two agree on every decision except technology without approval. */
  lemma AsWrittenAgrees(e: Expense)
    ensures CheckAsWritten(e).autoApproved == Check(e).autoApproved
            <==> !(e.category == Technology && e.amount < 1000 && !e.hasManagerApproval)
  {
  }

  /** The test expenses of part one: meals 50, domestic travel 450, foreign travel 450, approved technology 900, office supplies 150. */
  lemma PartOneSamples()
    ensures Check(Expense(50, Meals, true, false, "emp_123")).autoApproved
    ensures Check(Expense(450, Travel, true, false, "emp_124")).autoApproved
    ensures !Check(Expense(450, Travel, false, false, "emp_125")).autoApproved
    ensures Check(Expense(900, Technology, true, true, "emp_126")).autoApproved
    ensures Check(Expense(150, OfficeSupplies, true, false, "emp_127")).autoApproved
    ensures !Check(Expense(75, Meals, true, false, "emp_128")).autoApproved
  {
  }

  datatype Employee = Employee(id: string, name: string, expenses: seq<Expense>)

  datatype Department = Department(name: string, employees: seq<Employee>, subdepartments: seq<Department>)

  /*
   * The roll-up is stated for any eligibility check `check`: the source calls
   * the check as written (`CheckAsWritten`), and the policy's intent is the
   * corrected `Check`; every property below holds for both.
   */

  /** `check` auto-approves the expense. */
  predicate Approves(check: Expense -> Eligibility, e: Expense)
  {
    check(e).autoApproved
  }

  /** The total of the expenses among `es` that `check` approves. */
  function ApprovedSum(es: seq<Expense>, check: Expense -> Eligibility): int
  {
    if es == [] then 0
    else ApprovedSum(es[..|es| - 1], check) + (if Approves(check, es[|es| - 1]) then es[|es| - 1].amount else 0)
  }

  predicate AnyApproved(es: seq<Expense>, check: Expense -> Eligibility)
  {
    exists k :: 0 <= k < |es| && Approves(check, es[k])
  }

  /** The total of the approved expenses of all of `staff`. */
  function StaffSum(staff: seq<Employee>, check: Expense -> Eligibility): int
  {
    if staff == [] then 0
    else StaffSum(staff[..|staff| - 1], check) + ApprovedSum(staff[|staff| - 1].expenses, check)
  }

  predicate StaffApproved(staff: seq<Employee>, check: Expense -> Eligibility)
  {
    exists i :: 0 <= i < |staff| && AnyApproved(staff[i].expenses, check)
  }

  /** A department's own entry, before subdepartments: present once some own expense is approved. */
  function OwnEntry(name: string, staff: seq<Employee>, check: Expense -> Eligibility): map<string, int>
  {
    Added(map[], name, StaffApproved(staff, check), StaffSum(staff, check))
  }

  /** Everything approved in a department and all departments below it. */
  function Total(d: Department, check: Expense -> Eligibility): int
    decreases d, 1
  {
    StaffSum(d.employees, check) + SubTotal(d.subdepartments, check)
  }

  function SubTotal(ds: seq<Department>, check: Expense -> Eligibility): int
    decreases ds, 0
  {
    if ds == [] then 0 else SubTotal(ds[..|ds| - 1], check) + Total(ds[|ds| - 1], check)
  }

  /** The names in a hierarchy. */
  function Names(d: Department): set<string>
    decreases d, 1
  {
    {d.name} + NamesOf(d.subdepartments)
  }

  function NamesOf(ds: seq<Department>): set<string>
    decreases ds, 0
  {
    if ds == [] then {} else NamesOf(ds[..|ds| - 1]) + Names(ds[|ds| - 1])
  }

  /**
   * The answer the roll-up stands for: each subdepartment's entries merged in
   * order, a later entry replacing an earlier one with the same name, and then
   * the department's own entry, its total, when it has one.
   */
  function Expected(d: Department, check: Expense -> Eligibility): map<string, int>
    decreases d, 1
  {
    var below := ExpectedAll(d.subdepartments, check);
    if StaffApproved(d.employees, check) then below[d.name := Total(d, check)] else below
  }

  function ExpectedAll(ds: seq<Department>, check: Expense -> Eligibility): map<string, int>
    decreases ds, 0
  {
    if ds == [] then map[] else ExpectedAll(ds[..|ds| - 1], check) + Expected(ds[|ds| - 1], check)
  }

  /**
   * The sums the source adds are defined: a department with subdepartments
   * has an approved expense of its own, and so does every subdepartment.
   */
  ghost predicate Funded(d: Department, check: Expense -> Eligibility)
  {
    && (d.subdepartments != [] ==> StaffApproved(d.employees, check))
    && forall k :: 0 <= k < |d.subdepartments| ==>
         StaffApproved(d.subdepartments[k].employees, check) && Funded(d.subdepartments[k], check)
  }

  /** No department shares its name with a department below it. */
  ghost predicate Unshadowed(d: Department)
  {
    && d.name !in NamesOf(d.subdepartments)
    && forall k :: 0 <= k < |d.subdepartments| ==> Unshadowed(d.subdepartments[k])
  }

  lemma AnyApprovedNext(es: seq<Expense>, check: Expense -> Eligibility, j: nat)
    requires j < |es|
    ensures AnyApproved(es[..j + 1], check) <==> AnyApproved(es[..j], check) || Approves(check, es[j])
    ensures ApprovedSum(es[..j + 1], check)
            == ApprovedSum(es[..j], check) + (if Approves(check, es[j]) then es[j].amount else 0)
  {
    assert es[..j + 1][..j] == es[..j];
    if AnyApproved(es[..j + 1], check) && !Approves(check, es[j]) {
      var k :| 0 <= k < j + 1 && Approves(check, es[..j + 1][k]);
      assert es[..j][k] == es[k];
    }
    if AnyApproved(es[..j], check) {
      var k :| 0 <= k < j && Approves(check, es[..j][k]);
      assert es[..j + 1][k] == es[k];
    }
  }

  /** `m` with the approved amounts among `es` added to the entry `name`, created if need be. */
  function Accum(m: map<string, int>, name: string, es: seq<Expense>, check: Expense -> Eligibility): map<string, int>
  {
    Added(m, name, AnyApproved(es, check), ApprovedSum(es, check))
  }

  /** One expense more: an approved amount is added to the entry, or starts it. */
  lemma AccumNext(m: map<string, int>, name: string, es: seq<Expense>, check: Expense -> Eligibility, j: nat)
    requires j < |es|
    ensures var before := Accum(m, name, es[..j], check);
            var current := Base(before, name);
            Accum(m, name, es[..j + 1], check)
            == if Approves(check, es[j])
               then before[name := if current != 0 then current + es[j].amount else es[j].amount]
               else before
  {
    AnyApprovedNext(es, check, j);
    if !AnyApproved(es[..j], check) {
      ApprovedSumEmpty(es[..j], check);
    }
    AddedNext(m, name, AnyApproved(es[..j], check), ApprovedSum(es[..j], check), Approves(check, es[j]), es[j].amount,
              AnyApproved(es[..j + 1], check), ApprovedSum(es[..j + 1], check));
  }

  /**
   * The inner loop over one employee's expenses: each amount `check`
   * approves is added to the department's entry, which is created by the
   * first one.
   */
  method AddExpenses(result: map<string, int>, name: string, es: seq<Expense>, check: Expense -> Eligibility)
    returns (result': map<string, int>)
    ensures result' == Accum(result, name, es, check)
  {
    result' := result;
    for j := 0 to |es|
      invariant result' == Accum(result, name, es[..j], check)
    {
      var expense := es[j];
      var eligibility := check(expense);
      AccumNext(result, name, es, check, j);
      if eligibility.autoApproved {
        var currentAmount := Base(result', name);
        result' := result'[name := if currentAmount != 0 then currentAmount + expense.amount else expense.amount];
      }
    }
    assert es[..|es|] == es;
  }

  /** A missing entry counts as nothing. */
  function Base<K>(m: map<K, int>, key: K): int
  {
    if key in m then m[key] else 0
  }

  /** `m` with `sum` added to the entry `key`, created if need be, when `any` holds. */
  function Added<K>(m: map<K, int>, key: K, any: bool, sum: int): map<K, int>
  {
    if any then m[key := Base(m, key) + sum] else m
  }

  /** One amount more, added the way the source does it: to a non-zero entry, or as the new entry. */
  lemma AddedNext<K>(m: map<K, int>, key: K, any: bool, sum: int, approved: bool, amount: int, any': bool, sum': int)
    requires !any ==> sum == 0
    requires any' == (any || approved) && sum' == sum + (if approved then amount else 0)
    ensures var before := Added(m, key, any, sum);
            var current := Base(before, key);
            Added(m, key, any', sum')
            == if approved then before[key := if current != 0 then current + amount else amount] else before
  {
    if approved && any {
      Overwrite(m, key, Base(m, key) + sum, Base(m, key) + sum + amount);
    }
  }

  /** Two rounds of adding to the same entry are one round adding both. */
  lemma AddedTwice<K>(m: map<K, int>, key: K, any1: bool, sum1: int, any2: bool, sum2: int)
    requires (!any1 ==> sum1 == 0) && (!any2 ==> sum2 == 0)
    ensures Added(Added(m, key, any1, sum1), key, any2, sum2) == Added(m, key, any1 || any2, sum1 + sum2)
  {
    if any1 && any2 {
      Overwrite(m, key, Base(m, key) + sum1, Base(m, key) + sum1 + sum2);
    }
  }

  lemma StaffNext(staff: seq<Employee>, check: Expense -> Eligibility, i: nat)
    requires i < |staff|
    ensures StaffApproved(staff[..i + 1], check)
            <==> StaffApproved(staff[..i], check) || AnyApproved(staff[i].expenses, check)
    ensures StaffSum(staff[..i + 1], check) == StaffSum(staff[..i], check) + ApprovedSum(staff[i].expenses, check)
  {
    assert staff[..i + 1][..i] == staff[..i];
    if StaffApproved(staff[..i + 1], check) && !AnyApproved(staff[i].expenses, check) {
      var k :| 0 <= k < i + 1 && AnyApproved(staff[..i + 1][k].expenses, check);
      assert staff[..i][k] == staff[k];
    }
    if StaffApproved(staff[..i], check) {
      var k :| 0 <= k < i && AnyApproved(staff[..i][k].expenses, check);
      assert staff[..i + 1][k] == staff[k];
    }
  }

  lemma ApprovedSumEmpty(es: seq<Expense>, check: Expense -> Eligibility)
    requires !AnyApproved(es, check)
    ensures ApprovedSum(es, check) == 0
  {
    if es != [] {
      var init := es[..|es| - 1];
      assert !AnyApproved(init, check) by {
        forall k | 0 <= k < |init| ensures !Approves(check, init[k]) {
          assert init[k] == es[k];
        }
      }
      ApprovedSumEmpty(init, check);
    }
  }

  lemma StaffSumEmpty(staff: seq<Employee>, check: Expense -> Eligibility)
    requires !StaffApproved(staff, check)
    ensures StaffSum(staff, check) == 0
  {
    if staff != [] {
      var init := staff[..|staff| - 1];
      assert !StaffApproved(init, check) by {
        forall i | 0 <= i < |init| ensures !AnyApproved(init[i].expenses, check) {
          assert init[i] == staff[i];
        }
      }
      StaffSumEmpty(init, check);
      ApprovedSumEmpty(staff[|staff| - 1].expenses, check);
    }
  }

  /** One employee more: the entry takes in the employee's approved amounts. */
  lemma OwnNext(name: string, staff: seq<Employee>, check: Expense -> Eligibility, i: nat)
    requires i < |staff|
    ensures OwnEntry(name, staff[..i + 1], check) == Accum(OwnEntry(name, staff[..i], check), name, staff[i].expenses, check)
  {
    var es := staff[i].expenses;
    StaffNext(staff, check, i);
    if !StaffApproved(staff[..i], check) {
      StaffSumEmpty(staff[..i], check);
    }
    if !AnyApproved(es, check) {
      ApprovedSumEmpty(es, check);
    }
    AddedTwice(map[], name, StaffApproved(staff[..i], check), StaffSum(staff[..i], check),
               AnyApproved(es, check), ApprovedSum(es, check));
  }

  /** The outer loop of the first phase: the department's own entry. */
  method OwnPhase(d: Department, check: Expense -> Eligibility) returns (result: map<string, int>)
    ensures result == OwnEntry(d.name, d.employees, check)
  {
    result := map[];
    for i := 0 to |d.employees|
      invariant result == OwnEntry(d.name, d.employees[..i], check)
    {
      result := AddExpenses(result, d.name, d.employees[i].expenses, check);
      OwnNext(d.name, d.employees, check, i);
    }
    assert d.employees[..|d.employees|] == d.employees;
  }

  lemma NamesNext(ds: seq<Department>, k: nat)
    requires k < |ds|
    ensures NamesOf(ds[..k + 1]) == NamesOf(ds[..k]) + Names(ds[k])
  {
    assert ds[..k + 1][..k] == ds[..k];
  }

  lemma ExpectedAllNext(ds: seq<Department>, check: Expense -> Eligibility, k: nat)
    requires k < |ds|
    ensures ExpectedAll(ds[..k + 1], check) == ExpectedAll(ds[..k], check) + Expected(ds[k], check)
  {
    assert ds[..k + 1][..k] == ds[..k];
  }

  lemma SubTotalNext(ds: seq<Department>, check: Expense -> Eligibility, k: nat)
    requires k < |ds|
    ensures SubTotal(ds[..k + 1], check) == SubTotal(ds[..k], check) + Total(ds[k], check)
  {
    assert ds[..k + 1][..k] == ds[..k];
  }

  /** The names below the first `k` subdepartments are among all the names below. */
  lemma {:induction false} NamesPrefix(ds: seq<Department>, k: nat)
    requires k <= |ds|
    ensures NamesOf(ds[..k]) <= NamesOf(ds)
    decreases |ds|
  {
    if k < |ds| {
      assert ds[..|ds| - 1][..k] == ds[..k];
      NamesPrefix(ds[..|ds| - 1], k);
    } else {
      assert ds[..k] == ds;
    }
  }

  /** The roll-up has entries only for names in the hierarchy. */
  lemma {:induction false} ExpectedKeys(d: Department, check: Expense -> Eligibility)
    ensures Expected(d, check).Keys <= Names(d)
    decreases d, 1
  {
    ExpectedAllKeys(d.subdepartments, check);
  }

  lemma {:induction false} ExpectedAllKeys(ds: seq<Department>, check: Expense -> Eligibility)
    ensures ExpectedAll(ds, check).Keys <= NamesOf(ds)
    decreases ds, 0
  {
    if ds != [] {
      ExpectedAllKeys(ds[..|ds| - 1], check);
      ExpectedKeys(ds[|ds| - 1], check);
    }
  }

  /** A department's entry is its total, and it has one exactly when one of its own expenses is approved. */
  lemma ExpectedOwn(d: Department, check: Expense -> Eligibility)
    requires Unshadowed(d)
    ensures d.name in Expected(d, check) <==> StaffApproved(d.employees, check)
    ensures d.name in Expected(d, check) ==> Expected(d, check)[d.name] == Total(d, check)
  {
    ExpectedAllKeys(d.subdepartments, check);
  }

  /** The map algebra of one step of the roll-up. */
  lemma RollStep<K, V>(r: map<K, V>, a: map<K, V>, sub: map<K, V>, key: K, v: V, total: V)
    requires r == a[key := v] && key !in sub
    ensures r[key := total] + sub == (a + sub)[key := total]
  {
    Overwrite(a, key, v, total);
    MergeAfterUpdate(a, key, total, sub);
  }

  lemma MergeBoth<K, V>(a: map<K, V>, a': map<K, V>, b: map<K, V>, b': map<K, V>, c: map<K, V>)
    requires a == a' && b == b' && c == a' + b'
    ensures a + b == c
  {
  }

  /** A second update of the same key replaces the first. */
  lemma Overwrite<K, V>(m: map<K, V>, key: K, x: V, y: V)
    ensures m[key := x][key := y] == m[key := y]
  {
  }

  /** Adding an entry and then merging a map without that key, or the other way round, is the same. */
  lemma MergeAfterUpdate<K, V>(m: map<K, V>, key: K, v: V, sub: map<K, V>)
    requires key !in sub
    ensures m[key := v] + sub == (m + sub)[key := v]
  {
  }

  /** The subdepartment's own entry is its total, and the department's name is not among its entries. */
  lemma SubEntries(d: Department, check: Expense -> Eligibility, k: nat)
    requires k < |d.subdepartments| && Unshadowed(d)
    requires StaffApproved(d.subdepartments[k].employees, check)
    ensures var sub := d.subdepartments[k];
            sub.name in Expected(sub, check) && Expected(sub, check)[sub.name] == Total(sub, check)
            && d.name !in Expected(sub, check)
  {
    var ds := d.subdepartments;
    NamesNext(ds, k);
    NamesPrefix(ds, k + 1);
    ExpectedKeys(ds[k], check);
    ExpectedOwn(ds[k], check);
  }

  /**
   * Where the loop over the subdepartments stands after the first `k`:
   * `merged` is their roll-up, and the department's entry is its own amount
   * plus their totals.
   */
  ghost predicate Rolled(d: Department, check: Expense -> Eligibility, k: nat,
                         result: map<string, int>, merged: map<string, int>)
    requires k <= |d.subdepartments|
  {
    && merged == ExpectedAll(d.subdepartments[..k], check)
    && result == merged[d.name := StaffSum(d.employees, check) + SubTotal(d.subdepartments[..k], check)]
  }

  /** What one subdepartment adds: its roll-up is merged in and its total added to the department's entry. */
  lemma MergeStep(d: Department, check: Expense -> Eligibility, k: nat, result: map<string, int>,
                  merged: map<string, int>, subresult: map<string, int>,
                  result': map<string, int>, merged': map<string, int>)
    requires k < |d.subdepartments| && Rolled(d, check, k, result, merged)
    requires subresult == Expected(d.subdepartments[k], check) && d.name !in subresult
    requires d.subdepartments[k].name in subresult
    requires subresult[d.subdepartments[k].name] == Total(d.subdepartments[k], check)
    requires d.name in result
    requires result' == result[d.name := result[d.name] + subresult[d.subdepartments[k].name]] + subresult
    requires merged' == merged + subresult
    ensures Rolled(d, check, k + 1, result', merged')
  {
    var ds := d.subdepartments;
    ExpectedAllNext(ds, check, k);
    SubTotalNext(ds, check, k);
    MergeBoth(merged, ExpectedAll(ds[..k], check), subresult, Expected(ds[k], check), ExpectedAll(ds[..k + 1], check));
    RollStep(result, merged, subresult, d.name, StaffSum(d.employees, check) + SubTotal(ds[..k], check),
             StaffSum(d.employees, check) + SubTotal(ds[..k + 1], check));
  }

  /**
   * The loop over the subdepartments, one step: recurse, add the
   * subdepartment's total to the department's entry, merge its entries. The
   * ghost `merged` is the roll-up of the subdepartments so far.
   */
  method MergeSub(d: Department, check: Expense -> Eligibility, k: nat, result: map<string, int>,
                  ghost merged: map<string, int>)
    returns (result': map<string, int>, ghost merged': map<string, int>)
    requires k < |d.subdepartments| && Funded(d, check) && StaffApproved(d.employees, check)
    requires d.name in result
    requires Unshadowed(d) ==> Rolled(d, check, k, result, merged)
    ensures d.name in result'
    ensures Unshadowed(d) ==> Rolled(d, check, k + 1, result', merged')
    decreases d, 0
  {
    var subdepartment := d.subdepartments[k];
    var subresult := Calculate(subdepartment, check);
    merged' := merged + subresult;
    result' := result[d.name := result[d.name] + subresult[subdepartment.name]];
    result' := result' + subresult;
    if Unshadowed(d) {
      SubEntries(d, check, k);
      MergeStep(d, check, k, result, merged, subresult, result', merged');
    }
  }

  /** Before the loop: nothing merged yet, and the entry holds the department's own amount. */
  lemma RollStart(d: Department, check: Expense -> Eligibility)
    requires StaffApproved(d.employees, check)
    ensures Rolled(d, check, 0, OwnEntry(d.name, d.employees, check), map[])
  {
    assert d.subdepartments[..0] == [];
  }

  /** After the loop the roll-up is complete. */
  lemma RollEnd(d: Department, check: Expense -> Eligibility, result: map<string, int>, merged: map<string, int>)
    requires StaffApproved(d.employees, check) && Rolled(d, check, |d.subdepartments|, result, merged)
    ensures result == Expected(d, check)
  {
    assert d.subdepartments[..|d.subdepartments|] == d.subdepartments;
  }

  /** Without subdepartments the own entry is the whole roll-up. */
  lemma Leaf(d: Department, check: Expense -> Eligibility)
    requires d.subdepartments == []
    ensures OwnEntry(d.name, d.employees, check) == Expected(d, check)
    ensures d.name in Expected(d, check) <==> StaffApproved(d.employees, check)
  {
    assert Base(map[], d.name) == 0 && Total(d, check) == StaffSum(d.employees, check);
  }

  /**
   * `calculateDepartmentExpenses`, with the eligibility check it calls as the
   * parameter `check` (the source passes nothing and calls `CheckAsWritten`):
   * a department's own approved amounts are summed into its entry, then for
   * each subdepartment in turn the roll-up below it is computed, its total
   * added to the department's entry and its entries merged in. The
   * department has an entry exactly when one of its own expenses is
   * approved; when no department is named like one below it, the answer is
   * the roll-up `Expected`.
   */
  method Calculate(d: Department, check: Expense -> Eligibility) returns (result: map<string, int>)
    requires Funded(d, check)
    ensures d.name in result <==> StaffApproved(d.employees, check)
    ensures Unshadowed(d) ==> result == Expected(d, check)
    decreases d, 1
  {
    result := OwnPhase(d, check);
    if d.subdepartments == [] {
      Leaf(d, check);
      return;
    }
    RollStart(d, check);
    ghost var merged: map<string, int> := map[];
    for k := 0 to |d.subdepartments|
      invariant d.name in result
      invariant Unshadowed(d) ==> Rolled(d, check, k, result, merged)
    {
      result, merged := MergeSub(d, check, k, result, merged);
    }
    if Unshadowed(d) {
      RollEnd(d, check, result, merged);
    }
  }

  /** The hierarchy of the source's example: Design inside Frontend inside Engineering. */
  function Design(): Department
  {
    Department("Design", [Employee("emp_4", "Diana", [Expense(60, Meals, true, false, "emp_4")])], [])
  }

  function Frontend(): Department
  {
    Department("Frontend", [Employee("emp_3", "Charlie", [Expense(150, OfficeSupplies, true, false, "emp_3")])],
               [Design()])
  }

  function Engineering(): Department
  {
    Department("Engineering",
               [Employee("emp_1", "Alice", [Expense(50, Meals, true, false, "emp_1"),
                                            Expense(1200, Technology, true, true, "emp_1")]),
                Employee("emp_2", "Bob", [Expense(300, Travel, true, false, "emp_2")])],
               [Frontend()])
  }

  /**
   * Under the check as written: Design 60; Frontend 150 + 60; Engineering
   * 50 + 300 of its own (the $1200 laptop is over the limit) + 210.
   */
  lemma SampleTotals()
    ensures Total(Design(), CheckAsWritten) == 60 && Total(Frontend(), CheckAsWritten) == 210
    ensures Total(Engineering(), CheckAsWritten) == 560
  {
    var alice := Engineering().employees[0].expenses;
    assert Approves(CheckAsWritten, alice[0]) && !Approves(CheckAsWritten, alice[1]);
    assert ApprovedSum(alice, CheckAsWritten) == 50 by {
      assert alice[..1] == [alice[0]];
    }
    assert Approves(CheckAsWritten, Engineering().employees[1].expenses[0]);
    assert StaffSum(Engineering().employees, CheckAsWritten) == 350 by {
      var staff := Engineering().employees;
      assert staff[..1] == [staff[0]];
    }
    assert Approves(CheckAsWritten, Frontend().employees[0].expenses[0]);
    assert Approves(CheckAsWritten, Design().employees[0].expenses[0]);
  }

  /** Every department of the example has an approved expense of its own, and the names differ. */
  lemma SampleShape()
    ensures Funded(Engineering(), CheckAsWritten) && Unshadowed(Engineering())
  {
    OwnApproved(Design());
    OwnApproved(Frontend());
    OwnApproved(Engineering());
    assert Funded(Design(), CheckAsWritten);
    assert Funded(Frontend(), CheckAsWritten);
  }

  /** A department of the example whose first employee's first expense passes the check as written. */
  lemma OwnApproved(d: Department)
    requires d.employees != [] && d.employees[0].expenses != []
    requires CheckAsWritten(d.employees[0].expenses[0]).autoApproved
    ensures StaffApproved(d.employees, CheckAsWritten)
  {
    assert AnyApproved(d.employees[0].expenses, CheckAsWritten) by {
      assert Approves(CheckAsWritten, d.employees[0].expenses[0]);
    }
  }

  /** The source's call: the example rolls up to Engineering 560, Frontend 210, Design 60. */
  method Sample() returns (result: map<string, int>)
    ensures result == map["Engineering" := 560, "Frontend" := 210, "Design" := 60]
  {
    SampleShape();
    SampleExpected();
    result := Calculate(Engineering(), CheckAsWritten);
  }

  /** The roll-up the example stands for, department by department from the bottom. */
  lemma SampleExpected()
    ensures Expected(Engineering(), CheckAsWritten) == map["Engineering" := 560, "Frontend" := 210, "Design" := 60]
  {
    SampleTotals();
    OwnApproved(Design());
    OwnApproved(Frontend());
    OwnApproved(Engineering());
    assert Expected(Design(), CheckAsWritten) == map["Design" := 60];
    assert Expected(Frontend(), CheckAsWritten) == map["Design" := 60, "Frontend" := 210];
  }

  /** One department whose only expense is a $900 laptop without manager approval. */
  function Unapproved(): Department
  {
    Department("D", [Employee("e", "E", [Expense(900, Technology, true, false, "e")])], [])
  }

  /**
   * The roll-up over the check as written counts the unapproved laptop,
   * the roll-up over the corrected policy does not.
   */
  method UnapprovedLaptop() returns (asWritten: map<string, int>, corrected: map<string, int>)
    ensures asWritten == map["D" := 900]
    ensures corrected == map[]
  {
    var es := Unapproved().employees[0].expenses;
    assert Approves(CheckAsWritten, es[0]) && !Approves(Check, es[0]);
    assert es[..0] == [] && es[..1] == es;
    assert StaffSum(Unapproved().employees, CheckAsWritten) == 900;
    assert Unshadowed(Unapproved());
    asWritten := Calculate(Unapproved(), CheckAsWritten);
    corrected := Calculate(Unapproved(), Check);
  }
}
