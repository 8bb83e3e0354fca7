/**
 * The employee filters of FunctionalProgramming: the fixed-condition
 * `GetEmployees...` filters of ExtnensionProcedural.cs and the
 * predicate-taking `Filter` of ExtensionFunctional01.cs and
 * ExtensionFunctional02.cs (the same `foreach ... yield return` loop, once as
 * a static method and once as an extension method).
 *
 * The source loads the employees from a repository on every call; here the
 * employee list is a parameter. Every yield filter is `Linq.Where` with the
 * filter's condition; its result is what a consumer pulls from it.
 */
module FunctionalProgramming {
  import Text
  import Linq
  import opened Records

  /** Case-insensitive prefix test: the first `|prefix|` characters of `s` equal `prefix` up to case. */
  predicate StartsWithIgnoreCase(s: string, prefix: string) {
    |prefix| <= |s| && Text.EqualsIgnoreCase(s[..|prefix|], prefix)
  }

  /** Case-insensitive suffix test: the last `|suffix|` characters of `s` equal `suffix` up to case. */
  predicate EndsWithIgnoreCase(s: string, suffix: string) {
    |suffix| <= |s| && Text.EqualsIgnoreCase(s[|s| - |suffix|..], suffix)
  }

  /** Lower-casing both sides and then testing the prefix is a case-insensitive prefix test. */
  lemma PrefixTestIgnoresCase(value: string)
    ensures forall s :: Text.StartsWith(Text.ToLowerInvariant(s), Text.ToLowerInvariant(value))
                        <==> StartsWithIgnoreCase(s, value)
  {
    forall s ensures Text.StartsWith(Text.ToLowerInvariant(s), Text.ToLowerInvariant(value))
                     <==> StartsWithIgnoreCase(s, value) {
      Text.LowerStartsWith(s, value);
    }
  }

  /** Lower-casing both sides and then testing the suffix is a case-insensitive suffix test. */
  lemma SuffixTestIgnoresCase(value: string)
    ensures forall s :: Text.EndsWith(Text.ToLowerInvariant(s), Text.ToLowerInvariant(value))
                        <==> EndsWithIgnoreCase(s, value)
  {
    forall s ensures Text.EndsWith(Text.ToLowerInvariant(s), Text.ToLowerInvariant(value))
                     <==> EndsWithIgnoreCase(s, value) {
      Text.LowerEndsWith(s, value);
    }
  }

  /** Comparing lower-cased strings is a case-insensitive equality test. */
  lemma EqualityTestIgnoresCase(value: string)
    ensures forall s :: Text.ToLowerInvariant(s) == Text.ToLowerInvariant(value)
                        <==> Text.EqualsIgnoreCase(s, value)
  {
    forall s ensures Text.ToLowerInvariant(s) == Text.ToLowerInvariant(value)
                     <==> Text.EqualsIgnoreCase(s, value) {
      Text.LowerEqualsIffIgnoreCase(s, value);
    }
  }

  /** GetEmployeesWithFirstNameStartsWith: a case-insensitive prefix match on the first name. */
  function GetEmployeesWithFirstNameStartsWith(employees: seq<Employee>, value: string): (r: seq<Employee>)
    ensures forall e :: e in r <==> e in employees && StartsWithIgnoreCase(e.firstName, value)
    ensures Linq.Selects(r, employees, (e: Employee) => StartsWithIgnoreCase(e.firstName, value))
  {
    var keep := (e: Employee) => Text.StartsWith(Text.ToLowerInvariant(e.firstName), Text.ToLowerInvariant(value));
    Linq.WhereMembers(employees, keep);
    PrefixTestIgnoresCase(value);
    Linq.WhereCongruent(employees, keep, (e: Employee) => StartsWithIgnoreCase(e.firstName, value));
    Linq.WhereSelects(employees, (e: Employee) => StartsWithIgnoreCase(e.firstName, value));
    Linq.Where(employees, keep)
  }

  /**
   * GetEmployeesWithFirstNameStartsWithOldWay: the same test, but the matches
   * are appended to a new list in a loop and the list is returned.
   */
  method GetEmployeesWithFirstNameStartsWithOldWay(employees: seq<Employee>, value: string) returns (res: seq<Employee>)
    ensures res == GetEmployeesWithFirstNameStartsWith(employees, value)
  {
    var keep := (e: Employee) => Text.StartsWith(Text.ToLowerInvariant(e.firstName), Text.ToLowerInvariant(value));
    res := [];
    for i := 0 to |employees|
      invariant res == Linq.Where(employees[..i], keep)
    {
      var employee := employees[i];
      assert employees[..i + 1] == employees[..i] + [employee];
      Linq.WhereAppend(employees[..i], [employee], keep);
      if Text.StartsWith(Text.ToLowerInvariant(employee.firstName), Text.ToLowerInvariant(value)) {
        res := res + [employee];
      }
    }
    assert employees[..|employees|] == employees;
  }

  /** GetEmployeesWithFirstNameEndsWith: a case-insensitive suffix match on the first name. */
  function GetEmployeesWithFirstNameEndsWith(employees: seq<Employee>, value: string): (r: seq<Employee>)
    ensures forall e :: e in r <==> e in employees && EndsWithIgnoreCase(e.firstName, value)
    ensures Linq.Selects(r, employees, (e: Employee) => EndsWithIgnoreCase(e.firstName, value))
  {
    var keep := (e: Employee) => Text.EndsWith(Text.ToLowerInvariant(e.firstName), Text.ToLowerInvariant(value));
    Linq.WhereMembers(employees, keep);
    SuffixTestIgnoresCase(value);
    Linq.WhereCongruent(employees, keep, (e: Employee) => EndsWithIgnoreCase(e.firstName, value));
    Linq.WhereSelects(employees, (e: Employee) => EndsWithIgnoreCase(e.firstName, value));
    Linq.Where(employees, keep)
  }

  /** GetEmployeesWithLastNameStartsWith: a case-insensitive prefix match on the last name. */
  function GetEmployeesWithLastNameStartsWith(employees: seq<Employee>, value: string): (r: seq<Employee>)
    ensures forall e :: e in r <==> e in employees && StartsWithIgnoreCase(e.lastName, value)
    ensures Linq.Selects(r, employees, (e: Employee) => StartsWithIgnoreCase(e.lastName, value))
  {
    var keep := (e: Employee) => Text.StartsWith(Text.ToLowerInvariant(e.lastName), Text.ToLowerInvariant(value));
    Linq.WhereMembers(employees, keep);
    PrefixTestIgnoresCase(value);
    Linq.WhereCongruent(employees, keep, (e: Employee) => StartsWithIgnoreCase(e.lastName, value));
    Linq.WhereSelects(employees, (e: Employee) => StartsWithIgnoreCase(e.lastName, value));
    Linq.Where(employees, keep)
  }

  /** GetEmployeesWithDepartmentEqualsTo: the department equals `value` up to case. */
  function GetEmployeesWithDepartmentEqualsTo(employees: seq<Employee>, value: string): (r: seq<Employee>)
    ensures forall e :: e in r <==> e in employees && Text.EqualsIgnoreCase(e.department, value)
    ensures Linq.Selects(r, employees, (e: Employee) => Text.EqualsIgnoreCase(e.department, value))
  {
    var keep := (e: Employee) => Text.ToLowerInvariant(e.department) == Text.ToLowerInvariant(value);
    Linq.WhereMembers(employees, keep);
    EqualityTestIgnoresCase(value);
    Linq.WhereCongruent(employees, keep, (e: Employee) => Text.EqualsIgnoreCase(e.department, value));
    Linq.WhereSelects(employees, (e: Employee) => Text.EqualsIgnoreCase(e.department, value));
    Linq.Where(employees, keep)
  }

  /** GetEmployeesHiredInYear: the employees whose hire date falls in `year`. */
  function GetEmployeesHiredInYear(employees: seq<Employee>, year: int): (r: seq<Employee>)
    ensures forall e :: e in r <==> e in employees && e.hireDate.year == year
    ensures Linq.Selects(r, employees, (e: Employee) => e.hireDate.year == year)
  {
    var keep := (e: Employee) => e.hireDate.year == year;
    Linq.WhereMembers(employees, keep);
    Linq.WhereSelects(employees, keep);
    Linq.Where(employees, keep)
  }

  /** GetEmployeesByGender: the gender equals `gender` up to case. */
  function GetEmployeesByGender(employees: seq<Employee>, gender: string): (r: seq<Employee>)
    ensures forall e :: e in r <==> e in employees && Text.EqualsIgnoreCase(e.gender, gender)
    ensures Linq.Selects(r, employees, (e: Employee) => Text.EqualsIgnoreCase(e.gender, gender))
  {
    var keep := (e: Employee) => Text.ToLowerInvariant(e.gender) == Text.ToLowerInvariant(gender);
    Linq.WhereMembers(employees, keep);
    EqualityTestIgnoresCase(gender);
    Linq.WhereCongruent(employees, keep, (e: Employee) => Text.EqualsIgnoreCase(e.gender, gender));
    Linq.WhereSelects(employees, (e: Employee) => Text.EqualsIgnoreCase(e.gender, gender));
    Linq.Where(employees, keep)
  }

  /** GetEmployeesWithHealthInsuranceValueEqualsTo. */
  function GetEmployeesWithHealthInsuranceValueEqualsTo(employees: seq<Employee>, value: bool): (r: seq<Employee>)
    ensures forall e :: e in r <==> e in employees && e.hasHealthInsurance == value
    ensures Linq.Selects(r, employees, (e: Employee) => e.hasHealthInsurance == value)
  {
    var keep := (e: Employee) => e.hasHealthInsurance == value;
    Linq.WhereMembers(employees, keep);
    Linq.WhereSelects(employees, keep);
    Linq.Where(employees, keep)
  }

  /** GetEmployeesWithPensionPlanValueEqualsTo. */
  function GetEmployeesWithPensionPlanValueEqualsTo(employees: seq<Employee>, value: bool): (r: seq<Employee>)
    ensures forall e :: e in r <==> e in employees && e.hasPensionPlan == value
    ensures Linq.Selects(r, employees, (e: Employee) => e.hasPensionPlan == value)
  {
    var keep := (e: Employee) => e.hasPensionPlan == value;
    Linq.WhereMembers(employees, keep);
    Linq.WhereSelects(employees, keep);
    Linq.Where(employees, keep)
  }

  /** GetEmployeesWithSalaryEqualsTo. */
  function GetEmployeesWithSalaryEqualsTo(employees: seq<Employee>, value: real): (r: seq<Employee>)
    ensures forall e :: e in r <==> e in employees && e.salary == value
    ensures Linq.Selects(r, employees, (e: Employee) => e.salary == value)
  {
    var keep := (e: Employee) => e.salary == value;
    Linq.WhereMembers(employees, keep);
    Linq.WhereSelects(employees, keep);
    Linq.Where(employees, keep)
  }

  /** GetEmployeesWithSalaryGreaterThan. */
  function GetEmployeesWithSalaryGreaterThan(employees: seq<Employee>, value: real): (r: seq<Employee>)
    ensures forall e :: e in r <==> e in employees && e.salary > value
    ensures Linq.Selects(r, employees, (e: Employee) => e.salary > value)
  {
    var keep := (e: Employee) => e.salary > value;
    Linq.WhereMembers(employees, keep);
    Linq.WhereSelects(employees, keep);
    Linq.Where(employees, keep)
  }

  /** GetEmployeesWithSalaryLessThan. */
  function GetEmployeesWithSalaryLessThan(employees: seq<Employee>, value: real): (r: seq<Employee>)
    ensures forall e :: e in r <==> e in employees && e.salary < value
    ensures Linq.Selects(r, employees, (e: Employee) => e.salary < value)
  {
    var keep := (e: Employee) => e.salary < value;
    Linq.WhereMembers(employees, keep);
    Linq.WhereSelects(employees, keep);
    Linq.Where(employees, keep)
  }

  /** The procedural filters keep the repository's order: each result is a subsequence of the employees. */
  lemma ProceduralFiltersKeepOrder(employees: seq<Employee>, value: string)
    ensures Linq.IsSubsequence(GetEmployeesWithFirstNameStartsWith(employees, value), employees)
    ensures Linq.IsSubsequence(GetEmployeesWithFirstNameEndsWith(employees, value), employees)
    ensures Linq.IsSubsequence(GetEmployeesWithLastNameStartsWith(employees, value), employees)
    ensures Linq.IsSubsequence(GetEmployeesWithDepartmentEqualsTo(employees, value), employees)
  {
    Linq.WhereIsSubsequence(employees,
      (e: Employee) => Text.StartsWith(Text.ToLowerInvariant(e.firstName), Text.ToLowerInvariant(value)));
    Linq.WhereIsSubsequence(employees,
      (e: Employee) => Text.EndsWith(Text.ToLowerInvariant(e.firstName), Text.ToLowerInvariant(value)));
    Linq.WhereIsSubsequence(employees,
      (e: Employee) => Text.StartsWith(Text.ToLowerInvariant(e.lastName), Text.ToLowerInvariant(value)));
    Linq.WhereIsSubsequence(employees,
      (e: Employee) => Text.ToLowerInvariant(e.department) == Text.ToLowerInvariant(value));
  }

  /** An empty search string is a prefix and a suffix of every name: the prefix and suffix filters keep everyone. */
  lemma EmptySearchMatchesEveryone(employees: seq<Employee>)
    ensures GetEmployeesWithFirstNameStartsWith(employees, "") == employees
    ensures GetEmployeesWithFirstNameEndsWith(employees, "") == employees
    ensures GetEmployeesWithLastNameStartsWith(employees, "") == employees
  {
    Linq.WhereAllTrue(employees,
      (e: Employee) => Text.StartsWith(Text.ToLowerInvariant(e.firstName), Text.ToLowerInvariant("")));
    Linq.WhereAllTrue(employees,
      (e: Employee) => Text.EndsWith(Text.ToLowerInvariant(e.firstName), Text.ToLowerInvariant("")));
    Linq.WhereAllTrue(employees,
      (e: Employee) => Text.StartsWith(Text.ToLowerInvariant(e.lastName), Text.ToLowerInvariant("")));
  }

  /**
   * The health-insurance filters with `true` and with `false` split the
   * employees: every employee is in exactly one of them, and together they are
   * as long as the source.
   */
  lemma {:induction false} HealthInsurancePartition(employees: seq<Employee>)
    ensures forall e :: e in employees ==>
              (e in GetEmployeesWithHealthInsuranceValueEqualsTo(employees, true)
               <==> e !in GetEmployeesWithHealthInsuranceValueEqualsTo(employees, false))
    ensures |GetEmployeesWithHealthInsuranceValueEqualsTo(employees, true)|
          + |GetEmployeesWithHealthInsuranceValueEqualsTo(employees, false)| == |employees|
  {
    if employees != [] {
      HealthInsurancePartition(employees[1..]);
    }
  }

  /** The same split for the pension-plan filters. */
  lemma {:induction false} PensionPlanPartition(employees: seq<Employee>)
    ensures forall e :: e in employees ==>
              (e in GetEmployeesWithPensionPlanValueEqualsTo(employees, true)
               <==> e !in GetEmployeesWithPensionPlanValueEqualsTo(employees, false))
    ensures |GetEmployeesWithPensionPlanValueEqualsTo(employees, true)|
          + |GetEmployeesWithPensionPlanValueEqualsTo(employees, false)| == |employees|
  {
    if employees != [] {
      PensionPlanPartition(employees[1..]);
    }
  }

  /**
   * For any value, every employee's salary is equal to, greater than or less
   * than it: each employee lands in exactly one of the three salary filters,
   * and their lengths add up to the number of employees.
   */
  lemma {:induction false} SalaryTrichotomy(employees: seq<Employee>, value: real)
    ensures forall e :: e in employees ==>
              ((if e in GetEmployeesWithSalaryEqualsTo(employees, value) then 1 else 0)
               + (if e in GetEmployeesWithSalaryGreaterThan(employees, value) then 1 else 0)
               + (if e in GetEmployeesWithSalaryLessThan(employees, value) then 1 else 0) == 1)
    ensures |GetEmployeesWithSalaryEqualsTo(employees, value)|
          + |GetEmployeesWithSalaryGreaterThan(employees, value)|
          + |GetEmployeesWithSalaryLessThan(employees, value)| == |employees|
  {
    if employees != [] {
      SalaryTrichotomy(employees[1..], value);
    }
  }

  /**
   * ExtensionFunctional01.Filter and the extension method
   * ExtensionFunctional02.Filter (the same loop): the employees for which
   * `p` holds, in source order.
   */
  function Filter(employees: seq<Employee>, p: Employee -> bool): (r: seq<Employee>)
    ensures forall e :: e in r <==> e in employees && p(e)
    ensures Linq.Selects(r, employees, p)
    ensures |r| <= |employees|
  {
    Linq.WhereMembers(employees, p);
    Linq.WhereSelects(employees, p);
    Linq.Where(employees, p)
  }

  /** The filter's output is a subsequence of its input: order is kept. */
  lemma FilterKeepsOrder(employees: seq<Employee>, p: Employee -> bool)
    ensures Linq.IsSubsequence(Filter(employees, p), employees)
  {
    Linq.WhereIsSubsequence(employees, p);
  }

  /** Filtering twice with the same predicate is filtering once. */
  lemma FilterIdempotent(employees: seq<Employee>, p: Employee -> bool)
    ensures Filter(Filter(employees, p), p) == Filter(employees, p)
  {
    Linq.WhereIdempotent(employees, p);
  }

  /** An always-false predicate gives nothing; an always-true one gives the source. */
  lemma FilterConstant(employees: seq<Employee>)
    ensures Filter(employees, _ => false) == []
    ensures Filter(employees, _ => true) == employees
  {
    Linq.WhereAllFalse(employees, _ => false);
    Linq.WhereAllTrue(employees, _ => true);
  }

  /** Chained extension calls `.Filter(p).Filter(q)` equal one filter with `p && q`. */
  lemma FilterThenFilter(employees: seq<Employee>, p: Employee -> bool, q: Employee -> bool)
    ensures Filter(Filter(employees, p), q) == Filter(employees, (e: Employee) => p(e) && q(e))
  {
    Linq.WhereFusion(employees, p, q, (e: Employee) => p(e) && q(e));
  }
}
