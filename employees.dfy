/** The employee record (Funcionario): a person with a salary and a role.
    Salaries are BigDecimal amounts with two decimals, modelled exactly as
    integer cents; a raise percentage is a whole number. */
module Employees {
  import opened Text
  import opened Dates
  import opened Results
  import opened Persons

  /** The fields of an employee at one moment. `person` is the inherited part. */
  datatype EmployeeState = EmployeeState(person: Person, salary: nat, role: string) {

    /** What construction and every setter maintain. */
    predicate Valid() {
      person.Valid() && salary > 0 && role != [] && IsTrimmed(role)
    }
  }

  // ---------------------------------------------------------------------
  // Fixed-point arithmetic

  /** salary.multiply(1 + percent/100).setScale(2, HALF_UP), in cents: the
      exact product `cents * (100 + percent) / 100` rounded half-up to a
      whole number of cents. */
  function RaisedCents(cents: nat, percent: nat): (r: nat)
    ensures 100 * r - 50 <= cents * (100 + percent) < 100 * r + 50
  {
    (cents * (100 + percent) + 50) / 100
  }

  /** Half-up rounding to cents has one answer. */
  lemma RoundingIsUnique(x: int, r1: int, r2: int)
    requires 100 * r1 - 50 <= x < 100 * r1 + 50
    requires 100 * r2 - 50 <= x < 100 * r2 + 50
    ensures r1 == r2
  {
  }

  /** A raise of 0% leaves a salary in cents as it is. */
  lemma RaiseByZero(cents: nat)
    ensures RaisedCents(cents, 0) == cents
  {
    RoundingIsUnique(cents * 100, RaisedCents(cents, 0), cents);
  }

  /** A raise never lowers a salary in cents, so a positive salary stays positive. */
  lemma RaiseNeverLowers(cents: nat, percent: nat)
    ensures RaisedCents(cents, percent) >= cents
  {
    assert cents * (100 + percent) == 100 * cents + cents * percent;
    assert cents * percent >= 0;
  }

  /** salary.divide(minWage, 2, HALF_UP), in hundredths: the exact quotient
      `salary / minWage` rounded half-up to two decimals. */
  function WageMultiple(salary: nat, minWage: nat): (r: nat)
    requires minWage > 0
    ensures 2 * minWage * r <= 200 * salary + minWage < 2 * minWage * (r + 1)
  {
    var n, d := 200 * salary + minWage, 2 * minWage;
    var q := n / d;
    assert d * q <= n < d * (q + 1) by {
      assert n == d * q + n % d;
    }
    q
  }

  /** For a fixed salary, a larger minimum wage never gives a larger multiple. */
  lemma WageMultipleAntitone(salary: nat, minWage1: nat, minWage2: nat)
    requires 0 < minWage1 <= minWage2
    ensures WageMultiple(salary, minWage2) <= WageMultiple(salary, minWage1)
  {
    var r1, r2 := WageMultiple(salary, minWage1), WageMultiple(salary, minWage2);
    if r2 > r1 {
      var k := 2 * r2 - 1;
      assert k >= 1;
      assert k * minWage2 == 2 * minWage2 * r2 - minWage2;
      MultiplyMonotone(k, minWage1, minWage2);
      assert k * minWage1 == 2 * minWage1 * r2 - minWage1;
      // so 2 * minWage1 * r2 <= 200 * salary + minWage1 < 2 * minWage1 * (r1 + 1)
      MultiplyMonotone(2 * minWage1, r1 + 1, r2);
      assert false;
    }
  }

  lemma MultiplyMonotone(k: int, a: int, b: int)
    requires k >= 0 && a <= b
    ensures k * a <= k * b
  {
  }

  // ---------------------------------------------------------------------
  // Construction and the value-level operations

  /** The constructor's checks in order: the person's (blank name, birth date
      after `today`), then a salary that is not positive, then a blank role.
      On success the role is stored trimmed and the salary as given. */
  function Hire(name: string, birthDate: LocalDate, salary: int, role: string, today: LocalDate)
    : (r: Result<EmployeeState>)
    ensures NewPerson(name, birthDate, today).Err? ==> r == Err(NewPerson(name, birthDate, today).error)
    ensures NewPerson(name, birthDate, today).Ok? && salary <= 0 ==> r == Err(NonPositiveSalary)
    ensures NewPerson(name, birthDate, today).Ok? && salary > 0 && IsBlank(role) ==> r == Err(BlankRole)
    ensures r.Ok? <==> NewPerson(name, birthDate, today).Ok? && salary > 0 && !IsBlank(role)
    ensures r.Ok? ==> && r.value.Valid()
                      && r.value.person == NewPerson(name, birthDate, today).value
                      && r.value.salary == salary
                      && r.value.role == Trim(role)
  {
    match NewPerson(name, birthDate, today)
    case Err(e) => Err(e)
    case Ok(p) =>
      if salary <= 0 then Err(NonPositiveSalary)
      else if IsBlank(role) then Err(BlankRole)
      else Ok(EmployeeState(p, salary, Trim(role)))
  }

  /** The state after aplicarAumento with a non-negative percentage. */
  function Raise(e: EmployeeState, percent: nat): (r: EmployeeState)
    ensures r.person == e.person && r.role == e.role
    ensures e.Valid() ==> r.Valid() && r.salary >= e.salary
    ensures r.salary == RaisedCents(e.salary, percent)
    ensures percent == 0 ==> r == e
  {
    RaiseNeverLowers(e.salary, percent);
    RaiseByZero(e.salary);
    e.(salary := RaisedCents(e.salary, percent))
  }

  /** calcularSalariosMinimos: rejects a minimum wage that is not positive;
      otherwise the salary as a multiple of it, rounded half-up to hundredths. */
  function MinimumWageMultiple(e: EmployeeState, minWage: int): (r: Result<nat>)
    ensures r.Err? <==> minWage <= 0
    ensures r.Err? ==> r.error == NonPositiveMinimumWage
    ensures r.Ok? ==> 2 * minWage * r.value <= 200 * e.salary + minWage < 2 * minWage * (r.value + 1)
  {
    if minWage <= 0 then Err(NonPositiveMinimumWage) else Ok(WageMultiple(e.salary, minWage))
  }

  /** fazAniversarioNoMes: rejects a month outside 1..12; otherwise whether
      the birth date falls in that month. */
  function BornInMonth(e: EmployeeState, month: int): (r: Result<bool>)
    ensures r.Err? <==> month < 1 || month > 12
    ensures r.Err? ==> r.error == MonthOutOfRange
    ensures r.Ok? ==> (r.value <==> e.person.birthDate.month == month)
  {
    if month < 1 || month > 12 then Err(MonthOutOfRange)
    else Ok(e.person.birthDate.month == month)
  }

  /** compareTo: the names compared ignoring case; 0 exactly when the names
      are equal ignoring case. */
  function CompareTo(a: EmployeeState, b: EmployeeState): (r: int)
    ensures r == 0 <==> EqualsIgnoreCase(a.person.name, b.person.name)
  {
    CompareIgnoreCase(a.person.name, b.person.name)
  }

  /** equals: the person's equality, and the same salary and role; that is,
      value equality of the state. */
  predicate Equals(a: EmployeeState, b: EmployeeState)
    ensures Equals(a, b) <==> a == b
  {
    a.person.Equals(b.person) && a.salary == b.salary && a.role == b.role
  }

  /** compareTo depends only on the names up to case. */
  lemma CompareToRespectsCase(a: EmployeeState, a': EmployeeState, b: EmployeeState)
    requires EqualsIgnoreCase(a.person.name, a'.person.name)
    ensures CompareTo(a, b) == CompareTo(a', b) && CompareTo(b, a) == CompareTo(b, a')
  {
    CompareRespectsCase(a.person.name, a'.person.name, b.person.name);
  }

  /** compareTo is antisymmetric in sign (indeed in value). */
  lemma CompareToAntisymmetric(a: EmployeeState, b: EmployeeState)
    ensures CompareTo(a, b) == -CompareTo(b, a)
  {
    CompareAntisymmetric(a.person.name, b.person.name);
  }

  /** compareTo orders transitively. */
  lemma CompareToTransitive(a: EmployeeState, b: EmployeeState, c: EmployeeState)
    requires CompareTo(a, b) <= 0 && CompareTo(b, c) <= 0
    ensures CompareTo(a, c) <= 0
  {
    CompareTransitive(a.person.name, b.person.name, c.person.name);
  }

  /** Equal employees have equal persons and compare as 0: the natural
      order is consistent with equals. */
  lemma EqualsConsistentWithCompareTo(a: EmployeeState, b: EmployeeState)
    ensures Equals(a, b) ==> a.person.Equals(b.person) && CompareTo(a, b) == 0
  {
  }

  // ---------------------------------------------------------------------
  // The mutable object

  /** A Funcionario object: the name and birth date are final, the salary and
      the role are changed in place by the setters and by a raise. */
  class Employee {
    const person: Person
    var salary: nat
    var role: string

    /** The object's fields as a value. */
    function State(): EmployeeState
      reads this
    {
      EmployeeState(person, salary, role)
    }

    ghost predicate Valid()
      reads this
    {
      State().Valid()
    }

    /** Stores already-validated fields; NewEmployee performs the checks. */
    constructor (s: EmployeeState)
      requires s.Valid()
      ensures Valid() && State() == s
    {
      person := s.person;
      salary := s.salary;
      role := s.role;
    }

    /** setSalario: rejects a salary that is not positive; otherwise replaces
        the salary and nothing else. */
    method SetSalary(newSalary: int) returns (r: Outcome)
      requires Valid()
      modifies this
      ensures Valid()
      ensures newSalary <= 0 ==> r == Fail(NonPositiveSalary) && State() == old(State())
      ensures newSalary > 0 ==> r == Pass && State() == old(State()).(salary := newSalary)
    {
      if newSalary <= 0 {
        return Fail(NonPositiveSalary);
      }
      salary := newSalary;
      r := Pass;
    }

    /** setFuncao: rejects a blank role; otherwise stores it trimmed and
        changes nothing else. */
    method SetRole(newRole: string) returns (r: Outcome)
      requires Valid()
      modifies this
      ensures Valid()
      ensures IsBlank(newRole) ==> r == Fail(BlankRole) && State() == old(State())
      ensures !IsBlank(newRole) ==> r == Pass && State() == old(State()).(role := Trim(newRole))
    {
      if IsBlank(newRole) {
        return Fail(BlankRole);
      }
      role := Trim(newRole);
      r := Pass;
    }

    /** aplicarAumento: rejects a negative percentage; otherwise replaces the
        salary by the raised one, rounded half-up to cents. */
    method ApplyRaise(percent: int) returns (r: Outcome)
      requires Valid()
      modifies this
      ensures Valid()
      ensures percent < 0 ==> r == Fail(NegativePercent) && State() == old(State())
      ensures percent >= 0 ==> r == Pass && State() == Raise(old(State()), percent)
    {
      if percent < 0 {
        return Fail(NegativePercent);
      }
      salary := RaisedCents(salary, percent);
      RaiseNeverLowers(old(salary), percent);
      r := Pass;
    }
  }

  /** `new Funcionario(...)`: a fresh object holding the state that Hire
      describes, or the error that Hire reports. */
  method NewEmployee(name: string, birthDate: LocalDate, salary: int, role: string, today: LocalDate)
    returns (r: Result<Employee>)
    ensures Hire(name, birthDate, salary, role, today).Err? ==>
      r == Err(Hire(name, birthDate, salary, role, today).error)
    ensures Hire(name, birthDate, salary, role, today).Ok? ==>
      && r.Ok? && fresh(r.value) && r.value.Valid()
      && r.value.State() == Hire(name, birthDate, salary, role, today).value
  {
    var h := Hire(name, birthDate, salary, role, today);
    if h.Err? {
      return Err(h.error);
    }
    var e := new Employee(h.value);
    r := Ok(e);
  }
}
