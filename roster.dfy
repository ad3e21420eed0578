/** The employee list of the report driver (Principal) as a mutable object:
    the seed insertion, removal by name, the raise applied to every element
    in place, and the driver that runs the report sections in order. */
module Roster {
  import opened Text
  import opened Dates
  import opened Results
  import opened Persons
  import opened Employees
  import opened Seqs
  import opened Reports

  /** The states of the employee objects, in list order. */
  function States(staff: seq<Employee>): (r: seq<EmployeeState>)
    reads staff
    ensures |r| == |staff|
    ensures forall k :: 0 <= k < |staff| ==> r[k] == staff[k].State()
  {
    seq(|staff|, k requires 0 <= k < |staff| reads staff => staff[k].State())
  }

  /** The states of employees none of whose fields changed are the same. */
  twostate lemma StatesUnchanged(staff: seq<Employee>)
    requires forall k :: 0 <= k < |staff| ==> unchanged(staff[k])
    ensures States(staff) == old(States(staff))
  {
  }

  /** The objects that `removeIf(f -> f.getNome().equalsIgnoreCase(name))` keeps. */
  function Unnamed(name: string): Employee -> bool {
    (e: Employee) => !EqualsIgnoreCase(e.person.name, name)
  }

  /** Removing objects by name removes exactly the states NotNamed rejects. */
  lemma {:induction false} StatesOfFilter(staff: seq<Employee>, name: string)
    ensures States(Filter(staff, Unnamed(name))) == Filter(States(staff), NotNamed(name))
  {
    if staff != [] {
      var s', x := staff[..|staff| - 1], staff[|staff| - 1];
      StatesOfFilter(s', name);
      assert States(staff)[..|staff| - 1] == States(s');
      var kept := Filter(s', Unnamed(name));
      if Unnamed(name)(x) {
        assert (kept + [x])[..|kept|] == kept;
      } else {
        assert kept + [] == kept;
      }
    }
  }

  /** Removal by name keeps only objects of the list, so valid ones. */
  lemma FilterKeepsValid(staff: seq<Employee>, name: string)
    requires forall k :: 0 <= k < |staff| ==> staff[k].Valid()
    ensures forall k :: 0 <= k < |Filter(staff, Unnamed(name))| ==> Filter(staff, Unnamed(name))[k].Valid()
  {
    var kept := Filter(staff, Unnamed(name));
    forall k | 0 <= k < |kept|
      ensures kept[k].Valid()
    {
      FilterMembership(staff, Unnamed(name), kept[k]);
    }
  }

  /** An ArrayList<Funcionario>: a growable list of employee objects. */
  class EmployeeList {
    var items: seq<Employee>

    /** Every listed employee satisfies its own invariant. */
    ghost predicate Valid()
      reads this, items
    {
      forall k :: 0 <= k < |items| ==> items[k].Valid()
    }

    constructor ()
      ensures Valid() && items == []
    {
      items := [];
    }

    /** add: appends one employee at the end. */
    method Add(e: Employee)
      requires Valid() && e.Valid()
      modifies this
      ensures Valid() && items == old(items) + [e]
    {
      items := items + [e];
    }
  }

  /** The ten employees of inserirFuncionarios, as the constructor stores them. */
  const SeedRoster: seq<EmployeeState> := [
    EmployeeState(Person("Maria", Date(2000, 10, 18)), 200944, "Operador"),
    EmployeeState(Person("João", Date(1990, 5, 12)), 228438, "Operador"),
    EmployeeState(Person("Caio", Date(1961, 5, 2)), 983614, "Coordenador"),
    EmployeeState(Person("Miguel", Date(1988, 10, 14)), 1911988, "Diretor"),
    EmployeeState(Person("Alice", Date(1995, 1, 5)), 223468, "Recepcionista"),
    EmployeeState(Person("Heitor", Date(1999, 11, 19)), 158272, "Operador"),
    EmployeeState(Person("Arthur", Date(1993, 3, 31)), 407184, "Contador"),
    EmployeeState(Person("Laura", Date(1994, 7, 8)), 301745, "Gerente"),
    EmployeeState(Person("Heloísa", Date(2003, 5, 24)), 160685, "Eletricista"),
    EmployeeState(Person("Helena", Date(1996, 9, 2)), 279993, "Gerente")
  ]

  /** The latest birth date among the seed employees (Heloísa's). */
  const LatestSeedBirth: LocalDate := Date(2003, 5, 24)

  /** A hire from well-formed fields fails only for a birth date after
      `today`, and otherwise stores the fields unchanged. */
  lemma HireWellFormed(s: EmployeeState, today: LocalDate)
    requires s.Valid()
    ensures s.person.birthDate.IsAfter(today) ==>
      Hire(s.person.name, s.person.birthDate, s.salary, s.role, today) == Err(FutureBirthDate)
    ensures !s.person.birthDate.IsAfter(today) ==>
      Hire(s.person.name, s.person.birthDate, s.salary, s.role, today) == Ok(s)
  {
    TrimOfTrimmed(s.person.name);
    TrimOfTrimmed(s.role);
  }

  /** `list.add(new Funcionario(...))`: the constructor's error leaves the
      list as it was; otherwise one fresh employee is appended. */
  method AddNew(list: EmployeeList, name: string, birthDate: LocalDate, salary: int, role: string,
                today: LocalDate) returns (r: Outcome)
    requires list.Valid() && Distinct(list.items)
    modifies list
    ensures list.Valid() && Distinct(list.items)
    ensures Hire(name, birthDate, salary, role, today).Err? ==>
      r == Fail(Hire(name, birthDate, salary, role, today).error) && list.items == old(list.items)
    ensures Hire(name, birthDate, salary, role, today).Ok? ==>
      && r == Pass && list.items != [] && list.items[..|list.items| - 1] == old(list.items)
      && fresh(list.items[|list.items| - 1])
      && list.items[|list.items| - 1].State() == Hire(name, birthDate, salary, role, today).value
  {
    var e := NewEmployee(name, birthDate, salary, role, today);
    if e.Err? {
      return Fail(e.error);
    }
    var hired := e.value;
    ghost var before := list.items;
    assert hired !in before;
    list.Add(hired);
    assert list.items[..|before|] == before;
    r := Pass;
  }

  /** Every seed row is a well-formed employee, and all of them are born by
      `today` exactly when the latest seed birth date is not after it. */
  lemma SeedRosterWellFormed(today: LocalDate)
    ensures forall k :: 0 <= k < |SeedRoster| ==> SeedRoster[k].Valid()
    ensures (forall k :: 0 <= k < |SeedRoster| ==> !SeedRoster[k].person.birthDate.IsAfter(today))
      <==> !LatestSeedBirth.IsAfter(today)
  {
    assert SeedRoster[8].person.birthDate == LatestSeedBirth;
    forall k | 0 <= k < |SeedRoster| && LatestSeedBirth.IsAfter(today) == false
      ensures !SeedRoster[k].person.birthDate.IsAfter(today)
    {
      NotAfterTransitive(SeedRoster[k].person.birthDate, LatestSeedBirth, today);
    }
  }

  /** AddNew on arguments the constructor accepts apart from the birth date:
      the employee is appended with exactly these fields unless the birth
      date is after `today`. */
  method AddWellFormed(list: EmployeeList, s: EmployeeState, today: LocalDate) returns (r: Outcome)
    requires list.Valid() && Distinct(list.items) && s.Valid()
    modifies list
    ensures list.Valid() && Distinct(list.items)
    ensures r.Fail? <==> s.person.birthDate.IsAfter(today)
    ensures r.Fail? ==> r.error == FutureBirthDate && list.items == old(list.items)
    ensures r.Pass? ==> States(list.items) == old(States(list.items)) + [s]
    ensures forall k :: 0 <= k < |list.items| ==> list.items[k] in old(list.items) || fresh(list.items[k])
  {
    ghost var before := States(list.items);
    HireWellFormed(s, today);
    r := AddNew(list, s.person.name, s.person.birthDate, s.salary, s.role, today);
    if r.Pass? {
      assert States(list.items)[..|before|] == before;
      assert list.items == old(list.items) + [list.items[|list.items| - 1]];
    }
  }

  /** AddWellFormed on each row in order, stopping at the first row born
      after `today`; when none is, every row is appended. */
  method AddRows(list: EmployeeList, rows: seq<EmployeeState>, today: LocalDate) returns (r: Outcome)
    requires list.Valid() && Distinct(list.items)
    requires forall k :: 0 <= k < |rows| ==> rows[k].Valid()
    modifies list
    ensures list.Valid() && Distinct(list.items)
    ensures r.Pass? <==> forall k :: 0 <= k < |rows| ==> !rows[k].person.birthDate.IsAfter(today)
    ensures r.Fail? ==> r.error == FutureBirthDate
    ensures r.Pass? ==> States(list.items) == old(States(list.items)) + rows
    ensures forall k :: 0 <= k < |list.items| ==> list.items[k] in old(list.items) || fresh(list.items[k])
  {
    ghost var before := States(list.items);
    for k := 0 to |rows|
      invariant list.Valid() && Distinct(list.items)
      invariant forall k :: 0 <= k < |list.items| ==> list.items[k] in old(list.items) || fresh(list.items[k])
      invariant States(list.items) == before + rows[..k]
      invariant forall j :: 0 <= j < k ==> !rows[j].person.birthDate.IsAfter(today)
    {
      r := AddWellFormed(list, rows[k], today);
      if r.Fail? {
        return;
      }
      ExtendPrefix(before, rows, k);
    }
    assert rows[..|rows|] == rows;
    r := Pass;
  }

  /** inserirFuncionarios: constructs the ten seed employees in order against
      `today`, appending each one; the ten statements of the source are one
      pass over the seed table here. Every name, salary and role is valid,
      so the only possible failure is a birth date after `today`, and that
      happens exactly when the latest one is. */
  method InsertEmployees(today: LocalDate) returns (r: Result<EmployeeList>)
    ensures r.Err? <==> LatestSeedBirth.IsAfter(today)
    ensures r.Err? ==> r.error == FutureBirthDate
    ensures r.Ok? ==> && fresh(r.value) && r.value.Valid()
                      && Distinct(r.value.items) && States(r.value.items) == SeedRoster
    ensures r.Ok? ==> forall k :: 0 <= k < |r.value.items| ==> fresh(r.value.items[k])
  {
    SeedRosterWellFormed(today);
    var list := new EmployeeList();
    :- AddRows(list, SeedRoster, today);
    r := Ok(list);
  }

  /** The scan of removeIf: the employees whose name differs from `name`
      ignoring case, in order. */
  method KeepUnnamed(items: seq<Employee>, name: string) returns (kept: seq<Employee>)
    ensures kept == Filter(items, Unnamed(name))
  {
    kept := [];
    var i := 0;
    while i < |items|
      invariant 0 <= i <= |items|
      invariant kept == Filter(items[..i], Unnamed(name))
    {
      FilterOfPrefix(items, Unnamed(name), i + 1);
      if !EqualsIgnoreCase(items[i].person.name, name) {
        kept := kept + [items[i]];
      }
      i := i + 1;
    }
    assert items[..i] == items;
  }

  /** removerFuncionario: removes every employee whose name equals `name`
      ignoring case, keeping the others in order. */
  method RemoveEmployee(list: EmployeeList, name: string)
    requires list.Valid()
    modifies list
    ensures list.Valid()
    ensures Distinct(old(list.items)) ==> Distinct(list.items)
    ensures list.items == Filter(old(list.items), Unnamed(name))
    ensures States(list.items) == Filter(old(States(list.items)), NotNamed(name))
  {
    var items := list.items;
    var kept := KeepUnnamed(items, name);
    FilterKeepsValid(items, name);
    if Distinct(items) {
      FilterDistinct(items, Unnamed(name));
    }
    list.items := kept;
    StatesOfFilter(items, name);
    StatesUnchanged(items);
  }

  /** Raising each state one by one gives RaiseAll. */
  lemma RaiseEach(before: seq<EmployeeState>, after: seq<EmployeeState>, percent: nat)
    requires |after| == |before|
    requires forall k :: 0 <= k < |before| ==> after[k] == Raise(before[k], percent)
    ensures after == RaiseAll(before, percent)
  {
  }

  /** aplicarAumento(lista, percent): aplicarAumento on each element in list
      order. A negative percentage makes the first element throw, before
      anything has changed; the objects must be distinct, so that no
      employee is raised twice. */
  method ApplyRaiseToAll(list: EmployeeList, percent: int) returns (r: Outcome)
    requires list.Valid() && Distinct(list.items)
    modifies list.items
    ensures list.Valid()
    ensures percent >= 0 ==> r == Pass
    ensures percent >= 0 ==> forall k :: 0 <= k < |list.items| ==>
      list.items[k].State() == Raise(old(list.items[k].State()), percent)
    ensures percent < 0 ==> States(list.items) == old(States(list.items))
    ensures percent < 0 ==> (r == Pass <==> list.items == [])
    ensures r.Fail? ==> r.error == NegativePercent
  {
    if percent < 0 {
      // the first call throws before anything changes
      if list.items == [] {
        return Pass;
      }
      r := list.items[0].ApplyRaise(percent);
      return;
    }
    ghost var before := States(list.items);
    var i := 0;
    while i < |list.items|
      invariant 0 <= i <= |list.items|
      invariant list.Valid()
      invariant forall k :: 0 <= k < i ==> list.items[k].State() == Raise(before[k], percent)
      invariant forall k :: i <= k < |list.items| ==> list.items[k].State() == before[k]
    {
      var _ := list.items[i].ApplyRaise(percent);
      i := i + 1;
    }
    r := Pass;
  }

  // ---------------------------------------------------------------------
  // The driver

  /** What executarTeste computes, section by section, leaving the printing
      aside: the list after the removal (3.3), and after the 10% raise the
      groups by role (3.5/3.6), the October and December birthdays (3.8), the
      oldest employee (3.9), the alphabetical listing (3.10), the salary total
      (3.11) and the minimum-wage multiples (3.12). */
  datatype Report = Report(
    remaining: seq<EmployeeState>,
    byRole: map<string, seq<EmployeeState>>,
    birthdays: seq<EmployeeState>,
    oldest: Option<EmployeeState>,
    alphabetical: seq<EmployeeState>,
    total: nat,
    wages: seq<WageLine>)

  /** The report of executarTeste on a roster whose states are `staff`;
      one wage line per remaining employee. */
  function ReportOf(staff: seq<EmployeeState>, today: LocalDate): (r: Report)
    ensures |r.wages| == |r.remaining|
  {
    var remaining := Filter(staff, NotNamed("João"));
    var raised := RaiseAll(remaining, 10);
    Report(remaining, GroupByRole(raised), BirthdaysIn(raised, [10, 12]), Oldest(raised, today),
           SortByName(raised), TotalSalaries(raised), MinimumWageTable(raised, MinimumWage).value)
  }

  /** The report lists the employees not named João (up to case), in their
      order. */
  lemma ReportRemaining(staff: seq<EmployeeState>, today: LocalDate)
    ensures var r := ReportOf(staff, today);
      && IsSubsequence(r.remaining, staff)
      && forall e :: e in r.remaining <==> e in staff && !EqualsIgnoreCase(e.person.name, "João")
  {
    forall e ensures e in Filter(staff, NotNamed("João")) <==> e in staff && !EqualsIgnoreCase(e.person.name, "João") {
      RemovalExactly(staff, "João", e);
    }
    FilterIsSubsequence(staff, NotNamed("João"));
  }

  /** The alphabetical listing is a sorted permutation of the remaining
      employees after the 10% raise; the total is the sum over that listing
      and is no lower than before the raise. */
  lemma ReportListing(staff: seq<EmployeeState>, today: LocalDate)
    ensures var r := ReportOf(staff, today);
      && SortedByName(r.alphabetical)
      && multiset(r.alphabetical) == multiset(RaiseAll(r.remaining, 10))
      && r.total == TotalSalaries(r.alphabetical)
      && r.total >= TotalSalaries(r.remaining)
  {
    var remaining := Filter(staff, NotNamed("João"));
    TotalOfSorted(RaiseAll(remaining, 10));
    TotalAfterRaise(remaining, 10);
  }

  /** An oldest employee is named exactly when some employee remains. */
  lemma ReportOldest(staff: seq<EmployeeState>, today: LocalDate)
    ensures var r := ReportOf(staff, today);
      r.oldest.None? <==> r.remaining == []
  {
  }

  /** The oldest employee is in the alphabetical listing, and no one listed
      is older. */
  lemma ReportOldestListed(staff: seq<EmployeeState>, today: LocalDate)
    ensures var r := ReportOf(staff, today);
      r.oldest.Some? ==>
        && r.oldest.value in r.alphabetical
        && forall k :: 0 <= k < |r.alphabetical| ==>
             r.alphabetical[k].person.Age(today) <= r.oldest.value.person.Age(today)
  {
    OldestInSorted(RaiseAll(Filter(staff, NotNamed("João")), 10), today);
  }

  /** The birthday section lists only employees born in October or December. */
  lemma ReportBirthdays(staff: seq<EmployeeState>, today: LocalDate)
    ensures var r := ReportOf(staff, today);
      forall k :: 0 <= k < |r.birthdays| ==> r.birthdays[k].person.birthDate.month in [10, 12]
  {
  }

  /** The sections of executarTeste after the insertion, on a given list:
      the removal, the raise in place, and the computations on the result. */
  method RunSections(list: EmployeeList, today: LocalDate) returns (r: Report)
    requires list.Valid() && Distinct(list.items)
    modifies list, list.items
    ensures r == ReportOf(old(States(list.items)), today)
    ensures list.items == Filter(old(list.items), Unnamed("João"))
    ensures States(list.items) == RaiseAll(r.remaining, 10)
  {
    ghost var staff := list.items;
    RemoveEmployee(list, "João");
    forall e | e in list.items
      ensures e in staff
    {
      FilterMembership(staff, Unnamed("João"), e);
    }
    var remaining := States(list.items);
    assert forall k :: 0 <= k < |list.items| ==> list.items[k] in staff;
    var _ := ApplyRaiseToAll(list, 10);
    var raised := States(list.items);
    RaiseEach(remaining, raised, 10);
    var wages := MinimumWageTable(raised, MinimumWage).value;
    r := Report(remaining, GroupByRole(raised), BirthdaysIn(raised, [10, 12]), Oldest(raised, today),
                SortByName(raised), TotalSalaries(raised), wages);
  }

  /** executarTeste: inserts the seed roster, then runs the sections. The only
      error it can meet is a seed birth date after `today`. */
  method RunReport(today: LocalDate) returns (r: Result<Report>)
    ensures r.Err? <==> LatestSeedBirth.IsAfter(today)
    ensures r.Err? ==> r.error == FutureBirthDate
    ensures r.Ok? ==> r.value == ReportOf(SeedRoster, today)
  {
    var list :- InsertEmployees(today);
    var report := RunSections(list, today);
    r := Ok(report);
  }
}
