/** The report on the seed roster, section by section. */
module Scenario {
  import opened Text
  import opened Dates
  import opened Results
  import opened Persons
  import opened Employees
  import opened Seqs
  import opened Reports
  import opened Roster

  /** The seed roster without João. */
  const Remaining: seq<EmployeeState> := [SeedRoster[0]] + SeedRoster[2..]

  /** Filtering a sequence whose second element alone fails `keep` drops
      exactly that element. */
  lemma FilterDropsSecond<T>(s: seq<T>, keep: T -> bool)
    requires 2 <= |s| && !keep(s[1])
    requires Filter(s[..1], keep) == s[..1] && Filter(s[2..], keep) == s[2..]
    ensures Filter(s, keep) == [s[0]] + s[2..]
  {
    FilterAround(s, keep, 1);
    assert s[..1] == [s[0]];
  }

  /** Among the seed names only João's equals "João" up to case. */
  lemma OnlyJoaoNamed()
    ensures EqualsIgnoreCase(SeedRoster[1].person.name, "João")
    ensures forall k :: 0 <= k < |SeedRoster| && k != 1 ==> !EqualsIgnoreCase(SeedRoster[k].person.name, "João")
  {
    assert !EqualsIgnoreCase("Caio", "João") by {
      assert ToLower("Caio"[0]) != ToLower("João"[0]);
    }
  }

  /** Removing "João" from the seed roster leaves the other nine, in order. */
  lemma RemovingJoao()
    ensures Filter(SeedRoster, NotNamed("João")) == Remaining
    ensures |Remaining| == 9
    ensures forall k :: 0 <= k < |Remaining| ==> !EqualsIgnoreCase(Remaining[k].person.name, "João")
  {
    var keep := NotNamed("João");
    OnlyJoaoNamed();
    FilterAllBefore(SeedRoster, keep, 1);
    FilterAllAfter(SeedRoster, keep, 2);
    FilterDropsSecond(SeedRoster, keep);
    assert forall k :: 0 <= k < |Remaining| ==> keep(Remaining[k]);
  }

  /** The nine remaining employees after the 10% raise (salaries in cents). */
  const Raised: seq<EmployeeState> := [
    EmployeeState(Person("Maria", Date(2000, 10, 18)), 221038, "Operador"),
    EmployeeState(Person("Caio", Date(1961, 5, 2)), 1081975, "Coordenador"),
    EmployeeState(Person("Miguel", Date(1988, 10, 14)), 2103187, "Diretor"),
    EmployeeState(Person("Alice", Date(1995, 1, 5)), 245815, "Recepcionista"),
    EmployeeState(Person("Heitor", Date(1999, 11, 19)), 174099, "Operador"),
    EmployeeState(Person("Arthur", Date(1993, 3, 31)), 447902, "Contador"),
    EmployeeState(Person("Laura", Date(1994, 7, 8)), 331920, "Gerente"),
    EmployeeState(Person("Heloísa", Date(2003, 5, 24)), 176754, "Eletricista"),
    EmployeeState(Person("Helena", Date(1996, 9, 2)), 307992, "Gerente")
  ]

  /** A 10% raise rounded half-up to cents: Maria's 2009.44 becomes 2210.38,
      and every other salary as listed in `Raised`. */
  lemma RaisingRemaining()
    ensures RaiseAll(Remaining, 10) == Raised
  {
    RaisedKeepsPeople();
    RaisedRoundsHalfUp();
    RaiseAllIs(Remaining, Raised, 10);
  }

  /** The i-th remaining employee is the seed employee after João's place. */
  lemma RemainingAt(k: nat)
    requires k < 9
    ensures |Remaining| == 9
    ensures Remaining[k] == SeedRoster[if k == 0 then 0 else k + 1]
  {
  }

  /** The raise keeps each remaining employee's person and role. */
  lemma RaisedKeepsPeople()
    ensures |Remaining| == |Raised|
    ensures forall k :: 0 <= k < |Remaining| ==>
      Raised[k].person == Remaining[k].person && Raised[k].role == Remaining[k].role
  {
    forall k | 0 <= k < |Remaining|
      ensures Raised[k].person == Remaining[k].person && Raised[k].role == Remaining[k].role
    {
      RemainingAt(k);
    }
  }

  /** Each salary in `Raised` is the remaining salary raised by 10%, rounded
      half-up to cents. */
  lemma RaisedRoundsHalfUp()
    ensures |Remaining| == |Raised|
    ensures forall k :: 0 <= k < |Remaining| ==>
      100 * Raised[k].salary - 50 <= Remaining[k].salary * 110 < 100 * Raised[k].salary + 50
  {
    forall k | 0 <= k < |Remaining|
      ensures 100 * Raised[k].salary - 50 <= Remaining[k].salary * 110 < 100 * Raised[k].salary + 50
    {
      RemainingAt(k);
    }
  }

  /** `t` is `s` after a raise of `percent` when each salary of `t` is the
      half-up rounding of the raised salary in `s` and nothing else differs. */
  lemma {:induction false} RaiseAllIs(s: seq<EmployeeState>, t: seq<EmployeeState>, percent: nat)
    requires |s| == |t|
    requires forall k :: 0 <= k < |s| ==> t[k].person == s[k].person && t[k].role == s[k].role
    requires forall k :: 0 <= k < |s| ==>
      100 * t[k].salary - 50 <= s[k].salary * (100 + percent) < 100 * t[k].salary + 50
    ensures RaiseAll(s, percent) == t
  {
    var r := RaiseAll(s, percent);
    forall k | 0 <= k < |s| ensures r[k] == t[k] {
      RoundingIsUnique(s[k].salary * (100 + percent), r[k].salary, t[k].salary);
    }
  }

  /** The seven distinct roles of the seed roster. */
  const SeedRoles: set<string> :=
    {"Operador", "Coordenador", "Diretor", "Recepcionista", "Contador", "Gerente", "Eletricista"}

  /** Every role that occurs is one of the seven. */
  lemma RolesOfRaisedWithin()
    ensures Roles(Raised) <= SeedRoles
  {
    forall role | role in Roles(Raised) ensures role in SeedRoles {
      var e :| e in Raised && e.role == role;
      var k :| 0 <= k < |Raised| && Raised[k] == e;
    }
  }

  /** Each of the seven occurs. */
  lemma RolesOfRaisedCover()
    ensures SeedRoles <= Roles(Raised)
  {
    assert Raised[0].role in Roles(Raised);
    assert Raised[1].role in Roles(Raised);
    assert Raised[2].role in Roles(Raised);
    assert Raised[3].role in Roles(Raised);
    assert Raised[5].role in Roles(Raised);
    assert Raised[6].role in Roles(Raised);
    assert Raised[7].role in Roles(Raised);
  }

  /** The raised roster is grouped under exactly the seven roles. */
  lemma GroupsOfRaised()
    ensures GroupByRole(Raised).Keys == SeedRoles
  {
    RolesOfRaisedWithin();
    RolesOfRaisedCover();
  }

  /** Filtering keeps exactly the elements at `i` and `j` when nothing
      before, between or after them is kept. */
  lemma FilterKeepsTwo(s: seq<EmployeeState>, keep: EmployeeState -> bool, i: nat, j: nat)
    requires i < j < |s| && keep(s[i]) && keep(s[j])
    requires Filter(s[..i], keep) == [] && Filter(s[i + 1..j], keep) == [] && Filter(s[j + 1..], keep) == []
    ensures Filter(s, keep) == [s[i], s[j]]
  {
    FilterAround(s, keep, j);
    FilterAroundPrefix(s, keep, i, j);
    TwoSingletons(s[i], s[j]);
  }

  lemma TwoSingletons(x: EmployeeState, y: EmployeeState)
    ensures ([] + [x] + []) + [y] + [] == [x, y]
  {
  }

  /** Maria (October) and Miguel (October) are the only ones born in October
      or December. */
  lemma BirthdaysOfRaised()
    ensures BirthdaysIn(Raised, [10, 12]) == [Raised[0], Raised[2]]
  {
    MonthsOfRaised();
    BirthdaysByMonth(Raised);
  }

  /** The birth months of the nine, in list order. */
  const RaisedMonths: seq<int> := [10, 5, 10, 1, 11, 3, 7, 5, 9]

  lemma MonthsOfRaised()
    ensures |Raised| == |RaisedMonths|
    ensures forall k :: 0 <= k < |Raised| ==> Raised[k].person.birthDate.month == RaisedMonths[k]
  {
  }

  /** Which of nine employees born in the months of `RaisedMonths` were
      born in October or December. */
  lemma OctoberOrDecember(s: seq<EmployeeState>)
    requires |s| == |RaisedMonths|
    requires forall k :: 0 <= k < |s| ==> s[k].person.birthDate.month == RaisedMonths[k]
    ensures BornInAnyOf([10, 12])(s[0]) && BornInAnyOf([10, 12])(s[2])
    ensures !BornInAnyOf([10, 12])(s[1])
    ensures forall k :: 3 <= k < |s| ==> !BornInAnyOf([10, 12])(s[k])
  {
    assert s[0].person.birthDate.month == 10 && s[1].person.birthDate.month == 5;
    assert s[2].person.birthDate.month == 10;
    forall k | 3 <= k < |s| ensures !BornInAnyOf([10, 12])(s[k]) {
      assert s[k].person.birthDate.month == RaisedMonths[k];
    }
  }

  /** Any nine employees born in the months of `RaisedMonths` have their
      October and December birthdays at positions 0 and 2. */
  lemma BirthdaysByMonth(s: seq<EmployeeState>)
    requires |s| == |RaisedMonths|
    requires forall k :: 0 <= k < |s| ==> s[k].person.birthDate.month == RaisedMonths[k]
    ensures BirthdaysIn(s, [10, 12]) == [s[0], s[2]]
  {
    var keep := BornInAnyOf([10, 12]);
    OctoberOrDecember(s);
    FilterNoneBefore(s, keep, 0);
    FilterNoneBetween(s, keep, 1, 2);
    FilterNoneAfter(s, keep, 3);
    FilterKeepsTwo(s, keep, 0, 2);
  }

  /** Caio, born in 1961, is the oldest on any day on which the whole seed
      roster could be hired. */
  lemma OldestOfRaised(today: LocalDate)
    requires !LatestSeedBirth.IsAfter(today)
    ensures Oldest(Raised, today) == Some(Raised[1])
  {
    var caio := Raised[1].person;
    NotAfterTransitive(caio.birthDate, LatestSeedBirth, today);
    forall k | 0 <= k < |Raised| && k != 1
      ensures Raised[k].person.Age(today) < caio.Age(today)
    {
      NotAfterTransitive(Raised[k].person.birthDate, LatestSeedBirth, today);
    }
  }

  /** The total of a prefix grows by the salary of the next employee. */
  lemma TotalOfPrefix(s: seq<EmployeeState>, k: nat)
    requires 0 < k <= |s|
    ensures TotalSalaries(s[..k]) == TotalSalaries(s[..k - 1]) + s[k - 1].salary
  {
    assert s[..k][..k - 1] == s[..k - 1];
  }

  /** The total printed after the raise, 50906.82: the sum of the nine
      raised salaries. */
  lemma TotalOfRaised()
    ensures TotalSalaries(Raised) == 221038 + 1081975 + 2103187 + 245815 + 174099
                                     + 447902 + 331920 + 176754 + 307992
    ensures TotalSalaries(Raised) == 5090682
  {
    assert Raised[..0] == [];
    TotalOfPrefix(Raised, 1);
    TotalOfPrefix(Raised, 2);
    TotalOfPrefix(Raised, 3);
    TotalOfPrefix(Raised, 4);
    TotalOfPrefix(Raised, 5);
    TotalOfPrefix(Raised, 6);
    TotalOfPrefix(Raised, 7);
    TotalOfPrefix(Raised, 8);
    TotalOfPrefix(Raised, 9);
    assert Raised[..9] == Raised;
  }

  /** The multiples of the 1212.00 minimum wage, in hundredths: Maria 1.82,
      Caio 8.93, Miguel 17.35, Alice 2.03, Heitor 1.44, Arthur 3.70,
      Laura 2.74, Heloísa 1.46, Helena 2.54. */
  const RaisedWages: seq<WageLine> := [
    WageLine("Maria", 182), WageLine("Caio", 893), WageLine("Miguel", 1735),
    WageLine("Alice", 203), WageLine("Heitor", 144), WageLine("Arthur", 370),
    WageLine("Laura", 274), WageLine("Heloísa", 146), WageLine("Helena", 254)
  ]

  /** A multiple is determined by the half-up rounding bounds it meets. */
  lemma MultipleIs(salary: nat, q: nat)
    requires 2 * MinimumWage * q <= 200 * salary + MinimumWage < 2 * MinimumWage * (q + 1)
    ensures WageMultiple(salary, MinimumWage) == q
  {
    var r := WageMultiple(salary, MinimumWage);
    if r < q {
      MultiplyMonotone(2 * MinimumWage, r + 1, q);
    } else if r > q {
      MultiplyMonotone(2 * MinimumWage, q + 1, r);
    }
  }

  /** A table is the minimum-wage table of `s` when each line carries the
      employee's name and a multiple meeting the half-up rounding bounds. */
  lemma {:induction false} TableIs(s: seq<EmployeeState>, lines: seq<WageLine>)
    requires |s| == |lines|
    requires forall k :: 0 <= k < |s| ==> s[k].person.name == lines[k].name
    requires forall k :: 0 <= k < |s| ==>
      2 * MinimumWage * lines[k].multiple <= 200 * s[k].salary + MinimumWage < 2 * MinimumWage * (lines[k].multiple + 1)
    ensures MinimumWageTable(s, MinimumWage) == Ok(lines)
  {
    forall k | 0 <= k < |s|
      ensures MinimumWageMultiple(s[k], MinimumWage) == Ok(lines[k].multiple)
    {
      MultipleIs(s[k].salary, lines[k].multiple);
    }
    var table := MinimumWageTable(s, MinimumWage).value;
    assert forall k :: 0 <= k < |s| ==> table[k] == lines[k];
    assert table == lines;
  }

  /** The table printed against the minimum wage after the raise. */
  lemma WagesOfRaised()
    ensures MinimumWageTable(Raised, MinimumWage) == Ok(RaisedWages)
  {
    TableIs(Raised, RaisedWages);
  }

  /** The report that executarTeste prints for the seed roster, on any day on
      which the ten employees can be hired: João removed; the raised salaries
      grouped under the seven roles; Maria and Miguel born in October or
      December; Caio the oldest; a total of 50906.82; and the minimum-wage
      multiples in `RaisedWages`. */
  lemma SeedReport(today: LocalDate)
    requires !LatestSeedBirth.IsAfter(today)
    ensures ReportOf(SeedRoster, today).remaining == Remaining
    ensures ReportOf(SeedRoster, today).byRole.Keys == SeedRoles
    ensures ReportOf(SeedRoster, today).birthdays == [Raised[0], Raised[2]]
    ensures ReportOf(SeedRoster, today).oldest == Some(Raised[1])
    ensures ReportOf(SeedRoster, today).total == 5090682
    ensures ReportOf(SeedRoster, today).wages == RaisedWages
  {
    RemovingJoao();
    RaisingRemaining();
    GroupsOfRaised();
    BirthdaysOfRaised();
    OldestOfRaised(today);
    TotalOfRaised();
    WagesOfRaised();
  }
}
