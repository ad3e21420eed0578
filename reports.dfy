/** The computations behind the report driver's sections (Principal): each
    works on the employees' states, in list order, as the source's stream
    pipelines do; the printing around them is not modelled. */
module Reports {
  import opened Text
  import opened Dates
  import opened Results
  import opened Persons
  import opened Employees
  import opened Seqs

  /** SALARIO_MINIMO, 1212.00, in cents. */
  const MinimumWage: nat := 121200

  // ---------------------------------------------------------------------
  // Removal by name and the raise (their in-place versions are in Roster)

  /** The employees that `removeIf(f -> f.getNome().equalsIgnoreCase(name))` keeps. */
  function NotNamed(name: string): EmployeeState -> bool {
    (e: EmployeeState) => !EqualsIgnoreCase(e.person.name, name)
  }

  /** removeIf by name removes exactly the employees with that name up to
      case, keeps the others in their order, and changes nothing when no
      employee has the name. */
  lemma RemovalExactly(s: seq<EmployeeState>, name: string, e: EmployeeState)
    ensures e in Filter(s, NotNamed(name)) <==> e in s && !EqualsIgnoreCase(e.person.name, name)
    ensures IsSubsequence(Filter(s, NotNamed(name)), s)
    ensures (forall k :: 0 <= k < |s| ==> !EqualsIgnoreCase(s[k].person.name, name)) ==>
      Filter(s, NotNamed(name)) == s
  {
    FilterMembership(s, NotNamed(name), e);
    FilterIsSubsequence(s, NotNamed(name));
    if forall k :: 0 <= k < |s| ==> !EqualsIgnoreCase(s[k].person.name, name) {
      FilterAll(s, NotNamed(name));
    }
  }

  /** Every state after aplicarAumento(percent) on each element. */
  function RaiseAll(s: seq<EmployeeState>, percent: nat): (r: seq<EmployeeState>)
    ensures |r| == |s|
    ensures forall k :: 0 <= k < |s| ==>
      && r[k].person == s[k].person && r[k].role == s[k].role
      && r[k].salary == RaisedCents(s[k].salary, percent)
  {
    if s == [] then [] else RaiseAll(s[..|s| - 1], percent) + [Raise(s[|s| - 1], percent)]
  }

  /** A raise keeps every employee valid and lowers no salary. */
  lemma RaiseAllKeepsValid(s: seq<EmployeeState>, percent: nat)
    requires forall k :: 0 <= k < |s| ==> s[k].Valid()
    ensures forall k :: 0 <= k < |s| ==> RaiseAll(s, percent)[k].Valid()
    ensures forall k :: 0 <= k < |s| ==> RaiseAll(s, percent)[k].salary >= s[k].salary
  {
    forall k | 0 <= k < |s|
      ensures RaiseAll(s, percent)[k].Valid() && RaiseAll(s, percent)[k].salary >= s[k].salary
    {
      assert RaiseAll(s, percent)[k] == Raise(s[k], percent);
    }
  }

  // ---------------------------------------------------------------------
  // Grouping by role

  /** The roles that occur in `s`. */
  function Roles(s: seq<EmployeeState>): set<string> {
    set e | e in s :: e.role
  }

  function HasRole(role: string): EmployeeState -> bool {
    (e: EmployeeState) => e.role == role
  }

  /** Collectors.groupingBy(getFuncao): one key per role that occurs, and
      under each key the employees with that role in list order. */
  function GroupByRole(s: seq<EmployeeState>): (g: map<string, seq<EmployeeState>>)
    ensures g.Keys == Roles(s)
    ensures forall role :: role in g ==> g[role] == Filter(s, HasRole(role))
  {
    if s == [] then map[]
    else
      var s', e := s[..|s| - 1], s[|s| - 1];
      var g' := GroupByRole(s');
      var g := g'[e.role := (if e.role in g' then g'[e.role] else []) + [e]];
      GroupKeysStep(s, g', g);
      GroupValuesStep(s, g', g);
      g
  }

  /** The step of GroupByRole on the keys: the last employee's role is added. */
  lemma GroupKeysStep(s: seq<EmployeeState>, g': map<string, seq<EmployeeState>>, g: map<string, seq<EmployeeState>>)
    requires s != []
    requires g'.Keys == Roles(s[..|s| - 1])
    requires var e := s[|s| - 1]; g == g'[e.role := (if e.role in g' then g'[e.role] else []) + [e]]
    ensures g.Keys == Roles(s)
  {
    RolesStep(s);
  }

  /** The step of GroupByRole on the groups: the last employee is appended
      to the group of its role. */
  lemma GroupValuesStep(s: seq<EmployeeState>, g': map<string, seq<EmployeeState>>, g: map<string, seq<EmployeeState>>)
    requires s != []
    requires g'.Keys == Roles(s[..|s| - 1])
    requires forall role :: role in g' ==> g'[role] == Filter(s[..|s| - 1], HasRole(role))
    requires var e := s[|s| - 1]; g == g'[e.role := (if e.role in g' then g'[e.role] else []) + [e]]
    ensures forall role :: role in g ==> g[role] == Filter(s, HasRole(role))
  {
    forall role | role in g ensures g[role] == Filter(s, HasRole(role)) {
      GroupUpdateStep(s, g', g, role);
    }
  }

  lemma GroupUpdateStep(s: seq<EmployeeState>, g': map<string, seq<EmployeeState>>, g: map<string, seq<EmployeeState>>, role: string)
    requires s != []
    requires g'.Keys == Roles(s[..|s| - 1])
    requires forall role :: role in g' ==> g'[role] == Filter(s[..|s| - 1], HasRole(role))
    requires var e := s[|s| - 1]; g == g'[e.role := (if e.role in g' then g'[e.role] else []) + [e]]
    requires role in g
    ensures g[role] == Filter(s, HasRole(role))
  {
    GroupEntryStep(s, role, if role in g' then g'[role] else []);
  }

  lemma RolesStep(s: seq<EmployeeState>)
    requires s != []
    ensures Roles(s) == Roles(s[..|s| - 1]) + {s[|s| - 1].role}
  {
    assert s == s[..|s| - 1] + [s[|s| - 1]];
  }

  /** One group after the step: the old group, with the last employee
      appended when it has this role. */
  lemma GroupEntryStep(s: seq<EmployeeState>, role: string, old_group: seq<EmployeeState>)
    requires s != []
    requires role in Roles(s[..|s| - 1]) ==> old_group == Filter(s[..|s| - 1], HasRole(role))
    requires role !in Roles(s[..|s| - 1]) ==> old_group == []
    ensures Filter(s, HasRole(role)) == old_group + (if s[|s| - 1].role == role then [s[|s| - 1]] else [])
  {
    var s' := s[..|s| - 1];
    if role !in Roles(s') {
      forall k | 0 <= k < |s'| ensures !HasRole(role)(s'[k]) {
        assert s'[k] in s';
      }
      FilterNone(s', HasRole(role));
    }
  }

  /** The grouping is a partition: an employee is in the group of its own
      role as often as it is in the list, in no other group, and no group is
      empty. */
  lemma GroupByRoleIsPartition(s: seq<EmployeeState>, e: EmployeeState, role: string)
    ensures var g := GroupByRole(s);
      && (e in s <==> e.role in g && e in g[e.role])
      && (role in g && e in g[role] ==> e.role == role)
      && (role in g ==> multiset(g[role])[e] == if e.role == role then multiset(s)[e] else 0)
      && (role in g ==> g[role] != [])
  {
    var g := GroupByRole(s);
    FilterMembership(s, HasRole(e.role), e);
    FilterMembership(s, HasRole(role), e);
    FilterCount(s, HasRole(role), e);
    if role in g {
      var x :| x in s && x.role == role;
      FilterMembership(s, HasRole(role), x);
    }
  }

  /** Each group keeps the relative order of its members in the list. */
  lemma GroupKeepsOrder(s: seq<EmployeeState>, role: string)
    requires role in GroupByRole(s)
    ensures IsSubsequence(GroupByRole(s)[role], s)
  {
    FilterIsSubsequence(s, HasRole(role));
  }

  // ---------------------------------------------------------------------
  // Birthdays in given months

  function BornInAnyOf(months: seq<int>): EmployeeState -> bool {
    (e: EmployeeState) => e.person.birthDate.month in months
  }

  /** The filter of imprimirAniversariantes: the employees whose birth month
      is one of `months`, in list order. */
  function BirthdaysIn(s: seq<EmployeeState>, months: seq<int>): (r: seq<EmployeeState>)
    ensures IsSubsequence(r, s)
    ensures forall k :: 0 <= k < |r| ==> r[k].person.birthDate.month in months
  {
    FilterIsSubsequence(s, BornInAnyOf(months));
    Filter(s, BornInAnyOf(months))
  }

  /** Exactly the employees born in one of the months are listed, in order;
      for months in 1..12 this is fazAniversarioNoMes answering true for one
      of them. */
  lemma BirthdaysInExactly(s: seq<EmployeeState>, months: seq<int>, e: EmployeeState)
    ensures e in BirthdaysIn(s, months) <==> e in s && e.person.birthDate.month in months
    ensures IsSubsequence(BirthdaysIn(s, months), s)
    ensures (forall m :: m in months ==> 1 <= m <= 12) ==>
      (e.person.birthDate.month in months <==> exists m :: m in months && BornInMonth(e, m) == Ok(true))
  {
    FilterMembership(s, BornInAnyOf(months), e);
    FilterIsSubsequence(s, BornInAnyOf(months));
    if e.person.birthDate.month in months {
      assert BornInMonth(e, e.person.birthDate.month) == Ok(true);
    }
  }

  // ---------------------------------------------------------------------
  // The oldest employee

  /** stream().max(comparing(getIdade)): the position of an employee of
      greatest age on `today`, the first such one on ties (the reduction
      keeps its accumulator when the ages compare equal); none for an empty list. */
  function OldestIndex(s: seq<EmployeeState>, today: LocalDate): (r: Option<nat>)
    ensures r.None? <==> s == []
    ensures r.Some? ==> r.value < |s|
    ensures r.Some? ==> forall k :: 0 <= k < |s| ==> s[k].person.Age(today) <= s[r.value].person.Age(today)
    ensures r.Some? ==> forall k :: 0 <= k < r.value ==> s[k].person.Age(today) < s[r.value].person.Age(today)
  {
    if s == [] then None
    else
      var last := |s| - 1;
      assert forall k :: 0 <= k < last ==> s[..last][k] == s[k];
      match OldestIndex(s[..last], today)
      case None => Some(last)
      case Some(i) =>
        if s[i].person.Age(today) >= s[last].person.Age(today) then Some(i) else Some(last)
  }

  /** The employee the source prints as the oldest, if any. */
  function Oldest(s: seq<EmployeeState>, today: LocalDate): (r: Option<EmployeeState>)
    ensures r.None? <==> s == []
    ensures r.Some? ==> r.value in s && forall e :: e in s ==> e.person.Age(today) <= r.value.person.Age(today)
  {
    match OldestIndex(s, today)
    case None => None
    case Some(i) => Some(s[i])
  }

  // ---------------------------------------------------------------------
  // Alphabetical order

  /** Sorted by compareTo: no employee sorts after a later one. */
  predicate SortedByName(s: seq<EmployeeState>) {
    forall i, j :: 0 <= i < j < |s| ==> CompareTo(s[i], s[j]) <= 0
  }

  /** Places `x` after every element of the sorted `t` that does not sort
      after it: the step of a stable insertion sort. */
  function InsertByName(t: seq<EmployeeState>, x: EmployeeState): (r: seq<EmployeeState>)
    ensures multiset(r) == multiset(t) + multiset{x}
  {
    if t == [] then [x]
    else if CompareTo(t[|t| - 1], x) <= 0 then t + [x]
    else
      var t' := t[..|t| - 1];
      assert t == t' + [t[|t| - 1]];
      InsertByName(t', x) + [t[|t| - 1]]
  }

  /** Inserting into a sorted sequence keeps it sorted. */
  lemma {:induction false} InsertByNameSorted(t: seq<EmployeeState>, x: EmployeeState)
    requires SortedByName(t)
    ensures SortedByName(InsertByName(t, x))
  {
    if t != [] {
      var last := t[|t| - 1];
      if CompareTo(last, x) <= 0 {
        forall i | 0 <= i < |t| ensures CompareTo(t[i], x) <= 0 {
          if i < |t| - 1 { CompareToTransitive(t[i], last, x); }
        }
        SortedSnoc(t, x);
      } else {
        var t' := t[..|t| - 1];
        InsertByNameSorted(t', x);
        var u := InsertByName(t', x);
        CompareToAntisymmetric(last, x);
        forall i | 0 <= i < |u| ensures CompareTo(u[i], last) <= 0 {
          var y := u[i];
          assert y in multiset(u);
          if y != x {
            assert y in multiset(t');
            var k :| 0 <= k < |t'| && t'[k] == y;
            assert t[k] == y;
          }
        }
        SortedSnoc(u, last);
      }
    }
  }

  /** Appending an element that no element sorts after keeps a sequence sorted. */
  lemma SortedSnoc(u: seq<EmployeeState>, z: EmployeeState)
    requires SortedByName(u)
    requires forall i :: 0 <= i < |u| ==> CompareTo(u[i], z) <= 0
    ensures SortedByName(u + [z])
  {
    var r := u + [z];
    forall i, j | 0 <= i < j < |r| ensures CompareTo(r[i], r[j]) <= 0 {
      if j < |u| {
        assert r[i] == u[i] && r[j] == u[j];
      }
    }
  }

  /** stream().sorted(): a stable sort by compareTo, written as an insertion
      sort. The result is sorted and a permutation of the list. */
  function SortByName(s: seq<EmployeeState>): (r: seq<EmployeeState>)
    ensures multiset(r) == multiset(s)
    ensures SortedByName(r)
  {
    if s == [] then []
    else
      var s' := s[..|s| - 1];
      assert s == s' + [s[|s| - 1]];
      var t := SortByName(s');
      InsertByNameSorted(t, s[|s| - 1]);
      InsertByName(t, s[|s| - 1])
  }

  /** The employees whose name is `key` ignoring case. */
  function HasNameKey(key: string): EmployeeState -> bool {
    (e: EmployeeState) => Lower(e.person.name) == key
  }

  /** Inserting keeps the order among employees of any one name key. */
  lemma {:induction false} InsertByNameStable(t: seq<EmployeeState>, x: EmployeeState, key: string)
    ensures Filter(InsertByName(t, x), HasNameKey(key)) == Filter(t, HasNameKey(key)) + Filter([x], HasNameKey(key))
  {
    var p := HasNameKey(key);
    if t == [] {
      assert InsertByName(t, x) == [x];
      assert Filter(t, p) == [];
    } else if CompareTo(t[|t| - 1], x) <= 0 {
      assert InsertByName(t, x) == t + [x];
      FilterAppend(t, [x], p);
    } else {
      InsertByNameStable(t[..|t| - 1], x, key);
      InsertPastLastStable(t, x, key);
    }
  }

  /** The case of InsertByNameStable where `x` goes before the last element. */
  lemma InsertPastLastStable(t: seq<EmployeeState>, x: EmployeeState, key: string)
    requires t != [] && CompareTo(t[|t| - 1], x) > 0
    requires Filter(InsertByName(t[..|t| - 1], x), HasNameKey(key))
          == Filter(t[..|t| - 1], HasNameKey(key)) + Filter([x], HasNameKey(key))
    ensures Filter(InsertByName(t, x), HasNameKey(key)) == Filter(t, HasNameKey(key)) + Filter([x], HasNameKey(key))
  {
    var p := HasNameKey(key);
    var t', last := t[..|t| - 1], t[|t| - 1];
    InsertPastLastSplit(t, x, p);
    FilterDropLast(t, p);
    SingletonsCommute(last, x, key);
    SwapLastTwo(Filter(t', p), Filter([x], p), Filter([last], p));
  }

  /** Two commuting blocks at the end can trade places. */
  lemma SwapLastTwo<T>(a: seq<T>, b: seq<T>, c: seq<T>)
    requires b + c == c + b
    ensures (a + b) + c == (a + c) + b
  {
    assert (a + b) + c == a + (b + c);
    assert (a + c) + b == a + (c + b);
  }

  lemma InsertPastLastSplit(t: seq<EmployeeState>, x: EmployeeState, p: EmployeeState -> bool)
    requires t != [] && CompareTo(t[|t| - 1], x) > 0
    ensures Filter(InsertByName(t, x), p) == Filter(InsertByName(t[..|t| - 1], x), p) + Filter([t[|t| - 1]], p)
  {
    FilterAppend(InsertByName(t[..|t| - 1], x), [t[|t| - 1]], p);
  }

  lemma FilterDropLast(t: seq<EmployeeState>, p: EmployeeState -> bool)
    requires t != []
    ensures Filter(t, p) == Filter(t[..|t| - 1], p) + Filter([t[|t| - 1]], p)
  {
    FilterAppend(t[..|t| - 1], [t[|t| - 1]], p);
    assert t == t[..|t| - 1] + [t[|t| - 1]];
  }

  /** Two employees that compare unequal never share a name key, so their
      order does not matter to a selection by name key. */
  lemma SingletonsCommute(a: EmployeeState, b: EmployeeState, key: string)
    requires CompareTo(a, b) != 0
    ensures Filter([b], HasNameKey(key)) + Filter([a], HasNameKey(key))
         == Filter([a], HasNameKey(key)) + Filter([b], HasNameKey(key))
  {
    var p := HasNameKey(key);
    FilterSingleton(a, p);
    FilterSingleton(b, p);
    if p(a) && p(b) {
      EqualsIgnoreCaseIffLower(a.person.name, b.person.name);
    }
  }

  lemma FilterSingleton(x: EmployeeState, p: EmployeeState -> bool)
    ensures Filter([x], p) == if p(x) then [x] else []
  {
    assert [x][..0] == [];
  }

  /** The sort is stable: the employees that share a name up to case keep
      their relative order. */
  lemma {:induction false} SortByNameStable(s: seq<EmployeeState>, key: string)
    ensures Filter(SortByName(s), HasNameKey(key)) == Filter(s, HasNameKey(key))
  {
    if s != [] {
      var s', x := s[..|s| - 1], s[|s| - 1];
      SortByNameStable(s', key);
      InsertByNameStable(SortByName(s'), x, key);
      FrontLast(s);
      FilterAppend(s', [x], HasNameKey(key));
    }
  }

  /** A list that is already sorted is left as it is, so sorting twice is
      sorting once. */
  lemma {:induction false} SortOfSorted(s: seq<EmployeeState>)
    requires SortedByName(s)
    ensures SortByName(s) == s
  {
    if s != [] {
      var s' := s[..|s| - 1];
      assert SortedByName(s') by {
        forall i, j | 0 <= i < j < |s'| ensures CompareTo(s'[i], s'[j]) <= 0 {
          assert s'[i] == s[i] && s'[j] == s[j];
        }
      }
      SortOfSorted(s');
      FrontLast(s);
    }
  }

  lemma SortIdempotent(s: seq<EmployeeState>)
    ensures SortByName(SortByName(s)) == SortByName(s)
  {
    SortOfSorted(SortByName(s));
  }

  // ---------------------------------------------------------------------
  // Salary total

  /** map(getSalario).reduce(ZERO, add), in cents. */
  function TotalSalaries(s: seq<EmployeeState>): (r: nat)
    ensures s == [] ==> r == 0
    ensures (forall k :: 0 <= k < |s| ==> s[k].salary > 0) ==> r >= |s|
  {
    if s == [] then 0 else TotalSalaries(s[..|s| - 1]) + s[|s| - 1].salary
  }

  /** The total of a concatenation is the sum of the totals. */
  lemma {:induction false} TotalAppend(a: seq<EmployeeState>, b: seq<EmployeeState>)
    ensures TotalSalaries(a + b) == TotalSalaries(a) + TotalSalaries(b)
    decreases |b|
  {
    if b == [] {
      assert a + b == a;
    } else {
      var b' := b[..|b| - 1];
      assert (a + b)[..|a + b| - 1] == a + b';
      TotalAppend(a, b');
    }
  }

  /** The total does not depend on the order of the list: the alphabetical
      listing sums to the same total. */
  lemma {:induction false} TotalOfPermutation(a: seq<EmployeeState>, b: seq<EmployeeState>)
    requires multiset(a) == multiset(b)
    ensures TotalSalaries(a) == TotalSalaries(b)
    decreases |a|
  {
    if a != [] {
      var a', x := a[..|a| - 1], a[|a| - 1];
      FrontLast(a);
      assert multiset(a') == multiset(a) - multiset{x} by {
        assert multiset(a) == multiset(a') + multiset{x};
      }
      assert x in multiset(b);
      var k :| 0 <= k < |b| && b[k] == x;
      TotalWithout(b, k);
      TotalOfPermutation(a', b[..k] + b[k + 1..]);
      TotalAppend(a', [x]);
      TotalOfSingleton(x);
    } else {
      assert b == [];
    }
  }

  /** Taking one element out of a list takes its salary out of the total
      and the element out of the multiset. */
  lemma TotalWithout(b: seq<EmployeeState>, k: nat)
    requires k < |b|
    ensures multiset(b[..k] + b[k + 1..]) == multiset(b) - multiset{b[k]}
    ensures TotalSalaries(b) == TotalSalaries(b[..k] + b[k + 1..]) + b[k].salary
  {
    var pre, x, post := b[..k], b[k], b[k + 1..];
    SplitAt(b, k);
    MultisetWithout(pre, x, post);
    TotalAppend(pre + [x], post);
    TotalAppend(pre, [x]);
    TotalAppend(pre, post);
    TotalOfSingleton(x);
  }

  lemma MultisetWithout(pre: seq<EmployeeState>, x: EmployeeState, post: seq<EmployeeState>)
    ensures multiset(pre + post) == multiset(pre + [x] + post) - multiset{x}
  {
  }

  lemma TotalOfSingleton(x: EmployeeState)
    ensures TotalSalaries([x]) == x.salary
  {
    assert [x][..0] == [];
  }

  lemma TotalOfSorted(s: seq<EmployeeState>)
    ensures TotalSalaries(SortByName(s)) == TotalSalaries(s)
  {
    TotalOfPermutation(SortByName(s), s);
  }

  /** The oldest employee appears in the alphabetical listing, and no one
      listed there is older. */
  lemma OldestInSorted(s: seq<EmployeeState>, today: LocalDate)
    ensures Oldest(s, today).Some? ==>
      && Oldest(s, today).value in SortByName(s)
      && forall k :: 0 <= k < |SortByName(s)| ==>
           SortByName(s)[k].person.Age(today) <= Oldest(s, today).value.person.Age(today)
  {
    var t := SortByName(s);
    if Oldest(s, today).Some? {
      var o := Oldest(s, today).value;
      assert o in multiset(s);
      forall k | 0 <= k < |t| ensures t[k].person.Age(today) <= o.person.Age(today) {
        assert t[k] in multiset(t);
      }
    }
  }

  /** A raise never lowers the total. */
  lemma {:induction false} TotalAfterRaise(s: seq<EmployeeState>, percent: nat)
    ensures TotalSalaries(RaiseAll(s, percent)) >= TotalSalaries(s)
  {
    if s != [] {
      var s' := s[..|s| - 1];
      TotalAfterRaise(s', percent);
      RaiseNeverLowers(s[|s| - 1].salary, percent);
      assert RaiseAll(s, percent)[..|s| - 1] == RaiseAll(s', percent);
    }
  }

  // ---------------------------------------------------------------------
  // Salaries as multiples of the minimum wage

  datatype WageLine = WageLine(name: string, multiple: nat)

  /** imprimirSalariosMinimos without the printing: each employee's name and
      calcularSalariosMinimos(minWage), in list order. The first element
      rejects a minimum wage that is not positive; an empty list rejects nothing. */
  function MinimumWageTable(s: seq<EmployeeState>, minWage: int): (r: Result<seq<WageLine>>)
    ensures r.Err? <==> minWage <= 0 && s != []
    ensures r.Err? ==> r.error == NonPositiveMinimumWage
    ensures r.Ok? ==> |r.value| == |s|
    ensures r.Ok? ==> forall k :: 0 <= k < |s| ==>
      && MinimumWageMultiple(s[k], minWage).Ok?
      && r.value[k] == WageLine(s[k].person.name, MinimumWageMultiple(s[k], minWage).value)
  {
    if s == [] then Ok([])
    else match MinimumWageMultiple(s[0], minWage)
      case Err(e) => Err(e)
      case Ok(m) =>
        match MinimumWageTable(s[1..], minWage)
        case Err(e) => Err(e)
        case Ok(rest) =>
          assert forall k :: 1 <= k < |s| ==> s[k] == s[1..][k - 1];
          Ok([WageLine(s[0].person.name, m)] + rest)
  }
}
