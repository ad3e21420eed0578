# Employee roster, modelled in Dafny

A Dafny model of a small employee-roster program, with proofs about it. The program has three parts:

- `Pessoa`: a person with a name and a birth date.
- `Funcionario`: an employee, which is a person with a salary and a role.
- `Principal`: a report driver. It inserts ten employees into a list, removes "João", prints the list, gives everyone a 10% raise, and then prints several sections:
  - the employees grouped by role;
  - those born in October or December;
  - the oldest employee;
  - the list in alphabetical order;
  - the salary total;
  - each salary as a multiple of the 1212.00 minimum wage.

The model follows the program's structure:

| module | file | what it models |
|---|---|---|
| `Text` | `text.dfy` | `String.trim`, `equalsIgnoreCase` and `compareToIgnoreCase`. |
| `Dates` | `dates.dfy` | `LocalDate` as a (year, month, day) triple that exists in the ISO calendar, `isAfter`, and `Period.between(...).getYears()`. The whole-month count is adjusted by the day difference and divided by 12 with truncation toward zero. |
| `Seqs` | `seqs.dfy` | An order-preserving `Filter` and its lemmas (membership, counts, subsequence, concatenation). It is the meaning of `removeIf`, of a stream `filter` and of each group of `groupingBy`. |
| `Results` | `results.dfy` | The exceptions the constructors and setters throw, as error values: `Result`, `Outcome` and `Option`. |
| `Persons` | `persons.dfy` | `Pessoa`, a pure record: the validating constructor, the age and `equals`. |
| `Employees` | `employees.dfy` | `Funcionario`. See below. |
| `Reports` | `reports.dfy` | The stream pipelines behind each printed section, as functions on the employees' states in list order. |
| `Roster` | `roster.dfy` | The `ArrayList` as a class `EmployeeList` with a `seq<Employee>` field. See below. |
| `Scenario` | `scenario.dfy` | The report of the seed roster, computed and proved section by section. |

`Employees` holds:

- a value type `EmployeeState`;
- the fixed-point arithmetic of the raise and of the minimum-wage multiple;
- `compareTo` and `equals`;
- a class `Employee` whose `salary` and `role` fields the setters and `ApplyRaise` update in place.

`Roster` holds:

- insertion of the seed rows;
- removal by name, as a scan that keeps the survivors;
- the raise applied to every object in place;
- `RunReport`, which runs the report sections in the driver's order.

Modelling choices:

- **Amounts.** Salaries are `BigDecimal` amounts with two decimals. Here they are integer cents.
- **Raise.** A raise of a whole percentage `p` is `(cents * (100 + p) + 50) / 100`. This is the exact product rounded half-up to cents.
- **Minimum-wage multiple.** It is `(200 * salary + minWage) / (2 * minWage)` in hundredths. This is the exact quotient rounded half-up to two decimals.
- **The clock.** `LocalDate.now()` is replaced by a `today` parameter wherever the source reads it.

## Model

| member | source | states |
|---|---|---|
| `Text.Trim` | Pessoa.java:30 | `trim()`: the result has no leading or trailing character at or below U+0020. It is the slice of the input between the first and the last other character. Only such characters lie outside it. It is empty exactly when every character of the input is one of them. |
| `Text.TrimOfTrimmed` | Funcionario.java:72 | Trimming a string whose ends are not whitespace returns it unchanged. |
| `Text.TrimIdempotent` | Pessoa.java:30 | Trimming an already trimmed name changes nothing. |
| `Text.IsBlank` | Pessoa.java:20-22 | `trim().isEmpty()` holds exactly when every character of the string is at or below U+0020. |
| `Text.EqualsIgnoreCase` | Principal.java:78 | `equalsIgnoreCase` is reflexive: every string equals itself ignoring case. `Text.EqualsIgnoreCaseIffLower` characterises it. |
| `Text.EqualsIgnoreCaseIffLower` | Principal.java:78 | `equalsIgnoreCase` holds exactly when the two case-folded strings are equal. |
| `Text.CompareIgnoreCase` | Funcionario.java:118 | `compareToIgnoreCase` is 0 exactly for the pairs `equalsIgnoreCase` accepts (both directions). The proof goes through the recursive call's contract. |
| `Text.CompareAntisymmetric` | Funcionario.java:116-119 | Swapping the arguments of `compareToIgnoreCase` negates the result. |
| `Text.CompareTransitive` | Funcionario.java:116-119 | "Sorts no later than" under `compareToIgnoreCase` is transitive. |
| `Text.CompareRespectsCase` | Funcionario.java:116-119 | Replacing either argument by a string equal to it ignoring case does not change the comparison. |
| `Dates.Date.IsAfter` | Pessoa.java:26-28 | `isAfter` between dates that exist: a later proleptic month (year * 12 + month - 1), or the same month and a later day. |
| `Dates.YearsBetween` | Pessoa.java:47-49 | When the birth date is not after `today`, the age is non-negative. It equals the difference of the years, less one while this year's anniversary is still ahead. When the birth date is after `today`, the age is at most 0. |
| `Dates.YearsBetweenMonotone` | Pessoa.java:47-49 | The whole-year count never decreases as the end date moves forward. |
| `Persons.NewPerson` | Pessoa.java:19-32 | The constructor fails exactly when the name is blank or the birth date is after `today`, with the error of the first failed check. On success it stores the trimmed, non-empty name and the birth date unchanged. |
| `Persons.Person.Age` | Pessoa.java:47-49 | `getIdade`: whole years from the birth date to `today`, counted as in `Dates.YearsBetween`. |
| `Persons.AgeOnConstructionDay` | Pessoa.java:26-28 | A person the constructor accepts on `today` has a non-negative age on that day. |
| `Persons.AgeMonotone` | Pessoa.java:48 | A person's age never decreases as the reference date advances. |
| `Persons.Person.Equals` | Pessoa.java:51-59 | `equals` holds exactly when the two records are the same value, i.e. name and birth date are equal. `Persons.EqualsIsEquivalence` states that it is an equivalence. |
| `Persons.EqualsIsEquivalence` | Pessoa.java:51-59 | `equals` is reflexive, symmetric and transitive. |
| `Employees.RaisedCents` | Funcionario.java:85-86 | The raised salary `r` is the half-up rounding of `cents * (100 + p) / 100`: `100r - 50 <= cents * (100 + p) < 100r + 50`. |
| `Employees.RoundingIsUnique` | Funcionario.java:86 | Half-up rounding to cents has exactly one answer, so the bounds above determine the raised salary. |
| `Employees.RaiseByZero` | Funcionario.java:85-86 | A 0% raise leaves the salary unchanged. |
| `Employees.RaiseNeverLowers` | Funcionario.java:85-86 | A non-negative raise never lowers a salary, so a positive salary stays positive. |
| `Employees.WageMultiple` | Funcionario.java:100 | The multiple `r`, in hundredths, is the half-up rounding of `salary / minWage` to two decimals: `2 * minWage * r <= 200 * salary + minWage < 2 * minWage * (r + 1)`. |
| `Employees.WageMultipleAntitone` | Funcionario.java:100 | For a fixed salary, a larger minimum wage never gives a larger multiple. |
| `Employees.Hire` | Funcionario.java:39-51 | The constructor's checks, in order: the person's errors, a salary that is not positive, then a blank role. It succeeds exactly when all pass. On success the state is valid, the person is the one `Persons.NewPerson` builds, the salary is as given and the role is trimmed. |
| `Employees.Raise` | Funcionario.java:80-87 | After a raise the person and role are unchanged and the salary is the half-up rounded `Employees.RaisedCents`. A valid employee stays valid and its salary does not decrease. A 0% raise is the identity. |
| `Employees.MinimumWageMultiple` | Funcionario.java:95-101 | `calcularSalariosMinimos` fails exactly when the minimum wage is not positive. Otherwise it returns the half-up rounded multiple, meeting the bounds of `Employees.WageMultiple`. |
| `Employees.BornInMonth` | Funcionario.java:109-114 | `fazAniversarioNoMes` fails exactly for a month outside 1..12. Otherwise it answers true exactly when the birth month equals the argument. |
| `Employees.CompareTo` | Funcionario.java:116-119 | `compareTo` is 0 exactly when the names are equal ignoring case. The lemmas below state its order properties. |
| `Employees.CompareToRespectsCase` | Funcionario.java:116-119 | `compareTo` depends only on the names up to case. |
| `Employees.CompareToAntisymmetric` | Funcionario.java:116-119 | `compareTo(a, b) == -compareTo(b, a)`. |
| `Employees.CompareToTransitive` | Funcionario.java:116-119 | `compareTo` orders transitively. |
| `Employees.Equals` | Funcionario.java:121-130 | `equals` holds exactly when the two states are the same value: person, salary and role all equal. |
| `Employees.EqualsConsistentWithCompareTo` | Funcionario.java:116-130 | Equal employees have equal persons and compare as 0: the natural order is consistent with `equals`. |
| `Employees.Employee.constructor` | Funcionario.java:39-51 | A new object holds exactly the validated state. |
| `Employees.Employee.SetSalary` | Funcionario.java:61-66 | A salary that is not positive is rejected and nothing changes. Otherwise only the salary is replaced. The object stays valid either way. |
| `Employees.Employee.SetRole` | Funcionario.java:68-73 | A blank role is rejected and nothing changes. Otherwise only the role is replaced, by its trimmed form. The object stays valid either way. |
| `Employees.Employee.ApplyRaise` | Funcionario.java:80-87 | A negative percentage is rejected and nothing changes. Otherwise the state becomes `Employees.Raise` of the old state. The object stays valid either way. |
| `Employees.NewEmployee` | Funcionario.java:39-51 | `new Funcionario(...)` either returns the error of `Employees.Hire`, or a fresh valid object whose state is the one `Employees.Hire` describes. |
| `Reports.NotNamed` | Principal.java:78 | The predicate of `removeIf`, negated: the employees it keeps. It has no contract of its own. `Reports.RemovalExactly` states what filtering with it keeps. |
| `Reports.RemovalExactly` | Principal.java:77-79 | Removal by name keeps an employee exactly when it is in the list and its name differs from the target ignoring case. The survivors are a subsequence of the list, in order. A name no employee has changes nothing. |
| `Reports.RaiseAll` | Principal.java:88-90 | The raise applied to every element keeps the length and, position by position, the person and the role. Each salary is replaced by the raised one. |
| `Reports.RaiseAllKeepsValid` | Principal.java:88-90 | After the raise every employee is still valid and no salary is lower. |
| `Reports.GroupByRole` | Principal.java:92-95 | `groupingBy(getFuncao)` has one key per role that occurs. Under each key are exactly the employees with that role, in list order. |
| `Reports.GroupByRoleIsPartition` | Principal.java:92-95 | Each employee lies in the group of its own role, as many times as it occurs in the list, and in no other group. No group is empty. |
| `Reports.GroupKeepsOrder` | Principal.java:92-95 | Each group is a subsequence of the list. |
| `Reports.BirthdaysIn` | Principal.java:114-117 | The birthday filter lists, as a subsequence of the list, only employees whose birth month is one of the months. `Reports.BirthdaysInExactly` adds the converse. |
| `Reports.BirthdaysInExactly` | Principal.java:114-117 | The birthday filter lists exactly the employees born in one of the months, as a subsequence of the list. For months in 1..12 this is `fazAniversarioNoMes` answering true for one of them. |
| `Reports.OldestIndex` | Principal.java:125-127 | `max(comparing(getIdade))`: none exactly for the empty list. Otherwise it gives a position whose age is maximal, and every earlier employee is strictly younger, so ties go to the first. |
| `Reports.Oldest` | Principal.java:125-127 | None exactly for the empty list. Otherwise it gives an employee of the list whose age no other employee exceeds. |
| `Reports.OldestInSorted` | Principal.java:125-137 | The oldest employee appears in the alphabetical listing, and no one in the listing is older. |
| `Reports.InsertByName` | Principal.java:135-137 | The insertion step of the sort adds exactly one copy of the new employee (multiset). |
| `Reports.InsertByNameSorted` | Principal.java:135-137 | Inserting into a sorted list keeps it sorted by `compareTo`. |
| `Reports.SortByName` | Principal.java:135-137 | `sorted()`: the result is sorted by `compareTo` and is a permutation of the list (same multiset). |
| `Reports.InsertByNameStable` | Principal.java:135-137 | Insertion keeps the relative order of the employees of any one name key. |
| `Reports.SortByNameStable` | Principal.java:135-137 | The sort is stable: for every name key, the employees with that key appear in the same order as in the list. |
| `Reports.SortOfSorted` | Principal.java:135-137 | A list already sorted by name is left exactly as it is. |
| `Reports.SortIdempotent` | Principal.java:135-137 | Sorting twice is sorting once. |
| `Reports.TotalSalaries` | Principal.java:145-147 | `reduce(ZERO, add)`: an empty list totals 0. When every salary is positive, the total is at least the number of employees. |
| `Reports.TotalAppend` | Principal.java:145-147 | The total of a concatenation is the sum of the totals. |
| `Reports.TotalOfPermutation` | Principal.java:145-147 | Two lists with the same employees (multiset) have the same total. |
| `Reports.TotalWithout` | Principal.java:145-147 | Taking one employee out of a list removes it once from the multiset and removes its salary from the total. |
| `Reports.TotalOfSorted` | Principal.java:135-147 | The alphabetical listing has the same total as the list. |
| `Reports.TotalAfterRaise` | Principal.java:88-90 | A raise never lowers the total. |
| `Reports.MinimumWageTable` | Principal.java:157-160 | `forEach(calcularSalariosMinimos(SALARIO_MINIMO))`: it fails exactly when the minimum wage is not positive and the list is not empty. Otherwise it gives one line per employee, in list order, with the employee's name and its multiple. |
| `Seqs.Filter` | Principal.java:78 | The order-preserving filter behind `removeIf`, `filter` and each `groupingBy` group. It keeps no more elements than the list has, and each kept element satisfies the predicate. `Seqs.FilterMembership`, `Seqs.FilterIsSubsequence` and `Seqs.FilterCount` state the rest. |
| `Seqs.FilterMembership` | Principal.java:78 | An element survives a filter exactly when it is in the list and satisfies the predicate. |
| `Seqs.FilterIsSubsequence` | Principal.java:78 | What a filter keeps is a subsequence of the list. |
| `Seqs.FilterCount` | Principal.java:94 | A filter keeps every occurrence of an element that satisfies the predicate, and none of one that does not. |
| `Seqs.FilterDistinct` | Principal.java:78 | A filter of a list without repetitions has no repetitions. |
| `Roster.Unnamed` | Principal.java:78 | The `removeIf` predicate, negated, on the objects. It has no contract of its own. `Roster.KeepUnnamed` and `Roster.StatesOfFilter` state what filtering with it keeps. |
| `Roster.StatesOfFilter` | Principal.java:78 | Removing objects by name gives the states that `Reports.NotNamed` keeps. |
| `Roster.EmployeeList.constructor` | Principal.java:61 | A new list is empty. |
| `Roster.EmployeeList.Add` | Principal.java:63 | `add` appends exactly one employee at the end. |
| `Roster.HireWellFormed` | Principal.java:63-72 | A row whose fields are already valid fails only when its birth date is after `today`. Otherwise it is stored unchanged. |
| `Roster.AddNew` | Principal.java:63 | `list.add(new Funcionario(...))`: a constructor error leaves the list as it was. Otherwise one fresh employee with the state `Employees.Hire` describes is appended, and the list stays duplicate-free. |
| `Roster.SeedRosterWellFormed` | Principal.java:63-72 | Every seed row is valid. All are born by `today` exactly when the latest seed birth date (24/05/2003) is not after `today`. |
| `Roster.AddWellFormed` | Principal.java:63-72 | Adding a valid row fails exactly when its birth date is after `today`. Otherwise the states of the list grow by exactly that row. |
| `Roster.AddRows` | Principal.java:63-72 | Adding the rows in order succeeds exactly when none is born after `today`. Then the states of the list are the old ones followed by the rows. |
| `Roster.InsertEmployees` | Principal.java:60-75 | `inserirFuncionarios` fails exactly when a seed birth date is after `today`. Otherwise it returns a fresh list of fresh, distinct, valid objects whose states are the ten seed rows in order. |
| `Roster.KeepUnnamed` | Principal.java:78 | The scan of `removeIf` returns exactly the filter of the objects whose name differs from the target ignoring case. |
| `Roster.RemoveEmployee` | Principal.java:77-79 | `removerFuncionario` leaves in the list exactly the filter of the old list. Its states are `Reports.NotNamed`'s filter of the old states. The list stays valid and duplicate-free. |
| `Roster.RaiseEach` | Principal.java:88-90 | Raising each state one by one gives `Reports.RaiseAll`. |
| `Roster.ApplyRaiseToAll` | Principal.java:88-90 | With a non-negative percentage every object's state becomes `Employees.Raise` of its old state. With a negative one nothing changes, and the call fails unless the list is empty. |
| `Roster.ReportOf` | Principal.java:22-58 | The report of `executarTeste`. There is one minimum-wage line per remaining employee. The four lemmas below state what each section means. |
| `Roster.ReportRemaining` | Principal.java:29-30 | The remaining employees are exactly those of the list whose name differs from "João" ignoring case, as a subsequence of the list. |
| `Roster.ReportListing` | Principal.java:36-54 | The alphabetical listing is sorted by `compareTo` and is a permutation of the remaining employees after the 10% raise. The total is the sum over that listing and is no lower than before the raise. |
| `Roster.ReportOldest` | Principal.java:47-48 | An oldest employee is named exactly when some employee remains. |
| `Roster.ReportOldestListed` | Principal.java:47-51 | The oldest employee is in the alphabetical listing, and no one listed is older. |
| `Roster.ReportBirthdays` | Principal.java:44-45 | The birthday section lists only employees born in October or December. |
| `Roster.RunSections` | Principal.java:29-57 | Running the removal, the raise in place and the sections on a list gives exactly `Roster.ReportOf` of the list's states before the run. Afterwards the list holds the objects the removal kept, in order, and their states are the raised remaining employees. |
| `Roster.RunReport` | Principal.java:22-58 | `executarTeste` fails exactly when a seed birth date is after `today`. Otherwise its report is `Roster.ReportOf` of the seed roster. |
| `Scenario.RemovingJoao` | Principal.java:26-31 | Removing "João" from the seed roster leaves the other nine in their order. None of them is named João. |
| `Scenario.RaisingRemaining` | Principal.java:36-37 | The 10% raise turns the nine salaries into those listed in `Raised`, e.g. 2009.44 into 2210.38. |
| `Scenario.GroupsOfRaised` | Principal.java:40-42 | The raised roster is grouped under exactly the seven seed roles. |
| `Scenario.BirthdaysOfRaised` | Principal.java:44-45 | Maria and Miguel are exactly the employees born in October or December, in that order. |
| `Scenario.OldestOfRaised` | Principal.java:47-48 | On any day on which the roster can be hired, Caio is the oldest. |
| `Scenario.TotalOfRaised` | Principal.java:53-54 | The salary total after the raise is 50906.82. |
| `Scenario.WagesOfRaised` | Principal.java:56-57 | The minimum-wage multiples after the raise are 1.82, 8.93, 17.35, 2.03, 1.44, 3.70, 2.74, 1.46 and 2.54, in list order. |
| `Scenario.SeedReport` | Principal.java:22-58 | The whole report of the seed roster, on any day on which it can be hired: the nine survivors, the seven roles, the two birthdays, Caio as the oldest, the total of 50906.82 and the nine multiples. |

## Left out

- Printing and formatting are not modelled: `System.out`, the `toString` methods, `formatarNumero` (`DecimalFormat` with pt-BR symbols) and the dd/MM/yyyy date format. Only the values printed are modelled. In particular the order in which `imprimirFuncionariosPorFuncao` prints the groups is not modelled; the groups are a map.
- `LocalDate.now()` is a `today` parameter. `InsertEmployees` and `RunReport` use one `today` for all ten constructions.
- `Employees.RaisedCents`: the raise percentage is a `double` in the source and goes through `BigDecimal.valueOf(1 + p/100)`. Here it is a whole number and the factor is exact, so the binary rounding of the double factor is not modelled. The two can differ. For `p = 57` the double factor is 1.5699999999999998, so 1000.50 becomes 1570.78 in the source and 1570.79 in the model (worked by hand, not executed). For `p = 10`, the only percentage the driver uses, the factor is exactly 1.1 and the two agree.
- Salaries are integer cents. Salaries with more than two decimals are outside the model.
- Case folding is ASCII only. Only 'A'..'Z' have a lower-case partner here, so "Heloísa" and "HELOÍSA" do not compare equal as they do in Java. Every name of the seed roster compares the same either way.
- `hashCode` and the key order of the `HashMap` that `groupingBy` builds are not modelled. `BigDecimal`'s scale-sensitive `equals` is replaced by equality of cents.
- `main`'s catch-all handler and every null check are not modelled: Dafny values are never null, and the driver's errors are returned as values.
- `getNome`, `getDataNascimento`, `getSalario` and `getFuncao` are the fields of the records and need no member of their own.
- `inserirFuncionarios` writes ten `add` statements. `Roster.AddRows` performs them as one pass over the table of seed rows, in the same order.
- `Roster.ApplyRaiseToAll` requires the list's objects to be distinct. A list that holds the same object twice would raise it twice, and the model excludes that case.
- `Roster.ReportOf`: the group map and the wage lines are stated about the report only through their definitions (`Reports.GroupByRole`, `Reports.MinimumWageTable`). Their meaning is proved for those functions, and `Scenario.SeedReport` computes them for the seed roster.
- `Scenario.SeedReport` does not state the alphabetical listing of the seed roster element by element. `Reports.SortByName` and its lemmas state that it is a sorted, stable permutation.
