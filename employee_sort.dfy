/**
 * javaexp5.java: four successive List.sort calls on one ArrayList of
 * employees, each with a different comparator, sorted in place by
 * ListSort.SortInPlace. Salaries are held in cents.
 */
module EmployeeSort {
  import opened JavaText
  import opened ListSort

  datatype Employee = Employee(name: string, age: int, salary: int)

  /** The four comparators of the program, in the order they are used. */
  datatype Order =
    | ByName               // (e1, e2) -> e1.getName().compareTo(e2.getName())
    | ByAge                // Comparator.comparingInt(Employee::getAge)
    | BySalaryDescending   // Comparator.comparingDouble(Employee::getSalary).reversed()
    | ByAgeThenName        // comparingInt(Employee::getAge).thenComparing(Employee::getName)

  function Compare(o: Order, x: Employee, y: Employee): int {
    match o
    case ByName => CompareTo(x.name, y.name)
    case ByAge => IntCompare(x.age, y.age)
    case BySalaryDescending => IntCompare(y.salary, x.salary)
    case ByAgeThenName =>
      var c := IntCompare(x.age, y.age);
      if c != 0 then c else CompareTo(x.name, y.name)
  }

  /** The comparator object passed to employees.sort. */
  function Comparator(o: Order): (Employee, Employee) -> int {
    (x, y) => Compare(o, x, y)
  }

  /** The fields a comparator looks at. */
  predicate SameKey(o: Order, x: Employee, y: Employee) {
    match o
    case ByName => x.name == y.name
    case ByAge => x.age == y.age
    case BySalaryDescending => x.salary == y.salary
    case ByAgeThenName => x.age == y.age && x.name == y.name
  }

  /** A comparator answers 0 exactly when the fields it looks at are equal. */
  lemma CompareZero(o: Order, x: Employee, y: Employee)
    ensures Compare(o, x, y) == 0 <==> SameKey(o, x, y)
  {
    CompareToZero(x.name, y.name);
  }

  /** Swapping the arguments flips the sign. */
  lemma CompareFlip(o: Order, x: Employee, y: Employee)
    ensures Compare(o, x, y) > 0 <==> Compare(o, y, x) < 0
  {
    CompareToAntisymmetric(x.name, y.name);
  }

  lemma CompareTransitive(o: Order, x: Employee, y: Employee, z: Employee)
    requires Compare(o, x, y) <= 0 && Compare(o, y, z) <= 0
    ensures Compare(o, x, z) <= 0
  {
    match o
    case ByName => CompareToTransitive(x.name, y.name, z.name);
    case ByAge =>
    case BySalaryDescending =>
    case ByAgeThenName =>
      if x.age == y.age == z.age { CompareToTransitive(x.name, y.name, z.name); }
  }

  /** Each of the four comparators keeps the Comparator contract. */
  lemma ComparatorContract(o: Order)
    ensures IsComparator(Comparator(o))
  {
    var cmp := Comparator(o);
    forall x, y ensures cmp(x, y) > 0 <==> cmp(y, x) < 0 {
      CompareFlip(o, x, y);
    }
    forall x, y, z | cmp(x, y) <= 0 && cmp(y, z) <= 0 ensures cmp(x, z) <= 0 {
      CompareTransitive(o, x, y, z);
    }
  }

  /** What employees.sort(comparator) leaves in the list. */
  function StableSort(o: Order, s: seq<Employee>): (r: seq<Employee>)
    ensures |r| == |s|
  {
    Sort(Comparator(o), s)
  }

  /** Every sort leaves the list a permutation of what it was. */
  lemma StableSortPermutes(o: Order, s: seq<Employee>)
    ensures multiset(StableSort(o, s)) == multiset(s)
  {
    SortPermutes(Comparator(o), s);
  }

  /** After every sort the list is in non-decreasing comparator order. */
  lemma StableSortSorted(o: Order, s: seq<Employee>)
    ensures Sorted(Comparator(o), StableSort(o, s))
  {
    ComparatorContract(o);
    SortSorted(Comparator(o), s);
  }

  /** The elements of s that the comparator cannot tell from x, in their order in s. */
  function Peers(o: Order, s: seq<Employee>, x: Employee): seq<Employee> {
    if s == [] then []
    else Peers(o, s[..|s| - 1], x) + (if SameKey(o, s[|s| - 1], x) then [s[|s| - 1]] else [])
  }

  /** The employees with the same key as x are the ones the comparator ties with x. */
  lemma {:induction false} PeersAreTies(o: Order, s: seq<Employee>, x: Employee)
    ensures Peers(o, s, x) == Ties(Comparator(o), s, x)
  {
    if s != [] {
      PeersAreTies(o, s[..|s| - 1], x);
      CompareZero(o, s[|s| - 1], x);
    }
  }

  /**
   * Every sort is stable: employees with the same key (the same name, age,
   * salary, or age and name) keep their relative order.
   */
  lemma StableSortStable(o: Order, s: seq<Employee>, x: Employee)
    ensures Peers(o, StableSort(o, s), x) == Peers(o, s, x)
  {
    ComparatorContract(o);
    SortStable(Comparator(o), s, x);
    PeersAreTies(o, s, x);
    PeersAreTies(o, StableSort(o, s), x);
  }

  /** The salary order is non-increasing salary; reversed() keeps equal salaries in place. */
  lemma SortedBySalary(s: seq<Employee>)
    ensures Sorted(Comparator(BySalaryDescending), s) <==>
      forall i, j :: 0 <= i < j < |s| ==> s[i].salary >= s[j].salary
  {
  }

  /** The last comparator orders by age and, only among equal ages, by name. */
  lemma SortedByAgeThenName(s: seq<Employee>)
    ensures Sorted(Comparator(ByAgeThenName), s) <==>
      forall i, j :: 0 <= i < j < |s| ==>
        s[i].age < s[j].age || (s[i].age == s[j].age && CompareTo(s[i].name, s[j].name) <= 0)
  {
  }

  // ---------------------------------------------------------------------
  // The program's four sorts
  // ---------------------------------------------------------------------

  const Charlie := Employee("Charlie", 30, 6000000)
  const Alice := Employee("Alice", 25, 7500050)
  const Bob := Employee("Bob", 40, 5000000)
  const David := Employee("David", 25, 9000000)

  /** The list as the program builds it. */
  function Staff(): seq<Employee> {
    [Charlie, Alice, Bob, David]
  }

  /** Alice, Bob and David come before Charlie by name; Alice before Bob. */
  lemma NameSteps()
    ensures Insert(Comparator(ByName), [Charlie], Alice) == [Alice, Charlie]
    ensures Insert(Comparator(ByName), [Alice, Charlie], Bob) == [Alice, Bob, Charlie]
    ensures Insert(Comparator(ByName), [Alice, Bob, Charlie], David) == [Alice, Bob, Charlie, David]
  {
    assert Charlie.name[0] == 'C' && Alice.name[0] == 'A' && Bob.name[0] == 'B' && David.name[0] == 'D';
    InsertBefore(Comparator(ByName), [Charlie], Alice);
    assert [Charlie][..0] == [];
    InsertBefore(Comparator(ByName), [Alice, Charlie], Bob);
    assert [Alice, Charlie][..1] == [Alice];
    InsertAfter(Comparator(ByName), [Alice], Bob);
    InsertAfter(Comparator(ByName), [Alice, Bob, Charlie], David);
  }

  lemma NameSortResult()
    ensures StableSort(ByName, Staff()) == [Alice, Bob, Charlie, David]
  {
    NameSteps();
    SortSingle(Comparator(ByName), Charlie);
    SortSnoc(Comparator(ByName), [Charlie], Alice);
    SortSnoc(Comparator(ByName), [Charlie, Alice], Bob);
    SortSnoc(Comparator(ByName), [Charlie, Alice, Bob], David);
    assert [Charlie] + [Alice] == [Charlie, Alice];
    assert [Charlie, Alice] + [Bob] == [Charlie, Alice, Bob];
    assert [Charlie, Alice, Bob] + [David] == Staff();
  }

  /** Insertion steps of the age sort: only strictly older employees are passed. */
  lemma AgeSteps()
    ensures Insert(Comparator(ByAge), [Alice], Bob) == [Alice, Bob]
    ensures Insert(Comparator(ByAge), [Alice, Bob], Charlie) == [Alice, Charlie, Bob]
    ensures Insert(Comparator(ByAge), [Alice, Charlie, Bob], David) == [Alice, David, Charlie, Bob]
  {
    InsertAfter(Comparator(ByAge), [Alice], Bob);
    InsertBefore(Comparator(ByAge), [Alice, Bob], Charlie);
    assert [Alice, Bob][..1] == [Alice];
    InsertAfter(Comparator(ByAge), [Alice], Charlie);
    InsertBefore(Comparator(ByAge), [Alice, Charlie, Bob], David);
    assert [Alice, Charlie, Bob][..2] == [Alice, Charlie];
    InsertBefore(Comparator(ByAge), [Alice, Charlie], David);
    assert [Alice, Charlie][..1] == [Alice];
    InsertAfter(Comparator(ByAge), [Alice], David);
  }

  /** Alice and David are both 25; the name sort put Alice first, and the stable age sort keeps her there. */
  lemma AgeSortResult()
    ensures StableSort(ByAge, [Alice, Bob, Charlie, David]) == [Alice, David, Charlie, Bob]
  {
    AgeSteps();
    SortSingle(Comparator(ByAge), Alice);
    SortSnoc(Comparator(ByAge), [Alice], Bob);
    SortSnoc(Comparator(ByAge), [Alice, Bob], Charlie);
    SortSnoc(Comparator(ByAge), [Alice, Bob, Charlie], David);
    assert [Alice] + [Bob] == [Alice, Bob];
    assert [Alice, Bob] + [Charlie] == [Alice, Bob, Charlie];
    assert [Alice, Bob, Charlie] + [David] == [Alice, Bob, Charlie, David];
  }

  /** Insertion steps of the salary sort, highest salary first. */
  lemma SalarySteps()
    ensures Insert(Comparator(BySalaryDescending), [Alice], David) == [David, Alice]
    ensures Insert(Comparator(BySalaryDescending), [David, Alice], Charlie) == [David, Alice, Charlie]
    ensures Insert(Comparator(BySalaryDescending), [David, Alice, Charlie], Bob) == [David, Alice, Charlie, Bob]
  {
    InsertBefore(Comparator(BySalaryDescending), [Alice], David);
    assert [Alice][..0] == [];
    InsertAfter(Comparator(BySalaryDescending), [David, Alice], Charlie);
    InsertAfter(Comparator(BySalaryDescending), [David, Alice, Charlie], Bob);
  }

  lemma SalarySortResult()
    ensures StableSort(BySalaryDescending, [Alice, David, Charlie, Bob]) == [David, Alice, Charlie, Bob]
  {
    SalarySteps();
    SortSingle(Comparator(BySalaryDescending), Alice);
    SortSnoc(Comparator(BySalaryDescending), [Alice], David);
    SortSnoc(Comparator(BySalaryDescending), [Alice, David], Charlie);
    SortSnoc(Comparator(BySalaryDescending), [Alice, David, Charlie], Bob);
    assert [Alice] + [David] == [Alice, David];
    assert [Alice, David] + [Charlie] == [Alice, David, Charlie];
    assert [Alice, David, Charlie] + [Bob] == [Alice, David, Charlie, Bob];
  }

  /** Insertion steps of the age-then-name sort. */
  lemma AgeThenNameSteps()
    ensures Insert(Comparator(ByAgeThenName), [David], Alice) == [Alice, David]
    ensures Insert(Comparator(ByAgeThenName), [Alice, David], Charlie) == [Alice, David, Charlie]
    ensures Insert(Comparator(ByAgeThenName), [Alice, David, Charlie], Bob) == [Alice, David, Charlie, Bob]
  {
    assert David.name[0] == 'D' && Alice.name[0] == 'A';
    InsertBefore(Comparator(ByAgeThenName), [David], Alice);
    assert [David][..0] == [];
    InsertAfter(Comparator(ByAgeThenName), [Alice, David], Charlie);
    InsertAfter(Comparator(ByAgeThenName), [Alice, David, Charlie], Bob);
  }

  /** The final order: Alice(25), David(25), Charlie(30), Bob(40). */
  lemma AgeThenNameSortResult()
    ensures StableSort(ByAgeThenName, [David, Alice, Charlie, Bob]) == [Alice, David, Charlie, Bob]
  {
    AgeThenNameSteps();
    SortSingle(Comparator(ByAgeThenName), David);
    SortSnoc(Comparator(ByAgeThenName), [David], Alice);
    SortSnoc(Comparator(ByAgeThenName), [David, Alice], Charlie);
    SortSnoc(Comparator(ByAgeThenName), [David, Alice, Charlie], Bob);
    assert [David] + [Alice] == [David, Alice];
    assert [David, Alice] + [Charlie] == [David, Alice, Charlie];
    assert [David, Alice, Charlie] + [Bob] == [David, Alice, Charlie, Bob];
  }

  /** The four employees.sort calls of main, each followed by its printout. */
  method SortEmployees(a: array<Employee>) returns (byName: seq<Employee>, byAge: seq<Employee>,
                                                     bySalary: seq<Employee>)
    requires a[..] == Staff()
    modifies a
    ensures byName == [Alice, Bob, Charlie, David]
    ensures byAge == [Alice, David, Charlie, Bob]
    ensures bySalary == [David, Alice, Charlie, Bob]
    ensures a[..] == [Alice, David, Charlie, Bob]
  {
    NameSortResult();
    AgeSortResult();
    SalarySortResult();
    AgeThenNameSortResult();
    ListSort.SortInPlace(a, Comparator(ByName));
    byName := a[..];
    ListSort.SortInPlace(a, Comparator(ByAge));
    byAge := a[..];
    ListSort.SortInPlace(a, Comparator(BySalaryDescending));
    bySalary := a[..];
    ListSort.SortInPlace(a, Comparator(ByAgeThenName));
  }
}
