/**
 * javaexp1.java: from a fixed list of students keep those whose marks are
 * strictly above 75%, sort them by marks (Stream.sorted on an ordered
 * stream is stable) and collect their names. Marks are held in tenths of a
 * percent, which orders the program's one-decimal values exactly.
 */
module StudentRanking {
  import opened ListSort

  datatype Student = Student(name: string, marks: int)

  /** 75.0%, in tenths. */
  const Threshold: int := 750

  /** filter(s -> s.getMarks() > 75.0): keeps the order of the input. */
  function Qualifying(students: seq<Student>): (r: seq<Student>)
    ensures |r| <= |students|
  {
    if students == [] then []
    else
      var init := Qualifying(students[..|students| - 1]);
      var s := students[|students| - 1];
      if s.marks > Threshold then init + [s] else init
  }

  /** Comparator.comparingDouble(Student::getMarks). */
  const ByMarks: (Student, Student) -> int := (x: Student, y: Student) => IntCompare(x.marks, y.marks)

  /** sorted(Comparator.comparingDouble(Student::getMarks)). */
  function SortByMarks(s: seq<Student>): (r: seq<Student>)
    ensures |r| == |s|
  {
    Sort(ByMarks, s)
  }

  lemma ByMarksContract()
    ensures IsComparator(ByMarks)
  {
  }

  predicate SortedByMarks(s: seq<Student>) {
    forall i, j :: 0 <= i < j < |s| ==> s[i].marks <= s[j].marks
  }

  /** Sorted under the comparator means non-decreasing marks. */
  lemma SortedMeansMarks(s: seq<Student>)
    ensures Sorted(ByMarks, s) <==> SortedByMarks(s)
  {
  }

  /** map(Student::getName). */
  function Names(s: seq<Student>): (r: seq<string>)
    ensures |r| == |s|
  {
    if s == [] then [] else Names(s[..|s| - 1]) + [s[|s| - 1].name]
  }

  /** The k-th name is the name of the k-th student. */
  lemma {:induction false} NamesAt(s: seq<Student>)
    ensures forall k :: 0 <= k < |s| ==> Names(s)[k] == s[k].name
  {
    if s != [] {
      NamesAt(s[..|s| - 1]);
    }
  }

  /**
   * The whole pipeline, collected into a list. The second pipeline of the
   * program, which prints through forEach instead of collecting, is the same
   * expression and yields the same names in the same order.
   */
  function TopStudents(students: seq<Student>): seq<string> {
    Names(SortByMarks(Qualifying(students)))
  }

  const Alice := Student("Alice", 855)
  const Bob := Student("Bob", 620)
  const Charlie := Student("Charlie", 912)
  const David := Student("David", 788)
  const Eve := Student("Eve", 750)
  const Frank := Student("Frank", 991)

  /** The six students of the program. */
  function Roster(): seq<Student> {
    [Alice, Bob, Charlie, David, Eve, Frank]
  }

  // ---------------------------------------------------------------------
  // Properties
  // ---------------------------------------------------------------------

  /** The students with given marks, in the order they occur. */
  function WithMarks(s: seq<Student>, m: int): seq<Student> {
    if s == [] then []
    else WithMarks(s[..|s| - 1], m) + (if s[|s| - 1].marks == m then [s[|s| - 1]] else [])
  }

  /** The students the comparator ties with x are those with x's marks. */
  lemma {:induction false} WithMarksAreTies(s: seq<Student>, x: Student)
    ensures WithMarks(s, x.marks) == Ties(ByMarks, s, x)
  {
    if s != [] {
      WithMarksAreTies(s[..|s| - 1], x);
    }
  }

  /** The sort is stable: students with equal marks keep their input order. */
  lemma SortByMarksStable(s: seq<Student>, m: int)
    ensures WithMarks(SortByMarks(s), m) == WithMarks(s, m)
  {
    var x := Student("", m);
    ByMarksContract();
    SortStable(ByMarks, s, x);
    WithMarksAreTies(s, x);
    WithMarksAreTies(SortByMarks(s), x);
  }

  lemma {:induction false} NamesOfInsert(cmp: (Student, Student) -> int, t: seq<Student>, x: Student)
    ensures multiset(Names(Insert(cmp, t, x))) == multiset(Names(t)) + multiset{x.name}
  {
    if t != [] {
      var last := t[|t| - 1];
      var init := t[..|t| - 1];
      assert Names(t) == Names(init) + [last.name];
      if cmp(last, x) > 0 {
        InsertBefore(cmp, t, x);
        NamesOfInsert(cmp, init, x);
        assert Names(Insert(cmp, init, x) + [last]) == Names(Insert(cmp, init, x)) + [last.name];
      } else {
        InsertAfter(cmp, t, x);
        assert Names(t + [x]) == Names(t) + [x.name];
      }
    }
  }

  /** Sorting, under any comparator, keeps the multiset of names. */
  lemma {:induction false} NamesOfSort(cmp: (Student, Student) -> int, s: seq<Student>)
    ensures multiset(Names(Sort(cmp, s))) == multiset(Names(s))
  {
    if s != [] {
      var init, x := s[..|s| - 1], s[|s| - 1];
      NamesOfSort(cmp, init);
      SortSnoc(cmp, init, x);
      assert s == init + [x];
      NamesOfInsert(cmp, Sort(cmp, init), x);
      assert Names(s) == Names(init) + [x.name];
    }
  }

  lemma {:induction false} QualifyingMembers(students: seq<Student>)
    ensures forall t :: t in Qualifying(students) <==> t in students && t.marks > Threshold
  {
    if students != [] {
      var init := students[..|students| - 1];
      QualifyingMembers(init);
      assert students == init + [students[|students| - 1]];
    }
  }

  /**
   * The output holds exactly the names of the students above the threshold,
   * each as often as such a student bears it, in non-decreasing order of
   * marks, with ties in input order.
   */
  lemma TopStudentsCorrect(students: seq<Student>)
    ensures var ranked := SortByMarks(Qualifying(students));
      && TopStudents(students) == Names(ranked)
      && |TopStudents(students)| == |Qualifying(students)|
      && multiset(TopStudents(students)) == multiset(Names(Qualifying(students)))
      && SortedByMarks(ranked)
      && (forall t :: t in ranked <==> t in students && t.marks > Threshold)
      && (forall m :: WithMarks(ranked, m) == WithMarks(Qualifying(students), m))
  {
    var q := Qualifying(students);
    NamesOfSort(ByMarks, q);
    QualifyingMembers(students);
    ByMarksContract();
    SortSorted(ByMarks, q);
    SortedMeansMarks(SortByMarks(q));
    SortPermutes(ByMarks, q);
    forall t ensures t in SortByMarks(q) <==> t in q {
      assert t in SortByMarks(q) <==> t in multiset(SortByMarks(q));
    }
    forall m ensures WithMarks(SortByMarks(q), m) == WithMarks(q, m) {
      SortByMarksStable(q, m);
    }
  }

  /** A student exactly at 75.0% is left out. */
  lemma ThresholdIsStrict(students: seq<Student>, s: Student)
    requires s in students && s.marks == Threshold
    ensures s !in SortByMarks(Qualifying(students))
  {
    TopStudentsCorrect(students);
  }

  lemma QualifyingSnoc(s: seq<Student>, x: Student)
    ensures Qualifying(s + [x]) == Qualifying(s) + (if x.marks > Threshold then [x] else [])
  {
    assert (s + [x])[..|s|] == s;
  }

  /** Filtering the roster one student at a time. */
  lemma QualifyingSteps()
    ensures Qualifying([Alice]) == [Alice]
    ensures Qualifying([Alice, Bob]) == [Alice]
    ensures Qualifying([Alice, Bob, Charlie]) == [Alice, Charlie]
  {
    QualifyingSnoc([], Alice);
    assert [] + [Alice] == [Alice];
    QualifyingSnoc([Alice], Bob);
    assert [Alice] + [Bob] == [Alice, Bob];
    QualifyingSnoc([Alice, Bob], Charlie);
    assert [Alice, Bob] + [Charlie] == [Alice, Bob, Charlie];
  }

  /** Bob (62.0) and Eve (75.0) fail the filter. */
  lemma RosterQualifying()
    ensures Qualifying(Roster()) == [Alice, Charlie, David, Frank]
  {
    QualifyingSteps();
    var abc := [Alice, Bob, Charlie];
    QualifyingSnoc(abc, David);
    QualifyingSnoc(abc + [David], Eve);
    QualifyingSnoc(abc + [David] + [Eve], Frank);
    assert abc + [David] + [Eve] + [Frank] == Roster();
  }

  /** Insertion steps of the sort: only David is moved, to the front. */
  lemma RosterSteps()
    ensures Insert(ByMarks, [Alice], Charlie) == [Alice, Charlie]
    ensures Insert(ByMarks, [Alice, Charlie], David) == [David, Alice, Charlie]
    ensures Insert(ByMarks, [David, Alice, Charlie], Frank) == [David, Alice, Charlie, Frank]
  {
    InsertAfter(ByMarks, [Alice], Charlie);
    InsertBefore(ByMarks, [Alice, Charlie], David);
    assert [Alice, Charlie][..1] == [Alice];
    InsertBefore(ByMarks, [Alice], David);
    assert [Alice][..0] == [];
    InsertAfter(ByMarks, [David, Alice, Charlie], Frank);
  }

  /** Sorting the four qualifying students moves David (78.8) to the front. */
  lemma RosterSorted()
    ensures SortByMarks([Alice, Charlie, David, Frank]) == [David, Alice, Charlie, Frank]
  {
    RosterSteps();
    SortSingle(ByMarks, Alice);
    SortSnoc(ByMarks, [Alice], Charlie);
    SortSnoc(ByMarks, [Alice, Charlie], David);
    SortSnoc(ByMarks, [Alice, Charlie, David], Frank);
    assert [Alice] + [Charlie] == [Alice, Charlie];
    assert [Alice, Charlie] + [David] == [Alice, Charlie, David];
    assert [Alice, Charlie, David] + [Frank] == [Alice, Charlie, David, Frank];
  }

  lemma RosterNames()
    ensures Names([David, Alice, Charlie, Frank]) == ["David", "Alice", "Charlie", "Frank"]
  {
    NamesAt([David, Alice, Charlie, Frank]);
  }

  /** For the program's roster the output is David, Alice, Charlie, Frank (Eve, at 75.0, is out). */
  lemma RosterResult()
    ensures TopStudents(Roster()) == ["David", "Alice", "Charlie", "Frank"]
  {
    RosterQualifying();
    RosterSorted();
    RosterNames();
  }
}
