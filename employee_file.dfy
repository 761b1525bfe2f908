/**
 * The employee register of javaexp6.java. Each record is one line of the
 * text file employees.txt, written as name|id|designation|salary. "Add"
 * appends a line and "display" reads every line back.
 *
 * The file is modelled as the sequence of its lines. None means that the
 * file does not exist yet. Console input is a sequence of menu entries, and
 * each entry also carries the I/O failures that happen while it is handled.
 */
module EmployeeFile {
  import opened Wrappers
  import opened MenuLoop
  import opened JavaText
  import opened Digits
  import opened DecimalText

  datatype Employee = Employee(name: string, id: string, designation: string, salary: Amount)

  /** None of the text fields contains the delimiter, so the saved line splits back into these four fields. */
  predicate Storable(e: Employee) {
    '|' !in e.name && '|' !in e.id && '|' !in e.designation
  }

  // ---------------------------------------------------------------------
  // The line codec: toFileString and fromFileString
  // ---------------------------------------------------------------------

  /** toFileString */
  function ToFileString(e: Employee): string {
    e.name + "|" + e.id + "|" + e.designation + "|" + ShowDecimal(e.salary)
  }

  /** The two ways fromFileString throws IllegalArgumentException. */
  datatype Rejection = WrongFieldCount | SalaryNotANumber

  /** fromFileString */
  function FromFileString(line: string): Result<Employee, Rejection> {
    var parts := JavaSplit(line, '|');
    if |parts| != 4 then Err(WrongFieldCount)
    else
      var salary := ParseDecimal(parts[3]);
      if salary.None? then Err(SalaryNotANumber)
      else Ok(Employee(parts[0], parts[1], parts[2], salary.value))
  }

  /** The saved line holds name, id, designation and salary, in that order. */
  lemma ToFileStringFields(e: Employee)
    requires Storable(e)
    ensures JavaSplit(ToFileString(e), '|') == [e.name, e.id, e.designation, ShowDecimal(e.salary)]
  {
    SplitFour(e.name, e.id, e.designation, ShowDecimal(e.salary), '|');
  }

  /** A record whose text fields hold no '|' is read back exactly as it was written. */
  lemma RoundTrip(e: Employee)
    requires Storable(e)
    ensures FromFileString(ToFileString(e)) == Ok(e)
  {
    ToFileStringFields(e);
    ParseShow(e.salary);
  }

  /** A parsed record can always be saved again, and then reads back unchanged. */
  lemma ParsedIsStorable(line: string)
    requires FromFileString(line).Ok?
    ensures Storable(FromFileString(line).value)
    ensures FromFileString(ToFileString(FromFileString(line).value)) == FromFileString(line)
  {
    var parts := JavaSplit(line, '|');
    assert '|' !in parts[0] && '|' !in parts[1] && '|' !in parts[2];
    RoundTrip(FromFileString(line).value);
  }

  /** Four fields whose last one is not a number are rejected for the salary. */
  lemma SalaryRule(line: string, a: string, b: string, c: string, t: string)
    requires line == a + "|" + b + "|" + c + "|" + t
    requires '|' !in a && '|' !in b && '|' !in c && '|' !in t && t != []
    requires ParseDecimal(t).None?
    ensures FromFileString(line) == Err(SalaryNotANumber)
  {
    SplitFour(a, b, c, t, '|');
  }

  /** split drops the empty field after a trailing '|', so such a line has too few fields. */
  lemma TrailingDelimiterRejected(line: string, a: string, b: string, c: string)
    requires line == a + "|" + b + "|" + c + "|"
    requires '|' !in a && '|' !in b && '|' !in c
    ensures FromFileString(line) == Err(WrongFieldCount)
  {
    var s3 := c + ['|'] + [];
    var s2 := b + ['|'] + s3;
    var s1 := a + ['|'] + s2;
    assert s1 == a + "|" + b + "|" + c + "|";
    SplitAllCons(c, '|', []);
    SplitAllCons(b, '|', s3);
    SplitAllCons(a, '|', s2);
    assert SplitAll(s1, '|') == [a, b, c, []];
    assert s1[|a|] == '|';
    assert |DropTrailingEmpty([a, b, c, []])| <= 3;
  }

  lemma TrailingDelimiterExample(line: string)
    requires line == "Ann|7|Dev|"
    ensures FromFileString(line) == Err(WrongFieldCount)
  {
    assert line == "Ann" + "|" + "7" + "|" + "Dev" + "|";
    TrailingDelimiterRejected(line, "Ann", "7", "Dev");
  }

  /** A line with only three fields is rejected. */
  lemma ThreeFieldsRejected(line: string, a: string, b: string, c: string)
    requires line == a + "|" + b + "|" + c
    requires '|' !in a && '|' !in b && '|' !in c
    ensures FromFileString(line) == Err(WrongFieldCount)
  {
    var s2 := b + ['|'] + c;
    var s1 := a + ['|'] + s2;
    assert s1 == line;
    SplitAllNoDelimiter(c, '|');
    SplitAllCons(b, '|', c);
    SplitAllCons(a, '|', s2);
    assert SplitAll(line, '|') == [a, b, c];
    assert line[|a|] == '|';
  }

  lemma ThreeFieldsExample(line: string)
    requires line == "Ann|7|Dev"
    ensures FromFileString(line) == Err(WrongFieldCount)
  {
    assert line == "Ann" + "|" + "7" + "|" + "Dev";
    ThreeFieldsRejected(line, "Ann", "7", "Dev");
  }

  lemma NotANumberExample(line: string)
    requires line == "Ann|7|Dev|abc"
    ensures FromFileString(line) == Err(SalaryNotANumber)
  {
    NotANumber("abc");
    assert line == "Ann" + "|" + "7" + "|" + "Dev" + "|" + "abc";
    SalaryRule(line, "Ann", "7", "Dev", "abc");
  }

  lemma NotANumber(t: string)
    requires t == "abc"
    ensures ParseDecimal(t).None?
  {
    TrimNoop(t);
    assert Unsigned(t) == t;
    SplitAllNoDelimiter(t, '.');
    assert !IsDigit(t[0]);
  }

  // ---------------------------------------------------------------------
  // readEmployeesFromFile: which lines become records
  // ---------------------------------------------------------------------

  /** A line whose trim() is empty. */
  predicate Blank(line: string) {
    Trim(line) == []
  }

  /** What one line contributes: nothing when it is blank or corrupted, otherwise its record. */
  function Record(line: string): (r: seq<Employee>)
    ensures |r| <= 1
  {
    if Blank(line) then []
    else
      var r := FromFileString(line);
      if r.Ok? then [r.value] else []
  }

  /** What each element contributes, concatenated in order. */
  function Concat<T, U>(f: T -> seq<U>, s: seq<T>): seq<U> {
    if s == [] then [] else Concat(f, s[..|s| - 1]) + f(s[|s| - 1])
  }

  lemma ConcatSnoc<T, U>(f: T -> seq<U>, s: seq<T>, x: T)
    ensures Concat(f, s + [x]) == Concat(f, s) + f(x)
  {
    assert (s + [x])[..|s|] == s;
  }

  lemma ConcatStep<T, U>(f: T -> seq<U>, s: seq<T>, i: nat)
    requires i < |s|
    ensures Concat(f, s[..i + 1]) == Concat(f, s[..i]) + f(s[i])
  {
    assert s[..i + 1][..i] == s[..i];
  }

  lemma {:induction false} ConcatBound<T, U>(f: T -> seq<U>, s: seq<T>)
    requires forall x :: |f(x)| <= 1
    ensures |Concat(f, s)| <= |s|
  {
    if s != [] {
      ConcatBound(f, s[..|s| - 1]);
    }
  }

  lemma {:induction false} ConcatAppend<T, U>(f: T -> seq<U>, a: seq<T>, b: seq<T>)
    ensures Concat(f, a + b) == Concat(f, a) + Concat(f, b)
  {
    if b == [] {
      assert a + b == a;
    } else {
      var b' := b[..|b| - 1];
      assert (a + b)[..|a + b| - 1] == a + b';
      assert (a + b)[|a + b| - 1] == b[|b| - 1];
      ConcatAppend(f, a, b');
    }
  }

  lemma {:induction false} ConcatAll<T, U>(f: T -> seq<U>, s: seq<T>, p: U -> bool)
    requires forall x, k :: 0 <= k < |f(x)| ==> p(f(x)[k])
    ensures forall k :: 0 <= k < |Concat(f, s)| ==> p(Concat(f, s)[k])
  {
    if s != [] {
      var init := s[..|s| - 1];
      ConcatAll(f, init, p);
      var c, r := Concat(f, init), f(s[|s| - 1]);
      assert forall k :: 0 <= k < |c + r| ==> (c + r)[k] == if k < |c| then c[k] else r[k - |c|];
    }
  }

  /** The records a complete pass over the lines collects, in file order. */
  function Loaded(lines: seq<string>): seq<Employee> {
    Concat(Record, lines)
  }

  /** A pass collects at most one record per line. */
  lemma LoadedBound(lines: seq<string>)
    ensures |Loaded(lines)| <= |lines|
  {
    ConcatBound(Record, lines);
  }

  /** Reading two stretches of the file one after the other collects their records in that order. */
  lemma LoadedAppend(a: seq<string>, b: seq<string>)
    ensures Loaded(a + b) == Loaded(a) + Loaded(b)
  {
    ConcatAppend(Record, a, b);
  }

  /** A blank line and a corrupted line add nothing; a well-formed line adds its record at the end. */
  lemma LoadedLine(lines: seq<string>, line: string)
    ensures Blank(line) || FromFileString(line).Err? ==> Loaded(lines + [line]) == Loaded(lines)
    ensures !Blank(line) && FromFileString(line).Ok?
      ==> Loaded(lines + [line]) == Loaded(lines) + [FromFileString(line).value]
  {
    ConcatSnoc(Record, lines, line);
  }

  predicate AllStorable(es: seq<Employee>) {
    forall k :: 0 <= k < |es| ==> Storable(es[k])
  }

  /** The record a line contributes, if any, can be saved again. */
  lemma RecordStorable(line: string)
    ensures AllStorable(Record(line))
  {
    if !Blank(line) && FromFileString(line).Ok? {
      ParsedIsStorable(line);
    }
  }

  /** Every loaded record is one that can be written back and read again unchanged. */
  lemma LoadedStorable(lines: seq<string>)
    ensures AllStorable(Loaded(lines))
  {
    forall line | true
      ensures forall k :: 0 <= k < |Record(line)| ==> Storable(Record(line)[k])
    {
      RecordStorable(line);
    }
    ConcatAll(Record, lines, Storable);
  }

  lemma LoadedStep(lines: seq<string>, i: nat)
    requires i < |lines|
    ensures Loaded(lines[..i + 1]) == Loaded(lines[..i]) + Record(lines[i])
  {
    ConcatStep(Record, lines, i);
  }

  // ---------------------------------------------------------------------
  // The file as a whole
  // ---------------------------------------------------------------------

  /** The lines of the file, none when it does not exist. */
  function Lines(file: Option<seq<string>>): seq<string> {
    if file.None? then [] else file.value
  }

  /** The file after saveEmployeeToFile: appending creates a missing file; an IOException leaves it as it was. */
  function Appended(file: Option<seq<string>>, e: Employee, writeFails: bool): (f: Option<seq<string>>)
    ensures !writeFails ==> f.Some? && |f.value| == |Lines(file)| + 1
    ensures !writeFails ==> f.value[..|Lines(file)|] == Lines(file)
  {
    if writeFails then file else Some(Lines(file) + [ToFileString(e)])
  }

  /** How many lines are read before a read error, when one happens after readFailsAt lines. */
  function Readable(count: nat, readFailsAt: Option<nat>): (n: nat)
    ensures n <= count
  {
    if readFailsAt.Some? && readFailsAt.value < count then readFailsAt.value else count
  }

  /** The list readEmployeesFromFile returns: empty for a missing file, else the records of the lines read. */
  function Listing(file: Option<seq<string>>, readFailsAt: Option<nat>): seq<Employee> {
    if file.None? then []
    else Loaded(file.value[..Readable(|file.value|, readFailsAt)])
  }

  /** A record that is added, then listed, comes last in the listing, after every earlier record. */
  lemma SaveThenList(file: Option<seq<string>>, e: Employee)
    requires Storable(e)
    ensures Listing(Appended(file, e, false), None) == Listing(file, None) + [e]
  {
    var lines := Lines(file);
    var f := Appended(file, e, false);
    assert f.value[..Readable(|f.value|, None)] == lines + [ToFileString(e)];
    assert lines[..Readable(|lines|, None)] == lines;
    RoundTrip(e);
    assert ToFileString(e)[|e.name|] == '|';
    TrimSpec(ToFileString(e));
    LoadedLine(lines, ToFileString(e));
  }

  /** A read error keeps the records of the lines before it. */
  lemma ReadErrorKeepsPrefix(lines: seq<string>, n: nat)
    requires n <= |lines|
    ensures Listing(Some(lines), Some(n)) + Loaded(lines[n..]) == Listing(Some(lines), None)
  {
    assert lines[..n] + lines[n..] == lines;
    assert lines[..|lines|] == lines;
    LoadedAppend(lines[..n], lines[n..]);
  }

  // ---------------------------------------------------------------------
  // The menu
  // ---------------------------------------------------------------------

  /** What "add" reads: three lines, then a salary, or None when nextDouble throws InputMismatchException. */
  datatype NewEmployee = NewEmployee(name: string, id: string, designation: string, salary: Option<Amount>)

  /** One pass of the menu loop: a token hasNextInt refuses, or a chosen number with the input and faults it meets. */
  datatype Entry =
    | NotAnInteger
    | Choice(choice: int, form: NewEmployee, writeFails: bool, readFailsAt: Option<nat>)

  predicate IsExit(entry: Entry) {
    entry.Choice? && entry.choice == 3
  }

  /** The file after one pass: only a complete "add" writes. */
  function AfterEntry(file: Option<seq<string>>, entry: Entry): Option<seq<string>> {
    if entry.Choice? && entry.choice == 1 && entry.form.salary.Some? then
      var form := entry.form;
      Appended(file, Employee(form.name, form.id, form.designation, form.salary.value), entry.writeFails)
    else file
  }

  function AfterEntries(file: Option<seq<string>>, entries: seq<Entry>): Option<seq<string>> {
    if entries == [] then file
    else AfterEntry(AfterEntries(file, entries[..|entries| - 1]), entries[|entries| - 1])
  }

  /** The listings "display" shows, one per choice 2, each taken from the file as it stands then. */
  function Shown(file: Option<seq<string>>, entries: seq<Entry>): seq<seq<Employee>> {
    if entries == [] then []
    else
      var init := entries[..|entries| - 1];
      var last := entries[|entries| - 1];
      Shown(file, init)
        + (if last.Choice? && last.choice == 2 then [Listing(AfterEntries(file, init), last.readFailsAt)] else [])
  }

  /** One more pass of the loop: its effect on the file, and the listing it shows. */
  lemma MenuStep(file: Option<seq<string>>, entries: seq<Entry>, i: nat)
    requires i < |entries|
    ensures AfterEntries(file, entries[..i + 1]) == AfterEntry(AfterEntries(file, entries[..i]), entries[i])
    ensures Shown(file, entries[..i + 1])
         == Shown(file, entries[..i])
            + (if entries[i].Choice? && entries[i].choice == 2
               then [Listing(AfterEntries(file, entries[..i]), entries[i].readFailsAt)] else [])
  {
    assert entries[..i + 1][..i] == entries[..i];
  }

  /** An employee added through the menu is the last record of the next listing. */
  lemma AddThenDisplay(file: Option<seq<string>>, entries: seq<Entry>, add: Entry, display: Entry)
    requires add.Choice? && add.choice == 1 && add.form.salary.Some? && !add.writeFails
    requires display.Choice? && display.choice == 2 && display.readFailsAt.None?
    requires Storable(Employee(add.form.name, add.form.id, add.form.designation, add.form.salary.value))
    ensures var shown := Shown(file, entries + [add, display]);
      shown[|shown| - 1]
        == Listing(AfterEntries(file, entries), None)
           + [Employee(add.form.name, add.form.id, add.form.designation, add.form.salary.value)]
  {
    var e := Employee(add.form.name, add.form.id, add.form.designation, add.form.salary.value);
    var es := entries + [add, display];
    assert es[..|es| - 1] == entries + [add];
    assert (entries + [add])[..|entries|] == entries;
    SaveThenList(AfterEntries(file, entries), e);
  }

  class EmployeeStore {
    /** employees.txt: None until the first record is written. */
    var file: Option<seq<string>>

    constructor (initial: Option<seq<string>>)
      ensures file == initial
    {
      file := initial;
    }

    /** saveEmployeeToFile: appends one line in append mode. */
    method SaveEmployeeToFile(e: Employee, writeFails: bool)
      modifies this
      ensures file == Appended(old(file), e, writeFails)
    {
      if writeFails {
        return;
      }
      var lines := if file.None? then [] else file.value;
      file := Some(lines + [ToFileString(e)]);
    }

    /** readEmployeesFromFile: the loop over the lines, skipping blank and corrupted ones. */
    method ReadEmployeesFromFile(readFailsAt: Option<nat>) returns (employees: seq<Employee>)
      ensures employees == Listing(file, readFailsAt)
    {
      employees := [];
      if file.None? {
        // FileNotFoundException: the notice is printed and the empty list returned.
        return;
      }
      var lines := file.value;
      var n := Readable(|lines|, readFailsAt);
      var i := 0;
      while i < n
        invariant i <= n
        invariant employees == Loaded(lines[..i])
      {
        var line := lines[i];
        LoadedStep(lines, i);
        if Trim(line) != [] {
          var r := FromFileString(line);
          if r.Ok? {
            employees := employees + [r.value];
          }
        }
        i := i + 1;
      }
    }

    /** The while (choice != 3) loop of main: runs entries until the first exit choice. */
    method RunMenu(entries: seq<Entry>) returns (exited: bool, shown: seq<seq<Employee>>)
      modifies this
      ensures exited <==> FirstExit(entries, IsExit) < |entries|
      ensures file == AfterEntries(old(file), entries[..FirstExit(entries, IsExit)])
      ensures shown == Shown(old(file), entries[..FirstExit(entries, IsExit)])
    {
      var start := file;
      exited := false;
      shown := [];
      var i := 0;
      while i < |entries|
        invariant i <= FirstExit(entries, IsExit)
        invariant file == AfterEntries(start, entries[..i])
        invariant shown == Shown(start, entries[..i])
      {
        var entry := entries[i];
        MenuStep(start, entries, i);
        if entry.NotAnInteger? {
          // The bad token is consumed; the loop goes round again.
          i := i + 1;
          continue;
        }
        if entry.choice == 1 {
          if entry.form.salary.Some? {
            var form := entry.form;
            SaveEmployeeToFile(Employee(form.name, form.id, form.designation, form.salary.value), entry.writeFails);
          }
        } else if entry.choice == 2 {
          var listing := ReadEmployeesFromFile(entry.readFailsAt);
          shown := shown + [listing];
        } else if entry.choice == 3 {
          exited := true;
          break;
        }
        i := i + 1;
      }
      assert !exited ==> entries[..i] == entries;
    }
  }
}
