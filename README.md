# Java exercises: a verified model

This project models the parts of the Java exercise programs that have behaviour worth stating precisely, and proves properties of that model:

- **Product CRUD** (`javaexp3.java`). A menu drives create, read, update and delete on a `Product` table over one JDBC connection with auto-commit switched off. Each change runs one statement. It then commits when the statement affected a row and rolls back otherwise. Every `SQLException` in a change goes to a rollback helper, which reports a failing rollback as `[CRITICAL]`.
- **Employee file** (`javaexp6.java`). Employee records are stored one per line as `name|id|designation|salary`. "Add" appends a line. "Display" reads every line back, skipping blank and corrupted ones.
- **Integer summation** (`javaexp7.java` and `javaexp9.java`, which run the same code). The program reads lines until a trimmed, case-insensitive `done`. It keeps every line `Integer.parseInt` accepts, then sums the list.
- **Student ranking** (`javaexp1.java`). A stream keeps students with marks above 75, sorts them stably by marks and maps them to names.
- **Employee sorting** (`javaexp5.java`). Four successive in-place stable `List.sort` calls are made with different comparators.

Modules, one per file:

| file | module | models |
|---|---|---|
| `wrappers.dfy` | `Wrappers` | `Option` and `Result` |
| `java_text.dfy` | `JavaText` | `String.trim`, `equalsIgnoreCase`, `split("\\|")`, `String.compareTo` |
| `digits.dfy` | `Digits` | decimal digit strings, `Integer.parseInt` and `Integer.toString` |
| `decimal_text.dfy` | `DecimalText` | exact decimals written as `Double.toString` writes ordinary amounts and read back as `Double.parseDouble` reads them |
| `int_sum.dfy` | `IntSum` | the input loop and `calculateSum` of `javaexp7.java` / `javaexp9.java` |
| `student_ranking.dfy` | `StudentRanking` | the `javaexp1.java` pipeline |
| `list_sort.dfy` | `ListSort` | `List.sort` and `Stream.sorted` with a comparator: a stable sort, in place over an array |
| `employee_sort.dfy` | `EmployeeSort` | the comparators and the four sorts of `javaexp5.java` |
| `menu_loop.dfy` | `MenuLoop` | the "loop until the exit choice" shape both menus share |
| `employee_file.dfy` | `EmployeeFile` | the codec, loader, file and menu of `javaexp6.java` |
| `product_crud.dfy` | `ProductCrud` | the transaction logic, connection and menu of `javaexp3.java` |

How the model is shaped:

- Code that changes state step by step is imperative Dafny. This covers the input loops, the accumulator, the in-place array sort, the employee file (a class whose `file` field the methods update) and the JDBC program (a class with a `connection` field and a database value). Each method's `ensures` ties its result or new state to a specification function. The lemmas then prove the source's promises about that function.
- The parts that are pure expressions in the source are functions with lemmas. These are the codecs, the stream pipeline and the comparators.
- Console input is a sequence of values, one per line or per menu pass. Each menu pass also carries the I/O and SQL failures it meets, as flags. No model member reads a clock, the console, the disk or the network.

Units:

- Marks are in tenths (85.5 is 855).
- Salaries in `javaexp5.java` are in cents.
- Prices in `javaexp3.java` are in cents, as the `DECIMAL(10, 2)` column stores them.
- Salaries in `javaexp6.java` are exact normalised decimals (`DecimalText.Amount`), so the file round trip is exact.

What the code does, where a simpler reading of the program would expect otherwise:

- A mutation does not always make exactly one commit-or-rollback call.
  - When `commit()` throws, the helper rolls back, so the calls are commit then rollback (`ProductCrud.CommitFailureRollsBack`).
  - When the rollback after a zero-row statement throws, the helper tries a second rollback (`ProductCrud.FailedRollbackIsRetried`). Each call meets its own fault (`Faults.rollback` and `Faults.recovery`), so that second call can succeed and discard the pending work.
  - When the statement's `close()` throws after a successful commit, the helper rolls back too. The calls are commit then rollback, an error is reported, and yet the change stays committed (`ProductCrud.CloseFailureAfterCommit`).
  - With no failure there is exactly one call (`ProductCrud.CallsPerOperation`).
- Uncommitted changes can be left behind after `[CRITICAL]`. The working table is guaranteed equal to the committed table unless the helper's rollback failed (`ProductCrud.NoPendingChanges`). Pending changes then ride along with the next successful commit.
- `createProduct`'s "no rows affected" warning cannot be reached. An insert always affects its row (`ProductCrud.InsertNeverWarns`).
- A name, id or designation that contains `|` is saved, but the line no longer splits into four fields. The record is then skipped as corrupted on every later read. The round trip therefore needs `EmployeeFile.Storable`. Every record the loader returns satisfies that condition (`EmployeeFile.LoadedStorable`).

## Model

| member | source | states |
|---|---|---|
| JavaText.Trim | javaexp7.java:19 | the text of the line between its first and last character above U+0020, never longer than the line (its meaning is stated by `JavaText.TrimSpec`) |
| JavaText.TrimSpec | javaexp7.java:19 | the trimmed text is empty exactly when every character is at most U+0020; otherwise its first and last characters are above U+0020 |
| JavaText.TrimNoop | javaexp6.java:198 | a string whose ends are not blank is its own trim |
| JavaText.EqualsIgnoreCase | javaexp7.java:21 | same length, and each pair of characters equal once ASCII letters are lower-cased (its meaning is stated by the next two lemmas) |
| JavaText.EqualsIgnoreCaseChars | javaexp7.java:21 | equal ignoring case exactly when the lengths agree and each pair of characters is equal or the same letter in upper and lower case |
| JavaText.EqualsIgnoreCaseEquivalence | javaexp7.java:21 | equality ignoring case is reflexive, symmetric and transitive |
| JavaText.JoinSplitAll | javaexp6.java:43 | splitting on the delimiter loses nothing: joining the pieces back gives the line |
| JavaText.SplitAllCons | javaexp6.java:43 | a delimiter-free field followed by the delimiter splits off as the first piece |
| JavaText.DropTrailingEmpty | javaexp6.java:43 | split's trailing-empty removal keeps a prefix, ends in a non-empty piece (or nothing), and drops only empty pieces |
| JavaText.JavaSplit | javaexp6.java:43 | a line without the delimiter splits into itself alone; no piece contains the delimiter |
| JavaText.SplitFour | javaexp6.java:43-44 | four delimiter-free fields joined by `\|`, the last non-empty, split back into exactly those four |
| JavaText.CompareTo | javaexp5.java:48 | `String.compareTo`: the difference of the first differing characters, or of the lengths when one string is a prefix of the other (its meaning is stated by the next four lemmas) |
| JavaText.CompareToZero | javaexp5.java:48 | `compareTo` is 0 exactly for equal strings |
| JavaText.CompareToAntisymmetric | javaexp5.java:48 | swapping the arguments negates `compareTo` |
| JavaText.CompareToTransitive | javaexp5.java:48 | "compares at most 0" is transitive, so the name order is a total preorder |
| JavaText.CompareToNegative | javaexp5.java:48 | `compareTo` is negative exactly when the first string is a proper prefix of the second or is smaller at the first differing position (lexicographic order) |
| Digits.NatToString | javaexp6.java:38 | the digits written for n have no superfluous leading zero and denote n |
| Digits.NatToStringOfValue | javaexp7.java:27 | a canonical digit string is the one written for its value |
| Digits.ValueOfBound | javaexp7.java:27 | k digits denote less than 10^k |
| Digits.ParseInt | javaexp7.java:27 | every accepted value is in the int32 range |
| Digits.ParseIntGrammar | javaexp7.java:27 | an accepted line is an optional sign then one or more digits; the value is minus the digits' value after `-` and non-negative otherwise |
| Digits.ParseIntDigits | javaexp7.java:27 | conversely, every digit string, bare or after `+` or `-`, is accepted with the value it denotes when that value fits in 32 bits, and rejected otherwise |
| Digits.IntToString | javaexp7.java:33 | how a Java `int` is printed: `-` exactly for a negative number, then the shortest digits (`Digits.ParseIntToString` states the round trip) |
| Digits.ParseIntToString | javaexp7.java:27 | every int32 value written in decimal parses back to itself, and the text of every integer outside that range is rejected |
| Digits.ParseIntEdgeCases | javaexp7.java:27 | `+007` gives 7, `-0` gives 0; `+`, the empty line and `1 2` are rejected |
| Digits.ParseIntRange | javaexp9.java:27 | -2^31 and 2^31-1 are accepted; one beyond either end is rejected |
| IntSum.Accepted | javaexp7.java:27-37 | there are no more accepted values than lines |
| IntSum.AcceptedInt32 | javaexp7.java:27-31 | every accepted value is an int32 |
| IntSum.IsDone | javaexp7.java:19-21 | a line stops the loop when its trimmed text equals `done` ignoring case (`IntSum.DonePadded` and `IntSum.DoneExamples` pin it down) |
| IntSum.Parsed | javaexp7.java:19-27 | the value `parseInt` gives the trimmed line, or None when it throws |
| IntSum.StopIndex | javaexp7.java:19-23 | the stop position is the first line whose trimmed text is `done` in any case, or the end of the input |
| IntSum.StopIndexIsFirstDone | javaexp9.java:19-23 | any position with no `done` before it and `done` at it is the stop position |
| IntSum.Collected | javaexp7.java:17-38 | the list the input loop has built when it ends: the accepted values of the lines before the first `done` (`IntSum.AcceptedCharacterised` and `IntSum.StopIgnoresLaterLines` state its meaning) |
| IntSum.CollectIntegers | javaexp7.java:17-38 | the loop returns the values of the accepted lines before the first `done`, and reports whether `done` was seen (`javaexp9.java` lines 17-38 are the same loop) |
| IntSum.CalculateSum | javaexp7.java:58-69 | returns the sum of all elements (0 for the empty list), with the prefix-sum loop invariant (`javaexp9.java` lines 58-69 are the same method) |
| IntSum.RunSummation | javaexp7.java:40-48 | the printed count is the number of accepted lines and the printed sum is their sum; nothing is printed when input ends without `done` (the same in `javaexp9.java`) |
| IntSum.AcceptedAppend | javaexp7.java:31 | values are appended at the end, so the list keeps input order |
| IntSum.AcceptedCharacterised | javaexp9.java:27-37 | the list holds exactly the parsed values of the accepted lines, one per line and in line order |
| IntSum.RejectedLineIgnored | javaexp7.java:35-37 | a line parseInt rejects leaves the list unchanged |
| IntSum.StopIgnoresLaterLines | javaexp7.java:21-23 | nothing after the first `done` affects the list |
| IntSum.Sum | javaexp7.java:58-69 | the mathematical sum of the list, the reference for `IntSum.CalculateSum` (`IntSum.SumAppend` and `IntSum.SumBounds` state its laws) |
| IntSum.SumAppend | javaexp7.java:64-66 | the sum of a concatenation is the sum of the sums |
| IntSum.SumBounds | javaexp7.java:58-66 | n int32 values sum to between n·(-2^31) and n·(2^31-1), so the `long` accumulator cannot overflow for fewer than 2^32 values |
| IntSum.DonePadded | javaexp7.java:19-21 | `  DoNe` followed by a tab stops the loop: blanks and case do not matter |
| IntSum.DoneExamples | javaexp7.java:19-21 | `done` stops the loop; `done!` and `d one` do not |
| StudentRanking.Qualifying | javaexp1.java:52 | `filter(s -> s.getMarks() > 75.0)`, never longer than its input (`StudentRanking.QualifyingMembers` and `StudentRanking.QualifyingSnoc` state its meaning) |
| StudentRanking.QualifyingMembers | javaexp1.java:52 | a student is kept exactly when in the list with marks above 75 |
| StudentRanking.ThresholdIsStrict | javaexp1.java:52 | a student with exactly 75 is not in the result |
| StudentRanking.ByMarks | javaexp1.java:56 | `Comparator.comparingDouble(Student::getMarks)` on marks in tenths (`StudentRanking.ByMarksContract` proves it a lawful comparator) |
| StudentRanking.ByMarksContract | javaexp1.java:56 | the marks comparator keeps the comparator contract: antisymmetric and transitive |
| StudentRanking.SortByMarks | javaexp1.java:56 | `sorted(comparingDouble(getMarks))`: the stable sort under that comparator, of the same length as its input (`StudentRanking.SortedMeansMarks` and `StudentRanking.SortByMarksStable` state its meaning) |
| StudentRanking.SortedMeansMarks | javaexp1.java:56 | sorted under `comparingDouble(getMarks)` means non-decreasing marks |
| StudentRanking.SortByMarksStable | javaexp1.java:56 | students with equal marks keep their relative order |
| StudentRanking.Names | javaexp1.java:60 | `map(Student::getName)`, one name per student (`StudentRanking.NamesAt` states its meaning) |
| StudentRanking.NamesAt | javaexp1.java:60 | the k-th name is the k-th student's name |
| StudentRanking.NamesOfSort | javaexp1.java:56-60 | sorting, under any comparator, does not change the multiset of names |
| StudentRanking.TopStudents | javaexp1.java:49-63 | the pipeline filter, sorted, map, collect as one function (its meaning is stated by `StudentRanking.TopStudentsCorrect`) |
| StudentRanking.TopStudentsCorrect | javaexp1.java:49-63 | the output is the names of the qualifying students, as many as there are, sorted by marks and stable for ties |
| StudentRanking.QualifyingSnoc | javaexp1.java:52 | the filter looks at each student on its own and keeps the order |
| StudentRanking.RosterQualifying | javaexp1.java:33-52 | of the six students, Alice, Charlie, David and Frank qualify; Bob and Eve do not |
| StudentRanking.RosterSorted | javaexp1.java:56 | sorting Alice, Charlie, David, Frank moves David (78.8) to the front |
| StudentRanking.RosterResult | javaexp1.java:33-63 | the output for the six hard-coded students is David, Alice, Charlie, Frank |
| ListSort.IntCompare | javaexp5.java:59 | `Integer.compare`: negative, zero or positive exactly as the first argument is smaller, equal or larger |
| ListSort.Insert | javaexp5.java:48 | one insertion step of the reference sort: the element goes after every element that does not compare greater, and the list grows by one (`ListSort.InsertAt` states where) |
| ListSort.InsertAfter | javaexp5.java:48 | an element that nothing at the end compares greater than goes last |
| ListSort.InsertBefore | javaexp5.java:48 | an element moves before a last element that compares greater |
| ListSort.InsertAt | javaexp5.java:48 | the insertion puts the element right after the longest prefix whose last element does not compare greater |
| ListSort.InsertStep | javaexp5.java:48 | one insertion step leaves the first i+1 cells as the stable insertion of cell i into the sorted prefix and the rest untouched |
| ListSort.Sort | javaexp5.java:48 | the reference stable sort, by insertion, of the same length as its input (`ListSort.SortPermutes`, `ListSort.SortSorted`, `ListSort.SortStable` and `ListSort.SortUnique` state what it means) |
| ListSort.SortInPlace | javaexp5.java:48 | sorting the array in place gives the stable sort of its old contents |
| ListSort.SortPermutes | javaexp5.java:48 | the sorted list is a permutation of the input |
| ListSort.InsertSorted | javaexp5.java:48 | under a comparator that keeps the contract, insertion keeps a sorted list sorted |
| ListSort.SortSorted | javaexp5.java:48 | under a comparator that keeps the contract, the result is in non-decreasing order |
| ListSort.TiedPair | javaexp5.java:48 | two elements that tie with a third tie with each other |
| ListSort.TiesAppend | javaexp5.java:48 | the ties of a concatenation are the ties of the parts, in order |
| ListSort.InsertTies | javaexp5.java:48 | insertion adds the new element after every earlier element it ties with |
| ListSort.SortStable | javaexp1.java:56 | the sort is stable: elements that tie keep their relative order |
| ListSort.LastTie | javaexp5.java:48 | two sorted lists with the same ties end in the same element |
| ListSort.SortedEqual | javaexp5.java:48 | two sorted lists of equal length with the same ties, in the same order, are equal |
| ListSort.SortUnique | javaexp5.java:48 | any sorted, stable rearrangement of the list is the one the model computes, whatever stable algorithm the library runs |
| EmployeeSort.Compare | javaexp5.java:48-84 | the four comparators: by name, by age, by salary reversed, and by age then name (the next four lemmas state their laws) |
| EmployeeSort.Comparator | javaexp5.java:48-84 | the comparator object handed to `employees.sort` (`EmployeeSort.ComparatorContract` proves it lawful) |
| EmployeeSort.CompareZero | javaexp5.java:48-84 | each comparator answers 0 exactly when the fields it looks at are equal |
| EmployeeSort.CompareFlip | javaexp5.java:48-84 | each comparator is antisymmetric |
| EmployeeSort.CompareTransitive | javaexp5.java:48-84 | each comparator is transitive |
| EmployeeSort.ComparatorContract | javaexp5.java:48-84 | each of the four comparators keeps the `Comparator` contract the sort relies on |
| EmployeeSort.StableSort | javaexp5.java:48-84 | what `employees.sort(comparator)` leaves in the list: the stable sort, of the same length (`EmployeeSort.StableSortPermutes`, `EmployeeSort.StableSortSorted` and `EmployeeSort.StableSortStable` state its meaning) |
| EmployeeSort.StableSortPermutes | javaexp5.java:48-84 | every sort result is a permutation of its input |
| EmployeeSort.StableSortSorted | javaexp5.java:48-84 | every sort result is sorted under its comparator |
| EmployeeSort.PeersAreTies | javaexp5.java:48-84 | the employees with the same key as x are exactly those the comparator ties with x, in the same order |
| EmployeeSort.StableSortStable | javaexp5.java:59-70 | employees with the same name, age, salary, or age and name keep their relative order (also under `reversed()`) |
| EmployeeSort.SortedBySalary | javaexp5.java:70 | sorted by the reversed salary comparator means non-increasing salary |
| EmployeeSort.SortedByAgeThenName | javaexp5.java:81-84 | sorted by age-then-name means lexicographic on (age, name), names compared only for equal ages |
| EmployeeSort.NameSortResult | javaexp5.java:33-48 | the name sort orders the four employees Alice, Bob, Charlie, David |
| EmployeeSort.AgeSortResult | javaexp5.java:59 | the age sort then gives Alice, David, Charlie, Bob: Alice stays before David |
| EmployeeSort.SalarySortResult | javaexp5.java:70 | the salary sort then gives David, Alice, Charlie, Bob |
| EmployeeSort.AgeThenNameSortResult | javaexp5.java:81-84 | the final sort gives Alice, David, Charlie, Bob |
| EmployeeSort.SortEmployees | javaexp5.java:31-89 | the four in-place sorts of the list leave the orders above, ending with Alice(25), David(25), Charlie(30), Bob(40) |
| DecimalText.Normalize | javaexp6.java:26 | the result has no trailing fractional zero and no larger scale |
| DecimalText.NormalizeValue | javaexp6.java:26 | normalising keeps the value |
| DecimalText.ShowDecimal | javaexp6.java:38 | the salary text has at least three characters and never contains `\|` |
| DecimalText.ParseDecimal | javaexp6.java:52 | every parsed salary is in normal form |
| DecimalText.ParsePlain | javaexp6.java:52 | a signed plain decimal token parses to its value |
| DecimalText.ParseShow | javaexp6.java:38-52 | parsing what was written gives back the same amount |
| DecimalText.ShowWholeAmount | javaexp6.java:38 | 600 is written `600.0` |
| DecimalText.ShowSmallNegative | javaexp6.java:38 | -0.05 is written `-0.05` |
| EmployeeFile.ToFileString | javaexp6.java:36-39 | the four fields joined by `\|`, the salary as `Double.toString` writes it (`EmployeeFile.ToFileStringFields` and `EmployeeFile.RoundTrip` state its meaning) |
| EmployeeFile.FromFileString | javaexp6.java:41-57 | a line that splits into four fields with a numeric fourth gives an employee; otherwise the field-count or the salary rejection (`EmployeeFile.RoundTrip`, `EmployeeFile.ParsedIsStorable` and the rejection lemmas state its meaning) |
| EmployeeFile.ToFileStringFields | javaexp6.java:36-39 | the saved line splits into name, id, designation and salary, in that order |
| EmployeeFile.RoundTrip | javaexp6.java:36-57 | a record whose text fields hold no `\|` reads back as itself |
| EmployeeFile.ParsedIsStorable | javaexp6.java:42-57 | a parsed record can be written again and reads back the same |
| EmployeeFile.SalaryRule | javaexp6.java:47-56 | four fields whose last is not a number are rejected as "salary is not a number" |
| EmployeeFile.TrailingDelimiterRejected | javaexp6.java:43-46 | `a\|b\|c\|` has too few fields, because split drops the trailing empty field |
| EmployeeFile.TrailingDelimiterExample | javaexp6.java:43-46 | `Ann\|7\|Dev\|` is rejected for its field count |
| EmployeeFile.ThreeFieldsRejected | javaexp6.java:43-46 | a line of three delimiter-free fields is rejected for its field count |
| EmployeeFile.ThreeFieldsExample | javaexp6.java:43-46 | `Ann\|7\|Dev` is rejected for its field count |
| EmployeeFile.NotANumber | javaexp6.java:52 | `abc` is not a number |
| EmployeeFile.NotANumberExample | javaexp6.java:47-56 | `Ann\|7\|Dev\|abc` is rejected for its salary |
| EmployeeFile.Record | javaexp6.java:198-204 | a line contributes at most one record |
| EmployeeFile.Loaded | javaexp6.java:191-211 | the records of a complete pass over the lines, blank and corrupted lines skipped, in file order (its laws are the `EmployeeFile.Loaded…` lemmas below) |
| EmployeeFile.LoadedBound | javaexp6.java:196-205 | a pass returns no more records than lines |
| EmployeeFile.LoadedAppend | javaexp6.java:196-205 | records come out in file order |
| EmployeeFile.LoadedLine | javaexp6.java:198-204 | a blank or corrupted line adds nothing; a good line adds its record at the end |
| EmployeeFile.ConcatAppend | javaexp6.java:196-205 | collecting over two stretches one after the other gives the two collections in order |
| EmployeeFile.ConcatAll | javaexp6.java:196-205 | a property every line's record has holds of everything the pass collects |
| EmployeeFile.RecordStorable | javaexp6.java:198-204 | the record of a line, if any, can be saved and read back unchanged |
| EmployeeFile.LoadedStorable | javaexp6.java:196-205 | every loaded record can be saved and read back unchanged |
| EmployeeFile.Appended | javaexp6.java:174-185 | a successful save adds exactly one line and keeps every earlier line |
| EmployeeFile.Listing | javaexp6.java:147-149 | the records `displayAllEmployees` shows: none for a missing file, else those of the lines read before any read error (`EmployeeFile.SaveThenList` and `EmployeeFile.ReadErrorKeepsPrefix` state its meaning) |
| EmployeeFile.SaveThenList | javaexp6.java:174-205 | a record added and then listed comes last, after the earlier records |
| EmployeeFile.ReadErrorKeepsPrefix | javaexp6.java:206-210 | a read error keeps the records of the lines read before it |
| EmployeeFile.AfterEntries | javaexp6.java:70-100 | the file after the entries: each successful add appends its record, every other entry leaves it alone (`EmployeeFile.MenuStep` states the step) |
| EmployeeFile.Shown | javaexp6.java:70-100 | the listings choice 2 displays, each read from the file as it stands at that point (`EmployeeFile.MenuStep` and `EmployeeFile.AddThenDisplay` state its meaning) |
| EmployeeFile.MenuStep | javaexp6.java:70-100 | one pass of the loop changes the file as that entry says and adds a listing exactly for choice 2 |
| MenuLoop.FirstExit | javaexp6.java:70 | the loop ends at the first exit choice (3 here, 5 in `javaexp3.java` line 55), or runs to the end of the input when there is none |
| MenuLoop.FirstExitOf | javaexp3.java:55 | a position holding an exit choice with none before it is where the loop ends |
| MenuLoop.StopsAtExit | javaexp6.java:70-100 | entries after the first exit choice are never read, in either menu |
| EmployeeFile.AddThenDisplay | javaexp6.java:119-164 | after a successful add, the next listing ends with the new employee |
| EmployeeFile.EmployeeStore.SaveEmployeeToFile | javaexp6.java:174-185 | the file gains the record's line at its end (creating it if missing), or is unchanged when writing fails |
| EmployeeFile.EmployeeStore.ReadEmployeesFromFile | javaexp6.java:191-211 | returns the records of the lines read, skipping blank and corrupted lines, and [] for a missing file; the file is not changed |
| EmployeeFile.EmployeeStore.RunMenu | javaexp6.java:67-102 | runs entries up to the first choice 3; non-integer input and other choices do nothing; the file and the listings are those of the entries before the exit |
| ProductCrud.Execute | javaexp3.java:32-39 | an insert adds one row under the counter value; an update changes only that row and keeps its key; a delete removes only that row; every other row is unchanged; the affected count is 1 exactly when the row exists |
| ProductCrud.InsertIsFresh | javaexp3.java:15-16 | the inserted key is new and the counter moves past it |
| ProductCrud.Recover | javaexp3.java:237-247 | with a connection there is one rollback call; a failing rollback is reported critical and nothing propagates; without a connection nothing is tried |
| ProductCrud.Close | javaexp3.java:107-123 | an exception from the statement's `close()` after a body that completed goes to the helper too |
| ProductCrud.Transact | javaexp3.java:107-125 | the try-with-resources block shared by create, update and delete (javaexp3.java:176-195 and 210-225 are the same block); its meaning is stated by the lemmas that follow |
| ProductCrud.CommitWhenRowAffected | javaexp3.java:114-117 | an affected row leads to exactly one commit and no rollback, and the change is committed |
| ProductCrud.RollbackWhenNoRow | javaexp3.java:118-122 | no affected row leads to exactly one rollback, the "no product found" warning, and no change |
| ProductCrud.InsertNeverWarns | javaexp3.java:112-122 | the insert's zero-row warning is unreachable |
| ProductCrud.StatementFailureRollsBack | javaexp3.java:124-125 | a failing prepare or execute leads to one rollback and no effect; critical exactly when the helper's rollback fails |
| ProductCrud.CommitFailureRollsBack | javaexp3.java:114-125 | a failing commit is followed by a rollback and nothing is committed |
| ProductCrud.FailedRollbackIsRetried | javaexp3.java:118-125 | a failing rollback after a zero-row statement is retried once by the helper: critical when the retry fails too, otherwise rolled back with nothing pending |
| ProductCrud.CloseFailureAfterCommit | javaexp3.java:107-125 | when `close()` throws after a successful commit, the helper rolls back and reports the error, but the change stays committed |
| ProductCrud.NoPendingChanges | javaexp3.java:107-125 | unless the helper's rollback failed, no uncommitted change remains; the committed table is either unchanged or the statement's table, the latter only after a successful commit; every outcome but Committed leaves it unchanged unless `close()` threw after the commit |
| ProductCrud.CallsPerOperation | javaexp3.java:107-125 | each mutation makes one or two commit/rollback calls, exactly one when nothing fails, and keeps the earlier log |
| ProductCrud.TransactValid | javaexp3.java:15-16 | the counter never falls back and stays above every key |
| ProductCrud.RowsById | javaexp3.java:34-35 | each listed row is a row of the table, in strictly ascending ProductID |
| ProductCrud.RowsByIdComplete | javaexp3.java:34-35 | every row of the table is listed, once |
| ProductCrud.NoProductsFound | javaexp3.java:139-142 | the listing is empty exactly when the table is |
| ProductCrud.CreateStatement | javaexp3.java:96-110 | the insert with the name, price and quantity read, or nothing when a number fails to read |
| ProductCrud.UpdateStatement | javaexp3.java:163-183 | the update with the id, name, price and quantity read, or nothing when a number fails to read |
| ProductCrud.DeleteStatement | javaexp3.java:204-214 | the delete with the id read, or nothing when it fails to read |
| ProductCrud.Operation | javaexp3.java:96-130 | a malformed number runs nothing and reports the input error; otherwise the transaction |
| ProductCrud.Step | javaexp3.java:61-71 | one pass of the switch: choices 1, 3 and 4 run their operation, 2 lists, anything else and a bad token change nothing |
| ProductCrud.Replay | javaexp3.java:55-73 | the requests run one after another, their reports in order (`ProductCrud.ReplayValid` states its invariant) |
| ProductCrud.Query | javaexp3.java:132-161 | the listing `readAllProducts` prints: nothing when the query fails, the rows before a failing `rs.next()` or getter, or every row (`ProductCrud.QueryPrefix` states its meaning) |
| ProductCrud.QueryPrefix | javaexp3.java:139-158 | the listing is a prefix of the rows in ascending ProductID; it is complete exactly when no call failed and no fetch threw, including the final `rs.next()` of a non-empty table, and then it holds every row; a listing cut after k rows holds k rows |
| ProductCrud.FinalFetchFailure | javaexp3.java:148-158 | when the last `rs.next()` of a non-empty listing throws, every row has been printed but the listing ends in the error |
| ProductCrud.ReplayValid | javaexp3.java:55-73 | a whole session keeps every key below the counter |
| ProductCrud.ReadChangesNothing | javaexp3.java:132-161 | listing the products leaves tables and call log unchanged |
| ProductCrud.App.HandleTransactionFailure | javaexp3.java:237-247 | rolls back when the connection is not null and reports the rollback's failure without raising it |
| ProductCrud.App.RunStatement | javaexp3.java:107-125 | prepare, execute, commit or roll back by the affected-row count, then close; every failure goes to the helper, whose rollback meets its own fault; the new state is Transact of the old |
| ProductCrud.App.CreateProduct | javaexp3.java:96-130 | malformed price or quantity runs nothing; otherwise the insert transaction |
| ProductCrud.App.UpdateProduct | javaexp3.java:163-202 | malformed id, price or quantity runs nothing; otherwise the update transaction, including for an absent id a failed rollback that the helper's retry may still complete |
| ProductCrud.App.DeleteProduct | javaexp3.java:204-232 | a malformed id runs nothing; otherwise the delete transaction, including for an absent id a failed rollback that the helper's retry may still complete |
| ProductCrud.App.ReadAllProducts | javaexp3.java:132-161 | the listing is Query of the state: every row in ascending ProductID (empty exactly for an empty table) or the rows before an error; changes nothing |
| ProductCrud.App.CloseConnection | javaexp3.java:252-262 | closes the connection only when it is not null |
| ProductCrud.App.RunSession | javaexp3.java:44-82 | a failed connect skips the loop; the loop runs requests up to the first choice 5; the connection is closed at the end whenever it was opened |

## Left out

- Console I/O is not modelled. This covers `Scanner` tokenisation and buffer clearing, menu text, `printf` and `String.format` tables (including `%,.2f`), and the `toString` methods. Input arrives as values. A number that `nextInt`/`nextDouble` refuses is `None`. `hasNextInt` failing is an entry of its own.
- Floating point is not modelled. Marks are tenths, `javaexp5.java` salaries and `javaexp3.java` prices are cents, and `javaexp6.java` salaries are exact decimals.
- DecimalText.ShowDecimal: writes every amount in plain notation. `Double.toString` switches to exponent form (`1.0E7`) at 10^7 and below 10^-3.
- DecimalText.ParseDecimal: reads optional blanks, a sign, and digits with at most one point. `Double.parseDouble` also reads exponents, `NaN`, `Infinity`, hexadecimal forms and `d`/`f` suffixes. It also keeps `-0.0` apart from `0.0`.
- JavaText.CompareTo: compares Unicode scalar values, while `String.compareTo` compares UTF-16 code units. The two orders differ only when a character above U+FFFF meets one from U+E000 to U+FFFF at the first difference: the model puts the supplementary character last, Java puts it first (its high surrogate is below U+E000). The names the programs compare are ASCII.
- `Integer.parseInt` is modelled with ASCII digits only; Java also accepts other Unicode digits. `equalsIgnoreCase` is modelled for ASCII letters only. `trim()` is modelled exactly: it removes characters up to U+0020.
- The int32 range of quantities and IDs read by `nextInt` is not checked; the model accepts any integer. Neither is the 32-bit range of the AUTO_INCREMENT counter.
- JDBC is not modelled: the driver, the network, SQL text and `getMessage()` texts. An `SQLException` is a flag in `ProductCrud.Faults`: from `prepareStatement`, `executeUpdate`/`executeQuery`, `commit`, the zero-row `rollback`, the statement's `close()`, the helper's `rollback`, or a fetch in `readAllProducts`: `fetch` = k means k rows were read and then the next `rs.next()` or a getter threw, k = n being the final `rs.next()` of n rows. When a listing is cut short, the model does not say which of `rs.next()` and the getters threw. An exception from `isBeforeFirst()` counts as a query failure.
- A failed `commit()` is taken to commit nothing.
- The AUTO_INCREMENT counter is not restored by a rollback, as in InnoDB.
- ProductCrud.App.CloseConnection: the model does not say what `close()` does with uncommitted changes, nor what happens when `close()` itself throws.
- Files are not modelled byte by byte. A file is its sequence of lines, and every line, the last included, is taken to end with a newline. A failing write is taken to write nothing; partial writes are not modelled. A read error is a fault after a given number of lines.
- EmployeeFile.Storable: forbids only `|` in the text fields. A field holding `\n` or `\r` would be saved as two lines, which a file modelled as its sequence of lines cannot express. `nextLine` never delivers such a field, so the programs never write one.
- File-system errors other than a missing file or a read failure part-way are not modelled.
- `NoSuchElementException` when console input runs out is modelled only as the end of the entries: `RunSummation` reports nothing, and `RunMenu` and `RunSession` end without an exit choice. In `RunSession` the `finally` block still closes the connection.
- The `javaexp1.java` direct `forEach` pipeline (lines 72-76) is the same stream expression as lines 49-63, so `StudentRanking.TopStudents` models both. The source list is immutable, and the model's functions cannot change it.
- `javaexp2.java` (connect, query, print) is not part of this model.
- `javaexp8.java` (Java object serialisation) is not part of this model.
