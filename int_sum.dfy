/**
 * The two summation programs (javaexp7.java and javaexp9.java run the same
 * code): read lines until one whose trimmed text is "done" in any case,
 * keep every line Integer.parseInt accepts, then add the kept values up.
 * Console input is the sequence of lines the Scanner would return.
 */
module IntSum {
  import opened Wrappers
  import opened JavaText
  import opened Digits

  /** The stop rule: the trimmed line equals "done", ignoring case. */
  predicate IsDone(line: string) {
    IsDoneText(Trim(line))
  }

  predicate IsDoneText(input: string) {
    EqualsIgnoreCase(input, "done")
  }

  /** What one line adds to the list: its parsed value, or nothing when parseInt throws. */
  function Parsed(line: string): Option<int> {
    ParseInt(Trim(line))
  }

  /** The values of the accepted lines, in input order. */
  function Accepted(lines: seq<string>): (xs: seq<int>)
    ensures |xs| <= |lines|
  {
    if lines == [] then []
    else
      var init := Accepted(lines[..|lines| - 1]);
      match Parsed(lines[|lines| - 1])
      case Some(v) => init + [v]
      case None => init
  }

  /** Every accepted value is a 32-bit integer. */
  lemma {:induction false} AcceptedInt32(lines: seq<string>)
    ensures forall k :: 0 <= k < |Accepted(lines)| ==> IsInt32(Accepted(lines)[k])
  {
    if lines != [] {
      AcceptedInt32(lines[..|lines| - 1]);
    }
  }

  /** Index of the first "done" line, or the number of lines when there is none. */
  function StopIndex(lines: seq<string>): (k: nat)
    ensures k <= |lines|
    ensures forall j :: 0 <= j < k ==> !IsDone(lines[j])
    ensures k < |lines| ==> IsDone(lines[k])
  {
    if lines == [] || IsDone(lines[0]) then 0
    else 1 + StopIndex(lines[1..])
  }

  /** The list the program has built when it leaves its input loop. */
  function Collected(lines: seq<string>): seq<int> {
    Accepted(lines[..StopIndex(lines)])
  }

  /** The `while (true)` loop of main: stops at "done", appends each parsed line. */
  method CollectIntegers(lines: seq<string>) returns (xs: seq<int>, sawDone: bool)
    ensures xs == Collected(lines)
    ensures sawDone <==> StopIndex(lines) < |lines|
  {
    ghost var stop := StopIndex(lines);
    xs := [];
    sawDone := false;
    var i := 0;
    while i < |lines|
      invariant 0 <= i <= stop
      invariant xs == Accepted(lines[..i])
      invariant !sawDone
    {
      var input := Trim(lines[i]);
      CollectStep(lines, i, stop, input);
      if IsDoneText(input) {
        sawDone := true;
        break;
      }
      var parsed := ParseInt(input);
      if parsed.Some? {
        xs := xs + [parsed.value];
      }
      i := i + 1;
    }
    if !sawDone {
      assert i == |lines| == stop;
      assert lines[..i] == lines;
    }
  }

  /** What one pass of the loop learns from line i: either it is the stop line, or its value (if any) is appended. */
  lemma CollectStep(lines: seq<string>, i: nat, stop: nat, input: string)
    requires i < |lines| && i <= stop == StopIndex(lines) && input == Trim(lines[i])
    ensures IsDoneText(input) ==> stop == i
    ensures !IsDoneText(input) ==> i < stop && Accepted(lines[..i + 1]) == Accepted(lines[..i]) + (if ParseInt(input).Some? then [ParseInt(input).value] else [])
  {
    if !IsDoneText(input) {
      assert !IsDone(lines[i]);
      AcceptedStep(lines, i, ParseInt(input));
    }
  }

  lemma AcceptedStep(lines: seq<string>, i: nat, parsed: Option<int>)
    requires i < |lines| && parsed == Parsed(lines[i])
    ensures Accepted(lines[..i + 1]) == Accepted(lines[..i]) + (if parsed.Some? then [parsed.value] else [])
  {
    assert lines[..i + 1][..i] == lines[..i];
  }

  lemma {:induction false} StopIndexIsFirstDone(lines: seq<string>, i: nat)
    requires i <= |lines|
    requires forall j :: 0 <= j < i ==> !IsDone(lines[j])
    requires i < |lines| ==> IsDone(lines[i])
    ensures StopIndex(lines) == i
  {
    if i > 0 {
      StopIndexIsFirstDone(lines[1..], i - 1);
    }
  }

  /** calculateSum's specification: the sum of all elements, 0 for the empty list. */
  function Sum(xs: seq<int>): int {
    if xs == [] then 0 else Sum(xs[..|xs| - 1]) + xs[|xs| - 1]
  }

  /** calculateSum: an accumulator loop whose invariant is the sum of the prefix visited so far. */
  method CalculateSum(list: seq<int>) returns (sum: int)
    ensures sum == Sum(list)
  {
    sum := 0;
    for i := 0 to |list|
      invariant sum == Sum(list[..i])
    {
      assert list[..i + 1][..i] == list[..i];
      sum := sum + list[i];
    }
    assert list[..|list|] == list;
  }

  /** The rest of main: the count and the sum it prints, or None when input ends before "done". */
  method RunSummation(lines: seq<string>) returns (report: Option<(nat, int)>)
    ensures report.Some? <==> StopIndex(lines) < |lines|
    ensures report.Some? ==> report.value.0 == |Collected(lines)|
    ensures report.Some? ==> report.value.1 == Sum(Collected(lines))
  {
    var xs, sawDone := CollectIntegers(lines);
    if !sawDone {
      // Scanner.nextLine throws NoSuchElementException: nothing is printed.
      return None;
    }
    var total := CalculateSum(xs);
    report := Some((|xs|, total));
  }

  // ---------------------------------------------------------------------
  // Properties
  // ---------------------------------------------------------------------

  /** Accepted values are appended at the end, so the list keeps input order. */
  lemma {:induction false} AcceptedAppend(a: seq<string>, b: seq<string>)
    ensures Accepted(a + b) == Accepted(a) + Accepted(b)
  {
    if b == [] {
      assert a + b == a;
    } else {
      var b' := b[..|b| - 1];
      assert (a + b)[..|a + b| - 1] == a + b';
      assert (a + b)[|a + b| - 1] == b[|b| - 1];
      AcceptedAppend(a, b');
    }
  }

  /** What parseInt makes of each line, in input order. */
  function Outcomes(lines: seq<string>): (ps: seq<Option<int>>)
    ensures |ps| == |lines|
  {
    seq(|lines|, i requires 0 <= i < |lines| => Parsed(lines[i]))
  }

  /** The values of the successful outcomes, in order. */
  function Present(ps: seq<Option<int>>): seq<int> {
    if ps == [] then []
    else
      var init := Present(ps[..|ps| - 1]);
      if ps[|ps| - 1].Some? then init + [ps[|ps| - 1].value] else init
  }

  /** The indices of the successful outcomes, in order. */
  function PresentPositions(ps: seq<Option<int>>): (idx: seq<nat>)
    ensures forall k :: 0 <= k < |idx| ==> idx[k] < |ps|
  {
    if ps == [] then []
    else
      var init := PresentPositions(ps[..|ps| - 1]);
      if ps[|ps| - 1].Some? then init + [|ps| - 1] else init
  }

  /** The positions of the lines parseInt accepts. */
  function AcceptedPositions(lines: seq<string>): seq<nat> {
    PresentPositions(Outcomes(lines))
  }

  /** The list the loop builds is the list of successful outcomes. */
  lemma {:induction false} AcceptedOutcomes(lines: seq<string>)
    ensures Accepted(lines) == Present(Outcomes(lines))
  {
    if lines != [] {
      var init := lines[..|lines| - 1];
      AcceptedOutcomes(init);
      var ps := Outcomes(lines);
      assert ps[..|ps| - 1] == Outcomes(init);
      assert ps[|ps| - 1] == Parsed(lines[|lines| - 1]);
    }
  }

  /** One value per successful outcome. */
  lemma {:induction false} PresentCount(ps: seq<Option<int>>)
    ensures |Present(ps)| == |PresentPositions(ps)|
  {
    if ps != [] {
      PresentCount(ps[..|ps| - 1]);
    }
  }

  /** The positions increase. */
  lemma {:induction false} PositionsIncreasing(ps: seq<Option<int>>)
    ensures forall k, l :: 0 <= k < l < |PresentPositions(ps)| ==> PresentPositions(ps)[k] < PresentPositions(ps)[l]
  {
    if ps != [] {
      PositionsIncreasing(ps[..|ps| - 1]);
    }
  }

  /** The k-th value is the value of the outcome at the k-th position. */
  lemma {:induction false} PresentAt(ps: seq<Option<int>>, k: nat)
    requires k < |Present(ps)| && k < |PresentPositions(ps)|
    ensures ps[PresentPositions(ps)[k]] == Some(Present(ps)[k])
  {
    var init := ps[..|ps| - 1];
    PresentCount(init);
    if k < |PresentPositions(init)| {
      PresentAt(init, k);
      assert ps[PresentPositions(init)[k]] == init[PresentPositions(init)[k]];
    }
  }

  /** Every successful outcome has its position listed. */
  lemma {:induction false} PresentComplete(ps: seq<Option<int>>, j: nat)
    requires j < |ps| && ps[j].Some?
    ensures j in PresentPositions(ps)
  {
    var init := ps[..|ps| - 1];
    if j < |init| {
      assert init[j] == ps[j];
      PresentComplete(init, j);
    }
  }

  /**
   * The list holds exactly the parsed values of the accepted lines, one per
   * accepted line and in the order of the lines; every other line is skipped.
   * In particular the printed count is the number of accepted lines.
   */
  lemma AcceptedCharacterised(lines: seq<string>)
    ensures var xs, idx := Accepted(lines), AcceptedPositions(lines);
      && |xs| == |idx|
      && (forall k, l :: 0 <= k < l < |idx| ==> idx[k] < idx[l])
      && (forall k :: 0 <= k < |idx| ==> Parsed(lines[idx[k]]) == Some(xs[k]))
      && (forall j :: 0 <= j < |lines| && Parsed(lines[j]).Some? ==> j in idx)
  {
    var ps := Outcomes(lines);
    AcceptedOutcomes(lines);
    PresentCount(ps);
    PositionsIncreasing(ps);
    forall k | 0 <= k < |PresentPositions(ps)| ensures ps[PresentPositions(ps)[k]] == Some(Present(ps)[k]) {
      PresentAt(ps, k);
    }
    forall j | 0 <= j < |lines| && Parsed(lines[j]).Some? ensures j in PresentPositions(ps) {
      assert ps[j] == Parsed(lines[j]);
      PresentComplete(ps, j);
    }
  }

  /** A rejected line leaves the list unchanged. */
  lemma RejectedLineIgnored(lines: seq<string>, line: string)
    requires Parsed(line).None?
    ensures Accepted(lines + [line]) == Accepted(lines)
  {
    assert (lines + [line])[..|lines|] == lines;
  }

  /** Nothing after the first "done" line affects the list. */
  lemma {:induction false} StopIgnoresLaterLines(before: seq<string>, done: string, after: seq<string>)
    requires forall j :: 0 <= j < |before| ==> !IsDone(before[j])
    requires IsDone(done)
    ensures StopIndex(before + [done] + after) == |before|
    ensures Collected(before + [done] + after) == Accepted(before)
  {
    var lines := before + [done] + after;
    forall j | 0 <= j < |before| ensures !IsDone(lines[j]) {
      assert lines[j] == before[j];
    }
    assert lines[|before|] == done;
    StopIndexIsFirstDone(lines, |before|);
    assert lines[..|before|] == before;
  }

  /** Sum splits over concatenation. */
  lemma {:induction false} SumAppend(a: seq<int>, b: seq<int>)
    ensures Sum(a + b) == Sum(a) + Sum(b)
  {
    if b == [] {
      assert a + b == a;
    } else {
      var b' := b[..|b| - 1];
      assert (a + b)[..|a + b| - 1] == a + b';
      SumAppend(a, b');
    }
  }

  /**
   * A sum of n 32-bit values lies within n times the 32-bit bounds, so the
   * Java `long` accumulator cannot overflow for any list of fewer than 2^32 elements.
   */
  lemma {:induction false} SumBounds(xs: seq<int>)
    requires forall k :: 0 <= k < |xs| ==> IsInt32(xs[k])
    ensures |xs| * IntMin <= Sum(xs) <= |xs| * IntMax
  {
    if xs != [] {
      SumBounds(xs[..|xs| - 1]);
    }
  }

  /** Surrounding blanks and letter case do not matter to the stop rule. */
  lemma DonePadded()
    ensures IsDone("  DoNe\t")
  {
    assert TrimEnd("  DoNe\t") == 6 by { assert "  DoNe\t"[..6] == "  DoNe"; }
    assert "  DoNe\t"[..6] == "  DoNe";
    assert TrimStart("  DoNe") == 2 by {
      assert "  DoNe"[1..] == " DoNe" && " DoNe"[1..] == "DoNe";
    }
    assert Trim("  DoNe\t") == "DoNe";
  }

  /** Stop-rule examples: "done" stops the loop, other text does not. */
  lemma DoneExamples()
    ensures IsDone("done") && !IsDone("done!") && !IsDone("d one")
  {
    TrimNoop("done");
    TrimNoop("done!");
    TrimNoop("d one");
    assert !EqualsIgnoreCase("d one", "done") by {
      assert ToLowerAscii("d one"[1]) != ToLowerAscii("done"[1]);
    }
  }
}
