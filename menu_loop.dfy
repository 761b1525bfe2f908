/**
 * The menu loops of javaexp3.java and javaexp6.java: each runs until the
 * first entry that chooses "exit", and never reads anything after it.
 */
module MenuLoop {

  /** The position of the first exit entry, or the number of entries when there is none. */
  function FirstExit<T>(entries: seq<T>, isExit: T -> bool): (k: nat)
    ensures k <= |entries|
    ensures forall j :: 0 <= j < k ==> !isExit(entries[j])
    ensures k < |entries| ==> isExit(entries[k])
  {
    if entries == [] || isExit(entries[0]) then 0 else 1 + FirstExit(entries[1..], isExit)
  }

  /** A position with an exit entry and none before it is the first exit. */
  lemma {:induction false} FirstExitOf<T>(entries: seq<T>, isExit: T -> bool, i: nat)
    requires i < |entries| && isExit(entries[i])
    requires forall j :: 0 <= j < i ==> !isExit(entries[j])
    ensures FirstExit(entries, isExit) == i
  {
    if i > 0 {
      FirstExitOf(entries[1..], isExit, i - 1);
    }
  }

  /** Entries after the exit entry change nothing: the loop has already ended. */
  lemma StopsAtExit<T>(before: seq<T>, exit: T, after: seq<T>, isExit: T -> bool)
    requires forall j :: 0 <= j < |before| ==> !isExit(before[j])
    requires isExit(exit)
    ensures FirstExit(before + [exit] + after, isExit) == |before|
    ensures (before + [exit] + after)[..FirstExit(before + [exit] + after, isExit)] == before
  {
    FirstExitOf(before + [exit] + after, isExit, |before|);
  }
}
