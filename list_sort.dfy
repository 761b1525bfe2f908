/**
 * List.sort(Comparator) and Stream.sorted(Comparator), which the programs
 * call with a comparator and an ordered list: a stable sort. The result is
 * specified by stable insertion (the one order a stable sort can produce)
 * and computed in place over an array by insertion sort. A comparator is a
 * function to int, read only through its sign, as Java's Comparator is.
 */
module ListSort {

  /** Integer.compare, and Double.compare on values that are never NaN. */
  function IntCompare(a: int, b: int): (r: int)
    ensures r < 0 <==> a < b
    ensures r == 0 <==> a == b
    ensures r > 0 <==> a > b
  {
    if a < b then -1 else if a == b then 0 else 1
  }

  /**
   * The part of the Comparator contract a sort relies on: swapping the
   * arguments flips the sign, and "does not compare greater" is transitive.
   */
  ghost predicate IsComparator<T(!new)>(cmp: (T, T) -> int) {
    && (forall a, b :: cmp(a, b) > 0 <==> cmp(b, a) < 0)
    && (forall a, b, c :: cmp(a, b) <= 0 && cmp(b, c) <= 0 ==> cmp(a, c) <= 0)
  }

  predicate Sorted<T>(cmp: (T, T) -> int, s: seq<T>) {
    forall i, j :: 0 <= i < j < |s| ==> cmp(s[i], s[j]) <= 0
  }

  /** Places x after every element that does not compare greater than it. */
  function Insert<T>(cmp: (T, T) -> int, t: seq<T>, x: T): (r: seq<T>)
    ensures |r| == |t| + 1
  {
    if t == [] then [x]
    else
      var init, last := t[..|t| - 1], t[|t| - 1];
      assert t == init + [last];
      if cmp(last, x) > 0 then Insert(cmp, init, x) + [last] else t + [x]
  }

  /** Insert places x last when the last element does not compare greater. */
  lemma InsertAfter<T>(cmp: (T, T) -> int, t: seq<T>, x: T)
    requires t != [] && cmp(t[|t| - 1], x) <= 0
    ensures Insert(cmp, t, x) == t + [x]
  {
  }

  /** Insert moves x before a last element that compares greater. */
  lemma InsertBefore<T>(cmp: (T, T) -> int, t: seq<T>, x: T)
    requires t != [] && cmp(t[|t| - 1], x) > 0
    ensures Insert(cmp, t, x) == Insert(cmp, t[..|t| - 1], x) + [t[|t| - 1]]
  {
  }

  /** What a stable sort of s under cmp produces. */
  function Sort<T>(cmp: (T, T) -> int, s: seq<T>): (r: seq<T>)
    ensures |r| == |s|
  {
    if s == [] then []
    else
      var init := s[..|s| - 1];
      assert s == init + [s[|s| - 1]];
      Insert(cmp, Sort(cmp, init), s[|s| - 1])
  }

  lemma SortSnoc<T>(cmp: (T, T) -> int, s: seq<T>, x: T)
    ensures Sort(cmp, s + [x]) == Insert(cmp, Sort(cmp, s), x)
  {
    assert (s + [x])[..|s|] == s;
  }

  lemma SortSingle<T>(cmp: (T, T) -> int, x: T)
    ensures Sort(cmp, [x]) == [x]
  {
    assert [x][..0] == [];
  }

  // ---------------------------------------------------------------------
  // The in-place insertion sort
  // ---------------------------------------------------------------------

  /** Where the in-place loop puts x: after the prefix that does not compare greater. */
  lemma {:induction false} InsertAt<T>(cmp: (T, T) -> int, t: seq<T>, x: T, j: nat)
    requires j <= |t|
    requires j > 0 ==> cmp(t[j - 1], x) <= 0
    requires forall k :: j <= k < |t| ==> cmp(t[k], x) > 0
    ensures Insert(cmp, t, x) == t[..j] + [x] + t[j..]
  {
    if j < |t| {
      InsertAtInit(cmp, t, x, j);
      InsertAt(cmp, t[..|t| - 1], x, j);
      InsertAtLast(cmp, t, x, j);
    } else if t != [] {
      InsertAfter(cmp, t, x);
      assert t[..j] == t;
    }
  }

  /** The step of InsertAt: x goes before a last element that compares greater. */
  lemma InsertAtLast<T>(cmp: (T, T) -> int, t: seq<T>, x: T, j: nat)
    requires j < |t| && cmp(t[|t| - 1], x) > 0
    requires var init := t[..|t| - 1]; Insert(cmp, init, x) == init[..j] + [x] + init[j..]
    ensures Insert(cmp, t, x) == t[..j] + [x] + t[j..]
  {
    var init, last := t[..|t| - 1], t[|t| - 1];
    InsertBefore(cmp, t, x);
    assert t[..j] == init[..j];
    assert t[j..] == init[j..] + [last];
  }

  /** The preconditions of InsertAt carry over to the list without its last element. */
  lemma InsertAtInit<T>(cmp: (T, T) -> int, t: seq<T>, x: T, j: nat)
    requires j < |t|
    requires j > 0 ==> cmp(t[j - 1], x) <= 0
    requires forall k :: j <= k < |t| ==> cmp(t[k], x) > 0
    ensures var init := t[..|t| - 1];
      && (j > 0 ==> cmp(init[j - 1], x) <= 0)
      && (forall k :: j <= k < |init| ==> cmp(init[k], x) > 0)
  {
  }

  /** The array after the inner loop of InsertStep, read as a sequence. */
  lemma Shifted<T>(now: seq<T>, t: seq<T>, x: T, j: nat)
    requires j <= |t| < |now|
    requires forall k :: 0 <= k < j ==> now[k] == t[k]
    requires now[j] == x
    requires forall k :: j < k <= |t| ==> now[k] == t[k - 1]
    ensures now[..|t| + 1] == t[..j] + [x] + t[j..]
  {
  }

  /** One step of the insertion sort: moves a[i] left past every element that compares greater. */
  method InsertStep<T>(a: array<T>, cmp: (T, T) -> int, i: nat)
    requires i < a.Length
    modifies a
    ensures a[..i + 1] == Insert(cmp, old(a[..i]), old(a[i]))
    ensures forall k :: i < k < a.Length ==> a[k] == old(a[k])
  {
    var x := a[i];
    ghost var t := a[..i];
    var j := i;
    while j > 0 && cmp(a[j - 1], x) > 0
      invariant 0 <= j <= i
      invariant forall k :: 0 <= k < j ==> a[k] == t[k]
      invariant forall k :: j < k <= i ==> a[k] == t[k - 1]
      invariant forall k :: i < k < a.Length ==> a[k] == old(a[k])
      invariant forall k :: j <= k < i ==> cmp(t[k], x) > 0
    {
      a[j] := a[j - 1];
      j := j - 1;
    }
    a[j] := x;
    InsertAt(cmp, t, x, j);
    Shifted(a[..], t, x, j);
  }

  /** list.sort(cmp), in place. */
  method SortInPlace<T>(a: array<T>, cmp: (T, T) -> int)
    modifies a
    ensures a[..] == Sort(cmp, old(a[..]))
  {
    ghost var orig := a[..];
    for i := 0 to a.Length
      invariant a[..i] == Sort(cmp, orig[..i])
      invariant forall k :: i <= k < a.Length ==> a[k] == orig[k]
    {
      InsertStep(a, cmp, i);
      assert orig[..i + 1] == orig[..i] + [orig[i]];
    }
    assert a[..] == a[..a.Length] && orig[..a.Length] == orig;
  }

  // ---------------------------------------------------------------------
  // Properties of the specification
  // ---------------------------------------------------------------------

  lemma {:induction false} InsertPermutes<T>(cmp: (T, T) -> int, t: seq<T>, x: T)
    ensures multiset(Insert(cmp, t, x)) == multiset(t) + multiset{x}
  {
    if t != [] {
      var init, last := t[..|t| - 1], t[|t| - 1];
      assert t == init + [last];
      if cmp(last, x) > 0 {
        InsertPermutes(cmp, init, x);
      }
    }
  }

  /** A sort leaves the list a permutation of what it was. */
  lemma {:induction false} SortPermutes<T>(cmp: (T, T) -> int, s: seq<T>)
    ensures multiset(Sort(cmp, s)) == multiset(s)
  {
    if s != [] {
      var init := s[..|s| - 1];
      assert s == init + [s[|s| - 1]];
      SortPermutes(cmp, init);
      InsertPermutes(cmp, Sort(cmp, init), s[|s| - 1]);
    }
  }

  predicate NoneAbove<T>(cmp: (T, T) -> int, s: seq<T>, bound: T) {
    forall k :: 0 <= k < |s| ==> cmp(s[k], bound) <= 0
  }

  lemma {:induction false} InsertNoneAbove<T>(cmp: (T, T) -> int, t: seq<T>, x: T, bound: T)
    requires NoneAbove(cmp, t, bound) && cmp(x, bound) <= 0
    ensures NoneAbove(cmp, Insert(cmp, t, x), bound)
  {
    if t != [] {
      var init := t[..|t| - 1];
      if cmp(t[|t| - 1], x) > 0 {
        InsertNoneAbove(cmp, init, x, bound);
      }
    }
  }

  lemma SortedSnoc<T>(cmp: (T, T) -> int, s: seq<T>, x: T)
    requires Sorted(cmp, s) && NoneAbove(cmp, s, x)
    ensures Sorted(cmp, s + [x])
  {
  }

  /** Below a last element that does not compare greater than x, nothing does. */
  lemma SortedBelow<T(!new)>(cmp: (T, T) -> int, t: seq<T>, x: T)
    requires IsComparator(cmp) && Sorted(cmp, t)
    requires t != [] && cmp(t[|t| - 1], x) <= 0
    ensures NoneAbove(cmp, t, x)
  {
    var last := t[|t| - 1];
    forall k | 0 <= k < |t| ensures cmp(t[k], x) <= 0 {
      if k < |t| - 1 {
        assert cmp(t[k], last) <= 0;
      }
    }
  }

  lemma {:induction false} InsertSorted<T(!new)>(cmp: (T, T) -> int, t: seq<T>, x: T)
    requires IsComparator(cmp) && Sorted(cmp, t)
    ensures Sorted(cmp, Insert(cmp, t, x))
  {
    if t != [] {
      var init, last := t[..|t| - 1], t[|t| - 1];
      if cmp(last, x) > 0 {
        InsertBefore(cmp, t, x);
        InsertSorted(cmp, init, x);
        assert cmp(x, last) < 0;
        InsertNoneAbove(cmp, init, x, last);
        SortedSnoc(cmp, Insert(cmp, init, x), last);
      } else {
        InsertAfter(cmp, t, x);
        SortedBelow(cmp, t, x);
        SortedSnoc(cmp, t, x);
      }
    }
  }

  /** Under a comparator that keeps the contract, the result is in non-decreasing order. */
  lemma {:induction false} SortSorted<T(!new)>(cmp: (T, T) -> int, s: seq<T>)
    requires IsComparator(cmp)
    ensures Sorted(cmp, Sort(cmp, s))
  {
    if s != [] {
      var init := s[..|s| - 1];
      SortSorted(cmp, init);
      InsertSorted(cmp, Sort(cmp, init), s[|s| - 1]);
    }
  }

  /** The elements of s that compare equal to x, in their order in s. */
  function Ties<T>(cmp: (T, T) -> int, s: seq<T>, x: T): (r: seq<T>)
    ensures |r| <= |s|
  {
    if s == [] then []
    else Ties(cmp, s[..|s| - 1], x) + (if cmp(s[|s| - 1], x) == 0 then [s[|s| - 1]] else [])
  }

  lemma {:induction false} TiesAppend<T>(cmp: (T, T) -> int, a: seq<T>, b: seq<T>, x: T)
    ensures Ties(cmp, a + b, x) == Ties(cmp, a, x) + Ties(cmp, b, x)
  {
    if b == [] {
      assert a + b == a;
    } else {
      var b' := b[..|b| - 1];
      assert (a + b)[..|a + b| - 1] == a + b';
      assert (a + b)[|a + b| - 1] == b[|b| - 1];
      TiesAppend(cmp, a, b', x);
    }
  }

  /** Two elements that both compare equal to x compare equal to each other. */
  lemma TiedPair<T(!new)>(cmp: (T, T) -> int, a: T, b: T, x: T)
    requires IsComparator(cmp)
    requires cmp(a, x) == 0 && cmp(b, x) == 0
    ensures cmp(a, b) == 0
  {
    assert cmp(x, b) <= 0 && cmp(x, a) <= 0;
    assert cmp(a, b) <= 0 && cmp(b, a) <= 0;
  }

  lemma {:induction false} InsertTiesWhen<T>(cmp: (T, T) -> int, t: seq<T>, y: T, x: T)
    requires forall a :: cmp(a, y) > 0 ==> !(cmp(y, x) == 0 && cmp(a, x) == 0)
    ensures Ties(cmp, Insert(cmp, t, y), x) == Ties(cmp, t, x) + (if cmp(y, x) == 0 then [y] else [])
  {
    if t == [] {
      assert [y][..0] == [];
    } else {
      var init, last := t[..|t| - 1], t[|t| - 1];
      if cmp(last, y) > 0 {
        InsertBefore(cmp, t, y);
        InsertTiesWhen(cmp, init, y, x);
        TiesAppend(cmp, Insert(cmp, init, y), [last], x);
        assert [last][..0] == [];
      } else {
        InsertAfter(cmp, t, y);
        assert (t + [y])[..|t|] == t;
      }
    }
  }

  /** Insertion adds y after every earlier element that ties with it. */
  lemma InsertTies<T(!new)>(cmp: (T, T) -> int, t: seq<T>, y: T, x: T)
    requires IsComparator(cmp)
    ensures Ties(cmp, Insert(cmp, t, y), x) == Ties(cmp, t, x) + (if cmp(y, x) == 0 then [y] else [])
  {
    forall a | cmp(a, y) > 0 ensures !(cmp(y, x) == 0 && cmp(a, x) == 0) {
      if cmp(y, x) == 0 && cmp(a, x) == 0 {
        TiedPair(cmp, a, y, x);
      }
    }
    InsertTiesWhen(cmp, t, y, x);
  }

  /**
   * The sort is stable: the elements that compare equal to any x keep their
   * relative order.
   */
  lemma {:induction false} SortStable<T(!new)>(cmp: (T, T) -> int, s: seq<T>, x: T)
    requires IsComparator(cmp)
    ensures Ties(cmp, Sort(cmp, s), x) == Ties(cmp, s, x)
  {
    if s != [] {
      var init := s[..|s| - 1];
      SortStable(cmp, init, x);
      InsertTies(cmp, Sort(cmp, init), s[|s| - 1], x);
    }
  }

  lemma TiesLast<T>(cmp: (T, T) -> int, s: seq<T>, x: T)
    requires s != [] && cmp(s[|s| - 1], x) == 0
    ensures Ties(cmp, s, x) == Ties(cmp, s[..|s| - 1], x) + [s[|s| - 1]]
  {
  }

  lemma {:induction false} TiesMember<T>(cmp: (T, T) -> int, s: seq<T>, x: T, e: T)
    requires e in Ties(cmp, s, x)
    ensures e in s && cmp(e, x) == 0
  {
    if s != [] {
      var init := s[..|s| - 1];
      if e in Ties(cmp, init, x) {
        TiesMember(cmp, init, x, e);
        assert e in init;
        assert s == init + [s[|s| - 1]];
      }
    }
  }

  /** Under a sorted list, an element of the list does not compare greater than the last one. */
  lemma AtMostLast<T(!new)>(cmp: (T, T) -> int, q: seq<T>, e: T)
    requires IsComparator(cmp) && Sorted(cmp, q) && e in q
    ensures cmp(e, q[|q| - 1]) <= 0
  {
    var i :| 0 <= i < |q| && q[i] == e;
    if i == |q| - 1 {
      assert cmp(e, e) > 0 <==> cmp(e, e) < 0;
    }
  }

  /** Removing the same last element from two lists with equal ties keeps their ties equal. */
  lemma TiesInit<T>(cmp: (T, T) -> int, r: seq<T>, q: seq<T>, x: T)
    requires r != [] && |r| == |q| && r[|r| - 1] == q[|q| - 1]
    requires Ties(cmp, r, x) == Ties(cmp, q, x)
    ensures Ties(cmp, r[..|r| - 1], x) == Ties(cmp, q[..|q| - 1], x)
  {
    var a := r[|r| - 1];
    var tr, tq := Ties(cmp, r[..|r| - 1], x), Ties(cmp, q[..|q| - 1], x);
    var tail := if cmp(a, x) == 0 then [a] else [];
    assert tr + tail == tq + tail;
    assert tr == (tr + tail)[..|tr|];
    assert tq == (tq + tail)[..|tq|];
  }

  /** Under the contract every element ties with itself. */
  lemma SelfTie<T(!new)>(cmp: (T, T) -> int, a: T)
    requires IsComparator(cmp)
    ensures cmp(a, a) == 0
  {
    assert cmp(a, a) > 0 <==> cmp(a, a) < 0;
  }

  /** The last element of r is among q's ties with it, so it is not above q's last element. */
  lemma LastBelow<T(!new)>(cmp: (T, T) -> int, r: seq<T>, q: seq<T>)
    requires IsComparator(cmp) && Sorted(cmp, q) && r != [] && q != []
    requires Ties(cmp, r, r[|r| - 1]) == Ties(cmp, q, r[|r| - 1])
    ensures cmp(r[|r| - 1], q[|q| - 1]) <= 0
  {
    var a := r[|r| - 1];
    SelfTie(cmp, a);
    TiesLast(cmp, r, a);
    TiesMember(cmp, q, a, a);
    AtMostLast(cmp, q, a);
  }

  /** Two sorted lists with equal ties end in the same element. */
  lemma LastTie<T(!new)>(cmp: (T, T) -> int, r: seq<T>, q: seq<T>)
    requires IsComparator(cmp) && Sorted(cmp, r) && Sorted(cmp, q) && r != [] && q != []
    requires forall x :: Ties(cmp, r, x) == Ties(cmp, q, x)
    ensures r[|r| - 1] == q[|q| - 1]
  {
    var a, b := r[|r| - 1], q[|q| - 1];
    LastBelow(cmp, r, q);
    LastBelow(cmp, q, r);
    assert cmp(b, a) == 0;
    TiesLast(cmp, r, a);
    TiesLast(cmp, q, a);
    assert a == Ties(cmp, r, a)[|Ties(cmp, r, a)| - 1] == b;
  }

  /**
   * Two sorted lists of the same length in which every element has the same
   * ties, in the same order, are the same list.
   */
  lemma {:induction false} SortedEqual<T(!new)>(cmp: (T, T) -> int, r: seq<T>, q: seq<T>)
    requires IsComparator(cmp) && Sorted(cmp, r) && Sorted(cmp, q) && |r| == |q|
    requires forall x :: Ties(cmp, r, x) == Ties(cmp, q, x)
    ensures r == q
  {
    if r != [] {
      var r', q' := r[..|r| - 1], q[..|q| - 1];
      LastTie(cmp, r, q);
      forall x ensures Ties(cmp, r', x) == Ties(cmp, q', x) {
        TiesInit(cmp, r, q, x);
      }
      assert Sorted(cmp, r') && Sorted(cmp, q');
      SortedEqual(cmp, r', q');
      assert r == r' + [r[|r| - 1]] && q == q' + [q[|q| - 1]];
    }
  }

  /**
   * Sort is the only stable sort: any sorted rearrangement of s in which the
   * elements that tie keep their order in s is Sort(cmp, s). So the model
   * agrees with whatever stable algorithm the library runs.
   */
  lemma SortUnique<T(!new)>(cmp: (T, T) -> int, s: seq<T>, r: seq<T>)
    requires IsComparator(cmp) && Sorted(cmp, r) && |r| == |s|
    requires forall x :: Ties(cmp, r, x) == Ties(cmp, s, x)
    ensures r == Sort(cmp, s)
  {
    SortSorted(cmp, s);
    forall x ensures Ties(cmp, r, x) == Ties(cmp, Sort(cmp, s), x) {
      SortStable(cmp, s, x);
    }
    SortedEqual(cmp, r, Sort(cmp, s));
  }
}
