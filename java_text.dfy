/**
 * The few java.lang.String operations the programs rely on, restricted to
 * ASCII letters where Java's own definition depends on Unicode tables:
 * trim(), isEmpty(), equalsIgnoreCase(), split("\\|") and compareTo().
 */
module JavaText {

  // ---------------------------------------------------------------------
  // String.trim(): strip every leading and trailing character <= U+0020
  // ---------------------------------------------------------------------

  predicate IsTrimmable(c: char) { c <= ' ' }

  predicate AllTrimmable(s: string) {
    forall i :: 0 <= i < |s| ==> IsTrimmable(s[i])
  }

  /** Number of leading characters trim() removes. */
  function TrimStart(s: string): (n: nat)
    ensures n <= |s|
    ensures AllTrimmable(s[..n])
    ensures n < |s| ==> !IsTrimmable(s[n])
  {
    if s == [] || !IsTrimmable(s[0]) then 0
    else
      var k := TrimStart(s[1..]);
      assert s[..k + 1] == [s[0]] + s[1..][..k];
      k + 1
  }

  /** Length of the prefix that is left once trim() removes the trailing characters. */
  function TrimEnd(s: string): (n: nat)
    ensures n <= |s|
    ensures AllTrimmable(s[n..])
    ensures n > 0 ==> !IsTrimmable(s[n - 1])
  {
    if s == [] || !IsTrimmable(s[|s| - 1]) then |s|
    else
      var k := TrimEnd(s[..|s| - 1]);
      assert s[k..] == s[..|s| - 1][k..] + [s[|s| - 1]];
      k
  }

  /** The text of s between its first and last non-trimmable character. */
  function Trim(s: string): (r: string)
    ensures |r| <= |s|
  {
    var e := TrimEnd(s);
    var b := TrimStart(s[..e]);
    s[b..e]
  }

  /**
   * trim() removes only characters at most U+0020, and only from the two
   * ends; it leaves nothing exactly for an all-blank string, and otherwise
   * no blank at either end.
   */
  lemma TrimSpec(s: string)
    ensures exists b, e :: 0 <= b <= e <= |s| && Trim(s) == s[b..e] && AllTrimmable(s[..b]) && AllTrimmable(s[e..])
    ensures Trim(s) == [] <==> AllTrimmable(s)
    ensures Trim(s) != [] ==> !IsTrimmable(Trim(s)[0]) && !IsTrimmable(Trim(s)[|Trim(s)| - 1])
  {
    var e := TrimEnd(s);
    var b := TrimStart(s[..e]);
    assert s[..b] == s[..e][..b];
    assert Trim(s) == s[b..e] && AllTrimmable(s[..b]) && AllTrimmable(s[e..]);
    assert s[b..e] == s[..e][b..];
    assert b == e ==> AllTrimmable(s) by {
      if b == e {
        forall i | 0 <= i < |s| ensures IsTrimmable(s[i]) {
          if i < b { assert s[i] == s[..b][i]; } else { assert s[i] == s[e..][i - e]; }
        }
      }
    }
  }

  /** A string whose ends are not trimmable is its own trim. */
  lemma TrimNoop(s: string)
    requires s != [] && !IsTrimmable(s[0]) && !IsTrimmable(s[|s| - 1])
    ensures Trim(s) == s
  {
    assert TrimEnd(s) == |s|;
    assert s[..|s|] == s;
    assert TrimStart(s) == 0;
  }

  // ---------------------------------------------------------------------
  // String.equalsIgnoreCase(), for ASCII letters
  // ---------------------------------------------------------------------

  function ToLowerAscii(c: char): char {
    if 'A' <= c <= 'Z' then (c as int + 32) as char else c
  }

  predicate EqualsIgnoreCase(a: string, b: string) {
    |a| == |b| && forall i :: 0 <= i < |a| ==> ToLowerAscii(a[i]) == ToLowerAscii(b[i])
  }

  predicate IsAsciiLetter(c: char) { 'A' <= c <= 'Z' || 'a' <= c <= 'z' }

  /** Two characters that are the same letter in opposite cases. */
  predicate CasePair(c: char, d: char) {
    IsAsciiLetter(c) && IsAsciiLetter(d) && (c as int - d as int == 32 || d as int - c as int == 32)
  }

  /**
   * Two strings are equal ignoring case exactly when they have the same
   * length and each pair of characters is equal or the same letter in
   * upper and lower case.
   */
  lemma EqualsIgnoreCaseChars(a: string, b: string)
    ensures EqualsIgnoreCase(a, b) <==>
      |a| == |b| && forall i :: 0 <= i < |a| ==> a[i] == b[i] || CasePair(a[i], b[i])
  {
  }

  /** Equality ignoring case is an equivalence. */
  lemma EqualsIgnoreCaseEquivalence(a: string, b: string, c: string)
    ensures EqualsIgnoreCase(a, a)
    ensures EqualsIgnoreCase(a, b) ==> EqualsIgnoreCase(b, a)
    ensures EqualsIgnoreCase(a, b) && EqualsIgnoreCase(b, c) ==> EqualsIgnoreCase(a, c)
  {
  }

  // ---------------------------------------------------------------------
  // String.split(regex) for a one-character literal delimiter
  // ---------------------------------------------------------------------

  /** Every maximal run between delimiters, including empty ones: n delimiters give n + 1 pieces. */
  function SplitAll(s: string, d: char): (parts: seq<string>)
    ensures |parts| >= 1
    ensures forall k :: 0 <= k < |parts| ==> d !in parts[k]
  {
    if s == [] then [[]]
    else if s[0] == d then [[]] + SplitAll(s[1..], d)
    else
      var rest := SplitAll(s[1..], d);
      [[s[0]] + rest[0]] + rest[1..]
  }

  /** Joining the pieces back with the delimiter gives the original text. */
  function Join(parts: seq<string>, d: char): string
    requires |parts| >= 1
  {
    if |parts| == 1 then parts[0] else parts[0] + [d] + Join(parts[1..], d)
  }

  lemma {:induction false} JoinSplitAll(s: string, d: char)
    ensures Join(SplitAll(s, d), d) == s
  {
    if s == [] {
    } else if s[0] == d {
      JoinSplitAll(s[1..], d);
      assert SplitAll(s, d)[1..] == SplitAll(s[1..], d);
    } else {
      JoinSplitAll(s[1..], d);
      var rest := SplitAll(s[1..], d);
      if |rest| == 1 {
      } else {
        assert SplitAll(s, d)[1..] == rest[1..];
      }
    }
  }

  lemma {:induction false} SplitAllCons(x: string, d: char, y: string)
    requires d !in x
    ensures SplitAll(x + [d] + y, d) == [x] + SplitAll(y, d)
  {
    if x == [] {
      assert x + [d] + y == [d] + y;
      assert ([d] + y)[1..] == y;
    } else {
      assert (x + [d] + y)[1..] == x[1..] + [d] + y;
      SplitAllCons(x[1..], d, y);
      assert [x[0]] + x[1..] == x;
    }
  }

  function DropTrailingEmpty(parts: seq<string>): (r: seq<string>)
    ensures |r| <= |parts| && r == parts[..|r|]
    ensures r == [] || r[|r| - 1] != []
    ensures forall k :: |r| <= k < |parts| ==> parts[k] == []
  {
    if parts == [] || parts[|parts| - 1] != [] then parts
    else DropTrailingEmpty(parts[..|parts| - 1])
  }

  /**
   * Java's split with limit 0: when the delimiter never occurs the result is
   * the input itself; otherwise the pieces with every trailing empty piece removed.
   */
  function JavaSplit(s: string, d: char): (parts: seq<string>)
    ensures d !in s ==> parts == [s]
    ensures forall k :: 0 <= k < |parts| ==> d !in parts[k]
  {
    if d !in s then [s] else DropTrailingEmpty(SplitAll(s, d))
  }

  lemma {:induction false} SplitAllNoDelimiter(t: string, d: char)
    requires d !in t
    ensures SplitAll(t, d) == [t]
  {
    if t != [] {
      SplitAllNoDelimiter(t[1..], d);
      assert [t[0]] + t[1..] == t;
    }
  }

  /** Splitting four delimiter-free fields joined by d gives them back, provided the last one is not empty. */
  lemma SplitFour(a: string, b: string, c: string, t: string, d: char)
    requires d !in a && d !in b && d !in c && d !in t && t != []
    ensures JavaSplit(a + [d] + b + [d] + c + [d] + t, d) == [a, b, c, t]
  {
    var s3 := c + [d] + t;
    var s2 := b + [d] + s3;
    var s1 := a + [d] + s2;
    assert s1 == a + [d] + b + [d] + c + [d] + t;
    SplitAllNoDelimiter(t, d);
    SplitAllCons(c, d, t);
    SplitAllCons(b, d, s3);
    SplitAllCons(a, d, s2);
    assert SplitAll(s1, d) == [a, b, c, t];
    assert s1[|a|] == d;
  }

  // ---------------------------------------------------------------------
  // String.compareTo: lexicographic by character code, a proper prefix first
  // ---------------------------------------------------------------------

  function CompareTo(a: string, b: string): int {
    if a == [] || b == [] then |a| - |b|
    else if a[0] != b[0] then a[0] as int - b[0] as int
    else CompareTo(a[1..], b[1..])
  }

  lemma {:induction false} CompareToZero(a: string, b: string)
    ensures CompareTo(a, b) == 0 <==> a == b
  {
    if a == [] || b == [] {
    } else if a[0] != b[0] {
    } else {
      CompareToZero(a[1..], b[1..]);
      assert a == [a[0]] + a[1..] && b == [b[0]] + b[1..];
    }
  }

  lemma {:induction false} CompareToAntisymmetric(a: string, b: string)
    ensures CompareTo(b, a) == -CompareTo(a, b)
  {
    if a == [] || b == [] {
    } else if a[0] != b[0] {
    } else {
      CompareToAntisymmetric(a[1..], b[1..]);
    }
  }

  lemma {:induction false} CompareToTransitive(a: string, b: string, c: string)
    requires CompareTo(a, b) <= 0 && CompareTo(b, c) <= 0
    ensures CompareTo(a, c) <= 0
  {
    if a == [] || b == [] || c == [] {
    } else if a[0] != b[0] || b[0] != c[0] {
    } else {
      CompareToTransitive(a[1..], b[1..], c[1..]);
    }
  }

  /** Dictionary order: a is a proper prefix of b, or a has the smaller character at the first difference. */
  predicate LexLess(a: string, b: string) {
    || (|a| < |b| && a == b[..|a|])
    || (exists k :: 0 <= k < |a| && k < |b| && a[..k] == b[..k] && a[k] < b[k])
  }

  lemma LexLessTail(a: string, b: string)
    requires a != [] && b != [] && a[0] == b[0]
    ensures LexLess(a, b) <==> LexLess(a[1..], b[1..])
  {
    var a', b' := a[1..], b[1..];
    if |a| < |b| && a == b[..|a|] {
      assert a' == b'[..|a'|];
    }
    if |a'| < |b'| && a' == b'[..|a'|] {
      assert a == [a[0]] + a' && b[..|a|] == [b[0]] + b'[..|a'|];
    }
    if k :| 0 <= k < |a| && k < |b| && a[..k] == b[..k] && a[k] < b[k] {
      if k == 0 {
        assert false;
      } else {
        assert a'[..k - 1] == a[..k][1..] && b'[..k - 1] == b[..k][1..];
        assert a'[k - 1] < b'[k - 1];
      }
    }
    if k :| 0 <= k < |a'| && k < |b'| && a'[..k] == b'[..k] && a'[k] < b'[k] {
      assert a[..k + 1] == [a[0]] + a'[..k] && b[..k + 1] == [b[0]] + b'[..k];
      assert a[k + 1] < b[k + 1];
    }
  }

  /** String.compareTo is negative exactly when the first string comes first in dictionary order. */
  lemma {:induction false} CompareToNegative(a: string, b: string)
    ensures CompareTo(a, b) < 0 <==> LexLess(a, b)
  {
    if a == [] {
      if b != [] { assert a == b[..0]; }
    } else if b == [] {
    } else if a[0] != b[0] {
      if a[0] < b[0] {
        assert a[..0] == b[..0];
      }
    } else {
      CompareToNegative(a[1..], b[1..]);
      LexLessTail(a, b);
    }
  }
}
