/**
 * Decimal digit strings and the parts of java.lang.Integer the programs use:
 * Integer.parseInt(s) (radix 10) and Integer.toString(n), for ASCII digits.
 */
module Digits {
  import opened Wrappers

  predicate IsDigit(c: char) { '0' <= c <= '9' }

  predicate AllDigits(s: string) {
    forall i :: 0 <= i < |s| ==> IsDigit(s[i])
  }

  function DigitValue(c: char): nat
    requires IsDigit(c)
  {
    c as int - '0' as int
  }

  function DigitChar(d: nat): char
    requires d < 10
  {
    ('0' as int + d) as char
  }

  function Pow10(k: nat): nat {
    if k == 0 then 1 else 10 * Pow10(k - 1)
  }

  /** The number a digit string denotes, most significant digit first. */
  function ValueOf(s: string): nat
    requires AllDigits(s)
  {
    if s == [] then 0 else 10 * ValueOf(s[..|s| - 1]) + DigitValue(s[|s| - 1])
  }

  /** A digit string without superfluous leading zeros. */
  predicate Canonical(s: string) {
    |s| >= 1 && AllDigits(s) && (s[0] == '0' ==> |s| == 1)
  }

  /** The shortest digit string for n, as Integer.toString writes it. */
  function NatToString(n: nat): (s: string)
    ensures Canonical(s)
    ensures ValueOf(s) == n
  {
    if n < 10 then [DigitChar(n)]
    else
      var s := NatToString(n / 10) + [DigitChar(n % 10)];
      assert s[..|s| - 1] == NatToString(n / 10);
      s
  }

  lemma {:induction false} ValueOfAppend(a: string, b: string)
    requires AllDigits(a) && AllDigits(b)
    ensures AllDigits(a + b)
    ensures ValueOf(a + b) == ValueOf(a) * Pow10(|b|) + ValueOf(b)
  {
    if b == [] {
      assert a + b == a;
    } else {
      var b' := b[..|b| - 1];
      var last := b[|b| - 1];
      assert (a + b)[..|a + b| - 1] == a + b';
      assert (a + b)[|a + b| - 1] == last;
      ValueOfAppend(a, b');
      var va, vb' := ValueOf(a), ValueOf(b');
      var p := Pow10(|b'|);
      assert ValueOf(a + b) == 10 * ValueOf(a + b') + DigitValue(last);
      assert ValueOf(b) == 10 * vb' + DigitValue(last);
      assert Pow10(|b|) == 10 * p;
      ShiftDigit(va, p, vb', DigitValue(last));
    }
  }

  /** The arithmetic step of ValueOfAppend. */
  lemma ShiftDigit(va: nat, p: nat, vb: nat, d: nat)
    ensures 10 * (va * p + vb) + d == va * (10 * p) + (10 * vb + d)
  {
  }

  predicate AllZeros(z: string) {
    forall i :: 0 <= i < |z| ==> z[i] == '0'
  }

  lemma {:induction false} ValueOfZeros(z: string)
    requires AllZeros(z)
    ensures AllDigits(z) && ValueOf(z) == 0
  {
    if z != [] {
      ValueOfZeros(z[..|z| - 1]);
    }
  }

  /** Leading zeros do not change the value of a digit string. */
  lemma LeadingZeros(z: string, s: string)
    requires AllZeros(z) && AllDigits(s)
    ensures AllDigits(z + s) && ValueOf(z + s) == ValueOf(s)
  {
    ValueOfZeros(z);
    ValueOfAppend(z, s);
  }

  lemma {:induction false} ValueOfBound(s: string)
    requires AllDigits(s)
    ensures ValueOf(s) < Pow10(|s|)
  {
    if s != [] {
      ValueOfBound(s[..|s| - 1]);
    }
  }

  lemma {:induction false} CanonicalLowerBound(s: string)
    requires Canonical(s) && |s| >= 2
    ensures ValueOf(s) >= Pow10(|s| - 1)
  {
    var p := s[..|s| - 1];
    if |s| > 2 {
      assert Canonical(p);
      CanonicalLowerBound(p);
    } else {
      assert p == [s[0]];
      assert ValueOf(p) == DigitValue(s[0]) + 10 * ValueOf([]);
    }
  }

  /** The other half of the bijection: a canonical digit string is the one NatToString writes for its value. */
  lemma {:induction false} NatToStringOfValue(s: string)
    requires Canonical(s)
    ensures NatToString(ValueOf(s)) == s
  {
    var n := ValueOf(s);
    if |s| == 1 {
      assert s[..0] == [];
      if n >= 10 { ValueOfBound(s); assert false; }
    } else {
      CanonicalLowerBound(s);
      var p := s[..|s| - 1];
      assert Canonical(p);
      assert n / 10 == ValueOf(p) && n % 10 == DigitValue(s[|s| - 1]);
      NatToStringOfValue(p);
      assert s == p + [s[|s| - 1]];
    }
  }

  // ---------------------------------------------------------------------
  // Integer.parseInt / Integer.toString
  // ---------------------------------------------------------------------

  const IntMin: int := -0x8000_0000
  const IntMax: int := 0x7fff_ffff

  predicate IsInt32(n: int) { IntMin <= n <= IntMax }

  /**
   * Integer.parseInt(s, 10): an optional '+' or '-', then one or more digits,
   * denoting a value inside the 32-bit range; anything else is None
   * (Java throws NumberFormatException).
   */
  function ParseInt(s: string): (r: Option<int>)
    ensures r.Some? ==> IsInt32(r.value)
  {
    if s == [] then None
    else
      var signed := s[0] == '-' || s[0] == '+';
      var body := if signed then s[1..] else s;
      if body == [] || !AllDigits(body) then None
      else
        var v := if s[0] == '-' then -(ValueOf(body) as int) else ValueOf(body);
        if IsInt32(v) then Some(v) else None
  }

  /** What parseInt accepts: an optional sign, then digits; the value is negative only after '-'. */
  lemma ParseIntGrammar(s: string)
    ensures ParseInt(s).Some? ==>
      |s| >= 1 && AllDigits(s[1..]) && (IsDigit(s[0]) || (|s| >= 2 && (s[0] == '+' || s[0] == '-')))
    ensures ParseInt(s).Some? && s[0] == '-' ==> ParseInt(s).value == -(ValueOf(s[1..]) as int)
    ensures ParseInt(s).Some? && s[0] == '+' ==> ParseInt(s).value == ValueOf(s[1..])
    ensures ParseInt(s).Some? && s[0] != '-' && s[0] != '+' ==> ParseInt(s).value == ValueOf(s)
  {
  }

  /**
   * The converse: every digit string, bare or after '+' or '-', is accepted
   * with the value it denotes when that value fits in 32 bits, and rejected
   * otherwise.
   */
  lemma ParseIntDigits(b: string)
    requires b != [] && AllDigits(b)
    ensures ParseInt(b) == if IsInt32(ValueOf(b)) then Some(ValueOf(b)) else None
    ensures ParseInt("+" + b) == if IsInt32(ValueOf(b)) then Some(ValueOf(b)) else None
    ensures ParseInt("-" + b) == if IsInt32(-(ValueOf(b) as int)) then Some(-(ValueOf(b) as int)) else None
  {
    assert ("+" + b)[1..] == b;
    assert ("-" + b)[1..] == b;
  }

  /** Integer.toString(n): a '-' for negative numbers, then the shortest digit string. */
  function IntToString(n: int): (s: string)
    ensures |s| >= 1
    ensures n < 0 <==> s[0] == '-'
  {
    if n < 0 then "-" + NatToString(-n) else NatToString(n)
  }

  /**
   * toString followed by parseInt gives back every 32-bit integer, and
   * rejects the text of every integer outside that range.
   */
  lemma ParseIntToString(n: int)
    ensures ParseInt(IntToString(n)) == if IsInt32(n) then Some(n) else None
  {
    var s := IntToString(n);
    if n < 0 {
      assert s[1..] == NatToString(-n);
    } else {
      assert s == NatToString(n);
    }
  }

  /** parseInt accepts redundant leading zeros and an explicit plus sign, and rejects a lone sign. */
  lemma ParseIntEdgeCases()
    ensures ParseInt("+007") == Some(7)
    ensures ParseInt("-0") == Some(0)
    ensures ParseInt("+") == None && ParseInt("") == None && ParseInt("1 2") == None
  {
    assert "+007"[1..] == "007";
    assert "007"[..2] == "00" && "00"[..1] == "0" && "0"[..0] == "";
    assert "-0"[1..] == "0";
    assert !AllDigits("1 2") by { assert !IsDigit("1 2"[1]); }
  }

  /** The range check: the extreme values are accepted, one beyond them is rejected. */
  lemma ParseIntRange()
    ensures ParseInt(IntToString(IntMax)) == Some(IntMax)
    ensures ParseInt(IntToString(IntMin)) == Some(IntMin)
    ensures ParseInt(IntToString(IntMax + 1)) == None
    ensures ParseInt(IntToString(IntMin - 1)) == None
  {
    ParseIntToString(IntMax);
    ParseIntToString(IntMin);
    ParseIntToString(IntMax + 1);
    ParseIntToString(IntMin - 1);
  }
}
