/**
 * Salaries in the employee file are written with Double.toString and read
 * back with Double.parseDouble. The model keeps them as exact decimals,
 * mantissa * 10^-scale, and covers the plain notation those two methods
 * use for ordinary amounts: an optional sign, digits, a point, digits.
 */
module DecimalText {
  import opened Wrappers
  import opened JavaText
  import opened Digits

  datatype Decimal = Decimal(mantissa: int, scale: nat)

  /** The unique form of each value: no trailing zero after the point. */
  predicate Normal(d: Decimal) {
    d.scale == 0 || d.mantissa % 10 != 0
  }

  /** An amount as a double holds it: one value, one representation. */
  type Amount = d: Decimal | Normal(d) witness Decimal(0, 0)

  /** Strips trailing fractional zeros without changing the value. */
  function Normalize(m: int, s: nat): (d: Decimal)
    ensures Normal(d) && d.scale <= s
    decreases s
  {
    if s > 0 && m % 10 == 0 then Normalize(m / 10, s - 1) else Decimal(m, s)
  }

  /** Normalising keeps the value: the dropped digits were zeros. */
  lemma {:induction false} NormalizeValue(m: int, s: nat)
    ensures var d := Normalize(m, s); m == d.mantissa * Pow10(s - d.scale)
    decreases s
  {
    if s > 0 && m % 10 == 0 {
      NormalizeValue(m / 10, s - 1);
      var d := Normalize(m / 10, s - 1);
      assert Pow10(s - d.scale) == 10 * Pow10(s - 1 - d.scale);
      assert m == 10 * (m / 10);
      assert m / 10 == d.mantissa * Pow10(s - 1 - d.scale);
    }
  }

  function Zeros(n: nat): (z: string)
    ensures |z| == n && AllZeros(z)
  {
    if n == 0 then "" else Zeros(n - 1) + "0"
  }

  /** The digits of |mantissa|, left-padded with zeros so at least one digit precedes the point. */
  function Padded(d: Decimal): (p: string)
    ensures |p| > d.scale && AllDigits(p)
  {
    var digits := NatToString(if d.mantissa < 0 then -d.mantissa else d.mantissa);
    var width := d.scale + 1;
    LeadingZeros(Zeros(if |digits| < width then width - |digits| else 0), digits);
    Zeros(if |digits| < width then width - |digits| else 0) + digits
  }

  /** Double.toString for plain amounts: at least one digit on each side of the point. */
  function ShowDecimal(d: Decimal): (s: string)
    ensures |s| >= 3 && '|' !in s
  {
    var p := Padded(d);
    var cut := |p| - d.scale;
    var frac := if d.scale == 0 then "0" else p[cut..];
    var unsigned := p[..cut] + "." + frac;
    assert forall i :: 0 <= i < |unsigned| ==> IsDigit(unsigned[i]) || unsigned[i] == '.';
    (if d.mantissa < 0 then "-" else "") + unsigned
  }

  /** The text before and after the only '.', or None when there are several. */
  function SplitPoint(s: string): Option<(string, string)> {
    var parts := SplitAll(s, '.');
    if |parts| == 1 then Some((parts[0], ""))
    else if |parts| == 2 then Some((parts[0], parts[1]))
    else None
  }

  /** Digits with at most one point and at least one digit: their value and the number of digits after the point. */
  function ParseUnsigned(body: string): (r: Option<(nat, nat)>)
  {
    match SplitPoint(body)
    case None => None
    case Some((whole, frac)) =>
      if |whole| + |frac| == 0 || !AllDigits(whole) || !AllDigits(frac) then None
      else
        ValueOfAppend(whole, frac);
        Some((ValueOf(whole + frac), |frac|))
  }

  /** Whether the token starts with a minus sign. */
  predicate IsNegative(t: string) {
    |t| > 0 && t[0] == '-'
  }

  /** The token without its sign, if it has one. */
  function Unsigned(t: string): string {
    if |t| > 0 && (t[0] == '-' || t[0] == '+') then t[1..] else t
  }

  /** An optional sign before the unsigned part. */
  function ParseSigned(t: string): Option<Decimal> {
    var u := ParseUnsigned(Unsigned(t));
    if u.None? then None
    else Some(Normalize(if IsNegative(t) then -(u.value.0 as int) else u.value.0, u.value.1))
  }

  /**
   * Double.parseDouble for plain decimal tokens: surrounding blanks are
   * ignored, then an optional sign, then digits with at most one point and
   * at least one digit in all.
   */
  function ParseDecimal(token: string): (r: Option<Decimal>)
    ensures r.Some? ==> Normal(r.value)
  {
    ParseSigned(Trim(token))
  }

  lemma {:induction false} NormalizeNormal(d: Decimal)
    requires Normal(d)
    ensures Normalize(d.mantissa, d.scale) == d
  {
  }

  lemma SplitPointOf(whole: string, frac: string)
    requires '.' !in whole && '.' !in frac
    ensures SplitPoint(whole + "." + frac) == Some((whole, frac))
  {
    SplitAllCons(whole, '.', frac);
    SplitAllNoDelimiter(frac, '.');
  }

  lemma PaddedValue(d: Decimal)
    ensures ValueOf(Padded(d)) == if d.mantissa < 0 then -d.mantissa else d.mantissa
  {
    var digits := NatToString(if d.mantissa < 0 then -d.mantissa else d.mantissa);
    var width := d.scale + 1;
    LeadingZeros(Zeros(if |digits| < width then width - |digits| else 0), digits);
  }

  lemma UnsignedPlain(whole: string, frac: string)
    requires |whole| >= 1 && AllDigits(whole) && AllDigits(frac)
    ensures AllDigits(whole + frac)
    ensures ParseUnsigned(whole + "." + frac) == Some((ValueOf(whole + frac), |frac|))
  {
    ValueOfAppend(whole, frac);
    assert '.' !in whole by { assert forall i :: 0 <= i < |whole| ==> IsDigit(whole[i]); }
    assert '.' !in frac by { assert forall i :: 0 <= i < |frac| ==> IsDigit(frac[i]); }
    SplitPointOf(whole, frac);
  }

  lemma SignedPlain(negative: bool, u: string)
    requires |u| >= 1 && IsDigit(u[0])
    ensures var t := (if negative then "-" else "") + u;
      Unsigned(t) == u && IsNegative(t) == negative
  {
    var t := (if negative then "-" else "") + u;
    if negative {
      assert t[0] == '-' && t[1..] == u;
    } else {
      assert t == u;
    }
  }

  lemma ParseDecimalOf(s: string, negative: bool, v: nat, k: nat)
    requires Trim(s) == s && IsNegative(s) == negative
    requires ParseUnsigned(Unsigned(s)) == Some((v, k))
    ensures ParseDecimal(s) == Some(Normalize(if negative then -(v as int) else v, k))
  {
  }

  /** How parseDouble reads a well-formed plain token: v is the value of all its digits. */
  lemma ParsePlain(negative: bool, whole: string, frac: string, s: string, v: nat)
    requires |whole| >= 1 && AllDigits(whole) && |frac| >= 1 && AllDigits(frac)
    requires s == (if negative then "-" else "") + (whole + "." + frac)
    requires AllDigits(whole + frac) && v == ValueOf(whole + frac)
    ensures ParseDecimal(s) == Some(Normalize(if negative then -(v as int) else v, |frac|))
  {
    var u := whole + "." + frac;
    UnsignedPlain(whole, frac);
    SignedPlain(negative, u);
    assert s[0] == (if negative then '-' else whole[0]);
    assert s[|s| - 1] == frac[|frac| - 1];
    TrimNoop(s);
    ParseDecimalOf(s, negative, v, |frac|);
  }

  lemma TimesTen(m: int)
    ensures (m * 10) % 10 == 0 && (m * 10) / 10 == m
  {
  }

  /** The pieces ShowDecimal glues together. */
  lemma ShowPieces(d: Decimal, p: string, whole: string, frac: string)
    requires p == Padded(d)
    requires whole == p[..|p| - d.scale]
    requires frac == if d.scale == 0 then "0" else p[|p| - d.scale..]
    ensures ShowDecimal(d) == (if d.mantissa < 0 then "-" else "") + (whole + "." + frac)
    ensures AllDigits(whole) && AllDigits(frac) && |whole| >= 1 && |frac| >= 1
    ensures d.scale == 0 ==> whole == p
    ensures d.scale > 0 ==> whole + frac == p
  {
    if d.scale > 0 {
      assert p[..|p| - d.scale] + p[|p| - d.scale..] == p;
    } else {
      assert p[..|p|] == p;
    }
  }

  /** parseDouble reads back exactly what toString wrote. */
  lemma ParseShow(d: Decimal)
    requires Normal(d)
    ensures ParseDecimal(ShowDecimal(d)) == Some(d)
  {
    if d.scale == 0 {
      ParseShowWhole(d);
    } else {
      ParseShowFraction(d);
    }
  }

  /** ParseShow for a whole amount, written with the fraction ".0". */
  lemma ParseShowWhole(d: Decimal)
    requires Normal(d) && d.scale == 0
    ensures ParseDecimal(ShowDecimal(d)) == Some(d)
  {
    var p := Padded(d);
    assert p[..|p|] == p;
    ShowPieces(d, p, p, "0");
    PaddedValue(d);
    ZeroDigit(p);
    var v := ValueOf(p + "0");
    ParsePlain(d.mantissa < 0, p, "0", ShowDecimal(d), v);
    var m := if d.mantissa < 0 then -(v as int) else v;
    assert m == d.mantissa * 10;
    ShowWholeValue(d, m);
  }

  /** ParseShow for an amount with digits after the point. */
  lemma ParseShowFraction(d: Decimal)
    requires Normal(d) && d.scale > 0
    ensures ParseDecimal(ShowDecimal(d)) == Some(d)
  {
    var p := Padded(d);
    var whole, frac := p[..|p| - d.scale], p[|p| - d.scale..];
    ShowPieces(d, p, whole, frac);
    PaddedValue(d);
    var v := ValueOf(p);
    ParsePlain(d.mantissa < 0, whole, frac, ShowDecimal(d), v);
    assert (if d.mantissa < 0 then -(v as int) else v) == d.mantissa;
    assert |frac| == d.scale;
    NormalizeNormal(d);
  }

  /** A whole amount is written with the fraction ".0", which normalising removes again. */
  lemma ShowWholeValue(d: Decimal, m: int)
    requires d.scale == 0 && m == d.mantissa * 10
    ensures Normalize(m, 1) == d
  {
    TimesTen(d.mantissa);
  }

  /** Appending the digit 0 multiplies by ten. */
  lemma ZeroDigit(s: string)
    requires AllDigits(s)
    ensures AllDigits(s + "0") && ValueOf(s + "0") == 10 * ValueOf(s)
  {
    assert (s + "0")[..|s|] == s;
  }

  lemma ShowWholeAmount()
    ensures ShowDecimal(Decimal(600, 0)) == "600.0"
  {
    assert NatToString(600) == "600";
  }

  lemma ShowHalf()
    ensures ShowDecimal(Decimal(75, 1)) == "7.5"
  {
    assert NatToString(75) == "75";
  }

  lemma ShowSmallNegative()
    ensures ShowDecimal(Decimal(-5, 2)) == "-0.05"
  {
    assert Padded(Decimal(-5, 2)) == "005";
  }
}
