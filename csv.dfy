/**
 * Rows of Python's csv.DictReader and the conversions the Python tools apply
 * to their text fields: int(), float(), str.isdigit(), and the rows that
 * csv.writer produces. A row has a key for every header column; a field a
 * short line does not reach reads back as None.
 */
module Csv {
  import opened Wrappers
  import opened Numerals

  /** One csv.DictReader row: header column name to field text, None past the end of a short line. */
  type Row = map<string, Option<string>>

  /** row.get(key, default): the field, or the default when the header has no such column. */
  function Get(r: Row, key: string, default: string): Option<string> {
    if key in r then r[key] else Some(default)
  }

  function TrimEnd(s: string): (t: string)
    ensures t == [] || !IsBlank(t[|t| - 1])
    decreases |s|
  {
    if s != [] && IsBlank(s[|s| - 1]) then TrimEnd(s[..|s| - 1]) else s
  }

  function Strip(s: string): string {
    TrimEnd(TrimStart(s))
  }

  lemma StripUnchanged(s: string)
    requires s != [] && !IsBlank(s[0]) && !IsBlank(s[|s| - 1])
    ensures Strip(s) == s
  {
  }

  /** str.isdigit() over ASCII text: non-empty and all digits. */
  predicate IsDigitText(s: string) {
    |s| > 0 && AllDigits(s)
  }

  /**
   * Python's int(s) on a str, for plain decimal text: surrounding blanks, an
   * optional sign, then ASCII digits. Underscores between digits and other
   * Unicode digits are not modelled and also give None.
   */
  function PyInt(s: string): Option<int> {
    var t := Strip(s);
    if |t| > 0 && (t[0] == '+' || t[0] == '-') then
      if IsDigitText(t[1..]) then
        Some(if t[0] == '-' then -(DigitsValue(t[1..]) as int) else DigitsValue(t[1..]))
      else None
    else if IsDigitText(t) then Some(DigitsValue(t))
    else None
  }

  /** int() of text that str.isdigit() accepts is the text's decimal value. */
  lemma PyIntOfDigitText(s: string)
    requires IsDigitText(s)
    ensures PyInt(s) == Some(DigitsValue(s) as int)
  {
    StripUnchanged(s);
  }

  /** Whatever str() writes for an integer, int() reads back. */
  lemma PyIntOfIntToString(n: int)
    ensures PyInt(IntToString(n)) == Some(n)
  {
    var s := IntToString(n);
    StripUnchanged(s);
    if n < 0 {
      assert s[1..] == NatToDigits(-n);
      NatToDigitsValue(-n);
    } else {
      NatToDigitsValue(n);
    }
  }

  function Pow10(n: nat): (p: nat)
    ensures p > 0
  {
    if n == 0 then 1 else 10 * Pow10(n - 1)
  }

  /** The value of the digits after a decimal point. */
  function Fraction(frac: string): real
    requires AllDigits(frac)
  {
    DigitsValue(frac) as real / Pow10(|frac|) as real
  }

  /** The value of the numeral whole.frac. */
  function FixedValue(whole: string, frac: string): real
    requires AllDigits(whole) && AllDigits(frac)
  {
    DigitsValue(whole) as real + Fraction(frac)
  }

  /** Unsigned decimal text: digits with at most one '.', and at least one digit. */
  function UnsignedDecimal(u: string): Option<real> {
    var k := DigitPrefixLen(u);
    if k == |u| then
      (if k > 0 then Some(DigitsValue(u) as real) else None)
    else if u[k] == '.' && AllDigits(u[k + 1..]) && (k > 0 || k + 1 < |u|) then
      Some(FixedValue(u[..k], u[k + 1..]))
    else None
  }

  /**
   * Python's float(s) on a str, for plain decimal text: blanks, an optional
   * sign, then unsigned decimal text. Exponents, underscores, inf and nan are
   * not modelled and also give None.
   */
  function PyFloat(s: string): Option<real> {
    var t := Strip(s);
    if |t| > 0 && (t[0] == '+' || t[0] == '-') then
      match UnsignedDecimal(t[1..])
      case None => None
      case Some(v) => Some(if t[0] == '-' then -v else v)
    else UnsignedDecimal(t)
  }

  lemma UnsignedDecimalOfFixed(d: string, b: string)
    requires |d| > 0 && AllDigits(d) && |b| > 0 && AllDigits(b)
    ensures UnsignedDecimal(d + "." + b) == Some(FixedValue(d, b))
  {
    var u := d + "." + b;
    DigitPrefixLenOfDigits(d, "." + b);
    assert u == d + ("." + b);
    var k := DigitPrefixLen(u);
    assert k == |d| && u[k] == '.';
    assert u[..k] == d;
    assert u[k + 1..] == b;
  }

  /** A fixed-point numeral "a.b" reads back as a + b / 10^|b|. */
  lemma PyFloatOfFixed(a: nat, b: string)
    requires |b| > 0 && AllDigits(b)
    ensures PyFloat(NatToDigits(a) + "." + b) == Some(a as real + Fraction(b))
  {
    var d := NatToDigits(a);
    var s := d + "." + b;
    assert s[0] == d[0] && s[|s| - 1] == b[|b| - 1];
    StripUnchanged(s);
    assert IsDigit(s[0]);
    assert PyFloat(s) == UnsignedDecimal(s);
    UnsignedDecimalOfFixed(d, b);
    NatToDigitsValue(a);
  }

  /**
   * int(row.get(key, default)), falling back to default where it raises: a
   * missing column gives int(default), a None field or bad text the default.
   */
  function IntOr(r: Row, key: string, default: int): (n: int)
    ensures IntField(r, key).Some? ==> n == IntField(r, key).value
    ensures IntField(r, key).None? ==> n == default
  {
    if key !in r then default
    else match r[key]
      case None => default
      case Some(text) => PyInt(text).GetOr(default)
  }

  /** int(row[key]): None where the lookup (no such column) or the conversion (None or bad text) raises. */
  function IntField(r: Row, key: string): Option<int> {
    if key in r && r[key].Some? then PyInt(r[key].value) else None
  }

  /** float(row[key]): None where the lookup or the conversion raises. */
  function FloatField(r: Row, key: string): Option<real> {
    if key in r && r[key].Some? then PyFloat(r[key].value) else None
  }

  /** The text of one csv.writer row whose fields need no quoting. */
  function Join(fields: seq<string>): string
    decreases |fields|
  {
    if fields == [] then "" else if |fields| == 1 then fields[0] else fields[0] + "," + Join(fields[1..])
  }

  predicate StrictlyIncreasing(s: seq<int>) {
    forall i, j :: 0 <= i < j < |s| ==> s[i] < s[j]
  }

  /** Appending a value above the last keeps a sequence strictly increasing. */
  lemma AppendLarger(s: seq<int>, x: int)
    requires StrictlyIncreasing(s) && (s == [] || s[|s| - 1] < x)
    ensures StrictlyIncreasing(s + [x])
  {
    var t := s + [x];
    forall i, j | 0 <= i < j < |t|
      ensures t[i] < t[j]
    {
      if j == |s| {
        assert s[i] <= s[|s| - 1];
      }
    }
  }

  lemma MinExists(s: set<int>)
    requires s != {}
    ensures exists m :: m in s && forall x :: x in s ==> m <= x
    decreases |s|
  {
    if forall x :: x !in s {
      assert false;
    }
    var y :| y in s;
    var rest := s - {y};
    assert s == rest + {y};
    if rest == {} {
      assert s == {y};
    } else {
      MinExists(rest);
      var m :| m in rest && forall x :: x in rest ==> m <= x;
      var least := if y < m then y else m;
      forall x | x in s
        ensures least <= x
      {
        if x != y {
          assert x in rest;
        }
      }
    }
  }

  function MinOf(s: set<int>): (m: int)
    requires s != {}
    ensures m in s && forall x :: x in s ==> m <= x
  {
    MinExists(s);
    var m :| m in s && forall x :: x in s ==> m <= x; m
  }

  /** Python's sorted() over the keys of a dict of ints. */
  function SortedKeys(s: set<int>): (r: seq<int>)
    ensures |r| == |s| && StrictlyIncreasing(r)
    ensures forall x :: x in r <==> x in s
    decreases |s|
  {
    if s == {} then []
    else
      var m := MinOf(s);
      [m] + SortedKeys(s - {m})
  }
}
