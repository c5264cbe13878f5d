/**
 Argument normalisation, `_arg_to_str_list`: a single station id or text
 type (an `int` or a `str`), or an iterable of them, becomes a list of strings
 by applying Python's `str` to each.

 `str` of an `int` is its decimal numeral; `DecimalValue` decodes such a
 numeral, and `DecimalRoundTrip` shows the encoding loses nothing. Python's
 `bool` is a subclass of `int`, so `True`/`False` pass the `int` test and
 render as `"True"`/`"False"`.
 */
module Args {
  import opened Wrappers

  /** One value of an argument: an `int`, a `bool` (an `int` to Python), or a `str`. */
  datatype Scalar = IntVal(n: int) | BoolVal(b: bool) | StrVal(s: string)

  /** The argument: a single scalar, or an iterable of scalars in iteration order. */
  datatype Arg = One(x: Scalar) | Many(xs: seq<Scalar>)

  predicate IsDigit(c: char) {
    '0' <= c <= '9'
  }

  /** Every character of `s` is a decimal digit. */
  predicate AllDigits(s: string) {
    forall i | 0 <= i < |s| :: IsDigit(s[i])
  }

  function DigitChar(d: nat): (c: char)
    requires d < 10
    ensures IsDigit(c)
  {
    ('0' as int + d) as char
  }

  function DigitValue(c: char): (d: nat)
    requires IsDigit(c)
    ensures d < 10
    ensures DigitChar(d) == c
  {
    c as int - '0' as int
  }

  /** The decimal numeral of `n`: non-empty, digits only, no leading zero. */
  function NatToDecimal(n: nat): (s: string)
    ensures |s| >= 1
    ensures AllDigits(s)
    ensures s[0] == '0' ==> n == 0 && |s| == 1
  {
    if n < 10 then [DigitChar(n)]
    else NatToDecimal(n / 10) + [DigitChar(n % 10)]
  }

  /** A numeral in the form `str` writes: an optional `-`, then digits with
      no leading zero; a lone `0` is the only numeral starting with `0`, and
      `-0` is not canonical. */
  predicate Canonical(s: string) {
    if |s| >= 1 && s[0] == '-' then |s| >= 2 && AllDigits(s[1..]) && s[1] != '0'
    else |s| >= 1 && AllDigits(s) && (s[0] == '0' ==> |s| == 1)
  }

  /** Python's `str(n)` for an `int` `n`. */
  function IntToDecimal(n: int): (s: string)
    ensures Canonical(s)
    ensures n < 0 <==> s[0] == '-'
  {
    if n < 0 then "-" + NatToDecimal(-n) else NatToDecimal(n)
  }

  /** The value of a string of digits (0 for the empty string). */
  function DigitsValue(s: string): (v: nat)
    requires AllDigits(s)
  {
    if |s| == 0 then 0
    else DigitsValue(s[..|s| - 1]) * 10 + DigitValue(s[|s| - 1])
  }

  /** Decodes an optionally signed decimal numeral; `None` for anything else. */
  function DecimalValue(s: string): (r: Option<int>)
    ensures r.Some? ==> |s| >= 1
  {
    if |s| >= 2 && s[0] == '-' && AllDigits(s[1..]) then Some(0 - DigitsValue(s[1..]) as int)
    else if |s| >= 1 && AllDigits(s) then Some(DigitsValue(s))
    else None
  }

  /** Decoding the numeral of a natural number gives it back. */
  lemma {:induction false} NatRoundTrip(n: nat)
    ensures DigitsValue(NatToDecimal(n)) == n
  {
    if n >= 10 {
      var s := NatToDecimal(n);
      assert s[..|s| - 1] == NatToDecimal(n / 10);
      NatRoundTrip(n / 10);
    }
  }

  /** `str` on an `int` is decoded back to the same `int`. */
  lemma DecimalRoundTrip(n: int)
    ensures DecimalValue(IntToDecimal(n)) == Some(n)
  {
    var s := IntToDecimal(n);
    if n < 0 {
      var digits := NatToDecimal(-n);
      assert s[1..] == digits;
      assert AllDigits(s[1..]);
      NatRoundTrip(-n);
    } else {
      assert AllDigits(s);
      NatRoundTrip(n);
    }
  }

  /** A digit string without a leading zero has a positive value. */
  lemma {:induction false} LeadingDigitPositive(s: string)
    requires |s| >= 1 && AllDigits(s) && s[0] != '0'
    ensures DigitsValue(s) >= 1
  {
    if |s| > 1 {
      assert s[..|s| - 1][0] == s[0];
      LeadingDigitPositive(s[..|s| - 1]);
    }
  }

  /** A digit string without a leading zero is the numeral of its value. */
  lemma {:induction false} CanonicalDigitsAreNumeral(s: string)
    requires |s| >= 1 && AllDigits(s) && (s[0] == '0' ==> |s| == 1)
    ensures NatToDecimal(DigitsValue(s)) == s
  {
    var p := s[..|s| - 1];
    var v := DigitsValue(s);
    if |p| == 0 {
      assert s == [DigitChar(DigitValue(s[0]))];
    } else {
      assert p[0] == s[0];
      LeadingDigitPositive(p);
      CanonicalDigitsAreNumeral(p);
      assert v / 10 == DigitsValue(p) && v % 10 == DigitValue(s[|s| - 1]);
      assert s == p + [s[|s| - 1]];
    }
  }

  /** A canonical numeral is fixed by its value: it is exactly `str` of the
      integer it decodes to. */
  lemma CanonicalIsStr(t: string, n: int)
    requires Canonical(t) && DecimalValue(t) == Some(n)
    ensures t == IntToDecimal(n)
  {
    if t[0] == '-' {
      var digits := t[1..];
      assert digits[0] == t[1];
      LeadingDigitPositive(digits);
      CanonicalDigitsAreNumeral(digits);
      assert t == "-" + digits;
    } else {
      CanonicalDigitsAreNumeral(t);
    }
  }

  /** Python's `str` on one scalar. */
  function ScalarToStr(x: Scalar): string {
    match x
    case IntVal(n) => IntToDecimal(n)
    case BoolVal(b) => if b then "True" else "False"
    case StrVal(s) => s
  }

  /** The string `t` is what Python's `str` renders `x` as: the canonical
      numeral that decodes to the integer, the bool's name, or the string
      itself. */
  predicate Renders(t: string, x: Scalar) {
    match x
    case IntVal(n) => Canonical(t) && DecimalValue(t) == Some(n)
    case BoolVal(b) => t == (if b then "True" else "False")
    case StrVal(s) => t == s
  }

  /** `Renders` admits exactly one string per scalar, the one `str` makes. */
  lemma RendersIsStr(t: string, x: Scalar)
    requires Renders(t, x)
    ensures t == ScalarToStr(x)
  {
    if x.IntVal? {
      CanonicalIsStr(t, x.n);
    }
  }

  /** The scalars an argument stands for, in order. */
  function Items(arg: Arg): seq<Scalar> {
    match arg
    case One(x) => [x]
    case Many(xs) => xs
  }

  /** `_arg_to_str_list`: one string per scalar, in the argument's order. */
  function ArgToStrList(arg: Arg): (r: seq<string>)
    ensures arg.One? ==> |r| == 1
    ensures arg.Many? ==> |r| == |arg.xs|
    ensures forall i | 0 <= i < |r| :: Renders(r[i], Items(arg)[i])
  {
    var items := Items(arg);
    var r := seq(|items|, i requires 0 <= i < |items| => ScalarToStr(items[i]));
    assert forall i | 0 <= i < |r| :: Renders(r[i], items[i]) by {
      forall i | 0 <= i < |r|
        ensures Renders(r[i], items[i])
      {
        if items[i].IntVal? {
          DecimalRoundTrip(items[i].n);
        }
      }
    }
    r
  }
}
