/** Python's `int(text)` on decimal text, and the decimal rendering that
    git uses when it prints a count. */
module PyInt {
  import opened Wrappers
  import PyStr

  predicate IsDigit(c: char)
  {
    '0' <= c <= '9'
  }

  function DigitValue(c: char): nat
    requires IsDigit(c)
  {
    c as int - '0' as int
  }

  function DigitChar(d: nat): (c: char)
    requires d < 10
    ensures IsDigit(c) && DigitValue(c) == d
  {
    ('0' as int + d) as char
  }

  /** The digits of a Python integer literal: a digit, then digits each
      optionally preceded by a single underscore ("1_000" but not "1__0",
      "_1" or "1_"). */
  predicate DigitGroup(r: string)
  {
    && |r| > 0
    && IsDigit(r[0])
    && IsDigit(r[|r| - 1])
    && forall i :: 0 <= i < |r| ==> IsDigit(r[i]) || (r[i] == '_' && i + 1 < |r| && IsDigit(r[i + 1]))
  }

  /** The value of a digit group; underscores carry no value. */
  function DigitsValue(r: string): nat
  {
    if r == [] then 0
    else if IsDigit(r[|r| - 1]) then DigitsValue(r[..|r| - 1]) * 10 + DigitValue(r[|r| - 1])
    else DigitsValue(r[..|r| - 1])
  }

  /** `int(text)`: surrounding whitespace, an optional sign, then a digit
      group; None where Python raises ValueError. */
  function ParseInt(text: string): (r: Option<int>)
    ensures r.Some? ==> PyStr.Strip(text) != []
  {
    var t := PyStr.Strip(text);
    if |t| > 0 && (t[0] == '+' || t[0] == '-') then
      if DigitGroup(t[1..]) then
        var v: int := DigitsValue(t[1..]);
        Some(if t[0] == '-' then -v else v)
      else None
    else if DigitGroup(t) then Some(DigitsValue(t))
    else None
  }

  /** `str(n)` for a natural number: most significant digit first, no leading zeros. */
  function Decimal(n: nat): (s: string)
    ensures |s| > 0
    ensures forall i :: 0 <= i < |s| ==> IsDigit(s[i])
  {
    if n < 10 then [DigitChar(n)] else Decimal(n / 10) + [DigitChar(n % 10)]
  }

  lemma {:induction false} DecimalValue(n: nat)
    ensures DigitsValue(Decimal(n)) == n
  {
    if n >= 10 {
      var s := Decimal(n);
      assert s[..|s| - 1] == Decimal(n / 10);
      DecimalValue(n / 10);
    }
  }

  /** What git prints as a count reads back as that count. */
  lemma ParseDecimal(n: nat)
    ensures ParseInt(Decimal(n)) == Some(n)
  {
    var s := Decimal(n);
    assert PyStr.Stripped(s) by {
      assert IsDigit(s[0]) && IsDigit(s[|s| - 1]);
    }
    PyStr.StripKeepsStripped(s);
    assert DigitGroup(s);
    DecimalValue(n);
  }
}
