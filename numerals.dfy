/** Decimal numerals: the strings `float()` accepts and the numeric literals of
    Python expressions, both read as exact `real` values. */
module Numerals {
  import opened Outcomes
  import opened PyText

  function Pow10(n: nat): (p: nat)
    ensures p >= 1
  {
    if n == 0 then 1 else 10 * Pow10(n - 1)
  }

  /** The number of decimal digits that start `s`. */
  function DigitPrefixLength(s: string): (n: nat)
    ensures n <= |s| && AllDigits(s[..n])
    ensures n == |s| || !IsDigit(s[n])
  {
    if s == [] || !IsDigit(s[0]) then 0
    else
      var n := 1 + DigitPrefixLength(s[1..]);
      assert s[..n] == [s[0]] + s[1..][..n - 1];
      n
  }

  lemma {:induction false} DigitPrefixOfDigits(s: string, rest: string)
    requires AllDigits(s)
    requires rest == [] || !IsDigit(rest[0])
    ensures DigitPrefixLength(s + rest) == |s|
  {
    if s != [] {
      assert (s + rest)[0] == s[0];
      assert (s + rest)[1..] == s[1..] + rest;
      DigitPrefixOfDigits(s[1..], rest);
    }
  }

  /** The value of the numeral `ip.fp`. */
  function DecimalValue(ip: string, fp: string): real
    requires AllDigits(ip) && AllDigits(fp)
  {
    DigitsValue(ip) as real + DigitsValue(fp) as real / Pow10(|fp|) as real
  }

  /** The unsigned part of a `float()` argument: digits, optionally a point and more
      digits, with at least one digit in all. */
  function UnsignedDecimal(s: string): Option<real> {
    var j := DigitPrefixLength(s);
    if j == |s| then
      if j > 0 then Some(DigitsValue(s) as real) else None
    else if s[j] == '.' && AllDigits(s[j + 1..]) && (j > 0 || j + 1 < |s|) then
      Some(DecimalValue(s[..j], s[j + 1..]))
    else None
  }

  /** `float(s)` on decimal input: surrounding whitespace is ignored, one sign is
      allowed, and anything else raises ValueError. */
  function ParseFloat(s: string): (r: Result<real>)
    ensures r.Err? ==> r.error == ValueError
  {
    FloatOfStripped(Strip(s))
  }

  /** `float()` once the whitespace is gone. */
  function FloatOfStripped(t: string): (r: Result<real>)
    ensures r.Err? ==> r.error == ValueError
  {
    var negative := |t| > 0 && t[0] == '-';
    var body := if |t| > 0 && (t[0] == '+' || t[0] == '-') then t[1..] else t;
    match UnsignedDecimal(body)
    case None => Err(ValueError)
    case Some(v) => Ok(if negative then -v else v)
  }

  /** `str(i)` for an integer. */
  function IntToString(i: int): string {
    if i < 0 then "-" + NatToString(-i) else NatToString(i)
  }

  /** A run of digits is an unsigned numeral of its own value. */
  lemma UnsignedDigits(ds: string)
    requires |ds| > 0 && AllDigits(ds)
    ensures UnsignedDecimal(ds) == Some(DigitsValue(ds) as real)
  {
    DigitPrefixOfDigits(ds, "");
    assert ds + "" == ds;
  }

  /** `str()` of an integer has no whitespace at either end. */
  lemma StripIntToString(i: int)
    ensures Strip(IntToString(i)) == IntToString(i)
  {
    var ds := NatToString(if i < 0 then -i else i);
    var s := IntToString(i);
    assert IsDigit(ds[|ds| - 1]) && s[|s| - 1] == ds[|ds| - 1];
    assert i >= 0 ==> IsDigit(s[0]);
    StripTrimmed(s);
  }

  /** `float()` reads back the numeral `str()` writes for an integer. */
  lemma ParseFloatIntToString(i: int)
    ensures ParseFloat(IntToString(i)) == Ok(i as real)
  {
    var ds := NatToString(if i < 0 then -i else i);
    UnsignedDigits(ds);
    var s := IntToString(i);
    if i < 0 {
      assert s[0] == '-' && s[1..] == ds;
    } else {
      assert IsDigit(s[0]);
    }
    assert FloatOfStripped(s) == Ok(i as real);
    StripIntToString(i);
  }

  predicate AllZeros(s: string) {
    forall i :: 0 <= i < |s| ==> s[i] == '0'
  }

  /** The numeric literal at the start of `s` in a Python expression and how many
      characters it takes: the longest run of digits, optionally followed by a point
      and digits. A decimal integer literal of more than one digit may not start
      with `0` unless it is all zeros (Python's tokenizer rejects `08`), and one of
      more than `MaxStrDigits` digits is rejected when the text is compiled, since
      the compiler converts it with `int()`. */
  function NumberLiteral(s: string): (r: Result<(real, nat)>)
    requires |s| > 0 && (IsDigit(s[0]) || (s[0] == '.' && |s| > 1 && IsDigit(s[1])))
    ensures r.Ok? ==> 0 < r.value.1 <= |s|
    ensures r.Err? ==> r.error == SyntaxError
  {
    var j := DigitPrefixLength(s);
    if j < |s| && s[j] == '.' then
      var k := DigitPrefixLength(s[j + 1..]);
      assert s[j + 1..][..k] == s[j + 1..j + 1 + k];
      Ok((DecimalValue(s[..j], s[j + 1..j + 1 + k]), j + 1 + k))
    else if j > 1 && s[0] == '0' && !AllZeros(s[..j]) then Err(SyntaxError)
    else if j > MaxStrDigits then Err(SyntaxError)
    else Ok((DigitsValue(s[..j]) as real, j))
  }

  /** A numeral written by `str()` is one whole literal, whatever non-digit follows it. */
  lemma NumberLiteralOfNat(n: nat, rest: string)
    requires |NatToString(n)| <= MaxStrDigits
    requires rest == [] || (!IsDigit(rest[0]) && rest[0] != '.')
    ensures NumberLiteral(NatToString(n) + rest) == Ok((n as real, |NatToString(n)|))
  {
    var ds := NatToString(n);
    var s := ds + rest;
    DigitPrefixOfDigits(ds, rest);
    assert s[..|ds|] == ds;
    if |ds| > 1 {
      assert s[0] == ds[0] != '0';
    }
  }
}
