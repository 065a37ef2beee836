/** Base conversions behind Python's `int(s, 2)`, `int(s, 16)` and `hex(n).upper()`,
    on ASCII digit strings. */
module Radix {
  import opened Text

  predicate IsBit(c: char)
  {
    c == '0' || c == '1'
  }

  /** Python's `all(c in '01' for c in s)`; true of the empty string. */
  predicate AllBits(s: string)
  {
    forall i :: 0 <= i < |s| ==> IsBit(s[i])
  }

  /** The value of a binary digit string, most significant digit first. */
  function BinValue(s: string): nat
    requires AllBits(s)
  {
    if s == [] then 0 else 2 * BinValue(s[..|s| - 1]) + (if s[|s| - 1] == '1' then 1 else 0)
  }

  predicate IsHexDigit(c: char)
  {
    IsDigit(c) || 'a' <= c <= 'f' || 'A' <= c <= 'F'
  }

  /** Python's `int(s, 16)` succeeds (ASCII, no prefix, sign or underscores). */
  predicate AllHexDigits(s: string)
  {
    |s| > 0 && forall i :: 0 <= i < |s| ==> IsHexDigit(s[i])
  }

  function HexDigitValue(c: char): (d: nat)
    requires IsHexDigit(c)
    ensures d < 16
  {
    if IsDigit(c) then DigitValue(c)
    else if 'a' <= c <= 'f' then c as int - 'a' as int + 10
    else c as int - 'A' as int + 10
  }

  function HexValue(s: string): nat
    requires forall i :: 0 <= i < |s| ==> IsHexDigit(s[i])
  {
    if s == [] then 0 else 16 * HexValue(s[..|s| - 1]) + HexDigitValue(s[|s| - 1])
  }

  /** The upper-case hexadecimal digit for `d`. */
  function HexChar(d: nat): (c: char)
    requires d < 16
    ensures IsHexDigit(c) && HexDigitValue(c) == d
    ensures c == UpperChar(c)
  {
    if d < 10 then ('0' as int + d) as char else ('A' as int + d - 10) as char
  }

  /** `hex(n)[2:].upper()`: upper-case digits, no leading zeros, "0" for zero. */
  function HexDigits(n: nat): (r: string)
    ensures |r| >= 1 && forall i :: 0 <= i < |r| ==> IsHexDigit(r[i])
  {
    if n < 16 then [HexChar(n)] else HexDigits(n / 16) + [HexChar(n % 16)]
  }

  /** Upper-case hexadecimal digits with no leading zero (a lone `0` is allowed). */
  predicate IsCanonicalHex(d: string)
  {
    |d| >= 1 && (|d| > 1 ==> d[0] != '0') &&
    forall i :: 0 <= i < |d| ==> IsHexDigit(d[i]) && d[i] == UpperChar(d[i])
  }

  /** `hex(n).upper()` */
  function PyHexUpper(n: nat): (r: string)
    ensures StartsWith(r, "0X") && r[2..] == HexDigits(n)
  {
    "0X" + HexDigits(n)
  }

  /** Reading the digits of `HexDigits(n)` gives `n` back. */
  lemma {:induction false} HexRoundTrip(n: nat)
    ensures HexValue(HexDigits(n)) == n
  {
    if n >= 16 {
      HexRoundTrip(n / 16);
      var r := HexDigits(n);
      assert r[..|r| - 1] == HexDigits(n / 16);
    }
  }

  /** `HexDigits` has no leading zero, and every digit is already upper case. */
  lemma {:induction false} HexDigitsCanonical(n: nat)
    ensures var r := HexDigits(n); (|r| > 1 ==> r[0] != '0') && Upper(r) == r
    ensures IsCanonicalHex(HexDigits(n))
    ensures HexDigits(n) == "0" <==> n == 0
  {
    if n >= 16 {
      HexDigitsCanonical(n / 16);
      var r := HexDigits(n);
      assert r == HexDigits(n / 16) + [HexChar(n % 16)];
      assert Upper(r) == r by {
        forall i | 0 <= i < |r| ensures Upper(r)[i] == r[i] {
          if i < |r| - 1 {
            assert r[i] == HexDigits(n / 16)[i];
            assert Upper(HexDigits(n / 16))[i] == HexDigits(n / 16)[i];
          }
        }
      }
      assert |HexDigits(n)| > 1;
    }
  }

  /** Distinct values have distinct hexadecimal forms. */
  lemma HexDigitsInjective(a: nat, b: nat)
    requires HexDigits(a) == HexDigits(b)
    ensures a == b
  {
    HexRoundTrip(a);
    HexRoundTrip(b);
  }

  /** Python's `int(s, 16)` on ASCII hex digits, `Parsed` only when it succeeds. */
  function ParseHex(s: string): (r: IntParse)
    ensures r.Parsed? <==> AllHexDigits(s)
    ensures r.Parsed? ==> r.value == HexValue(s)
  {
    if AllHexDigits(s) then Parsed(HexValue(s)) else NotAnInt
  }

  /** Every binary string is also a hexadecimal string (with a different value). */
  lemma BitsAreHexDigits(s: string)
    requires AllBits(s)
    ensures forall i :: 0 <= i < |s| ==> IsHexDigit(s[i])
  {
  }

  /** The text `10` read in base 2, 16 and 10. */
  lemma TenInThreeBases(d: string)
    requires |d| == 2 && d[0] == '1' && d[1] == '0'
    ensures AllBits(d) && AllHexDigits(d) && AllDigits(d)
    ensures BinValue(d) == 2 && HexValue(d) == 16 && DecimalValue(d) == 10
  {
    var one := d[..1];
    assert one[..0] == [];
    assert one[0] == '1';
    assert HexValue(one[..0]) == 0;
    assert DecimalValue(one[..0]) == 0;
    assert HexDigitValue(one[0]) == 1;
    assert DigitValue(one[0]) == 1;
    assert BinValue(one) == 1;
    assert HexValue(one) == 1;
    assert DecimalValue(one) == 1;
    assert d[..|d| - 1] == one;
  }
}
