/**
 * Decimal rendering of integers, as Python's `str(int)` and the `%03d`
 * zero-padded form that `strftime("%j")` produces, together with a parser
 * that inverts them.
 */
module Decimal {
  import opened Wrappers

  predicate IsDigit(c: char) {
    '0' <= c <= '9'
  }

  predicate AllDigits(s: string) {
    forall i :: 0 <= i < |s| ==> IsDigit(s[i])
  }

  function DigitChar(d: nat): (c: char)
    requires d < 10
    ensures IsDigit(c) && c as int - '0' as int == d
  {
    ('0' as int + d) as char
  }

  function DigitValue(c: char): (d: nat)
    requires IsDigit(c)
    ensures d < 10 && DigitChar(d) == c
  {
    c as int - '0' as int
  }

  /** The value of a string of decimal digits, most significant first; "" reads as 0. */
  function DigitsValue(s: string): nat
    requires AllDigits(s)
  {
    if s == [] then 0 else DigitsValue(s[..|s| - 1]) * 10 + DigitValue(s[|s| - 1])
  }

  function Pow10(k: nat): (p: nat)
    ensures p >= 1
  {
    if k == 0 then 1 else 10 * Pow10(k - 1)
  }

  /** `str(n)` for a non-negative integer: digits only, no leading zero. */
  function NatToString(n: nat): (s: string)
    ensures 1 <= |s| && AllDigits(s)
    ensures |s| > 1 ==> s[0] != '0'
    ensures |s| == 1 <==> n < 10
  {
    if n < 10 then [DigitChar(n)] else NatToString(n / 10) + [DigitChar(n % 10)]
  }

  /** `str(i)` for any integer: a minus sign before the digits of a negative value. */
  function IntToString(i: int): (s: string)
    ensures 1 <= |s|
    ensures i >= 0 ==> AllDigits(s)
    ensures i < 0 ==> s[0] == '-' && AllDigits(s[1..])
  {
    if i < 0 then "-" + NatToString(-i) else NatToString(i)
  }

  /** Reads back what IntToString writes: an optional minus sign and at least one digit. */
  function ParseInt(s: string): (r: Option<int>)
    ensures r.Some? ==> 1 <= |s|
  {
    if 2 <= |s| && s[0] == '-' && AllDigits(s[1..]) then Some(-(DigitsValue(s[1..]) as int))
    else if 1 <= |s| && AllDigits(s) then Some(DigitsValue(s))
    else None
  }

  /** A run of `k` zero characters. */
  function Zeros(k: nat): (s: string)
    ensures |s| == k && AllDigits(s)
    ensures forall i :: 0 <= i < k ==> s[i] == '0'
  {
    if k == 0 then [] else Zeros(k - 1) + ['0']
  }

  /** `%03d` for a value below 1000: the decimal digits padded on the left with zeros to width three. */
  function Pad3(n: nat): (s: string)
    requires n < 1000
    ensures |s| == 3 && AllDigits(s)
  {
    NatToStringLength(n, 3);
    Zeros(3 - |NatToString(n)|) + NatToString(n)
  }

  /** Pad3 keeps the value and ends with the unpadded digits, the rest being zeros. */
  lemma Pad3Value(n: nat)
    requires n < 1000
    ensures DigitsValue(Pad3(n)) == n
    ensures |NatToString(n)| <= 3 && Pad3(n)[3 - |NatToString(n)|..] == NatToString(n)
    ensures forall i :: 0 <= i < 3 - |NatToString(n)| ==> Pad3(n)[i] == '0'
  {
    var digits := NatToString(n);
    NatToStringLength(n, 3);
    NatToStringValue(n);
    LeadingZeros(3 - |digits|, digits);
  }

  lemma {:induction false} NatToStringValue(n: nat)
    ensures DigitsValue(NatToString(n)) == n
  {
    if n >= 10 {
      var s := NatToString(n);
      NatToStringValue(n / 10);
      assert s[..|s| - 1] == NatToString(n / 10);
      assert s[|s| - 1] == DigitChar(n % 10);
    }
  }

  /** A string of `k` digits denotes a value below 10^k. */
  lemma {:induction false} DigitsValueBound(s: string)
    requires AllDigits(s)
    ensures DigitsValue(s) < Pow10(|s|)
  {
    if s != [] {
      DigitsValueBound(s[..|s| - 1]);
    }
  }

  lemma {:induction false} NatToStringLength(n: nat, k: nat)
    requires 1 <= k && n < Pow10(k)
    ensures |NatToString(n)| <= k
  {
    if n >= 10 {
      assert k >= 2 by {
        if k == 1 {
          assert false;
        }
      }
      NatToStringLength(n / 10, k - 1);
    }
  }

  /** Leading zeros do not change the value of a digit string. */
  lemma {:induction false} LeadingZeros(k: nat, s: string)
    requires AllDigits(s)
    ensures DigitsValue(Zeros(k) + s) == DigitsValue(s)
  {
    if s == [] {
      ZerosValue(k);
      assert Zeros(k) + s == Zeros(k);
    } else {
      var t := Zeros(k) + s;
      assert t[..|t| - 1] == Zeros(k) + s[..|s| - 1];
      LeadingZeros(k, s[..|s| - 1]);
    }
  }

  lemma {:induction false} ZerosValue(k: nat)
    ensures DigitsValue(Zeros(k)) == 0
  {
    if k > 0 {
      assert Zeros(k)[..k - 1] == Zeros(k - 1);
      ZerosValue(k - 1);
    }
  }

  /** ParseInt inverts IntToString. */
  lemma IntToStringRoundTrip(i: int)
    ensures ParseInt(IntToString(i)) == Some(i)
  {
    var s := IntToString(i);
    if i < 0 {
      var digits := NatToString(-i);
      assert s == "-" + digits;
      assert s[1..] == digits;
      NatToStringValue(-i);
      assert 2 <= |s| && s[0] == '-' && AllDigits(s[1..]);
    } else {
      NatToStringValue(i);
      assert IsDigit(s[0]);
      assert !(2 <= |s| && s[0] == '-');
    }
  }

  /** A decimal rendering never contains a slash, so it is a single path component. */
  lemma IntToStringNoSlash(i: int)
    ensures '/' !in IntToString(i)
  {
    var s := IntToString(i);
    if i >= 0 {
      assert forall k :: 0 <= k < |s| ==> IsDigit(s[k]);
    } else {
      var digits := s[1..];
      assert forall k :: 0 <= k < |digits| ==> IsDigit(digits[k]);
      assert s == "-" + digits;
    }
  }
}
