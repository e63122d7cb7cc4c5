/** Decimal text of numbers: `Number.prototype.toString` on non-negative integers and
    `parseInt(s, 10)`. */
module Decimal {
  import opened JsValues
  import opened Text

  function DigitChar(d: nat): (c: char)
    requires d < 10
    ensures IsDigit(c)
  {
    ('0' as int + d) as char
  }

  function DigitValue(c: char): (d: nat)
    requires IsDigit(c)
    ensures d < 10 && DigitChar(d) == c
  {
    c as int - '0' as int
  }

  /** The decimal text of `n`, as `String(n)` or a template literal gives it: digits only,
      and no leading zero unless the number is 0. */
  function NatToString(n: nat): (s: string)
    ensures |s| >= 1 && AllDigits(s)
    ensures n >= 1 ==> s[0] != '0'
    decreases n
  {
    if n < 10 then [DigitChar(n)] else NatToString(n / 10) + [DigitChar(n % 10)]
  }

  /** The value of a string of decimal digits, most significant first. */
  function DigitsValue(s: string): nat
    requires AllDigits(s)
    decreases |s|
  {
    if |s| == 0 then 0 else DigitsValue(s[..|s| - 1]) * 10 + DigitValue(s[|s| - 1])
  }

  /** Reading back the decimal text of `n` gives `n`. */
  lemma {:induction false} NatToStringValue(n: nat)
    ensures DigitsValue(NatToString(n)) == n
    decreases n
  {
    if n >= 10 {
      NatToStringValue(n / 10);
      var s := NatToString(n);
      assert s[..|s| - 1] == NatToString(n / 10);
    }
  }

  /** Distinct numbers have distinct decimal texts. */
  lemma NatToStringInjective(m: nat, n: nat)
    ensures NatToString(m) == NatToString(n) ==> m == n
  {
    NatToStringValue(m);
    NatToStringValue(n);
  }

  /** Numbered names such as `<head>.<n>.png` are distinct for distinct numbers: the same
      text around two decimal texts gives the same name only for the same number. */
  lemma NumberedNameInjective(prefix: string, m: nat, n: nat, suffix: string)
    ensures prefix + NatToString(m) + suffix == prefix + NatToString(n) + suffix ==> m == n
  {
    var sm := NatToString(m);
    var sn := NatToString(n);
    var a := prefix + sm + suffix;
    var b := prefix + sn + suffix;
    if a == b {
      assert |sm| == |sn|;
      assert sm == a[|prefix|..|prefix| + |sm|];
      assert sn == b[|prefix|..|prefix| + |sn|];
    }
    NatToStringInjective(m, n);
  }

  /** The longest prefix of `s` made of decimal digits. */
  function LeadingDigits(s: string): (d: string)
    ensures |d| <= |s| && d == s[..|d|] && AllDigits(d)
    ensures |d| < |s| ==> !IsDigit(s[|d|])
    decreases |s|
  {
    if |s| > 0 && IsDigit(s[0]) then [s[0]] + LeadingDigits(s[1..]) else ""
  }

  /** `parseInt(s, 10)`: skips leading white space, takes an optional sign, then the
      longest run of digits; NaN when that run is empty. */
  function ParseInt(s: string): (r: Num)
    ensures |s| > 0 && AllDigits(s) ==> r == Finite(DigitsValue(s))
    ensures '-' !in s && r.Finite? ==> r.value >= 0
    ensures |s| == 0 ==> r == NaN
  {
    var t := TrimStart(s);
    var negative := |t| > 0 && t[0] == '-';
    var unsigned := if |t| > 0 && (t[0] == '-' || t[0] == '+') then t[1..] else t;
    var digits := LeadingDigits(unsigned);
    assert |s| > 0 && AllDigits(s) ==> digits == s by {
      if |s| > 0 && AllDigits(s) {
        assert t == s;
        assert |digits| == |s|;
      }
    }
    assert negative ==> '-' in s by {
      if negative {
        assert t[0] == s[|s| - |t|];
      }
    }
    if digits == "" then NaN
    else if negative then Finite(-(DigitsValue(digits) as int))
    else Finite(DigitsValue(digits))
  }

  /** `parseInt` reads back what `toString` wrote. */
  lemma ParseIntOfNatToString(n: nat)
    ensures ParseInt(NatToString(n)) == Finite(n)
  {
    NatToStringValue(n);
  }
}
