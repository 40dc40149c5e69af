/** Decimal texts of integers. */
module Decimals {

  function DecimalNat(n: nat): (s: string)
    ensures s != [] && forall i :: 0 <= i < |s| ==> '0' <= s[i] <= '9'
  {
    var digit := ('0' as int + n % 10) as char;
    if n < 10 then [digit] else DecimalNat(n / 10) + [digit]
  }

  function Decimal(n: int): string
  {
    if n < 0 then "-" + DecimalNat(-n) else DecimalNat(n)
  }

  function DigitsValue(s: string): int
  {
    if s == [] then 0 else DigitsValue(s[..|s| - 1]) * 10 + (s[|s| - 1] as int - '0' as int)
  }

  lemma {:induction false} DigitsOfDecimal(n: nat)
    ensures DigitsValue(DecimalNat(n)) == n
  {
    if n >= 10 {
      DigitsOfDecimal(n / 10);
      assert DecimalNat(n)[..|DecimalNat(n)| - 1] == DecimalNat(n / 10);
    }
  }

  predicate Digits(s: string)
  {
    forall i :: 0 <= i < |s| ==> '0' <= s[i] <= '9'
  }

  lemma {:induction false} LeadingDigit(s: string)
    requires Digits(s) && s != [] && s[0] != '0'
    ensures DigitsValue(s) > 0
  {
    if |s| > 1 {
      LeadingDigit(s[..|s| - 1]);
    }
  }

  lemma DecimalOfOneMore(m: nat, last: char)
    requires m > 0 && '0' <= last <= '9'
    ensures DecimalNat(m * 10 + (last as int - '0' as int)) == DecimalNat(m) + [last]
  {
    var n := m * 10 + (last as int - '0' as int);
    assert n / 10 == m && n % 10 == last as int - '0' as int;
  }

  lemma DecimalOfOne(s: string)
    requires Digits(s) && |s| == 1
    ensures 0 <= DigitsValue(s) < 10 && DecimalNat(DigitsValue(s)) == s
  {
    assert s[..0] == [] && DigitsValue(s) == s[0] as int - '0' as int;
  }

  /** Digits without a superfluous zero in front are the decimal text of their value. */
  lemma {:induction false} DecimalOfDigits(s: string)
    requires Digits(s) && s != [] && (|s| == 1 || s[0] != '0')
    ensures DigitsValue(s) >= 0 && DecimalNat(DigitsValue(s)) == s
  {
    if |s| == 1 {
      DecimalOfOne(s);
    } else {
      var front, last := s[..|s| - 1], s[|s| - 1];
      var m := DigitsValue(front);
      assert m > 0 && DecimalNat(m) == front by {
        DecimalOfDigits(front);
        LeadingDigit(front);
      }
      assert DigitsValue(s) == m * 10 + (last as int - '0' as int);
      DecimalOfOneMore(m, last);
    }
  }

  lemma {:induction false} DecimalHasNoLeadingZero(n: nat)
    ensures |DecimalNat(n)| == 1 || DecimalNat(n)[0] != '0'
    ensures n > 0 ==> DecimalNat(n)[0] != '0'
  {
    if n >= 10 {
      DecimalHasNoLeadingZero(n / 10);
    }
  }
}
