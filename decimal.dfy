/** Python's `str(n)` and `int(s)` on integers written in decimal. */
module Decimal {
  import opened Wrappers

  predicate IsDigit(c: char) {
    '0' <= c <= '9'
  }

  predicate AllDigits(s: string) {
    forall k :: 0 <= k < |s| ==> IsDigit(s[k])
  }

  /** The value of a run of decimal digits, most significant first. */
  function DigitsValue(s: string): nat
    requires AllDigits(s)
  {
    if s == [] then 0 else DigitsValue(s[..|s| - 1]) * 10 + (s[|s| - 1] as int - '0' as int)
  }

  /** The shortest decimal spelling of `n`: no leading zeros, `"0"` for zero. */
  function NatDigits(n: nat): string
  {
    if n < 10 then [('0' as int + n) as char]
    else NatDigits(n / 10) + [('0' as int + n % 10) as char]
  }

  /** `str(n)` for a Python int: a minus sign exactly for negative numbers,
      then one or more digits. */
  function ShowInt(n: int): (r: string)
    ensures |r| > 0 && (r[0] == '-' <==> n < 0)
    ensures n < 0 ==> |r| > 1 && AllDigits(r[1..])
    ensures n >= 0 ==> AllDigits(r)
  {
    if n < 0 then
      NatDigitsValue(-n);
      var r := "-" + NatDigits(-n);
      assert r[1..] == NatDigits(-n);
      r
    else
      NatDigitsValue(n);
      NatDigits(n)
  }

  /** `int(s)` for a string: an optional sign followed by one or more ASCII digits. */
  function ParseInt(s: string): (r: Result<int, Error>)
    ensures r.Failure? ==> r.error.ValueError?
  {
    if |s| > 1 && s[0] in "+-" && AllDigits(s[1..]) then
      var v := DigitsValue(s[1..]);
      Success(if s[0] == '-' then -(v as int) else v as int)
    else if |s| > 0 && AllDigits(s) then Success(DigitsValue(s))
    else Failure(ValueError(s))
  }

  lemma {:induction false} NatDigitsValue(n: nat)
    ensures |NatDigits(n)| > 0 && AllDigits(NatDigits(n))
    ensures DigitsValue(NatDigits(n)) == n
  {
    var d := ('0' as int + n % 10) as char;
    if n >= 10 {
      NatDigitsValue(n / 10);
      var front := NatDigits(n / 10);
      assert (front + [d])[..|front|] == front;
    }
  }

  /** `int(str(n)) == n`: the id stubs written with `str` read back as the same id. */
  lemma ParseShowInt(n: int)
    ensures ParseInt(ShowInt(n)) == Success(n)
  {
    if n < 0 {
      NatDigitsValue(-n);
      assert ShowInt(n)[1..] == NatDigits(-n);
    } else {
      NatDigitsValue(n);
      assert ShowInt(n)[0] != '-' && ShowInt(n)[0] != '+';
    }
  }
}
