/** Decimal text of natural numbers. */
module Decimal {
  import opened Scanning

  predicate IsDigit(c: char) { '0' <= c <= '9' }

  function Digits(n: nat): (s: string)
    ensures s != "" && All(IsDigit, s)
    ensures if n == 0 then s == "0" else s[0] != '0'
  {
    var last := [('0' as int + n % 10) as char];
    if n < 10 then last else Digits(n / 10) + last
  }

  function Value(s: string): nat
    requires All(IsDigit, s)
  {
    if s == "" then 0
    else
      var n := |s| - 1;
      assert s[n] in s;
      10 * Value(s[..n]) + (s[n] as int - '0' as int)
  }

  lemma {:induction false} DigitsReadBack(n: nat)
    ensures Value(Digits(n)) == n
  {
    if n >= 10 {
      DigitsReadBack(n / 10);
      var s := Digits(n);
      assert s[..|s| - 1] == Digits(n / 10);
    }
  }
}
