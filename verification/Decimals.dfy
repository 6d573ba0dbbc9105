/** Numbers in decimal, as lock tokens and made-up namespace prefixes use them. */
module Decimals {
  function Decimal(n: nat): (s: string)
    ensures s != ""
  {
    if n < 10 then ["0123456789"[n]] else Decimal(n / 10) + ["0123456789"[n % 10]]
  }

  predicate AllDigits(s: string) {
    forall c <- s :: '0' <= c <= '9'
  }

  /** What digits say in base ten. */
  function Value(s: string): nat
    requires AllDigits(s)
  {
    if s == "" then 0
    else
      var last := |s| - 1;
      assert s[last] in s && forall c <- s[..last] :: c in s;
      Value(s[..last]) * 10 + (s[last] as nat - '0' as nat)
  }

  /** A number is written in digits that say it, without a zero before them. */
  lemma {:induction false} DecimalSays(n: nat)
    ensures AllDigits(Decimal(n)) && Value(Decimal(n)) == n && (n > 0 ==> Decimal(n)[0] != '0')
  {
    var s := Decimal(n);
    var last := |s| - 1;
    if n < 10 {
      assert s[..last] == "";
    } else {
      DecimalSays(n / 10);
      assert s[..last] == Decimal(n / 10) && s[last] == "0123456789"[n % 10];
    }
  }

  lemma DecimalInjective(m: nat, n: nat)
    requires Decimal(m) == Decimal(n)
    ensures m == n
  {
    DecimalSays(m);
    DecimalSays(n);
  }
}
