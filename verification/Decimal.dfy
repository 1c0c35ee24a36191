// Decimal spelling of counters, and that different counters are spelled differently.

module Decimal {

  function Digit(d: nat): char
    requires d < 10
  {
    '0' + d as char
  }

  function ToString(n: nat): string {
    if n < 10 then [Digit(n)] else ToString(n / 10) + [Digit(n % 10)]
  }

  predicate AllDigits(s: string) {
    forall c <- s :: '0' <= c <= '9'
  }

  lemma {:induction false} OnlyDigits(n: nat)
    ensures AllDigits(ToString(n)) && ToString(n) != ""
  {
    if n >= 10 {
      OnlyDigits(n / 10);
    }
  }

  /** The number a spelling denotes. */
  ghost function Value(s: string): int {
    if s == "" then 0 else 10 * Value(s[..|s| - 1]) + (s[|s| - 1] as int - '0' as int)
  }

  lemma {:induction false} ValueOfString(n: nat)
    ensures Value(ToString(n)) == n
  {
    var s := ToString(n);
    if n < 10 {
      assert s[..|s| - 1] == "";
    } else {
      assert s[..|s| - 1] == ToString(n / 10);
      ValueOfString(n / 10);
    }
  }

  lemma Injective(m: nat, n: nat)
    requires ToString(m) == ToString(n)
    ensures m == n
  {
    ValueOfString(m);
    ValueOfString(n);
  }

  function PowerOfTen(k: nat): nat {
    if k == 0 then 1 else 10 * PowerOfTen(k - 1)
  }

  lemma {:induction false} AtMostDigits(n: nat, k: nat)
    requires k > 0 && n < PowerOfTen(k)
    ensures |ToString(n)| <= k
  {
    if n >= 10 {
      AtMostDigits(n / 10, k - 1);
    }
  }
}
