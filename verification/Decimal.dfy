/** Unsigned numbers printed in base ten, as `std::to_string` and Go's encoder do. */
module Decimal {

  predicate IsDigit(c: char) { '0' <= c <= '9' }

  predicate AreDigits(s: string) {
    forall i :: 0 <= i < |s| ==> IsDigit(s[i])
  }

  function DigitOf(n: nat): (c: char)
    requires n < 10
    ensures IsDigit(c) && ValueOf(c) == n
  {
    ('0' as int + n) as char
  }

  function ValueOf(c: char): nat
    requires IsDigit(c)
  {
    c as int - '0' as int
  }

  function Print(n: nat): (s: string)
    ensures s != "" && AreDigits(s)
  {
    if n < 10 then [DigitOf(n)] else Print(n / 10) + [DigitOf(n % 10)]
  }

  function Read(s: string): nat
    requires AreDigits(s)
  {
    if s == "" then 0 else 10 * Read(s[..|s| - 1]) + ValueOf(s[|s| - 1])
  }

  lemma {:induction false} ReadPrint(n: nat)
    ensures Read(Print(n)) == n
  {
    if n >= 10 {
      ReadPrint(n / 10);
      assert Print(n)[..|Print(n)| - 1] == Print(n / 10);
    } else {
      assert Print(n)[..0] == "";
    }
  }

  lemma PrintInjective(m: nat, n: nat)
    ensures Print(m) == Print(n) <==> m == n
  {
    ReadPrint(m);
    ReadPrint(n);
  }
}
