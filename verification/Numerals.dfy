/** Natural numbers written in decimal, and read back. */
module Numerals {

  predicate IsDecimal(c: char) {
    '0' <= c <= '9'
  }

  function Digit(n: nat): (c: char)
    requires n < 10
    ensures IsDecimal(c)
  {
    ('0' as int + n) as char
  }

  function Decimal(n: nat): (s: string)
    ensures s != [] && forall i :: 0 <= i < |s| ==> IsDecimal(s[i])
  {
    if n < 10 then [Digit(n)] else Decimal(n / 10) + [Digit(n % 10)]
  }

  /** A number without a sign and without zeros in front. */
  predicate IsNumeral(s: string) {
    s != [] && (s[0] == '0' ==> |s| == 1) && forall i :: 0 <= i < |s| ==> IsDecimal(s[i])
  }

  function Value(s: string): nat
    requires forall i :: 0 <= i < |s| ==> IsDecimal(s[i])
  {
    if s == [] then 0
    else
      assert IsDecimal(s[|s| - 1]);
      10 * Value(s[..|s| - 1]) + (s[|s| - 1] as int - '0' as int)
  }

  lemma {:induction false} ReadsBack(n: nat)
    ensures IsNumeral(Decimal(n)) && Value(Decimal(n)) == n
    ensures Decimal(n)[0] == '0' <==> n == 0
  {
    var s := Decimal(n);
    if n >= 10 {
      ReadsBack(n / 10);
      assert s[..|s| - 1] == Decimal(n / 10);
      assert s[0] == Decimal(n / 10)[0];
    } else {
      assert s[..|s| - 1] == [];
    }
  }

  lemma {:induction false} WritesBack(s: string)
    requires IsNumeral(s)
    ensures Decimal(Value(s)) == s
    ensures Value(s) == 0 <==> s == "0"
  {
    var front := s[..|s| - 1];
    if front == [] {
      assert s == [s[0]];
    } else {
      WritesBack(front);
      assert s == front + [s[|s| - 1]];
    }
  }

  lemma DecimalInjective(m: nat, n: nat)
    requires Decimal(m) == Decimal(n)
    ensures m == n
  {
    ReadsBack(m);
    ReadsBack(n);
  }
}
