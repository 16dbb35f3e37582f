/** Decimal numerals, as Python renders a natural number. */
module Numerals {

  function Decimal(n: nat): (s: string)
    ensures s != []
  {
    if n < 10 then [Digit(n)] else Decimal(n / 10) + [Digit(n % 10)]
  }

  function Digit(d: nat): char
    requires d < 10
  {
    ('0' as int + d) as char
  }

  function Value(s: string): int {
    if s == [] then 0 else 10 * Value(s[..|s| - 1]) + (s[|s| - 1] as int - '0' as int)
  }

  lemma {:induction false} DecimalReadsBack(n: nat)
    ensures Value(Decimal(n)) == n
  {
    if n < 10 {
      assert Decimal(n)[..0] == [];
    } else {
      DecimalReadsBack(n / 10);
      assert Decimal(n)[..|Decimal(n)| - 1] == Decimal(n / 10);
    }
  }

  lemma {:induction false} DecimalInjective(m: nat, n: nat)
    ensures Decimal(m) == Decimal(n) <==> m == n
  {
    DecimalReadsBack(m);
    DecimalReadsBack(n);
  }

  /** Digits, without a leading zero but for zero itself. */
  ghost predicate IsNumeral(s: string) {
    s != "" && (forall i :: 0 <= i < |s| ==> '0' <= s[i] <= '9') && (|s| > 1 ==> s[0] != '0')
  }

  /** The rendering is the one numeral that reads as the number. */
  lemma {:induction false} DecimalExact(n: nat, s: string)
    ensures s == Decimal(n) <==> IsNumeral(s) && Value(s) == n
  {
    DecimalReadsBack(n);
    DecimalForm(n);
    if IsNumeral(s) && Value(s) == n {
      NumeralUnique(n, s);
    }
  }

  lemma {:induction false} DecimalForm(n: nat)
    ensures IsNumeral(Decimal(n)) && (n > 0 ==> Decimal(n)[0] != '0')
  {
    if n < 10 {
    } else {
      DecimalForm(n / 10);
    }
  }

  lemma {:induction false} NumeralUnique(n: nat, s: string)
    requires IsNumeral(s) && Value(s) == n
    ensures s == Decimal(n)
  {
    var front, d := s[..|s| - 1], s[|s| - 1] as int - '0' as int;
    if front == "" {
      assert s == [s[0]] && Value(front) == 0;
    } else {
      assert IsNumeral(front);
      NumeralPositive(front);
      NumeralUnique(Value(front), front);
      assert n == 10 * Value(front) + d && n / 10 == Value(front) && n % 10 == d;
      assert s == front + [s[|s| - 1]];
    }
  }

  lemma {:induction false} NumeralPositive(s: string)
    requires (forall i :: 0 <= i < |s| ==> '0' <= s[i] <= '9') && s != "" && s[0] != '0'
    ensures Value(s) > 0
  {
    if |s| == 1 {
      assert s[..0] == "";
    } else {
      NumeralPositive(s[..|s| - 1]);
    }
  }

  lemma Examples()
    ensures Decimal(7) == "7" && Decimal(10) == "10" && Decimal(305) == "305"
  {
    assert Decimal(305) == Decimal(30) + [Digit(5)];
    assert Decimal(30) == Decimal(3) + [Digit(0)];
  }
}
