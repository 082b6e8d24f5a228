/** Decimal notation. */
module Decimals {

  predicate IsDigit(c: char) {
    '0' <= c <= '9'
  }

  function Decimal(n: nat): string {
    (if n < 10 then [] else Decimal(n / 10)) + [('0' as int + n % 10) as char]
  }

  // The number that digits after the number r make.
  function ValueFrom(s: string, r: nat): nat
    requires forall c :: c in s ==> IsDigit(c)
  {
    if s == [] then r
    else
      assert IsDigit(s[0]) by { assert s[0] in s; }
      ValueFrom(s[1..], r * 10 + (s[0] as int - '0' as int))
  }

  lemma {:induction false} ValueFromSnoc(s: string, c: char, r: nat)
    requires (forall x :: x in s ==> IsDigit(x)) && IsDigit(c)
    ensures forall x :: x in s + [c] ==> IsDigit(x)
    ensures ValueFrom(s + [c], r) == ValueFrom(s, r) * 10 + (c as int - '0' as int)
  {
    if s == [] {
      assert s + [c] == [c];
      assert [c][1..] == [];
    } else {
      assert s[0] in s;
      assert (s + [c])[1..] == s[1..] + [c];
      ValueFromSnoc(s[1..], c, r * 10 + (s[0] as int - '0' as int));
    }
  }

  // Decimal notation consists of digits that have the value of the number.
  lemma {:induction false} DecimalValue(n: nat)
    ensures Decimal(n) != [] && (forall c :: c in Decimal(n) ==> IsDigit(c)) && ValueFrom(Decimal(n), 0) == n
  {
    var d := ('0' as int + n % 10) as char;
    if n < 10 {
      assert Decimal(n) == [d];
      assert [d][1..] == [];
    } else {
      DecimalValue(n / 10);
      ValueFromSnoc(Decimal(n / 10), d, 0);
    }
  }

  lemma {:induction false} FourDigits(n: nat)
    requires 1000 <= n <= 9999
    ensures |Decimal(n)| == 4
  {
    assert |Decimal(n / 1000)| == 1;
    assert n / 10 / 10 / 10 == n / 1000;
    assert |Decimal(n / 10 / 10)| == 2;
    assert |Decimal(n / 10)| == 3;
  }

  lemma {:induction false} FewDigits(n: nat)
    requires n < 1000
    ensures |Decimal(n)| <= 3
  {
    if n >= 10 {
      assert |Decimal(n / 10)| <= 2 by {
        if n >= 100 {
          assert n / 10 / 10 < 10;
          assert |Decimal(n / 10 / 10)| == 1;
        } else {
          assert |Decimal(n / 10)| == 1;
        }
      }
    }
  }

  lemma {:induction false} ManyDigits(n: nat)
    requires n >= 10000
    ensures |Decimal(n)| >= 5
  {
    if n / 10 >= 10000 {
      ManyDigits(n / 10);
    } else {
      FourDigits(n / 10);
    }
  }

  lemma {:induction false} FourValue(s: string)
    requires |s| == 4 && forall c :: c in s ==> IsDigit(c)
    ensures ValueFrom(s, 0) <= 9999
  {
    assert s[0] in s && s[1] in s && s[2] in s && s[3] in s;
    var a, b, c, d := s[0] as int - '0' as int, s[1] as int - '0' as int, s[2] as int - '0' as int, s[3] as int - '0' as int;
    assert s[1..][1..] == s[2..] && s[2..][1..] == s[3..] && s[3..][1..] == [];
    assert ValueFrom(s[3..], (a * 10 + b) * 10 + c) == ((a * 10 + b) * 10 + c) * 10 + d;
    assert ValueFrom(s[2..], a * 10 + b) == ValueFrom(s[3..], (a * 10 + b) * 10 + c);
    assert ValueFrom(s[1..], a) == ValueFrom(s[2..], a * 10 + b);
  }
}
