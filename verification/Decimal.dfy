/** Numbers in decimal, as the program formats them into names and keys. */
module Decimal {
  function Digits(n: nat): string {
    (if n < 10 then "" else Digits(n / 10)) + ["0123456789"[n % 10]]
  }

  function FormatInt(n: int): string {
    if n < 0 then "-" + Digits(-n) else Digits(n)
  }

  lemma {:induction false} DigitsApart(a: nat, b: nat)
    requires Digits(a) == Digits(b)
    ensures a == b
  {
    var x, y := Digits(a), Digits(b);
    assert x[|x| - 1] == "0123456789"[a % 10] && y[|y| - 1] == "0123456789"[b % 10];
    assert x[..|x| - 1] == (if a < 10 then "" else Digits(a / 10));
    assert y[..|y| - 1] == (if b < 10 then "" else Digits(b / 10));
    assert a % 10 == b % 10;
    if a >= 10 && b >= 10 {
      DigitsApart(a / 10, b / 10);
    }
  }

  lemma {:induction false} DigitsOnly(n: nat)
    ensures Digits(n) != "" && forall i :: 0 <= i < |Digits(n)| ==> '0' <= Digits(n)[i] <= '9'
  {
    assert '0' <= "0123456789"[n % 10] <= '9';
    if n >= 10 {
      DigitsOnly(n / 10);
    }
  }

  /** The number a text of digits stands for. */
  function Value(text: string): int {
    if text == "" then 0 else Value(text[..|text| - 1]) * 10 + (text[|text| - 1] as int - '0' as int)
  }

  /** The digits of a number stand for it, without a leading zero. */
  lemma {:induction false} DigitsExactly(n: nat)
    ensures Value(Digits(n)) == n && (n > 0 ==> Digits(n)[0] != '0') && (n == 0 ==> Digits(n) == "0")
  {
    var text := Digits(n);
    assert text[|text| - 1] as int - '0' as int == n % 10;
    if n < 10 {
      assert text[..0] == "";
    } else {
      assert text[..|text| - 1] == Digits(n / 10);
      DigitsOnly(n / 10);
      DigitsExactly(n / 10);
    }
  }

  lemma FormatApart(a: int, b: int)
    requires FormatInt(a) == FormatInt(b)
    ensures a == b
  {
    DigitsOnly(if a < 0 then -a else a);
    DigitsOnly(if b < 0 then -b else b);
    assert a < 0 ==> FormatInt(a)[0] == '-' && FormatInt(a)[1..] == Digits(-a);
    assert b < 0 ==> FormatInt(b)[0] == '-' && FormatInt(b)[1..] == Digits(-b);
    DigitsApart(if a < 0 then -a else a, if b < 0 then -b else b);
  }

  lemma NoSeparator(n: int)
    ensures (0 as char) !in FormatInt(n)
  {
    DigitsOnly(if n < 0 then -n else n);
  }
}
