/** Decimal text of natural numbers, as Rust prints and parses it. */
module Decimals {
  function Digit(d: nat): char
    requires d < 10
  {
    '0' + d as char
  }

  predicate IsDigit(c: char) {
    '0' <= c <= '9'
  }

  predicate AllDigits(s: string) {
    forall i :: 0 <= i < |s| ==> IsDigit(s[i])
  }

  function NatText(n: nat): (s: string)
    ensures s != "" && AllDigits(s)
  {
    if n < 10 then [Digit(n)] else NatText(n / 10) + [Digit(n % 10)]
  }

  function DigitValue(c: char): nat {
    if IsDigit(c) then (c - '0') as nat else 0
  }

  /** The number a digit string denotes; the empty string denotes 0. */
  function Value(s: string): nat {
    if s == "" then 0 else 10 * Value(s[..|s| - 1]) + DigitValue(s[|s| - 1])
  }

  lemma ValueOfAppend(s: string, d: nat)
    requires d < 10
    ensures Value(s + [Digit(d)]) == 10 * Value(s) + d
  {
    assert (s + [Digit(d)])[..|s|] == s;
  }

  /** Printing a number and reading the digits gives it back. */
  lemma {:induction false} ValueOfNatText(n: nat)
    ensures Value(NatText(n)) == n
  {
    if n >= 10 {
      ValueOfNatText(n / 10);
      ValueOfAppend(NatText(n / 10), n % 10);
    } else {
      ValueOfAppend("", n);
      assert "" + [Digit(n)] == [Digit(n)];
    }
  }

  lemma ValueOfSnoc(front: string, c: char)
    requires IsDigit(c)
    ensures Value(front + [c]) == 10 * Value(front) + DigitValue(c)
    ensures DigitValue(c) < 10 && Digit(DigitValue(c)) == c
  {
    assert (front + [c])[..|front|] == front;
  }

  /** Of the digit strings of a number, the one without leading zeros is printed. */
  lemma {:induction false} NatTextOfValue(s: string)
    requires s != "" && AllDigits(s) && (|s| > 1 ==> s[0] != '0')
    ensures NatText(Value(s)) == s && (s[0] != '0' ==> Value(s) > 0)
  {
    hide Value, DigitValue, Digit, NatText;
    var front, last := s[..|s| - 1], s[|s| - 1];
    assert s == front + [last];
    ValueOfSnoc(front, last);
    if front == "" {
      ValueOfNothing();
      NatTextStep(0, DigitValue(last));
    } else {
      NatTextOfValue(front);
      NatTextStep(Value(front), DigitValue(last));
    }
  }

  lemma ValueOfNothing()
    ensures Value("") == 0 && forall c :: IsDigit(c) && DigitValue(c) == 0 ==> c == '0'
  {
  }

  lemma NatTextStep(n: nat, d: nat)
    requires d < 10
    ensures NatText(10 * n + d) == if n == 0 then [Digit(d)] else NatText(n) + [Digit(d)]
  {
  }

  lemma {:induction false} NoLeadingZero(n: nat)
    ensures NatText(n)[0] == '0' ==> n == 0
  {
    if n >= 10 { NoLeadingZero(n / 10); }
  }
}
