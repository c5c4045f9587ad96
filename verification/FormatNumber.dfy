/** Numbers with a space between groups of three digits (src/utils/format.rs). */
module FormatNumber {
  import opened Decimals
  import opened Strings

  function Reverse(s: string): (r: string)
    ensures |r| == |s|
  {
    if s == "" then "" else [s[|s| - 1]] + Reverse(s[..|s| - 1])
  }

  /** Digits in groups of three from the right, the first group shorter if need be. */
  predicate WellGrouped(t: string) {
    if |t| <= 3 then t != "" && AllDigits(t)
    else t[|t| - 4] == ' ' && AllDigits(t[|t| - 3..]) && WellGrouped(t[..|t| - 4])
  }

  function WithoutSpaces(s: string): string {
    if s == "" then ""
    else WithoutSpaces(s[..|s| - 1]) + if s[|s| - 1] == ' ' then "" else [s[|s| - 1]]
  }

  /** The grouping of a digit string. */
  function Grouped(s: string): string {
    if |s| <= 3 then s else Grouped(s[..|s| - 3]) + " " + s[|s| - 3..]
  }

  /** A digit put in front starts a new group when the groups behind it are full. */
  lemma {:induction false} GroupedCons(c: char, s: string)
    ensures Grouped([c] + s) == if s != "" && |s| % 3 == 0 then [c] + " " + Grouped(s) else [c] + Grouped(s)
  {
    if |s| > 3 {
      var front, last := s[..|s| - 3], s[|s| - 3..];
      GroupedCons(c, front);
      GroupedSnoc([c] + front, last);
      GroupedSnoc(front, last);
      assert s == front + last;
      Associative([c], front, last);
      hide Grouped;
      ConsGroups(c, Grouped(front), last, |s| % 3 == 0);
    } else if |s| == 3 {
      GroupedSnoc([c], s);
    }
  }

  lemma ConsGroups(c: char, groups: string, last: string, full: bool)
    ensures (if full then [c] + " " + groups else [c] + groups) + " " + last
            == if full then [c] + " " + (groups + " " + last) else [c] + (groups + " " + last)
  {
    Associative([c], groups, " ");
    Associative([c], groups + " ", last);
    Associative([c] + " ", groups, " ");
    Associative([c] + " ", groups + " ", last);
  }

  /** The same, as the loop does it: at the end of the reversed text. */
  lemma DigitPushed(result: string, c: char, s: string)
    requires Reverse(result) == Grouped(s)
    ensures var next := if s != "" && |s| % 3 == 0 then result + [' '] + [c] else result + [c];
            Reverse(next) == Grouped([c] + s)
  {
    GroupedCons(c, s);
    assert [c] + ([' '] + Reverse(result)) == [c] + " " + Reverse(result);
  }

  lemma {:induction false} DigitsHaveNoSpaces(s: string)
    requires AllDigits(s)
    ensures WithoutSpaces(s) == s
  {
    if s != "" {
      DigitsHaveNoSpaces(s[..|s| - 1]);
      assert s == s[..|s| - 1] + [s[|s| - 1]];
    }
  }

  lemma {:induction false} WithoutSpacesConcat(a: string, b: string)
    ensures WithoutSpaces(a + b) == WithoutSpaces(a) + WithoutSpaces(b)
  {
    if b == "" {
      assert a + b == a;
      assert WithoutSpaces(b) == "";
    } else {
      hide WithoutSpaces;
      var front, c := b[..|b| - 1], b[|b| - 1];
      WithoutSpacesConcat(a, front);
      assert b == front + [c];
      Associative(a, front, [c]);
      Associative(WithoutSpaces(a), WithoutSpaces(front), if c == ' ' then "" else [c]);
    }
  }

  lemma SmallGroup(s: string)
    requires s != "" && AllDigits(s) && |s| <= 3
    ensures WellGrouped(Grouped(s)) && WithoutSpaces(Grouped(s)) == s
  {
    DigitsHaveNoSpaces(s);
  }

  lemma LastThree(s: string)
    requires AllDigits(s) && |s| > 3
    ensures AllDigits(s[..|s| - 3]) && AllDigits(s[|s| - 3..]) && s == s[..|s| - 3] + s[|s| - 3..]
  {
  }

  lemma {:induction false} GroupedProperties(s: string)
    requires s != "" && AllDigits(s)
    ensures WellGrouped(Grouped(s)) && WithoutSpaces(Grouped(s)) == s
  {
    hide AllDigits, Grouped, WellGrouped, WithoutSpaces;
    if |s| <= 3 {
      SmallGroup(s);
    } else {
      var front, last := s[..|s| - 3], s[|s| - 3..];
      LastThree(s);
      GroupedProperties(front);
      WellGroupedNotEmpty(Grouped(front));
      GroupAppended(Grouped(front), last);
      GroupedSnoc(front, last);
    }
  }

  lemma GroupAppended(t: string, last: string)
    requires t != "" && WellGrouped(t) && |last| == 3 && AllDigits(last)
    ensures WellGrouped(t + " " + last) && WithoutSpaces(t + " " + last) == WithoutSpaces(t) + last
  {
    var u := t + " " + last;
    assert u[..|u| - 4] == t && u[|u| - 3..] == last && u[|u| - 4] == ' ';
    WithoutSpacesConcat(t + " ", last);
    WithoutSpacesConcat(t, " ");
    DigitsHaveNoSpaces(last);
    assert WithoutSpaces(" ") == "";
  }

  /** There is one way to group a number: the text is determined by its shape and digits. */
  lemma {:induction false} GroupingUnique(t: string)
    requires WellGrouped(t)
    ensures t == Grouped(WithoutSpaces(t)) && AllDigits(WithoutSpaces(t)) && WithoutSpaces(t) != ""
  {
    if |t| <= 3 {
      DigitsHaveNoSpaces(t);
    } else {
      var front, last := t[..|t| - 4], t[|t| - 3..];
      CutLastGroup(t);
      WellGroupedNotEmpty(front);
      GroupingUnique(front);
      GroupAppended(front, last);
      GroupedSnoc(WithoutSpaces(front), last);
    }
  }

  lemma CutLastGroup(t: string)
    requires |t| > 3 && t[|t| - 4] == ' '
    ensures t == t[..|t| - 4] + " " + t[|t| - 3..]
  {
  }

  lemma WellGroupedNotEmpty(t: string)
    requires WellGrouped(t)
    ensures t != ""
  {
  }

  lemma GroupedSnoc(s: string, last: string)
    requires s != "" && |last| == 3
    ensures Grouped(s + last) == Grouped(s) + " " + last
  {
    assert (s + last)[..|s|] == s && (s + last)[|s|..] == last;
  }

  lemma NothingFormatted()
    ensures Reverse("") == Grouped("")
  {
  }

  /** The text is the decimal text of the number, grouped: without its spaces it parses
      back to the number. */
  method FormatNumber(num: nat) returns (text: string)
    ensures WellGrouped(text) && WithoutSpaces(text) == NatText(num)
    ensures Value(WithoutSpaces(text)) == num
  {
    hide AllDigits, Grouped, NatText, Reverse, Value, WellGrouped, WithoutSpaces;
    NothingFormatted();
    var numStr := NatText(num);
    var result := "";
    var count := 0;
    assert numStr[|numStr| - count..] == "";
    while count < |numStr|
      invariant 0 <= count <= |numStr|
      invariant Reverse(result) == Grouped(numStr[|numStr| - count..])
    {
      var c := numStr[|numStr| - 1 - count];
      assert numStr[|numStr| - 1 - count..] == [c] + numStr[|numStr| - count..];
      DigitPushed(result, c, numStr[|numStr| - count..]);
      if count > 0 && count % 3 == 0 {
        result := result + [' '];
      }
      result := result + [c];
      count := count + 1;
    }
    assert numStr[0..] == numStr;
    GroupedProperties(numStr);
    ValueOfNatText(num);
    return Reverse(result);
  }

  /** Two numbers with the same text are the same. */
  lemma FormatInjective(n: nat, m: nat)
    requires Grouped(NatText(n)) == Grouped(NatText(m))
    ensures n == m
  {
    GroupedProperties(NatText(n));
    GroupedProperties(NatText(m));
    ValueOfNatText(n);
    ValueOfNatText(m);
  }
}
