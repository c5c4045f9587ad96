/** Printing and parsing byte sizes (src/utils/format.rs, src/models/node.rs).

    Floating-point values are modelled as exact rationals. */
module Sizes {
  import opened Options
  import opened Decimals
  import opened Strings

  const U64_MAX := 0xFFFF_FFFF_FFFF_FFFF
  type u64 = n: nat | n <= U64_MAX

  const KB := 1024
  const MB := KB * 1024
  const GB := MB * 1024
  const TB := GB * 1024
  const PB := TB * 1024

  function UnitSize(e: nat): (d: nat)
    requires e <= 5
    ensures d > 0
  {
    match e case 0 => 1 case 1 => KB case 2 => MB case 3 => GB case 4 => TB case _ => PB
  }

  function UnitName(e: nat): string
    requires e <= 5
  {
    match e case 0 => "B" case 1 => "KB" case 2 => "MB" case 3 => "GB" case 4 => "TB" case _ => "PB"
  }

  /** The integer logarithm to base 1024, at most 5. */
  function Exponent(n: nat): (e: nat)
    ensures e <= 5 && (n > 0 ==> UnitSize(e) <= n) && (e < 5 ==> n < UnitSize(e + 1))
  {
    if n < KB then 0 else if n < MB then 1 else if n < GB then 2
    else if n < TB then 3 else if n < PB then 4 else 5
  }

  /** `num / den` to the nearest integer, ties to even, as formatting rounds. */
  function Round(num: nat, den: nat): nat
    requires den > 0
  {
    var f, r := num / den, num % den;
    if 2 * r < den || (2 * r == den && f % 2 == 0) then f else f + 1
  }

  function Ten(k: nat): (t: nat)
    requires k <= 2
    ensures t > 0
  {
    match k case 0 => 1 case 1 => 10 case _ => 100
  }

  /** Decimals shown: none from 100 units on, one from 10 on, else two. */
  function Places(n: nat): (k: nat)
    ensures k <= 2
  {
    var d := UnitSize(Exponent(n));
    if n >= 100 * d then 0 else if n >= 10 * d then 1 else 2
  }

  /** The digits shown, as a number, without the decimal point. */
  function Shown(n: nat): nat {
    Round(n * Ten(Places(n)), UnitSize(Exponent(n)))
  }

  /** `q / 10^k` with `k` decimals. */
  function FixedText(q: nat, k: nat): string
    requires k <= 2
  {
    match k
    case 0 => NatText(q)
    case 1 => NatText(q / 10) + "." + [Digit(q % 10)]
    case _ => NatText(q / 100) + "." + [Digit(q / 10 % 10), Digit(q % 10)]
  }

  function FormatBytes(n: nat): string {
    if n == 0 then "0 B" else FixedText(Shown(n), Places(n)) + " " + UnitName(Exponent(n))
  }

  // ----- parsing

  function LowerChar(c: char): char {
    if 'A' <= c <= 'Z' then c - 'A' + 'a' else c
  }

  function Lower(s: string): (r: string)
    ensures |r| == |s| && forall i :: 0 <= i < |s| ==> r[i] == LowerChar(s[i])
  {
    if s == "" then "" else [LowerChar(s[0])] + Lower(s[1..])
  }

  predicate IsLetter(c: char) {
    'a' <= c <= 'z' || 'A' <= c <= 'Z'
  }

  predicate IsNumeral(c: char) {
    IsDigit(c) || c == '.'
  }

  function Numerals(s: string): string {
    if s == "" then "" else (Numerals(s[..|s| - 1]) + if IsNumeral(s[|s| - 1]) then [s[|s| - 1]] else "")
  }

  function Letters(s: string): string {
    if s == "" then ""
    else (Letters(s[..|s| - 1]) +
          if !IsNumeral(s[|s| - 1]) && IsLetter(s[|s| - 1]) then [s[|s| - 1]] else "")
  }

  /** A parsed decimal: `mantissa / 10^scale`. */
  datatype Decimal = Decimal(mantissa: nat, scale: nat)

  /** The decimals `f64::from_str` reads: digits around at most one point, at least one. */
  function ParseDecimal(s: string): Option<Decimal> {
    var i := IndexOf(s, '.');
    var whole, part := s[..i], if i < |s| then s[i + 1..] else "";
    if whole + part == "" || !AllDigits(whole + part) then None
    else Some(Decimal(Value(whole + part), |part|))
  }

  function Power10(k: nat): (p: nat)
    ensures p > 0
  {
    if k == 0 then 1 else 10 * Power10(k - 1)
  }

  function Multiplier(unit: string): nat {
    if unit == "b" then 1 else if unit == "kb" then KB else if unit == "mb" then MB
    else if unit == "gb" then GB else if unit == "tb" then TB else 1
  }

  /** Truncation to `u64`, saturating. */
  function Truncate(num: nat, den: nat): u64
    requires den > 0
  {
    if num / den <= U64_MAX then num / den else U64_MAX
  }

  function Scaled(numerals: string, unit: string): u64 {
    var d := ParseDecimal(numerals);
    if d.None? then 0 else Truncate(d.value.mantissa * Multiplier(unit), Power10(d.value.scale))
  }

  function ParsedSize(size: string): u64 {
    var s := Lower(Trim(size));
    if s == "-" || s == "" then 0 else Scaled(Numerals(s), Letters(s))
  }

  method ParseSizeToBytes(size: string) returns (bytes: u64)
    ensures bytes == ParsedSize(size)
  {
    var s := Lower(Trim(size));
    if s == "-" || s == "" { return 0; }
    var numStr, unit := "", "";
    var i := 0;
    while i < |s|
      invariant 0 <= i <= |s|
      invariant numStr == Numerals(s[..i]) && unit == Letters(s[..i])
    {
      var c := s[i];
      assert s[..i + 1][..i] == s[..i];
      if IsNumeral(c) {
        numStr := numStr + [c];
      } else if IsLetter(c) {
        unit := unit + [c];
      }
      i := i + 1;
    }
    assert s[..i] == s;
    return Scaled(numStr, unit);
  }

  // ----- reading back what was printed

  lemma {:induction false} FilterConcat(a: string, b: string)
    ensures Numerals(a + b) == Numerals(a) + Numerals(b)
    ensures Letters(a + b) == Letters(a) + Letters(b)
  {
    if b == "" {
      assert a + b == a;
    } else {
      var front, last := b[..|b| - 1], b[|b| - 1];
      FilterConcat(a, front);
      assert (a + b)[..|a + b| - 1] == a + front && (a + b)[|a + b| - 1] == last;
      var n, l := if IsNumeral(last) then [last] else "", if !IsNumeral(last) && IsLetter(last) then [last] else "";
      assert Numerals(a) + Numerals(front) + n == Numerals(a) + (Numerals(front) + n);
      assert Letters(a) + Letters(front) + l == Letters(a) + (Letters(front) + l);
    }
  }

  predicate AllNumerals(s: string) {
    forall i :: 0 <= i < |s| ==> IsNumeral(s[i])
  }

  lemma {:induction false} NumeralsKept(s: string)
    requires AllNumerals(s)
    ensures Numerals(s) == s && Letters(s) == ""
  {
    if s != "" {
      var front := s[..|s| - 1];
      NumeralsKept(front);
      assert s == front + [s[|s| - 1]];
    }
  }

  predicate AllLetters(s: string) {
    forall i :: 0 <= i < |s| ==> IsLetter(s[i])
  }

  lemma {:induction false} LettersKept(s: string)
    requires AllLetters(s)
    ensures Letters(s) == s && Numerals(s) == ""
  {
    if s != "" {
      var front := s[..|s| - 1];
      LettersKept(front);
      assert s == front + [s[|s| - 1]];
    }
  }

  /** `s` is the text of the decimal `q / 10^k`. */
  predicate ReadsAs(s: string, q: nat, k: nat) {
    s != "" && IsDigit(s[0]) && AllNumerals(s) && ParseDecimal(s) == Some(Decimal(q, k))
  }

  lemma WholeReads(whole: string)
    requires whole != "" && AllDigits(whole)
    ensures ReadsAs(whole, Value(whole), 0)
  {
    assert whole[..|whole|] + "" == whole;
    IndexIs(whole, '.', |whole|);
  }

  lemma DottedReads(whole: string, part: string)
    requires whole != "" && AllDigits(whole) && part != "" && AllDigits(part)
    ensures ReadsAs(whole + "." + part, Value(whole + part), |part|)
  {
    var s := whole + "." + part;
    assert s[..|whole|] == whole && s[|whole| + 1..] == part;
    IndexIs(s, '.', |whole|);
    assert AllDigits(whole + part);
  }

  lemma TwoDecimals(whole: string, a: nat, b: nat)
    requires whole != "" && AllDigits(whole) && a < 10 && b < 10
    ensures ReadsAs(whole + "." + [Digit(a), Digit(b)], 100 * Value(whole) + 10 * a + b, 2)
  {
    hide ReadsAs, Value;
    ValueOfAppend(whole, a);
    ValueOfAppend(whole + [Digit(a)], b);
    assert whole + [Digit(a), Digit(b)] == whole + [Digit(a)] + [Digit(b)];
    DottedReads(whole, [Digit(a), Digit(b)]);
  }

  lemma OneDecimal(whole: string, a: nat)
    requires whole != "" && AllDigits(whole) && a < 10
    ensures ReadsAs(whole + "." + [Digit(a)], 10 * Value(whole) + a, 1)
  {
    ValueOfAppend(whole, a);
    DottedReads(whole, [Digit(a)]);
  }

  lemma FixedTextReads(q: nat, k: nat)
    requires k <= 2
    ensures ReadsAs(FixedText(q, k), q, k)
  {
    match k
    case 0 => ValueOfNatText(q); WholeReads(NatText(q));
    case 1 => TenthsRead(q);
    case _ => HundredthsRead(q);
  }

  lemma TenthsRead(q: nat)
    ensures ReadsAs(FixedText(q, 1), q, 1)
  {
    ValueOfNatText(q / 10);
    OneDecimal(NatText(q / 10), q % 10);
  }

  lemma Hundreds(q: nat)
    ensures 100 * (q / 100) + 10 * (q / 10 % 10) + q % 10 == q
  {
    assert q / 10 / 10 == q / 100;
  }

  lemma HundredthsRead(q: nat)
    ensures ReadsAs(FixedText(q, 2), q, 2)
  {
    hide ReadsAs, Value, NatText, Digit;
    Hundreds(q);
    ValueOfNatText(q / 100);
    TwoDecimals(NatText(q / 100), q / 10 % 10, q % 10);
  }

  lemma LowerConcat(a: string, b: string)
    ensures Lower(a + b) == Lower(a) + Lower(b)
  {
  }

  lemma {:induction false} NumeralsStayLower(s: string)
    requires AllNumerals(s)
    ensures Lower(s) == s
  {
  }

  lemma {:induction false} LettersToLower(s: string)
    requires AllLetters(s)
    ensures AllLetters(Lower(s))
  {
    forall i | 0 <= i < |s| ensures IsLetter(Lower(s)[i]) {
      assert Lower(s)[i] == LowerChar(s[i]) && IsLetter(s[i]);
    }
  }

  lemma {:induction false} SpacesDropped(gap: string)
    requires AllSpace(gap)
    ensures Letters(gap) == "" && Numerals(gap) == "" && Lower(gap) == gap
  {
    if gap != "" { SpacesDropped(gap[..|gap| - 1]); }
  }

  /** The number and the unit of a text, with or without spaces between them. */
  lemma Separated(number: string, gap: string, unit: string)
    requires AllNumerals(number) && AllSpace(gap) && AllLetters(unit)
    ensures Numerals(number + (gap + unit)) == number && Letters(number + (gap + unit)) == unit
  {
    FilterConcat(number, gap + unit);
    FilterConcat(gap, unit);
    NumeralsKept(number);
    LettersKept(unit);
    SpacesDropped(gap);
  }

  lemma LowerOfText(number: string, gap: string, unit: string)
    requires AllNumerals(number) && AllSpace(gap)
    ensures Lower(number + (gap + unit)) == number + (gap + Lower(unit))
  {
    LowerConcat(number, gap + unit);
    LowerConcat(gap, unit);
    NumeralsStayLower(number);
    SpacesDropped(gap);
  }

  /** A number and a unit, with spaces between and around them, are told apart. */
  lemma FallsApart(pre: string, number: string, gap: string, unit: string, post: string)
    requires AllSpace(pre) && AllSpace(gap) && AllSpace(post) && AllNumerals(number) && AllLetters(unit)
    requires number + unit != "" && (number == "" || unit == "" ==> gap == "")
    ensures ParsedSize(pre + (number + (gap + unit)) + post) == Scaled(number, Lower(unit))
  {
    hide ParsedSize, Trim, Lower, Numerals, Letters, Scaled, IsSpace, AllSpace, AllNumerals, AllLetters;
    var text := number + (gap + unit);
    TextEnds(number, gap, unit);
    TrimAround(pre, text, post);
    TrimKeeps(text);
    LowerOfText(number, gap, unit);
    LettersToLower(unit);
    Separated(number, gap, Lower(unit));
    TextEnds(number, gap, Lower(unit));
    ParsedTrimmed(pre + text + post, text);
  }

  lemma TextEnds(number: string, gap: string, unit: string)
    requires AllNumerals(number) && AllLetters(unit) && number + unit != "" && (number == "" || unit == "" ==> gap == "")
    ensures var text := number + (gap + unit);
            text != "" && text != "-" && !IsSpace(text[0]) && !IsSpace(text[|text| - 1])
  {
    var text := number + (gap + unit);
    var first := if number != "" then number[0] else unit[0];
    var last := if unit != "" then unit[|unit| - 1] else number[|number| - 1];
    assert IsNumeral(first) || IsLetter(first);
    assert IsNumeral(last) || IsLetter(last);
    assert text[0] == first && text[|text| - 1] == last;
  }

  lemma ParsedTrimmed(size: string, text: string)
    requires Trim(size) == text && Lower(text) != "-" && Lower(text) != ""
    ensures ParsedSize(size) == Scaled(Numerals(Lower(text)), Letters(Lower(text)))
  {
    hide Trim, Lower, Scaled, Numerals, Letters;
  }

  lemma UnitReads(e: nat)
    requires e <= 5
    ensures UnitName(e) != "" && AllLetters(UnitName(e))
    ensures Multiplier(Lower(UnitName(e))) == if e <= 4 then UnitSize(e) else 1
  {
    match e
    case 0 => assert Lower("B") == "b";
    case 1 => assert Lower("KB") == "kb";
    case 2 => assert Lower("MB") == "mb";
    case 3 => assert Lower("GB") == "gb";
    case 4 => assert Lower("TB") == "tb";
    case _ => assert Lower("PB") == "pb";
  }

  lemma ScaledReads(number: string, q: nat, k: nat, unit: string)
    requires ReadsAs(number, q, k) && k <= 2
    ensures Scaled(number, unit) == Truncate(q * Multiplier(unit), Ten(k))
  {
    assert Power10(k) == Ten(k);
  }

  lemma ParsedText(q: nat, k: nat, e: nat)
    requires k <= 2 && e <= 5
    ensures ParsedSize(FixedText(q, k) + (" " + UnitName(e)))
            == Truncate(q * (if e <= 4 then UnitSize(e) else 1), Ten(k))
  {
    FixedTextReads(q, k);
    UnitReads(e);
    var text := FixedText(q, k) + (" " + UnitName(e));
    FallsApart("", FixedText(q, k), " ", UnitName(e), "");
    assert "" + text + "" == text;
    ScaledReads(FixedText(q, k), q, k, Lower(UnitName(e)));
  }

  lemma FormatText(n: nat)
    ensures FormatBytes(n) == if n == 0 then FixedText(0, 0) + (" " + UnitName(0))
                              else FixedText(Shown(n), Places(n)) + (" " + UnitName(Exponent(n)))
  {
    if n == 0 {
      assert FixedText(0, 0) == "0" && "0" + (" " + "B") == "0 B";
    } else {
      var number, name := FixedText(Shown(n), Places(n)), UnitName(Exponent(n));
      assert number + " " + name == number + (" " + name);
    }
  }

  /** Parsing the printed text recovers the digits shown, times the unit if it is known. */
  lemma ParsedFormat(n: u64)
    ensures ParsedSize(FormatBytes(n)) ==
            if n == 0 then 0
            else Truncate(Shown(n) * (if Exponent(n) <= 4 then UnitSize(Exponent(n)) else 1), Ten(Places(n)))
  {
    FormatText(n);
    if n == 0 {
      ParsedText(0, 0, 0);
    } else {
      ParsedText(Shown(n), Places(n), Exponent(n));
    }
  }

  // ----- rounding

  lemma MulLe(a: nat, b: nat, d: nat)
    requires a <= b
    ensures a * d <= b * d
  {
  }

  lemma RoundNearest(num: nat, den: nat)
    requires den > 0
    ensures 2 * (Round(num, den) * den) <= 2 * num + den && 2 * num <= 2 * (Round(num, den) * den) + den
  {
    var f, r := num / den, num % den;
    var p := f * den;
    assert num == p + r;
    assert (f + 1) * den == p + den;
  }

  lemma DivUnique(a: nat, q: nat, r: nat, d: nat)
    requires r < d && a == q * d + r
    ensures a / d == q && a % d == r
  {
    var f := a / d;
    assert a == f * d + a % d;
    assert (q + 1) * d == q * d + d && (f + 1) * d == f * d + d;
    if f < q { MulLe(f + 1, q, d); }
    if q < f { MulLe(q + 1, f, d); }
  }

  lemma RoundExact(c: nat, den: nat)
    requires den > 0
    ensures Round(c * den, den) == c
  {
    DivUnique(c * den, c, 0, den);
  }

  lemma RoundMonotone(a: nat, b: nat, den: nat)
    requires den > 0 && a <= b
    ensures Round(a, den) <= Round(b, den)
  {
    var f, g := a / den, b / den;
    assert a == f * den + a % den && b == g * den + b % den;
    assert (g + 1) * den == g * den + den;
    if f > g { MulLe(g + 1, f, den); }
  }

  // ----- what a text of a size means, read off the text

  /** The same letters, in either case. */
  predicate SameLetters(s: string, m: string) {
    |s| == |m| && forall i :: 0 <= i < |s| ==>
      s[i] == m[i] || ('A' <= s[i] <= 'Z' && s[i] as int - 'A' as int == m[i] as int - 'a' as int)
  }

  lemma {:induction false} LowerIs(s: string, m: string)
    requires forall i :: 0 <= i < |m| ==> 'a' <= m[i] <= 'z'
    ensures SameLetters(s, m) <==> Lower(s) == m
  {
    if Lower(s) == m {
      forall i | 0 <= i < |s|
        ensures s[i] == m[i] || ('A' <= s[i] <= 'Z' && s[i] as int - 'A' as int == m[i] as int - 'a' as int)
      {
        assert m[i] == LowerChar(s[i]);
      }
    }
  }

  /** The bytes a unit stands for; an unknown one, or none, stands for one byte. */
  ghost predicate UnitMeans(unit: string, d: nat) {
    || (SameLetters(unit, "b") && d == 1) || (SameLetters(unit, "kb") && d == 1024)
    || (SameLetters(unit, "mb") && d == 1048576) || (SameLetters(unit, "gb") && d == 1073741824)
    || (SameLetters(unit, "tb") && d == 1099511627776)
    || (!SameLetters(unit, "b") && !SameLetters(unit, "kb") && !SameLetters(unit, "mb")
        && !SameLetters(unit, "gb") && !SameLetters(unit, "tb") && d == 1)
  }

  lemma MultiplierMeans(unit: string, d: nat)
    requires UnitMeans(unit, d)
    ensures Multiplier(Lower(unit)) == d
  {
    LowerIs(unit, "b");
    LowerIs(unit, "kb");
    LowerIs(unit, "mb");
    LowerIs(unit, "gb");
    LowerIs(unit, "tb");
  }

  /** `r` is `num / den` rounded down, at most the largest value of 64 bits. */
  predicate IsFloor(r: nat, num: nat, den: nat) {
    if num >= 0x1_0000_0000_0000_0000 * den then r == 0xFFFF_FFFF_FFFF_FFFF
    else r * den <= num < (r + 1) * den
  }

  lemma TruncateIsFloor(num: nat, den: nat)
    requires den > 0
    ensures IsFloor(Truncate(num, den), num, den)
  {
    var f := num / den;
    assert num == f * den + num % den && (f + 1) * den == f * den + den;
    if f <= U64_MAX { MulLe(f + 1, U64_MAX + 1, den); } else { MulLe(U64_MAX + 1, f, den); }
  }

  function Zeros(k: nat): (z: string)
    ensures |z| == k
  {
    if k == 0 then "" else Zeros(k - 1) + "0"
  }

  lemma {:induction false} PowerIsValue(k: nat)
    ensures Value("1" + Zeros(k)) == Power10(k)
  {
    if k == 0 {
      assert "1" + "" == "1" && "1"[..0] == "";
    } else {
      PowerIsValue(k - 1);
      assert "1" + Zeros(k) == "1" + Zeros(k - 1) + [Digit(0)];
      ValueOfAppend("1" + Zeros(k - 1), 0);
    }
  }

  lemma DecimalReads(whole: string, point: string, part: string)
    requires AllDigits(whole) && AllDigits(part) && whole + part != "" && (point == "." || (point == "" && part == ""))
    ensures ParseDecimal(whole + point + part) == Some(Decimal(Value(whole + part), |part|))
    ensures AllNumerals(whole + point + part)
  {
    var s := whole + point + part;
    assert s[..|whole|] == whole;
    assert point == "." ==> s[|whole| + 1..] == part;
    IndexIs(s, '.', |whole|);
    assert AllDigits(whole + part);
  }

  lemma ScaledIsFloor(number: string, q: nat, k: nat, unit: string)
    requires ParseDecimal(number) == Some(Decimal(q, k))
    ensures IsFloor(Scaled(number, unit), q * Multiplier(unit), Power10(k))
  {
    TruncateIsFloor(q * Multiplier(unit), Power10(k));
  }

  /** A decimal with or without a point, then a unit in either case, with any spaces around
      them, is read as the decimal times the bytes of the unit, rounded down. */
  lemma SizeRead(pre: string, whole: string, point: string, part: string, gap: string, unit: string, post: string,
                 d: nat)
    requires AllSpace(pre) && AllSpace(gap) && AllSpace(post)
    requires AllDigits(whole) && AllDigits(part) && whole + part != "" && (point == "." || (point == "" && part == ""))
    requires AllLetters(unit) && (unit == "" ==> gap == "") && UnitMeans(unit, d)
    ensures IsFloor(ParsedSize(pre + (whole + point + part + (gap + unit)) + post),
                    Value(whole + part) * d, Value("1" + Zeros(|part|)))
  {
    hide ParsedSize, ParseDecimal, Multiplier, UnitMeans, IsFloor, Lower, Value, Truncate, Zeros, Power10, Scaled;
    DecimalReads(whole, point, part);
    FallsApart(pre, whole + point + part, gap, unit, post);
    MultiplierMeans(unit, d);
    PowerIsValue(|part|);
    ScaledIsFloor(whole + point + part, Value(whole + part), |part|, Lower(unit));
  }

  /** The plain number of bytes that the index list asks for is read as it is. */
  lemma BytesRead(n: u64)
    ensures ParsedSize(NatText(n)) == n
  {
    ValueOfNatText(n);
    var text := NatText(n);
    assert text + "" + "" == text && text + ("" + "") == text && "" + text + "" == text;
    SizeRead("", text, "", "", "", "", "", 1);
    assert "1" + Zeros(0) == "1";
    PowerIsValue(0);
  }

  /** A number with two points or without digits. */
  predicate Malformed(number: string) {
    || (exists i, j :: 0 <= i < j < |number| && number[i] == '.' == number[j])
    || number == "" || number == "."
  }

  /** Nothing, a dash, a unit alone and a malformed number all count as 0. */
  lemma SizeZero(pre: string, number: string, gap: string, unit: string, post: string)
    requires AllSpace(pre) && AllSpace(gap) && AllSpace(post) && AllNumerals(number) && AllLetters(unit)
    requires (number == "" || unit == "" ==> gap == "") && Malformed(number)
    ensures ParsedSize(pre + (number + (gap + unit)) + post) == 0
    ensures ParsedSize(pre + "-" + post) == 0
  {
    TrimAround(pre, "-", post);
    if number + unit == "" {
      TrimAround(pre, number + (gap + unit), post);
    } else {
      FallsApart(pre, number, gap, unit, post);
      MalformedIsNone(number);
    }
  }

  lemma MalformedIsNone(number: string)
    requires AllNumerals(number) && Malformed(number)
    ensures ParseDecimal(number) == None
  {
    if a, b :| 0 <= a < b < |number| && number[a] == '.' == number[b] {
      hide IndexOf;
      var i := IndexOf(number, '.');
      var kept, j := number[..i] + (if i < |number| then number[i + 1..] else ""), if a == i then b else a;
      assert kept[if j < i then j else j - 1] == number[j];
    } else {
      IndexIs(number, '.', 0);
    }
  }

  // ----- what a printed size looks like

  /** Text of `q / 10^k` with exactly `k` decimals and no needless zero in front. */
  predicate Prints(text: string, q: nat, k: nat) {
    && |text| > (if k == 0 then 0 else k + 1)
    && (if k == 0 then AllDigits(text) && Value(text) == q
        else
          var whole, part := text[..|text| - k - 1], text[|text| - k..];
          text[|text| - k - 1] == '.' && AllDigits(whole) && AllDigits(part) && Value(whole + part) == q)
    && (text[0] == '0' ==> |text| == 1 || text[1] == '.')
  }

  lemma NatTextPrints(n: nat)
    ensures Prints(NatText(n), n, 0)
    ensures NatText(n)[0] == '0' ==> NatText(n) == "0"
  {
    NoLeadingZero(n);
    ValueOfNatText(n);
  }

  lemma FixedTextPrints(q: nat, k: nat)
    requires k <= 2
    ensures Prints(FixedText(q, k), q, k)
  {
    match k
    case 0 => NatTextPrints(q);
    case 1 => TenthsPrint(q);
    case _ => HundredthsPrint(q);
  }

  lemma TenthsPrint(q: nat)
    ensures Prints(FixedText(q, 1), q, 1)
  {
    hide Prints, NatText, Value, Digit;
    var whole, part := NatText(q / 10), [Digit(q % 10)];
    NatTextPrints(q / 10);
    ValueOfNatText(q / 10);
    ValueOfAppend(whole, q % 10);
    DigitText(q % 10);
    PointedPrints(whole, part, q);
  }

  lemma HundredthsPrint(q: nat)
    ensures Prints(FixedText(q, 2), q, 2)
  {
    hide Prints, NatText, Value, Digit;
    var a, b := q / 10 % 10, q % 10;
    var whole, part := NatText(q / 100), [Digit(a), Digit(b)];
    NatTextPrints(q / 100);
    ValueOfNatText(q / 100);
    Hundreds(q);
    ValueOfAppend(whole, a);
    ValueOfAppend(whole + [Digit(a)], b);
    DigitText(a);
    DigitText(b);
    assert whole + part == whole + [Digit(a)] + [Digit(b)];
    PointedPrints(whole, part, q);
  }

  lemma DigitText(d: nat)
    requires d < 10
    ensures IsDigit(Digit(d))
  {
  }

  lemma PointedPrints(whole: string, part: string, q: nat)
    requires whole != "" && part != "" && AllDigits(whole) && AllDigits(part) && Value(whole + part) == q
    requires whole[0] == '0' ==> whole == "0"
    ensures Prints(whole + "." + part, q, |part|)
  {
    var text := whole + "." + part;
    assert text[..|text| - |part| - 1] == whole && text[|text| - |part|..] == part;
  }

  /** `q` is `num / den` to the nearest integer, the even one of two. */
  predicate IsNearest(q: nat, num: nat, den: nat) {
    && 2 * (q * den) <= 2 * num + den && 2 * num <= 2 * (q * den) + den
    && (2 * (q * den) == 2 * num + den || 2 * num == 2 * (q * den) + den ==> q % 2 == 0)
  }

  lemma RoundIsNearest(num: nat, den: nat)
    requires den > 0
    ensures IsNearest(Round(num, den), num, den)
  {
    RoundNearest(num, den);
    var f := num / den;
    assert num == f * den + num % den && (f + 1) * den == f * den + den;
  }

  /** A size in units of `d` bytes called `name`, to the nearest with `k` decimals. */
  ghost predicate Shows(text: string, n: nat, d: nat, name: string, k: nat) {
    exists number, q :: text == number + (" " + name) && Prints(number, q, k) && IsNearest(q, n * Power10(k), d)
  }

  lemma UnitAndPlaces(n: nat)
    requires n > 0
    ensures IsNearest(Shown(n), n * Power10(Places(n)), UnitSize(Exponent(n)))
    ensures (UnitSize(Exponent(n)), UnitName(Exponent(n))) ==
            if n < 1024 then (1, "B") else if n < 1048576 then (1024, "KB")
            else if n < 1073741824 then (1048576, "MB") else if n < 1099511627776 then (1073741824, "GB")
            else if n < 1125899906842624 then (1099511627776, "TB") else (1125899906842624, "PB")
    ensures var d := UnitSize(Exponent(n)); Places(n) == if n < 10 * d then 2 else if n < 100 * d then 1 else 0
  {
    RoundIsNearest(n * Ten(Places(n)), UnitSize(Exponent(n)));
    assert Power10(Places(n)) == Ten(Places(n));
  }

  /** The unit a size is printed in, and how many decimals: the largest unit the size
      reaches; two decimals below ten units, one below a hundred, else none. */
  lemma FormatShows(n: nat)
    requires n > 0
    ensures var (d, name) := if n < 1024 then (1, "B") else if n < 1048576 then (1024, "KB")
                             else if n < 1073741824 then (1048576, "MB") else if n < 1099511627776 then (1073741824, "GB")
                             else if n < 1125899906842624 then (1099511627776, "TB") else (1125899906842624, "PB");
            Shows(FormatBytes(n), n, d, name, if n < 10 * d then 2 else if n < 100 * d then 1 else 0)
  {
    FormatText(n);
    UnitAndPlaces(n);
    FixedTextPrints(Shown(n), Places(n));
    hide FormatBytes, FixedText, Prints, IsNearest, Shown, Power10, Places, Exponent, UnitSize, UnitName;
  }

  // ----- the error of a round trip

  /** `q / t` units of `d` bytes are `n` bytes to the nearest place shown. */
  predicate ToTheNearest(n: nat, q: nat, t: nat, d: nat) {
    2 * (q * d) <= 2 * (n * t) + d && 2 * (n * t) <= 2 * (q * d) + d
  }

  /** Within half a percent of `n` and one byte. */
  predicate Near(v: nat, n: nat) {
    200 * (v - n) <= n + 200 && 200 * (n - v) <= n + 200
  }

  /** A place is at most a hundredth of the size, so the nearest is near. */
  lemma NearestIsNear(n: u64, q: nat, t: nat, d: nat)
    requires (t == 1 || t == 10 || t == 100) && ToTheNearest(n, q, t, d) && 100 * d <= n * t
    ensures Near(Truncate(q * d, t), n)
  {
    var x := q * d;
    assert 200 * (x / t) <= 201 * n && 199 * n < 200 * (x / t) + 200;
  }

  lemma ShownIsNearest(n: nat)
    requires n > 0
    ensures ToTheNearest(n, Shown(n), Ten(Places(n)), UnitSize(Exponent(n)))
    ensures 100 * UnitSize(Exponent(n)) <= n * Ten(Places(n))
  {
    RoundNearest(n * Ten(Places(n)), UnitSize(Exponent(n)));
  }

  /** Reading a printed size gives it back to within half a percent and one byte, and
      exactly below 1024, as long as it is below 1024^5; from there on the unit is not
      understood and the size read is far too small. */
  lemma RoundTripError(n: u64)
    ensures Near(ParsedSize(FormatBytes(n)), n) <==> n < PB
    ensures n < KB ==> ParsedSize(FormatBytes(n)) == n
  {
    ParsedFormat(n);
    if n > 0 {
      var q, t, d := Shown(n), Ten(Places(n)), UnitSize(Exponent(n));
      ShownIsNearest(n);
      NearestIsNear(n, q, t, d);
      if n >= PB {
        PetabytesLost(n, q, t);
      } else if n < KB {
        RoundExact(n * t, 1);
        DivUnique(n * t, n, 0, t);
      }
    }
  }

  lemma PetabytesLost(n: u64, q: nat, t: nat)
    requires n >= PB && (t == 1 || t == 10 || t == 100) && ToTheNearest(n, q, t, PB)
    ensures !Near(Truncate(q, t), n)
  {
    assert Truncate(q, t) <= q;
    MulLe(t, 100, n);
    assert q * PB <= n * 100 + PB;
  }

  // ----- the formatter of the node page

  /** The unit `NodeDetail::format_bytes` chooses: it stops at terabytes. */
  function NodeExponent(n: nat): (e: nat)
    ensures e <= 4 && (n > 0 ==> UnitSize(e) <= n)
  {
    if n >= TB then 4 else if n >= GB then 3 else if n >= MB then 2 else if n >= KB then 1 else 0
  }

  function NodeFormatBytes(n: nat): string {
    var e := NodeExponent(n);
    if e == 0 then NatText(n) + " B"
    else FixedText(Round(n * 100, UnitSize(e)), 2) + " " + UnitName(e)
  }

  lemma NodeText(n: nat)
    ensures var e := NodeExponent(n);
            NodeFormatBytes(n) == (if e == 0 then FixedText(n, 0) else FixedText(Round(n * 100, UnitSize(e)), 2))
                                  + (" " + UnitName(e))
  {
    var e := NodeExponent(n);
    if e > 0 {
      var number := FixedText(Round(n * 100, UnitSize(e)), 2);
      assert number + " " + UnitName(e) == number + (" " + UnitName(e));
    }
  }

  /** The node page prints whole bytes below 1024, else two decimals and at most terabytes. */
  lemma NodeFormatShows(n: nat)
    ensures var (d, name) := if n < 1024 then (1, "B") else if n < 1048576 then (1024, "KB")
                             else if n < 1073741824 then (1048576, "MB") else if n < 1099511627776 then (1073741824, "GB")
                             else (1099511627776, "TB");
            Shows(NodeFormatBytes(n), n, d, name, if n < 1024 then 0 else 2)
  {
    var e := NodeExponent(n);
    NodeText(n);
    if e == 0 {
      FixedTextPrints(n, 0);
      assert IsNearest(n, n * Power10(0), 1);
    } else {
      FixedTextPrints(Round(n * 100, UnitSize(e)), 2);
      RoundIsNearest(n * 100, UnitSize(e));
      assert Power10(2) == 100;
    }
  }

  /** What it prints can be read back over the whole range of `u64`, to within half a
      percent and one byte. */
  lemma NodeRoundTripError(n: u64)
    ensures Near(ParsedSize(NodeFormatBytes(n)), n)
  {
    hide NodeFormatBytes, ParsedSize, FixedText, Round, UnitName;
    var e := NodeExponent(n);
    NodeText(n);
    if e == 0 {
      ParsedText(n, 0, 0);
    } else {
      ParsedText(Round(n * 100, UnitSize(e)), 2, e);
      RoundNearest(n * 100, UnitSize(e));
      NearestIsNear(n, Round(n * 100, UnitSize(e)), 100, UnitSize(e));
    }
  }

  lemma UnitsDiffer(e: nat, f: nat)
    requires e <= 5 && f <= 5
    ensures UnitName(e) == UnitName(f) <==> e == f
  {
  }

  lemma UnitOfText(q: nat, k: nat, e: nat)
    requires k <= 2 && e <= 5
    ensures Letters(FixedText(q, k) + (" " + UnitName(e))) == UnitName(e)
  {
    FixedTextReads(q, k);
    UnitReads(e);
    FilterConcat(FixedText(q, k), " " + UnitName(e));
    FilterConcat(" ", UnitName(e));
    NumeralsKept(FixedText(q, k));
    LettersKept(UnitName(e));
    SpacesDropped(" ");
  }

  lemma LettersOfFormat(n: nat)
    ensures Letters(FormatBytes(n)) == UnitName(if n == 0 then 0 else Exponent(n))
  {
    hide FormatBytes, FixedText, Letters, UnitName, Shown;
    FormatText(n);
    UnitOfText(0, 0, 0);
    UnitOfText(Shown(n), Places(n), Exponent(n));
  }

  lemma LettersOfNodeFormat(n: nat)
    ensures Letters(NodeFormatBytes(n)) == UnitName(NodeExponent(n))
  {
    hide NodeFormatBytes, FixedText, Letters, UnitName, Round;
    NodeText(n);
    var e := NodeExponent(n);
    if e == 0 { UnitOfText(n, 0, 0); } else { UnitOfText(Round(n * 100, UnitSize(e)), 2, e); }
  }

  /** The two formatters print the same unit exactly below 1024^5. */
  lemma SameUnit(n: nat)
    ensures Letters(FormatBytes(n)) == Letters(NodeFormatBytes(n)) <==> n < PB
  {
    LettersOfFormat(n);
    LettersOfNodeFormat(n);
    hide FormatBytes, NodeFormatBytes, Letters, UnitName;
    UnitsDiffer(if n == 0 then 0 else Exponent(n), NodeExponent(n));
  }

  // ----- the order of what is shown

  lemma NonNegative(a: nat, b: nat)
    ensures a * b >= 0
  {
  }

  /** The size shown, in hundredths of a byte. */
  function ShownHundredths(n: nat): nat {
    NonNegative(100 / Ten(Places(n)), UnitSize(Exponent(n)));
    NonNegative(Shown(n), 100 / Ten(Places(n)) * UnitSize(Exponent(n)));
    Shown(n) * (100 / Ten(Places(n)) * UnitSize(Exponent(n)))
  }

  /** A size not above a multiple of the unit is not shown above it. */
  lemma ShownAtMost(n: nat, c: nat, d: nat, t: nat)
    requires d > 0 && (t == 1 || t == 10 || t == 100) && n <= c * d
    ensures Round(n * t, d) * (100 / t * d) <= 100 * (c * d)
  {
    Rearranged(c, t, d);
    RoundExact(c * t, d);
    MulLe(n, c * d, t);
    RoundMonotone(n * t, c * t * d, d);
    MulLe(Round(n * t, d), c * t, 100 / t * d);
  }

  /** A size not below a multiple of the unit is not shown below it. */
  lemma ShownAtLeast(n: nat, c: nat, d: nat, t: nat)
    requires d > 0 && (t == 1 || t == 10 || t == 100) && n >= c * d
    ensures Round(n * t, d) * (100 / t * d) >= 100 * (c * d)
  {
    Rearranged(c, t, d);
    RoundExact(c * t, d);
    MulLe(c * d, n, t);
    RoundMonotone(c * t * d, n * t, d);
    MulLe(c * t, Round(n * t, d), 100 / t * d);
  }

  lemma Rearranged(c: nat, t: nat, d: nat)
    requires t == 1 || t == 10 || t == 100
    ensures c * t * (100 / t * d) == 100 * (c * d) && c * t * d == c * d * t
  {
  }

  /** The lower end of the band of sizes shown in the same unit and precision, in units. */
  function Bottom(k: nat): nat {
    if k == 0 then 100 else if k == 1 then 10 else 1
  }

  lemma BandsInOrder(n: nat, m: nat)
    requires 0 < n <= m && (Exponent(n) != Exponent(m) || Places(n) != Places(m))
    ensures exists c :: n <= c * UnitSize(Exponent(n)) <= Bottom(Places(m)) * UnitSize(Exponent(m)) <= m
  {
    var e, k := Exponent(n), Places(n);
    var c := if e < Exponent(m) then 1024 else Bottom(Places(m));
    assert n <= c * UnitSize(e) <= Bottom(Places(m)) * UnitSize(Exponent(m)) <= m;
  }

  /** Larger sizes are never shown as smaller, across every unit and precision. */
  lemma DisplayMonotone(n: nat, m: nat)
    requires n <= m
    ensures ShownHundredths(n) <= ShownHundredths(m)
  {
    if n > 0 {
      var d, t := UnitSize(Exponent(n)), Ten(Places(n));
      if Exponent(n) == Exponent(m) && Places(n) == Places(m) {
        MulLe(n, m, t);
        RoundMonotone(n * t, m * t, d);
        MulLe(Shown(n), Shown(m), 100 / t * d);
      } else {
        BandsInOrder(n, m);
        var c :| n <= c * d <= Bottom(Places(m)) * UnitSize(Exponent(m)) <= m;
        ShownAtMost(n, c, d, t);
        ShownAtLeast(m, Bottom(Places(m)), UnitSize(Exponent(m)), Ten(Places(m)));
      }
    }
  }
}
