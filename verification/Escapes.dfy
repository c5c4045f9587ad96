/** Escaping request bodies for script strings and names for attributes
    (src/handlers/console.rs, src/handlers/endpoints.rs). */
module Escapes {
  import opened Options
  import opened Strings

  /** A replace of a single character goes character by character. */
  lemma ReplaceOne(s: string, c: char, t: string)
    requires s != ""
    ensures Replace(s, [c], t) == (if s[0] == c then t else [s[0]]) + Replace(s[1..], [c], t)
  {
    assert [c] <= s <==> s[0] == c;
  }

  lemma {:induction false} ReplaceConcat(a: string, b: string, c: char, t: string)
    ensures Replace(a + b, [c], t) == Replace(a, [c], t) + Replace(b, [c], t)
  {
    if a == "" {
      assert a + b == b && Replace(a, [c], t) == "";
    } else {
      hide Replace;
      ReplaceConcat(a[1..], b, c, t);
      ReplaceOne(a, c, t);
      ReplaceOne(a + b, c, t);
      assert (a + b)[1..] == a[1..] + b && (a + b)[0] == a[0];
      Associative(if a[0] == c then t else [a[0]], Replace(a[1..], [c], t), Replace(b, [c], t));
    }
  }

  // ----- script strings

  /** The five replaces of `body_escaped`, in order. */
  function Escaped(s: string): string {
    Replace(Replace(Replace(Replace(Replace(s, ['\\'], "\\\\"), ['\''], "\\'"), ['"'], "\\\""), ['\n'], "\\n"), ['\r'], "\\r")
  }

  function BodyEscaped(body: Option<string>): string {
    Escaped(if body.Some? then body.value else "")
  }

  function EscapeChar(c: char): string {
    if c == '\\' then "\\\\" else if c == '\'' then "\\'" else if c == '"' then "\\\""
    else if c == '\n' then "\\n" else if c == '\r' then "\\r" else [c]
  }

  function EscapeEach(s: string): string {
    if s == "" then "" else EscapeChar(s[0]) + EscapeEach(s[1..])
  }

  /** The value of the characters between the quotes of a single-quoted literal, after
      section 12.9.4 of ECMA-262, restricted to the escapes used here; `None` if a quote or
      a line break would end the literal early, or an escape is unknown. */
  function LiteralValue(s: string): Option<string> {
    if s == "" then Some("")
    else if s[0] == '\'' || s[0] == '\n' || s[0] == '\r' then None
    else if s[0] != '\\' then Prepend(s[0], LiteralValue(s[1..]))
    else if |s| == 1 then None
    else
      var rest := LiteralValue(s[2..]);
      if s[1] == '\\' || s[1] == '\'' || s[1] == '"' then Prepend(s[1], rest)
      else if s[1] == 'n' then Prepend('\n', rest)
      else if s[1] == 'r' then Prepend('\r', rest)
      else None
  }

  function Prepend(c: char, rest: Option<string>): Option<string> {
    if rest.None? then None else Some([c] + rest.value)
  }

  lemma EscapedChar(c: char)
    ensures Escaped([c]) == EscapeChar(c)
  {
    var s := [c];
    var s1 := Replace(s, ['\\'], "\\\\");
    var s2 := Replace(s1, ['\''], "\\'");
    var s3 := Replace(s2, ['"'], "\\\"");
    var s4 := Replace(s3, ['\n'], "\\n");
    Pass(s, '\\', "\\\\");
    assert s1 == if c == '\\' then "\\\\" else s;
    Pass(s1, '\'', "\\'");
    assert s2 == if c == '\'' then "\\'" else s1;
    Pass(s2, '"', "\\\"");
    assert s3 == if c == '"' then "\\\"" else s2;
    Pass(s3, '\n', "\\n");
    assert s4 == if c == '\n' then "\\n" else s3;
    Pass(s4, '\r', "\\r");
  }

  /** A replace leaves a string without its character alone. */
  lemma {:induction false} Pass(s: string, c: char, t: string)
    ensures c !in s ==> Replace(s, [c], t) == s
    ensures s == [c] ==> Replace(s, [c], t) == t
  {
    if s != "" {
      Pass(s[1..], c, t);
      ReplaceOne(s, c, t);
      assert s == [s[0]] + s[1..];
    }
  }

  lemma EscapedConcat(a: string, b: string)
    ensures Escaped(a + b) == Escaped(a) + Escaped(b)
  {
    ReplaceConcat(a, b, '\\', "\\\\");
    var a1, b1 := Replace(a, ['\\'], "\\\\"), Replace(b, ['\\'], "\\\\");
    ReplaceConcat(a1, b1, '\'', "\\'");
    var a2, b2 := Replace(a1, ['\''], "\\'"), Replace(b1, ['\''], "\\'");
    ReplaceConcat(a2, b2, '"', "\\\"");
    var a3, b3 := Replace(a2, ['"'], "\\\""), Replace(b2, ['"'], "\\\"");
    ReplaceConcat(a3, b3, '\n', "\\n");
    ReplaceConcat(Replace(a3, ['\n'], "\\n"), Replace(b3, ['\n'], "\\n"), '\r', "\\r");
  }

  /** The chain of replaces is one pass over the characters. */
  lemma {:induction false} EscapedIsOnePass(s: string)
    ensures Escaped(s) == EscapeEach(s)
  {
    if s != "" {
      EscapedIsOnePass(s[1..]);
      EscapedChar(s[0]);
      EscapedConcat([s[0]], s[1..]);
      assert s == [s[0]] + s[1..];
    }
  }

  lemma LiteralStep(c: char, rest: string)
    ensures LiteralValue(EscapeChar(c) + rest) == Prepend(c, LiteralValue(rest))
  {
    var t := EscapeChar(c);
    assert (t + rest)[|t|..] == rest;
  }

  /** The escaped body stays inside its literal, which denotes the body again. */
  lemma {:induction false} LiteralOfEscaped(s: string)
    ensures LiteralValue(Escaped(s)) == Some(s)
  {
    EscapedIsOnePass(s);
    if s != "" {
      hide Escaped;
      LiteralOfEscaped(s[1..]);
      EscapedIsOnePass(s[1..]);
      LiteralStep(s[0], EscapeEach(s[1..]));
      assert s == [s[0]] + s[1..];
    }
  }

  lemma BodyReadBack(body: Option<string>)
    ensures LiteralValue(BodyEscaped(body)) == Some(if body.Some? then body.value else "")
  {
    LiteralOfEscaped(if body.Some? then body.value else "");
  }

  lemma EscapedInjective(s: string, t: string)
    requires Escaped(s) == Escaped(t)
    ensures s == t
  {
    LiteralOfEscaped(s);
    LiteralOfEscaped(t);
  }

  // ----- attribute values

  /** The four replaces of `escape_attr`, in order. */
  function AttrEscaped(s: string): string {
    Replace(Replace(Replace(Replace(s, ['&'], "&amp;"), ['"'], "&quot;"), ['<'], "&lt;"), ['>'], "&gt;")
  }

  function AttrChar(c: char): string {
    if c == '&' then "&amp;" else if c == '"' then "&quot;" else if c == '<' then "&lt;"
    else if c == '>' then "&gt;" else [c]
  }

  function AttrEach(s: string): string {
    if s == "" then "" else AttrChar(s[0]) + AttrEach(s[1..])
  }

  /** What may follow the ampersand of a character reference; the equals sign matters to
      references without a semicolon inside attributes. */
  predicate IsWord(c: char) {
    'a' <= c <= 'z' || 'A' <= c <= 'Z' || '0' <= c <= '9' || c == '#' || c == ';' || c == '='
  }

  /** The word at the front of a string. */
  function Word(s: string): (w: string)
    ensures w <= s && forall c :: c in w ==> IsWord(c)
  {
    if s == "" || !IsWord(s[0]) then "" else [s[0]] + Word(s[1..])
  }

  /** The character references a browser knows: given the word after an ampersand, how many
      characters from the ampersand on form a reference, if any do, and what they stand for.
      The table of the HTML Standard (section 13.5) with the numeric references and the
      rules for missing semicolons is one of them. */
  datatype References = References(lookup: string -> Option<(nat, string)>)
  {
    /** What is recognised at the ampersand before the word, if it is longer than what it
        stands for, as every reference is. */
    function Recognised(w: string): (r: Option<(nat, string)>)
      ensures r.Some? ==> |r.value.1| < r.value.0 <= 1 + |w|
    {
      var r := lookup(w);
      if r.Some? && |r.value.1| < r.value.0 <= 1 + |w| then r else None
    }

    predicate IsReference(s: string) {
      s != "" && s[0] == '&' && Recognised(Word(s[1..])).Some?
    }

    /** How much of the front of a string is decoded at once, and to what. */
    function Front(s: string): (r: (nat, string))
      requires s != ""
      ensures 1 <= r.0 <= |s|
    {
      if IsReference(s) then Recognised(Word(s[1..])).value else (1, [s[0]])
    }

    /** Character references decoded from left to right. */
    function Decoded(s: string): string
      decreases |s|
    {
      if s == "" then "" else Front(s).1 + Decoded(s[Front(s).0..])
    }

    /** A reference begins somewhere in the string. */
    predicate OccurIn(s: string) {
      s != "" && (IsReference(s) || OccurIn(s[1..]))
    }

    /** A name stands for a character, whatever follows it. */
    ghost predicate Knows(name: string, c: char) {
      forall w :: lookup(name + w) == Some((1 + |name|, [c]))
    }

    /** The four references of `escape_attr` are known. */
    ghost predicate KnowsEscapes() {
      Knows("amp;", '&') && Knows("quot;", '"') && Knows("lt;", '<') && Knows("gt;", '>')
    }
  }

  /** No reference contains a character that a later replace looks for. */
  lemma ReferencesPass()
    ensures '"' !in "&amp;" && '<' !in "&amp;" && '>' !in "&amp;"
    ensures '<' !in "&quot;" && '>' !in "&quot;" && '>' !in "&lt;"
  {
  }

  lemma AttrEscapedChar(c: char)
    ensures AttrEscaped([c]) == AttrChar(c)
  {
    ReferencesPass();
    var s := [c];
    var s1 := Replace(s, ['&'], "&amp;");
    Pass(s, '&', "&amp;");
    assert s1 == if c == '&' then "&amp;" else s;
    var s2 := Replace(s1, ['"'], "&quot;");
    Pass(s1, '"', "&quot;");
    assert s2 == if c == '"' then "&quot;" else s1;
    var s3 := Replace(s2, ['<'], "&lt;");
    Pass(s2, '<', "&lt;");
    assert s3 == if c == '<' then "&lt;" else s2;
    Pass(s3, '>', "&gt;");
  }

  lemma AttrConcat(a: string, b: string)
    ensures AttrEscaped(a + b) == AttrEscaped(a) + AttrEscaped(b)
  {
    ReplaceConcat(a, b, '&', "&amp;");
    var a1, b1 := Replace(a, ['&'], "&amp;"), Replace(b, ['&'], "&amp;");
    ReplaceConcat(a1, b1, '"', "&quot;");
    var a2, b2 := Replace(a1, ['"'], "&quot;"), Replace(b1, ['"'], "&quot;");
    ReplaceConcat(a2, b2, '<', "&lt;");
    ReplaceConcat(Replace(a2, ['<'], "&lt;"), Replace(b2, ['<'], "&lt;"), '>', "&gt;");
  }

  lemma {:induction false} AttrIsOnePass(s: string)
    ensures AttrEscaped(s) == AttrEach(s)
  {
    if s != "" {
      AttrIsOnePass(s[1..]);
      AttrEscapedChar(s[0]);
      AttrConcat([s[0]], s[1..]);
      assert s == [s[0]] + s[1..];
    }
  }

  /** The escaped value contains no delimiter. */
  lemma {:induction false} NoDelimiters(s: string)
    ensures '"' !in AttrEscaped(s) && '<' !in AttrEscaped(s) && '>' !in AttrEscaped(s)
  {
    AttrIsOnePass(s);
    if s != "" {
      NoDelimiters(s[1..]);
      AttrIsOnePass(s[1..]);
      NoDelimitersInChar(s[0]);
    }
  }

  lemma NoDelimitersInChar(c: char)
    ensures '"' !in AttrChar(c) && '<' !in AttrChar(c) && '>' !in AttrChar(c)
  {
  }

  /** The escaped value decodes to the value, whatever other references there are. */
  lemma {:induction false} DecodedAttr(refs: References, s: string)
    requires refs.KnowsEscapes()
    ensures refs.Decoded(AttrEscaped(s)) == s
  {
    if s == "" {
      assert AttrEscaped(s) == "";
    } else {
      hide AttrEscaped, AttrChar, References.Decoded, References.KnowsEscapes;
      AttrIsOnePass(s);
      DecodedAttr(refs, s[1..]);
      AttrIsOnePass(s[1..]);
      DecodeStep(refs, s[0], AttrEach(s[1..]));
      assert s == [s[0]] + s[1..];
    }
  }

  lemma WordCons(c: char, s: string)
    ensures Word([c] + s) == if IsWord(c) then [c] + Word(s) else ""
  {
    assert ([c] + s)[1..] == s;
  }

  lemma {:induction false} WordAppend(a: string, b: string)
    requires forall c :: c in a ==> IsWord(c)
    ensures Word(a + b) == a + Word(b)
  {
    hide Word;
    if a == "" {
      assert a + b == b && a + Word(b) == Word(b);
    } else {
      var c, rest := a[0], a[1..];
      assert c in a && forall d :: d in rest ==> d in a;
      WordAppend(rest, b);
      assert a == [c] + rest;
      WordCons(c, rest + b);
      Associative([c], rest, b);
      Associative([c], rest, Word(b));
    }
  }

  lemma NameAtFront(refs: References, name: string, c: char, rest: string)
    requires name != "" && forall d :: d in name ==> IsWord(d)
    requires refs.Knows(name, c)
    ensures refs.Decoded("&" + name + rest) == [c] + refs.Decoded(rest)
  {
    var s := "&" + name + rest;
    Associative("&", name, rest);
    WordAppend(name, rest);
    assert s[1..] == name + rest;
    hide Word, IsWord;
    assert refs.IsReference(s) && refs.Front(s) == (1 + |name|, [c]);
    assert s[1 + |name|..] == rest;
  }

  lemma DecodeStep(refs: References, c: char, rest: string)
    requires refs.KnowsEscapes()
    ensures refs.Decoded(AttrChar(c) + rest) == [c] + refs.Decoded(rest)
  {
    hide References.Decoded;
    match c
    case '&' => assert "&" + "amp;" == "&amp;"; NameAtFront(refs, "amp;", c, rest);
    case '"' => assert "&" + "quot;" == "&quot;"; NameAtFront(refs, "quot;", c, rest);
    case '<' => assert "&" + "lt;" == "&lt;"; NameAtFront(refs, "lt;", c, rest);
    case '>' => assert "&" + "gt;" == "&gt;"; NameAtFront(refs, "gt;", c, rest);
    case _ => DecodedChar(refs, c, rest);
  }

  lemma DecodedChar(refs: References, c: char, rest: string)
    requires c != '&'
    ensures refs.Decoded([c] + rest) == [c] + refs.Decoded(rest)
  {
    assert ([c] + rest)[1..] == rest;
  }

  // ----- a script string inside an attribute

  /** What of a text ends up in a double-quoted attribute value. */
  function UpToQuote(s: string): string {
    if s == "" || s[0] == '"' then "" else [s[0]] + UpToQuote(s[1..])
  }

  /** A single-quoted literal at the start of a script: its value and what follows the
      closing quote; `None` if nothing closes it. */
  function ClosedLiteral(s: string): Option<(string, string)> {
    if s == "" || s[0] == '\n' || s[0] == '\r' then None
    else if s[0] == '\'' then Some(("", s[1..]))
    else if s[0] != '\\' then PrependTo(s[0], ClosedLiteral(s[1..]))
    else if |s| == 1 then None
    else
      var rest := ClosedLiteral(s[2..]);
      if s[1] == '\\' || s[1] == '\'' || s[1] == '"' then PrependTo(s[1], rest)
      else if s[1] == 'n' then PrependTo('\n', rest)
      else if s[1] == 'r' then PrependTo('\r', rest)
      else None
  }

  function PrependTo(c: char, rest: Option<(string, string)>): Option<(string, string)> {
    if rest.None? then None else Some(([c] + rest.value.0, rest.value.1))
  }

  const END := "')"
  const QUOTE := "\""

  /** What the handler of a row of the history table passes on as the body: the text that
      follows the opening quote of the literal is cut at the end of the attribute, its
      character references are decoded, and the rest is read as a script; `None` if that
      is not the call the code has written. */
  function Received(refs: References, body: string): Option<string>
  {
    var literal := ClosedLiteral(refs.Decoded(UpToQuote(Escaped(body) + (END + QUOTE))));
    if literal.Some? && literal.value.1 == ")" then Some(literal.value.0) else None
  }

  /** Text that escaping leaves alone. */
  predicate IsPlain(w: string) {
    forall c :: c in w ==> c !in "\\'\"\n\r"
  }

  lemma WordsArePlain(w: string)
    requires forall c :: c in w ==> IsWord(c)
    ensures IsPlain("&" + w)
  {
  }

  lemma EscapeSplit(c: char, s: string)
    ensures EscapeEach([c] + s) == EscapeChar(c) + EscapeEach(s)
  {
    assert ([c] + s)[1..] == s;
  }

  lemma {:induction false} EscapePlain(w: string, s: string)
    requires IsPlain(w)
    ensures EscapeEach(w + s) == w + EscapeEach(s)
  {
    if w == "" {
      assert w + s == s;
    } else {
      var c, rest := w[0], w[1..];
      assert c in w && forall d :: d in rest ==> d in w;
      assert EscapeChar(c) == [c];
      hide EscapeEach, EscapeChar;
      EscapePlain(rest, s);
      Associative([c], rest, s);
      Associative([c], rest, EscapeEach(s));
      assert w == [c] + rest;
      EscapeSplit(c, rest + s);
    }
  }

  // ----- decoding what was escaped

  predicate IsEnd(end: string) {
    end == END || end == "\\"
  }

  /** Escaping does not lengthen or shorten a word. */
  lemma {:induction false} WordEscaped(s: string, end: string)
    requires IsEnd(end)
    ensures Word(EscapeEach(s) + end) == Word(s)
  {
    if s == "" {
      assert EscapeEach(s) + end == end;
    } else {
      var c, rest := s[0], EscapeEach(s[1..]) + end;
      Associative(EscapeChar(c), EscapeEach(s[1..]), end);
      if IsWord(c) {
        WordEscaped(s[1..], end);
        assert ([c] + rest)[1..] == rest;
      } else {
        assert !IsWord(EscapeChar(c)[0]);
      }
    }
  }

  /** The text a reference, or a character that is not escaped, is decoded from. */
  lemma FrontIsPlain(refs: References, s: string)
    requires s != "" && |EscapeChar(s[0])| == 1
    ensures IsPlain(s[..refs.Front(s).0])
  {
    if refs.IsReference(s) {
      var w := Word(s[1..]);
      WordsArePlain(w);
      var n := refs.Front(s).0;
      assert s[..n] == ("&" + w)[..n];
      forall c | c in s[..n] ensures c !in "\\'\"\n\r" { assert c in "&" + w; }
    }
  }

  lemma SameFront(refs: References, s: string, end: string)
    requires s != "" && IsEnd(end) && |EscapeChar(s[0])| == 1
    ensures refs.Front(EscapeEach(s) + end) == refs.Front(s)
  {
    var whole, rest := EscapeEach(s) + end, EscapeEach(s[1..]) + end;
    Associative(EscapeChar(s[0]), EscapeEach(s[1..]), end);
    assert whole == [s[0]] + rest;
    hide EscapeEach, Word, IsWord;
    assert whole[1..] == rest;
    WordEscaped(s[1..], end);
  }

  /** What the escaped text, with the end that follows it, decodes to. */
  function Text(refs: References, s: string, end: string): string
  {
    refs.Decoded(EscapeEach(s) + end)
  }

  lemma TextPlain(refs: References, s: string, end: string)
    requires s != "" && IsEnd(end) && |EscapeChar(s[0])| == 1
    ensures var (n, w) := refs.Front(s); Text(refs, s, end) == w + Text(refs, s[n..], end)
  {
    var n := refs.Front(s).0;
    FrontIsPlain(refs, s);
    SameFront(refs, s, end);
    hide EscapeEach, EscapeChar, IsPlain, Word;
    assert s == s[..n] + s[n..];
    EscapePlain(s[..n], s[n..]);
    Associative(s[..n], EscapeEach(s[n..]), end);
    assert (EscapeEach(s) + end)[n..] == EscapeEach(s[n..]) + end;
  }

  lemma TextEscape(refs: References, s: string, end: string)
    requires s != "" && |EscapeChar(s[0])| == 2
    ensures Text(refs, s, end) == EscapeChar(s[0]) + Text(refs, s[1..], end)
  {
    var t, rest := EscapeChar(s[0]), EscapeEach(s[1..]) + end;
    Associative(t, EscapeEach(s[1..]), end);
    assert t == [t[0]] + [t[1]] && t[0] != '&' && t[1] != '&';
    hide EscapeEach, EscapeChar;
    Associative([t[0]], [t[1]], rest);
    Associative([t[0]], [t[1]], refs.Decoded(rest));
    DecodedChar(refs, t[1], rest);
    DecodedChar(refs, t[0], [t[1]] + rest);
  }

  lemma DecodedEnd(refs: References, c: char)
    requires c != '&'
    ensures refs.Decoded([c]) == [c]
  {
    assert [c] == [c] + "" && [c][1..] == "";
  }

  lemma TextEnd(refs: References, end: string)
    requires IsEnd(end)
    ensures Text(refs, "", end) == end
  {
    assert EscapeEach("") + end == end;
    hide References.Decoded, EscapeEach;
    if end == END {
      assert END == ['\''] + [')'];
      DecodedEnd(refs, ')');
      DecodedChar(refs, '\'', [')']);
    } else {
      assert end == ['\\'];
      DecodedEnd(refs, '\\');
    }
  }

  // ----- a body with a double quote

  lemma {:induction false} LiteralSuffix(s: string)
    requires ClosedLiteral(s).Some?
    ensures var rest := ClosedLiteral(s).value.1; |rest| < |s| && rest == s[|s| - |rest|..]
    decreases |s|
  {
    if s[0] != '\'' {
      LiteralSuffix(s[if s[0] == '\\' then 2 else 1..]);
    }
  }

  /** A text that was cut ends in a backslash, decoded or not. */
  lemma {:induction false} CutText(refs: References, s: string)
    ensures var t := Text(refs, s, "\\"); t != "" && t[|t| - 1] == '\\'
    decreases |s|
  {
    if s == "" {
      TextEnd(refs, "\\");
    } else if |EscapeChar(s[0])| == 1 {
      hide Text, EscapeEach, References.IsReference, Word;
      CutText(refs, s[refs.Front(s).0..]);
      TextPlain(refs, s, "\\");
    } else {
      CutText(refs, s[1..]);
      TextEscape(refs, s, "\\");
    }
  }

  lemma UpToQuoteStep(c: char, rest: string)
    requires c != '"'
    ensures UpToQuote([c] + rest) == [c] + UpToQuote(rest)
  {
    assert ([c] + rest)[1..] == rest;
  }

  lemma UpToQuoteChar(c: char, rest: string)
    requires c != '"'
    ensures UpToQuote(EscapeChar(c) + rest) == EscapeChar(c) + UpToQuote(rest)
  {
    var t := EscapeChar(c);
    if |t| == 1 {
      UpToQuoteStep(c, rest);
    } else {
      assert t + rest == [t[0]] + ([t[1]] + rest);
      UpToQuoteStep(t[0], [t[1]] + rest);
      UpToQuoteStep(t[1], rest);
      assert t == [t[0]] + [t[1]];
    }
  }

  /** The attribute ends at the first double quote of the body, or after it. */
  lemma {:induction false} CutAtQuote(s: string) returns (before: string, end: string)
    ensures UpToQuote(EscapeEach(s) + (END + QUOTE)) == EscapeEach(before) + end
    ensures if '"' in s then end == "\\" else end == END && before == s
  {
    if s == "" {
      before, end := "", END;
      NothingToCut();
    } else {
      var c, rest := s[0], EscapeEach(s[1..]) + (END + QUOTE);
      Associative(EscapeChar(c), EscapeEach(s[1..]), END + QUOTE);
      if c == '"' {
        before, end := "", "\\";
        CutHere(rest);
      } else {
        before, end := CutAtQuote(s[1..]);
        UpToQuoteChar(c, rest);
        Associative(EscapeChar(c), EscapeEach(before), end);
        EscapeSplit(c, before);
        before := [c] + before;
      }
    }
  }

  lemma NothingToCut()
    ensures UpToQuote(EscapeEach("") + (END + QUOTE)) == EscapeEach("") + END
  {
    assert EscapeEach("") + (END + QUOTE) == "')\"" && EscapeEach("") + END == "')";
    UpToQuoteStep('\'', ")\"");
    UpToQuoteStep(')', "\"");
  }

  lemma CutHere(rest: string)
    ensures UpToQuote(EscapeChar('"') + rest) == EscapeEach("") + "\\"
  {
    var quoted := "\"" + rest;
    assert EscapeChar('"') + rest == ['\\'] + quoted;
    UpToQuoteStep('\\', quoted);
  }

  /** What is received is read off the text up to the cut. */
  lemma ReceivedFrom(refs: References, body: string) returns (before: string, end: string)
    ensures if '"' in body then end == "\\" else end == END && before == body
    ensures var literal := ClosedLiteral(Text(refs, before, end));
            Received(refs, body) == if literal.Some? && literal.value.1 == ")" then Some(literal.value.0) else None
  {
    EscapedIsOnePass(body);
    hide Escaped, EscapeEach, ClosedLiteral, UpToQuote, References.Decoded;
    before, end := CutAtQuote(body);
  }

  lemma QuoteBreaks(refs: References, body: string)
    requires '"' in body
    ensures Received(refs, body) == None
  {
    hide Received, Text, ClosedLiteral;
    var before, end := ReceivedFrom(refs, body);
    CutText(refs, before);
    var t := Text(refs, before, end);
    if ClosedLiteral(t).Some? { LiteralSuffix(t); }
  }

  // ----- a body with references

  /** How many characters a literal's text can stand for at most: an escape counts once it
      is complete; `pending` tells that a backslash has just been read. */
  function Tokens(s: string, pending: bool): nat {
    if s == "" then 0
    else if !pending && s[0] == '\\' then Tokens(s[1..], true)
    else 1 + Tokens(s[1..], false)
  }

  lemma {:induction false} LiteralTokens(s: string)
    requires ClosedLiteral(s).Some?
    ensures Tokens(s, false) == |ClosedLiteral(s).value.0| + 1 + Tokens(ClosedLiteral(s).value.1, false)
    decreases |s|
  {
    if s[0] == '\\' {
      assert s[1..][1..] == s[2..];
      LiteralTokens(s[2..]);
    } else if s[0] != '\'' {
      LiteralTokens(s[1..]);
    }
  }

  /** Text in front adds at most its length, whatever backslashes it contains. */
  lemma {:induction false} TokensInFront(w: string, s: string, n: int)
    requires Tokens(s, false) <= n && Tokens(s, true) <= n + 1
    ensures Tokens(w + s, false) <= |w| + n && Tokens(w + s, true) <= |w| + n + 1
    ensures w != "" ==> Tokens(w + s, true) <= |w| + n
  {
    if w == "" {
      assert w + s == s;
    } else {
      TokensInFront(w[1..], s, n);
      assert (w + s)[1..] == w[1..] + s;
    }
  }

  /** The most tokens an escaped text may have. */
  function Limit(refs: References, s: string): nat {
    if refs.OccurIn(s) then |s| + 1 else |s| + 2
  }

  lemma LimitStep(refs: References, s: string)
    requires s != ""
    ensures var (n, w) := refs.Front(s);
            if refs.IsReference(s) then |w| + Limit(refs, s[n..]) <= Limit(refs, s)
            else n == |w| == 1 && 1 + Limit(refs, s[1..]) == Limit(refs, s)
  {
  }

  lemma EmptyTokens(refs: References)
    ensures Tokens(Text(refs, "", END), false) == 2 == Tokens(Text(refs, "", END), true)
  {
    hide Text, Tokens;
    TextEnd(refs, END);
    BothTokens();
  }

  lemma BothTokens()
    ensures Tokens(END, false) == 2 == Tokens(END, true)
  {
    assert END[1..] == ")" && ")"[1..] == "";
  }

  /** An escaped text stands for no more characters than were escaped, and for fewer if it
      contains a reference, even one that stands for a backslash. */
  lemma {:induction false} TextTokens(refs: References, s: string)
    ensures Tokens(Text(refs, s, END), false) <= Limit(refs, s)
    ensures Tokens(Text(refs, s, END), true) <= Limit(refs, s) + 1
    decreases |s|
  {
    if s == "" {
      EmptyTokens(refs);
    } else if |EscapeChar(s[0])| == 1 {
      hide Text, Tokens, Limit, EscapeChar, References.IsReference, References.OccurIn;
      var (n, w) := refs.Front(s);
      TextTokens(refs, s[n..]);
      TextPlain(refs, s, END);
      LimitStep(refs, s);
      TokensInFront(w, Text(refs, s[n..], END), Limit(refs, s[n..]));
    } else {
      EscapeLimit(refs, s);
      hide Text, Tokens, Limit, References.OccurIn;
      TextTokens(refs, s[1..]);
      TextEscape(refs, s, END);
      EscapeTokens(s[0], Text(refs, s[1..], END));
    }
  }

  lemma EscapeLimit(refs: References, s: string)
    requires s != "" && |EscapeChar(s[0])| == 2
    ensures 1 + Limit(refs, s[1..]) == Limit(refs, s)
  {
    assert s[0] != '&';
  }

  lemma EscapeTokens(c: char, rest: string)
    requires |EscapeChar(c)| == 2
    ensures Tokens(EscapeChar(c) + rest, false) == 1 + Tokens(rest, false)
    ensures Tokens(EscapeChar(c) + rest, true) <= 2 + Tokens(rest, false) || Tokens(EscapeChar(c) + rest, true) == 1 + Tokens(rest, true)
  {
    var s := EscapeChar(c) + rest;
    assert s[1..] == [EscapeChar(c)[1]] + rest && s[1..][1..] == rest;
  }

  lemma EndTokens()
    ensures Tokens(")", false) == 1
  {
    assert ")"[1..] == "";
  }

  /** What is received is never longer than the body, and shorter if the body contains a
      reference. */
  lemma ReceivedLength(refs: References, body: string)
    requires '"' !in body && Received(refs, body).Some?
    ensures |Received(refs, body).value| <= if refs.OccurIn(body) then |body| - 1 else |body|
  {
    assert Limit(refs, body) == if refs.OccurIn(body) then |body| + 1 else |body| + 2;
    hide Received, Text, ClosedLiteral, Tokens, References.OccurIn;
    var before, end := ReceivedFrom(refs, body);
    EndTokens();
    LiteralTokens(Text(refs, body, END));
    TextTokens(refs, body);
  }

  // ----- references that stand for harmless text

  /** No reference in the string stands for a character that means something in a literal. */
  ghost predicate Harmless(refs: References, s: string)
  {
    s == "" ||
    ((refs.IsReference(s) ==> forall c :: c in refs.Front(s).1 ==> c !in "\\'\n\r") && Harmless(refs, s[1..]))
  }

  lemma {:induction false} HarmlessRest(refs: References, s: string, n: nat)
    requires Harmless(refs, s) && n <= |s|
    ensures Harmless(refs, s[n..])
  {
    if n == 0 {
      assert s[0..] == s;
    } else {
      HarmlessRest(refs, s[1..], n - 1);
      assert s[1..][n - 1..] == s[n..];
    }
  }

  lemma {:induction false} LiteralOfPlain(w: string, rest: string)
    requires forall c :: c in w ==> c !in "\\'\n\r"
    ensures ClosedLiteral(w + rest) == if ClosedLiteral(rest).None? then None
              else Some((w + ClosedLiteral(rest).value.0, ClosedLiteral(rest).value.1))
  {
    if w == "" {
      assert w + rest == rest;
      assert ClosedLiteral(rest).Some? ==> w + ClosedLiteral(rest).value.0 == ClosedLiteral(rest).value.0;
    } else {
      var c, v := w[0], w[1..];
      assert c in w && forall d :: d in v ==> d in w;
      LiteralOfPlain(v, rest);
      assert (w + rest)[1..] == v + rest;
      if ClosedLiteral(rest).Some? { assert [c] + (v + ClosedLiteral(rest).value.0) == w + ClosedLiteral(rest).value.0; }
    }
  }

  lemma EscapeLiteral(c: char, rest: string)
    requires |EscapeChar(c)| == 2
    ensures ClosedLiteral(EscapeChar(c) + rest) == PrependTo(c, ClosedLiteral(rest))
  {
    assert (EscapeChar(c) + rest)[2..] == rest;
  }

  lemma HarmlessFront(refs: References, s: string)
    requires Harmless(refs, s) && s != "" && |EscapeChar(s[0])| == 1
    ensures forall c :: c in refs.Front(s).1 ==> c !in "\\'\n\r"
    ensures refs.Decoded(s) == refs.Front(s).1 + refs.Decoded(s[refs.Front(s).0..])
  {
  }

  lemma {:induction false} HarmlessText(refs: References, s: string)
    requires Harmless(refs, s)
    ensures ClosedLiteral(Text(refs, s, END)) == Some((refs.Decoded(s), ")"))
    decreases |s|
  {
    if s == "" {
      HarmlessEnd(refs);
    } else if |EscapeChar(s[0])| == 1 {
      hide Text, EscapeChar, ClosedLiteral, Harmless, References.IsReference, References.Front, References.Decoded;
      var (n, w) := refs.Front(s);
      HarmlessFront(refs, s);
      HarmlessRest(refs, s, n);
      HarmlessText(refs, s[n..]);
      TextPlain(refs, s, END);
      LiteralOfPlain(w, Text(refs, s[n..], END));
    } else {
      var c, rest := s[0], s[1..];
      assert s == [c] + rest && c != '&';
      HarmlessRest(refs, s, 1);
      hide Text, EscapeChar, ClosedLiteral, Harmless, References.IsReference, References.Front, References.Decoded;
      HarmlessText(refs, rest);
      TextEscape(refs, s, END);
      EscapeLiteral(c, Text(refs, rest, END));
      DecodedChar(refs, c, rest);
    }
  }

  lemma HarmlessEnd(refs: References)
    ensures ClosedLiteral(Text(refs, "", END)) == Some((refs.Decoded(""), ")"))
  {
    hide Text;
    TextEnd(refs, END);
    assert END[1..] == ")";
  }

  lemma {:induction false} NothingToDecode(refs: References, s: string)
    requires !refs.OccurIn(s)
    ensures Harmless(refs, s) && refs.Decoded(s) == s
  {
    if s != "" {
      NothingToDecode(refs, s[1..]);
      assert s == [s[0]] + s[1..];
    }
  }

  // ----- which bodies survive

  /** What the handler receives: nothing for a body with a double quote, for the attribute
      ends there although the quote is escaped for the script; the body with its references
      decoded if they stand for harmless text; and in any case nothing longer than the body,
      and something shorter if it contains a reference. */
  lemma ReceivedBody(refs: References, body: string)
    ensures '"' in body ==> Received(refs, body) == None
    ensures '"' !in body && Harmless(refs, body) ==> Received(refs, body) == Some(refs.Decoded(body))
    ensures Received(refs, body).Some? ==>
              |Received(refs, body).value| <= if refs.OccurIn(body) then |body| - 1 else |body|
  {
    if '"' in body {
      QuoteBreaks(refs, body);
    } else {
      if Received(refs, body).Some? { ReceivedLength(refs, body); }
      if Harmless(refs, body) {
        var before, end := ReceivedFrom(refs, body);
        HarmlessText(refs, body);
      }
    }
  }

  /** Whatever references the browser knows, exactly the bodies without a double quote and
      without a reference survive both the attribute and the literal. */
  lemma BodySurvives(refs: References, body: string)
    ensures Received(refs, body) == Some(body) <==> '"' !in body && !refs.OccurIn(body)
  {
    ReceivedBody(refs, body);
    if !refs.OccurIn(body) { NothingToDecode(refs, body); }
  }

  lemma ClosedAtOnce(rest: string)
    ensures ClosedLiteral("'" + rest) == Some(("", rest))
  {
    assert ("'" + rest)[1..] == rest;
  }

  /** A reference that stands for a single quote ends the literal. */
  lemma QuoteReferenceBreaks(refs: References, body: string)
    requires refs.IsReference(body) && refs.Front(body).1 == "'"
    ensures Received(refs, body) == None
  {
    assert |EscapeChar(body[0])| == 1;
    hide Received, Text, ClosedLiteral, References.IsReference, References.Front, EscapeChar, IsPlain;
    if '"' in body {
      QuoteBreaks(refs, body);
    } else {
      var before, end := ReceivedFrom(refs, body);
      var rest := body[refs.Front(body).0..];
      TextPlain(refs, body, END);
      TextIsLonger(refs, rest);
      ClosedAtOnce(Text(refs, rest, END));
    }
  }

  /** The end the code has written stays at the end of the text. */
  lemma {:induction false} TextIsLonger(refs: References, s: string)
    ensures |Text(refs, s, END)| >= 2
    decreases |s|
  {
    if s == "" {
      TextEnd(refs, END);
    } else if |EscapeChar(s[0])| == 1 {
      hide Text, References.IsReference, References.Front;
      TextIsLonger(refs, s[refs.Front(s).0..]);
      TextPlain(refs, s, END);
    } else {
      TextEscape(refs, s, END);
    }
  }

  /** The numeric reference for a single quote: no double quote, nothing that escaping
      touches, and the call breaks. */
  lemma NumericQuoteBreaks(refs: References)
    requires refs.lookup("#39;") == Some((5, "'"))
    ensures Received(refs, "&#39;") == None && Escaped("&#39;") == "&#39;"
  {
    var body := "&#39;";
    NumericWord(body);
    QuoteReferenceBreaks(refs, body);
    EscapedPlain(body);
  }

  lemma EscapedPlain(body: string)
    requires IsPlain(body)
    ensures Escaped(body) == body
  {
    EscapedIsOnePass(body);
    EscapePlain(body, "");
    assert body + "" == body && EscapeEach("") == "" && body + EscapeEach("") == body;
  }

  lemma NumericWord(body: string)
    requires body == "&#39;"
    ensures body[0] == '&' && Word(body[1..]) == "#39;" && IsPlain(body)
  {
    var w := "#39;";
    assert body[1..] == w + "" && w + Word("") == w;
    WordAppend(w, "");
    WordsArePlain(w);
    assert "&" + w == body;
  }

  // ----- references given as a table

  /** The longest entry of a table that begins the text, if it is no longer than `n`. */
  function Longest(table: map<string, string>, text: string, n: nat): (r: Option<(nat, string)>)
    requires n <= |text|
    ensures r.Some? ==> 1 <= r.value.0 <= n && text[..r.value.0] in table && table[text[..r.value.0]] == r.value.1
    ensures r.None? ==> forall k :: 1 <= k <= n ==> text[..k] !in table
  {
    if n == 0 then None
    else if text[..n] in table then Some((n, table[text[..n]]))
    else Longest(table, text, n - 1)
  }

  function TableOf(table: map<string, string>): References {
    References(w => Longest(table, "&" + w, 1 + |w|))
  }

  /** An ampersand followed by letters, digits and the like, standing for something shorter. */
  ghost predicate IsTable(table: map<string, string>) {
    forall r :: r in table ==>
      r != "" && r[0] == '&' && (forall c :: c in r[1..] ==> IsWord(c)) && |table[r]| < |r|
  }

  /** An entry begins the string exactly if it begins the ampersand with its word. */
  lemma EntryInWord(s: string, r: string)
    requires s != "" && s[0] == '&' && r != "" && r[0] == '&' && forall c :: c in r[1..] ==> IsWord(c)
    ensures r <= s <==> r <= "&" + Word(s[1..])
  {
    var w := Word(s[1..]);
    assert "&" + w == s[..1 + |w|];
    if r <= s {
      assert s[1..] == r[1..] + s[|r|..];
      WordAppend(r[1..], s[|r|..]);
      assert r == ("&" + w)[..|r|];
    }
  }

  lemma EntryInFront(table: map<string, string>, s: string)
    requires IsTable(table) && s != ""
    ensures TableOf(table).IsReference(s) <==> exists r :: r in table && r <= s
  {
    if s[0] == '&' {
      var text := "&" + Word(s[1..]);
      forall r | r in table ensures r <= s <==> r <= text { EntryInWord(s, r); }
      hide Word, IsWord;
      var found := Longest(table, text, |text|);
      if found.Some? {
        assert text[..found.value.0] <= text;
      }
      if r :| r in table && r <= text {
        assert r == text[..|r|] && 1 <= |r| <= |text|;
      }
    } else {
      forall r | r in table ensures !(r <= s) { assert r[0] == '&'; }
    }
  }

  lemma ContainsUnfolds(s: string, r: string)
    requires s != ""
    ensures Contains(s, r) <==> r <= s || Contains(s[1..], r)
  {
    assert s[1..] == s[1..|s|];
    if Contains(s[1..], r) { Within(s, 1, |s|, r); }
    if r <= s { assert OccursAt(s, r, 0); }
    if k :| OccursAt(s, r, k) {
      if k > 0 { assert OccursAt(s[1..], r, k - 1); }
    }
  }

  /** A reference occurs exactly where an entry of the table does. */
  lemma {:induction false} EntriesOccur(table: map<string, string>, s: string)
    requires IsTable(table)
    ensures TableOf(table).OccurIn(s) <==> exists r :: r in table && Contains(s, r)
  {
    if s == "" {
      forall r | r in table ensures !Contains(s, r) { assert r != ""; }
    } else {
      EntriesOccur(table, s[1..]);
      EntryInFront(table, s);
      forall r | r in table ensures Contains(s, r) <==> r <= s || Contains(s[1..], r) { ContainsUnfolds(s, r); }
      hide Contains, Word, TableOf, References.IsReference;
    }
  }

  /** For every table of references: a body survives if and only if it contains neither a
      double quote nor an entry of the table. */
  lemma BodySurvivesTable(table: map<string, string>, body: string)
    requires IsTable(table)
    ensures Received(TableOf(table), body) == Some(body) <==>
            '"' !in body && !exists r :: r in table && Contains(body, r)
  {
    BodySurvives(TableOf(table), body);
    EntriesOccur(table, body);
  }
}
