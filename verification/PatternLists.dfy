/** What a list of index patterns normalises to (src/handlers/search.rs). */
module PatternLists {
  import opened Strings
  import opened IndexPatterns

  /** The segments of a text that is not trimmed first. */
  function Segments(s: string): seq<string> {
    TrimmedParts(Split(Commas(s), ','))
  }

  /** The comma list of some segments, `*` for none. */
  function CommaList(parts: seq<string>): string {
    if parts == [] then "*" else Join(parts, ',')
  }

  lemma NormalizeSegments(input: string)
    ensures Normalize(input) == CommaList(Segments(Trim(input)))
  {
    if Trim(input) == "" {
      assert Commas("") == "" && Split("", ',') == [""];
      assert [""][1..] == [];
    }
  }

  // ----- commas are boundaries

  lemma ReplaceStep(s: string, p: string)
    requires s != "" && p != ""
    ensures Replace(s, p, ",") ==
            (if p <= s then "," else [s[0]]) + Replace(s[if p <= s then |p| else 1..], p, ",")
  {
  }

  lemma ReplaceEmpty(p: string)
    requires p != ""
    ensures Replace("", p, ",") == ""
  {
  }

  lemma {:induction false} ReplaceOverComma(a: string, b: string, p: string)
    requires p != "" && ',' !in p
    ensures Replace(a + "," + b, p, ",") == Replace(a, p, ",") + "," + Replace(b, p, ",")
  {
    hide Replace;
    var s, n := a + "," + b, if p <= a then |p| else 1;
    PrefixOfHead(a, b, p);
    ReplaceStep(s, p);
    if a == "" {
      assert s[0] == ',' && s[1..] == b && !(p <= a);
      ReplaceEmpty(p);
    } else {
      ReplaceOverComma(a[n..], b, p);
      assert s[n..] == a[n..] + "," + b && s[0] == a[0];
      ReplaceStep(a, p);
      var x, ra, rb := if p <= a then "," else [a[0]], Replace(a[n..], p, ","), Replace(b, p, ",");
      Associative(x, ra + ",", rb);
      Associative(x, ra, ",");
    }
  }

  lemma PrefixOfHead(a: string, b: string, p: string)
    requires ',' !in p
    ensures p <= a + "," + b <==> p <= a
  {
    var s := a + "," + b;
    if |p| > |a| { assert p[|a|] in p && s[|a|] == ','; }
  }

  lemma CommasOverComma(a: string, b: string)
    ensures Commas(a + "," + b) == Commas(a) + "," + Commas(b)
  {
    hide Replace;
    var a1, b1 := Replace(a, " OR ", ","), Replace(b, " OR ", ",");
    ReplaceOverComma(a, b, " OR ");
    var a2, b2 := Replace(a1, " or ", ","), Replace(b1, " or ", ",");
    ReplaceOverComma(a1, b1, " or ");
    var a3, b3 := Replace(a2, " Or ", ","), Replace(b2, " Or ", ",");
    ReplaceOverComma(a2, b2, " Or ");
    var a4, b4 := Replace(a3, " oR ", ","), Replace(b3, " oR ", ",");
    ReplaceOverComma(a3, b3, " oR ");
    var a5, b5 := Replace(a4, "OR", ","), Replace(b4, "OR", ",");
    ReplaceOverComma(a4, b4, "OR");
    ReplaceOverComma(a5, b5, "or");
  }

  lemma TrimmedCons(x: string, rest: seq<string>)
    ensures TrimmedParts([x] + rest) == (if Trim(x) == "" then [] else [Trim(x)]) + TrimmedParts(rest)
  {
    assert ([x] + rest)[1..] == rest;
  }

  lemma {:induction false} TrimmedConcat(xs: seq<string>, ys: seq<string>)
    ensures TrimmedParts(xs + ys) == TrimmedParts(xs) + TrimmedParts(ys)
  {
    hide Trim, TrimmedParts;
    if xs == [] {
      TrimmedNone();
      assert xs + ys == ys && [] + TrimmedParts(ys) == TrimmedParts(ys);
    } else {
      TrimmedConcat(xs[1..], ys);
      assert xs + ys == [xs[0]] + (xs[1..] + ys) && xs == [xs[0]] + xs[1..];
      TrimmedCons(xs[0], xs[1..] + ys);
      TrimmedCons(xs[0], xs[1..]);
      var own := if Trim(xs[0]) == "" then [] else [Trim(xs[0])];
      assert own + (TrimmedParts(xs[1..]) + TrimmedParts(ys)) == own + TrimmedParts(xs[1..]) + TrimmedParts(ys);
    }
  }

  lemma TrimmedNone()
    ensures TrimmedParts([]) == []
  {
  }

  /** The segments on both sides of a comma do not depend on each other. */
  lemma SegmentsOverComma(a: string, b: string)
    ensures Segments(a + "," + b) == Segments(a) + Segments(b)
  {
    hide Commas, Split, TrimmedParts;
    CommasOverComma(a, b);
    SplitConcat(Commas(a), Commas(b), ',');
    TrimmedConcat(Split(Commas(a), ','), Split(Commas(b), ','));
  }

  // ----- spaces around a part

  /** An `or`, of any case. */
  predicate IsOr(w: string) {
    |w| == 2 && (w[0] == 'o' || w[0] == 'O') && (w[1] == 'r' || w[1] == 'R')
  }

  /** One of the six texts that are replaced. */
  predicate IsSeparator(p: string) {
    IsOr(p) || (|p| == 4 && p[0] == ' ' == p[3] && IsOr(p[1..3]))
  }

  predicate LooseIn(s: string, front: string, q: string, back: string) {
    s == front + (q + back) && |q| == 4 && IsSeparator(q) && (AllSpace(front) || AllSpace(back))
  }

  /** An `or` stands between two spaces with nothing but spaces in front of it, or nothing
      but spaces behind it. */
  ghost predicate LooseOr(s: string) {
    exists front, q, back :: LooseIn(s, front, q, back)
  }

  lemma {:induction false} WithoutComma(s: string, p: string)
    requires p != "" && ',' !in Replace(s, p, ",")
    ensures Replace(s, p, ",") == s
  {
    if s != "" {
      var r := Replace(s, p, ",");
      assert r[0] == (if p <= s then ',' else s[0]) && r[0] in r;
      assert r[1..] == Replace(s[1..], p, ",");
      WithoutComma(s[1..], p);
      assert s == [s[0]] + s[1..];
    }
  }

  predicate EndsWith(s: string, w: string) {
    |w| <= |s| && s[|s| - |w|..] == w
  }

  lemma EndOfEnd(x: string, s: string, w: string)
    ensures |w| <= |s| ==> (EndsWith(x + s, w) <==> EndsWith(s, w))
  {
    if |w| <= |s| { assert (x + s)[|x + s| - |w|..] == s[|s| - |w|..]; }
  }

  lemma {:induction false} SuffixBefore(s: string, p: string, w: string)
    requires p != "" && ',' !in w && EndsWith(Replace(s, p, ","), w)
    ensures EndsWith(s, w)
  {
    var r := Replace(s, p, ",");
    if |w| == |r| {
      assert r[|r| - |w|..] == r == w;
      WithoutComma(s, p);
    } else {
      hide Replace, EndsWith;
      ReplaceStep(s, p);
      var n := if p <= s then |p| else 1;
      EndOfEnd(if p <= s then "," else [s[0]], Replace(s[n..], p, ","), w);
      SuffixBefore(s[n..], p, w);
      assert s == s[..n] + s[n..];
      EndsShorter(s[n..], w);
      EndOfEnd(s[..n], s[n..], w);
    }
  }

  lemma EndsShorter(s: string, w: string)
    requires EndsWith(s, w)
    ensures |w| <= |s|
  {
  }

  lemma SpaceIsNoComma(s: string)
    requires AllSpace(s)
    ensures ',' !in s
  {
  }

  lemma StartsLoose(s: string, front: string, q: string)
    requires front + q <= s && |q| == 4 && IsSeparator(q) && AllSpace(front)
    ensures LooseOr(s)
  {
    var back := s[|front + q|..];
    assert s == front + q + back == front + (q + back);
    assert LooseIn(s, front, q, back);
  }

  lemma EndsLoose(s: string, q: string, back: string)
    requires EndsWith(s, q + back) && |q| == 4 && IsSeparator(q) && AllSpace(back)
    ensures LooseOr(s)
  {
    var front := s[..|s| - |q + back|];
    assert s == front + (q + back);
    assert LooseIn(s, front, q, back);
  }

  /** The loose end itself, which has no comma. */
  lemma LooseParts(s: string) returns (front: string, q: string, back: string)
    requires LooseOr(s)
    ensures |q| == 4 && IsSeparator(q)
    ensures || (AllSpace(front) && ',' !in front + q && front + q <= s)
            || (AllSpace(back) && ',' !in q + back && EndsWith(s, q + back))
  {
    front, q, back :| LooseIn(s, front, q, back);
    assert ',' !in q && s == front + q + back;
    assert s[|s| - |q + back|..] == q + back;
  }

  /** Replacing makes no `or` loose. */
  lemma LooseBefore(s: string, p: string)
    requires p != "" && LooseOr(Replace(s, p, ","))
    ensures LooseOr(s)
  {
    var front, q, back := LooseParts(Replace(s, p, ","));
    hide Replace, IsSeparator, LooseOr;
    if AllSpace(front) && ',' !in front + q && front + q <= Replace(s, p, ",") {
      PrefixBefore(s, p, front + q);
      StartsLoose(s, front, q);
    } else {
      SuffixBefore(s, p, q + back);
      EndsLoose(s, q, back);
    }
  }

  lemma {:induction false} ReplaceAfter(pre: string, u: string, p: string)
    requires p != "" && forall k :: OccursAt(pre + u, p, k) ==> |pre| <= k
    ensures Replace(pre + u, p, ",") == pre + Replace(u, p, ",")
  {
    hide Replace;
    var s := pre + u;
    if pre == "" {
      assert s == u;
    } else {
      assert p <= s ==> OccursAt(s, p, 0);
      assert s[1..] == pre[1..] + u && s[0] == pre[0];
      forall k | OccursAt(s[1..], p, k) ensures |pre[1..]| <= k { assert OccursAt(s, p, k + 1); }
      ReplaceAfter(pre[1..], u, p);
      ReplaceStep(s, p);
      assert pre == [pre[0]] + pre[1..];
      Associative([pre[0]], pre[1..], Replace(u, p, ","));
    }
  }

  lemma {:induction false} ReplaceBefore(t: string, post: string, p: string)
    requires p != "" && forall k :: OccursAt(t + post, p, k) ==> k + |p| <= |t|
    ensures Replace(t + post, p, ",") == Replace(t, p, ",") + post
  {
    hide Replace;
    var s := t + post;
    if t == "" {
      assert s == post;
      forall k ensures !OccursAt(post, p, k) {}
      ReplaceEmpty(p);
      ReplaceNothing(post, p);
    } else {
      assert p <= s ==> OccursAt(s, p, 0) && p <= t;
      assert p <= t ==> p <= s;
      var n := if p <= t then |p| else 1;
      assert s[n..] == t[n..] + post && s[0] == t[0];
      forall k | OccursAt(s[n..], p, k) ensures k + |p| <= |t[n..]| { assert OccursAt(s, p, k + n); }
      ReplaceBefore(t[n..], post, p);
      ReplaceStep(s, p);
      ReplaceStep(t, p);
    }
  }

  /** A replacement stays inside the trimmed text, unless it takes a loose `or`. */
  lemma StaysInside(pre: string, t: string, post: string, p: string, k: int)
    requires AllSpace(pre) && AllSpace(post) && IsSeparator(p) && OccursAt(pre + t + post, p, k)
    ensures (|pre| <= k && k + |p| <= |pre| + |t|) || LooseOr(pre + t + post)
  {
    var s := pre + t + post;
    assert s[k..k + |p|] == p;
    forall i | 0 <= i < |s| && !IsSpace(s[i]) ensures |pre| <= i < |pre| + |t| {}
    if |p| == 2 {
      assert s[k] == p[0] && s[k + 1] == p[1];
    } else if k < |pre| {
      assert s[..k] == pre[..k] && s[..k] + p <= s;
      StartsLoose(s, pre[..k], p);
    } else if |pre| + |t| < k + 4 {
      assert s[k + 1] == p[1] && s[k + 2] == p[2];
      assert k + 4 == |pre| + |t| + 1 && s[k..] == p + post[1..];
      EndsLoose(s, p, post[1..]);
    }
  }

  lemma ReplacePadded(pre: string, t: string, post: string, p: string)
    requires AllSpace(pre) && AllSpace(post) && IsSeparator(p) && !LooseOr(pre + t + post)
    ensures Replace(pre + t + post, p, ",") == pre + Replace(t, p, ",") + post
    ensures !LooseOr(pre + Replace(t, p, ",") + post)
  {
    var s := pre + t + post;
    assert s == pre + (t + post);
    forall k | OccursAt(s, p, k) ensures |pre| <= k && k + |p| <= |pre| + |t| { StaysInside(pre, t, post, p, k); }
    forall k | OccursAt(t + post, p, k) ensures k + |p| <= |t| {
      assert s[|pre| + k..|pre| + k + |p|] == (t + post)[k..k + |p|];
      assert OccursAt(s, p, |pre| + k);
    }
    ReplaceAfter(pre, t + post, p);
    ReplaceBefore(t, post, p);
    assert pre + (Replace(t, p, ",") + post) == pre + Replace(t, p, ",") + post;
    if LooseOr(pre + Replace(t, p, ",") + post) { LooseBefore(s, p); }
  }

  lemma CommasPadded(pre: string, t: string, post: string)
    requires AllSpace(pre) && AllSpace(post) && !LooseOr(pre + t + post)
    ensures Commas(pre + t + post) == pre + Commas(t) + post
  {
    hide Replace, LooseOr, AllSpace;
    var t1 := Replace(t, " OR ", ",");
    ReplacePadded(pre, t, post, " OR ");
    var t2 := Replace(t1, " or ", ",");
    ReplacePadded(pre, t1, post, " or ");
    var t3 := Replace(t2, " Or ", ",");
    ReplacePadded(pre, t2, post, " Or ");
    var t4 := Replace(t3, " oR ", ",");
    ReplacePadded(pre, t3, post, " oR ");
    var t5 := Replace(t4, "OR", ",");
    ReplacePadded(pre, t4, post, "OR");
    ReplacePadded(pre, t5, post, "or");
  }

  lemma SpacesInFront(pre: string, u: string)
    requires AllSpace(pre)
    ensures TrimmedParts(Split(pre + u, ',')) == TrimmedParts(Split(u, ','))
  {
    hide Split, TrimmedParts, Trim, IndexOf, AllSpace;
    var k := IndexOf(u, ',');
    var head, rest := u[0..k], if k == |u| then [] else Split(u[k + 1..], ',');
    SplitUnfolds(u, ',');
    SpaceIsNoComma(pre);
    IndexIs(pre + u, ',', |pre| + k);
    SplitUnfolds(pre + u, ',');
    assert (pre + u)[0..|pre| + k] == pre + head == pre + head + "";
    TrimAround(pre, head, "");
    assert k < |u| ==> (pre + u)[|pre| + k + 1..] == u[k + 1..];
    TrimmedCons(head, rest);
    TrimmedCons(pre + head, rest);
  }

  lemma {:induction false} SpacesBehind(u: string, post: string)
    requires AllSpace(post)
    ensures TrimmedParts(Split(u + post, ',')) == TrimmedParts(Split(u, ','))
    decreases |u|
  {
    hide Split, TrimmedParts, Trim, IndexOf, AllSpace;
    var k := IndexOf(u, ',');
    SplitUnfolds(u, ',');
    if k == |u| {
      SpaceIsNoComma(post);
      assert u[..k] == u[0..k] == u;
      SplitJoin([u + post], ',');
      TrimAround("", u, post);
      assert "" + u + post == u + post && [u] + [] == [u] && [u + post] + [] == [u + post];
      TrimmedCons(u, []);
      TrimmedCons(u + post, []);
    } else {
      var head, rest := u[0..k], u[k + 1..];
      assert u + post == head + [','] + (rest + post) && u == head + [','] + rest;
      SplitAt(head, rest + post, ',');
      SplitAt(head, rest, ',');
      SpacesBehind(rest, post);
      TrimmedConcat([head], Split(rest + post, ','));
      TrimmedConcat([head], Split(rest, ','));
    }
  }

  /** Spaces around a text make no difference to its segments, unless they leave an `or`
      loose. */
  lemma SegmentsOfTrimmed(s: string)
    requires !LooseOr(s)
    ensures Segments(s) == Segments(Trim(s))
  {
    hide Commas, Split, TrimmedParts, Trim, LooseOr;
    var pre, post := TrimSplits(s);
    CommasPadded(pre, Trim(s), post);
    SpacesBehind(pre + Commas(Trim(s)), post);
    SpacesInFront(pre, Commas(Trim(s)));
  }

  // ----- lists

  /** Nothing is left of the text. */
  predicate Blank(part: string) {
    '*' !in part && Normalize(part) == "*"
  }

  /** The normal forms of the parts, blank ones left out. */
  function NormalForms(parts: seq<string>): seq<string> {
    if parts == [] then []
    else (if Blank(parts[0]) then [] else [Normalize(parts[0])]) + NormalForms(parts[1..])
  }

  lemma {:induction false} StarReplaced(s: string, p: string)
    requires p != "" && '*' !in p
    ensures '*' in Replace(s, p, ",") <==> '*' in s
  {
    if s != "" {
      var n := if p <= s then |p| else 1;
      StarReplaced(s[n..], p);
      assert s == s[..n] + s[n..] && (p <= s ==> s[..n] == p);
      ReplaceStep(s, p);
    }
  }

  lemma StarInCommas(s: string)
    ensures '*' in Commas(s) <==> '*' in s
  {
    hide Replace;
    var s1 := Replace(s, " OR ", ",");
    StarReplaced(s, " OR ");
    var s2 := Replace(s1, " or ", ",");
    StarReplaced(s1, " or ");
    var s3 := Replace(s2, " Or ", ",");
    StarReplaced(s2, " Or ");
    var s4 := Replace(s3, " oR ", ",");
    StarReplaced(s3, " oR ");
    var s5 := Replace(s4, "OR", ",");
    StarReplaced(s4, "OR");
    StarReplaced(s5, "or");
  }

  lemma StarTrimmed(s: string)
    ensures '*' in Trim(s) <==> '*' in s
  {
    var pre, post := TrimSplits(s);
    hide Trim;
  }

  lemma {:induction false} StarKept(parts: seq<string>)
    requires parts != []
    ensures '*' in Join(parts, ',') ==> TrimmedParts(parts) != []
    ensures forall q :: q in TrimmedParts(parts) && '*' in q ==> '*' in Join(parts, ',')
  {
    StarTrimmed(parts[0]);
    if |parts| > 1 { StarKept(parts[1..]); }
  }

  /** The normal form of a text without a loose `or`, and whether it is blank. */
  lemma FormOf(part: string)
    requires !LooseOr(part)
    ensures Normalize(part) == CommaList(Segments(part))
    ensures Blank(part) <==> Segments(part) == []
  {
    NormalizeSegments(part);
    SegmentsOfTrimmed(part);
    StarInCommas(part);
    JoinSplit(Commas(part), ',');
    StarKept(Split(Commas(part), ','));
    hide Normalize, Commas, TrimmedParts, LooseOr, Trim, Split;
    var parts := Segments(part);
    if |parts| > 1 {
      assert Join(parts, ',')[|parts[0]|] == ',';
    } else if |parts| == 1 && parts[0] == "*" {
      assert parts[0] in parts && '*' in parts[0];
    }
  }

  lemma EndOfTail(a: string, b: string, w: string)
    requires ',' !in w
    ensures EndsWith(a + "," + b, w) <==> EndsWith(b, w)
  {
    var s := a + "," + b;
    EndOfEnd(a + ",", b, w);
    if |b| < |w| <= |s| {
      assert s[|s| - |w|..][|w| - |b| - 1] == s[|a|] == ',';
      assert w[|w| - |b| - 1] in w;
    }
  }

  lemma LooseOverComma(a: string, b: string)
    requires LooseOr(a + "," + b)
    ensures LooseOr(a) || LooseOr(b)
  {
    var s := a + "," + b;
    var front, q, back := LooseParts(s);
    hide IsSeparator, LooseOr;
    if AllSpace(front) && ',' !in front + q && front + q <= s {
      PrefixOfHead(a, b, front + q);
      StartsLoose(a, front, q);
    } else {
      EndOfTail(a, b, q + back);
      EndsLoose(b, q, back);
    }
  }

  lemma {:induction false} JoinConcat(xs: seq<string>, ys: seq<string>)
    requires xs != [] && ys != []
    ensures Join(xs + ys, ',') == Join(xs, ',') + "," + Join(ys, ',')
  {
    if |xs| == 1 {
      assert (xs + ys)[1..] == ys;
    } else {
      JoinConcat(xs[1..], ys);
      assert (xs + ys)[1..] == xs[1..] + ys;
      var a, b, c := xs[0] + ",", Join(xs[1..], ','), "," + Join(ys, ',');
      assert a + (b + "," + Join(ys, ',')) == (a + b) + "," + Join(ys, ',');
    }
  }

  lemma CommaListStep(xs: seq<string>, ys: seq<string>, forms: seq<string>)
    requires CommaList(ys) == CommaList(forms) && (ys == [] <==> forms == [])
    ensures var all := (if xs == [] then [] else [CommaList(xs)]) + forms;
            CommaList(xs + ys) == CommaList(all) && (xs + ys == [] <==> all == [])
  {
    assert xs + [] == xs && [] + ys == ys && [] + forms == forms && [CommaList(xs)] + [] == [CommaList(xs)];
    if xs != [] && ys != [] {
      JoinConcat(xs, ys);
      JoinConcat([Join(xs, ',')], forms);
    }
  }

  /** A joined list has no loose `or` if no part has one, and its segments are those of the
      parts. */
  lemma {:induction false} ListSegments(parts: seq<string>)
    requires parts != [] && forall i :: 0 <= i < |parts| ==> !LooseOr(parts[i])
    ensures !LooseOr(Join(parts, ','))
    ensures CommaList(Segments(Join(parts, ','))) == CommaList(NormalForms(parts))
    ensures Segments(Join(parts, ',')) == [] <==> NormalForms(parts) == []
  {
    hide Normalize, Segments, LooseOr;
    var first := parts[0];
    FormOf(first);
    if |parts| > 1 {
      var rest := Join(parts[1..], ',');
      ListSegments(parts[1..]);
      SegmentsOverComma(first, rest);
      if LooseOr(first + "," + rest) { LooseOverComma(first, rest); }
      CommaListStep(Segments(first), Segments(rest), NormalForms(parts[1..]));
    } else {
      CommaListStep(Segments(first), [], []);
      assert parts[1..] == [] && Segments(first) + [] == Segments(first);
    }
  }

  /** What a comma list of texts normalises to: the comma list of their normal forms, blank
      ones left out, and `*` if none is left.  No text may have a loose `or`; one that is
      trimmed, or has commas of its own around it, has none. */
  lemma ListNormalizes(parts: seq<string>)
    requires parts != [] && forall i :: 0 <= i < |parts| ==> !LooseOr(parts[i])
    ensures Normalize(Join(parts, ',')) == CommaList(NormalForms(parts))
  {
    ListSegments(parts);
    FormOf(Join(parts, ','));
  }

  /** A clean name comes out of any spaces around it. */
  lemma PaddedName(pre: string, name: string, post: string)
    requires AllSpace(pre) && AllSpace(post) && Clean(name)
    ensures Normalize(pre + name + post) == name
  {
    TrimAround(pre, name, post);
    TidyIsKept([name]);
  }

  // ----- two names, and what may stand between them

  /** One of the four separators with spaces. */
  predicate IsWord(q: string) {
    |q| == 4 && IsSeparator(q)
  }

  /** Where a separator can occur around another one. */
  lemma Around(a: string, q: string, b: string, p: string, k: int)
    requires IsWord(q) && IsWord(p) && OccursAt(a + q + b, p, k)
    ensures || OccursAt(a, p, k) || OccursAt(b, p, k - |a| - 4) || (k == |a| && p == q)
            || (k == |a| - 3 && EndsWith(a, p[..3])) || (k == |a| + 3 && p[1..] <= b)
  {
    var s := a + q + b;
    assert s[k] == p[0] && s[k + 1] == p[1] && s[k + 2] == p[2] && s[k + 3] == p[3];
    assert forall i :: 0 <= i < 4 ==> s[|a| + i] == q[i];
    assert k + 4 <= |a| ==> a[k..k + 4] == s[k..k + 4];
    assert |a| + 4 <= k ==> b[k - |a| - 4..k - |a|] == s[k..k + 4];
    assert k == |a| ==> s[k..k + 4] == q;
    assert k == |a| - 3 ==> a[|a| - 3..] == s[k..k + 4][..3];
    assert k == |a| + 3 ==> b[..3] == s[k..k + 4][1..];
  }

  /** Neither text has a plain `or` in it, so neither has the two with a separator between. */
  lemma PlainAround(a: string, q: string, b: string, w: string)
    requires IsWord(q) && IsOr(w) && q[1..3] != w && !Contains(a, w) && !Contains(b, w)
    ensures !Contains(a + q + b, w)
  {
    var s := a + q + b;
    assert q[1..3] == [q[1], q[2]] && w == [w[0], w[1]];
    forall k | OccursAt(s, w, k) ensures OccursAt(a, w, k) || OccursAt(b, w, k - |a| - 4) {
      assert s[k] == w[0] && s[k + 1] == w[1];
      assert forall i :: 0 <= i < 4 ==> s[|a| + i] == q[i];
      assert k + 2 <= |a| ==> a[k..k + 2] == s[k..k + 2];
      assert |a| + 4 <= k ==> b[k - |a| - 4..k - |a| - 2] == s[k..k + 2];
    }
  }

  /** The first separator is where the two texts meet. */
  lemma FirstWord(a: string, q: string, b: string)
    requires IsWord(q) && !Contains(a, q) && !EndsWith(a, q[..3])
    ensures Replace(a + q + b, q, ",") == a + "," + Replace(b, q, ",")
  {
    assert a + q + b == a + (q + b);
    forall k | OccursAt(a + (q + b), q, k) ensures |a| <= k { Around(a, q, b, q, k); }
    ReplaceAfter(a, q + b, q);
    assert (q + b)[4..] == b;
    assert a + ("," + Replace(b, q, ",")) == a + "," + Replace(b, q, ",");
  }

  /** Without a plain `or`, only two of the six replacements matter. */
  lemma FewCommas(s: string)
    requires !Contains(s, "OR") && !Contains(s, "or")
    ensures Commas(s) == Replace(Replace(s, " Or ", ","), " oR ", ",")
  {
    PlainNothing(s, " OR ", "OR");
    PlainNothing(s, " or ", "or");
    hide Replace;
    var s3 := Replace(s, " Or ", ",");
    Link(s, " Or ");
    var s4 := Replace(s3, " oR ", ",");
    Link(s3, " oR ");
    ReplaceNothing(s4, "OR");
    ReplaceNothing(s4, "or");
  }

  lemma PlainNothing(s: string, p: string, w: string)
    requires IsWord(p) && w == p[1..3] && !Contains(s, w)
    ensures Replace(s, p, ",") == s
  {
    forall k | OccursAt(s, p, k) ensures OccursAt(s, w, k + 1) {
      assert s[k + 1..k + 3] == s[k..k + 4][1..3];
    }
    ReplaceNothing(s, p);
  }

  lemma CleanPair(a: string, b: string)
    requires Clean(a) && Clean(b)
    ensures var t := a + "," + b; Tidy([a, b]) && Join([a, b], ',') == t && Normalize(t) == t && Commas(t) == t
    ensures Trim(a + "," + b) == a + "," + b && a[0] == Trim(a)[0] && !IsSpace(a[0]) && !IsSpace(b[|b| - 1])
  {
    hide Normalize, Commas, Trim;
    var parts := [a, b];
    assert parts[1..] == [b];
    TidyIsKept(parts);
    JoinEnds(parts);
    JoinEnds([a]);
    JoinEnds([b]);
    TrimKeeps(a + "," + b);
    JoinFree(parts, "OR");
    JoinFree(parts, "or");
    JoinFree(parts, " Or ");
    JoinFree(parts, " oR ");
    CommasKeep(a + "," + b);
  }

  lemma SameCommas(s: string, t: string)
    requires s != "" && t != "" && Trim(s) == s && Trim(t) == t && Commas(s) == Commas(t)
    ensures Normalize(s) == Normalize(t)
  {
  }

  lemma PairTrimmed(a: string, q: string, b: string)
    requires Clean(a) && Clean(b)
    ensures Trim(a + q + b) == a + q + b != ""
  {
    CleanPair(a, b);
    var s := a + q + b;
    assert s[0] == a[0] && s[|s| - 1] == b[|b| - 1];
    TrimKeeps(s);
  }

  lemma SpelledOR(a: string, b: string)
    requires Clean(a) && Clean(b)
    ensures Normalize(a + " OR " + b) == a + "," + b
  {
    var q, t := " OR ", a + "," + b;
    CleanPair(a, b);
    PlainInside(a, q, "OR");
    PlainInside(b, q, "OR");
    FirstWord(a, q, b);
    ReplaceNothing(b, q);
    JoinFree([a, b], "OR");
    PlainNothing(t, q, "OR");
    PairTrimmed(a, q, b);
    SameCommas(a + q + b, t);
  }

  lemma PlainInside(s: string, q: string, w: string)
    requires IsWord(q) && w == q[1..3]
    ensures Contains(s, q) || EndsWith(s, q[..3]) ==> Contains(s, w)
  {
    forall k | OccursAt(s, q, k) ensures OccursAt(s, w, k + 1) { assert s[k + 1..k + 3] == s[k..k + 4][1..3]; }
    if EndsWith(s, q[..3]) {
      assert s[|s| - 2..|s|] == s[|s| - 3..][1..] == w;
      assert OccursAt(s, w, |s| - 2);
    }
  }

  lemma SpelledOr(a: string, b: string)
    requires Clean(a) && Clean(b)
    ensures Normalize(a + " or " + b) == a + "," + b
  {
    var q, s, t := " or ", a + " or " + b, a + "," + b;
    CleanPair(a, b);
    PlainAround(a, q, b, "OR");
    PlainNothing(s, " OR ", "OR");
    PlainInside(a, q, "or");
    PlainInside(b, q, "or");
    FirstWord(a, q, b);
    ReplaceNothing(b, q);
    JoinFree([a, b], "OR");
    JoinFree([a, b], "or");
    PlainNothing(t, " OR ", "OR");
    PlainNothing(t, q, "or");
    PairTrimmed(a, q, b);
    SameCommas(s, t);
  }

  lemma MixedWords()
    ensures IsWord(" Or ") && IsWord(" oR ")
    ensures " Or "[..3] == " Or" && " Or "[1..] == "Or " && " Or "[1..3] == "Or"
    ensures " oR "[..3] == " oR" && " oR "[1..] == "oR " && " oR "[1..3] == "oR"
  {
  }

  lemma CleanHas(part: string)
    requires Clean(part)
    ensures part != "" && ',' !in part && Trim(part) == part
    ensures !Contains(part, "OR") && !Contains(part, "or") && !Contains(part, " Or ") && !Contains(part, " oR ")
  {
  }

  lemma PlainFree(a: string, q: string, b: string)
    requires q == " Or " || q == " oR "
    requires !Contains(a, "OR") && !Contains(a, "or") && !Contains(b, "OR") && !Contains(b, "or")
    ensures Commas(a + q + b) == Replace(Replace(a + q + b, " Or ", ","), " oR ", ",")
  {
    hide Replace, Commas, Contains;
    PlainAround(a, q, b, "OR");
    PlainAround(a, q, b, "or");
    FewCommas(a + q + b);
  }

  /** Another separator than the one in the middle does not occur. */
  lemma OtherAbsent(a: string, q: string, b: string, p: string)
    requires IsWord(q) && IsWord(p) && p != q && !Contains(a, p) && !Contains(b, p)
    requires !EndsWith(a, p[..3]) && !(p[1..] <= b)
    ensures Replace(a + q + b, p, ",") == a + q + b
  {
    forall k ensures !OccursAt(a + q + b, p, k) {
      if OccursAt(a + q + b, p, k) { Around(a, q, b, p, k); }
    }
    hide IsWord, EndsWith;
    ReplaceNothing(a + q + b, p);
  }

  /** Two clean names around ` Or ` or ` oR `. */
  lemma SpelledMixed(a: string, q: string, b: string)
    requires Clean(a) && Clean(b) && (q == " Or " || q == " oR ")
    requires !EndsWith(a, " Or") && !EndsWith(a, " oR") && !("Or " <= b)
    ensures Normalize(a + q + b) == a + "," + b
  {
    hide Replace, Commas, Contains, Clean, EndsWith, IsWord, Trim, Normalize, Tidy, Join;
    var s, t := a + q + b, a + "," + b;
    CleanHas(a);
    CleanHas(b);
    MixedWords();
    CleanPair(a, b);
    PlainFree(a, q, b);
    FirstWord(a, q, b);
    ReplaceNothing(b, q);
    JoinFree([a, b], " oR ");
    ReplaceNothing(t, " oR ");
    if q == " oR " { OtherAbsent(a, q, b, " Or "); }
    PairTrimmed(a, q, b);
    SameCommas(s, t);
  }

  lemma SpacedSegments(a: string, b: string, c: string)
    requires Clean(a) && Clean(b) && c == " " + b
    ensures Normalize(a + ", " + b) == CommaList([a] + Segments(c))
  {
    hide Replace, Contains, Trim, Normalize, Commas, Clean, Split, TrimmedParts;
    PairTrimmed(a, ", ", b);
    NormalizeSegments(a + ", " + b);
    assert a + ", " + b == a + "," + c;
    SegmentsOverComma(a, c);
    OneSegment(a);
  }

  lemma OneSegment(a: string)
    requires Clean(a)
    ensures Segments(a) == [a]
  {
    hide Commas, Split, TrimmedParts;
    CleanHas(a);
    CommasKeep(a);
    SplitJoin([a], ',');
    TrimmedTidy([a]);
  }

  lemma SpaceFree(b: string, w: string)
    requires |w| >= 2 && w[1] != ' '
    ensures Contains(" " + b, w) ==> Contains(b, w) || (w[0] == ' ' && w[1..] <= b)
  {
    var c := " " + b;
    forall k | OccursAt(c, w, k) ensures OccursAt(b, w, k - 1) || (k == 0 && w[0] == ' ' && w[1..] <= b) {
      assert c[k..k + |w|] == w && c[k] == w[0];
      assert k == 0 ==> b[..|w| - 1] == c[0..|w|][1..];
      assert k > 0 ==> b[k - 1..k - 1 + |w|] == c[k..k + |w|];
    }
  }

  /** A space behind the comma. */
  lemma SpelledComma(a: string, b: string)
    requires Clean(a) && Clean(b) && !("Or " <= b) && !("oR " <= b)
    ensures Normalize(a + ", " + b) == a + "," + b
  {
    hide Replace, Contains, Trim, Normalize, Commas, Clean, Split, TrimmedParts;
    var c := " " + b;
    CleanHas(b);
    MixedWords();
    SpaceFree(b, "OR");
    SpaceFree(b, "or");
    SpaceFree(b, " Or ");
    SpaceFree(b, " oR ");
    CommasKeep(c);
    SpacedSegments(a, b, c);
    SplitJoin([c], ',');
    TrimAround(" ", b, "");
    assert " " + b + "" == c && [c] + [] == [c];
    TrimmedCons(c, []);
    TrimmedNone();
    assert [b] + [] == [b];
    JoinConcat([a], [b]);
  }

  lemma NoneInside(b: string, lo: nat, hi: nat)
    requires Clean(b) && lo <= hi <= |b|
    ensures var r := b[lo..hi];
            && !Contains(r, "OR") && !Contains(r, "or") && !Contains(r, " Or ") && !Contains(r, " oR ") && ',' !in r
  {
    forall w | Contains(b[lo..hi], w) ensures Contains(b, w) { Within(b, lo, hi, w); }
  }

  lemma NotAgain(b: string, r: string, p: string)
    requires IsWord(p) && |b| >= 3 && r == b[3..] && b[2] == ' '
    ensures p[1..] <= r ==> Contains(b, p)
  {
    if p[1..] <= r {
      assert b[2..6] == [b[2]] + r[..3] == p;
      assert OccursAt(b, p, 2);
    }
  }

  /** What is left of a name that is cut behind its first three characters. */
  lemma CutCommas(b: string, q: string)
    requires Clean(b) && (q == " Or " || q == " oR ") && q[1..] <= b
    ensures Commas(" " + b) == "," + b[3..]
  {
    hide Replace, Contains, Trim, Commas, Clean, IsWord;
    var c, r := " " + b, b[3..];
    assert b[3..|b|] == r && b == q[1..] + r && c == "" + q + r;
    CleanHas(b);
    NoneInside(b, 3, |b|);
    NoneInside(b, 0, 0);
    MixedWords();
    assert b[0..0] == "";
    PlainFree("", q, r);
    FirstWord("", q, r);
    ReplaceNothing(r, q);
    assert "" + "," + r == "," + r;
    if q == " oR " {
      NotAgain(b, r, " Or ");
      OtherAbsent("", q, r, " Or ");
    } else {
      ReplaceOverComma("", r, " oR ");
      ReplaceEmpty(" oR ");
      ReplaceNothing(r, " oR ");
    }
  }

  lemma PartAfterComma(r: string)
    requires ',' !in r
    ensures TrimmedParts(Split("," + r, ',')) == if Trim(r) == "" then [] else [Trim(r)]
    ensures |Trim(r)| <= |r|
  {
    hide Trim, Split, TrimmedParts;
    assert "" + [','] + r == "," + r;
    SplitAt("", r, ',');
    SplitJoin([r], ',');
    TrimmedCons("", [r]);
    TrimmedCons(r, []);
    TrimmedNone();
    TrimKeeps("");
    assert [r] + [] == [r];
    var pre, post := TrimSplits(r);
  }

  lemma ListLength(a: string, x: string)
    ensures |CommaList([a])| == |a| && |CommaList([a] + [x])| == |a| + 1 + |x|
  {
    JoinConcat([a], [x]);
  }

  /** If the name behind the comma begins like the end of a separator, it is cut. */
  lemma SpacedFails(a: string, q: string, b: string)
    requires Clean(a) && Clean(b) && (q == " Or " || q == " oR ") && q[1..] <= b
    ensures Normalize(a + ", " + b) != a + "," + b
  {
    hide Replace, Contains, Trim, Normalize, Commas, Clean, Split, TrimmedParts, CommaList;
    var r := b[3..];
    CutCommas(b, q);
    SpacedSegments(a, b, " " + b);
    assert b[3..|b|] == r && [a] + [] == [a];
    NoneInside(b, 3, |b|);
    PartAfterComma(r);
    ListLength(a, Trim(r));
  }

  /** The first segment is what precedes the first comma. */
  lemma FirstSegment(s: string, u: string, v: string, a: string, b: string)
    requires Trim(s) == s && Commas(s) == u + "," + v && ',' !in u && ',' !in a
    requires Trim(u) != "" && Trim(u) != a
    ensures Normalize(s) != a + "," + b
  {
    hide Replace, Trim, Normalize, Commas, Split, TrimmedParts;
    var t, rest := Trim(u), TrimmedParts(Split(v, ','));
    NormalizeSegments(s);
    SplitAt(u, v, ',');
    TrimmedCons(u, Split(v, ','));
    TrimParts(u, "");
    SplitAt(a, b, ',');
    if rest == [] {
      assert [t] + rest == [t];
      SplitJoin([t], ',');
    } else {
      JoinConcat([t], rest);
      SplitAt(t, Join(rest, ','), ',');
      assert ([t] + Split(Join(rest, ','), ','))[0] == t;
    }
    assert ([a] + Split(b, ','))[0] == a;
  }

  lemma NotTwice(x: string, q: string)
    requires IsWord(q)
    ensures EndsWith(x, q[..3]) || Contains(x, q) ==> Contains(x + q[..3], q)
  {
    var a := x + q[..3];
    assert a[0..|x|] == x;
    if Contains(x, q) { Within(a, 0, |x|, q); }
    if EndsWith(x, q[..3]) {
      assert a == x[..|x| - 3] + q[..3] + q[..3];
      assert a[|x| - 3..|x| + 1] == q;
      assert OccursAt(a, q, |x| - 3);
    }
  }

  lemma WordCommas(x: string, q: string, b: string) returns (v: string)
    requires (q == " Or " || q == " oR ") && Clean(x + q[..3]) && Clean(b) && !("Or " <= b)
    ensures Commas(x + q[..3] + q + b) == x + "," + v
  {
    hide Replace, Contains, Trim, Commas, Clean, IsWord;
    var a, y := x + q[..3], q[1..] + b;
    MixedWords();
    CleanHas(a);
    CleanHas(b);
    assert a + q + b == x + q + y && a[0..|x|] == x;
    NoneInside(a, 0, |x|);
    NotTwice(x, q);
    FirstWord(x, q, y);
    PlainFree(a, q, b);
    v := Replace(y, q, ",");
    if q == " Or " {
      ReplaceOverComma(x, v, " oR ");
      ReplaceNothing(x, " oR ");
      v := Replace(v, " oR ", ",");
    } else {
      OtherAbsent(a, q, b, " Or ");
    }
  }

  /** If the name in front ends like the beginning of a separator, it is cut there. */
  lemma WordFails(x: string, q: string, b: string)
    requires (q == " Or " || q == " oR ") && Clean(x + q[..3]) && Clean(b) && !("Or " <= b)
    ensures Normalize(x + q[..3] + q + b) != x + q[..3] + "," + b
  {
    hide Replace, Contains, Trim, Normalize, Commas, Clean;
    var a := x + q[..3];
    var v := WordCommas(x, q, b);
    PairTrimmed(a, q, b);
    CleanPair(a, b);
    CleanHas(a);
    var pre, post := TrimSplits(x);
    assert a[0] == (x + q[..3])[0] && IsSpace(q[..3][0]);
    assert x != "" && x[0] == a[0];
    FirstSegment(a + q + b, x, v, a, b);
  }

  /** The five ways to write a list of two names. */
  ghost predicate AllSpellings(a: string, b: string) {
    var t := a + "," + b;
    && Normalize(a + ", " + b) == t && Normalize(a + " OR " + b) == t && Normalize(a + " or " + b) == t
    && Normalize(a + " Or " + b) == t && Normalize(a + " oR " + b) == t
  }

  /** Two clean names come out whichever way they are separated, if and only if the first
      does not end, nor the second begin, like part of a mixed-case separator; a comma, and
      ` OR ` and ` or `, always work. */
  lemma Spellings(a: string, b: string)
    requires Clean(a) && Clean(b)
    ensures var t := a + "," + b; Normalize(t) == Normalize(a + " OR " + b) == Normalize(a + " or " + b) == t
    ensures AllSpellings(a, b) <==>
            !EndsWith(a, " Or") && !EndsWith(a, " oR") && !("Or " <= b) && !("oR " <= b)
  {
    hide Normalize, Clean;
    CleanPair(a, b);
    SpelledOR(a, b);
    SpelledOr(a, b);
    MixedWords();
    if "Or " <= b {
      SpacedFails(a, " Or ", b);
    } else if "oR " <= b {
      SpacedFails(a, " oR ", b);
    } else if EndsWith(a, " Or") {
      assert a == a[..|a| - 3] + " Or";
      WordFails(a[..|a| - 3], " Or ", b);
    } else if EndsWith(a, " oR") {
      assert a == a[..|a| - 3] + " oR";
      WordFails(a[..|a| - 3], " oR ", b);
    } else {
      SpelledComma(a, b);
      SpelledMixed(a, " Or ", b);
      SpelledMixed(a, " oR ", b);
    }
  }

  /** The condition of `ListNormalizes` is needed: a clean name with a space in front of it
      normalises to itself, but not behind a comma if that makes an `or` loose. */
  lemma LooseIsCut(a: string, q: string, b: string)
    requires Clean(a) && Clean(b) && (q == " Or " || q == " oR ") && q[1..] <= b
    ensures var parts := [a, " " + b];
            && LooseOr(parts[1]) && NormalForms(parts) == [a, b] && Normalize(Join(parts, ',')) != CommaList([a, b])
  {
    hide Normalize, Clean, LooseOr, Trim, Replace, Contains;
    var c, parts := " " + b, [a, " " + b];
    MixedWords();
    assert "" + q <= c;
    StartsLoose(c, "", q);
    TidyIsKept([a]);
    PaddedName(" ", b, "");
    assert " " + b + "" == c;
    NotBlank(a, a);
    NotBlank(c, b);
    assert parts[1..] == [c] && [c][1..] == [];
    assert NormalForms([c]) == [b] + NormalForms([]) == [b];
    JoinConcat([a], [b]);
    JoinConcat([a], [c]);
    assert [a] + [b] == [a, b] && [a] + [c] == parts && a + ", " + b == a + "," + c;
    SpacedFails(a, q, b);
  }

  lemma NotBlank(s: string, name: string)
    requires Clean(name) && Normalize(s) == name && (forall c :: c in name ==> c in s)
    ensures !Blank(s)
  {
    if name == "*" { assert '*' in name; }
  }
}
