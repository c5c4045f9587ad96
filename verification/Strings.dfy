/** String operations of the Rust standard library that several modules use. */
module Strings {
  predicate OccursAt(s: string, w: string, k: int) {
    0 <= k && k + |w| <= |s| && s[k..k + |w|] == w
  }

  ghost predicate Contains(s: string, w: string) {
    exists k :: OccursAt(s, w, k)
  }

  lemma Within(s: string, lo: nat, hi: nat, w: string)
    requires lo <= hi <= |s| && Contains(s[lo..hi], w)
    ensures Contains(s, w)
  {
    var part := s[lo..hi];
    var k :| OccursAt(part, w, k);
    var found := s[lo + k..lo + k + |w|];
    forall i | 0 <= i < |w| ensures found[i] == w[i] { assert part[k..k + |w|][i] == part[k + i] == s[lo + k + i]; }
    assert found == w;
    assert OccursAt(s, w, lo + k);
  }

  /** `str::replace`: leftmost occurrences first, not overlapping. */
  function Replace(s: string, p: string, t: string): string
    requires p != ""
  {
    if s == "" then ""
    else if p <= s then t + Replace(s[|p|..], p, t)
    else [s[0]] + Replace(s[1..], p, t)
  }

  lemma Associative(a: string, b: string, c: string)
    ensures (a + b) + c == a + (b + c)
  {
  }

  // ----- trimming

  /** The characters with the White_Space property, which `str::trim` removes. */
  predicate IsSpace(c: char) {
    '\t' <= c <= '\r' || c == ' ' || c == '\U{0085}' || c == '\U{00A0}' || c == '\U{1680}'
    || '\U{2000}' <= c <= '\U{200A}' || c == '\U{2028}' || c == '\U{2029}' || c == '\U{202F}'
    || c == '\U{205F}' || c == '\U{3000}'
  }

  function Trim(s: string): string {
    if s == "" then s
    else if IsSpace(s[0]) then Trim(s[1..])
    else if IsSpace(s[|s| - 1]) then Trim(s[..|s| - 1])
    else s
  }

  lemma TrimKeeps(s: string)
    requires s != "" ==> !IsSpace(s[0]) && !IsSpace(s[|s| - 1])
    ensures Trim(s) == s
  {
  }

  /** What is trimmed is a part of the string and has no space at its ends. */
  lemma {:induction false} TrimParts(s: string, w: string)
    ensures Contains(Trim(s), w) ==> Contains(s, w)
    ensures forall c :: c in Trim(s) ==> c in s
    ensures Trim(s) != "" ==> !IsSpace(Trim(s)[0]) && !IsSpace(Trim(s)[|Trim(s)| - 1])
    decreases |s|
  {
    if s == "" {
    } else if IsSpace(s[0]) {
      var rest := s[1..];
      TrimParts(rest, w);
      assert rest == s[1..|s|];
      if Contains(rest, w) { Within(s, 1, |s|, w); }
    } else if IsSpace(s[|s| - 1]) {
      var front := s[..|s| - 1];
      TrimParts(front, w);
      assert s[0..|s| - 1] == front;
      if Contains(front, w) { Within(s, 0, |s| - 1, w); }
    }
  }

  predicate AllSpace(s: string) {
    forall i :: 0 <= i < |s| ==> IsSpace(s[i])
  }

  lemma {:induction false} TrimEnd(s: string, post: string)
    requires AllSpace(post)
    ensures Trim(s + post) == Trim(s)
    decreases |s| + |post|
  {
    var t := s + post;
    if t == "" {
    } else if s == "" {
      assert t == post && t[1..] == "" + post[1..];
      TrimEnd("", post[1..]);
    } else if IsSpace(s[0]) {
      assert t[1..] == s[1..] + post;
      TrimEnd(s[1..], post);
    } else if post == "" {
      assert t == s;
    } else {
      assert t[..|t| - 1] == s + post[..|post| - 1];
      TrimEnd(s, post[..|post| - 1]);
    }
  }

  /** Spaces around a text make no difference. */
  lemma {:induction false} TrimAround(pre: string, s: string, post: string)
    requires AllSpace(pre) && AllSpace(post)
    ensures Trim(pre + s + post) == Trim(s)
  {
    if pre == "" {
      assert pre + s + post == s + post;
      TrimEnd(s, post);
    } else {
      assert (pre + s + post)[1..] == pre[1..] + s + post;
      TrimAround(pre[1..], s, post);
    }
  }

  /** What is trimmed off is space. */
  lemma {:induction false} TrimSplits(s: string) returns (pre: string, post: string)
    ensures AllSpace(pre) && AllSpace(post) && s == pre + Trim(s) + post
    decreases |s|
  {
    pre, post := "", "";
    if s == "" {
    } else if IsSpace(s[0]) {
      pre, post := TrimSplits(s[1..]);
      assert s == [s[0]] + s[1..];
      pre := [s[0]] + pre;
    } else if IsSpace(s[|s| - 1]) {
      pre, post := TrimSplits(s[..|s| - 1]);
      assert s == s[..|s| - 1] + [s[|s| - 1]];
      post := post + [s[|s| - 1]];
    }
  }

  // ----- splitting at a character, and joining

  /** The first position of a character, or the length if there is none. */
  function IndexOf(s: string, c: char): (i: nat)
    ensures i <= |s| && c !in s[..i] && (i < |s| ==> s[i] == c)
  {
    if s == "" || s[0] == c then 0
    else
      var i := IndexOf(s[1..], c);
      assert s[..i + 1] == [s[0]] + s[1..][..i];
      i + 1
  }

  lemma {:induction false} IndexIs(s: string, c: char, i: nat)
    requires i <= |s| && c !in s[..i] && (i < |s| ==> s[i] == c)
    ensures IndexOf(s, c) == i
  {
    if i > 0 {
      assert s[..i][0] == s[0] && s[1..][..i - 1] == s[..i][1..];
      IndexIs(s[1..], c, i - 1);
    }
  }

  /** `str::split`. */
  function Split(s: string, c: char): (parts: seq<string>)
    ensures parts != []
  {
    var i := IndexOf(s, c);
    if i == |s| then [s] else [s[..i]] + Split(s[i + 1..], c)
  }

  function Join(parts: seq<string>, c: char): string
    requires parts != []
  {
    if |parts| == 1 then parts[0] else parts[0] + [c] + Join(parts[1..], c)
  }

  lemma SliceOfRest(s: string, k: nat, lo: nat, hi: nat)
    requires k <= |s| && lo <= hi <= |s| - k
    ensures s[k..][lo..hi] == s[k + lo..k + hi]
  {
  }

  lemma SplitUnfolds(s: string, c: char)
    ensures var k := IndexOf(s, c);
            Split(s, c) == [s[0..k]] + if k == |s| then [] else Split(s[k + 1..], c)
  {
    var k := IndexOf(s, c);
    assert s[..k] == s[0..k] && (k == |s| ==> s[0..k] == s);
    assert [s] + [] == [s];
  }

  /** Every part is a slice without the separator. */
  lemma {:induction false} PartIsSlice(s: string, c: char, i: nat) returns (lo: nat, hi: nat)
    requires i < |Split(s, c)|
    ensures lo <= hi <= |s| && Split(s, c)[i] == s[lo..hi] && c !in s[lo..hi]
  {
    hide Split, IndexOf;
    var k := IndexOf(s, c);
    SplitUnfolds(s, c);
    if i == 0 {
      lo, hi := 0, k;
    } else {
      var rest := s[k + 1..];
      lo, hi := PartIsSlice(rest, c, i - 1);
      SliceOfRest(s, k + 1, lo, hi);
      lo, hi := lo + k + 1, hi + k + 1;
    }
  }

  lemma SplitParts(s: string, c: char, w: string, i: nat)
    requires i < |Split(s, c)|
    ensures c !in Split(s, c)[i]
    ensures Contains(Split(s, c)[i], w) ==> Contains(s, w)
  {
    var lo, hi := PartIsSlice(s, c, i);
    if Contains(s[lo..hi], w) { Within(s, lo, hi, w); }
  }

  /** Joining what was split gives the string back. */
  lemma {:induction false} JoinSplit(s: string, c: char)
    ensures Join(Split(s, c), c) == s
  {
    var k := IndexOf(s, c);
    if k < |s| {
      var rest := Split(s[k + 1..], c);
      JoinSplit(s[k + 1..], c);
      assert ([s[..k]] + rest)[1..] == rest;
      assert s == s[..k] + [c] + s[k + 1..];
    } else {
      assert Split(s, c) == [s];
    }
  }

  /** Splitting what was joined gives the parts back, if they do not contain the separator. */
  lemma {:induction false} SplitJoin(parts: seq<string>, c: char)
    requires parts != [] && forall i :: 0 <= i < |parts| ==> c !in parts[i]
    ensures Split(Join(parts, c), c) == parts
  {
    var s := Join(parts, c);
    if |parts| == 1 {
      IndexIs(s, c, |s|);
      assert parts == [s] && s[..|s|] == s;
    } else {
      SplitJoin(parts[1..], c);
      var k := |parts[0]|;
      assert s[k] == c && s[..k] == parts[0];
      IndexIs(s, c, k);
      assert s[k + 1..] == Join(parts[1..], c);
    }
  }

  lemma SplitAt(head: string, rest: string, c: char)
    requires c !in head
    ensures Split(head + [c] + rest, c) == [head] + Split(rest, c)
  {
    var s := head + [c] + rest;
    IndexIs(s, c, |head|);
    assert s[..|head|] == head && s[|head| + 1..] == rest;
  }

  /** Splitting goes through a separator. */
  lemma {:induction false} SplitConcat(a: string, b: string, c: char)
    ensures Split(a + [c] + b, c) == Split(a, c) + Split(b, c)
    decreases |a|
  {
    hide Split;
    var i := IndexOf(a, c);
    SplitUnfolds(a, c);
    assert a[0..i] == a[..i];
    if i == |a| {
      assert a[..i] == a && Split(a, c) == [a];
      SplitAt(a, b, c);
    } else {
      SplitConcat(a[i + 1..], b, c);
      assert a == a[..i] + [c] + a[i + 1..];
      assert a + [c] + b == a[..i] + [c] + (a[i + 1..] + [c] + b);
      SplitAt(a[..i], a[i + 1..] + [c] + b, c);
    }
  }

  lemma {:induction false} JoinSnoc(parts: seq<string>, t: string, c: char)
    requires parts != []
    ensures Join(parts + [t], c) == Join(parts, c) + ([c] + t)
  {
    if |parts| == 1 {
      assert (parts + [t])[1..] == [t];
    } else {
      JoinSnoc(parts[1..], t, c);
      assert (parts + [t])[1..] == parts[1..] + [t];
      var rest := Join(parts[1..], c);
      assert parts[0] + [c] + (rest + ([c] + t)) == parts[0] + [c] + rest + ([c] + t);
    }
  }
}
