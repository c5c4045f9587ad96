/** The wildcard filter of the shards page (src/handlers/shards.rs).

    `MatchesPattern` is the greedy left-to-right scan of the source; `Glob` is the
    meaning a `*` pattern is supposed to have, with backtracking.  The module states
    exactly which names the scan accepts, and exactly when that is the glob meaning. */
module ShardPatterns {
  import opened Strings

  /** Reference meaning: `*` stands for any run of characters, all else for itself. */
  predicate Glob(p: string, s: string)
    decreases |p| + |s|
  {
    if p == [] then s == []
    else if p[0] == '*' then Glob(p[1..], s) || (s != [] && Glob(p, s[1..]))
    else s != [] && s[0] == p[0] && Glob(p[1..], s[1..])
  }

  predicate HasSuffix(s: string, t: string) {
    |t| <= |s| && s[|s| - |t|..] == t
  }

  /** Position of the last `*`. */
  function LastStar(p: string): (k: nat)
    requires '*' in p
    ensures k < |p| && p[k] == '*' && '*' !in p[k + 1..]
  {
    if p[|p| - 1] == '*' then |p| - 1
    else
      assert p == p[..|p| - 1] + [p[|p| - 1]];
      LastStar(p[..|p| - 1])
  }

  /** What the scan accepts: without a star, every name the pattern is a prefix of;
      with one, every name that globs up to the last star and ends with the tail. */
  predicate Accepts(name: string, pattern: string) {
    if '*' !in pattern then pattern <= name
    else
      var k := LastStar(pattern);
      Glob(pattern[..k + 1], name) && HasSuffix(name, pattern[k + 1..])
  }

  /** `n` is the end of the shortest prefix of `s` that `p` globs. */
  ghost predicate IsLeastEnd(p: string, s: string, n: nat) {
    && n <= |s| && Glob(p, s[..n])
    && forall m: nat :: m < n ==> !Glob(p, s[..m])
  }

  // ----- facts about the glob meaning

  lemma {:induction false} GlobLiteral(p: string, s: string)
    requires '*' !in p
    ensures Glob(p, s) <==> s == p
  {
    if p != [] && s != [] {
      GlobLiteral(p[1..], s[1..]);
      assert p == [p[0]] + p[1..] && s == [s[0]] + s[1..];
    }
  }

  /** A concatenated pattern globs exactly the concatenations of what its halves glob. */
  lemma {:induction false} GlobConcat(a: string, b: string, s: string)
    ensures Glob(a + b, s) <==> exists k :: 0 <= k <= |s| && Glob(a, s[..k]) && Glob(b, s[k..])
    decreases |a| + |s|
  {
    if a == [] {
      assert a + b == b && s[..0] == [] && s[0..] == s;
      assert forall k :: 0 <= k <= |s| && Glob(a, s[..k]) ==> k == 0;
    } else {
      assert (a + b)[1..] == a[1..] + b;
      if a[0] == '*' {
        GlobConcat(a[1..], b, s);
        if s != [] { GlobConcat(a, b, s[1..]); }
        GlobConcatStar(a, b, s);
      } else if s != [] {
        GlobConcat(a[1..], b, s[1..]);
        GlobConcatChar(a, b, s);
      }
    }
  }

  lemma GlobStar(p: string, s: string)
    requires p != [] && p[0] == '*'
    ensures Glob(p, s) <==> Glob(p[1..], s) || (s != [] && Glob(p, s[1..]))
  {
  }

  lemma GlobConcatStar(a: string, b: string, s: string)
    requires a != [] && a[0] == '*' && (a + b)[1..] == a[1..] + b
    requires Glob(a[1..] + b, s) <==> exists k :: 0 <= k <= |s| && Glob(a[1..], s[..k]) && Glob(b, s[k..])
    requires s != [] ==> (Glob(a + b, s[1..]) <==>
             exists k :: 0 <= k <= |s[1..]| && Glob(a, s[1..][..k]) && Glob(b, s[1..][k..]))
    ensures Glob(a + b, s) <==> exists k :: 0 <= k <= |s| && Glob(a, s[..k]) && Glob(b, s[k..])
  {
    hide Glob;
    GlobStar(a + b, s);
    if Glob(a + b, s) {
      if Glob(a[1..] + b, s) {
        var k :| 0 <= k <= |s| && Glob(a[1..], s[..k]) && Glob(b, s[k..]);
        GlobStar(a, s[..k]);
      } else {
        var k :| 0 <= k <= |s[1..]| && Glob(a, s[1..][..k]) && Glob(b, s[1..][k..]);
        assert s[..k + 1][1..] == s[1..][..k] && s[1..][k..] == s[k + 1..];
        GlobStar(a, s[..k + 1]);
      }
    }
    if k :| 0 <= k <= |s| && Glob(a, s[..k]) && Glob(b, s[k..]) {
      GlobStar(a, s[..k]);
      if !Glob(a[1..], s[..k]) {
        assert k > 0;
        assert s[..k][1..] == s[1..][..k - 1] && s[1..][k - 1..] == s[k..];
      }
    }
  }

  lemma GlobConcatChar(a: string, b: string, s: string)
    requires a != [] && a[0] != '*' && s != [] && (a + b)[1..] == a[1..] + b
    requires Glob(a[1..] + b, s[1..]) <==>
             exists k :: 0 <= k <= |s[1..]| && Glob(a[1..], s[1..][..k]) && Glob(b, s[1..][k..])
    ensures Glob(a + b, s) <==> exists k :: 0 <= k <= |s| && Glob(a, s[..k]) && Glob(b, s[k..])
  {
    if Glob(a + b, s) {
      var k :| 0 <= k <= |s[1..]| && Glob(a[1..], s[1..][..k]) && Glob(b, s[1..][k..]);
      assert s[..k + 1][1..] == s[1..][..k] && s[1..][k..] == s[k + 1..];
      assert Glob(a, s[..k + 1]);
    }
    if k :| 0 <= k <= |s| && Glob(a, s[..k]) && Glob(b, s[k..]) {
      assert k > 0;
      assert s[..k][1..] == s[1..][..k - 1] && s[1..][k - 1..] == s[k..];
    }
  }

  /** A star followed by a literal globs exactly what ends with the literal. */
  lemma {:induction false} GlobStarLiteral(t: string, s: string)
    requires '*' !in t
    ensures Glob("*" + t, s) <==> HasSuffix(s, t)
  {
    assert ("*" + t)[1..] == t;
    GlobLiteral(t, s);
    if s != [] {
      GlobStarLiteral(t, s[1..]);
      assert |t| < |s| ==> s[1..][|s[1..]| - |t|..] == s[|s| - |t|..];
    }
  }

  // ----- the cursor

  /** One step of the scan: with the cursor at the shortest match of `p`, the first
      occurrence `k` of the next part at or after it ends the shortest match of `p*t`. */
  lemma LeastEndStep(p: string, t: string, s: string, c: nat, k: int)
    requires '*' !in t && IsLeastEnd(p, s, c)
    requires c <= k && OccursAt(s, t, k) && forall j :: c <= j < k ==> !OccursAt(s, t, j)
    ensures IsLeastEnd(p + ("*" + t), s, k + |t|)
  {
    var q := p + ("*" + t);
    assert s[..k + |t|][..c] == s[..c];
    assert HasSuffix(s[..k + |t|][c..], t) by {
      assert s[..k + |t|][c..][k - c..] == s[k..k + |t|];
    }
    GlobStarLiteral(t, s[..k + |t|][c..]);
    GlobConcat(p, "*" + t, s[..k + |t|]);
    forall m: nat | m < k + |t| ensures !Glob(q, s[..m]) {
      if Glob(q, s[..m]) { var j := FloatingOccurrence(p, t, s, c, m); }
    }
  }

  /** Any placement of `p*t` puts `t` at or after the shortest end of `p`. */
  lemma FloatingOccurrence(p: string, t: string, s: string, c: nat, m: nat) returns (j: int)
    requires '*' !in t && m <= |s| && Glob(p + ("*" + t), s[..m])
    requires IsLeastEnd(p, s, c)
    ensures c <= j && OccursAt(s, t, j) && j + |t| == m
  {
    GlobConcat(p, "*" + t, s[..m]);
    var i :| 0 <= i <= |s[..m]| && Glob(p, s[..m][..i]) && Glob("*" + t, s[..m][i..]);
    assert s[..m][..i] == s[..i];
    GlobStarLiteral(t, s[..m][i..]);
    j := m - |t|;
    assert s[..m][i..][|s[..m][i..]| - |t|..] == s[j..m];
  }

  lemma StarTail(p: string, s: string)
    ensures Glob(p + "*", s) <==> exists n: nat :: n <= |s| && Glob(p, s[..n])
  {
    GlobConcat(p, "*", s);
    forall n | 0 <= n <= |s| ensures Glob("*", s[n..]) {
      GlobStarLiteral("", s[n..]);
      assert "*" + "" == "*";
    }
  }

  lemma ShortestExists(p: string, s: string, n: nat) returns (c: nat)
    requires n <= |s| && Glob(p, s[..n])
    ensures c <= n && IsLeastEnd(p, s, c)
  {
    c := 0;
    while !Glob(p, s[..c])
      invariant c <= n && forall m: nat :: m < c ==> !Glob(p, s[..m])
      decreases n - c
    {
      c := c + 1;
    }
  }

  /** A prefix of the pattern with no placement at all leaves the whole pattern none. */
  lemma NoPrefixNoGlob(p: string, rest: string, s: string)
    requires forall n: nat :: n <= |s| ==> !Glob(p, s[..n])
    ensures !Glob(p + rest, s)
  {
    GlobConcat(p, rest, s);
  }

  // ----- the scan itself

  /** `str::find` from a cursor. */
  method Find(s: string, from: nat, t: string) returns (pos: int)
    requires from <= |s|
    ensures pos >= 0 ==> from <= pos && OccursAt(s, t, pos) && forall j :: from <= j < pos ==> !OccursAt(s, t, j)
    ensures pos < 0 ==> forall j :: from <= j ==> !OccursAt(s, t, j)
  {
    pos := from;
    while pos + |t| <= |s|
      invariant from <= pos
      invariant forall j :: from <= j < pos ==> !OccursAt(s, t, j)
    {
      if s[pos..pos + |t|] == t { return; }
      pos := pos + 1;
    }
    pos := -1;
  }

  lemma JoinStep(parts: seq<string>, i: nat)
    requires 0 < i < |parts|
    ensures Join(parts[..i + 1], '*') == Join(parts[..i], '*') + ("*" + parts[i])
  {
    assert parts[..i + 1] == parts[..i] + [parts[i]];
    JoinSnoc(parts[..i], parts[i], '*');
  }

  /** Everything before part `i` is a prefix of the whole pattern. */
  lemma {:induction false} JoinPrefix(parts: seq<string>, i: nat)
    requires 0 < i <= |parts|
    ensures Join(parts[..i], '*') <= Join(parts, '*')
    ensures i < |parts| ==> Join(parts[..i], '*') + "*" <= Join(parts, '*')
    decreases |parts| - i
  {
    if i == |parts| {
      assert parts[..i] == parts;
    } else {
      JoinStep(parts, i);
      JoinPrefix(parts, i + 1);
    }
  }

  lemma LastStarIs(a: string, t: string)
    requires '*' !in t
    ensures '*' in a + ("*" + t) && LastStar(a + ("*" + t)) == |a|
  {
    var p := a + ("*" + t);
    assert p[|a|] == '*' && p[|a| + 1..] == t;
    assert forall i :: |a| < i < |p| ==> p[i] == t[i - |a| - 1];
  }

  // ----- what each exit of the scan has established

  lemma Shape(name: string, parts: seq<string>)
    requires |parts| > 1 && '*' !in parts[|parts| - 1]
    ensures var front := Join(parts[..|parts| - 1], '*');
            Accepts(name, Join(parts, '*')) <==> Glob(front + "*", name) && HasSuffix(name, parts[|parts| - 1])
  {
    var front, t := Join(parts[..|parts| - 1], '*'), parts[|parts| - 1];
    LastStarIs(front, t);
    JoinStep(parts, |parts| - 1);
    assert parts[..|parts|] == parts;
    assert Join(parts, '*')[..|front| + 1] == front + "*" && Join(parts, '*')[|front| + 1..] == t;
  }

  lemma NoLongerGlob(p: string, longer: string, s: string)
    requires p <= longer && forall n: nat :: n <= |s| ==> !Glob(p, s[..n])
    ensures !Glob(longer, s)
  {
    assert longer == p + longer[|p|..];
    NoPrefixNoGlob(p, longer[|p|..], s);
  }

  /** If the parts up to `i` cannot be placed at all, the name is refused. */
  lemma Refused(name: string, parts: seq<string>, i: nat)
    requires 0 < i < |parts| && '*' !in parts[|parts| - 1]
    requires forall n: nat :: n <= |name| ==> !Glob(Join(parts[..i], '*'), name[..n])
    ensures !Accepts(name, Join(parts, '*'))
  {
    var front := parts[..|parts| - 1];
    Shape(name, parts);
    assert front[..i] == parts[..i];
    JoinPrefix(front, i);
    NoLongerGlob(Join(front[..i], '*'), Join(front, '*') + "*", name);
  }

  lemma FirstPart(name: string, parts: seq<string>)
    requires |parts| > 0 && forall i :: 0 <= i < |parts| ==> '*' !in parts[i]
    ensures parts[0] <= name ==> IsLeastEnd(parts[0], name, |parts[0]|)
    ensures !(parts[0] <= name) ==> !Accepts(name, Join(parts, '*'))
  {
    forall n: nat | n <= |name| ensures Glob(parts[0], name[..n]) <==> name[..n] == parts[0] {
      GlobLiteral(parts[0], name[..n]);
    }
    if !(parts[0] <= name) && |parts| > 1 {
      assert Join(parts[..1], '*') == parts[0];
      Refused(name, parts, 1);
    }
  }

  lemma MissingPart(name: string, parts: seq<string>, i: nat, c: nat)
    requires 0 < i < |parts| - 1 && '*' !in parts[i] && '*' !in parts[|parts| - 1]
    requires IsLeastEnd(Join(parts[..i], '*'), name, c)
    requires forall j :: c <= j ==> !OccursAt(name, parts[i], j)
    ensures !Accepts(name, Join(parts, '*'))
  {
    JoinStep(parts, i);
    forall n: nat | n <= |name| ensures !Glob(Join(parts[..i + 1], '*'), name[..n]) {
      if Glob(Join(parts[..i + 1], '*'), name[..n]) {
        var j := FloatingOccurrence(Join(parts[..i], '*'), parts[i], name, c, n);
      }
    }
    Refused(name, parts, i + 1);
  }

  /** Once all parts but the last are placed, the last is tested as a suffix only. */
  lemma LastPart(name: string, parts: seq<string>, c: nat)
    requires |parts| > 1 && '*' !in parts[|parts| - 1]
    requires c <= |name| && Glob(Join(parts[..|parts| - 1], '*'), name[..c])
    ensures Accepts(name, Join(parts, '*')) <==> HasSuffix(name, parts[|parts| - 1])
  {
    Shape(name, parts);
    StarTail(Join(parts[..|parts| - 1], '*'), name);
  }

  /** The greedy scan accepts exactly `Accepts`.  The source's early return on an empty
      list of parts is not modelled: splitting always yields at least one part. */
  method MatchesPattern(name: string, pattern: string) returns (matched: bool)
    ensures matched == Accepts(name, pattern)
  {
    hide Glob, Split;
    var parts := Split(pattern, '*');
    JoinSplit(pattern, '*');
    forall j | 0 <= j < |parts| ensures '*' !in parts[j] { SplitParts(pattern, '*', "", j); }
    var currentPos: nat := 0;
    var i := 0;
    while i < |parts|
      invariant 0 <= i <= |parts|
      invariant i == 0 ==> currentPos == 0
      invariant 0 < i ==> IsLeastEnd(Join(parts[..i], '*'), name, currentPos)
      invariant i == |parts| > 1 ==>
                  currentPos <= |name| && Glob(Join(parts[..i - 1], '*'), name[..currentPos]) && parts[i - 1] == []
    {
      var part := parts[i];
      if i > 0 { JoinStep(parts, i); } else { assert Join(parts[..1], '*') == part; }
      if part == [] {
        if i > 0 {
          LeastEndStep(Join(parts[..i], '*'), part, name, currentPos, currentPos);
        } else {
          FirstPart(name, parts);
        }
      } else if i == 0 {
        FirstPart(name, parts);
        if !(part <= name) { return false; }
        currentPos := |part|;
      } else if i == |parts| - 1 {
        LastPart(name, parts, currentPos);
        return HasSuffix(name, part);
      } else {
        var pos := Find(name, currentPos, part);
        if pos < 0 {
          MissingPart(name, parts, i, currentPos);
          return false;
        }
        LeastEndStep(Join(parts[..i], '*'), part, name, currentPos, pos);
        currentPos := pos + |part|;
      }
      i := i + 1;
    }
    assert parts[..i] == parts;
    if |parts| == 1 {
      GlobLiteral(parts[0], name[..currentPos]);
    } else {
      LastPart(name, parts, currentPos);
    }
    return true;
  }

  // ----- against the glob meaning

  /** The tail `t` is found at the end of the name, at or after the cursor left by `q`. */
  ghost predicate TailAfterCursor(q: string, t: string, name: string, c: nat) {
    IsLeastEnd(q, name, c) && HasSuffix(name, t) && c + |t| <= |name|
  }

  lemma CutAtLastStar(pattern: string)
    requires '*' in pattern
    ensures var k := LastStar(pattern);
            pattern == pattern[..k] + ("*" + pattern[k + 1..]) && pattern[..k + 1] == pattern[..k] + "*"
  {
  }

  /** With the tail held to the text after the cursor, the scan would be the glob. */
  lemma GlobByCursor(q: string, t: string, name: string)
    requires '*' !in t
    ensures Glob(q + ("*" + t), name) <==> exists c: nat :: TailAfterCursor(q, t, name, c)
  {
    GlobConcat(q, "*" + t, name);
    if Glob(q + ("*" + t), name) {
      var n :| 0 <= n <= |name| && Glob(q, name[..n]) && Glob("*" + t, name[n..]);
      GlobStarLiteral(t, name[n..]);
      var c := ShortestExists(q, name, n);
      assert name[n..][|name[n..]| - |t|..] == name[|name| - |t|..];
      assert TailAfterCursor(q, t, name, c);
    }
    if c: nat :| TailAfterCursor(q, t, name, c) {
      assert name[c..][|name[c..]| - |t|..] == name[|name| - |t|..];
      GlobStarLiteral(t, name[c..]);
    }
  }

  /** The scan's verdict on a pattern `q*t` with literal `t`. */
  lemma AcceptsByCursor(q: string, t: string, name: string)
    requires '*' !in t
    ensures Accepts(name, q + ("*" + t)) <==> exists c: nat :: IsLeastEnd(q, name, c) && HasSuffix(name, t)
  {
    LastStarIs(q, t);
    CutAtStar(q, t);
    hide Glob, LastStar, HasSuffix;
    StarTail(q, name);
    if n: nat :| n <= |name| && Glob(q, name[..n]) {
      var c := ShortestExists(q, name, n);
    }
  }

  lemma CutAtStar(q: string, t: string)
    ensures var p := q + ("*" + t); p[..|q| + 1] == q + "*" && p[|q| + 1..] == t
  {
  }

  /** On a pattern `q*t` the scan agrees with the glob exactly when the tail it looks at
      does not start before the cursor; it never misses a glob match. */
  lemma TailExact(q: string, t: string, name: string)
    requires '*' !in t
    ensures Glob(q + ("*" + t), name) ==> Accepts(name, q + ("*" + t))
    ensures (Accepts(name, q + ("*" + t)) <==> Glob(q + ("*" + t), name)) <==>
            forall c: nat :: IsLeastEnd(q, name, c) && HasSuffix(name, t) ==> c + |t| <= |name|
  {
    GlobByCursor(q, t, name);
    AcceptsByCursor(q, t, name);
    if c: nat :| TailAfterCursor(q, t, name, c) {
      assert IsLeastEnd(q, name, c);
    }
    if c: nat :| IsLeastEnd(q, name, c) && HasSuffix(name, t) {
      if c + |t| <= |name| { assert TailAfterCursor(q, t, name, c); }
      forall d: nat | IsLeastEnd(q, name, d) ensures d == c {
      }
    }
  }

  /** The scan never misses a glob match, and it agrees with the glob exactly when a
      star-free pattern is not a proper prefix of the name, respectively when the tail
      it found starts at or after the cursor. */
  lemma ScanIsGlobExactly(name: string, pattern: string)
    ensures Glob(pattern, name) ==> Accepts(name, pattern)
    ensures (Accepts(name, pattern) <==> Glob(pattern, name)) <==>
            if '*' !in pattern then !(pattern < name)
            else var k := LastStar(pattern);
                 forall c: nat :: IsLeastEnd(pattern[..k], name, c) && HasSuffix(name, pattern[k + 1..])
                                  ==> c + |pattern[k + 1..]| <= |name|
  {
    if '*' !in pattern {
      GlobLiteral(pattern, name);
    } else {
      var k := LastStar(pattern);
      CutAtLastStar(pattern);
      TailExact(pattern[..k], pattern[k + 1..], name);
    }
  }

  /** A pattern ending in a star is matched exactly, whatever the name. */
  lemma TrailingStarExact(name: string, pattern: string)
    requires pattern != [] && pattern[|pattern| - 1] == '*'
    ensures Accepts(name, pattern) <==> Glob(pattern, name)
  {
    assert LastStar(pattern) == |pattern| - 1;
    assert pattern[..|pattern|] == pattern;
  }

  lemma LiteralEnd(a: string, name: string, c: nat)
    requires '*' !in a
    ensures IsLeastEnd(a, name, c) <==> c == |a| && a <= name
  {
    forall n: nat | n <= |name| ensures Glob(a, name[..n]) <==> name[..n] == a {
      GlobLiteral(a, name[..n]);
    }
    if a <= name { assert name[..|a|] == a; }
  }

  lemma Overlap(a: string, b: string, j: nat)
    requires '*' !in a && '*' !in b && 0 < j <= |a| && j <= |b| && a[|a| - j..] == b[..j]
    ensures Accepts(a + b[j..], a + ("*" + b)) && !Glob(a + ("*" + b), a + b[j..])
  {
    hide Accepts, Glob, IsLeastEnd;
    var name := a + b[j..];
    assert a == a[..|a| - j] + b[..j] && b == b[..j] + b[j..];
    assert name == a[..|a| - j] + b;
    LiteralEnd(a, name, |a|);
    TailExact(a, b, name);
    AcceptsByCursor(a, b, name);
  }

  /** Two patterns on which the scan is more generous than the glob. */
  lemma ScanIsNotGlob()
    ensures Accepts("logs-2024", "logs") && !Glob("logs", "logs-2024")
    ensures Accepts("ab", "ab*b") && !Glob("ab*b", "ab")
  {
    hide Glob, LastStar, HasSuffix;
    GlobLiteral("logs", "logs-2024");
    Overlap("ab", "b", 1);
    assert "ab" + ("*" + "b") == "ab*b" && "ab" + "b"[1..] == "ab";
  }
}
