/** For which patterns the scan of the shards page (src/handlers/shards.rs) is exact on every
    name, decided on the pattern alone. */
module ShardExactness {
  import opened ShardPatterns
  import opened Strings

  /** The pattern without its stars. */
  function Literal(q: string): string {
    if q == "" then "" else (if q[0] == '*' then "" else [q[0]]) + Literal(q[1..])
  }

  /** No name shorter than the literal text of a pattern matches it. */
  lemma {:induction false} GlobNeeds(q: string, s: string)
    requires Glob(q, s)
    ensures |Literal(q)| <= |s|
    decreases |q| + |s|
  {
    if q != "" {
      if q[0] == '*' && !Glob(q[1..], s) {
        GlobNeeds(q, s[1..]);
      } else if q[0] == '*' {
        GlobNeeds(q[1..], s);
      } else {
        GlobNeeds(q[1..], s[1..]);
      }
    }
  }

  /** The literal text matches. */
  lemma {:induction false} GlobOwn(q: string)
    ensures Glob(q, Literal(q))
  {
    if q != "" {
      GlobOwn(q[1..]);
      if q[0] == '*' {
        assert Literal(q) == Literal(q[1..]);
      } else {
        var s := [q[0]] + Literal(q[1..]);
        assert s[0] == q[0] && s[1..] == Literal(q[1..]);
      }
    }
  }

  lemma {:induction false} LiteralConcat(a: string, b: string)
    ensures Literal(a + b) == Literal(a) + Literal(b)
  {
    if a == "" {
      assert a + b == b;
    } else {
      LiteralConcat(a[1..], b);
      assert (a + b)[1..] == a[1..] + b && (a + b)[0] == a[0];
      Associative(if a[0] == '*' then "" else [a[0]], Literal(a[1..]), Literal(b));
    }
  }

  lemma {:induction false} LiteralOfStarless(p: string)
    requires '*' !in p
    ensures Literal(p) == p
  {
    if p != "" {
      LiteralOfStarless(p[1..]);
      assert p == [p[0]] + p[1..];
    }
  }

  // ----- stars at the end move no cursor

  function StripStars(q: string): (r: string)
    ensures r != "" ==> r[|r| - 1] != '*'
  {
    if q != "" && q[|q| - 1] == '*' then StripStars(q[..|q| - 1]) else q
  }

  lemma StarGlob(q: string, s: string, n: nat)
    requires n <= |s|
    ensures Glob(q + "*", s[..n]) <==> exists m: nat :: m <= n && Glob(q, s[..m])
  {
    StarTail(q, s[..n]);
    forall m: nat | m <= n ensures s[..n][..m] == s[..m] {}
  }

  lemma StarLeastEnd(q: string, s: string, c: nat)
    ensures IsLeastEnd(q + "*", s, c) <==> IsLeastEnd(q, s, c)
  {
    hide Glob;
    forall n: nat | n <= |s| ensures Glob(q + "*", s[..n]) <==> exists m: nat :: m <= n && Glob(q, s[..m]) {
      StarGlob(q, s, n);
    }
    if c <= |s| && Glob(q + "*", s[..c]) {
      var m: nat :| m <= c && Glob(q, s[..m]);
      assert m < c ==> Glob(q + "*", s[..m]);
    }
  }

  lemma {:induction false} StrippedLeastEnd(q: string, s: string, c: nat)
    ensures IsLeastEnd(q, s, c) <==> IsLeastEnd(StripStars(q), s, c)
  {
    if q != "" && q[|q| - 1] == '*' {
      var front := q[..|q| - 1];
      assert q == front + "*";
      hide IsLeastEnd;
      StrippedLeastEnd(front, s, c);
      StarLeastEnd(front, s, c);
    }
  }

  // ----- the last piece of what comes before the last star

  /** `p` is a literal piece at the end, right behind a star or at the beginning. */
  predicate IsPiece(front: string, p: string) {
    p != "" && '*' !in p && (front == "" || front[|front| - 1] == '*')
  }

  predicate OverlapBy(p: string, t: string, j: nat) {
    0 < j <= |p| && j <= |t| && p[|p| - j..] == t[..j]
  }

  /** Some non-empty end of `p` is a start of `t`. */
  ghost predicate Overlaps(p: string, t: string) {
    exists j: nat :: OverlapBy(p, t, j)
  }

  /** What lets the tail `t` be found before the cursor behind the piece `p`. */
  ghost predicate Clash(front: string, p: string, t: string) {
    Overlaps(p, t) || (front != "" && Contains(t, p))
  }

  /** The cursor stands right behind an occurrence of the piece. */
  lemma PieceBeforeCursor(front: string, p: string, s: string, c: nat)
    requires IsPiece(front, p) && IsLeastEnd(front + p, s, c)
    ensures |p| <= c <= |s| && s[c - |p|..c] == p && (front == "" ==> c == |p|)
  {
    GlobConcat(front, p, s[..c]);
    var k :| 0 <= k <= |s[..c]| && Glob(front, s[..c][..k]) && Glob(p, s[..c][k..]);
    GlobLiteral(p, s[..c][k..]);
    assert s[..c][k..] == s[k..c];
  }

  /** A tail found before the cursor overlaps the piece or contains it. */
  lemma EarlyTailClashes(front: string, p: string, t: string, s: string, c: nat)
    requires IsPiece(front, p) && IsLeastEnd(front + p, s, c) && HasSuffix(s, t) && c + |t| > |s|
    ensures Clash(front, p, t)
  {
    hide Glob, IsLeastEnd;
    PieceBeforeCursor(front, p, s, c);
    var from := |s| - |t|;
    assert s[from..] == t;
    if c - |p| <= from {
      var j := c - from;
      assert p[|p| - j..] == s[from..c] by { assert s[c - |p|..c][|p| - j..] == s[from..c]; }
      assert s[from..c] == s[from..][..j] == t[..j];
      assert OverlapBy(p, t, j);
    } else {
      var k := c - |p| - from;
      assert t[k..k + |p|] == s[from..][k..k + |p|] == s[c - |p|..c];
      assert OccursAt(t, p, k);
    }
  }

  /** The cursor on a name that begins with the literal text of the pattern. */
  lemma CursorOnLiteral(q: string, rest: string)
    ensures IsLeastEnd(q, Literal(q) + rest, |Literal(q)|)
  {
    var s := Literal(q) + rest;
    assert s[..|Literal(q)|] == Literal(q);
    GlobOwn(q);
    forall m: nat | m < |Literal(q)| ensures !Glob(q, s[..m]) {
      if Glob(q, s[..m]) { GlobNeeds(q, s[..m]); }
    }
  }

  /** A name on which the tail starts before the cursor. */
  ghost predicate Early(q: string, t: string, s: string, c: nat) {
    IsLeastEnd(q, s, c) && HasSuffix(s, t) && c + |t| > |s|
  }

  lemma SuffixOf(before: string, t: string)
    ensures HasSuffix(before + t, t)
  {
  }

  /** The same with the overlap `x` written out: the piece is `before + x`, the tail
      `x + after`. */
  lemma OverlapParts(front: string, before: string, x: string, after: string) returns (s: string, c: nat)
    requires IsPiece(front, before + x) && x != ""
    ensures Early(front + (before + x), x + after, s, c)
  {
    var p, l := before + x, Literal(front);
    LiteralConcat(front, p);
    LiteralOfStarless(p);
    hide Glob, Literal, IsLeastEnd, HasSuffix, IsPiece;
    s, c := l + p + after, |l + p|;
    CursorOnLiteral(front + p, after);
    Associative(l, before, x);
    Associative(l + before, x, after);
    SuffixOf(l + before, x + after);
  }

  lemma OverlapIsEarly(front: string, p: string, t: string, j: nat) returns (s: string, c: nat)
    requires IsPiece(front, p) && OverlapBy(p, t, j)
    ensures Early(front + p, t, s, c)
  {
    hide Early, IsPiece;
    var before, x, after := p[..|p| - j], t[..j], t[j..];
    assert p == before + x && t == x + after;
    s, c := OverlapParts(front, before, x, after);
  }

  lemma ContainedIsEarly(front: string, p: string, t: string, k: nat) returns (s: string, c: nat)
    requires IsPiece(front, p) && front != "" && OccursAt(t, p, k)
    ensures Early(front + p, t, s, c)
  {
    var l := Literal(front);
    s := l + t;
    var n := |l| + k + |p|;
    FloatsThere(front, p, t, k);
    c := ShortestExists(front + p, s, n);
    GlobNeeds(front + p, s[..c]);
    LiteralConcat(front, p);
    LiteralOfStarless(p);
    assert s[|s| - |t|..] == t;
  }

  lemma BeforePiece(front: string, rest: string)
    requires front != "" && front[|front| - 1] == '*'
    ensures Glob(front, Literal(front) + rest)
  {
    var f := front[..|front| - 1];
    assert front == f + "*";
    LiteralConcat(f, "*");
    LiteralOfStar();
    GlobOwn(f);
    hide Glob, Literal;
    var s := Literal(f) + rest;
    assert Literal(front) == Literal(f) && s[..|Literal(f)|] == Literal(f);
    StarTail(f, s);
  }

  lemma LiteralOfStar()
    ensures Literal("*") == ""
  {
    assert "*"[1..] == "";
  }

  lemma FloatsThere(front: string, p: string, t: string, k: nat)
    requires IsPiece(front, p) && front != "" && OccursAt(t, p, k)
    ensures var l := Literal(front); Glob(front + p, (l + t)[..|l| + k + |p|])
  {
    var l := Literal(front);
    var before, whole := l + t[..k], (l + t)[..|l| + k + |p|];
    BeforePiece(front, t[..k]);
    GlobLiteral(p, p);
    hide Glob, Literal, IsPiece;
    assert whole == before + p;
    GlobConcat(front, p, whole);
    assert whole[..|before|] == before && whole[|before|..] == p;
  }

  // ----- the condition on the pattern

  /** Where the last piece of a pattern that does not end in a star begins. */
  function PieceStart(r: string): (k: nat)
    ensures k <= |r|
  {
    if '*' in r then LastStar(r) + 1 else 0
  }

  /** Whether the tail `t` can never be found before the cursor left by `q`: no non-empty
      end of the last piece of `q` is a start of `t`, and a piece behind a star does not
      occur in `t`. */
  ghost predicate Fits(q: string, t: string) {
    var r := StripStars(q);
    r == "" || (var k := PieceStart(r); !Clash(r[..k], r[k..], t))
  }

  lemma LastPiece(r: string)
    requires r != "" && r[|r| - 1] != '*'
    ensures var k := PieceStart(r); IsPiece(r[..k], r[k..]) && r == r[..k] + r[k..]
  {
  }

  lemma ClashIsEarly(front: string, p: string, t: string) returns (s: string, c: nat)
    requires IsPiece(front, p) && Clash(front, p, t)
    ensures Early(front + p, t, s, c)
  {
    hide Early, Glob, IsLeastEnd, Literal;
    if Overlaps(p, t) {
      var j: nat :| OverlapBy(p, t, j);
      s, c := OverlapIsEarly(front, p, t, j);
    } else {
      var k :| OccursAt(t, p, k);
      s, c := ContainedIsEarly(front, p, t, k);
    }
  }

  /** The tail is found before the cursor on some name exactly when it does not fit. */
  lemma EarlyExactly(q: string, t: string)
    ensures (exists s, c: nat :: Early(q, t, s, c)) <==> !Fits(q, t)
  {
    var r := StripStars(q);
    forall s, c: nat ensures Early(q, t, s, c) <==> Early(r, t, s, c) { StrippedLeastEnd(q, s, c); }
    if r == "" {
      forall s, c: nat ensures !Early(r, t, s, c) {
        if IsLeastEnd(r, s, c) { assert s[..0] == ""; }
      }
    } else {
      var k := PieceStart(r);
      LastPiece(r);
      hide Early, StripStars, PieceStart, Glob, IsLeastEnd;
      if Clash(r[..k], r[k..], t) {
        var s, c := ClashIsEarly(r[..k], r[k..], t);
      }
      forall s, c: nat | Early(r, t, s, c) ensures Clash(r[..k], r[k..], t) {
        EarlyClashes(r[..k], r[k..], t, s, c);
      }
    }
  }

  lemma EarlyClashes(front: string, p: string, t: string, s: string, c: nat)
    requires IsPiece(front, p) && Early(front + p, t, s, c)
    ensures Clash(front, p, t)
  {
    EarlyTailClashes(front, p, t, s, c);
  }

  lemma ExactAt(q: string, t: string, name: string)
    requires '*' !in t
    ensures (Accepts(name, q + ("*" + t)) <==> Glob(q + ("*" + t), name)) <==> forall c: nat :: !Early(q, t, name, c)
  {
    hide Accepts, Glob, IsLeastEnd, HasSuffix;
    TailExact(q, t, name);
    if forall c: nat :: !Early(q, t, name, c) {
      forall c: nat | IsLeastEnd(q, name, c) && HasSuffix(name, t) ensures c + |t| <= |name| {
        assert !Early(q, t, name, c);
      }
    }
  }

  /** On a pattern `q*t` with literal `t` the scan is the glob for every name if and only if
      the tail fits. */
  lemma TailAlwaysExact(q: string, t: string)
    requires '*' !in t
    ensures (forall name :: Accepts(name, q + ("*" + t)) <==> Glob(q + ("*" + t), name)) <==> Fits(q, t)
  {
    hide Accepts, Glob, Fits, Early;
    EarlyExactly(q, t);
    forall name
      ensures (Accepts(name, q + ("*" + t)) <==> Glob(q + ("*" + t), name)) <==> forall c: nat :: !Early(q, t, name, c)
    {
      ExactAt(q, t, name);
    }
    if s, c: nat :| Early(q, t, s, c) {
      assert !(Accepts(s, q + ("*" + t)) <==> Glob(q + ("*" + t), s));
    }
  }

  lemma FitsStarless(a: string, b: string)
    requires '*' !in a
    ensures Fits(a, b) <==> !Overlaps(a, b)
  {
    assert StripStars(a) == a && a[..0] == "" && a[0..] == a;
  }

  /** A pattern `a*b` is matched exactly for every name iff no end of `a` is a start of `b`. */
  lemma SingleStarExact(a: string, b: string)
    requires '*' !in a && '*' !in b
    ensures (forall name :: Accepts(name, a + ("*" + b)) <==> Glob(a + ("*" + b), name)) <==>
            (forall j :: 0 < j <= |a| && j <= |b| ==> a[|a| - j..] != b[..j])
  {
    hide Accepts, Glob, Fits;
    TailAlwaysExact(a, b);
    FitsStarless(a, b);
    if j :| 0 < j <= |a| && j <= |b| && a[|a| - j..] == b[..j] {
      assert OverlapBy(a, b, j);
    }
  }

  /** For which patterns the scan is the glob on every name: those with a star whose tail
      fits what comes before their last star. */
  lemma AlwaysExact(pattern: string)
    ensures (forall name :: Accepts(name, pattern) <==> Glob(pattern, name)) <==>
            '*' in pattern && var k := LastStar(pattern); Fits(pattern[..k], pattern[k + 1..])
  {
    hide Glob, Fits;
    if '*' in pattern {
      var k := LastStar(pattern);
      CutAtLastStar(pattern);
      TailAlwaysExact(pattern[..k], pattern[k + 1..]);
    } else {
      var longer := pattern + "x";
      GlobLiteral(pattern, longer);
      assert Accepts(longer, pattern) && !Glob(pattern, longer);
    }
  }
}
