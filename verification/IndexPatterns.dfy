/** Normalising index patterns (src/handlers/search.rs, src/handlers/indices.rs) and
    remembering them in a cookie. */
module IndexPatterns {
  import opened Options
  import opened Strings

  // ----- normalising

  /** Each part trimmed, and the empty ones left out. */
  function TrimmedParts(parts: seq<string>): seq<string> {
    if parts == [] then []
    else (if Trim(parts[0]) == "" then [] else [Trim(parts[0])]) + TrimmedParts(parts[1..])
  }

  function Commas(s: string): string {
    Replace(Replace(Replace(Replace(Replace(Replace(
      s, " OR ", ","), " or ", ","), " Or ", ","), " oR ", ","), "OR", ","), "or", ",")
  }

  function Normalize(input: string): string {
    var trimmed := Trim(input);
    if trimmed == "" then "*"
    else
      var parts := TrimmedParts(Split(Commas(trimmed), ','));
      if parts == [] then "*" else Join(parts, ',')
  }

  /** A segment as it should come out. */
  ghost predicate Clean(part: string) {
    && part != "" && ',' !in part && Trim(part) == part
    && !Contains(part, "OR") && !Contains(part, "or") && !Contains(part, " Or ") && !Contains(part, " oR ")
  }

  ghost predicate Tidy(parts: seq<string>) {
    parts != [] && forall i :: 0 <= i < |parts| ==> Clean(parts[i])
  }

  // ----- what a replacement by a comma leaves

  lemma {:induction false} PrefixBefore(s: string, p: string, w: string)
    requires p != "" && ',' !in w && w <= Replace(s, p, ",")
    ensures w <= s
  {
    if w != "" {
      assert w[0] == Replace(s, p, ",")[0];
      assert !(p <= s);
      PrefixBefore(s[1..], p, w[1..]);
    }
  }

  /** Text without commas that is there afterwards was there before. */
  lemma {:induction false} ReplaceLeaves(s: string, p: string, w: string)
    requires p != "" && ',' !in p && w != "" && ',' !in w
    ensures Contains(Replace(s, p, ","), w) ==> Contains(s, w)
  {
    var r := Replace(s, p, ",");
    if s != "" && Contains(r, w) {
      var n := if p <= s then |p| else 1;
      var rest := s[n..];
      assert rest == s[n..|s|];
      ReplaceLeaves(rest, p, w);
      assert r[1..] == Replace(rest, p, ",");
      var k :| OccursAt(r, w, k);
      if k == 0 {
        PrefixBefore(s, p, w);
        assert OccursAt(s, w, 0);
      } else {
        SliceOfRest(r, 1, k - 1, k - 1 + |w|);
        assert OccursAt(r[1..], w, k - 1);
        Within(s, n, |s|, w);
      }
    }
  }

  /** The pattern is gone. */
  lemma {:induction false} ReplaceRemoves(s: string, p: string)
    requires p != "" && ',' !in p
    ensures !Contains(Replace(s, p, ","), p)
  {
    var r := Replace(s, p, ",");
    if s != "" {
      var rest := s[if p <= s then |p| else 1..];
      ReplaceRemoves(rest, p);
      assert r[1..] == Replace(rest, p, ",");
      forall k | OccursAt(r, p, k) ensures k == 0 {
        if k > 0 {
          SliceOfRest(r, 1, k - 1, k - 1 + |p|);
          assert OccursAt(r[1..], p, k - 1);
        }
      }
      if OccursAt(r, p, 0) {
        assert r[0] == r[0..|p|][0] == p[0];
        PrefixBefore(s, p, p);
      }
    }
  }

  lemma {:induction false} ReplaceNothing(s: string, p: string)
    requires p != "" && !Contains(s, p)
    ensures Replace(s, p, ",") == s
  {
    if s != "" {
      assert p <= s ==> OccursAt(s, p, 0);
      forall k | OccursAt(s[1..], p, k) ensures OccursAt(s, p, k + 1) {}
      ReplaceNothing(s[1..], p);
      assert s == [s[0]] + s[1..];
    }
  }

  /** One link of the chain, for the four patterns that matter. */
  lemma Link(s: string, p: string)
    requires p != "" && ',' !in p
    ensures var r := Replace(s, p, ",");
            && !Contains(r, p)
            && (Contains(r, "OR") ==> Contains(s, "OR")) && (Contains(r, "or") ==> Contains(s, "or"))
            && (Contains(r, " Or ") ==> Contains(s, " Or ")) && (Contains(r, " oR ") ==> Contains(s, " oR "))
  {
    ReplaceRemoves(s, p);
    ReplaceLeaves(s, p, "OR");
    ReplaceLeaves(s, p, "or");
    ReplaceLeaves(s, p, " Or ");
    ReplaceLeaves(s, p, " oR ");
  }

  lemma CommasFree(s: string)
    ensures var r := Commas(s);
            !Contains(r, "OR") && !Contains(r, "or") && !Contains(r, " Or ") && !Contains(r, " oR ")
  {
    var s1 := Replace(s, " OR ", ",");
    var s2 := Replace(s1, " or ", ",");
    var s3 := Replace(s2, " Or ", ",");
    Link(s2, " Or ");
    var s4 := Replace(s3, " oR ", ",");
    Link(s3, " oR ");
    var s5 := Replace(s4, "OR", ",");
    Link(s4, "OR");
    Link(s5, "or");
  }

  lemma CommasKeep(s: string)
    requires !Contains(s, "OR") && !Contains(s, "or") && !Contains(s, " Or ") && !Contains(s, " oR ")
    ensures Commas(s) == s
  {
    forall k | OccursAt(s, " OR ", k) ensures OccursAt(s, "OR", k + 1) {
      assert s[k + 1] == s[k..k + 4][1] == 'O' && s[k + 2] == s[k..k + 4][2] == 'R';
    }
    forall k | OccursAt(s, " or ", k) ensures OccursAt(s, "or", k + 1) {
      assert s[k + 1] == s[k..k + 4][1] == 'o' && s[k + 2] == s[k..k + 4][2] == 'r';
    }
    ReplaceNothing(s, " OR ");
    ReplaceNothing(s, " or ");
    ReplaceNothing(s, " Or ");
    ReplaceNothing(s, " oR ");
    ReplaceNothing(s, "OR");
    ReplaceNothing(s, "or");
  }

  // ----- splitting, trimming, joining

  lemma {:induction false} CleanParts(s: string, parts: seq<string>, i: nat)
    requires !Contains(s, "OR") && !Contains(s, "or") && !Contains(s, " Or ") && !Contains(s, " oR ")
    requires forall j, w :: 0 <= j < |parts| ==> ',' !in parts[j] && (Contains(parts[j], w) ==> Contains(s, w))
    requires i < |TrimmedParts(parts)|
    ensures Clean(TrimmedParts(parts)[i])
  {
    var part := Trim(parts[0]);
    if part == "" {
      CleanParts(s, parts[1..], i);
    } else if i > 0 {
      CleanParts(s, parts[1..], i - 1);
    } else {
      CleanPart(s, parts[0]);
    }
  }

  lemma CleanPart(s: string, part: string)
    requires !Contains(s, "OR") && !Contains(s, "or") && !Contains(s, " Or ") && !Contains(s, " oR ")
    requires ',' !in part && forall w :: Contains(part, w) ==> Contains(s, w)
    requires Trim(part) != ""
    ensures Clean(Trim(part))
  {
    TrimParts(part, "OR");
    TrimParts(part, "or");
    TrimParts(part, " Or ");
    TrimParts(part, " oR ");
  }

  /** Text without a comma that occurs around one lies on one side of it. */
  lemma OneSide(head: string, rest: string, w: string, k: int)
    requires ',' !in w && w != "" && OccursAt(head + "," + rest, w, k)
    ensures OccursAt(head, w, k) || OccursAt(rest, w, k - |head| - 1)
  {
    var s := head + "," + rest;
    forall i | k <= i < k + |w| ensures s[i] in w { assert w[i - k] == s[k..k + |w|][i - k] == s[i]; }
    assert s[|head|] == ',';
    assert k > |head| ==> s[k..k + |w|] == rest[k - |head| - 1..k - |head| - 1 + |w|];
    assert k + |w| <= |head| ==> s[k..k + |w|] == head[k..k + |w|];
  }

  lemma {:induction false} JoinFree(parts: seq<string>, w: string)
    requires parts != [] && w != "" && ',' !in w && forall i :: 0 <= i < |parts| ==> !Contains(parts[i], w)
    ensures !Contains(Join(parts, ','), w)
  {
    if |parts| > 1 {
      JoinFree(parts[1..], w);
      forall k | OccursAt(Join(parts, ','), w, k)
        ensures OccursAt(parts[0], w, k) || OccursAt(Join(parts[1..], ','), w, k - |parts[0]| - 1)
      {
        OneSide(parts[0], Join(parts[1..], ','), w, k);
      }
    }
  }

  lemma {:induction false} JoinEnds(parts: seq<string>)
    requires Tidy(parts)
    ensures Join(parts, ',') != "" && !IsSpace(Join(parts, ',')[0]) && !IsSpace(Join(parts, ',')[|Join(parts, ',')| - 1])
  {
    assert Clean(parts[0]);
    TrimParts(parts[0], "");
    if |parts| > 1 { JoinEnds(parts[1..]); }
  }

  lemma {:induction false} TrimmedTidy(parts: seq<string>)
    requires forall i :: 0 <= i < |parts| ==> Clean(parts[i])
    ensures TrimmedParts(parts) == parts
  {
    if parts != [] {
      TrimmedTidy(parts[1..]);
      assert parts == [parts[0]] + parts[1..];
    }
  }

  // ----- the results

  /** The result is always a comma list of clean segments: not empty, trimmed, and free of
      `OR`, `or`, ` Or ` and ` oR `. */
  lemma NormalizeIsTidy(input: string) returns (parts: seq<string>)
    ensures Tidy(parts) && Normalize(input) == Join(parts, ',') && Split(Normalize(input), ',') == parts
  {
    var s := Commas(Trim(input));
    parts := TrimmedParts(Split(s, ','));
    if Trim(input) == "" || parts == [] {
      parts := ["*"];
      assert Clean("*");
    } else {
      CommasFree(Trim(input));
      forall j, w | 0 <= j < |Split(s, ',')|
        ensures ',' !in Split(s, ',')[j] && (Contains(Split(s, ',')[j], w) ==> Contains(s, w))
      {
        SplitParts(s, ',', w, j);
      }
      forall i | 0 <= i < |parts| ensures Clean(parts[i]) {
        CleanParts(s, Split(s, ','), i);
      }
    }
    SplitJoin(parts, ',');
  }

  /** A list of clean segments is left as it is. */
  lemma TidyIsKept(parts: seq<string>)
    requires Tidy(parts)
    ensures Normalize(Join(parts, ',')) == Join(parts, ',')
  {
    JoinEnds(parts);
    JoinFree(parts, "OR");
    JoinFree(parts, "or");
    JoinFree(parts, " Or ");
    JoinFree(parts, " oR ");
    CommasKeep(Join(parts, ','));
    SplitJoin(parts, ',');
    TrimmedTidy(parts);
  }

  lemma NormalizeIdempotent(input: string)
    ensures Normalize(Normalize(input)) == Normalize(input)
  {
    var parts := NormalizeIsTidy(input);
    TidyIsKept(parts);
  }

  /** A single name survives exactly when it is clean; a name with `or` in it is cut. */
  lemma NameKept(name: string)
    requires ',' !in name
    ensures Normalize(name) == name <==> Clean(name)
  {
    var parts := NormalizeIsTidy(name);
    if Normalize(name) == name {
      SplitJoin([name], ',');
    }
    if Clean(name) {
      TidyIsKept([name]);
    }
  }

  lemma NameWithOrIsCut()
    ensures Normalize("orders") != "orders"
  {
    assert OccursAt("orders", "or", 0);
    NameKept("orders");
  }

  // ----- the cookie of the search page

  /** What `search_page` searches for and leaves in the pattern cookie, given the parameter
      of the request and the cookie that came with it. */
  function SearchPage(param: string, cookie: Option<string>): (r: (string, Option<string>)) {
    var given := if param == "" && cookie.Some? then cookie.value else param;
    var pattern := Normalize(given);
    (pattern, if pattern == "" || pattern == "*" then cookie else Some(pattern))
  }

  /** A typed pattern wins over the cookie, which is used only if nothing was typed; the
      cookie is replaced by the pattern searched for, unless that is everything. */
  lemma TypedPatternWins(param: string, cookie: Option<string>)
    ensures var (pattern, stored) := SearchPage(param, cookie);
            && pattern == Normalize(if param != "" then param else if cookie != None then cookie.value else "")
            && stored == (if pattern == "*" then cookie else Some(pattern))
            && (param != "" ==> pattern == SearchPage(param, None).0)
  {
    var parts := NormalizeIsTidy(if param == "" && cookie.Some? then cookie.value else param);
    JoinEnds(parts);
  }

  /** A pattern that was stored is found again by every later request without one, which
      leaves the cookie as it is. */
  lemma StoredPatternSticks(param: string, cookie: Option<string>)
    ensures var (pattern, stored) := SearchPage(param, cookie);
            pattern != "" && (pattern != "*" ==> SearchPage("", stored) == (pattern, stored))
  {
    var parts := NormalizeIsTidy(if param == "" && cookie.Some? then cookie.value else param);
    TidyIsKept(parts);
    JoinEnds(parts);
  }
}
