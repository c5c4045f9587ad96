/** The application directory at start-up (src/config/mod.rs): merging the legacy
    directory, loading or creating the key, and settling where the database lives. */
module AppFiles {
  import opened Options
  import opened LegacyMerge
  import opened Strings

  const DB := "elastic-explorer.db"
  const DATA := "data"
  const KEY := "db.key"
  const KEY_BYTES := 32

  // ----- the key file: hexadecimal text of 32 bytes

  type byte = b: nat | b < 256

  function HexDigit(d: nat): char
    requires d < 16
  {
    if d < 10 then '0' + d as char else 'a' + (d - 10) as char
  }

  function HexValue(c: char): (v: Option<nat>)
    ensures v.Some? ==> v.value < 16
  {
    if '0' <= c <= '9' then Some((c - '0') as nat)
    else if 'a' <= c <= 'f' then Some((c - 'a') as nat + 10)
    else if 'A' <= c <= 'F' then Some((c - 'A') as nat + 10)
    else None
  }

  function HexEncode(key: seq<byte>): string {
    if key == [] then ""
    else [HexDigit(key[0] / 16), HexDigit(key[0] % 16)] + HexEncode(key[1..])
  }

  function HexDecode(text: string): Option<seq<byte>> {
    if text == "" then Some([])
    else if |text| == 1 then None
    else
      var hi, lo, rest := HexValue(text[0]), HexValue(text[1]), HexDecode(text[2..]);
      if hi.None? || lo.None? || rest.None? then None
      else Some([hi.value * 16 + lo.value] + rest.value)
  }

  function ReadKey(text: string): Option<seq<byte>> {
    var key := HexDecode(Trim(text));
    if key.Some? && |key.value| == KEY_BYTES then key else None
  }

  lemma {:induction false} HexText(key: seq<byte>)
    ensures |HexEncode(key)| == 2 * |key|
    ensures forall c :: c in HexEncode(key) ==> ('0' <= c <= '9' || 'a' <= c <= 'f') && !IsSpace(c)
  {
    if key != [] { HexText(key[1..]); }
  }

  lemma {:induction false} HexRoundTrip(key: seq<byte>)
    ensures HexDecode(HexEncode(key)) == Some(key)
  {
    if key != [] {
      HexRoundTrip(key[1..]);
      var t := HexEncode(key);
      assert t[2..] == HexEncode(key[1..]) && key == [key[0]] + key[1..];
      assert HexDecode(t) == Some([(key[0] / 16) * 16 + key[0] % 16] + key[1..]);
    }
  }

  /** A key written by the application is read back unchanged. */
  lemma KeyRoundTrip(key: seq<byte>)
    requires |key| == KEY_BYTES
    ensures ReadKey(HexEncode(key)) == Some(key)
  {
    HexRoundTrip(key);
    HexText(key);
    TrimKeeps(HexEncode(key));
  }

  /** Capitals and spaces around the key do not matter: a file copied or edited by hand
      still holds it. */
  lemma EditedKeyRead(pre: string, text: string, post: string, key: seq<byte>)
    requires |key| == 32 && AllSpace(pre) && AllSpace(post) && SameHex(text, HexEncode(key))
    ensures ReadKey(pre + text + post) == Some(key) && |text| == 64
    ensures ReadKey(HexEncode(key) + "\n") == Some(key)
  {
    HexRoundTrip(key);
    HexText(key);
    SameHexDecodes(text, HexEncode(key));
    TrimKeeps(text);
    TrimKeeps(HexEncode(key));
    TrimAround(pre, text, post);
    TrimAround("", HexEncode(key), "\n");
    assert "" + HexEncode(key) + "\n" == HexEncode(key) + "\n";
  }

  predicate SameDigit(c: char, d: char) {
    c == d || ('A' <= c <= 'F' && c as int - 'A' as int == d as int - 'a' as int)
  }

  /** The same hexadecimal digits, in either case. */
  predicate SameHex(s: string, m: string) {
    |s| == |m| && forall i :: 0 <= i < |s| ==> SameDigit(s[i], m[i])
  }

  lemma DigitValues(c: char, d: char)
    requires SameDigit(c, d) && ('0' <= d <= '9' || 'a' <= d <= 'f')
    ensures HexValue(c) == HexValue(d) && !IsSpace(c)
  {
  }

  lemma {:induction false} SameHexDecodes(s: string, m: string)
    requires SameHex(s, m) && forall c :: c in m ==> ('0' <= c <= '9' || 'a' <= c <= 'f')
    ensures HexDecode(s) == HexDecode(m)
    ensures forall c :: c in s ==> !IsSpace(c)
  {
    hide SameDigit, HexValue, IsSpace;
    forall i | 0 <= i < |s| ensures HexValue(s[i]) == HexValue(m[i]) && !IsSpace(s[i]) {
      assert m[i] in m;
      DigitValues(s[i], m[i]);
    }
    if |s| > 1 {
      assert SameHex(s[2..], m[2..]) && forall c :: c in m[2..] ==> c in m;
      SameHexDecodes(s[2..], m[2..]);
    }
  }

  lemma {:induction false} HexDecodeLength(text: string)
    ensures HexDecode(text).Some? ==> 2 * |HexDecode(text).value| == |text|
  {
    if |text| > 1 { HexDecodeLength(text[2..]); }
  }

  /** A key file cut short while it was written, empty or not, is refused by every later
      start; only the whole text can be read. */
  lemma CutKeyRefused(key: seq<byte>, n: nat)
    requires |key| == 32 && n <= 64 == |HexEncode(key)|
    ensures ReadKey(HexEncode(key)[..n]).Some? <==> n == 64
  {
    var text := HexEncode(key)[..n];
    HexRoundTrip(key);
    HexText(key);
    TrimKeeps(text);
    HexDecodeLength(text);
    if n == 2 * KEY_BYTES {
      assert text == HexEncode(key);
    }
  }

  // ----- what start-up leaves behind

  /** The key a directory holds, or the one drawn at random that is created when it holds none. */
  function KeyOf(app: Entries, drawn: seq<byte>): Option<seq<byte>> {
    if KEY !in app then Some(drawn)
    else if app[KEY].File? then ReadKey(app[KEY].content)
    else None
  }

  function WithKey(app: Entries, drawn: seq<byte>): Entries {
    if KEY in app then app else app[KEY := File(HexEncode(drawn))]
  }

  predicate HasLegacyDb(app: Entries) {
    DATA in app && app[DATA].Dir? && DB in app[DATA].entries
  }

  function LiftDb(app: Entries): Entries {
    if HasLegacyDb(app) && DB !in app
    then app[DB := app[DATA].entries[DB]][DATA := Dir(app[DATA].entries - {DB})]
    else app
  }

  function DropEmptyData(app: Entries): Entries {
    if DATA in app && app[DATA] == Empty then app - {DATA} else app
  }

  function Settled(app: Entries, drawn: seq<byte>): Entries {
    DropEmptyData(LiftDb(WithKey(app, drawn)))
  }

  /** The settled directory, or the same with an empty data directory still in it because
      it could not be read. */
  predicate Settles(app: Entries, drawn: seq<byte>, t: Entries) {
    t == Settled(app, drawn) || t == LiftDb(WithKey(app, drawn))
  }

  /** `get_db_path`, relative to the application directory. */
  function DbPath(app: Entries): seq<string> {
    if DB in app then [DB]
    else if HasLegacyDb(app) then [DATA, DB]
    else [DB]
  }

  /** The database the path resolves to, if there is one. */
  function DbNode(app: Entries): Option<Node> {
    var path := DbPath(app);
    if |path| == 1 then Lookup(app, DB) else Some(app[DATA].entries[DB])
  }

  /** The two directories on disk. */
  class Disk {
    var legacy: Option<Node>
    var app: Option<Node>

    constructor (legacy: Option<Node>, app: Option<Node>)
      ensures this.legacy == legacy && this.app == app
    {
      this.legacy, this.app := legacy, app;
    }

    /** `load_or_create_key`: `Some(key)` on success.  The directory must be there, as it
        is at both call sites; `fault` tells that the environment refused an operation,
        which may leave a new key file cut short. */
    method LoadOrCreateKey(drawn: seq<byte>) returns (key: Option<seq<byte>>, fault: bool)
      requires app.Some? && app.value.Dir? && |drawn| == KEY_BYTES
      modifies `app
      ensures app.Some? && app.value.Dir?
      ensures key.Some? ==>
                key == KeyOf(old(app.value.entries), drawn)
                && app.value.entries == WithKey(old(app.value.entries), drawn)
      ensures key.None? ==> KeyCutShort(old(app.value.entries), drawn, app.value.entries)
      ensures key.None? && !fault ==> KeyOf(old(app.value.entries), drawn) == None && app == old(app)
    {
      var entries := app.value.entries;
      if KEY in entries {
        var readable: bool := *;
        if entries[KEY].Dir? { return None, false; }
        if !readable { return None, true; }
        return ReadKey(entries[KEY].content), false;
      }
      var created: bool := *;
      if !created { return None, true; }
      var text := HexEncode(drawn);
      var written: nat :| written <= |text|;
      app := Some(Dir(entries[KEY := File(text[..written])]));
      if written < |text| { return None, true; }
      assert text[..written] == text;
      var restricted: bool := *;
      if !restricted { return None, true; }
      return Some(drawn), false;
    }

    /** `init_directories`: on success the application directory is the settled overlay of
        the two directories and the key loaded is the one it holds; the legacy directory
        is gone unless the environment refused to remove or read something in it, and what
        is left of it then is already in the overlay.  A failed start loses neither the
        key nor the database that merging would have given. */
    method InitDirectories(drawn: seq<byte>) returns (key: Option<seq<byte>>, r: Outcome)
      requires |drawn| == KEY_BYTES
      modifies this
      ensures r.ok <==> key.Some?
      ensures r.ok ==>
                var merged := Merged(old(legacy), old(app));
                && merged.Dir? && app.Some? && app.value.Dir?
                && Settles(merged.entries, drawn, app.value.entries)
                && key == KeyOf(merged.entries, drawn)
                && LeftBehind(merged, legacy)
                && (!r.residue ==> legacy == None && app == Some(Dir(Settled(merged.entries, drawn))))
      ensures r.ok ==> !r.fault && Startable(old(legacy), old(app), drawn)
      ensures !r.ok && !r.fault ==> !Startable(old(legacy), old(app), drawn)
      ensures Shrunk(old(legacy), legacy)
      ensures !r.ok ==> SameKeyAndDb(Merged(old(legacy), old(app)), Merged(legacy, app))
    {
      r, key := Outcome(true, false, false), None;
      if legacy.Some? {
        PartOfItself(legacy.value);
        if legacy.value.File? {
          // the target directory may be created first; reading the source then fails
          return None, Outcome(false, false, false);
        }
        var rest, target;
        rest, target, r := MoveLegacyDir(legacy.value.entries, app);
        legacy, app := Some(Dir(rest)), target;
        if !r.ok { return; }
        OverlayNothing(target.value);
        var listed: bool := *;
        if rest == map[] && listed {
          var removed: bool := *;
          if !removed { r := Outcome(false, true, r.residue); return; }
          legacy := None;
        } else {
          r := r.(residue := true);
        }
      }
      if app.None? {
        var created: bool := *;
        if !created { r := Outcome(false, true, r.residue); return; }
        app := Some(Empty);
      }
      if app.value.File? { r := Outcome(false, false, r.residue); return; }
      key, r := Settle(drawn, r.residue);
    }

    /** The rest of `init_directories`: the key, and the database one level up. */
    method Settle(drawn: seq<byte>, left: bool) returns (key: Option<seq<byte>>, r: Outcome)
      requires app.Some? && app.value.Dir? && |drawn| == KEY_BYTES && LeftBehind(app.value, legacy)
      modifies `app
      ensures app.Some? && app.value.Dir?
      ensures r.ok <==> key.Some?
      ensures r.ok ==>
                var before := old(app.value.entries);
                && Settles(before, drawn, app.value.entries) && key == KeyOf(before, drawn)
                && (!r.residue ==> !left && app.value.entries == Settled(before, drawn))
      ensures r.ok ==> !r.fault
      ensures !r.ok && !r.fault ==> KeyOf(old(app.value.entries), drawn) == None
      ensures SameKeyAndDb(old(app.value), Merged(legacy, app))
    {
      ghost var before := app.value.entries;
      r := Outcome(false, false, left);
      var fault;
      key, fault := LoadOrCreateKey(drawn);
      var entries := app.value.entries;
      if key.None? { r := r.(fault := fault); return; }
      if HasLegacyDb(entries) && DB !in entries {
        var renamed: bool := *;
        if !renamed { key, r := None, r.(fault := true); return; }
        var database := entries[DATA].entries[DB];
        entries := entries[DB := database][DATA := Dir(entries[DATA].entries - {DB})];
        app := Some(Dir(entries));
      }
      if DATA in entries && entries[DATA] == Empty {
        var listed: bool := *;
        if !listed { r := Outcome(true, false, true); return; }
        var removed: bool := *;
        if !removed { key, r := None, r.(fault := true); return; }
        app := Some(Dir(entries - {DATA}));
      }
      r := Outcome(true, false, left);
    }
  }

  /** Creating the key file may stop after any part of its text has been written. */
  predicate KeyCutShort(before: Entries, drawn: seq<byte>, after: Entries) {
    || after == before
    || (&& KEY !in before && KEY in after && after[KEY].File?
        && after[KEY].content <= HexEncode(drawn) && after == before[KEY := after[KEY]])
  }

  /** What a start may leave in the legacy directory: nothing that is not in the merged tree. */
  predicate LeftBehind(merged: Node, legacy: Option<Node>) {
    legacy.Some? ==> legacy.value.Dir? && Overlay(merged, legacy.value) == merged
  }

  predicate Shrunk(legacy: Option<Node>, legacy': Option<Node>) {
    legacy'.Some? ==> legacy.Some? && Part(legacy'.value, legacy.value)
  }

  /** A key file and a root database that the merged tree has are still in it. */
  predicate SameKeyAndDb(merged: Node, merged': Node) {
    merged.Dir? ==> merged'.Dir? && StillHas(merged.entries, merged'.entries, KEY)
                    && StillHas(merged.entries, merged'.entries, DB)
  }

  predicate StillHas(m: Entries, m': Entries, n: string) {
    n in m ==> n in m' && m'[n] == m[n]
  }

  lemma LeftoverAt(m: Entries, rest: Entries, n: string)
    requires Overlay(Dir(m), Dir(rest)) == Dir(m)
    ensures n in rest ==> n in m && Overlay(m[n], rest[n]) == m[n]
  {
    var o := Overlay(Dir(m), Dir(rest)).entries;
    if n in rest { assert n in o; }
  }

  /** The tree the merge step leaves in the application directory. */
  function Merged(legacy: Option<Node>, app: Option<Node>): Node {
    var base := if app.Some? then app.value else Empty;
    if legacy.Some? then Over(app, legacy.value) else base
  }

  /** Nothing in the two trees themselves stands in the way of starting. */
  predicate Startable(legacy: Option<Node>, app: Option<Node>, drawn: seq<byte>) {
    && (legacy.Some? ==> legacy.value.Dir? && (app.Some? ==> Compatible(app.value, legacy.value)))
    && Merged(legacy, app).Dir?
    && KeyOf(Merged(legacy, app).entries, drawn).Some?
  }

  // ----- what a successful start means for the key and the database

  /** After a start the database path is at the root and resolves to the same database. */
  lemma SettledDb(t: Entries, drawn: seq<byte>)
    ensures DbPath(Settled(t, drawn)) == [DB]
    ensures DbNode(Settled(t, drawn)) == DbNode(t)
  {
    var w := WithKey(t, drawn);
    assert DbNode(w) == DbNode(t);
    assert DbNode(LiftDb(w)) == DbNode(w);
  }

  /** A second start, whatever key it would draw, finds nothing to do: the directory and
      the key are those of the first. */
  lemma SecondStartIdle(t: Entries, drawn: seq<byte>, drawn': seq<byte>)
    requires |drawn| == KEY_BYTES
    ensures var once := Settled(t, drawn);
            && Merged(None, Some(Dir(once))) == Dir(once)
            && Settled(once, drawn') == once
            && KeyOf(once, drawn') == KeyOf(t, drawn)
            && KEY in once
  {
    KeyRoundTrip(drawn);
    var w := WithKey(t, drawn);
    var lifted := LiftDb(w);
    assert lifted[KEY] == w[KEY];
    assert DropEmptyData(lifted)[KEY] == w[KEY];
    assert !(HasLegacyDb(lifted) && DB !in lifted);
  }

  function FirstOf(a: Option<string>, b: Option<string>): Option<string> {
    if a.Some? then a else b
  }

  /** No directory stands where a database file would. */
  predicate DbsAreFiles(t: Entries) {
    (DB in t ==> t[DB].File?) && (HasLegacyDb(t) ==> t[DATA].entries[DB].File?)
  }

  /** The text of the database a directory resolves to. */
  function DbContent(t: Entries): Option<string> {
    FirstOf(FileAt(Dir(t), [DB]), FileAt(Dir(t), [DATA, DB]))
  }

  lemma FileAtRoot(t: Entries, n: string)
    ensures FileAt(Dir(t), [n]) == if n in t && t[n].File? then Some(t[n].content) else None
  {
    if n in t { assert FileAt(Dir(t), [n]) == FileAt(t[n], [n][1..]); }
  }

  lemma DbContentIsDbNode(t: Entries)
    requires DbsAreFiles(t)
    ensures DbNode(t) == if DbContent(t).Some? then Some(File(DbContent(t).value)) else None
  {
    FileAtRoot(t, DB);
    assert [DATA, DB][1..] == [DB];
    if DATA in t {
      assert FileAt(Dir(t), [DATA, DB]) == FileAt(t[DATA], [DB]);
      if t[DATA].Dir? { FileAtRoot(t[DATA].entries, DB); }
    }
  }

  lemma MergedDbsAreFiles(legacy: Entries, app: Entries)
    requires DbsAreFiles(legacy) && DbsAreFiles(app)
    ensures DbsAreFiles(Overlay(Dir(app), Dir(legacy)).entries)
  {
    var m := Overlay(Dir(app), Dir(legacy)).entries;
    if DATA in app && DATA in legacy {
      assert m[DATA] == Overlay(app[DATA], legacy[DATA]);
      if HasLegacyDb(app) && HasLegacyDb(legacy) {
        assert m[DATA].entries[DB] == Overlay(app[DATA].entries[DB], legacy[DATA].entries[DB]);
      }
    }
  }

  /** The database in use after a start that merged `legacy` into `app`: the first of the
      four candidates, in this order.  In particular a legacy database without a rival in
      the target is the one opened, wherever in the legacy directory it was. */
  lemma DbAfterMerge(legacy: Entries, app: Entries, drawn: seq<byte>)
    requires Compatible(Dir(app), Dir(legacy)) && DbsAreFiles(legacy) && DbsAreFiles(app)
    ensures var merged := Overlay(Dir(app), Dir(legacy)).entries;
            var db := FirstOf(FirstOf(FileAt(Dir(legacy), [DB]), FileAt(Dir(app), [DB])),
                              FirstOf(FileAt(Dir(legacy), [DATA, DB]), FileAt(Dir(app), [DATA, DB])));
            DbNode(Settled(merged, drawn)) == if db.Some? then Some(File(db.value)) else None
  {
    var merged := Overlay(Dir(app), Dir(legacy));
    OverlayFiles(Dir(app), Dir(legacy), [DB]);
    OverlayFiles(Dir(app), Dir(legacy), [DATA, DB]);
    MergedDbsAreFiles(legacy, app);
    DbContentIsDbNode(merged.entries);
    SettledDb(merged.entries, drawn);
  }

  /** The key in use after such a start: the legacy one if there is one, else the one that
      was there, else the one drawn, which later starts read back. */
  lemma KeyAfterMerge(legacy: Entries, app: Entries, drawn: seq<byte>, drawn': seq<byte>)
    requires Compatible(Dir(app), Dir(legacy)) && |drawn| == KEY_BYTES
    requires (KEY in legacy ==> legacy[KEY].File?) && (KEY in app ==> app[KEY].File?)
    ensures var merged := Overlay(Dir(app), Dir(legacy)).entries;
            var file := FirstOf(FileAt(Dir(legacy), [KEY]), FileAt(Dir(app), [KEY]));
            var key := if file.Some? then ReadKey(file.value) else Some(drawn);
            KeyOf(merged, drawn) == key && KeyOf(Settled(merged, drawn), drawn') == key
  {
    var merged := Overlay(Dir(app), Dir(legacy)).entries;
    SecondStartIdle(merged, drawn, drawn');
    FileAtRoot(legacy, KEY);
    FileAtRoot(app, KEY);
    if KEY in app && KEY in legacy { assert merged[KEY] == Overlay(app[KEY], legacy[KEY]); }
  }
}
