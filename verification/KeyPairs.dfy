/** Whether the database and the key in use after merging a legacy directory belong
    together (src/config/mod.rs). */
module KeyPairs {
  import opened Options
  import opened LegacyMerge
  import opened AppFiles

  /** The same tree with every file replaced by a mark that tells where it came from. */
  function Marked(t: Node, mark: string): Node
    decreases t
  {
    match t
    case File(_) => File(mark)
    case Dir(entries) => Dir(map n | n in entries :: Marked(entries[n], mark))
  }

  lemma {:induction false} MarkedCompatible(d: Node, s: Node, a: string, b: string)
    requires Compatible(d, s)
    ensures Compatible(Marked(d, a), Marked(s, b))
    decreases s
  {
    if d.Dir? && s.Dir? {
      forall n | n in s.entries && n in d.entries ensures Compatible(Marked(d, a).entries[n], Marked(s, b).entries[n]) {
        MarkedCompatible(d.entries[n], s.entries[n], a, b);
      }
    } else if d.File? {
      assert s == Empty ==> Marked(s, b) == Empty by { if s == Empty { assert Marked(s, b).entries == map[]; } }
    }
  }

  lemma {:induction false} MarkedFiles(t: Node, mark: string, path: seq<string>)
    ensures FileAt(Marked(t, mark), path) == if FileAt(t, path).Some? then Some(mark) else None
    decreases path
  {
    if t.Dir? && path != [] && path[0] in t.entries { MarkedFiles(t.entries[path[0]], mark, path[1..]); }
  }

  const MINE := Some("app")
  const THEIRS := Some("legacy")

  /** Where the database and the key file in use come from after `legacy` was merged into
      `app`: the directory whose mark they bear, if there is such a file in either. */
  function Origins(legacy: Entries, app: Entries, drawn: seq<byte>): (Option<Node>, Option<Node>) {
    var m := Overlay(Marked(Dir(app), MINE.value), Marked(Dir(legacy), THEIRS.value)).entries;
    (DbNode(Settled(m, drawn)), Lookup(m, KEY))
  }

  /** A database in use comes with its own directory's key: both from one directory, or a
      key newly drawn because neither directory had one. */
  predicate OnePair(legacy: Entries, app: Entries, drawn: seq<byte>) {
    var (database, key) := Origins(legacy, app, drawn);
    database.None? || key == database || key.None?
  }

  predicate HasFile(t: Entries, path: seq<string>) {
    FileAt(Dir(t), path).Some?
  }

  /** Whether the legacy directory's database is the one in use. */
  predicate LegacyDbWins(legacy: Entries, app: Entries) {
    HasFile(legacy, [DB]) || (!HasFile(app, [DB]) && HasFile(legacy, [DATA, DB]))
  }

  /** The condition on the two key files and the four database paths. */
  predicate PairFits(legacy: Entries, app: Entries) {
    if LegacyDbWins(legacy, app) then HasFile(legacy, [KEY]) || !HasFile(app, [KEY])
    else HasFile(app, [DB]) || HasFile(app, [DATA, DB]) ==> !HasFile(legacy, [KEY])
  }

  ghost predicate Mergeable(legacy: Entries, app: Entries) {
    && Compatible(Dir(app), Dir(legacy)) && DbsAreFiles(legacy) && DbsAreFiles(app)
    && (KEY in legacy ==> legacy[KEY].File?) && (KEY in app ==> app[KEY].File?)
  }

  lemma MarkedDbs(t: Entries, mark: string)
    requires DbsAreFiles(t)
    ensures DbsAreFiles(Marked(Dir(t), mark).entries)
  {
    var m := Marked(Dir(t), mark).entries;
    if DATA in t {
      assert m[DATA] == Marked(t[DATA], mark);
      if HasLegacyDb(t) { assert m[DATA].entries[DB] == Marked(t[DATA].entries[DB], mark); }
    }
  }

  lemma DbOrigin(legacy: Entries, app: Entries, drawn: seq<byte>)
    requires Mergeable(legacy, app)
    ensures Origins(legacy, app, drawn).0 ==
            if LegacyDbWins(legacy, app) then Some(File(THEIRS.value))
            else if HasFile(app, [DB]) || HasFile(app, [DATA, DB]) then Some(File(MINE.value)) else None
  {
    var l, a := Marked(Dir(legacy), THEIRS.value), Marked(Dir(app), MINE.value);
    MarkedCompatible(Dir(app), Dir(legacy), MINE.value, THEIRS.value);
    MarkedDbs(legacy, THEIRS.value);
    MarkedDbs(app, MINE.value);
    DbAfterMerge(l.entries, a.entries, drawn);
    MarkedFiles(Dir(legacy), THEIRS.value, [DB]);
    MarkedFiles(Dir(legacy), THEIRS.value, [DATA, DB]);
    MarkedFiles(Dir(app), MINE.value, [DB]);
    MarkedFiles(Dir(app), MINE.value, [DATA, DB]);
  }

  lemma KeyOrigin(legacy: Entries, app: Entries, drawn: seq<byte>)
    requires Mergeable(legacy, app)
    ensures Origins(legacy, app, drawn).1 ==
            if HasFile(legacy, [KEY]) then Some(File(THEIRS.value))
            else if HasFile(app, [KEY]) then Some(File(MINE.value)) else None
  {
    var l, a := Marked(Dir(legacy), THEIRS.value).entries, Marked(Dir(app), MINE.value).entries;
    FileAtRoot(legacy, KEY);
    FileAtRoot(app, KEY);
    assert KEY in l ==> l[KEY] == Marked(legacy[KEY], THEIRS.value);
    assert KEY in a ==> a[KEY] == Marked(app[KEY], MINE.value);
    assert Lookup(Overlay(Dir(a), Dir(l)).entries, KEY) == OverlayAt(a, l, KEY);
  }

  /** Exactly when the database and the key in use after merging belong together: the
      legacy database needs the legacy key beside it, unless there is no key at all, and
      the application's own database needs the legacy directory to have no key. */
  lemma PairFromOneDirectory(legacy: Entries, app: Entries, drawn: seq<byte>)
    requires Mergeable(legacy, app)
    ensures OnePair(legacy, app, drawn) <==> PairFits(legacy, app)
  {
    DbOrigin(legacy, app, drawn);
    KeyOrigin(legacy, app, drawn);
  }

  /** Where they do, database and key are, content for content, what that directory alone
      would have given. */
  lemma PairKept(legacy: Entries, app: Entries, drawn: seq<byte>)
    requires Mergeable(legacy, app) && |drawn| == KEY_BYTES && PairFits(legacy, app)
    ensures var merged := Overlay(Dir(app), Dir(legacy)).entries;
            var database := DbNode(Settled(merged, drawn));
            var own := if LegacyDbWins(legacy, app) then legacy else app;
            database.Some? ==> database == DbNode(own) && KeyOf(merged, drawn) == KeyOf(own, drawn)
  {
    DbAfterMerge(legacy, app, drawn);
    KeyAfterMerge(legacy, app, drawn, drawn);
    DbContentIsDbNode(legacy);
    DbContentIsDbNode(app);
    FileAtRoot(legacy, KEY);
    FileAtRoot(app, KEY);
  }

  /** The two rules can part company: a legacy key replaces the key of a directory whose
      own database stays in use, so what that database holds under its own key is lost. */
  lemma LegacyKeyReplacesKey(mine: seq<byte>, theirs: seq<byte>, drawn: seq<byte>)
    requires |mine| == |theirs| == KEY_BYTES && mine != theirs
    ensures var app := map[KEY := File(HexEncode(mine)), DB := File("sealed under mine")];
            var legacy := map[KEY := File(HexEncode(theirs))];
            var merged := Overlay(Dir(app), Dir(legacy)).entries;
            && DbNode(Settled(merged, drawn)) == Some(app[DB])
            && KeyOf(app, drawn) == Some(mine) && KeyOf(merged, drawn) == Some(theirs)
  {
    KeyRoundTrip(mine);
    KeyRoundTrip(theirs);
    var app := map[KEY := File(HexEncode(mine)), DB := File("sealed under mine")];
    var legacy := map[KEY := File(HexEncode(theirs))];
    SettledDb(Overlay(Dir(app), Dir(legacy)).entries, drawn);
  }

  /** The mirror image: a legacy database that arrives without a key meets the key that
      was there, under which its passwords cannot be opened. */
  lemma LegacyDbMeetsForeignKey(mine: seq<byte>, content: string, drawn: seq<byte>)
    requires |mine| == KEY_BYTES
    ensures var app := map[KEY := File(HexEncode(mine))];
            var legacy := map[DB := File(content)];
            var merged := Overlay(Dir(app), Dir(legacy)).entries;
            && DbNode(Settled(merged, drawn)) == Some(legacy[DB])
            && KeyOf(legacy, drawn) == Some(drawn) && KeyOf(merged, drawn) == Some(mine)
  {
    KeyRoundTrip(mine);
    KeyMeetsDb(HexEncode(mine), content, drawn);
  }

  lemma KeyMeetsDb(keyFile: string, content: string, drawn: seq<byte>)
    ensures var merged := Overlay(Dir(map[KEY := File(keyFile)]), Dir(map[DB := File(content)])).entries;
            DbNode(Settled(merged, drawn)) == Some(File(content)) && KeyOf(merged, drawn) == ReadKey(keyFile)
  {
    var merged := Overlay(Dir(map[KEY := File(keyFile)]), Dir(map[DB := File(content)])).entries;
    assert merged == map[KEY := File(keyFile), DB := File(content)];
    SettledDb(merged, drawn);
  }
}
