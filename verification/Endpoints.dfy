/** Stored endpoints and their passwords, across restarts (src/db/mod.rs,
    src/handlers/endpoints.rs, migrations 001 and 004). */
module Endpoints {
  import opened Options
  import opened LegacyMerge
  import opened AppFiles
  import opened Restarts

  const NONCE_BYTES := 12

  type Secret = seq<byte>

  /** The libraries the passwords pass through, as functions. */
  datatype Crypto = Crypto(
    seal: (Secret, seq<byte>, seq<byte>) -> seq<byte>,
    unseal: (Secret, seq<byte>, seq<byte>) -> Option<seq<byte>>,
    toBase64: seq<byte> -> string,
    fromBase64: string -> Option<seq<byte>>,
    toUtf8: string -> seq<byte>,
    fromUtf8: seq<byte> -> Option<string>)
  {
    /** All that is assumed of them: decoding undoes encoding. */
    ghost predicate Lawful() {
      && (forall k, n, p :: unseal(k, n, seal(k, n, p)) == Some(p))
      && (forall b :: fromBase64(toBase64(b)) == Some(b))
      && (forall s :: fromUtf8(toUtf8(s)) == Some(s))
    }

    function Encrypt(key: Secret, nonce: seq<byte>, password: string): string {
      toBase64(nonce + seal(key, nonce, toUtf8(password)))
    }

    function Decrypt(key: Secret, text: string): Option<string> {
      var payload := fromBase64(text);
      if payload.None? || |payload.value| < NONCE_BYTES then None
      else
        var plain := unseal(key, payload.value[..NONCE_BYTES], payload.value[NONCE_BYTES..]);
        if plain.None? then None else fromUtf8(plain.value)
    }

    /** The framing is lossless: the nonce is found again in front of the ciphertext. */
    lemma DecryptEncrypt(key: Secret, nonce: seq<byte>, password: string)
      requires Lawful() && |nonce| == 12
      ensures Decrypt(key, Encrypt(key, nonce, password)) == Some(password)
    {
      var ciphertext := seal(key, nonce, toUtf8(password));
      assert (nonce + ciphertext)[..NONCE_BYTES] == nonce && (nonce + ciphertext)[NONCE_BYTES..] == ciphertext;
    }
  }

  datatype Endpoint = Endpoint(name: string, url: string, insecure: bool, username: Option<string>,
                               passwordEncrypted: Option<string>)

  /** The create and update forms; a checkbox is present or absent. */
  datatype Form = Form(name: string, url: string, insecure: Option<string>, username: Option<string>,
                       password: Option<string>)

  /** A blank field of a form counts as not given. */
  function Given(field: Option<string>): Option<string> {
    if field == Some("") then None else field
  }

  function Filled(form: Form, passwordEncrypted: Option<string>): Endpoint {
    Endpoint(form.name, form.url, form.insecure.Some?, Given(form.username), passwordEncrypted)
  }

  /** A row shows what the form said: a ticked box, and no user name for a blank one. */
  predicate Shows(e: Endpoint, form: Form) {
    && e.name == form.name && e.url == form.url && (e.insecure <==> form.insecure != None)
    && (form.username == None || form.username == Some("") ==> e.username == None)
    && (form.username != None && form.username != Some("") ==> e.username == form.username)
  }

  // ----- the schema

  datatype Column =
    | Id | Name | Url | Insecure | Username | CreatedAt | UpdatedAt
    | PasswordEncrypted
    | PasswordKeychainId | PasswordFallback

  const STANDARD := [Id, Name, Url, Insecure, Username, PasswordEncrypted, CreatedAt, UpdatedAt]

  predicate Legacy(columns: seq<Column>) {
    PasswordKeychainId in columns || PasswordFallback in columns
  }

  /** Migration 004 copies every column but the password. */
  predicate Copyable(columns: seq<Column>) {
    && Id in columns && Name in columns && Url in columns && Insecure in columns
    && Username in columns && CreatedAt in columns && UpdatedAt in columns
  }

  /** Whether migration 004, which clears every password, is due. */
  predicate Due(columns: seq<Column>) {
    Legacy(columns) || PasswordEncrypted !in columns
  }

  /** The table of endpoints (no columns: it does not exist yet) with its AUTOINCREMENT
      counter. */
  datatype Tables = Tables(columns: seq<Column>, endpoints: map<nat, Endpoint>, lastId: nat)

  const NO_TABLES := Tables([], map[], 0)

  ghost predicate Below(ids: set<nat>, n: nat) {
    forall id :: id in ids ==> id <= n
  }

  ghost predicate Sane(t: Tables) {
    Below(t.endpoints.Keys, t.lastId) && (t.columns == [] ==> t == NO_TABLES)
  }

  /** The database library: what a file holds, and a file that holds given tables. */
  datatype Sqlite = Sqlite(load: string -> Option<Tables>, dump: Tables -> string)
  {
    /** All that is assumed of it: what was committed is found again, and ids lie below the
        counter. */
    ghost predicate Lawful() {
      && (forall t :: Sane(t) ==> load(dump(t)) == Some(t))
      && (forall file :: load(file).Some? ==> Sane(load(file).value))
    }

    /** Opening a database, which is created if there is no file. */
    function Open(node: Option<Node>): Option<Tables> {
      match node
      case None => Some(NO_TABLES)
      case Some(File(content)) => load(content)
      case Some(Dir(_)) => None
    }
  }

  /** The installation: its two directories, with the process that runs on them, or the
      last one that did: the tables it sees and the key it holds. */
  datatype Store = Store(legacy: Option<Node>, app: Option<Node>, running: bool, tables: Tables, key: Secret)

  function Cleared(endpoints: map<nat, Endpoint>): map<nat, Endpoint> {
    map id | id in endpoints :: endpoints[id].(passwordEncrypted := None)
  }

  /** `get_endpoint_password`. */
  function ReadPassword(c: Crypto, key: Secret, endpoints: map<nat, Endpoint>, id: nat): Option<string> {
    if id in endpoints && endpoints[id].passwordEncrypted.Some?
    then c.Decrypt(key, endpoints[id].passwordEncrypted.value)
    else None
  }

  // ----- what each operation does to the store

  datatype Event =
    | Create(form: Form, nonce: seq<byte>)
    | Update(id: nat, form: Form, nonce: seq<byte>)
    | Delete(id: nat)
    | Restart(drawn: Secret)
    | FailedStart
    | Refused

  function Encrypted(c: Crypto, key: Secret, form: Form, nonce: seq<byte>, otherwise: Option<string>): Option<string> {
    if Given(form.password).Some? then Some(c.Encrypt(key, nonce, form.password.value)) else otherwise
  }

  /** The effect of a statement on the table. */
  ghost predicate Effect(c: Crypto, key: Secret, t: Tables, e: Event, t': Tables) {
    match e
    case Create(form, nonce) =>
      |nonce| == NONCE_BYTES
      && t' == t.(endpoints := t.endpoints[t.lastId + 1 := Filled(form, Encrypted(c, key, form, nonce, None))],
                  lastId := t.lastId + 1)
    case Update(id, form, nonce) =>
      |nonce| == NONCE_BYTES
      && t' == if id !in t.endpoints then t
               else t.(endpoints := t.endpoints[id :=
                      Filled(form, Encrypted(c, key, form, nonce, t.endpoints[id].passwordEncrypted))])
    case Delete(id) => t' == t.(endpoints := t.endpoints - {id})
    case _ => false
  }

  predicate InUse(s: Store) {
    s.running && s.app.Some? && s.app.value.Dir?
  }

  /** Committing writes the database file and nothing else. */
  function Committed(q: Sqlite, s: Store, t: Tables): Store
    requires InUse(s)
  {
    s.(tables := t, app := Some(Dir(s.app.value.entries[DB := File(q.dump(t))])))
  }

  predicate IsLargest(n: nat, ids: set<nat>) {
    (forall id :: id in ids ==> id <= n) && (n > 0 ==> n in ids)
  }

  /** Migration 001 creates the table; 004, when it is due, rebuilds it without passwords
      and leaves the counter at the largest id copied. */
  ghost predicate MigratedTo(t: Tables, t': Tables) {
    if t.columns == [] then t' == t.(columns := STANDARD)
    else if Due(t.columns) then
      && Copyable(t.columns) && IsLargest(t'.lastId, t.endpoints.Keys)
      && t' == Tables(STANDARD, Cleared(t.endpoints), t'.lastId)
    else t' == t
  }

  /** The database of a settled directory has been opened and migrated. */
  ghost predicate Opened(q: Sqlite, t: Entries, tables: Tables, after: Entries) {
    var found := q.Open(DbNode(t));
    found.Some? && MigratedTo(found.value, tables) && after == t[DB := File(q.dump(tables))]
  }

  /** A start that succeeds: the directories are merged and settled, the key found there or
      made is the one used, the database opened is the one the path resolves to, and the
      migrations have run on it. */
  ghost predicate Started(q: Sqlite, s: Store, drawn: Secret, s': Store) {
    var merged := Merged(s.legacy, s.app);
    && Startable(s.legacy, s.app, drawn) && Shrunk(s.legacy, s'.legacy) && LeftBehind(merged, s'.legacy)
    && s'.running && KeyOf(merged.entries, drawn) == Some(s'.key)
    && InUse(s')
    && exists t :: Settles(merged.entries, drawn, t) && Opened(q, t, s'.tables, s'.app.value.entries)
  }

  /** A start that fails, wherever it stops, leaves nothing running; a key file and a root
      database that the merged tree had are still in it, the latter perhaps migrated. */
  ghost predicate StartFailed(q: Sqlite, s: Store, s': Store) {
    var m, m' := Merged(s.legacy, s.app), Merged(s'.legacy, s'.app);
    && s' == s.(legacy := s'.legacy, app := s'.app, running := false) && Shrunk(s.legacy, s'.legacy)
    && (m.Dir? ==>
          && m'.Dir? && StillHas(m.entries, m'.entries, KEY)
          && (StillHas(m.entries, m'.entries, DB) || MigratedInPlace(q, Lookup(m.entries, DB), Lookup(m'.entries, DB))))
  }

  ghost predicate MigratedInPlace(q: Sqlite, before: Option<Node>, after: Option<Node>) {
    q.Open(before).Some? &&
    exists t :: MigratedTo(q.Open(before).value, t) && after == Some(File(q.dump(t)))
  }

  ghost predicate Step(c: Crypto, q: Sqlite, s: Store, e: Event, s': Store) {
    match e
    case Restart(drawn) => |drawn| == KEY_BYTES && Started(q, s, drawn, s')
    case FailedStart => StartFailed(q, s, s')
    case Refused => s' == s
    case _ => InUse(s) && Effect(c, s.key, s.tables, e, s'.tables) && s' == Committed(q, s, s'.tables)
  }

  lemma SettlesOpens(m: Entries, drawn: Secret, t: Entries, again: Secret)
    requires |drawn| == KEY_BYTES && Settles(m, drawn, t)
    ensures KEY in t && KeyOf(t, again) == KeyOf(m, drawn) && DbNode(t) == DbNode(m)
    ensures DB in m ==> DB in t && t[DB] == m[DB]
    ensures KEY in m ==> t[KEY] == m[KEY]
  {
    OverlayNothing(Dir(m));
    OverlayNothing(Dir(t));
    SecondStartAtOnce(m, map[], drawn, t, again);
    KeySettles(m, map[], drawn, again, t, t);
    OthersSettle(m, map[], drawn, again, t, t, KEY);
    SettledDb(m, drawn);
  }

  lemma OpeningFails(q: Sqlite, m: Entries, legacy: Option<Node>, drawn: Secret, t: Entries, after: Entries)
    requires |drawn| == KEY_BYTES && Settles(m, drawn, t) && LeftBehind(Dir(m), legacy)
    requires after == t || exists tables :: Opened(q, t, tables, after)
    ensures var m' := Merged(legacy, Some(Dir(after)));
            && m'.Dir? && StillHas(m, m'.entries, KEY)
            && (StillHas(m, m'.entries, DB) || MigratedInPlace(q, Lookup(m, DB), Lookup(m'.entries, DB)))
  {
    SettlesOpens(m, drawn, t, drawn);
    OverlayNothing(Dir(m));
    OverlayNothing(Dir(after));
    var rest := if legacy.Some? then legacy.value.entries else map[];
    LeftoverAt(m, rest, KEY);
    LeftoverAt(m, rest, DB);
    var m' := Merged(legacy, Some(Dir(after))).entries;
    assert Lookup(m', KEY) == OverlayAt(after, rest, KEY);
    assert Lookup(m', DB) == OverlayAt(after, rest, DB);
    if DB in m && after != t {
      var tables :| Opened(q, t, tables, after);
      assert DbNode(t) == Some(m[DB]);
      assert MigratedTo(q.Open(Some(m[DB])).value, tables);
      assert m'[DB] in {m[DB], File(q.dump(tables))};
    }
  }

  // ----- the application

  class Application {
    const crypto: Crypto
    const sqlite: Sqlite
    const disk: Disk
    var running: bool
    var tables: Tables
    var key: Secret

    constructor (crypto: Crypto, sqlite: Sqlite, disk: Disk)
      ensures this.crypto == crypto && this.sqlite == sqlite && this.disk == disk && !running
    {
      this.crypto, this.sqlite, this.disk := crypto, sqlite, disk;
      running, tables, key := false, NO_TABLES, [];
    }

    ghost function Stored(): Store
      reads this, disk
    {
      Store(disk.legacy, disk.app, running, tables, key)
    }

    /** The start of the program: the directories, then the database. */
    method Start(drawn: Secret, again: Secret) returns (ok: bool)
      requires |drawn| == |again| == KEY_BYTES
      modifies this, disk
      ensures ok ==> Started(sqlite, old(Stored()), drawn, Stored())
      ensures !ok ==> StartFailed(sqlite, old(Stored()), Stored())
    {
      running := false;
      var made, outcome := disk.InitDirectories(drawn);
      if !outcome.ok { return false; }
      ghost var merged, t := Merged(old(disk.legacy), old(disk.app)).entries, disk.app.value.entries;
      SettlesOpens(merged, drawn, t, again);
      ok := OpenDatabase(again);
      if !ok { OpeningFails(sqlite, merged, disk.legacy, drawn, t, disk.app.value.entries); }
    }

    /** `Database::new`: the migrations on the database the path resolves to, then the key
        once more, for which another one would be drawn if it were missing. */
    method OpenDatabase(again: Secret) returns (ok: bool)
      requires disk.app.Some? && disk.app.value.Dir? && |again| == KEY_BYTES && KEY in disk.app.value.entries
      modifies `running, `tables, `key, disk`app
      ensures disk.app.Some? && disk.app.value.Dir?
      ensures ok ==> running && Opened(sqlite, old(disk.app.value.entries), tables, disk.app.value.entries)
                     && KeyOf(old(disk.app.value.entries), again) == Some(key)
      ensures !ok ==> running == old(running) && tables == old(tables) && key == old(key)
      ensures !ok ==> disk.app == old(disk.app)
                      || exists t :: Opened(sqlite, old(disk.app.value.entries), t, disk.app.value.entries)
    {
      ghost var before := disk.app.value.entries;
      var found := sqlite.Open(DbNode(disk.app.value.entries));
      if found.None? { return false; }
      var migrated;
      ok, migrated := RunMigrations(found.value);
      if !ok { return; }
      disk.app := Some(Dir(disk.app.value.entries[DB := File(sqlite.dump(migrated))]));
      assert Opened(sqlite, before, migrated, disk.app.value.entries);
      var loaded, fault := disk.LoadOrCreateKey(again);
      if loaded.None? { return false; }
      running, tables, key := true, migrated, loaded.value;
    }

    method CreateEndpoint(form: Form, nonce: seq<byte>) returns (id: nat)
      requires InUse(Stored()) && |nonce| == NONCE_BYTES
      modifies `tables, disk`app
      ensures Step(crypto, sqlite, old(Stored()), Create(form, nonce), Stored())
      ensures id == tables.lastId && id in tables.endpoints && Shows(tables.endpoints[id], form)
    {
      id := tables.lastId + 1;
      var rows := tables.endpoints[id := Filled(form, None)];
      if Given(form.password).Some? {
        rows := rows[id := rows[id].(passwordEncrypted := Some(crypto.Encrypt(key, nonce, form.password.value)))];
      }
      Commit(tables.(endpoints := rows, lastId := id));
    }

    method UpdateEndpoint(id: nat, form: Form, nonce: seq<byte>)
      requires InUse(Stored()) && |nonce| == NONCE_BYTES
      modifies `tables, disk`app
      ensures Step(crypto, sqlite, old(Stored()), Update(id, form, nonce), Stored())
      ensures tables.endpoints.Keys == old(tables.endpoints.Keys)
      ensures id in tables.endpoints ==> Shows(tables.endpoints[id], form)
    {
      var rows := tables.endpoints;
      if id in rows {
        rows := rows[id := Filled(form, rows[id].passwordEncrypted)];
        if Given(form.password).Some? {
          rows := rows[id := rows[id].(passwordEncrypted := Some(crypto.Encrypt(key, nonce, form.password.value)))];
        }
      }
      Commit(tables.(endpoints := rows));
    }

    method DeleteEndpoint(id: nat)
      requires InUse(Stored())
      modifies `tables, disk`app
      ensures Step(crypto, sqlite, old(Stored()), Delete(id), Stored())
    {
      Commit(tables.(endpoints := tables.endpoints - {id}));
    }

    method Commit(t: Tables)
      requires InUse(Stored())
      modifies `tables, disk`app
      ensures Stored() == Committed(sqlite, old(Stored()), t)
    {
      tables := t;
      disk.app := Some(Dir(disk.app.value.entries[DB := File(sqlite.dump(t))]));
    }
  }

  /** The sequence counter of a table filled with explicit ids. */
  method LargestId(ids: set<nat>) returns (n: nat)
    ensures IsLargest(n, ids)
  {
    n := 0;
    var pending := ids;
    while pending != {}
      invariant pending <= ids
      invariant forall id :: id in ids ==> id in pending || id <= n
      invariant n > 0 ==> n in ids
    {
      var id: nat :| id in pending;
      if id > n { n := id; }
      pending := pending - {id};
    }
  }

  /** The loop over `PRAGMA table_info`. */
  method InspectColumns(columns: seq<Column>) returns (hasLegacyColumns: bool, hasEncryptedColumn: bool)
    ensures hasLegacyColumns <==> Legacy(columns)
    ensures hasEncryptedColumn <==> PasswordEncrypted in columns
  {
    hasLegacyColumns, hasEncryptedColumn := false, false;
    var i := 0;
    while i < |columns|
      invariant 0 <= i <= |columns|
      invariant hasLegacyColumns <==> Legacy(columns[..i])
      invariant hasEncryptedColumn <==> PasswordEncrypted in columns[..i]
    {
      var name := columns[i];
      assert columns[..i + 1] == columns[..i] + [name];
      if name == PasswordKeychainId || name == PasswordFallback { hasLegacyColumns := true; }
      if name == PasswordEncrypted { hasEncryptedColumn := true; }
      i := i + 1;
    }
    assert columns[..i] == columns;
  }

  lemma StandardIsCurrent()
    ensures !Due(STANDARD)
    ensures forall c: Column :: c in STANDARD <==> c != PasswordKeychainId && c != PasswordFallback
  {
  }

  /** A table that is there and that migration 004 rebuilds. */
  predicate Outdated(t: Tables) {
    t.columns != [] && Due(t.columns)
  }

  /** Row by row what becomes of the endpoints: name, address, checkbox and user name stay,
      and the password does unless migration 004 runs. */
  ghost predicate Carried(before: Tables, after: Tables) {
    && after.endpoints.Keys == before.endpoints.Keys
    && (forall id :: id in before.endpoints ==>
          && after.endpoints[id].name == before.endpoints[id].name
          && after.endpoints[id].url == before.endpoints[id].url
          && after.endpoints[id].insecure == before.endpoints[id].insecure
          && after.endpoints[id].username == before.endpoints[id].username
          && after.endpoints[id].passwordEncrypted
             == if Outdated(before) then None else before.endpoints[id].passwordEncrypted)
    && (before.columns == [] || Outdated(before) ==>
          forall c: Column :: c in after.columns <==> c != PasswordKeychainId && c != PasswordFallback)
    && (before.columns != [] && !Outdated(before) ==> after == before)
  }

  lemma MigratedCarries(t: Tables, t': Tables)
    requires MigratedTo(t, t')
    ensures Carried(t, t')
  {
    StandardIsCurrent();
  }

  /** Migration 001, and 004 behind its guard. */
  method RunMigrations(before: Tables) returns (ok: bool, after: Tables)
    ensures ok ==> MigratedTo(before, after) && Carried(before, after)
    ensures !ok <==> Outdated(before) && exists c ::
              c in [Id, Name, Url, Insecure, Username, CreatedAt, UpdatedAt] && c !in before.columns
  {
    after := before;
    if after.columns == [] { after := after.(columns := STANDARD); }
    StandardIsCurrent();
    var hasLegacyColumns, hasEncryptedColumn := InspectColumns(after.columns);
    if hasLegacyColumns || !hasEncryptedColumn {
      if !Copyable(after.columns) { return false, before; }
      var lastId := LargestId(after.endpoints.Keys);
      after := Tables(STANDARD, Cleared(after.endpoints), lastId);
    }
    MigratedCarries(before, after);
    return true, after;
  }

  // ----- passwords over whole runs

  /** What a start establishes, and what later events keep, whether the program is running
      or not: merging what is left would give this key and, as the database, these tables;
      the schema is current and ids lie below the counter. */
  ghost predicate Ready(q: Sqlite, s: Store) {
    var merged := Merged(s.legacy, s.app);
    && s.tables.columns != [] && !Due(s.tables.columns) && Sane(s.tables)
    && merged.Dir? && KEY in merged.entries && KeyOf(merged.entries, []) == Some(s.key)
    && DB in merged.entries && merged.entries[DB] == File(q.dump(s.tables))
    && !DatabaseLeft(s.legacy) && (s.running ==> InUse(s))
  }

  /** A database file is still at the root of the legacy directory. */
  predicate DatabaseLeft(legacy: Option<Node>) {
    legacy.Some? && legacy.value.Dir? && DB in legacy.value.entries && legacy.value.entries[DB].File?
  }

  /** What a start keeps of an older installation: its endpoints field by field, and the
      passwords, as far as the key opens them, unless migration 004 runs. */
  lemma FirstStart(c: Crypto, q: Sqlite, s: Store, drawn: Secret, s': Store, id: nat)
    requires Started(q, s, drawn, s')
    ensures var merged := Merged(s.legacy, s.app).entries;
            var found := q.Open(DbNode(merged)).value;
            && Carried(found, s'.tables) && KeyOf(merged, drawn) == Some(s'.key)
            && ReadPassword(c, s'.key, s'.tables.endpoints, id) ==
               if Outdated(found) then None else ReadPassword(c, s'.key, found.endpoints, id)
  {
    var merged := Merged(s.legacy, s.app).entries;
    var t :| Settles(merged, drawn, t) && Opened(q, t, s'.tables, s'.app.value.entries);
    MigratedCarries(q.Open(DbNode(t)).value, s'.tables);
    SettledDb(merged, drawn);
    assert DbNode(LiftDb(WithKey(merged, drawn))) == DbNode(merged) by {
      assert DbNode(WithKey(merged, drawn)) == DbNode(merged);
    }
  }

  /** Names of the merged tree after a start that left `legacy` behind. */
  lemma StartedLeaves(q: Sqlite, s: Store, drawn: Secret, s': Store) returns (t: Entries)
    requires |drawn| == KEY_BYTES && Started(q, s, drawn, s')
    ensures var m := Merged(s.legacy, s.app).entries;
            && Settles(m, drawn, t) && Opened(q, t, s'.tables, s'.app.value.entries) && DbNode(t) == DbNode(m)
            && Merged(s'.legacy, s'.app).Dir?
            && KEY in Merged(s'.legacy, s'.app).entries && KeyOf(Merged(s'.legacy, s'.app).entries, []) == Some(s'.key)
            && Lookup(Merged(s'.legacy, s'.app).entries, DB) == OverlayAt(s'.app.value.entries, Leftover(s'.legacy), DB)
  {
    var m := Merged(s.legacy, s.app).entries;
    t :| Settles(m, drawn, t) && Opened(q, t, s'.tables, s'.app.value.entries);
    SettlesOpens(m, drawn, t, drawn);
    LeftoverMerges(m, s'.legacy, s'.app.value.entries);
    KeySettles(m, Leftover(s'.legacy), drawn, [], t, s'.app.value.entries);
  }

  function Leftover(legacy: Option<Node>): Entries {
    if legacy.Some? && legacy.value.Dir? then legacy.value.entries else map[]
  }

  lemma LeftoverMerges(m: Entries, legacy: Option<Node>, u: Entries)
    requires LeftBehind(Dir(m), legacy)
    ensures Merged(legacy, Some(Dir(u))) == Overlay(Dir(u), Dir(Leftover(legacy)))
    ensures Overlay(Dir(m), Dir(Leftover(legacy))) == Dir(m)
  {
    OverlayNothing(Dir(m));
    OverlayNothing(Dir(u));
  }

  lemma MigratedIsCurrent(t: Tables, t': Tables)
    requires Sane(t) && MigratedTo(t, t')
    ensures Sane(t') && t'.columns != [] && !Due(t'.columns)
  {
  }

  /** A start makes the store ready, unless it leaves a legacy database behind. */
  lemma StartIsReady(q: Sqlite, s: Store, drawn: Secret, s': Store)
    requires q.Lawful() && |drawn| == KEY_BYTES && Started(q, s, drawn, s') && !DatabaseLeft(s'.legacy)
    ensures Ready(q, s')
  {
    var m := Merged(s.legacy, s.app).entries;
    var t := StartedLeaves(q, s, drawn, s');
    MigratedIsCurrent(q.Open(DbNode(t)).value, s'.tables);
    LeftoverMerges(m, s'.legacy, m);
    LeftoverAt(m, Leftover(s'.legacy), DB);
  }

  lemma ShrunkKeeps(legacy: Option<Node>, legacy': Option<Node>)
    requires Shrunk(legacy, legacy') && !DatabaseLeft(legacy)
    ensures !DatabaseLeft(legacy')
  {
    if DatabaseLeft(legacy') { assert Part(legacy'.value.entries[DB], legacy.value.entries[DB]); }
  }

  /** A later start, whatever key it would have drawn, finds the tables and the key that
      were there: migration 004 does not clear again. */
  lemma LaterStart(q: Sqlite, s: Store, drawn: Secret, s': Store)
    requires q.Lawful() && |drawn| == KEY_BYTES && Ready(q, s) && Started(q, s, drawn, s')
    ensures Ready(q, s') && s'.tables == s.tables && s'.key == s.key
  {
    ShrunkKeeps(s.legacy, s'.legacy);
    StartIsReady(q, s, drawn, s');
    var t := StartedLeaves(q, s, drawn, s');
  }

  lemma StepReady(c: Crypto, q: Sqlite, s: Store, e: Event, s': Store)
    requires q.Lawful() && Ready(q, s) && Step(c, q, s, e, s')
    ensures Ready(q, s') && s'.key == s.key
    ensures e.Create? || e.Update? || e.Delete? || s'.tables == s.tables
  {
    match e
    case Restart(drawn) => LaterStart(q, s, drawn, s');
    case FailedStart => ShrunkKeeps(s.legacy, s'.legacy);
    case Refused =>
    case _ => CommitReady(c, q, s, e, s');
  }

  /** Committing to a database that nothing left over would replace. */
  lemma CommitMerges(app: Entries, rest: Entries, content: string)
    requires var m := Overlay(Dir(app), Dir(rest)).entries; DB in m && m[DB].File?
    requires !(DB in rest && rest[DB].File?)
    ensures var m' := Overlay(Dir(app[DB := File(content)]), Dir(rest)).entries;
            && DB in m' && m'[DB] == File(content)
            && Lookup(m', KEY) == Lookup(Overlay(Dir(app), Dir(rest)).entries, KEY)
  {
    var app' := app[DB := File(content)];
    var m, m' := Overlay(Dir(app), Dir(rest)).entries, Overlay(Dir(app'), Dir(rest)).entries;
    assert Lookup(m, DB) == OverlayAt(app, rest, DB);
    assert DB in rest ==> rest[DB] == Empty;
    assert Lookup(m', DB) == OverlayAt(app', rest, DB);
    assert Lookup(m', KEY) == OverlayAt(app', rest, KEY) == OverlayAt(app, rest, KEY) == Lookup(m, KEY);
  }

  lemma CommitReady(c: Crypto, q: Sqlite, s: Store, e: Event, s': Store)
    requires Ready(q, s) && InUse(s) && Effect(c, s.key, s.tables, e, s'.tables) && s' == Committed(q, s, s'.tables)
    ensures Ready(q, s')
  {
    OverlayNothing(s.app.value);
    OverlayNothing(s'.app.value);
    CommitMerges(s.app.value.entries, Leftover(s.legacy), q.dump(s'.tables));
  }

  /** The passwords a user would remember: per live endpoint, the last non-blank one. */
  datatype Memory = Memory(passwords: map<nat, Option<string>>, lastId: nat)

  function Remember(m: Memory, e: Event): Memory {
    match e
    case Create(form, _) => Memory(m.passwords[m.lastId + 1 := Given(form.password)], m.lastId + 1)
    case Update(id, form, _) =>
      if id in m.passwords && Given(form.password).Some?
      then m.(passwords := m.passwords[id := Given(form.password)]) else m
    case Delete(id) => m.(passwords := m.passwords - {id})
    case _ => m
  }

  function LastSupplied(initial: Memory, events: seq<Event>): Memory {
    if events == [] then initial
    else Remember(LastSupplied(initial, events[..|events| - 1]), events[|events| - 1])
  }

  /** What the application reads back. */
  function Readable(c: Crypto, s: Store): Memory {
    Memory(map id | id in s.tables.endpoints :: ReadPassword(c, s.key, s.tables.endpoints, id), s.tables.lastId)
  }

  ghost predicate IsRun(c: Crypto, q: Sqlite, events: seq<Event>, stores: seq<Store>) {
    && |stores| == |events| + 1
    && forall i :: 0 <= i < |events| ==> Step(c, q, stores[i], events[i], stores[i + 1])
  }

  /** In every run from `s`, after every event, what is read back for an endpoint is the
      last non-blank password supplied for it (or, if none has been, what was read at the
      beginning), and exactly the endpoints created and not deleted have one to read. */
  ghost predicate PasswordsLast(c: Crypto, q: Sqlite, s: Store) {
    forall events, stores, k: nat :: IsRun(c, q, events, stores) && stores[0] == s && k <= |events| ==>
      Readable(c, stores[k]) == LastSupplied(Readable(c, s), events[..k])
  }

  lemma {:induction false} PasswordIsLastSupplied(c: Crypto, q: Sqlite, events: seq<Event>, stores: seq<Store>, k: nat)
    requires c.Lawful() && q.Lawful() && IsRun(c, q, events, stores) && Ready(q, stores[0]) && k <= |events|
    ensures Ready(q, stores[k]) && stores[k].key == stores[0].key
    ensures Readable(c, stores[k]) == LastSupplied(Readable(c, stores[0]), events[..k])
  {
    if k > 0 {
      PasswordIsLastSupplied(c, q, events, stores, k - 1);
      assert events[..k][..k - 1] == events[..k - 1];
      StepReady(c, q, stores[k - 1], events[k - 1], stores[k]);
      PasswordStep(c, q, stores[k - 1], events[k - 1], stores[k]);
    }
  }

  lemma ReadBack(c: Crypto, key: Secret, form: Form, nonce: seq<byte>, otherwise: Option<string>)
    requires c.Lawful() && |nonce| == NONCE_BYTES
    ensures var text := Encrypted(c, key, form, nonce, otherwise);
            Given(form.password).Some? ==> text.Some? && c.Decrypt(key, text.value) == form.password
    ensures Given(form.password).None? ==> Encrypted(c, key, form, nonce, otherwise) == otherwise
  {
    if form.password.Some? { c.DecryptEncrypt(key, nonce, form.password.value); }
  }

  /** Writing one row changes what is read for its endpoint alone. */
  lemma PutReads(c: Crypto, s: Store, id: nat, row: Endpoint, lastId: nat, s': Store)
    requires s'.key == s.key && s'.tables == s.tables.(endpoints := s.tables.endpoints[id := row], lastId := lastId)
    ensures Readable(c, s') ==
            Memory(Readable(c, s).passwords[id := ReadPassword(c, s.key, s'.tables.endpoints, id)], lastId)
  {
    assert Readable(c, s').passwords ==
           Readable(c, s).passwords[id := ReadPassword(c, s.key, s'.tables.endpoints, id)];
  }

  lemma UpdateReads(c: Crypto, s: Store, id: nat, form: Form, nonce: seq<byte>, s': Store)
    requires c.Lawful() && id in s.tables.endpoints && s'.key == s.key
    requires Effect(c, s.key, s.tables, Update(id, form, nonce), s'.tables)
    ensures Readable(c, s') == Remember(Readable(c, s), Update(id, form, nonce))
  {
    var t, t' := s.tables, s'.tables;
    ReadBack(c, s.key, form, nonce, t.endpoints[id].passwordEncrypted);
    PutReads(c, s, id, t'.endpoints[id], t.lastId, s');
    var before := Readable(c, s).passwords;
    assert before[id := before[id]] == before;
  }

  /** The effect of one event on what can be read back. */
  lemma PasswordStep(c: Crypto, q: Sqlite, s: Store, e: Event, s': Store)
    requires c.Lawful() && q.Lawful() && Ready(q, s) && Step(c, q, s, e, s')
    ensures Readable(c, s') == Remember(Readable(c, s), e)
  {
    StepReady(c, q, s, e, s');
    var t, t' := s.tables, s'.tables;
    match e
    case Create(form, nonce) =>
      ReadBack(c, s.key, form, nonce, None);
      PutReads(c, s, t.lastId + 1, t'.endpoints[t.lastId + 1], t.lastId + 1, s');
    case Update(id, form, nonce) =>
      if id in t.endpoints { UpdateReads(c, s, id, form, nonce, s'); }
    case Delete(id) => assert Readable(c, s').passwords == Readable(c, s).passwords - {id};
    case _ =>
  }

  // ----- and what undoes them

  /** A leftover database file is in the merged tree and in what a start makes of it. */
  lemma LeftDatabaseOpened(q: Sqlite, s: Store, drawn: Secret, s0: Store) returns (t: Entries)
    requires |drawn| == KEY_BYTES && Started(q, s, drawn, s0) && DatabaseLeft(s0.legacy)
    ensures var m, rest := Merged(s.legacy, s.app).entries, s0.legacy.value.entries;
            && StartedOnce(m, rest, drawn, t, t) && Opened(q, t, s0.tables, s0.app.value.entries)
            && DB in t && t[DB] == rest[DB] && DbNode(t) == Some(rest[DB])
  {
    var m := Merged(s.legacy, s.app).entries;
    t :| Settles(m, drawn, t) && Opened(q, t, s0.tables, s0.app.value.entries);
    LeftoverAt(m, s0.legacy.value.entries, DB);
    SettlesOpens(m, drawn, t, drawn);
  }

  /** What a restart finds when the first start has left a database behind. */
  lemma LeftDatabaseWins(q: Sqlite, s: Store, drawn: Secret, s0: Store, content: string) returns (t: Entries)
    requires |drawn| == KEY_BYTES && Started(q, s, drawn, s0) && DatabaseLeft(s0.legacy)
    ensures var used := s0.app.value.entries[DB := File(content)];
            var again := Merged(s0.legacy, Some(Dir(used)));
            && again.Dir? && Compatible(Dir(used), s0.legacy.value) && KeyOf(again.entries, drawn).Some?
            && Opened(q, t, s0.tables, s0.app.value.entries) && DbNode(again.entries) == DbNode(t)
  {
    var m, rest := Merged(s.legacy, s.app).entries, s0.legacy.value.entries;
    t := LeftDatabaseOpened(q, s, drawn, s0);
    var used := t[DB := File(content)];
    assert used == s0.app.value.entries[DB := File(content)];
    SecondStartAfterUse(m, rest, drawn, t, content, drawn);
    assert Lookup(Overlay(Dir(used), Dir(rest)).entries, DB) == OverlayAt(used, rest, DB);
  }

  /** A start that succeeds in everything, removals included. */
  lemma CleanStart(q: Sqlite, s: Store, drawn: Secret, tables: Tables) returns (s': Store)
    requires |drawn| == KEY_BYTES && Startable(s.legacy, s.app, drawn)
    requires var found := q.Open(DbNode(Merged(s.legacy, s.app).entries));
             found.Some? && MigratedTo(found.value, tables)
    ensures Started(q, s, drawn, s') && s'.tables == tables
  {
    var m := Merged(s.legacy, s.app).entries;
    var t := Settled(m, drawn);
    SettledDb(m, drawn);
    s' := Store(None, Some(Dir(t[DB := File(q.dump(tables))])), true, tables, KeyOf(m, drawn).value);
    assert Opened(q, t, tables, s'.app.value.entries);
  }

  /** A database left in the legacy directory by a start is the one in use after the next,
      with the tables as they were at the first, whatever has been committed in between. */
  lemma RestartReverts(q: Sqlite, s: Store, drawn: Secret, s0: Store, s1: Store) returns (s2: Store)
    requires |drawn| == KEY_BYTES && Started(q, s, drawn, s0) && DatabaseLeft(s0.legacy)
    requires s1 == Committed(q, s0, s1.tables)
    ensures Started(q, s1, drawn, s2) && s2.tables == s0.tables
  {
    var t := LeftDatabaseWins(q, s, drawn, s0, q.dump(s1.tables));
    s2 := CleanStart(q, s1, drawn, s0.tables);
  }

  lemma LastOfTwo(initial: Memory, e: Event, f: Event)
    ensures LastSupplied(initial, [e, f]) == Remember(Remember(initial, e), f)
  {
    var events := [e, f];
    assert events[..|events| - 1] == [e] && [e][..0] == [];
    assert LastSupplied(initial, []) == initial;
    assert LastSupplied(initial, [e]) == Remember(initial, e);
  }

  lemma TwoSteps(c: Crypto, q: Sqlite, s0: Store, e: Event, s1: Store, f: Event, s2: Store)
    requires Step(c, q, s0, e, s1) && Step(c, q, s1, f, s2)
    requires Readable(c, s2) != Remember(Remember(Readable(c, s0), e), f)
    ensures !PasswordsLast(c, q, s0)
  {
    var events, stores := [e, f], [s0, s1, s2];
    assert IsRun(c, q, events, stores);
    assert events[..2] == events;
    LastOfTwo(Readable(c, s0), e, f);
    assert stores[2] == s2;
  }

  lemma PasswordsReverted(c: Crypto, q: Sqlite, s: Store, drawn: Secret, s0: Store, form: Form, nonce: seq<byte>)
    requires |drawn| == KEY_BYTES && Started(q, s, drawn, s0) && DatabaseLeft(s0.legacy)
    requires |nonce| == NONCE_BYTES && form.password == None
    ensures !PasswordsLast(c, q, s0)
  {
    var t := s0.tables;
    var s1 := Committed(q, s0, t.(endpoints := t.endpoints[t.lastId + 1 := Filled(form, None)], lastId := t.lastId + 1));
    assert Step(c, q, s0, Create(form, nonce), s1);
    var s2 := RestartReverts(q, s, drawn, s0, s1);
    assert Readable(c, s2).lastId == Readable(c, s0).lastId;
    TwoSteps(c, q, s0, Create(form, nonce), s1, Restart(drawn), s2);
  }

  /** From the first successful start on, of any installation, every run reads back the
      last password supplied for every endpoint, over all restarts, failed ones included,
      if and only if that start left no database file at the root of the legacy directory. */
  lemma PasswordsLastExactly(c: Crypto, q: Sqlite, s: Store, drawn: Secret, s0: Store)
    requires c.Lawful() && q.Lawful() && |drawn| == KEY_BYTES && Started(q, s, drawn, s0)
    ensures PasswordsLast(c, q, s0) <==> !DatabaseLeft(s0.legacy)
  {
    if DatabaseLeft(s0.legacy) {
      PasswordsReverted(c, q, s, drawn, s0, Form("", "", None, None, None), seq(NONCE_BYTES, _ => 0));
    } else {
      StartIsReady(q, s, drawn, s0);
      forall events, stores, k: nat | IsRun(c, q, events, stores) && stores[0] == s0 && k <= |events|
        ensures Readable(c, stores[k]) == LastSupplied(Readable(c, s0), events[..k])
      {
        PasswordIsLastSupplied(c, q, events, stores, k);
      }
    }
  }

  // ----- a key file cut short

  /** Nothing runs, and the key file that merging would give cannot be read. */
  ghost predicate Stuck(s: Store) {
    var merged := Merged(s.legacy, s.app);
    !s.running && merged.Dir? && KEY in merged.entries && KeyOf(merged.entries, []) == None
  }

  /** A failed start that has cut its new key file short leaves the installation stuck: no
      leftover of the legacy directory has a key to replace it. */
  lemma CutKeyIsStuck(s: Store, m: Entries, drawn: Secret, after: Entries)
    requires |drawn| == KEY_BYTES && !s.running && s.app == Some(Dir(after)) && LeftBehind(Dir(m), s.legacy)
    requires KeyCutShort(m, drawn, after) && after != m && after[KEY] != File(HexEncode(drawn))
    ensures Stuck(s)
  {
    var rest := Leftover(s.legacy);
    LeftoverMerges(m, s.legacy, after);
    LeftoverAt(m, rest, KEY);
    assert Lookup(Merged(s.legacy, s.app).entries, KEY) == OverlayAt(after, rest, KEY);
    var n := |after[KEY].content|;
    HexText(drawn);
    assert HexEncode(drawn)[..n] == after[KEY].content;
    CutKeyRefused(drawn, n);
  }

  /** Then every later start fails: no run from there contains one that succeeds, nor
      anything that needs the program to run. */
  lemma {:induction false} StuckForever(c: Crypto, q: Sqlite, events: seq<Event>, stores: seq<Store>, k: nat)
    requires IsRun(c, q, events, stores) && Stuck(stores[0]) && k <= |events|
    ensures Stuck(stores[k]) && forall i :: 0 <= i < k ==> events[i].FailedStart? || events[i].Refused?
  {
    if k > 0 {
      StuckForever(c, q, events, stores, k - 1);
      StuckStep(c, q, stores[k - 1], events[k - 1], stores[k]);
    }
  }

  lemma StuckStep(c: Crypto, q: Sqlite, s: Store, e: Event, s': Store)
    requires Stuck(s) && Step(c, q, s, e, s')
    ensures Stuck(s') && (e.FailedStart? || e.Refused?)
  {
  }
}
