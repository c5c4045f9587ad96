/** The console history table and the three statements that touch it (src/db/mod.rs).

    A table is a map from row ids to rows with the last id AUTOINCREMENT handed out; ids
    grow and are not reused.  Statements are relations where SQL leaves a choice: which
    matching row `LIMIT 1` picks, and how rows with the same `created_at` are ordered. */
module HistoryTable {
  import opened Options

  datatype Key = Key(endpoint: int, verb: string, path: string, body: Option<string>)
  datatype Response = Response(status: Option<int>, body: Option<string>)
  datatype Row = Row(key: Key, response: Response, createdAt: int)
  type Rows = map<nat, Row>
  datatype Table = Table(rows: Rows, lastId: nat)

  const KEEP := 200

  /** What identifies a request in the history: an empty body is stored as NULL. */
  function RequestKey(endpoint: int, verb: string, path: string, body: string): Key {
    Key(endpoint, verb, path, if body == "" then None else Some(body))
  }

  /** The CHECK constraint on the method column. */
  predicate Allowed(verb: string) {
    verb in {"GET", "POST", "PUT", "DELETE", "PATCH", "HEAD"}
  }

  /** What the schema guarantees of every stored row, given the live endpoints. */
  ghost predicate Sound(t: Table, live: set<int>) {
    forall id :: id in t.rows ==>
      id <= t.lastId && Allowed(t.rows[id].key.verb) && t.rows[id].key.endpoint in live
  }

  function RowsOf(rows: Rows, key: Key): set<nat> {
    set id | id in rows && rows[id].key == key
  }

  // ----- statements

  function Update(t: Table, id: nat, response: Response, now: int): Table {
    if id in t.rows then t.(rows := t.rows[id := Row(t.rows[id].key, response, now)]) else t
  }

  predicate Insertable(key: Key, live: set<int>) {
    Allowed(key.verb) && key.endpoint in live
  }

  function Insert(t: Table, key: Key, response: Response, now: int): Table {
    Table(t.rows[t.lastId + 1 := Row(key, response, now)], t.lastId + 1)
  }

  function Cascade(t: Table, endpoint: int): Table {
    t.(rows := map id | id in t.rows && t.rows[id].key.endpoint != endpoint :: t.rows[id])
  }

  /** `ids` lists the rows in an order `ORDER BY created_at DESC` may return. */
  ghost predicate IsRecencyOrder(rows: Rows, ids: seq<nat>) {
    && (forall id :: id in ids <==> id in rows)
    && (forall i, j :: 0 <= i < j < |ids| ==> ids[i] != ids[j])
    && (forall i, j :: 0 <= i < j < |ids| ==> rows[ids[i]].createdAt >= rows[ids[j]].createdAt)
  }

  /** How many of `n` rows `LIMIT k` lets through; a negative limit means no limit. */
  function Limited(k: int, n: nat): (r: nat)
    ensures r <= n
  {
    if 0 <= k < n then k else n
  }

  function Only(rows: Rows, ids: seq<nat>): Rows {
    map id | id in rows && id in ids :: rows[id]
  }

  ghost predicate CleanedBy(rows: Rows, keepLast: int, rows': Rows, order: seq<nat>) {
    IsRecencyOrder(rows, order) && rows' == Only(rows, order[..Limited(keepLast, |order|)])
  }

  /** The effect of `cleanup_console_history`. */
  ghost predicate Cleaned(rows: Rows, keepLast: int, rows': Rows) {
    exists order :: CleanedBy(rows, keepLast, rows', order)
  }

  /** The effect of a whole `save_console_history` that runs undisturbed. */
  ghost predicate Saved(t: Table, live: set<int>, key: Key, response: Response, now: int,
                        t': Table, id: Option<nat>) {
    if RowsOf(t.rows, key) != {} then
      id.Some? && id.value in RowsOf(t.rows, key) && t' == Update(t, id.value, response, now)
    else if Insertable(key, live) then
      id == Some(t.lastId + 1) && t' == Insert(t, key, response, now)
    else
      id == None && t' == t
  }

  // ----- facts about orders

  lemma OrderLength(rows: Rows, ids: seq<nat>)
    requires IsRecencyOrder(rows, ids)
    ensures |ids| == |rows|
  {
    DistinctLength(ids, rows.Keys);
  }

  lemma {:induction false} DistinctLength(ids: seq<nat>, s: set<nat>)
    requires forall i, j :: 0 <= i < j < |ids| ==> ids[i] != ids[j]
    requires forall id :: id in ids <==> id in s
    ensures |ids| == |s|
  {
    if ids != [] {
      DistinctLength(ids[1..], s - {ids[0]});
    } else {
      assert s == {};
    }
  }

  /** A cleanup keeps a bounded subset of the rows, none of them older than a dropped one. */
  lemma CleanedKeepsNewest(rows: Rows, keepLast: int, rows': Rows)
    requires Cleaned(rows, keepLast, rows')
    ensures |rows'| == if 0 <= keepLast < |rows| then keepLast else |rows|
    ensures forall id :: id in rows' ==> id in rows && rows'[id] == rows[id]
    ensures forall id, gone :: id in rows' && gone in rows && gone !in rows' ==>
              rows[id].createdAt >= rows[gone].createdAt
  {
    var order :| CleanedBy(rows, keepLast, rows', order);
    OrderLength(rows, order);
    KeptLength(rows, order, Limited(keepLast, |order|));
    forall id, gone | id in rows' && gone in rows && gone !in rows'
      ensures rows[id].createdAt >= rows[gone].createdAt
    {
      KeptIsNewer(rows, order, Limited(keepLast, |order|), id, gone);
    }
  }

  lemma KeptLength(rows: Rows, order: seq<nat>, k: nat)
    requires IsRecencyOrder(rows, order) && k <= |order|
    ensures |Only(rows, order[..k])| == k
  {
    var kept := Only(rows, order[..k]);
    DistinctLength(order[..k], kept.Keys);
  }

  lemma KeptIsNewer(rows: Rows, order: seq<nat>, k: nat, id: nat, gone: nat)
    requires IsRecencyOrder(rows, order) && k <= |order|
    requires id in order[..k] && gone in rows && gone !in order[..k]
    ensures rows[id].createdAt >= rows[gone].createdAt
  {
    var i :| 0 <= i < k && order[..k][i] == id;
    assert order[i] == id && gone in order;
    var j :| 0 <= j < |order| && order[j] == gone;
  }

  lemma Fewer<T>(a: set<T>, b: set<T>)
    requires a <= b
    ensures |a| <= |b|
  {
    if a != b {
      assert b == a + (b - a);
    }
  }

  lemma NewestExists(rows: Rows, pending: set<nat>)
    requires pending != {} && pending <= rows.Keys
    ensures exists id :: id in pending && forall o :: o in pending ==> rows[o].createdAt <= rows[id].createdAt
  {
    var x :| x in pending;
    if pending == {x} {
    } else {
      NewestExists(rows, pending - {x});
      var y :| y in pending - {x} && forall o :: o in pending - {x} ==> rows[o].createdAt <= rows[y].createdAt;
      var id := if rows[x].createdAt <= rows[y].createdAt then y else x;
      assert forall o :: o in pending ==> rows[o].createdAt <= rows[id].createdAt;
    }
  }

  /** Some order `ORDER BY created_at DESC` may return. */
  method OrderByCreatedDesc(rows: Rows) returns (ids: seq<nat>)
    ensures IsRecencyOrder(rows, ids)
  {
    ids := [];
    var pending := rows.Keys;
    while pending != {}
      invariant pending <= rows.Keys
      invariant forall id :: id in ids <==> id in rows && id !in pending
      invariant forall i, j :: 0 <= i < j < |ids| ==> ids[i] != ids[j]
      invariant forall i, j :: 0 <= i < j < |ids| ==> rows[ids[i]].createdAt >= rows[ids[j]].createdAt
      invariant forall i, o :: 0 <= i < |ids| && o in pending ==> rows[ids[i]].createdAt >= rows[o].createdAt
    {
      NewestExists(rows, pending);
      var id :| id in pending && forall o :: o in pending ==> rows[o].createdAt <= rows[id].createdAt;
      ids := ids + [id];
      pending := pending - {id};
    }
  }

  /** The rows `get_console_history` may return, newest first. */
  ghost predicate Listed(rows: Rows, limit: int, endpoint: Option<int>, listed: seq<Row>) {
    exists order :: ListedBy(rows, limit, endpoint, listed, order)
  }

  function ForEndpoint(rows: Rows, endpoint: Option<int>): Rows {
    map id | id in rows && (endpoint.None? || rows[id].key.endpoint == endpoint.value) :: rows[id]
  }

  ghost predicate ListedBy(rows: Rows, limit: int, endpoint: Option<int>, listed: seq<Row>, order: seq<nat>) {
    && IsRecencyOrder(ForEndpoint(rows, endpoint), order)
    && listed == Fetch(ForEndpoint(rows, endpoint), order)[..Limited(limit, |order|)]
  }

  function Fetch(rows: Rows, ids: seq<nat>): (r: seq<Row>)
    requires forall id :: id in ids ==> id in rows
    ensures |r| == |ids|
  {
    if ids == [] then [] else [rows[ids[0]]] + Fetch(rows, ids[1..])
  }

  /** The history part of the database. */
  class ConsoleHistory {
    var table: Table
    var live: set<int>

    constructor ()
      ensures table == Table(map[], 0) && live == {}
    {
      table, live := Table(map[], 0), {};
    }

    method EndpointCreated(id: int)
      modifies `live
      ensures live == old(live) + {id}
      ensures old(Sound(table, live)) ==> Sound(table, live)
    {
      live := live + {id};
    }

    /** `ON DELETE CASCADE`: the endpoint's history goes with it. */
    method EndpointDeleted(id: int)
      modifies `live, `table
      ensures live == old(live) - {id} && table == Cascade(old(table), id)
      ensures old(Sound(table, live)) ==> Sound(table, live)
    {
      live, table := live - {id}, Cascade(table, id);
    }

    /** Two statements: look for the request, then refresh that row or insert a new one.
        `None` is the error of a row that the CHECK or the foreign key refuses. */
    method SaveConsoleHistory(key: Key, response: Response, now: int) returns (id: Option<nat>)
      requires Sound(table, live)
      modifies `table
      ensures Saved(old(table), live, key, response, now, table, id)
      ensures id.Some? <==> (RowsOf(old(table.rows), key) != {} ||
        (key.endpoint in live && key.verb in {"GET", "POST", "PUT", "DELETE", "PATCH", "HEAD"}))
      ensures Sound(table, live)
    {
      var matching := RowsOf(table.rows, key);
      if matching != {} {
        var existing :| existing in matching;
        table := Update(table, existing, response, now);
        return Some(existing);
      }
      if !Insertable(key, live) { return None; }
      table := Insert(table, key, response, now);
      return Some(table.lastId);
    }

    method CleanupConsoleHistory(keepLast: int)
      modifies `table
      ensures Cleaned(old(table.rows), keepLast, table.rows) && table.lastId == old(table.lastId)
      ensures old(Sound(table, live)) ==> Sound(table, live)
    {
      var order := OrderByCreatedDesc(table.rows);
      ghost var before := table.rows;
      table := table.(rows := Only(table.rows, order[..Limited(keepLast, |order|)]));
      assert CleanedBy(before, keepLast, table.rows, order);
    }

    method GetConsoleHistory(limit: int, endpoint: Option<int>) returns (listed: seq<Row>)
      ensures Listed(table.rows, limit, endpoint, listed)
      ensures var n := |ForEndpoint(table.rows, endpoint)|; |listed| == if 0 <= limit < n then limit else n
    {
      var rows := ForEndpoint(table.rows, endpoint);
      var order := OrderByCreatedDesc(rows);
      OrderLength(rows, order);
      listed := Fetch(rows, order)[..Limited(limit, |order|)];
      assert ListedBy(table.rows, limit, endpoint, listed, order);
    }

    /** The end of `execute_request`: save, then clean up whether or not saving worked. */
    method RecordExecution(endpoint: int, verb: string, path: string, body: string, response: Response, now: int)
      requires Sound(table, live)
      modifies `table
      ensures Recorded(old(table), live, RequestKey(endpoint, verb, path, body), response, now, table)
      ensures Kept(old(table), live, endpoint, verb, path, body, response, now, table)
      ensures Sound(table, live)
    {
      var key := RequestKey(endpoint, verb, path, body);
      var id := SaveConsoleHistory(key, response, now);
      ghost var mid := table;
      CleanupConsoleHistory(KEEP);
      assert RecordedVia(old(table), live, key, response, now, table, mid, id);
      RecordedIsKept(old(table), live, endpoint, verb, path, body, response, now, table);
    }

    /** `execute_request` on the active endpoint: a method it does not know is refused
        before anything is sent; otherwise the request is carried out, `response` is what
        came of it, and the method is stored as it was typed. */
    method ExecuteRequest(endpoint: int, verb: string, path: string, body: string, response: Response, now: int)
      returns (executed: bool)
      requires Sound(table, live)
      modifies `table
      ensures executed <==> Supported(verb)
      ensures executed ==> Recorded(old(table), live, RequestKey(endpoint, verb, path, body), response, now, table)
      ensures executed ==> Kept(old(table), live, endpoint, verb, path, body, response, now, table)
      ensures !executed ==> table == old(table)
      ensures Sound(table, live)
    {
      if Upper(verb) !in {"GET", "HEAD", "POST", "PUT", "DELETE"} { return false; }
      RecordExecution(endpoint, verb, path, body, response, now);
      return true;
    }
  }

  ghost predicate RecordedVia(t: Table, live: set<int>, key: Key, response: Response, now: int,
                              t': Table, mid: Table, id: Option<nat>) {
    && Saved(t, live, key, response, now, mid, id)
    && Cleaned(mid.rows, KEEP, t'.rows) && t'.lastId == mid.lastId
  }

  ghost predicate Recorded(t: Table, live: set<int>, key: Key, response: Response, now: int, t': Table) {
    exists mid, id :: RecordedVia(t, live, key, response, now, t', mid, id)
  }

  /** A row that holds a request as it was typed, with what came of it and when; no body is
      stored for an empty one. */
  predicate Holds(row: Row, endpoint: int, verb: string, path: string, body: string, response: Response, now: int) {
    && row.key.endpoint == endpoint && row.key.verb == verb && row.key.path == path
    && (row.key.body == None <==> body == "") && (body != "" ==> row.key.body == Some(body))
    && row.response == response && row.createdAt == now
  }

  /** What an execution writes, in terms of what was typed: every row is as it was or holds
      the request, and some row holds it if the schema accepts the method, the endpoint is
      there and fewer than 200 rows are at least as new. */
  ghost predicate Kept(t: Table, live: set<int>, endpoint: int, verb: string, path: string, body: string,
                       response: Response, now: int, t': Table) {
    && (forall id :: id in t'.rows ==>
          || (id in t.rows && t'.rows[id] == t.rows[id])
          || (Holds(t'.rows[id], endpoint, verb, path, body, response, now)
              && (id in t.rows ==> t.rows[id].key == t'.rows[id].key)))
    && (verb in {"GET", "POST", "PUT", "DELETE", "PATCH", "HEAD"} && endpoint in live
        && |NotBefore(t.rows, now)| < 200 ==>
          exists id :: id in t'.rows && Holds(t'.rows[id], endpoint, verb, path, body, response, now))
  }

  function NotBefore(rows: Rows, now: int): set<nat> {
    set r | r in rows && rows[r].createdAt >= now
  }

  /** What saving writes, row by row. */
  lemma SavedWrites(t: Table, live: set<int>, key: Key, response: Response, now: int, mid: Table, id: Option<nat>)
    requires Sound(t, live) && Saved(t, live, key, response, now, mid, id)
    ensures forall r :: r in mid.rows && id != Some(r) ==> r in t.rows && mid.rows[r] == t.rows[r]
    ensures id.Some? ==> id.value in mid.rows && mid.rows[id.value] == Row(key, response, now)
                         && (id.value in t.rows ==> t.rows[id.value].key == key)
    ensures Insertable(key, live) ==> id.Some?
  {
    if id.Some? && id.value == t.lastId + 1 { assert id.value !in t.rows; }
  }

  lemma KeyHolds(endpoint: int, verb: string, path: string, body: string, response: Response, now: int)
    ensures var key := RequestKey(endpoint, verb, path, body);
            && Holds(Row(key, response, now), endpoint, verb, path, body, response, now)
            && key.verb == verb && key.endpoint == endpoint
  {
  }

  lemma RecordedIsKept(t: Table, live: set<int>, endpoint: int, verb: string, path: string, body: string,
                       response: Response, now: int, t': Table)
    requires Sound(t, live) && Recorded(t, live, RequestKey(endpoint, verb, path, body), response, now, t')
    ensures Kept(t, live, endpoint, verb, path, body, response, now, t')
  {
    var key := RequestKey(endpoint, verb, path, body);
    KeyHolds(endpoint, verb, path, body, response, now);
    hide RequestKey, Holds, Saved, Cleaned, NotBefore, Sound;
    var mid, id :| RecordedVia(t, live, key, response, now, t', mid, id);
    SavedWrites(t, live, key, response, now, mid, id);
    CleanedKeepsNewest(mid.rows, KEEP, t'.rows);
    if id.Some? && id.value !in t'.rows { RivalsRemain(t, mid, t', id.value, now); }
  }

  /** A new row that its own cleanup drops leaves only rows that are at least as new. */
  lemma RivalsRemain(t: Table, mid: Table, t': Table, id: nat, now: int)
    requires id in mid.rows && mid.rows[id].createdAt == now && id !in t'.rows
    requires forall r :: r in mid.rows && r != id ==> r in t.rows && t.rows[r] == mid.rows[r]
    requires Cleaned(mid.rows, KEEP, t'.rows)
    ensures 200 <= |NotBefore(t.rows, now)|
  {
    hide Cleaned;
    CleanedKeepsNewest(mid.rows, KEEP, t'.rows);
    Fewer(t'.rows.Keys, mid.rows.Keys - {id});
    Fewer(t'.rows.Keys, NotBefore(t.rows, now));
  }

  /** Two requests share their row if and only if endpoint, method, path and body agree. */
  lemma SameRequest(endpoint: int, verb: string, path: string, body: string,
                    endpoint': int, verb': string, path': string, body': string)
    ensures RequestKey(endpoint, verb, path, body) == RequestKey(endpoint', verb', path', body') <==>
            endpoint == endpoint' && verb == verb' && path == path' && body == body'
  {
  }

  // ----- which requests are recorded

  /** The upper case of a character: `str::to_uppercase` as far as it can give a letter of
      a method. */
  function UpperOf(c: char): string {
    if 'a' <= c <= 'z' then [c - 'a' + 'A']
    else if c == '\U{017F}' then "S"
    else if c == '\U{FB05}' || c == '\U{FB06}' then "ST"
    else [c]
  }

  function Upper(s: string): string {
    if s == "" then "" else UpperOf(s[0]) + Upper(s[1..])
  }

  /** The methods `execute_request` carries out; others are refused before anything is sent. */
  predicate Supported(verb: string) {
    Upper(verb) in {"GET", "HEAD", "POST", "PUT", "DELETE"}
  }

  predicate IsCapitals(s: string) {
    forall i :: 0 <= i < |s| ==> 'A' <= s[i] <= 'Z'
  }

  lemma {:induction false} CapitalsStay(s: string)
    requires IsCapitals(s)
    ensures Upper(s) == s
  {
    if s != "" {
      CapitalsStay(s[1..]);
      assert s == [s[0]] + s[1..];
    }
  }

  lemma AllowedIsCapitals(verb: string)
    requires Allowed(verb)
    ensures IsCapitals(verb)
  {
  }

  /** A long s written as `s`, and its ligatures with t as `st`. */
  function Spelt(s: string): string {
    if s == "" then ""
    else (if IsLongS(s[0]) then "s" else if IsLigature(s[0]) then "st" else [s[0]]) + Spelt(s[1..])
  }

  predicate IsLongS(c: char) {
    c == '\U{017F}'
  }

  predicate IsLigature(c: char) {
    c == '\U{FB05}' || c == '\U{FB06}'
  }

  predicate IsSimple(s: string) {
    forall i :: 0 <= i < |s| ==> !IsLongS(s[i]) && !IsLigature(s[i])
  }

  /** A method is carried out if and only if it is one of the five, letter by letter in
      either case, a long s counting as `s`. */
  lemma SupportedInAnyCase(verb: string)
    ensures Supported(verb) <==> exists m :: m in {"GET", "HEAD", "POST", "PUT", "DELETE"} && InSomeCase(Spelt(verb), m)
  {
    SpeltIsSimple(verb);
    hide Upper, InSomeCase, Spelt, IsSimple;
    UpperIs(Spelt(verb), "GET");
    UpperIs(Spelt(verb), "HEAD");
    UpperIs(Spelt(verb), "POST");
    UpperIs(Spelt(verb), "PUT");
    UpperIs(Spelt(verb), "DELETE");
  }

  lemma UpperConcat(a: string, s: string)
    requires |a| == 1 || |a| == 2
    ensures Upper(a + s) == Upper(a) + Upper(s)
  {
    hide UpperOf, Upper;
    UpperStep(a + s);
    UpperStep(a);
    UpperNothing();
    if |a| == 1 {
      assert a[1..] == "" && (a + s)[1..] == s;
    } else {
      var t := a[1..];
      assert (a + s)[1..] == t + s && (t + s)[1..] == s && t[1..] == "";
      UpperStep(t + s);
      UpperStep(t);
      Concat3(UpperOf(a[0]), UpperOf(a[1]), Upper(s));
    }
  }

  lemma Concat3(a: string, b: string, c: string)
    ensures a + (b + c) == a + (b + "") + c && b + "" == b
  {
  }

  lemma UpperNothing()
    ensures Upper("") == ""
  {
  }

  lemma SpeltChar(c: char)
    ensures var a := if IsLongS(c) then "s" else if IsLigature(c) then "st" else [c];
            IsSimple(a) && Upper(a) == UpperOf(c)
  {
    UpperNothing();
    assert "st"[1..] == "t" && "t"[1..] == "" && [c][1..] == "";
    assert Upper("t") == "T";
  }

  lemma {:induction false} SpeltIsSimple(s: string)
    ensures IsSimple(Spelt(s)) && Upper(Spelt(s)) == Upper(s)
  {
    if s != "" {
      hide Upper, UpperOf, IsLongS, IsLigature;
      var a := if IsLongS(s[0]) then "s" else if IsLigature(s[0]) then "st" else [s[0]];
      SpeltIsSimple(s[1..]);
      SpeltChar(s[0]);
      UpperConcat(a, Spelt(s[1..]));
      UpperStep(s);
    }
  }

  predicate InSomeCase(s: string, m: string) {
    |s| == |m| && forall i :: 0 <= i < |s| ==>
      s[i] == m[i] || ('a' <= s[i] <= 'z' && s[i] as int - 'a' as int == m[i] as int - 'A' as int)
  }

  lemma UpperStep(s: string)
    requires s != ""
    ensures Upper(s) == UpperOf(s[0]) + Upper(s[1..])
  {
    hide UpperOf;
  }

  lemma ConsEquals(u: string, rest: string, m: string)
    requires |u| == 1
    ensures u + rest == m <==> m != "" && u == [m[0]] && rest == m[1..]
  {
    assert (u + rest)[1..] == rest;
    assert m != "" ==> m == [m[0]] + m[1..];
  }

  lemma UpperCons(s: string, m: string)
    requires s != "" && !IsLongS(s[0]) && !IsLigature(s[0])
    ensures Upper(s) == m <==> m != "" && UpperOf(s[0]) == [m[0]] && Upper(s[1..]) == m[1..]
  {
    OneCapital(s[0]);
    hide UpperOf, Upper;
    UpperStep(s);
    ConsEquals(UpperOf(s[0]), Upper(s[1..]), m);
  }

  lemma OneCapital(c: char)
    requires !IsLongS(c) && !IsLigature(c)
    ensures |UpperOf(c)| == 1
  {
  }

  lemma {:induction false} UpperIs(s: string, m: string)
    requires IsSimple(s) && IsCapitals(m)
    ensures Upper(s) == m <==> InSomeCase(s, m)
  {
    if s != "" {
      hide Upper, UpperOf;
      UpperCons(s, m);
      if m != "" {
        UpperIs(s[1..], m[1..]);
        CaseCons(s, m);
      }
    }
  }

  lemma CaseCons(s: string, m: string)
    requires s != "" && m != "" && IsCapitals(m) && !IsLongS(s[0]) && !IsLigature(s[0])
    ensures InSomeCase(s, m) <==> UpperOf(s[0]) == [m[0]] && InSomeCase(s[1..], m[1..])
  {
    if |s| == |m| && InSomeCase(s[1..], m[1..]) {
      forall i | 0 < i < |s|
        ensures s[i] == m[i] || ('a' <= s[i] <= 'z' && s[i] as int - 'a' as int == m[i] as int - 'A' as int)
      {
        assert s[i] == s[1..][i - 1] && m[i] == m[1..][i - 1];
      }
    }
  }

  /** The schema accepts a supported method exactly as typed in upper case. */
  lemma StorableVerb(verb: string)
    requires Supported(verb)
    ensures Allowed(verb) <==> Upper(verb) == verb
  {
    if Allowed(verb) {
      AllowedIsCapitals(verb);
      CapitalsStay(verb);
    }
  }
}
