/** Which rows a cleanup of the console history keeps, and so which executed requests are
    recorded (src/db/mod.rs, src/handlers/console.rs). */
module HistoryRecorded {
  import opened Options
  import opened HistoryTable

  // ----- which rows a cleanup keeps

  /** Other rows at least as new as the row `id`. */
  function AtLeastAsNew(rows: Rows, id: nat): set<nat>
    requires id in rows
  {
    set r | r in rows && r != id && rows[r].createdAt >= rows[id].createdAt
  }

  function Newer(rows: Rows, id: nat): set<nat>
    requires id in rows
  {
    set r | r in rows && rows[r].createdAt > rows[id].createdAt
  }

  lemma {:induction false} OrderExists(rows: Rows) returns (ids: seq<nat>)
    ensures IsRecencyOrder(rows, ids)
    decreases |rows.Keys|
  {
    if rows == map[] {
      ids := [];
    } else {
      NewestExists(rows, rows.Keys);
      var id :| id in rows.Keys && forall o :: o in rows.Keys ==> rows[o].createdAt <= rows[id].createdAt;
      var order := OrderExists(rows - {id});
      OrderCons(rows, id, order);
      ids := [id] + order;
    }
  }

  lemma ConsMembers(id: nat, order: seq<nat>, ids: set<nat>)
    requires forall o :: o in order <==> o in ids - {id}
    requires id in ids && forall i, j :: 0 <= i < j < |order| ==> order[i] != order[j]
    ensures forall o :: o in [id] + order <==> o in ids
    ensures var all := [id] + order; forall i, j :: 0 <= i < j < |all| ==> all[i] != all[j]
  {
    var all := [id] + order;
    assert forall o :: o in all <==> o == id || o in order;
    forall i, j | 0 <= i < j < |all| ensures all[i] != all[j] {
      assert all[j] == order[j - 1] && order[j - 1] in order;
      assert i > 0 ==> all[i] == order[i - 1];
    }
  }

  lemma OrderCons(rows: Rows, id: nat, order: seq<nat>)
    requires id in rows && (forall o :: o in rows ==> rows[o].createdAt <= rows[id].createdAt)
    requires IsRecencyOrder(rows - {id}, order)
    ensures IsRecencyOrder(rows, [id] + order)
  {
    var ids, rest := [id] + order, rows - {id};
    ConsMembers(id, order, rows.Keys);
    forall i, j | 0 <= i < j < |ids| ensures rows[ids[i]].createdAt >= rows[ids[j]].createdAt {
      assert ids[i] in rows && ids[j] in rows && ids[j] == order[j - 1];
      if i > 0 {
        assert ids[i] == order[i - 1] && rest[order[i - 1]].createdAt >= rest[order[j - 1]].createdAt;
      }
    }
  }

  /** An order with chosen rows first, then `id`, then the others, if their times allow it. */
  lemma {:induction false} OrderAround(rows: Rows, id: nat, first: set<nat>) returns (order: seq<nat>)
    requires id in rows && first <= rows.Keys - {id}
    requires forall r :: r in first ==> rows[r].createdAt >= rows[id].createdAt
    requires forall r :: r in rows && r !in first ==> rows[r].createdAt <= rows[id].createdAt
    ensures IsRecencyOrder(rows, order) && |first| < |order| && order[|first|] == id
    decreases |first|
  {
    hide IsRecencyOrder;
    if first == {} {
      var rest := OrderExists(rows - {id});
      OrderCons(rows, id, rest);
      order := [id] + rest;
    } else {
      NewestExists(rows, first);
      var x :| x in first && forall o :: o in first ==> rows[o].createdAt <= rows[x].createdAt;
      var rest := OrderAround(rows - {x}, id, first - {x});
      OrderCons(rows, x, rest);
      order := [x] + rest;
    }
  }

  /** Exactly which rows a cleanup must keep, and which it must drop: the row is safe if
      fewer others than the limit are at least as new, and lost if that many are newer. */
  lemma KeptExactly(rows: Rows, keepLast: nat, id: nat)
    requires id in rows
    ensures (forall rows' :: Cleaned(rows, keepLast, rows') ==> id in rows') <==> |AtLeastAsNew(rows, id)| < keepLast
    ensures (forall rows' :: Cleaned(rows, keepLast, rows') ==> id !in rows') <==> keepLast <= |Newer(rows, id)|
  {
    forall rows' | Cleaned(rows, keepLast, rows') && id !in rows' ensures keepLast <= |AtLeastAsNew(rows, id)| {
      DroppedBehind(rows, keepLast, rows', id);
    }
    forall rows' | Cleaned(rows, keepLast, rows') && id in rows' ensures |Newer(rows, id)| < keepLast {
      KeptBefore(rows, keepLast, rows', id);
    }
    if keepLast <= |AtLeastAsNew(rows, id)| {
      var rows' := SomeCleanup(rows, keepLast, id, AtLeastAsNew(rows, id));
    }
    if |Newer(rows, id)| < keepLast {
      var rows' := SomeCleanup(rows, keepLast, id, Newer(rows, id));
    }
  }

  lemma DroppedBehind(rows: Rows, keepLast: nat, rows': Rows, id: nat)
    requires id in rows && Cleaned(rows, keepLast, rows') && id !in rows'
    ensures keepLast <= |AtLeastAsNew(rows, id)|
  {
    hide Cleaned;
    CleanedKeepsNewest(rows, keepLast, rows');
    assert rows'.Keys <= AtLeastAsNew(rows, id);
    Fewer(rows'.Keys, AtLeastAsNew(rows, id));
    Fewer(rows'.Keys, rows.Keys - {id});
    Counts(rows', id);
    Counts(rows, id);
  }

  lemma Counts(rows: Rows, id: nat)
    ensures |rows.Keys| == |rows|
    ensures id in rows ==> |rows.Keys - {id}| == |rows| - 1
  {
    if id in rows { assert rows.Keys == (rows.Keys - {id}) + {id}; }
  }

  lemma KeptBefore(rows: Rows, keepLast: nat, rows': Rows, id: nat)
    requires id in rows && Cleaned(rows, keepLast, rows') && id in rows'
    ensures |Newer(rows, id)| < keepLast
  {
    hide Cleaned;
    CleanedKeepsNewest(rows, keepLast, rows');
    assert Newer(rows, id) <= rows'.Keys - {id};
    Fewer(Newer(rows, id), rows'.Keys - {id});
    Counts(rows', id);
  }

  /** A cleanup that puts chosen rows in front of `id`. */
  lemma SomeCleanup(rows: Rows, keepLast: nat, id: nat, first: set<nat>) returns (rows': Rows)
    requires id in rows && first <= rows.Keys - {id}
    requires forall r :: r in first ==> rows[r].createdAt >= rows[id].createdAt
    requires forall r :: r in rows && r !in first ==> rows[r].createdAt <= rows[id].createdAt
    ensures Cleaned(rows, keepLast, rows') && (id in rows' <==> |first| < keepLast)
  {
    var order := OrderAround(rows, id, first);
    var n := Limited(keepLast, |order|);
    rows' := Only(rows, order[..n]);
    assert CleanedBy(rows, keepLast, rows', order);
    if |first| < keepLast {
      assert order[..n][|first|] == id;
    }
  }

  // ----- which executed requests are recorded

  ghost predicate HoldsResponse(t: Table, key: Key, response: Response) {
    exists id :: id in t.rows && t.rows[id].key == key && t.rows[id].response == response
  }

  /** The rows saving may write: a matching one, or a new one. */
  function Targets(t: Table, key: Key): set<nat> {
    if RowsOf(t.rows, key) != {} then RowsOf(t.rows, key) else {t.lastId + 1}
  }

  /** The table with the request saved under `id`. */
  function SavedAt(t: Table, id: nat, key: Key, response: Response, now: int): Table {
    Table(t.rows[id := Row(key, response, now)], if id in t.rows then t.lastId else id)
  }

  lemma SavedIsAt(t: Table, live: set<int>, key: Key, response: Response, now: int, mid: Table, id: Option<nat>)
    requires Sound(t, live)
    ensures Saved(t, live, key, response, now, mid, id) <==>
            if Insertable(key, live) then
              id.Some? && id.value in Targets(t, key) && mid == SavedAt(t, id.value, key, response, now)
            else id == None && mid == t
  {
    if RowsOf(t.rows, key) != {} {
      var r :| r in RowsOf(t.rows, key);
      assert Insertable(key, live);
    }
  }

  /** The rows of `t`, other than `id`, at least as new as `now`. */
  function Rivals(t: Table, id: nat, now: int): set<nat> {
    set r | r in t.rows && r != id && t.rows[r].createdAt >= now
  }

  /** The row written by an execution is still there after its own cleanup. */
  ghost predicate RowSurvives(t: Table, live: set<int>, key: Key, response: Response, now: int) {
    forall t', mid, id :: RecordedVia(t, live, key, response, now, t', mid, id) ==>
      id.Some? && id.value in t'.rows && t'.rows[id.value] == Row(key, response, now)
  }

  lemma ViaSaved(t: Table, live: set<int>, key: Key, response: Response, now: int, id: nat, rows': Rows)
    requires Sound(t, live) && Insertable(key, live) && id in Targets(t, key)
    requires Cleaned(SavedAt(t, id, key, response, now).rows, KEEP, rows')
    ensures var mid := SavedAt(t, id, key, response, now);
            RecordedVia(t, live, key, response, now, Table(rows', mid.lastId), mid, Some(id))
  {
    SavedIsAt(t, live, key, response, now, SavedAt(t, id, key, response, now), Some(id));
  }

  lemma RivalsAfterSaving(t: Table, id: nat, key: Key, response: Response, now: int)
    ensures AtLeastAsNew(SavedAt(t, id, key, response, now).rows, id) == Rivals(t, id, now)
  {
  }

  lemma RefusedLeavesSame(t: Table, live: set<int>, key: Key, response: Response, now: int) returns (t': Table)
    requires Sound(t, live) && !Insertable(key, live)
    ensures RecordedVia(t, live, key, response, now, t', t, None)
  {
    var order := OrderExists(t.rows);
    t' := t.(rows := Only(t.rows, order[..Limited(KEEP, |order|)]));
    assert CleanedBy(t.rows, KEEP, t'.rows, order);
    SavedIsAt(t, live, key, response, now, t, None);
  }

  /** On any table the schema allows: the row written by an execution is there afterwards,
      in every outcome, if and only if the schema accepts the request and, whichever
      matching row is picked, fewer than 200 others are at least as new as `now`. */
  lemma RowSurvivesExactly(t: Table, live: set<int>, key: Key, response: Response, now: int)
    requires Sound(t, live)
    ensures RowSurvives(t, live, key, response, now) <==>
            Insertable(key, live) && forall id :: id in Targets(t, key) ==> |Rivals(t, id, now)| < KEEP
  {
    if !Insertable(key, live) {
      var t' := RefusedLeavesSame(t, live, key, response, now);
    } else {
      forall id | id in Targets(t, key) ensures |Rivals(t, id, now)| < KEEP <==> SurvivesAt(t, id, key, response, now) {
        KeptExactly(SavedAt(t, id, key, response, now).rows, KEEP, id);
        RivalsAfterSaving(t, id, key, response, now);
      }
      forall id, rows' | id in Targets(t, key) && Cleaned(SavedAt(t, id, key, response, now).rows, KEEP, rows')
        ensures RowSurvives(t, live, key, response, now) ==> id in rows'
      {
        ViaSaved(t, live, key, response, now, id, rows');
      }
      forall t', mid, id | RecordedVia(t, live, key, response, now, t', mid, id)
        ensures id.Some? && id.value in Targets(t, key) && mid == SavedAt(t, id.value, key, response, now)
        ensures id.value in t'.rows ==> t'.rows[id.value] == Row(key, response, now)
      {
        SavedIsAt(t, live, key, response, now, mid, id);
        CleanedKeepsNewest(mid.rows, KEEP, t'.rows);
      }
    }
  }

  ghost predicate SurvivesAt(t: Table, id: nat, key: Key, response: Response, now: int) {
    forall rows' :: Cleaned(SavedAt(t, id, key, response, now).rows, KEEP, rows') ==> id in rows'
  }

  // ----- with one row per request, as executions one at a time leave them

  /** The rows of other requests at least as new as `now`, and those newer. */
  function OthersAtLeast(rows: Rows, key: Key, now: int): set<nat> {
    set r | r in rows && rows[r].key != key && rows[r].createdAt >= now
  }

  function OthersNewer(rows: Rows, key: Key, now: int): set<nat> {
    set r | r in rows && rows[r].key != key && rows[r].createdAt > now
  }

  /** Whatever the choices of the database, the request is found afterwards with its
      response. */
  ghost predicate AlwaysRecorded(t: Table, live: set<int>, key: Key, response: Response, now: int) {
    forall t' :: Recorded(t, live, key, response, now, t') ==> HoldsResponse(t', key, response)
  }

  /** Whatever they are, the history has no row for it afterwards. */
  ghost predicate AlwaysLost(t: Table, live: set<int>, key: Key, response: Response, now: int) {
    forall t' :: Recorded(t, live, key, response, now, t') ==> RowsOf(t'.rows, key) == {}
  }

  lemma RefusedIsLost(t: Table, live: set<int>, key: Key, response: Response, now: int)
    requires Sound(t, live) && !Insertable(key, live)
    ensures AlwaysLost(t, live, key, response, now) && !AlwaysRecorded(t, live, key, response, now)
  {
    forall t' | Recorded(t, live, key, response, now, t') ensures RowsOf(t'.rows, key) == {} {
      var mid, id :| RecordedVia(t, live, key, response, now, t', mid, id);
      SavedIsAt(t, live, key, response, now, mid, id);
      CleanedKeepsNewest(mid.rows, KEEP, t'.rows);
      forall r | r in t'.rows ensures t'.rows[r].key != key { assert r in t.rows; }
    }
    var t' := RefusedLeavesSame(t, live, key, response, now);
    assert Recorded(t, live, key, response, now, t');
    forall r | r in t'.rows ensures t'.rows[r].key != key { assert r !in RowsOf(t'.rows, key); }
  }

  /** The one row a request with at most one row is saved under. */
  lemma OneTarget(t: Table, live: set<int>, key: Key, response: Response, now: int) returns (id: nat)
    requires Sound(t, live) && |RowsOf(t.rows, key)| <= 1
    ensures Targets(t, key) == {id}
    ensures var rows := SavedAt(t, id, key, response, now).rows;
            && (forall r :: r in rows && rows[r].key == key ==> r == id)
            && AtLeastAsNew(rows, id) == OthersAtLeast(t.rows, key, now)
            && Newer(rows, id) == OthersNewer(t.rows, key, now)
  {
    if RowsOf(t.rows, key) == {} {
      id := t.lastId + 1;
      forall r | r in t.rows ensures t.rows[r].key != key { assert r !in RowsOf(t.rows, key); }
    } else {
      id :| id in RowsOf(t.rows, key);
      forall r | r in RowsOf(t.rows, key) ensures r == id {
        Fewer({r, id}, RowsOf(t.rows, key));
      }
      forall r | r in t.rows && t.rows[r].key == key ensures r == id { assert r in RowsOf(t.rows, key); }
    }
  }

  lemma FoundIfKept(rows: Rows, key: Key, response: Response, now: int, id: nat, t': Table)
    requires id in rows && rows[id] == Row(key, response, now)
    requires forall r :: r in rows && rows[r].key == key ==> r == id
    requires forall r :: r in t'.rows ==> r in rows && t'.rows[r] == rows[r]
    ensures HoldsResponse(t', key, response) <==> id in t'.rows
    ensures RowsOf(t'.rows, key) == {} <==> id !in t'.rows
  {
    if id in t'.rows { assert id in RowsOf(t'.rows, key); }
  }

  /** Exactly when a request is recorded, and when it is lost to its own cleanup: it is
      found afterwards, whatever the database chooses, if and only if the schema accepts it
      and fewer than 200 rows of other requests are at least as new as `now`; it is gone,
      whatever the database chooses, if and only if the schema refuses it or 200 are newer. */
  lemma RecordedExactly(t: Table, live: set<int>, key: Key, response: Response, now: int)
    requires Sound(t, live) && |RowsOf(t.rows, key)| <= 1
    ensures AlwaysRecorded(t, live, key, response, now) <==>
            Insertable(key, live) && |OthersAtLeast(t.rows, key, now)| < KEEP
    ensures AlwaysLost(t, live, key, response, now) <==>
            !Insertable(key, live) || KEEP <= |OthersNewer(t.rows, key, now)|
  {
    if !Insertable(key, live) {
      RefusedIsLost(t, live, key, response, now);
    } else {
      var id := OneTarget(t, live, key, response, now);
      var mid := SavedAt(t, id, key, response, now);
      KeptExactly(mid.rows, KEEP, id);
      forall t' | Recorded(t, live, key, response, now, t')
        ensures Cleaned(mid.rows, KEEP, t'.rows)
        ensures HoldsResponse(t', key, response) <==> id in t'.rows
        ensures RowsOf(t'.rows, key) == {} <==> id !in t'.rows
      {
        OutcomeOf(t, live, key, response, now, id, t');
      }
      forall rows' | Cleaned(mid.rows, KEEP, rows')
        ensures Recorded(t, live, key, response, now, Table(rows', mid.lastId))
      {
        ViaSaved(t, live, key, response, now, id, rows');
      }
    }
  }

  lemma OutcomeOf(t: Table, live: set<int>, key: Key, response: Response, now: int, id: nat, t': Table)
    requires Sound(t, live) && Insertable(key, live) && Targets(t, key) == {id}
    requires var rows := SavedAt(t, id, key, response, now).rows;
             forall r :: r in rows && rows[r].key == key ==> r == id
    requires Recorded(t, live, key, response, now, t')
    ensures Cleaned(SavedAt(t, id, key, response, now).rows, KEEP, t'.rows)
    ensures HoldsResponse(t', key, response) <==> id in t'.rows
    ensures RowsOf(t'.rows, key) == {} <==> id !in t'.rows
  {
    var mid, saved :| RecordedVia(t, live, key, response, now, t', mid, saved);
    SavedIsAt(t, live, key, response, now, mid, saved);
    CleanedKeepsNewest(mid.rows, KEEP, t'.rows);
    FoundIfKept(mid.rows, key, response, now, id, t');
  }

  /** On any table whose rows are older, an executed request is found in the history
      afterwards, under its key and with its response, if and only if the schema accepts
      it; one it does not accept leaves no row for its key. */
  lemma RecordedIffInsertable(t: Table, live: set<int>, key: Key, response: Response, now: int, t': Table)
    requires Sound(t, live) && (forall r :: r in t.rows ==> t.rows[r].createdAt < now)
    requires Recorded(t, live, key, response, now, t')
    ensures HoldsResponse(t', key, response) <==> Insertable(key, live)
    ensures RowsOf(t'.rows, key) == {} <==> !Insertable(key, live)
  {
    if Insertable(key, live) {
      var mid, id :| RecordedVia(t, live, key, response, now, t', mid, id);
      forall id | id in Targets(t, key) ensures |Rivals(t, id, now)| < KEEP { assert Rivals(t, id, now) == {}; }
      RowSurvivesExactly(t, live, key, response, now);
      assert id.value in RowsOf(t'.rows, key);
    } else {
      RefusedIsLost(t, live, key, response, now);
      forall r | r in t'.rows ensures t'.rows[r].key != key { assert r !in RowsOf(t'.rows, key); }
    }
  }

  /** A request that is executed on a live endpoint is recorded, whatever the database
      chooses, if and only if its method was typed in upper case and fewer than 200 other
      rows are at least as new: on any table for the row it writes, and with at most one
      row per request for what is found under its key. */
  lemma ExecutedIsRecorded(t: Table, live: set<int>, endpoint: int, verb: string, path: string, body: string,
                           response: Response, now: int)
    requires Supported(verb) && endpoint in live && Sound(t, live)
    ensures var key := RequestKey(endpoint, verb, path, body);
            && (RowSurvives(t, live, key, response, now) <==>
                verb == Upper(verb) && forall id :: id in Targets(t, key) ==> |Rivals(t, id, now)| < KEEP)
            && (|RowsOf(t.rows, key)| <= 1 ==>
                (AlwaysRecorded(t, live, key, response, now) <==>
                 verb == Upper(verb) && |OthersAtLeast(t.rows, key, now)| < KEEP))
  {
    hide Upper, Supported, Allowed, RowSurvives, AlwaysRecorded, AlwaysLost;
    var key := RequestKey(endpoint, verb, path, body);
    StorableVerb(verb);
    RowSurvivesExactly(t, live, key, response, now);
    if |RowsOf(t.rows, key)| <= 1 { RecordedExactly(t, live, key, response, now); }
  }

  /** `get` is carried out and leaves no trace, on any table. */
  lemma LowerCaseGetIsLost(t: Table, live: set<int>, endpoint: int, path: string, body: string,
                           response: Response, now: int)
    requires Sound(t, live)
    ensures Supported("get")
    ensures AlwaysLost(t, live, RequestKey(endpoint, "get", path, body), response, now)
  {
    GetIsSupported();
    hide Upper, Supported;
    assert !Allowed("get");
    RefusedIsLost(t, live, RequestKey(endpoint, "get", path, body), response, now);
  }

  lemma GetIsSupported()
    ensures Supported("get")
  {
    assert "get"[1..] == "et" && "et"[1..] == "t" && "t"[1..] == "";
    assert Upper("t") == "T" && Upper("et") == "ET" && Upper("get") == "GET";
  }

  // ----- a history from the future

  const OK := Response(Some(200), None)

  function Path(k: nat): (p: string)
    ensures |p| == k
  {
    if k == 0 then "" else Path(k - 1) + "/"
  }

  /** Requests that differ in their path. */
  function Request(k: nat): Key {
    Key(1, "GET", Path(k), None)
  }

  function Distinct(k: nat): (rows: Rows)
    ensures |rows| == k && forall id: nat :: id in rows <==> 1 <= id <= k
    ensures forall id: nat :: 1 <= id <= k ==> rows[id] == Row(Request(id), OK, 0)
  {
    if k == 0 then map[] else Distinct(k - 1)[k := Row(Request(k), OK, 0)]
  }

  lemma FutureHistory(k: nat, key: Key, now: int)
    requires key.verb == "POST" && now < 0
    ensures Sound(Table(Distinct(k), k), {1}) && RowsOf(Distinct(k), key) == {}
    ensures |OthersNewer(Distinct(k), key, now)| == k
  {
    var rows := Distinct(k);
    hide Distinct, Path;
    assert OthersNewer(rows, key, now) == rows.Keys;
    Counts(rows, 0);
  }

  /** When the clock has been set back after 200 requests, a new one is stored and at once
      deleted again. */
  lemma ClockSetBack(now: int, path: string, response: Response)
    requires now < 0
    ensures var t, key := Table(Distinct(KEEP), KEEP), Key(1, "POST", path, None);
            Sound(t, {1}) && Insertable(key, {1}) && AlwaysLost(t, {1}, key, response, now)
  {
    var key := Key(1, "POST", path, None);
    hide Distinct, Sound, AlwaysLost, AlwaysRecorded, RowsOf, OthersNewer, OthersAtLeast, Recorded;
    FutureHistory(KEEP, key, now);
    RecordedExactly(Table(Distinct(KEEP), KEEP), {1}, key, response, now);
  }
}
