/** One request at a time, the history is a least-recently-used list of distinct requests,
    with endpoints being created and deleted in between. */
module HistoryLru {
  import opened Options
  import opened HistoryTable

  datatype Entry = Entry(key: Key, response: Response)
  datatype Execution = Execution(key: Key, response: Response, now: int)

  /** The list without the entry for `key`. */
  function Without(lru: seq<Entry>, key: Key): (r: seq<Entry>)
    ensures |r| <= |lru|
  {
    if lru == [] then []
    else if lru[0].key == key then Without(lru[1..], key)
    else [lru[0]] + Without(lru[1..], key)
  }

  function Take<T>(s: seq<T>, n: nat): (r: seq<T>)
    ensures |r| <= n && r <= s
  {
    if n < |s| then s[..n] else s
  }

  /** A hit moves to the front, a miss is pushed, an overflow drops the oldest. */
  function Touch(lru: seq<Entry>, e: Entry): (r: seq<Entry>)
    ensures |r| <= KEEP
  {
    Take([e] + Without(lru, e.key), KEEP)
  }

  /** Which endpoints a query or a deletion is about. */
  datatype Scope = Everywhere | Within(endpoint: int) | Outside(endpoint: int)

  predicate Covers(scope: Scope, endpoint: int) {
    match scope
    case Everywhere => true
    case Within(e) => endpoint == e
    case Outside(e) => endpoint != e
  }

  /** The entries of some endpoints, in the order of the list. */
  function EntriesFor(lru: seq<Entry>, scope: Scope): (r: seq<Entry>)
    ensures |r| <= |lru|
  {
    if lru == [] then []
    else
      var rest := EntriesFor(lru[1..], scope);
      if Covers(scope, lru[0].key.endpoint) then [lru[0]] + rest else rest
  }

  datatype Event =
    | Execute(x: Execution)
    | Created(endpoint: int)
    | Deleted(endpoint: int)

  datatype History = History(lru: seq<Entry>, live: set<int>)

  /** An execution the schema refuses leaves no trace; deleting an endpoint takes its
      entries out of the list. */
  function Happened(h: History, e: Event): History {
    match e
    case Execute(x) =>
      if Insertable(x.key, h.live) then h.(lru := Touch(h.lru, Entry(x.key, x.response))) else h
    case Created(endpoint) => h.(live := h.live + {endpoint})
    case Deleted(endpoint) => History(EntriesFor(h.lru, Outside(endpoint)), h.live - {endpoint})
  }

  /** The list and the live endpoints after a series of events. */
  function LruOf(events: seq<Event>): (h: History)
    ensures |h.lru| <= KEEP
  {
    if events == [] then History([], {})
    else Happened(LruOf(events[..|events| - 1]), events[|events| - 1])
  }

  // ----- the abstraction

  function EntryOf(row: Row): Entry {
    Entry(row.key, row.response)
  }

  function Entries(rows: Rows, ids: seq<nat>): (r: seq<Entry>)
    requires forall id :: id in ids ==> id in rows
    ensures |r| == |ids|
  {
    if ids == [] then [] else [EntryOf(rows[ids[0]])] + Entries(rows, ids[1..])
  }

  /** Every row listed is newer than those after it, and for another request. */
  predicate Ranked(rows: Rows, ids: seq<nat>) {
    ids == [] ||
    (&& ids[0] in rows
     && (forall x :: x in ids[1..] ==>
          x in rows && rows[x].createdAt < rows[ids[0]].createdAt && rows[x].key != rows[ids[0]].key)
     && Ranked(rows, ids[1..]))
  }

  ghost predicate IsHistory(rows: Rows, ids: seq<nat>) {
    (forall id :: id in ids <==> id in rows) && Ranked(rows, ids)
  }

  /** `ids` lists exactly the rows, from the newest to the oldest, all at different times
      and for different requests, and `lru` is what they hold. */
  ghost predicate Represents(rows: Rows, ids: seq<nat>, lru: seq<Entry>) {
    IsHistory(rows, ids) && lru == Entries(rows, ids)
  }

  /** An order by time, read from the front. */
  predicate Descending(rows: Rows, ids: seq<nat>) {
    ids == [] ||
    (&& ids[0] in rows && ids[0] !in ids[1..]
     && (forall x :: x in ids[1..] ==> x in rows && rows[x].createdAt <= rows[ids[0]].createdAt)
     && Descending(rows, ids[1..]))
  }

  lemma {:induction false} OrderDescends(rows: Rows, ids: seq<nat>)
    requires forall id :: id in ids ==> id in rows
    requires forall i, j :: 0 <= i < j < |ids| ==> ids[i] != ids[j]
    requires forall i, j :: 0 <= i < j < |ids| ==> rows[ids[i]].createdAt >= rows[ids[j]].createdAt
    ensures Descending(rows, ids)
  {
    if ids != [] { OrderDescends(rows, ids[1..]); }
  }

  /** With distinct times the order is unique. */
  lemma {:induction false} OrderUnique(rows: Rows, ids: seq<nat>, order: seq<nat>)
    requires Ranked(rows, ids) && Descending(rows, order)
    requires forall id :: id in order <==> id in ids
    ensures order == ids
  {
    assert ids != [] ==> ids[0] in order;
    assert order != [] ==> order[0] in ids;
    if ids != [] {
      assert order[0] == ids[0];
      forall id ensures id in order[1..] <==> id in ids[1..] {
        assert id in order <==> id == order[0] || id in order[1..];
        assert id in ids <==> id == ids[0] || id in ids[1..];
      }
      OrderUnique(rows, ids[1..], order[1..]);
    }
  }

  // ----- saving

  function Drop(ids: seq<nat>, id: nat): (r: seq<nat>)
    ensures forall x :: x in r <==> x in ids && x != id
  {
    if ids == [] then [] else if ids[0] == id then Drop(ids[1..], id) else [ids[0]] + Drop(ids[1..], id)
  }

  /** Dropping the row of `key` is dropping the entry of `key`, and keeps the ranking. */
  lemma {:induction false} DropIsWithout(rows: Rows, ids: seq<nat>, id: nat, key: Key)
    requires Ranked(rows, ids)
    requires forall x :: x in ids ==> x in rows && (x == id <==> rows[x].key == key)
    ensures Entries(rows, Drop(ids, id)) == Without(Entries(rows, ids), key)
    ensures Ranked(rows, Drop(ids, id))
  {
    if ids != [] {
      DropIsWithout(rows, ids[1..], id, key);
      var rest := Drop(ids[1..], id);
      assert Entries(rows, ids)[1..] == Entries(rows, ids[1..]);
      if ids[0] != id { Prepended(rows, ids[0], rest); }
    }
  }

  lemma Prepended(rows: Rows, id: nat, rest: seq<nat>)
    requires id in rows && forall x :: x in rest ==> x in rows
    ensures Entries(rows, [id] + rest) == [EntryOf(rows[id])] + Entries(rows, rest)
    ensures Ranked(rows, [id] + rest) <==>
            Ranked(rows, rest) && forall x :: x in rest ==>
              rows[x].createdAt < rows[id].createdAt && rows[x].key != rows[id].key
  {
    assert ([id] + rest)[1..] == rest;
  }

  lemma {:induction false} SameRows(rows: Rows, rows': Rows, ids: seq<nat>)
    requires forall x :: x in ids ==> x in rows && x in rows' && rows'[x] == rows[x]
    ensures Entries(rows', ids) == Entries(rows, ids)
    ensures Ranked(rows', ids) <==> Ranked(rows, ids)
  {
    if ids != [] { SameRows(rows, rows', ids[1..]); }
  }

  /** A row put under a later time becomes the front of the list. */
  lemma PutInFront(rows: Rows, ids: seq<nat>, id: nat, row: Row)
    requires IsHistory(rows, ids)
    requires forall x :: x in rows ==> rows[x].createdAt < row.createdAt
    requires forall x :: x in rows ==> (x == id <==> rows[x].key == row.key)
    ensures Represents(rows[id := row], [id] + Drop(ids, id),
                       [EntryOf(row)] + Without(Entries(rows, ids), row.key))
  {
    var rows', rest := rows[id := row], Drop(ids, id);
    DropIsWithout(rows, ids, id, row.key);
    SameRows(rows, rows', rest);
    Prepended(rows', id, rest);
  }

  lemma {:induction false} OneRowPerKey(rows: Rows, ids: seq<nat>, a: nat, b: nat)
    requires Ranked(rows, ids) && a in ids && b in ids
    requires a in rows && b in rows && rows[a].key == rows[b].key
    ensures a == b
  {
    if a != ids[0] && b != ids[0] { OneRowPerKey(rows, ids[1..], a, b); }
  }

  lemma SavedRepresents(t: Table, live: set<int>, x: Execution, mid: Table, id: Option<nat>, ids: seq<nat>)
    returns (ids': seq<nat>)
    requires Sound(t, live) && IsHistory(t.rows, ids)
    requires forall r :: r in t.rows ==> t.rows[r].createdAt < x.now
    requires Saved(t, live, x.key, x.response, x.now, mid, id)
    ensures Represents(mid.rows, ids',
              if Insertable(x.key, live)
              then [Entry(x.key, x.response)] + Without(Entries(t.rows, ids), x.key)
              else Entries(t.rows, ids))
  {
    var row := Row(x.key, x.response, x.now);
    if RowsOf(t.rows, x.key) != {} {
      var r := id.value;
      forall o | o in t.rows && t.rows[o].key == x.key ensures o == r {
        OneRowPerKey(t.rows, ids, o, r);
      }
      PutInFront(t.rows, ids, r, row);
      ids' := [r] + Drop(ids, r);
    } else {
      forall o | o in t.rows ensures t.rows[o].key != x.key {
        assert o !in RowsOf(t.rows, x.key);
      }
      ids' := ids;
      if Insertable(x.key, live) {
        PutInFront(t.rows, ids, t.lastId + 1, row);
        ids' := [t.lastId + 1] + Drop(ids, t.lastId + 1);
      }
    }
  }

  // ----- cleaning up

  lemma {:induction false} TakeEntries(rows: Rows, ids: seq<nat>, n: nat)
    requires Ranked(rows, ids) && forall x :: x in ids ==> x in rows
    ensures forall x :: x in Take(ids, n) ==> x in ids
    ensures Ranked(rows, Take(ids, n)) && Entries(rows, Take(ids, n)) == Take(Entries(rows, ids), n)
  {
    if ids != [] && n > 0 {
      var id, tail := ids[0], ids[1..];
      assert ids == [id] + tail;
      Prepended(rows, id, tail);
      TakeEntries(rows, tail, n - 1);
      hide Ranked, Entries, Take;
      TakeStep(rows, id, tail, n);
    }
  }

  lemma TakeStep(rows: Rows, id: nat, tail: seq<nat>, n: nat)
    requires n > 0 && id in rows && Ranked(rows, [id] + tail) && forall x :: x in tail ==> x in rows
    requires forall x :: x in Take(tail, n - 1) ==> x in tail
    requires Ranked(rows, Take(tail, n - 1)) && Entries(rows, Take(tail, n - 1)) == Take(Entries(rows, tail), n - 1)
    ensures forall x :: x in Take([id] + tail, n) ==> x in [id] + tail
    ensures Ranked(rows, Take([id] + tail, n))
    ensures Entries(rows, Take([id] + tail, n)) == Take(Entries(rows, [id] + tail), n)
  {
    hide Ranked, Entries, Take;
    Prepended(rows, id, tail);
    TakeCons(id, tail, n);
    TakeCons(EntryOf(rows[id]), Entries(rows, tail), n);
    Prepended(rows, id, Take(tail, n - 1));
  }

  lemma TakeCons<T>(x: T, xs: seq<T>, n: nat)
    requires n > 0
    ensures Take([x] + xs, n) == [x] + Take(xs, n - 1)
  {
  }

  lemma CleanedRepresents(rows: Rows, keepLast: nat, rows': Rows, ids: seq<nat>)
    requires IsHistory(rows, ids) && Cleaned(rows, keepLast, rows')
    ensures Represents(rows', Take(ids, keepLast), Take(Entries(rows, ids), keepLast))
  {
    var order :| CleanedBy(rows, keepLast, rows', order);
    OrderDescends(rows, order);
    OrderUnique(rows, ids, order);
    var kept := Take(ids, keepLast);
    assert kept == order[..Limited(keepLast, |order|)];
    TakeEntries(rows, ids, keepLast);
    SameRows(rows, rows', kept);
  }

  lemma SavedSound(t: Table, live: set<int>, x: Execution, mid: Table, id: Option<nat>)
    requires Sound(t, live) && forall r :: r in t.rows ==> t.rows[r].createdAt < x.now
    requires Saved(t, live, x.key, x.response, x.now, mid, id)
    ensures Sound(mid, live) && forall r :: r in mid.rows ==> mid.rows[r].createdAt <= x.now
  {
  }

  lemma RecordedSound(t: Table, live: set<int>, x: Execution, t': Table, mid: Table, id: Option<nat>)
    requires Sound(t, live) && forall r :: r in t.rows ==> t.rows[r].createdAt < x.now
    requires RecordedVia(t, live, x.key, x.response, x.now, t', mid, id)
    ensures Sound(t', live) && forall r :: r in t'.rows ==> t'.rows[r].createdAt <= x.now
  {
    SavedSound(t, live, x, mid, id);
  }

  /** One execution on a represented table is one touch of the list. */
  lemma ExecutionStep(t: Table, live: set<int>, x: Execution, t': Table, ids: seq<nat>, lru: seq<Entry>)
    returns (ids': seq<nat>)
    requires Sound(t, live) && Represents(t.rows, ids, lru) && |lru| <= KEEP
    requires forall r :: r in t.rows ==> t.rows[r].createdAt < x.now
    requires Recorded(t, live, x.key, x.response, x.now, t')
    ensures Represents(t'.rows, ids',
              if Insertable(x.key, live) then Touch(lru, Entry(x.key, x.response)) else lru)
    ensures Sound(t', live) && forall r :: r in t'.rows ==> t'.rows[r].createdAt <= x.now
  {
    var mid, id :| RecordedVia(t, live, x.key, x.response, x.now, t', mid, id);
    RecordedSound(t, live, x, t', mid, id);
    var saved := SavedRepresents(t, live, x, mid, id, ids);
    CleanedRepresents(mid.rows, KEEP, t'.rows, saved);
    ids' := Take(saved, KEEP);
  }

  // ----- some endpoints only

  function IdsFor(rows: Rows, ids: seq<nat>, scope: Scope): (r: seq<nat>)
    requires forall x :: x in ids ==> x in rows
    ensures forall x :: x in r <==> x in ids && Covers(scope, rows[x].key.endpoint)
  {
    if ids == [] then []
    else
      var rest := IdsFor(rows, ids[1..], scope);
      if Covers(scope, rows[ids[0]].key.endpoint) then [ids[0]] + rest else rest
  }

  lemma {:induction false} IdsForEntries(rows: Rows, ids: seq<nat>, scope: Scope)
    requires Ranked(rows, ids) && forall x :: x in ids ==> x in rows
    ensures Entries(rows, IdsFor(rows, ids, scope)) == EntriesFor(Entries(rows, ids), scope)
    ensures Ranked(rows, IdsFor(rows, ids, scope))
  {
    if ids != [] {
      IdsForEntries(rows, ids[1..], scope);
      assert Entries(rows, ids)[1..] == Entries(rows, ids[1..]);
      Prepended(rows, ids[0], IdsFor(rows, ids[1..], scope));
    }
  }

  /** Deleting an endpoint filters the list. */
  lemma CascadeRepresents(t: Table, endpoint: int, ids: seq<nat>, lru: seq<Entry>)
    requires Represents(t.rows, ids, lru)
    ensures var scope := Outside(endpoint);
            Represents(Cascade(t, endpoint).rows, IdsFor(t.rows, ids, scope), EntriesFor(lru, scope))
  {
    var kept := IdsFor(t.rows, ids, Outside(endpoint));
    IdsForEntries(t.rows, ids, Outside(endpoint));
    SameRows(t.rows, Cascade(t, endpoint).rows, kept);
  }

  // ----- runs

  /** The console history: its table and the live endpoints. */
  datatype State = State(table: Table, live: set<int>)

  /** What the methods of the console history do. */
  ghost predicate Follows(s: State, e: Event, s': State) {
    match e
    case Execute(x) => Recorded(s.table, s.live, x.key, x.response, x.now, s'.table) && s'.live == s.live
    case Created(endpoint) => s' == s.(live := s.live + {endpoint})
    case Deleted(endpoint) => s' == State(Cascade(s.table, endpoint), s.live - {endpoint})
  }

  /** The states before, between and after a series of events, one at a time, on an empty
      database. */
  ghost predicate IsRun(events: seq<Event>, states: seq<State>) {
    && |states| == |events| + 1
    && states[0] == State(Table(map[], 0), {})
    && forall i :: 0 <= i < |events| ==> Follows(states[i], events[i], states[i + 1])
  }

  ghost predicate Increasing(events: seq<Event>) {
    forall i, j :: 0 <= i < j < |events| && events[i].Execute? && events[j].Execute? ==>
      events[i].x.now < events[j].x.now
  }

  /** Every row is older than the executions from the `k`-th event on. */
  ghost predicate Earlier(rows: Rows, events: seq<Event>, k: nat) {
    forall r, j :: r in rows && k <= j < |events| && events[j].Execute? ==> rows[r].createdAt < events[j].x.now
  }

  /** Rows after an event are rows from before, or not newer than the execution. */
  ghost predicate Ages(rows: Rows, e: Event, rows': Rows) {
    forall r :: r in rows' ==>
      if e.Execute? then rows'[r].createdAt <= e.x.now else r in rows && rows'[r] == rows[r]
  }

  /** One event on a represented table. */
  lemma EventStep(s: State, e: Event, s': State, ids: seq<nat>, h: History) returns (ids': seq<nat>)
    requires Sound(s.table, s.live) && Represents(s.table.rows, ids, h.lru) && s.live == h.live && |h.lru| <= KEEP
    requires e.Execute? ==> forall r :: r in s.table.rows ==> s.table.rows[r].createdAt < e.x.now
    requires Follows(s, e, s')
    ensures Represents(s'.table.rows, ids', Happened(h, e).lru) && s'.live == Happened(h, e).live
    ensures Sound(s'.table, s'.live) && Ages(s.table.rows, e, s'.table.rows)
  {
    match e
    case Execute(x) => ids' := ExecutionStep(s.table, s.live, x, s'.table, ids, h.lru);
    case Created(endpoint) => ids' := ids;
    case Deleted(endpoint) =>
      CascadeRepresents(s.table, endpoint, ids, h.lru);
      ids' := IdsFor(s.table.rows, ids, Outside(endpoint));
  }

  /** Under strictly increasing times the stored rows, newest first, are the LRU list,
      after every execution, creation and deletion of every run. */
  lemma {:induction false} RunRefinesLru(events: seq<Event>, states: seq<State>, k: nat) returns (ids: seq<nat>)
    requires IsRun(events, states) && Increasing(events) && k <= |events|
    ensures Represents(states[k].table.rows, ids, LruOf(events[..k]).lru)
    ensures states[k].live == LruOf(events[..k]).live
    ensures Sound(states[k].table, states[k].live) && Earlier(states[k].table.rows, events, k)
  {
    if k == 0 {
      ids := [];
    } else {
      var before := RunRefinesLru(events, states, k - 1);
      var s, e, s' := states[k - 1], events[k - 1], states[k];
      assert events[..k][..k - 1] == events[..k - 1] && events[..k][k - 1] == e;
      assert Follows(s, e, s');
      ids := EventStep(s, e, s', before, LruOf(events[..k - 1]));
    }
  }

  // ----- reading

  lemma {:induction false} FetchIsEntries(rows: Rows, ids: seq<nat>, i: nat)
    requires (forall x :: x in ids ==> x in rows) && i < |ids|
    ensures EntryOf(Fetch(rows, ids)[i]) == Entries(rows, ids)[i]
  {
    if i > 0 { FetchIsEntries(rows, ids[1..], i - 1); }
  }

  function Asked(endpoint: Option<int>): Scope {
    if endpoint.None? then Everywhere else Within(endpoint.value)
  }

  /** Reading the history returns the first entries of the list for the endpoint asked. */
  lemma ListedIsPrefix(rows: Rows, ids: seq<nat>, lru: seq<Entry>, limit: nat, endpoint: Option<int>, listed: seq<Row>)
    requires Represents(rows, ids, lru) && Listed(rows, limit, endpoint, listed)
    ensures var wanted := Take(EntriesFor(lru, Asked(endpoint)), limit);
            |listed| == |wanted| && forall i :: 0 <= i < |listed| ==> EntryOf(listed[i]) == wanted[i]
  {
    hide Ranked, Descending, Entries, EntriesFor, IdsFor, Fetch;
    var order :| ListedBy(rows, limit, endpoint, listed, order);
    var shown := ForEndpoint(rows, endpoint);
    var mine := IdsFor(rows, ids, Asked(endpoint));
    IdsForEntries(rows, ids, Asked(endpoint));
    SameRows(rows, shown, mine);
    OrderDescends(shown, order);
    OrderUnique(shown, mine, order);
    forall i | 0 <= i < |order| ensures EntryOf(Fetch(shown, order)[i]) == Entries(shown, order)[i] {
      FetchIsEntries(shown, order, i);
    }
  }
}
