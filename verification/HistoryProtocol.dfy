/** Console requests interleaving statement by statement.

    Saving is a SELECT followed by an UPDATE or an INSERT, then a cleanup, with no
    transaction around them (src/db/mod.rs, src/handlers/console.rs), so any number of
    other requests may act in between; endpoints may also be created and deleted, and a
    request may vanish at any point, as when its client disconnects. */
module HistoryProtocol {
  import opened Options
  import opened HistoryTable

  /** Where a request stands. */
  datatype Phase =
    | Arrived(key: Key, response: Response)
    | SawNone(key: Key, response: Response)
    | SawRow(id: nat, response: Response)
    | ToClean(inserted: bool)

  /** `lost` are the requests that inserted a row but ended without a successful cleanup,
      since the last cleanup that did succeed. */
  datatype State = State(
    live: set<int>, lastEndpoint: nat,
    table: Table,
    flight: map<nat, Phase>, nextRequest: nat,
    lost: set<nat>)

  datatype Action =
    | CreateEndpoint
    | DeleteEndpoint(endpoint: int)
    | Arrive(key: Key, response: Response)
    | SelectNone(r: nat)
    | SelectRow(r: nat, id: nat)
    | UpdateRow(r: nat, now: int)
    | InsertRow(r: nat, now: int)
    | SaveFails(r: nat)
    | Cleanup(r: nat)
    | CleanupFails(r: nat)
    | Vanish(r: nat)

  const START := State({}, 0, Table(map[], 0), map[], 0, {})

  predicate In(s: State, r: nat) {
    r in s.flight
  }

  function Goes(s: State, r: nat, p: Phase): State {
    s.(flight := s.flight[r := p])
  }

  /** A request ends; `clean` tells whether its cleanup succeeded. */
  function Ends(s: State, r: nat): State {
    s.(flight := s.flight - {r},
       lost := if r in s.flight && s.flight[r] == ToClean(true) then s.lost + {r} else s.lost)
  }

  /** One statement of one request, with at most `n` requests in flight. */
  ghost predicate Step(n: nat, s: State, a: Action, s': State) {
    match a
    case CreateEndpoint =>
      s' == s.(live := s.live + {s.lastEndpoint + 1}, lastEndpoint := s.lastEndpoint + 1)
    case DeleteEndpoint(endpoint) =>
      s' == s.(live := s.live - {endpoint}, table := Cascade(s.table, endpoint))
    case Arrive(key, response) =>
      |s.flight| < n
      && s' == Goes(s, s.nextRequest, Arrived(key, response)).(nextRequest := s.nextRequest + 1)
    case SelectNone(r) =>
      In(s, r) && s.flight[r].Arrived? && RowsOf(s.table.rows, s.flight[r].key) == {}
      && s' == Goes(s, r, SawNone(s.flight[r].key, s.flight[r].response))
    case SelectRow(r, id) =>
      In(s, r) && s.flight[r].Arrived? && id in RowsOf(s.table.rows, s.flight[r].key)
      && s' == Goes(s, r, SawRow(id, s.flight[r].response))
    case UpdateRow(r, now) =>
      In(s, r) && s.flight[r].SawRow?
      && s' == Goes(s, r, ToClean(false)).(table := Update(s.table, s.flight[r].id, s.flight[r].response, now))
    case InsertRow(r, now) =>
      In(s, r) && s.flight[r].SawNone? && Insertable(s.flight[r].key, s.live)
      && s' == Goes(s, r, ToClean(true)).(table := Insert(s.table, s.flight[r].key, s.flight[r].response, now))
    case SaveFails(r) =>
      In(s, r) && !s.flight[r].ToClean? && s' == Goes(s, r, ToClean(false))
    case Cleanup(r) =>
      In(s, r) && s.flight[r].ToClean? && s'.table.lastId == s.table.lastId
      && Cleaned(s.table.rows, KEEP, s'.table.rows)
      && s' == s.(flight := s.flight - {r}, table := s'.table, lost := {})
    case CleanupFails(r) =>
      In(s, r) && s.flight[r].ToClean? && s' == Ends(s, r)
    case Vanish(r) =>
      In(s, r) && s' == Ends(s, r)
  }

  /** A run from the empty database: the actions taken and the states before and after. */
  ghost predicate IsRun(n: nat, actions: seq<Action>, states: seq<State>) {
    && |states| == |actions| + 1 && states[0] == START
    && forall i :: 0 <= i < |actions| ==> Step(n, states[i], actions[i], states[i + 1])
  }

  /** A request that nothing disturbs goes through these four statements, and what they
      do to the table together is what the database does for a whole execution. */
  lemma UndisturbedExecution(n: nat, s: State, key: Key, response: Response, now: int, t: Table)
    returns (look: Action, save: Action, s1: State, s2: State, s3: State)
    requires n > 0 && s.flight == map[] && Recorded(s.table, s.live, key, response, now, t)
    ensures look.SelectRow? || look.SelectNone?
    ensures save.UpdateRow? || save.InsertRow? || save.SaveFails?
    ensures Step(n, s, Arrive(key, response), s1) && Step(n, s1, look, s2) && Step(n, s2, save, s3)
    ensures Step(n, s3, Cleanup(s.nextRequest), s.(table := t, nextRequest := s.nextRequest + 1, lost := {}))
  {
    hide Step, Saved, Cleaned;
    var mid, id :| RecordedVia(s.table, s.live, key, response, now, t, mid, id);
    var r := s.nextRequest;
    s1 := Arrives(n, s, key, response);
    look, s2 := Looks(n, s1, r, now, mid, id);
    save, s3 := Saves(n, s1, s2, r, now, mid, id);
    Finishes(n, s, s3, r, save.InsertRow?, mid, t);
  }

  lemma Arrives(n: nat, s: State, key: Key, response: Response) returns (s1: State)
    requires n > 0 && s.flight == map[]
    ensures Step(n, s, Arrive(key, response), s1)
    ensures s1 == s.(flight := map[s.nextRequest := Arrived(key, response)], nextRequest := s.nextRequest + 1)
  {
    s1 := s.(flight := map[s.nextRequest := Arrived(key, response)], nextRequest := s.nextRequest + 1);
    assert s.flight[s.nextRequest := Arrived(key, response)] == s1.flight;
  }

  lemma Looks(n: nat, s: State, r: nat, now: int, mid: Table, id: Option<nat>) returns (a: Action, s': State)
    requires In(s, r) && s.flight[r].Arrived?
    requires Saved(s.table, s.live, s.flight[r].key, s.flight[r].response, now, mid, id)
    ensures Step(n, s, a, s') && (a.SelectRow? || a.SelectNone?)
    ensures s' == Goes(s, r, if RowsOf(s.table.rows, s.flight[r].key) != {}
                             then SawRow(id.value, s.flight[r].response)
                             else SawNone(s.flight[r].key, s.flight[r].response))
  {
    var p := s.flight[r];
    if RowsOf(s.table.rows, p.key) != {} {
      a, s' := SelectRow(r, id.value), Goes(s, r, SawRow(id.value, p.response));
    } else {
      a, s' := SelectNone(r), Goes(s, r, SawNone(p.key, p.response));
    }
  }

  lemma Saves(n: nat, s: State, s2: State, r: nat, now: int, mid: Table, id: Option<nat>)
    returns (a: Action, s3: State)
    requires s.flight.Keys == {r} && s.flight[r].Arrived?
    requires Saved(s.table, s.live, s.flight[r].key, s.flight[r].response, now, mid, id)
    requires s2 == Goes(s, r, if RowsOf(s.table.rows, s.flight[r].key) != {}
                              then SawRow(id.value, s.flight[r].response)
                              else SawNone(s.flight[r].key, s.flight[r].response))
    ensures Step(n, s2, a, s3) && (a.UpdateRow? || a.InsertRow? || a.SaveFails?)
    ensures s3 == s.(flight := map[r := ToClean(a.InsertRow?)], table := mid)
  {
    a := if s2.flight[r].SawRow? then UpdateRow(r, now)
         else if Insertable(s2.flight[r].key, s.live) then InsertRow(r, now) else SaveFails(r);
    s3 := s.(flight := map[r := ToClean(a.InsertRow?)], table := mid);
    assert s2.flight[r := ToClean(a.InsertRow?)] == s3.flight;
  }

  lemma Finishes(n: nat, s: State, s3: State, r: nat, inserted: bool, mid: Table, t: Table)
    requires s.flight == map[] && t.lastId == mid.lastId && Cleaned(mid.rows, KEEP, t.rows)
    requires s3 == s.(flight := map[r := ToClean(inserted)], table := mid, nextRequest := r + 1)
    ensures Step(n, s3, Cleanup(r), s.(table := t, nextRequest := r + 1, lost := {}))
  {
    assert s3.flight - {r} == s.flight;
  }

  // ----- invariants

  /** Requests about to insert a row for `key`, having seen none. */
  function Pending(s: State, key: Key): set<nat> {
    set r | r in s.flight && s.flight[r].SawNone? && s.flight[r].key == key
  }

  /** Requests that have inserted a row and not yet cleaned up. */
  function Owing(s: State): set<nat> {
    set r | r in s.flight && s.flight[r] == ToClean(true)
  }

  ghost predicate Numbered(s: State) {
    && Sound(s.table, s.live)
    && (forall e :: e in s.live ==> e <= s.lastEndpoint)
    && (forall r :: r in s.flight || r in s.lost ==> r < s.nextRequest)
    && s.lost !! s.flight.Keys
  }

  ghost predicate FewDuplicates(n: nat, s: State) {
    |s.flight| <= n && forall key :: |RowsOf(s.table.rows, key)| + |Pending(s, key)| <= n
  }

  ghost predicate Bounded(s: State) {
    |s.table.rows| <= KEEP + |Owing(s)| + |s.lost|
  }

  ghost predicate Inv(n: nat, s: State) {
    Numbered(s) && FewDuplicates(n, s) && Bounded(s)
  }

  lemma StepNumbered(n: nat, s: State, a: Action, s': State)
    requires Numbered(s) && Step(n, s, a, s')
    ensures Numbered(s')
  {
  }

  lemma StepDuplicates(n: nat, s: State, a: Action, s': State, key: Key)
    requires Numbered(s) && Step(n, s, a, s') && FewDuplicates(n, s)
    ensures |RowsOf(s'.table.rows, key)| + |Pending(s', key)| <= n
  {
    assert |RowsOf(s.table.rows, key)| + |Pending(s, key)| <= n;
    match a
    case SelectNone(r) => LookDuplicates(n, s, a, s', key);
    case InsertRow(r, now) => InsertDuplicates(n, s, a, s', key);
    case _ =>
      OtherRows(n, s, a, s', key);
      OtherPending(n, s, a, s', key);
      Fewer(Pending(s', key), Pending(s, key));
      Fewer(RowsOf(s'.table.rows, key), RowsOf(s.table.rows, key));
  }

  lemma LookDuplicates(n: nat, s: State, a: Action, s': State, key: Key)
    requires Numbered(s) && Step(n, s, a, s') && a.SelectNone? && |s.flight| <= n
    ensures |RowsOf(s'.table.rows, key)| + |Pending(s', key)| <= n
            || |RowsOf(s'.table.rows, key)| + |Pending(s', key)| <= |RowsOf(s.table.rows, key)| + |Pending(s, key)|
  {
    if s.flight[a.r].key == key {
      Fewer(Pending(s', key), s'.flight.Keys);
      assert s'.flight.Keys == s.flight.Keys;
    } else {
      assert Pending(s', key) == Pending(s, key);
    }
  }

  /** What an insertion does to the two sets. */
  lemma InsertSets(n: nat, s: State, a: Action, s': State, key: Key)
    requires Numbered(s) && Step(n, s, a, s') && a.InsertRow?
    ensures a.r in s.flight && a.r in Pending(s, s.flight[a.r].key)
    ensures s.table.lastId + 1 !in s.table.rows
    ensures if s.flight[a.r].key == key
            then RowsOf(s'.table.rows, key) == RowsOf(s.table.rows, key) + {s.table.lastId + 1}
                 && Pending(s', key) == Pending(s, key) - {a.r}
            else RowsOf(s'.table.rows, key) == RowsOf(s.table.rows, key) && Pending(s', key) == Pending(s, key)
  {
  }

  lemma InsertDuplicates(n: nat, s: State, a: Action, s': State, key: Key)
    requires Numbered(s) && Step(n, s, a, s') && a.InsertRow?
    ensures |RowsOf(s'.table.rows, key)| + |Pending(s', key)| == |RowsOf(s.table.rows, key)| + |Pending(s, key)|
  {
    InsertSets(n, s, a, s', key);
    hide Step, Numbered, Pending;
    if s.flight[a.r].key == key {
      assert s.table.lastId + 1 !in RowsOf(s.table.rows, key);
    }
  }

  lemma OtherRows(n: nat, s: State, a: Action, s': State, key: Key)
    requires Step(n, s, a, s') && !a.InsertRow?
    ensures RowsOf(s'.table.rows, key) <= RowsOf(s.table.rows, key)
  {
  }

  lemma OtherPending(n: nat, s: State, a: Action, s': State, key: Key)
    requires Step(n, s, a, s') && !a.SelectNone?
    ensures Pending(s', key) <= Pending(s, key)
  {
  }

  lemma StepFlight(n: nat, s: State, a: Action, s': State)
    requires Numbered(s) && Step(n, s, a, s') && |s.flight| <= n
    ensures |s'.flight| <= n
  {
    if a.Arrive? {
      assert s'.flight.Keys == s.flight.Keys + {s.nextRequest};
    } else {
      assert s'.flight.Keys <= s.flight.Keys;
      Fewer(s'.flight.Keys, s.flight.Keys);
    }
    assert |s'.flight| == |s'.flight.Keys| && |s.flight| == |s.flight.Keys|;
  }

  lemma StepBounded(n: nat, s: State, a: Action, s': State)
    requires Numbered(s) && Step(n, s, a, s') && Bounded(s)
    ensures Bounded(s')
  {
    match a
    case Cleanup(r) => CleanedKeepsNewest(s.table.rows, KEEP, s'.table.rows);
    case InsertRow(r, now) => InsertOwes(n, s, a, s');
    case CleanupFails(r) => EndingOwes(s, r);
    case Vanish(r) => EndingOwes(s, r);
    case _ => OthersKeep(n, s, a, s');
  }

  lemma InsertSize(t: Table, key: Key, response: Response, now: int)
    requires t.lastId + 1 !in t.rows
    ensures |Insert(t, key, response, now).rows| == |t.rows| + 1
  {
  }

  lemma InsertOwes(n: nat, s: State, a: Action, s': State)
    requires Numbered(s) && Step(n, s, a, s') && a.InsertRow?
    ensures |s'.table.rows| == |s.table.rows| + 1 && |Owing(s')| == |Owing(s)| + 1 && s'.lost == s.lost
  {
    var p := s.flight[a.r];
    InsertSize(s.table, p.key, p.response, a.now);
    assert Owing(s') == Owing(s) + {a.r} && a.r !in Owing(s);
  }

  lemma EndingOwes(s: State, r: nat)
    requires In(s, r) && r !in s.lost
    ensures Ends(s, r).table == s.table
    ensures |Owing(Ends(s, r))| + |Ends(s, r).lost| == |Owing(s)| + |s.lost|
  {
    var s' := Ends(s, r);
    if s.flight[r] == ToClean(true) {
      assert r in Owing(s) && Owing(s') == Owing(s) - {r};
      assert s'.lost == s.lost + {r};
    } else {
      assert Owing(s') == Owing(s) && s'.lost == s.lost;
    }
  }

  lemma OthersKeep(n: nat, s: State, a: Action, s': State)
    requires Numbered(s) && Step(n, s, a, s')
    requires !a.Cleanup? && !a.InsertRow? && !a.CleanupFails? && !a.Vanish?
    ensures |s'.table.rows| <= |s.table.rows| && |Owing(s)| <= |Owing(s')| && s'.lost == s.lost
  {
    assert s'.table.rows.Keys <= s.table.rows.Keys;
    Fewer(s'.table.rows.Keys, s.table.rows.Keys);
    assert |s'.table.rows| == |s'.table.rows.Keys| && |s.table.rows| == |s.table.rows.Keys|;
    Fewer(Owing(s), Owing(s'));
  }

  // ----- over whole runs

  lemma StartInv(n: nat)
    ensures Inv(n, START)
  {
    assert forall key :: RowsOf(START.table.rows, key) == {} && Pending(START, key) == {};
  }

  lemma {:induction false} RunKeepsInv(n: nat, actions: seq<Action>, states: seq<State>, k: nat)
    requires IsRun(n, actions, states) && k <= |actions|
    ensures Inv(n, states[k])
  {
    hide Step, Numbered, Bounded, Owing, Pending;
    if k == 0 {
      StartInv(n);
    } else {
      RunKeepsInv(n, actions, states, k - 1);
      var s, a, s' := states[k - 1], actions[k - 1], states[k];
      StepNumbered(n, s, a, s');
      StepFlight(n, s, a, s');
      StepBounded(n, s, a, s');
      forall key ensures |RowsOf(s'.table.rows, key)| + |Pending(s', key)| <= n {
        StepDuplicates(n, s, a, s', key);
      }
    }
  }

  /** Every history row names a live endpoint and an allowed method. */
  lemma RowsNameLiveEndpoints(n: nat, actions: seq<Action>, states: seq<State>, k: nat, id: nat)
    requires IsRun(n, actions, states) && k <= |actions| && id in states[k].table.rows
    ensures states[k].table.rows[id].key.endpoint in states[k].live
    ensures Allowed(states[k].table.rows[id].key.verb)
  {
    RunKeepsInv(n, actions, states, k);
  }

  /** The table exceeds 200 rows by no more than the requests that inserted and have not
      cleaned up; with nothing in flight and no cleanup missed it does not exceed 200. */
  lemma {:induction false} RowsBounded(n: nat, actions: seq<Action>, states: seq<State>, k: nat)
    requires IsRun(n, actions, states) && k <= |actions|
    ensures |states[k].table.rows| <= KEEP + |Owing(states[k])| + |states[k].lost|
    ensures (forall i :: 0 <= i < k ==> !actions[i].CleanupFails? && !actions[i].Vanish?) ==>
              states[k].lost == {} && (states[k].flight == map[] ==> |states[k].table.rows| <= KEEP)
  {
    RunKeepsInv(n, actions, states, k);
    if k > 0 { RowsBounded(n, actions, states, k - 1); }
    if states[k].flight == map[] { assert Owing(states[k]) == {}; }
  }

  /** With at most `n` requests in flight, no request is stored more than `n` times. */
  lemma RowsPerKey(n: nat, actions: seq<Action>, states: seq<State>, k: nat, key: Key)
    requires IsRun(n, actions, states) && k <= |actions|
    ensures |RowsOf(states[k].table.rows, key)| + |Pending(states[k], key)| <= n
  {
    RunKeepsInv(n, actions, states, k);
  }

  lemma EndpointStep(n: nat, s: State, a: Action, s': State)
    requires Step(n, s, a, s')
    ensures s.lastEndpoint <= s'.lastEndpoint
    ensures forall e :: e in s'.live ==> e in s.live || e > s.lastEndpoint
  {
  }

  /** Endpoint ids are not reused: one that has been handed out and is gone stays gone. */
  lemma {:induction false} GoneStaysGone(n: nat, actions: seq<Action>, states: seq<State>, j: nat, k: nat, e: int)
    requires IsRun(n, actions, states) && j <= k <= |actions|
    requires e <= states[j].lastEndpoint && e !in states[j].live
    ensures e !in states[k].live && e <= states[k].lastEndpoint
  {
    if j < k {
      GoneStaysGone(n, actions, states, j, k - 1, e);
      EndpointStep(n, states[k - 1], actions[k - 1], states[k]);
    }
  }

  /** The id kept in the selection cookie since state `i` resolves, in any later state `k`,
      only if its endpoint has been there all along: to that one or to none. */
  lemma CookieResolvesToChosen(n: nat, actions: seq<Action>, states: seq<State>, i: nat, j: nat, k: nat, e: int)
    requires IsRun(n, actions, states) && i <= j <= k <= |actions|
    requires e in states[i].live && e in states[k].live
    ensures e in states[j].live
  {
    RunKeepsInv(n, actions, states, i);
    IdsGrow(n, actions, states, i, j);
    if e !in states[j].live { GoneStaysGone(n, actions, states, j, k, e); }
  }

  lemma {:induction false} IdsGrow(n: nat, actions: seq<Action>, states: seq<State>, i: nat, j: nat)
    requires IsRun(n, actions, states) && i <= j <= |actions|
    ensures states[i].lastEndpoint <= states[j].lastEndpoint
  {
    if i < j {
      IdsGrow(n, actions, states, i, j - 1);
      EndpointStep(n, states[j - 1], actions[j - 1], states[j]);
    }
  }
}
