/** The bounds of the interleaved console history are attained: runs that reach them. */
module HistoryBounds {
  import opened Options
  import opened HistoryTable
  import opened HistoryRecorded
  import opened HistoryProtocol

  /** Some run leaves `key` stored `m` times. */
  ghost predicate Stores(n: nat, key: Key, m: nat, actions: seq<Action>, states: seq<State>) {
    IsRun(n, actions, states) && |RowsOf(states[|actions|].table.rows, key)| == m
  }

  /** The bound is exact: with at most `n` requests in flight the same request can come to
      be stored `m` times if and only if `m <= n`.  It takes `m` requests that all look
      before any of them inserts. */
  lemma DuplicatesExactly(n: nat, m: nat)
    ensures (exists actions, states, key :: Stores(n, key, m, actions, states)) <==> m <= n
  {
    if actions, states, key :| Stores(n, key, m, actions, states) {
      RowsPerKey(n, actions, states, |actions|, key);
    }
    if m <= n {
      InsertMany(n, m, m);
      var actions, states :| IsRun(n, actions, states) && states[|actions|] == Inserted(m, m);
      assert Stores(n, ROOT, m, actions, states);
    }
  }

  /** The history is free of duplicates, in every state of every run, exactly when requests
      come one at a time. */
  lemma NoDuplicatesIffSequential(n: nat)
    ensures (forall actions, states, key, m: nat :: Stores(n, key, m, actions, states) ==> m <= 1) <==> n <= 1
  {
    forall actions, states, key, m: nat | Stores(n, key, m, actions, states) ensures m <= n {
      RowsPerKey(n, actions, states, |actions|, key);
    }
    if n >= 2 {
      DuplicatesExactly(n, 2);
      var actions, states, key :| Stores(n, key, 2, actions, states);
    }
  }

  const ROOT := Key(1, "GET", "/", None)

  /** The numbers below `k`. */
  function Below(k: nat): (s: set<nat>)
    ensures |s| == k && forall r: nat :: r in s <==> r < k
  {
    if k == 0 then {} else Below(k - 1) + {k - 1}
  }

  /** `k` rows for the same thing. */
  function Copies(k: nat): (rows: Rows)
    ensures |rows| == k && forall id: nat :: id in rows <==> 1 <= id <= k
    ensures RowsOf(rows, ROOT) == rows.Keys
  {
    if k == 0 then map[] else Copies(k - 1)[k := Row(ROOT, OK, 0)]
  }

  /** `k` requests for the same thing have arrived. */
  function Asked(k: nat): State {
    State({1}, 1, Table(map[], 0), map r | r in Below(k) :: Arrived(ROOT, OK), k, {})
  }

  /** Of `m` requests the first `k` have looked and found nothing. */
  function Looked(m: nat, k: nat): State {
    Asked(m).(flight := map r | r in Below(m) :: if r < k then SawNone(ROOT, OK) else Arrived(ROOT, OK))
  }

  /** Of `m` requests that have all looked the first `k` have inserted. */
  function Inserted(m: nat, k: nat): State {
    Asked(m).(flight := map r | r in Below(m) :: if r < k then ToClean(true) else SawNone(ROOT, OK),
              table := Table(Copies(k), k))
  }

  lemma Extend(n: nat, actions: seq<Action>, states: seq<State>, last: State, a: Action, s: State)
    returns (actions': seq<Action>, states': seq<State>)
    requires IsRun(n, actions, states) && states[|actions|] == last && Step(n, last, a, s)
    ensures IsRun(n, actions', states') && states'[|actions'|] == s
  {
    actions', states' := actions + [a], states + [s];
  }

  ghost predicate Reachable(n: nat, s: State) {
    exists actions, states :: IsRun(n, actions, states) && states[|actions|] == s
  }

  lemma ReachStep(n: nat, s: State, a: Action, s': State)
    requires Reachable(n, s) && Step(n, s, a, s')
    ensures Reachable(n, s')
  {
    var actions, states :| IsRun(n, actions, states) && states[|actions|] == s;
    actions, states := Extend(n, actions, states, s, a, s');
  }

  lemma AskedNext(k: nat)
    ensures Asked(k).flight[k := Arrived(ROOT, OK)] == Asked(k + 1).flight
  {
    assert Asked(k + 1).flight.Keys == Below(k + 1) == Below(k) + {k};
  }

  lemma AskStep(n: nat, k: nat)
    requires k < n
    ensures Step(n, Asked(k), Arrive(ROOT, OK), Asked(k + 1))
  {
    AskedCount(k);
    AskedNext(k);
  }

  lemma AskedCount(k: nat)
    ensures |Asked(k).flight| == k
  {
    var flight := Asked(k).flight;
    assert flight.Keys == Below(k) && |flight| == |flight.Keys|;
  }

  lemma LookedNone(m: nat)
    ensures Looked(m, 0) == Asked(m)
  {
    assert Looked(m, 0).flight == Asked(m).flight;
  }

  lemma LookStep(n: nat, m: nat, k: nat)
    requires k < m
    ensures Step(n, Looked(m, k), SelectNone(k), Looked(m, k + 1))
  {
    var s, s' := Looked(m, k), Looked(m, k + 1);
    assert s.flight[k := SawNone(ROOT, OK)] == s'.flight;
    assert RowsOf(s.table.rows, ROOT) == {};
  }

  lemma InsertStep(n: nat, m: nat, k: nat)
    requires k < m
    ensures Step(n, Inserted(m, k), InsertRow(k, 0), Inserted(m, k + 1))
  {
    InsertedFlight(m, k);
    InsertedTable(m, k);
  }

  lemma InsertedFlight(m: nat, k: nat)
    requires k < m
    ensures k in Inserted(m, k).flight && Inserted(m, k).flight[k] == SawNone(ROOT, OK)
    ensures Inserted(m, k).flight[k := ToClean(true)] == Inserted(m, k + 1).flight
  {
  }

  lemma InsertedTable(m: nat, k: nat)
    ensures Insert(Inserted(m, k).table, ROOT, OK, 0) == Inserted(m, k + 1).table
  {
  }

  lemma InsertedNone(m: nat)
    ensures Inserted(m, 0) == Looked(m, m)
  {
    assert Inserted(m, 0).flight == Looked(m, m).flight;
  }

  lemma FirstStep(n: nat)
    ensures Step(n, START, CreateEndpoint, Asked(0))
  {
    assert Asked(0).flight == map[];
  }

  lemma ReachFirst(n: nat)
    ensures Reachable(n, Asked(0))
  {
    FirstStep(n);
    var actions, states := Extend(n, [], [START], START, CreateEndpoint, Asked(0));
  }

  lemma {:induction false} ArriveMany(n: nat, k: nat)
    requires k <= n
    ensures Reachable(n, Asked(k))
  {
    hide *;
    if k == 0 {
      ReachFirst(n);
    } else {
      ArriveMany(n, k - 1);
      AskStep(n, k - 1);
      ReachStep(n, Asked(k - 1), Arrive(ROOT, OK), Asked(k));
    }
  }

  lemma {:induction false} LookMany(n: nat, m: nat, k: nat)
    requires k <= m <= n
    ensures Reachable(n, Looked(m, k))
  {
    hide *;
    if k == 0 {
      ArriveMany(n, m);
      LookedNone(m);
    } else {
      LookMany(n, m, k - 1);
      LookStep(n, m, k - 1);
      ReachStep(n, Looked(m, k - 1), SelectNone(k - 1), Looked(m, k));
    }
  }

  lemma {:induction false} InsertMany(n: nat, m: nat, k: nat)
    requires k <= m <= n
    ensures Reachable(n, Inserted(m, k))
  {
    hide *;
    if k == 0 {
      LookMany(n, m, m);
      InsertedNone(m);
    } else {
      InsertMany(n, m, k - 1);
      InsertStep(n, m, k - 1);
      ReachStep(n, Inserted(m, k - 1), InsertRow(k - 1, 0), Inserted(m, k));
    }
  }

  // ----- the bound on the number of rows is attained

  /** The numbers from `a` up to but not including `b`. */
  function Between(a: nat, b: nat): (s: set<nat>)
    requires a <= b
    ensures |s| == b - a && forall r: nat :: r in s <==> a <= r < b
    decreases b
  {
    if a == b then {} else Between(a, b - 1) + {b - 1}
  }

  function Owed(a: nat, b: nat): map<nat, Phase>
    requires a <= b
  {
    map r | r in Between(a, b) :: ToClean(true)
  }

  /** Of `k` requests, each for something else, the first `c` have cleaned up, those up to
      `b` have vanished after inserting, and the rest have inserted and not cleaned up. */
  function Grown(c: nat, b: nat, k: nat): State
    requires c <= b <= k
  {
    State({1}, 1, Table(Distinct(k), k), Owed(b, k), k, Between(c, b))
  }

  lemma GrownSizes(c: nat, b: nat, k: nat)
    requires c <= b <= k
    ensures var s := Grown(c, b, k);
            |s.table.rows| == k && |Owing(s)| == k - b && |s.lost| == b - c && |s.flight| == k - b
  {
    var s := Grown(c, b, k);
    assert s.flight.Keys == Between(b, k) == Owing(s);
    assert |s.flight| == |s.flight.Keys|;
  }

  /** A request for something new, up to its cleanup. */
  lemma ReachInsert(n: nat, s: State, key: Key)
    requires Reachable(n, s) && |s.flight| < n
    requires RowsOf(s.table.rows, key) == {} && Insertable(key, s.live)
    ensures Reachable(n, Goes(s, s.nextRequest, ToClean(true)).(nextRequest := s.nextRequest + 1,
                                                                table := Insert(s.table, key, OK, 0)))
  {
    var r := s.nextRequest;
    var s1 := Goes(s, r, Arrived(key, OK)).(nextRequest := r + 1);
    var s2 := Goes(s1, r, SawNone(key, OK));
    var s3 := Goes(s2, r, ToClean(true)).(table := Insert(s.table, key, OK, 0));
    ReachStep(n, s, Arrive(key, OK), s1);
    ReachStep(n, s1, SelectNone(r), s2);
    ReachStep(n, s2, InsertRow(r, 0), s3);
    assert s3.flight == s.flight[r := ToClean(true)];
  }

  lemma NothingStored(k: nat)
    ensures RowsOf(Distinct(k), Request(k + 1)) == {}
  {
    forall id | id in Distinct(k) ensures Distinct(k)[id].key != Request(k + 1) {
      assert |Request(id).path| == id;
    }
  }

  lemma OwedNext(a: nat, b: nat)
    requires a <= b
    ensures Owed(a, b)[b := ToClean(true)] == Owed(a, b + 1)
  {
    var m, m' := Owed(a, b)[b := ToClean(true)], Owed(a, b + 1);
    assert m.Keys == Between(a, b) + {b};
    assert m'.Keys == Between(a, b + 1);
  }

  lemma DistinctNext(k: nat)
    ensures Distinct(k)[k + 1 := Row(Request(k + 1), OK, 0)] == Distinct(k + 1)
  {
  }

  lemma GrowInsert(n: nat, c: nat, b: nat, k: nat)
    requires c <= b <= k && k - b < n && Reachable(n, Grown(c, b, k))
    ensures Reachable(n, Grown(c, b, k + 1))
  {
    hide Reachable, Distinct, Owed, Between, Path;
    GrownSizes(c, b, k);
    NothingStored(k);
    ReachInsert(n, Grown(c, b, k), Request(k + 1));
    OwedNext(b, k);
    DistinctNext(k);
  }

  lemma KeepsAll(rows: Rows, keepLast: nat)
    requires |rows| <= keepLast && forall id :: id in rows ==> rows[id].createdAt == 0
    ensures Cleaned(rows, keepLast, rows)
  {
    var order := AnyOrder(rows, rows.Keys);
    OrderLength(rows, order);
    assert order[..Limited(keepLast, |order|)] == order;
    assert Only(rows, order) == rows;
    assert CleanedBy(rows, keepLast, rows, order);
  }

  lemma AnyOrder(rows: Rows, ids: set<nat>) returns (order: seq<nat>)
    ensures forall id :: id in order <==> id in ids
    ensures forall i, j :: 0 <= i < j < |order| ==> order[i] != order[j]
  {
    if ids == {} {
      order := [];
    } else {
      var id :| id in ids;
      order := AnyOrder(rows, ids - {id});
      order := order + [id];
    }
  }

  lemma GrowCleaned(n: nat, c: nat)
    requires c < KEEP && Reachable(n, Grown(c, c, c + 1))
    ensures Reachable(n, Grown(c + 1, c + 1, c + 1))
  {
    var s, s' := Grown(c, c, c + 1), Grown(c + 1, c + 1, c + 1);
    KeepsAll(s.table.rows, KEEP);
    assert s.flight - {c} == s'.flight;
    ReachStep(n, s, Cleanup(c), s');
  }

  lemma GrowLost(n: nat, c: nat, b: nat)
    requires c <= b && Reachable(n, Grown(c, b, b + 1))
    ensures Reachable(n, Grown(c, b + 1, b + 1))
  {
    var s, s' := Grown(c, b, b + 1), Grown(c, b + 1, b + 1);
    assert s.flight - {b} == s'.flight;
    assert s.lost + {b} == s'.lost;
    ReachStep(n, s, Vanish(b), s');
  }

  lemma GrowNothing(n: nat)
    ensures Reachable(n, Grown(0, 0, 0))
  {
    ReachFirst(n);
    assert Grown(0, 0, 0).flight == Asked(0).flight;
  }

  lemma {:induction false} GrowCleaning(n: nat, c: nat)
    requires 1 <= n && c <= KEEP
    ensures Reachable(n, Grown(c, c, c))
  {
    if c == 0 {
      GrowNothing(n);
    } else {
      GrowCleaning(n, c - 1);
      GrowInsert(n, c - 1, c - 1, c - 1);
      GrowCleaned(n, c - 1);
    }
  }

  lemma {:induction false} GrowLosing(n: nat, c: nat, b: nat)
    requires 1 <= n && c <= KEEP && c <= b
    ensures Reachable(n, Grown(c, b, b))
    decreases b
  {
    hide *;
    if b == c {
      GrowCleaning(n, c);
    } else {
      GrowLosing(n, c, b - 1);
      GrowInsert(n, c, b - 1, b - 1);
      GrowLost(n, c, b - 1);
    }
  }

  lemma {:induction false} GrowOwing(n: nat, c: nat, b: nat, k: nat)
    requires 1 <= n && c <= KEEP && c <= b <= k <= b + n
    ensures Reachable(n, Grown(c, b, k))
    decreases k
  {
    hide *;
    if k == b {
      GrowLosing(n, c, b);
    } else {
      GrowOwing(n, c, b, k - 1);
      GrowInsert(n, c, b, k - 1);
    }
  }

  /** So many requests owe a cleanup, so many were lost, and there are as many rows as the
      bound then allows. */
  ghost predicate Full(s: State, owing: nat, lost: nat) {
    |Owing(s)| == owing && |s.lost| == lost && |s.table.rows| == KEEP + owing + lost
  }

  lemma FullNeeds(n: nat, s: State, owing: nat, lost: nat)
    requires Reachable(n, s) && Full(s, owing, lost)
    ensures 1 <= n && owing <= n
  {
    var actions, states :| IsRun(n, actions, states) && states[|actions|] == s;
    RunKeepsInv(n, actions, states, |actions|);
    Fewer(Owing(s), s.flight.Keys);
    assert |s.flight| == |s.flight.Keys|;
    var id :| id in s.table.rows;
    var key := s.table.rows[id].key;
    Fewer({id}, RowsOf(s.table.rows, key));
    assert |RowsOf(s.table.rows, key)| + |Pending(s, key)| <= n;
  }

  /** The bound of `RowsBounded` is attained, for any numbers of requests owing a cleanup
      and lost, if and only if that many can be in flight. */
  lemma RowsExactly(n: nat, owing: nat, lost: nat)
    ensures (exists s :: Reachable(n, s) && Full(s, owing, lost)) <==> 1 <= n && owing <= n
  {
    if s :| Reachable(n, s) && Full(s, owing, lost) {
      FullNeeds(n, s, owing, lost);
    }
    if 1 <= n && owing <= n {
      var b, k := KEEP + lost, KEEP + lost + owing;
      GrowOwing(n, KEEP, b, k);
      GrownSizes(KEEP, b, k);
      assert Full(Grown(KEEP, b, k), owing, lost);
    }
  }
}
