/** Filtering, grouping and counting shards (src/handlers/shards.rs). */
module ShardGroups {
  import opened Options
  import opened ShardPatterns

  /** A row of the response; a field that is missing or not a string is `None`. */
  datatype Item = Item(index: Option<string>, shard: Option<string>, prirep: Option<string>,
                       state: Option<string>, docs: Option<string>, store: Option<string>,
                       node: Option<string>, unassignedReason: Option<string>)

  datatype Shard = Shard(index: string, shard: string, prirep: string, state: string, docs: string,
                         store: string, node: string, unassignedReason: Option<string>)

  function Or(field: Option<string>, default: string): string {
    if field.Some? then field.value else default
  }

  function ShardOf(i: Item): Shard {
    Shard(Or(i.index, ""), Or(i.shard, ""), Or(i.prirep, ""), Or(i.state, ""), Or(i.docs, "0"),
          Or(i.store, "0b"), Or(i.node, "UNASSIGNED"), i.unassignedReason)
  }

  /** The shards whose index name the pattern accepts, in the order of the response. */
  function Filtered(items: seq<Item>, pattern: string): seq<Shard> {
    if items == [] then []
    else
      var last := ShardOf(items[|items| - 1]);
      Filtered(items[..|items| - 1], pattern) + if Accepts(last.index, pattern) then [last] else []
  }

  /** The shards of one node, in order. */
  function OfNode(shards: seq<Shard>, node: string): seq<Shard> {
    if shards == [] then []
    else
      var last := shards[|shards| - 1];
      OfNode(shards[..|shards| - 1], node) + if last.node == node then [last] else []
  }

  datatype Kind = All | Primary | Replica | Started | Relocating | Unassigned

  predicate Is(k: Kind, s: Shard) {
    match k
    case All => true
    case Primary => s.prirep == "p"
    case Replica => s.prirep == "r"
    case Started => s.state == "STARTED"
    case Relocating => s.state == "RELOCATING"
    case Unassigned => s.state == "UNASSIGNED"
  }

  function Count(k: Kind, shards: seq<Shard>): nat {
    if shards == [] then 0
    else Count(k, shards[..|shards| - 1]) + if Is(k, shards[|shards| - 1]) then 1 else 0
  }

  function Positions(k: Kind, shards: seq<Shard>): set<nat> {
    set i | 0 <= i < |shards| && Is(k, shards[i])
  }

  lemma PositionsSnoc(k: Kind, front: seq<Shard>, last: Shard)
    ensures |Positions(k, front + [last])| == |Positions(k, front)| + if Is(k, last) then 1 else 0
  {
    hide Is;
    var a, n, all := Positions(k, front), |front|, front + [last];
    forall i: nat ensures i in Positions(k, all) <==> i in a || (i == n && Is(k, last)) {
      assert i < n ==> all[i] == front[i];
    }
    assert n !in a;
    if Is(k, last) { assert Positions(k, all) == a + {n}; } else { assert Positions(k, all) == a; }
  }

  lemma {:induction false} CountIsSize(k: Kind, shards: seq<Shard>)
    ensures Count(k, shards) == |Positions(k, shards)|
  {
    if shards == [] {
      assert Positions(k, shards) == {};
    } else {
      hide Positions, Is;
      var front, last := shards[..|shards| - 1], shards[|shards| - 1];
      CountIsSize(k, front);
      PositionsSnoc(k, front, last);
      assert shards == front + [last];
    }
  }

  lemma CountsRead(shards: seq<Shard>)
    ensures Count(Primary, shards) == |set i | 0 <= i < |shards| && shards[i].prirep == "p"|
    ensures Count(Replica, shards) == |set i | 0 <= i < |shards| && shards[i].prirep == "r"|
    ensures Count(Started, shards) == |set i | 0 <= i < |shards| && shards[i].state == "STARTED"|
    ensures Count(Relocating, shards) == |set i | 0 <= i < |shards| && shards[i].state == "RELOCATING"|
    ensures Count(Unassigned, shards) == |set i | 0 <= i < |shards| && shards[i].state == "UNASSIGNED"|
  {
    hide Count;
    CountIsSize(Primary, shards);
    CountIsSize(Replica, shards);
    CountIsSize(Started, shards);
    CountIsSize(Relocating, shards);
    CountIsSize(Unassigned, shards);
    assert Positions(Primary, shards) == set i | 0 <= i < |shards| && shards[i].prirep == "p";
    assert Positions(Replica, shards) == set i | 0 <= i < |shards| && shards[i].prirep == "r";
    assert Positions(Started, shards) == set i | 0 <= i < |shards| && shards[i].state == "STARTED";
    assert Positions(Relocating, shards)
           == set i | 0 <= i < |shards| && shards[i].state == "RELOCATING";
    assert Positions(Unassigned, shards)
           == set i | 0 <= i < |shards| && shards[i].state == "UNASSIGNED";
  }

  datatype Stats = Stats(total: nat, primary: nat, replica: nat, started: nat, relocating: nat, unassigned: nat)

  lemma {:induction false} TotalIsCount(shards: seq<Shard>)
    ensures Count(All, shards) == |shards|
  {
    if shards != [] { TotalIsCount(shards[..|shards| - 1]); }
  }

  /** The patterns for which the handler skips matching accept every name anyway. */
  lemma EmptyAndStarAcceptAll(name: string)
    ensures Accepts(name, "") && Accepts(name, "*")
  {
    GlobStarLiteral("", name);
    assert "*" + "" == "*" && "*"[..1] == "*";
  }

  /** What a row shows of an item: its fields, or what stands for a missing one. */
  predicate Shows(s: Shard, i: Item) {
    && s.index == (if i.index != None then i.index.value else "")
    && s.shard == (if i.shard != None then i.shard.value else "")
    && s.prirep == (if i.prirep != None then i.prirep.value else "")
    && s.state == (if i.state != None then i.state.value else "")
    && s.docs == (if i.docs != None then i.docs.value else "0")
    && s.store == (if i.store != None then i.store.value else "0b")
    && s.node == (if i.node != None then i.node.value else "UNASSIGNED")
    && s.unassignedReason == i.unassignedReason
  }

  /** One item gives its row, if the pattern accepts its index name, else none. */
  lemma FilteredOne(i: Item, pattern: string)
    ensures var name := if i.index != None then i.index.value else "";
            if Accepts(name, pattern) then |Filtered([i], pattern)| == 1 && Shows(Filtered([i], pattern)[0], i)
            else Filtered([i], pattern) == []
  {
    hide Accepts;
    assert [i][..0] == [];
    assert Filtered([], pattern) == [];
  }

  /** The rows of two lists of items are those of the first, then those of the second. */
  lemma {:induction false} FilteredKeepsOrder(xs: seq<Item>, ys: seq<Item>, pattern: string)
    ensures Filtered(xs + ys, pattern) == Filtered(xs, pattern) + Filtered(ys, pattern)
  {
    hide Accepts, ShardOf;
    if ys == [] {
      assert xs + ys == xs;
    } else {
      var front, last := ys[..|ys| - 1], ys[|ys| - 1];
      FilteredKeepsOrder(xs, front, pattern);
      assert (xs + ys)[..|xs + ys| - 1] == xs + front && (xs + ys)[|xs + ys| - 1] == last;
      var kept := if Accepts(ShardOf(last).index, pattern) then [ShardOf(last)] else [];
      assert Filtered(xs, pattern) + Filtered(front, pattern) + kept
             == Filtered(xs, pattern) + (Filtered(front, pattern) + kept);
    }
  }

  method FilterShards(items: seq<Item>, pattern: string) returns (shards: seq<Shard>)
    ensures shards == Filtered(items, pattern)
  {
    shards := [];
    var i := 0;
    while i < |items|
      invariant 0 <= i <= |items|
      invariant shards == Filtered(items[..i], pattern)
    {
      assert items[..i + 1][..i] == items[..i];
      var indexName := Or(items[i].index, "");
      var keep := true;
      if pattern != "*" && pattern != "" {
        keep := MatchesPattern(indexName, pattern);
      } else {
        EmptyAndStarAcceptAll(indexName);
      }
      if keep { shards := shards + [ShardOf(items[i])]; }
      i := i + 1;
    }
    assert items[..i] == items;
  }

  method GroupByNode(shards: seq<Shard>) returns (nodes: map<string, seq<Shard>>)
    ensures forall node :: node in nodes <==> exists s :: s in shards && s.node == node
    ensures forall node :: node in nodes ==> nodes[node] == OfNode(shards, node) != []
  {
    nodes := map[];
    var i := 0;
    while i < |shards|
      invariant 0 <= i <= |shards|
      invariant forall node :: OfNode(shards[..i], node) == if node in nodes then nodes[node] else []
      invariant forall node :: node in nodes ==> nodes[node] != []
    {
      assert shards[..i + 1][..i] == shards[..i];
      var node := shards[i].node;
      nodes := nodes[node := (if node in nodes then nodes[node] else []) + [shards[i]]];
      i := i + 1;
    }
    assert shards[..i] == shards;
    forall node ensures node in nodes <==> exists s :: s in shards && s.node == node {
      OfNodeEmpty(shards, node);
    }
  }

  lemma {:induction false} OfNodeEmpty(shards: seq<Shard>, node: string)
    ensures OfNode(shards, node) != [] <==> exists s :: s in shards && s.node == node
  {
    if shards != [] {
      var front, last := shards[..|shards| - 1], shards[|shards| - 1];
      OfNodeEmpty(front, node);
      assert shards == front + [last];
    }
  }

  // ----- the groups are a partition

  function Flatten(shards: seq<Shard>, nodes: seq<string>): seq<Shard> {
    if nodes == [] then []
    else Flatten(shards, nodes[..|nodes| - 1]) + OfNode(shards, nodes[|nodes| - 1])
  }

  function SumCounts(k: Kind, shards: seq<Shard>, nodes: seq<string>): nat {
    if nodes == [] then 0
    else SumCounts(k, shards, nodes[..|nodes| - 1]) + Count(k, OfNode(shards, nodes[|nodes| - 1]))
  }

  /** The shards whose node is listed. */
  function Among(shards: seq<Shard>, nodes: seq<string>): seq<Shard> {
    if shards == [] then []
    else
      var last := shards[|shards| - 1];
      Among(shards[..|shards| - 1], nodes) + if last.node in nodes then [last] else []
  }

  predicate Distinct(nodes: seq<string>) {
    nodes == [] || (nodes[|nodes| - 1] !in nodes[..|nodes| - 1] && Distinct(nodes[..|nodes| - 1]))
  }

  lemma CountOne(k: Kind, xs: seq<Shard>, s: Shard)
    ensures Count(k, xs + [s]) == Count(k, xs) + if Is(k, s) then 1 else 0
  {
    assert (xs + [s])[..|xs|] == xs;
  }

  lemma {:induction false} OneMoreNode(shards: seq<Shard>, nodes: seq<string>, node: string)
    requires node !in nodes
    ensures multiset(Among(shards, nodes + [node])) == multiset(Among(shards, nodes)) + multiset(OfNode(shards, node))
  {
    if shards != [] { OneMoreNode(shards[..|shards| - 1], nodes, node); }
  }

  lemma {:induction false} OneMoreNodeCounts(k: Kind, shards: seq<Shard>, nodes: seq<string>, node: string,
                                             more: seq<string>)
    requires node !in nodes && forall n :: n in more <==> n in nodes || n == node
    ensures Count(k, Among(shards, more)) == Count(k, Among(shards, nodes)) + Count(k, OfNode(shards, node))
  {
    if shards != [] {
      var front, last := shards[..|shards| - 1], shards[|shards| - 1];
      OneMoreNodeCounts(k, front, nodes, node, more);
      var a, b, c := Among(front, more), Among(front, nodes), OfNode(front, node);
      CountOne(k, a, last);
      CountOne(k, b, last);
      CountOne(k, c, last);
      assert Among(shards, more) == if last.node in more then a + [last] else a;
      assert Among(shards, nodes) == if last.node in nodes then b + [last] else b;
      assert OfNode(shards, node) == if last.node == node then c + [last] else c;
    }
  }

  lemma {:induction false} FlattenIsAmong(k: Kind, shards: seq<Shard>, nodes: seq<string>)
    requires Distinct(nodes)
    ensures multiset(Flatten(shards, nodes)) == multiset(Among(shards, nodes))
    ensures SumCounts(k, shards, nodes) == Count(k, Among(shards, nodes))
  {
    if nodes == [] {
      AmongNone(shards);
    } else {
      var front, last := nodes[..|nodes| - 1], nodes[|nodes| - 1];
      FlattenIsAmong(k, shards, front);
      assert nodes == front + [last];
      OneMoreNode(shards, front, last);
      OneMoreNodeCounts(k, shards, front, last, nodes);
    }
  }

  lemma {:induction false} AmongNone(shards: seq<Shard>)
    ensures Among(shards, []) == []
  {
    if shards != [] { AmongNone(shards[..|shards| - 1]); }
  }

  lemma {:induction false} AmongAll(shards: seq<Shard>, nodes: seq<string>)
    requires forall s :: s in shards ==> s.node in nodes
    ensures Among(shards, nodes) == shards
  {
    if shards != [] {
      var front, last := shards[..|shards| - 1], shards[|shards| - 1];
      assert shards == front + [last];
      AmongAll(front, nodes);
    }
  }

  /** In whatever order the map lists its nodes, the groups together are a permutation of
      the shards, and every statistic is the sum of its counts over the groups. */
  lemma GroupsPartition(k: Kind, shards: seq<Shard>, nodes: seq<string>)
    requires Distinct(nodes)
    requires forall node :: node in nodes <==> exists s :: s in shards && s.node == node
    ensures multiset(Flatten(shards, nodes)) == multiset(shards)
    ensures SumCounts(k, shards, nodes) == Count(k, shards)
  {
    FlattenIsAmong(k, shards, nodes);
    AmongAll(shards, nodes);
  }

  /** A group keeps the order of its shards: what it keeps of any two lists put together is
      what it keeps of the first, then of the second. */
  lemma {:induction false} GroupKeepsOrder(xs: seq<Shard>, ys: seq<Shard>, node: string)
    ensures OfNode(xs + ys, node) == OfNode(xs, node) + OfNode(ys, node)
  {
    if ys == [] {
      assert xs + ys == xs;
    } else {
      var front, last := ys[..|ys| - 1], ys[|ys| - 1];
      GroupKeepsOrder(xs, front, node);
      assert (xs + ys)[..|xs + ys| - 1] == xs + front && (xs + ys)[|xs + ys| - 1] == last;
      var kept := if last.node == node then [last] else [];
      assert OfNode(ys, node) == OfNode(front, node) + kept;
      assert OfNode(xs, node) + OfNode(front, node) + kept == OfNode(xs, node) + (OfNode(front, node) + kept);
    }
  }

  /** A group holds shards of its node only, and all of them. */
  lemma {:induction false} GroupMembers(xs: seq<Shard>, node: string)
    ensures forall s :: s in OfNode(xs, node) <==> s in xs && s.node == node
  {
    if xs != [] {
      GroupMembers(xs[..|xs| - 1], node);
      assert xs == xs[..|xs| - 1] + [xs[|xs| - 1]];
    }
  }

  method LoadShards(items: seq<Item>, pattern: string)
    returns (shards: seq<Shard>, nodes: map<string, seq<Shard>>, stats: Stats)
    ensures shards == Filtered(items, pattern)
    ensures stats.total == Count(All, shards) == |shards|
    ensures stats.primary == Count(Primary, shards) == |set i | 0 <= i < |shards| && shards[i].prirep == "p"|
    ensures stats.replica == Count(Replica, shards) == |set i | 0 <= i < |shards| && shards[i].prirep == "r"|
    ensures stats.started == Count(Started, shards) == |set i | 0 <= i < |shards| && shards[i].state == "STARTED"|
    ensures stats.relocating == Count(Relocating, shards)
            == |set i | 0 <= i < |shards| && shards[i].state == "RELOCATING"|
    ensures stats.unassigned == Count(Unassigned, shards)
            == |set i | 0 <= i < |shards| && shards[i].state == "UNASSIGNED"|
    ensures forall node :: node in nodes <==> exists s :: s in shards && s.node == node
    ensures forall node :: node in nodes ==> nodes[node] == OfNode(shards, node) != []
  {
    shards := FilterShards(items, pattern);
    nodes := GroupByNode(shards);
    TotalIsCount(shards);
    CountsRead(shards);
    hide Count, Accepts, Filtered;
    stats := Stats(|shards|, Count(Primary, shards), Count(Replica, shards), Count(Started, shards),
                   Count(Relocating, shards), Count(Unassigned, shards));
  }
}
