/** Building a broadcast graph: the balanced binary tree over a power-of-two list of users. */
module BroadcastBuild {
  import opened Wrappers
  import opened Sequences
  import opened Powers
  import opened KeyGraphs
  import opened KeyHierarchy
  import opened KeySecrecy
  import opened Broadcasts

  /** `is_power_of_two`. */
  predicate PowerOfTwo(n: nat)
  {
    n == 1 || (n > 1 && n % 2 == 0 && PowerOfTwo(n / 2))
  }

  /** `trailing_zeros`: the logarithm of a power of two. */
  function TrailingZeros(n: nat): (d: nat)
    requires n > 0
    ensures PowerOfTwo(n) ==> n == Pow2(d)
  {
    if n % 2 == 1 then 0 else 1 + TrailingZeros(n / 2)
  }

  lemma {:induction false} PowerOfTwoIff(n: nat)
    ensures PowerOfTwo(n) <==> exists d: nat :: n == Pow2(d)
    decreases n
  {
    if PowerOfTwo(n) {
      assert n == Pow2(TrailingZeros(n));
    }
    if d: nat :| n == Pow2(d) && d > 0 {
      assert n / 2 == Pow2(d - 1);
      PowerOfTwoIff(n / 2);
    }
  }

  lemma Pow2Large(d: nat)
    requires d >= 62
    ensures Pow2(d) >= 0x4000_0000_0000_0000
  {
    assert Pow2(d - 60) >= 4;
    Pow2Sixty(d - 60);
  }

  // ------------------------------------------------------------- filling one layer

  /** v is a childless node of layer d. */
  ghost predicate Tip(nodes: Nodes, v: NodeId, d: nat)
  {
    v in nodes && nodes[v].layer == d && nodes[v].children == []
  }

  ghost predicate Tips(nodes: Nodes, s: seq<NodeId>, d: nat)
  {
    Distinct(s) && forall k :: 0 <= k < |s| ==> Tip(nodes, s[k], d)
  }

  /** Every node outside these two lists has two children. */
  ghost predicate Binary(nodes: Nodes, next: seq<NodeId>, waiting: seq<NodeId>)
  {
    forall v :: v in nodes ==> v in next || v in waiting || |nodes[v].children| == 2
  }

  /** The first i nodes of layer d have their two children, listed in next; everything above is binary. */
  ghost predicate Filling(nodes: Nodes, nextId: nat, current: seq<NodeId>, next: seq<NodeId>, i: nat, d: nat)
  {
    && i <= |current| == Pow2(d)
    && |nodes| == nextId == 2 * Pow2(d) - 1 + 2 * i && |next| == 2 * i
    && Tips(nodes, next, d + 1) && Tips(nodes, current[i..], d) && Binary(nodes, next, current[i..])
  }

  /** A full binary tree of depth d with these leaves. */
  ghost predicate Full(nodes: Nodes, nextId: nat, leaves: seq<NodeId>, d: nat)
  {
    && |nodes| == nextId == 2 * |leaves| - 1 && |leaves| == Pow2(d)
    && Tips(nodes, leaves, d) && Binary(nodes, leaves, [])
  }

  lemma FillStart(nodes: Nodes, nextId: nat, current: seq<NodeId>, d: nat)
    requires Full(nodes, nextId, current, d)
    ensures Filling(nodes, nextId, current, [], 0, d)
  {
    assert current[0..] == current;
  }

  lemma FillEnd(nodes: Nodes, nextId: nat, current: seq<NodeId>, next: seq<NodeId>, d: nat)
    requires Filling(nodes, nextId, current, next, |current|, d)
    ensures Full(nodes, nextId, next, d + 1)
  {
    assert current[|current|..] == [];
  }

  /** Both children of one node. */
  ghost function WithTwins(nodes: Nodes, v: NodeId, id: NodeId): Nodes
    requires v in nodes
  {
    WithChild(WithChild(nodes, v, id, 0), v, id + 1, 1)
  }

  lemma Twins(nodes: Nodes, v: NodeId, id: NodeId, d: nat)
    requires Tip(nodes, v, d) && forall u :: u in nodes ==> u < id
    ensures var after := WithTwins(nodes, v, id);
            && after.Keys == nodes.Keys + {id, id + 1} && |after| == |nodes| + 2
            && Tip(after, id, d + 1) && Tip(after, id + 1, d + 1) && |after[v].children| == 2
            && forall u :: u in nodes && u != v ==> after[u] == nodes[u]
  {
    var after := WithTwins(nodes, v, id);
    assert after.Keys == nodes.Keys + {id, id + 1};
    assert id !in nodes && id + 1 !in nodes;
    assert |after.Keys| == |nodes.Keys| + 2;
  }

  lemma FillStep(nodes: Nodes, nextId: nat, current: seq<NodeId>, next: seq<NodeId>, i: nat, d: nat)
    requires Filling(nodes, nextId, current, next, i, d) && i < |current| && forall u :: u in nodes ==> u < nextId
    ensures Tip(nodes, current[i], d)
    ensures Filling(WithTwins(nodes, current[i], nextId), nextId + 2, current, next + [nextId, nextId + 1], i + 1, d)
  {
    hide WithTwins, Pow2, Tips, Binary;
    var v, rest := current[i], current[i + 1..];
    assert current[i..] == [v] + rest;
    TipsHead(nodes, v, rest, d);
    Twins(nodes, v, nextId, d);
    RestTips(nodes, v, rest, nextId, d);
    NextTips(nodes, v, next, nextId, d);
    BinaryStep(nodes, v, rest, next, nextId, d);
  }

  lemma TipsHead(nodes: Nodes, v: NodeId, rest: seq<NodeId>, d: nat)
    requires Tips(nodes, [v] + rest, d)
    ensures Tip(nodes, v, d) && v !in rest && Tips(nodes, rest, d)
  {
    var s := [v] + rest;
    assert Tip(nodes, s[0], d);
    forall k | 0 <= k < |rest|
      ensures Tip(nodes, rest[k], d) && rest[k] != v && forall j :: 0 <= j < k ==> rest[j] != rest[k]
    {
      assert s[k + 1] == rest[k] && Tip(nodes, s[k + 1], d);
      assert forall j :: 0 <= j < k ==> s[j + 1] == rest[j];
    }
  }

  lemma RestTips(nodes: Nodes, v: NodeId, rest: seq<NodeId>, id: NodeId, d: nat)
    requires Tip(nodes, v, d) && Tips(nodes, rest, d) && v !in rest && forall u :: u in nodes ==> u < id
    ensures Tips(WithTwins(nodes, v, id), rest, d)
  {
    hide WithTwins;
    Twins(nodes, v, id, d);
    forall k | 0 <= k < |rest|
      ensures Tip(WithTwins(nodes, v, id), rest[k], d)
    {
      assert Tip(nodes, rest[k], d);
    }
  }

  lemma NextTips(nodes: Nodes, v: NodeId, next: seq<NodeId>, id: NodeId, d: nat)
    requires Tip(nodes, v, d) && Tips(nodes, next, d + 1) && forall u :: u in nodes ==> u < id
    ensures Tips(WithTwins(nodes, v, id), next + [id, id + 1], d + 1)
  {
    hide WithTwins;
    Twins(nodes, v, id, d);
    var all := next + [id, id + 1];
    forall k | 0 <= k < |all|
      ensures Tip(WithTwins(nodes, v, id), all[k], d + 1) && forall j :: 0 <= j < k ==> all[j] != all[k]
    {
      assert forall j :: 0 <= j < |next| ==> Tip(nodes, next[j], d + 1);
    }
  }

  lemma BinaryStep(nodes: Nodes, v: NodeId, rest: seq<NodeId>, next: seq<NodeId>, id: NodeId, d: nat)
    requires Tip(nodes, v, d) && Binary(nodes, next, [v] + rest) && forall u :: u in nodes ==> u < id
    ensures Binary(WithTwins(nodes, v, id), next + [id, id + 1], rest)
  {
    hide WithTwins;
    Twins(nodes, v, id, d);
  }

  /** One node's round of `build_binary`. */
  method AddTwins(graph: KeyGraph, v: NodeId, ghost d: nat)
    requires graph.Valid() && Tip(graph.nodes, v, d) && d < graph.bounds.maxDepth
    requires graph.bounds.maxBreadth >= 2 && |graph.nodes| + 1 < graph.bounds.maxNodes && graph.nextId + 1 < U64_MAX
    modifies graph
    ensures graph.Valid() && graph.nextId == old(graph.nextId) + 2
    ensures graph.nodes == WithTwins(old(graph.nodes), v, old(graph.nextId))
  {
    hide Ascending, Layered, ChildrenInverse, Bounded;
    ghost var before, id := graph.nodes, graph.nextId;
    WithChildAdded(before, v, id, 0);
    FirstTwin(before, v, id);
    var left := graph.AddChild(v, 0);
    var right := graph.AddChild(v, 1);
  }

  lemma FirstTwin(nodes: Nodes, v: NodeId, id: NodeId)
    requires v in nodes && nodes[v].children == [] && forall u :: u in nodes ==> u < id
    ensures var after := WithChild(nodes, v, id, 0);
            v in after && after[v].layer == nodes[v].layer && |after[v].children| == 1 && |after| == |nodes| + 1
  {
    var after := WithChild(nodes, v, id, 0);
    assert after.Keys == nodes.Keys + {id};
    assert |after.Keys| == |nodes.Keys| + 1;
  }

  /** One layer of `build_binary`. */
  method FillLayer(graph: KeyGraph, current: seq<NodeId>, ghost d: nat) returns (next: seq<NodeId>)
    requires graph.Valid() && Full(graph.nodes, graph.nextId, current, d) && d < graph.bounds.maxDepth
    requires graph.bounds.maxBreadth >= 2 && 4 * Pow2(d) <= graph.bounds.maxNodes
    modifies graph
    ensures graph.Valid() && Full(graph.nodes, graph.nextId, next, d + 1)
  {
    hide Ascending, Layered, ChildrenInverse, Bounded, WithTwins, Full, Pow2, Tips, Binary;
    next := [];
    FillStart(graph.nodes, graph.nextId, current, d);
    var i := 0;
    while i < |current|
      invariant 0 <= i <= |current| && graph.Valid()
      invariant Filling(graph.nodes, graph.nextId, current, next, i, d)
    {
      FillStep(graph.nodes, graph.nextId, current, next, i, d);
      next := next + [graph.nextId, graph.nextId + 1];
      AddTwins(graph, current[i], d);
      i := i + 1;
    }
    FillEnd(graph.nodes, graph.nextId, current, next, d);
  }

  /** `build_binary`: the leaves of a full binary tree of the given depth. */
  method BuildBinary(graph: KeyGraph, n: nat) returns (leaves: seq<NodeId>)
    requires graph.Valid() && Full(graph.nodes, graph.nextId, [ROOT], 0)
    requires PowerOfTwo(n) && 4 * n <= USIZE_MAX && graph.bounds == Bounds(64, 8, 4 * n)
    modifies graph
    ensures graph.Valid() && |leaves| == n && Full(graph.nodes, graph.nextId, leaves, TrailingZeros(n))
  {
    hide Full, Tree, Bounded, Pow2;
    var depth := TrailingZeros(n);
    if depth >= 62 {
      Pow2Large(depth);
    }
    leaves := [ROOT];
    for d := 0 to depth
      invariant graph.Valid() && Full(graph.nodes, graph.nextId, leaves, d)
    {
      Pow2Grows(d, depth);
      leaves := FillLayer(graph, leaves, d);
    }
    FullSize(graph.nodes, graph.nextId, leaves, depth);
  }

  lemma FullSize(nodes: Nodes, nextId: nat, leaves: seq<NodeId>, d: nat)
    requires Full(nodes, nextId, leaves, d)
    ensures |leaves| == Pow2(d)
  {
  }

  // ------------------------------------------------------------------ keys and users

  /** A fresh key for every node. */
  method DrawKeys(ids: set<NodeId>) returns (keys: map<NodeId, Key>, nextKey: Key)
    ensures keys.Keys == ids && KeysDistinct(keys) && forall v :: v in keys ==> keys[v] < nextKey
  {
    keys, nextKey := map[], 0;
    var todo := ids;
    while todo != {}
      invariant todo <= ids && keys.Keys == ids - todo
      invariant KeysDistinct(keys) && forall v :: v in keys ==> keys[v] < nextKey
      decreases |todo|
    {
      var v :| v in todo;
      todo := todo - {v};
      keys := keys[v := nextKey];
      nextKey := nextKey + 1;
    }
  }

  /** Each listed user has the leaf at its last position in the list. */
  ghost predicate Seated(userIds: seq<UserId>, leaves: seq<NodeId>, userLeaves: map<UserId, NodeId>)
  {
    && |userIds| <= |leaves|
    && (forall u :: u in userIds <==> u in userLeaves)
    && (forall u :: u in userLeaves ==> SeatedLast(userIds, leaves, u, userLeaves[u]))
  }

  ghost predicate SeatedLast(userIds: seq<UserId>, leaves: seq<NodeId>, u: UserId, leaf: NodeId)
    requires |userIds| <= |leaves|
  {
    exists i :: 0 <= i < |userIds| && userIds[i] == u && leaf == leaves[i] && u !in userIds[i + 1..]
  }

  method SeatUsers(userIds: seq<UserId>, leaves: seq<NodeId>) returns (userLeaves: map<UserId, NodeId>)
    requires |userIds| == |leaves|
    ensures Seated(userIds, leaves, userLeaves)
  {
    userLeaves := map[];
    for i := 0 to |userIds|
      invariant Seated(userIds[..i], leaves, userLeaves)
    {
      SeatOne(userIds[..i], leaves, userLeaves, userIds[i]);
      assert userIds[..i + 1] == userIds[..i] + [userIds[i]];
      userLeaves := userLeaves[userIds[i] := leaves[i]];
    }
    assert userIds[..|userIds|] == userIds;
  }

  lemma SeatOne(userIds: seq<UserId>, leaves: seq<NodeId>, userLeaves: map<UserId, NodeId>, u: UserId)
    requires Seated(userIds, leaves, userLeaves) && |userIds| < |leaves|
    ensures Seated(userIds + [u], leaves, userLeaves[u := leaves[|userIds|]])
  {
    var all, after := userIds + [u], userLeaves[u := leaves[|userIds|]];
    forall x | x in after
      ensures SeatedLast(all, leaves, x, after[x])
    {
      if x == u {
        assert all[|userIds|] == u && all[|userIds| + 1..] == [];
      } else {
        assert SeatedLast(userIds, leaves, x, userLeaves[x]);
        var i :| 0 <= i < |userIds| && userIds[i] == x && userLeaves[x] == leaves[i] && x !in userIds[i + 1..];
        assert all[i] == x && all[i + 1..] == userIds[i + 1..] + [u];
      }
    }
  }

  /** Users on distinct childless leaves with a drawn key for every node make a good state. */
  lemma BuiltGood(
      nodes: Nodes, nextId: nat, keys: map<NodeId, Key>, userIds: seq<UserId>, leaves: seq<NodeId>,
      userLeaves: map<UserId, NodeId>, nextKey: Key, d: nat)
    requires Tree(nodes, nextId) && Full(nodes, nextId, leaves, d)
    requires keys.Keys == nodes.Keys && KeysDistinct(keys) && forall v :: v in keys ==> keys[v] < nextKey
    requires Seated(userIds, leaves, userLeaves)
    ensures Good(State(nodes, nextId, keys, userLeaves, nextKey))
    ensures forall u :: u in userLeaves ==> Tip(nodes, userLeaves[u], d)
  {
    hide Ascending, Layered, ChildrenInverse;
    forall u | u in userLeaves
      ensures Tip(nodes, userLeaves[u], d)
    {
      assert SeatedLast(userIds, leaves, u, userLeaves[u]);
      var i :| 0 <= i < |userIds| && userIds[i] == u && userLeaves[u] == leaves[i];
      assert Tip(nodes, leaves[i], d);
    }
    forall u, w | u in userLeaves && w in userLeaves && userLeaves[u] == userLeaves[w]
      ensures u == w
    {
      SeatsDistinct(userIds, leaves, userLeaves, u, w);
    }
  }

  lemma SeatsDistinct(userIds: seq<UserId>, leaves: seq<NodeId>, userLeaves: map<UserId, NodeId>, u: UserId, w: UserId)
    requires Seated(userIds, leaves, userLeaves) && Distinct(leaves)
    requires u in userLeaves && w in userLeaves && userLeaves[u] == userLeaves[w]
    ensures u == w
  {
    assert SeatedLast(userIds, leaves, u, userLeaves[u]) && SeatedLast(userIds, leaves, w, userLeaves[w]);
    var i :| 0 <= i < |userIds| && userIds[i] == u && userLeaves[u] == leaves[i];
    var j :| 0 <= j < |userIds| && userIds[j] == w && userLeaves[w] == leaves[j];
  }

  /** `build`. */
  method Build(userIds: seq<UserId>) returns (result: Result<BroadcastGraph, BcsError>)
    ensures result.Ok? <==> (exists d: nat :: |userIds| == Pow2(d)) && 4 * |userIds| <= USIZE_MAX
    ensures result.Err? ==> result == Err(BadStructure)
    ensures result.Ok? ==>
              var g := result.value;
              && fresh(g) && fresh(g.graph) && g.Valid() && Good(g.View())
              && g.graph.bounds == Bounds(64, 8, 4 * |userIds|)
              && exists leaves ::
                   Full(g.graph.nodes, g.graph.nextId, leaves, TrailingZeros(|userIds|)) && Seated(userIds, leaves, g.userLeaves)
  {
    hide Full, Tree, Bounded, Seated, KeysDistinct, Disciplined, KeyTable;
    var n := |userIds|;
    PowerOfTwoIff(n);
    if !PowerOfTwo(n) {
      return Err(BadStructure);
    }
    if n * 4 > USIZE_MAX {
      return Err(BadStructure);
    }
    var graph := new KeyGraph(Bounds(64, 8, n * 4));
    RootFull(graph.nodes);
    var leaves := BuildBinary(graph, n);
    var keys, nextKey := DrawKeys(graph.nodes.Keys);
    var userLeaves := SeatUsers(userIds, leaves);
    BuiltGood(graph.nodes, graph.nextId, keys, userIds, leaves, userLeaves, nextKey, TrailingZeros(n));
    var g := new BroadcastGraph(graph, keys, userLeaves, nextKey);
    return Ok(g);
  }

  lemma RootFull(nodes: Nodes)
    requires nodes == map[ROOT := Node([], 0, None, [], 0)]
    ensures Full(nodes, 1, [ROOT], 0)
  {
    assert nodes.Keys == {ROOT};
    assert |nodes.Keys| == 1;
    assert [ROOT][0] == ROOT;
  }
}
