/**
 The state of the broadcast key graph (crates/broadcast/src/graph.rs) and what its publications
 give away. Keys are names drawn from a supply that never repeats; an authenticated wrap is the
 pair of the key it is under and the key it carries, and opens with the first and no other.
 */
module KeyHierarchy {
  import opened Sequences
  import opened KeyGraphs

  type Key = nat

  type UserId = nat

  datatype Wrapped = Wrapped(under: Key, payload: Key)

  datatype State = State(
    nodes: Nodes, nextId: nat, keys: map<NodeId, Key>, userLeaves: map<UserId, NodeId>, nextKey: Key)

  // ------------------------------------------------------------------------- invariants

  /** Holds whatever is called: a tree, a key for every node, every key drawn once. */
  ghost predicate Sound(s: State)
  {
    Tree(s.nodes, s.nextId) && KeyTable(s.nodes.Keys, s.keys, s.nextId, s.nextKey)
  }

  ghost predicate KeyTable(ids: set<NodeId>, keys: map<NodeId, Key>, nextId: nat, nextKey: Key)
  {
    && (forall v :: v in ids ==> v in keys)
    && (forall v :: v in keys ==> v < nextId && keys[v] < nextKey)
    && KeysDistinct(keys)
  }

  ghost predicate KeysDistinct(keys: map<NodeId, Key>)
  {
    forall v, w :: v in keys && w in keys && keys[v] == keys[w] ==> v == w
  }

  /** Holds as long as sponsors are not users' leaves. */
  ghost predicate Disciplined(s: State)
  {
    && (forall v :: v in s.keys ==> v in s.nodes)
    && (forall u :: u in s.userLeaves ==> IsLeaf(s, s.userLeaves[u]))
    && (forall u, w :: u in s.userLeaves && w in s.userLeaves && s.userLeaves[u] == s.userLeaves[w] ==> u == w)
  }

  ghost predicate IsLeaf(s: State, v: NodeId)
  {
    v in s.nodes && s.nodes[v].children == []
  }

  /** The current users at or below a node. */
  ghost function Beneath(s: State, v: NodeId): set<UserId>
    requires Ascending(s.nodes)
  {
    set u | u in s.userLeaves && Below(s.nodes, s.userLeaves[u], v)
  }

  // --------------------------------------------------------------------------- rotation

  /** Fresh keys down a list of nodes. */
  ghost function Rotated(keys: map<NodeId, Key>, path: seq<NodeId>, k: Key): (r: map<NodeId, Key>)
    ensures forall v :: v in r <==> v in keys || v in path
    decreases path
  {
    if path == [] then keys else Rotated(keys[path[0] := k], path[1..], k + 1)
  }

  lemma {:induction false} RotatedKeys(keys: map<NodeId, Key>, path: seq<NodeId>, k: Key)
    requires Distinct(path)
    ensures forall v :: v in keys && v !in path ==> Rotated(keys, path, k)[v] == keys[v]
    ensures forall i :: 0 <= i < |path| ==> Rotated(keys, path, k)[path[i]] == k + i
    decreases path
  {
    if path != [] {
      var rest := path[1..];
      RotatedKeys(keys[path[0] := k], rest, k + 1);
      assert path[0] !in rest;
      forall i | 0 <= i < |path|
        ensures Rotated(keys, path, k)[path[i]] == k + i
      {
        if i > 0 { assert path[i] == rest[i - 1]; }
      }
    }
  }

  /** What a rotation does to a table of distinct, already drawn keys. */
  lemma RotatedDistinct(keys: map<NodeId, Key>, path: seq<NodeId>, k: Key)
    requires Distinct(path) && KeysDistinct(keys) && forall v :: v in keys ==> keys[v] < k
    ensures KeysDistinct(Rotated(keys, path, k))
    ensures forall v :: v in Rotated(keys, path, k) ==> Rotated(keys, path, k)[v] < k + |path|
    ensures forall v :: v in path ==> Rotated(keys, path, k)[v] >= k
  {
    RotatedKeys(keys, path, k);
    var r := Rotated(keys, path, k);
    forall v | v in path
      ensures exists i :: 0 <= i < |path| && path[i] == v && r[v] == k + i
    {
      var i :| 0 <= i < |path| && path[i] == v;
      assert r[path[i]] == k + i;
    }
  }

  // ------------------------------------------------------------------ join and leave

  /** The nodes above a node, bottom-up: `ancestors_of`. */
  ghost function Ancestors(nodes: Nodes, v: NodeId): seq<NodeId>
    requires Ascending(nodes) && v in nodes
  {
    Path(nodes, v)[1..]
  }

  /** A successful join. */
  ghost predicate Joins(s: State, user: UserId, sponsor: NodeId, s': State)
    requires Ascending(s.nodes)
  {
    && sponsor in s.nodes
    && var path := Path(s.nodes, sponsor);
    && s' == State(WithChild(s.nodes, sponsor, s.nextId, |s.nodes[sponsor].children|), s.nextId + 1,
                   Rotated(s.keys[s.nextId := s.nextKey], path, s.nextKey + 1),
                   s.userLeaves[user := s.nextId], s.nextKey + 1 + |path|)
  }

  /** A successful leave. */
  ghost predicate Leaves(s: State, user: UserId, s': State)
    requires Ascending(s.nodes)
  {
    && user in s.userLeaves
    && var leaf := s.userLeaves[user];
    && leaf in s.nodes && leaf != ROOT
    && Pruning(s.nodes, s'.nodes, leaf)
    && var path := Ancestors(s.nodes, leaf);
    && s'.nextId == s.nextId && s'.nextKey == s.nextKey + |path|
    && s'.keys == Rotated(s.keys - {leaf}, path, s.nextKey)
    && s'.userLeaves == s.userLeaves - {user}
  }

  lemma RotateTable(ids: set<NodeId>, keys: map<NodeId, Key>, nextId: nat, nextKey: Key, path: seq<NodeId>)
    requires KeyTable(ids, keys, nextId, nextKey) && Distinct(path) && forall v :: v in path ==> v < nextId
    ensures KeyTable(ids, Rotated(keys, path, nextKey), nextId, nextKey + |path|)
  {
    RotatedDistinct(keys, path, nextKey);
  }

  lemma ExtendTable(ids: set<NodeId>, keys: map<NodeId, Key>, nextId: nat, nextKey: Key)
    requires KeyTable(ids, keys, nextId, nextKey)
    ensures KeyTable(ids + {nextId}, keys[nextId := nextKey], nextId + 1, nextKey + 1)
  {
  }

  lemma ShrinkTable(ids: set<NodeId>, ids': set<NodeId>, keys: map<NodeId, Key>, nextId: nat, nextKey: Key, id: NodeId)
    requires KeyTable(ids, keys, nextId, nextKey) && ids' <= ids && id !in ids'
    ensures KeyTable(ids', keys - {id}, nextId, nextKey)
  {
  }

  lemma JoinSound(s: State, user: UserId, sponsor: NodeId, s': State)
    requires Sound(s) && Joins(s, user, sponsor, s')
    ensures Sound(s')
  {
    hide Ascending, Layered, ChildrenInverse, KeyTable, WithChild, Rotated;
    AddedTree(s.nodes, s.nextId, sponsor, |s.nodes[sponsor].children|);
    ExtendTable(s.nodes.Keys, s.keys, s.nextId, s.nextKey);
    PathBounded(s.nodes, s.nextId, sponsor);
    RotateTable(s'.nodes.Keys, s.keys[s.nextId := s.nextKey], s'.nextId, s.nextKey + 1, Path(s.nodes, sponsor));
  }

  lemma PathBounded(nodes: Nodes, nextId: nat, v: NodeId)
    requires Tree(nodes, nextId) && v in nodes
    ensures Distinct(Path(nodes, v)) && forall a :: a in Path(nodes, v) ==> a in nodes && a < nextId
  {
    PathShape(nodes, v);
  }

  lemma LeaveSound(s: State, user: UserId, s': State)
    requires Sound(s) && Leaves(s, user, s')
    ensures Sound(s')
  {
    hide Ascending, Layered, ChildrenInverse, KeyTable, Pruning, Rotated;
    var leaf := s.userLeaves[user];
    PrunedTree(s.nodes, s'.nodes, s.nextId, leaf);
    PrunedSubset(s.nodes, s'.nodes, leaf);
    AncestorsShape(s.nodes, leaf);
    ShrinkTable(s.nodes.Keys, s'.nodes.Keys, s.keys, s.nextId, s.nextKey, leaf);
    RotateTable(s'.nodes.Keys, s.keys - {leaf}, s.nextId, s.nextKey, Ancestors(s.nodes, leaf));
  }

  lemma AncestorsShape(nodes: Nodes, v: NodeId)
    requires Ascending(nodes) && v in nodes
    ensures Distinct(Ancestors(nodes, v)) && v !in Ancestors(nodes, v)
    ensures forall a :: a in Ancestors(nodes, v) ==> a in nodes && a < v
  {
    PathShape(nodes, v);
    var path := Path(nodes, v);
    forall a | a in Ancestors(nodes, v)
      ensures a in nodes && a < v
    {
      var i :| 0 <= i < |path| - 1 && path[1..][i] == a;
      assert path[i + 1] == a && path[0] != path[i + 1];
    }
  }

  lemma PrunedSubset(nodes: Nodes, nodes': Nodes, id: NodeId)
    requires Ascending(nodes) && Pruning(nodes, nodes', id) && id in nodes
    ensures id !in nodes' && forall v :: v in nodes' ==> v in nodes
  {
    SelfBelow(nodes, id);
  }

  // ------------------------------------------------- what a step leaves as it was

  /** A key that is not fresh in s' was the same node's key in s, with the same users beneath it. */
  ghost predicate Inherits(s: State, s': State, w: NodeId)
    requires Ascending(s.nodes) && Ascending(s'.nodes)
  {
    w in s'.nodes && w in s'.keys ==>
      || s'.keys[w] >= s.nextKey
      || (w in s.nodes && w in s.keys && s.keys[w] == s'.keys[w] && Beneath(s, w) == Beneath(s', w))
  }

  lemma JoinInherits(s: State, user: UserId, sponsor: NodeId, s': State, w: NodeId)
    requires Sound(s) && Disciplined(s) && Joins(s, user, sponsor, s') && user !in s.userLeaves
    ensures Ascending(s'.nodes) && Inherits(s, s', w)
  {
    hide Ascending, Layered, ChildrenInverse, WithChild, KeysDistinct, Path;
    var coord := |s.nodes[sponsor].children|;
    var path := Path(s.nodes, sponsor);
    AddedTree(s.nodes, s.nextId, sponsor, coord);
    PathBounded(s.nodes, s.nextId, sponsor);
    RotatedKeys(s.keys[s.nextId := s.nextKey], path, s.nextKey + 1);
    if w in s'.nodes && w != s.nextId && w !in path {
      forall u
        ensures u in Beneath(s, w) <==> u in Beneath(s', w)
      {
        JoinBeneath(s, user, sponsor, s', w, u);
      }
    } else if w in path {
      var i :| 0 <= i < |path| && path[i] == w;
    }
  }

  lemma JoinBeneath(s: State, user: UserId, sponsor: NodeId, s': State, w: NodeId, u: UserId)
    requires Sound(s) && Disciplined(s) && Joins(s, user, sponsor, s') && user !in s.userLeaves
    requires w != s.nextId && w !in Path(s.nodes, sponsor)
    ensures Ascending(s'.nodes) && (u in Beneath(s, w) <==> u in Beneath(s', w))
  {
    hide Ascending, Layered, ChildrenInverse, WithChild, KeyTable, Path, Rotated;
    var coord := |s.nodes[sponsor].children|;
    WithChildAdded(s.nodes, sponsor, s.nextId, coord);
    AddedPaths(s.nodes, s'.nodes, sponsor, s.nextId, coord, sponsor);
    if u in s.userLeaves {
      AddedPaths(s.nodes, s'.nodes, sponsor, s.nextId, coord, s.userLeaves[u]);
    }
  }

  lemma LeafOnlySelf(s: State, x: NodeId, leaf: NodeId)
    requires Sound(s) && IsLeaf(s, leaf) && Below(s.nodes, x, leaf)
    ensures x == leaf
  {
    if x != leaf {
      var c := BelowChild(s.nodes, x, leaf);
    }
  }

  lemma LeaveInherits(s: State, user: UserId, s': State, w: NodeId)
    requires Sound(s) && Disciplined(s) && Leaves(s, user, s')
    ensures Ascending(s'.nodes) && Inherits(s, s', w)
  {
    hide Ascending, Layered, ChildrenInverse, Pruning, KeysDistinct, Path;
    var leaf := s.userLeaves[user];
    var path := Ancestors(s.nodes, leaf);
    PrunedAscending(s.nodes, s'.nodes, leaf);
    PrunedSubset(s.nodes, s'.nodes, leaf);
    AncestorsShape(s.nodes, leaf);
    RotatedKeys(s.keys - {leaf}, path, s.nextKey);
    if w in s'.nodes && w !in path {
      forall u
        ensures u in Beneath(s, w) <==> u in Beneath(s', w)
      {
        LeaveBeneath(s, user, s', w, u);
      }
    } else if w in path {
      var i :| 0 <= i < |path| && path[i] == w;
    }
  }

  /** Another user's leaf survives with its path. */
  lemma OthersStay(s: State, user: UserId, s': State, u: UserId)
    requires Sound(s) && Disciplined(s) && Leaves(s, user, s') && u in s.userLeaves && u != user
    ensures Ascending(s'.nodes) && s.userLeaves[u] in s'.nodes
    ensures Path(s'.nodes, s.userLeaves[u]) == Path(s.nodes, s.userLeaves[u])
  {
    hide Ascending, Layered, KeyTable, Path;
    var leaf, other := s.userLeaves[user], s.userLeaves[u];
    if Below(s.nodes, other, leaf) {
      LeafOnlySelf(s, other, leaf);
    }
    PrunedPath(s.nodes, s'.nodes, leaf, other);
  }

  lemma LeaveBeneath(s: State, user: UserId, s': State, w: NodeId, u: UserId)
    requires Sound(s) && Disciplined(s) && Leaves(s, user, s')
    requires w in s'.nodes && w !in Ancestors(s.nodes, s.userLeaves[user])
    ensures Ascending(s'.nodes) && (u in Beneath(s, w) <==> u in Beneath(s', w))
  {
    hide Ascending, Layered, ChildrenInverse, KeyTable, Pruning, Path, Rotated;
    var leaf := s.userLeaves[user];
    PrunedAscending(s.nodes, s'.nodes, leaf);
    PrunedSubset(s.nodes, s'.nodes, leaf);
    if u == user {
      NotAbove(s.nodes, leaf, w);
    } else if u in s.userLeaves {
      OthersStay(s, user, s', u);
    }
  }

  lemma NotAbove(nodes: Nodes, v: NodeId, w: NodeId)
    requires Ascending(nodes) && v in nodes && w != v && w !in Ancestors(nodes, v)
    ensures !Below(nodes, v, w)
  {
    var path := Path(nodes, v);
    forall i | 0 <= i < |path|
      ensures path[i] != w
    {
      if i > 0 { assert path[1..][i - 1] == path[i]; }
    }
  }

  // ------------------------------------------------------------ discipline is kept

  lemma JoinDisciplined(s: State, user: UserId, sponsor: NodeId, s': State)
    requires Sound(s) && Disciplined(s) && Joins(s, user, sponsor, s')
    requires forall u :: u in s.userLeaves ==> s.userLeaves[u] != sponsor
    ensures Disciplined(s')
  {
    hide Ascending, Layered, ChildrenInverse, WithChild, KeysDistinct, Path;
    var coord := |s.nodes[sponsor].children|;
    WithChildAdded(s.nodes, sponsor, s.nextId, coord);
    PathBounded(s.nodes, s.nextId, sponsor);
    forall u | u in s'.userLeaves
      ensures IsLeaf(s', s'.userLeaves[u])
    {
      if u != user { assert IsLeaf(s, s.userLeaves[u]); }
    }
  }

  lemma LeaveDisciplined(s: State, user: UserId, s': State)
    requires Sound(s) && Disciplined(s) && Leaves(s, user, s')
    ensures Disciplined(s')
  {
    hide Ascending, Layered, ChildrenInverse, KeysDistinct, Path;
    var leaf := s.userLeaves[user];
    AncestorsShape(s.nodes, leaf);
    forall v | v in s'.keys
      ensures v in s'.nodes
    {
      StaysUnlessLeaf(s, user, s', v);
    }
    forall u | u in s'.userLeaves
      ensures IsLeaf(s', s'.userLeaves[u])
    {
      assert IsLeaf(s, s.userLeaves[u]);
      OthersStay(s, user, s', u);
    }
  }

  /** Leaving a childless leaf removes that node and no other. */
  lemma StaysUnlessLeaf(s: State, user: UserId, s': State, v: NodeId)
    requires Sound(s) && Disciplined(s) && Leaves(s, user, s') && v in s.nodes && v != s.userLeaves[user]
    ensures v in s'.nodes
  {
    if Below(s.nodes, v, s.userLeaves[user]) {
      LeafOnlySelf(s, v, s.userLeaves[user]);
    }
  }
}
