/**
 The broadcast graph object (crates/broadcast/src/graph.rs). Randomness is a supply of key names
 (`nextKey`), the iteration order of the hash maps is left open, and sealing a message is pairing
 it with its key.
 */
module Broadcasts {
  import opened Wrappers
  import opened Sequences
  import opened KeyGraphs
  import opened KeyHierarchy
  import opened KeySecrecy
  import opened Rekeying

  datatype BcsError = BadStructure | MissingKey | NotEligible | Cipher | Graph(error: KgError)

  datatype Sealed<T> = Sealed(under: Key, plaintext: T)

  const U32_MAX: nat := 0xFFFF_FFFF

  // --------------------------------------------------------------------- small facts

  lemma {:induction false} RotatedSnoc(keys: map<NodeId, Key>, path: seq<NodeId>, v: NodeId, k: Key)
    ensures Rotated(keys, path + [v], k) == Rotated(keys, path, k)[v := k + |path|]
    decreases path
  {
    if path == [] {
      assert [v][1..] == [];
      assert Rotated(keys[v := k], [v][1..], k + 1) == keys[v := k];
      assert path + [v] == [v];
    } else {
      RotatedSnoc(keys[path[0] := k], path[1..], v, k + 1);
      assert (path + [v])[1..] == path[1..] + [v];
    }
  }

  /** Bottom-up: each node after its descendants. */
  ghost predicate Descending(path: seq<NodeId>)
  {
    forall i, j :: 0 <= i < j < |path| ==> path[j] < path[i]
  }

  lemma {:induction false} PathDescends(nodes: Nodes, v: NodeId)
    requires Ascending(nodes) && v in nodes
    ensures Descending(Path(nodes, v)) && Descending(Ancestors(nodes, v))
    decreases v
  {
    if nodes[v].parent.Some? {
      var p := nodes[v].parent.value;
      assert AscendingAt(nodes, v);
      PathDescends(nodes, p);
      PathShape(nodes, p);
      var above := Path(nodes, p);
      assert Path(nodes, v) == [v] + above;
      assert Ancestors(nodes, v) == above;
    }
  }

  /** The child list and any other listing of the children have the same length. */
  lemma ChildCount(nodes: Nodes, v: NodeId, kids: seq<NodeId>)
    requires ChildrenInverse(nodes) && v in nodes && ChildrenListed(nodes, v, kids)
    ensures |kids| == |nodes[v].children|
  {
    assert ListsChildren(nodes, v);
    SameLength(kids, nodes[v].children);
  }

  class BroadcastGraph {
    const graph: KeyGraph
    var keys: map<NodeId, Key>
    var userLeaves: map<UserId, NodeId>
    var nextKey: Key

    ghost function View(): State
      reads this, graph
    {
      State(graph.nodes, graph.nextId, keys, userLeaves, nextKey)
    }

    ghost predicate Valid()
      reads this, graph
    {
      && graph.Valid() && Sound(View())
      && graph.bounds.maxDepth == 64 && graph.bounds.maxBreadth == 8 && graph.bounds.maxNodes < USIZE_MAX
    }

    constructor (graph: KeyGraph, keys: map<NodeId, Key>, userLeaves: map<UserId, NodeId>, nextKey: Key)
      ensures this.graph == graph && View() == State(graph.nodes, graph.nextId, keys, userLeaves, nextKey)
    {
      this.graph := graph;
      this.keys := keys;
      this.userLeaves := userLeaves;
      this.nextKey := nextKey;
    }

    /** `children_of`: the keyed nodes whose parent this is, in any order. */
    method ChildrenOf(parent: NodeId) returns (kids: seq<NodeId>)
      requires forall v :: v in graph.nodes ==> v in keys
      ensures ChildrenListed(graph.nodes, parent, kids)
    {
      kids := [];
      var todo := keys.Keys;
      while todo != {}
        invariant todo <= keys.Keys
        invariant Distinct(kids) && forall c :: c in kids ==> c !in todo
        invariant forall c :: c in kids <==>
                    c in keys && c !in todo && c in graph.nodes && graph.nodes[c].parent == Some(parent)
        decreases |todo|
      {
        var n :| n in todo;
        todo := todo - {n};
        if n in graph.nodes && graph.nodes[n].parent == Some(parent) {
          kids := kids + [n];
        }
      }
    }

    /** The inner loop of `rotate_and_rekey`: a node's new key under each child's key. */
    method WrapFor(node: NodeId, newKey: Key, kids: seq<NodeId>) returns (messages: seq<RekeyMessage>)
      requires forall c :: c in kids ==> c in keys
      ensures WrappedFor(keys, node, newKey, kids, messages)
    {
      messages := [];
      for i := 0 to |kids|
        invariant WrappedFor(keys, node, newKey, kids[..i], messages)
      {
        messages := messages + [RekeyMessage(node, kids[i], Wrapped(keys[kids[i]], newKey))];
      }
      assert kids[..|kids|] == kids;
    }

    /** One round of `rotate_and_rekey`: a fresh key for a node, sent under each child's key. */
    method RekeyNode(node: NodeId, messages: seq<RekeyMessage>, ghost replaced: seq<NodeId>) returns (all: seq<RekeyMessage>)
      requires Ascending(graph.nodes) && forall v :: v in graph.nodes ==> v in keys
      requires Rekeyed(graph.nodes, keys, replaced, messages) && forall a :: a in replaced ==> node < a
      modifies this`keys, this`nextKey
      ensures keys == old(keys)[node := old(nextKey)] && nextKey == old(nextKey) + 1
      ensures Rekeyed(graph.nodes, keys, replaced + [node], all)
    {
      hide Ascending, Rekeyed, WrappedFor, Distinct;
      var newKey := nextKey;
      nextKey := nextKey + 1;
      var kids := ChildrenOf(node);
      var wrapped := WrapFor(node, newKey, kids);
      RekeyedStep(graph.nodes, keys, replaced, messages, node, newKey, kids, wrapped);
      keys := keys[node := newKey];
      return messages + wrapped;
    }

    /** `rotate_and_rekey`, bottom-up over a list of nodes. */
    method RotateAndRekey(ancestors: seq<NodeId>) returns (rekey: RekeyResult)
      requires Ascending(graph.nodes) && Descending(ancestors)
      requires forall v :: v in graph.nodes ==> v in keys
      modifies this`keys, this`nextKey
      ensures keys == Rotated(old(keys), ancestors, old(nextKey)) && nextKey == old(nextKey) + |ancestors|
      ensures rekey.replaced == ancestors && Rekeyed(graph.nodes, keys, ancestors, rekey.messages)
    {
      hide Ascending, Rekeyed, Rotated;
      var messages: seq<RekeyMessage> := [];
      NothingRekeyed(graph.nodes, keys);
      RotatedNil(keys, nextKey);
      for i := 0 to |ancestors|
        invariant nextKey == old(nextKey) + i
        invariant keys == Rotated(old(keys), ancestors[..i], old(nextKey))
        invariant forall v :: v in graph.nodes ==> v in keys
        invariant Rekeyed(graph.nodes, keys, ancestors[..i], messages)
      {
        RotatedSnoc(old(keys), ancestors[..i], ancestors[i], old(nextKey));
        assert ancestors[..i + 1] == ancestors[..i] + [ancestors[i]];
        messages := RekeyNode(ancestors[i], messages, ancestors[..i]);
      }
      assert ancestors[..|ancestors|] == ancestors;
      return RekeyResult(ancestors, messages);
    }

    /** `ancestors_of`. */
    method AncestorsOf(leaf: NodeId) returns (result: Result<seq<NodeId>, BcsError>)
      requires Valid()
      ensures result == if leaf in graph.nodes then Ok(Ancestors(graph.nodes, leaf)) else Err(Graph(NoSuchNode))
    {
      var path := graph.LeafToRoot(leaf);
      match path {
        case Err(e) => return Err(Graph(e));
        case Ok(nodes) => return Ok(nodes[1..]);
      }
    }

    /** `leave`. */
    method Leave(user: UserId) returns (result: Result<RekeyResult, BcsError>)
      requires Valid()
      modifies this, graph
      ensures Valid()
      ensures result.Ok? <==>
                && user in old(userLeaves) && old(userLeaves)[user] in old(graph.nodes)
                && old(userLeaves)[user] != ROOT
      ensures result.Err? ==> View() == old(View())
      ensures result.Err? ==> user !in userLeaves ==> result.error == NotEligible
      ensures result.Err? ==> user in userLeaves ==>
                result.error == Graph(if userLeaves[user] == ROOT then CannotRemoveRoot else NoSuchNode)
      ensures result.Ok? ==>
                && Leaves(old(View()), user, View())
                && result.value.replaced == Ancestors(old(graph.nodes), old(userLeaves)[user])
                && Rekeyed(graph.nodes, keys, result.value.replaced, result.value.messages)
    {
      hide Ascending, Layered, ChildrenInverse, Pruning, KeyTable, Path, Rotated, Rekeyed, Bounded;
      if user !in userLeaves {
        return Err(NotEligible);
      }
      var leaf := userLeaves[user];
      RootKeyed(View());
      var ancestors := AncestorsOf(leaf);
      if ancestors.Err? {
        return Err(ancestors.error);
      }
      PathDescends(graph.nodes, leaf);
      KeysPresent(View());
      var removed := graph.RemoveSubtree(leaf);
      if removed.Err? {
        return Err(Graph(removed.error));
      }
      ghost var before := old(View());
      PrunedSubset(before.nodes, graph.nodes, leaf);
      userLeaves := userLeaves - {user};
      keys := keys - {leaf};
      var rekey := RotateAndRekey(ancestors.value);
      LeaveSound(before, user, View());
      return Ok(rekey);
    }

    /** `join`. */
    method Join(user: UserId, sponsor: NodeId) returns (result: Result<(RekeyResult, Key), BcsError>)
      requires Valid()
      modifies this, graph
      ensures Valid()
      ensures result.Ok? <==>
                && sponsor in old(graph.nodes)
                && old(graph.nodes)[sponsor].layer < 64 && |old(graph.nodes)[sponsor].children| < 8
                && |old(graph.nodes)| < graph.bounds.maxNodes && old(graph.nextId) < U64_MAX
      ensures result.Err? ==> View() == old(View())
      ensures result.Err? ==>
                result.error == Graph(if sponsor in graph.nodes then BoundExceeded else NoSuchNode)
      ensures result.Ok? ==>
                && Joins(old(View()), user, sponsor, View())
                && old(graph.nextId) in keys && result.value.1 == keys[old(graph.nextId)]
                && result.value.0.replaced == Path(old(graph.nodes), sponsor)
                && Rekeyed(graph.nodes, keys, result.value.0.replaced, result.value.0.messages)
    {
      hide Ascending, Layered, ChildrenInverse, WithChild, KeyTable, Path, Rekeyed, Bounded;
      ghost var before := View();
      KeysPresent(before);
      var kids := ChildrenOf(sponsor);
      if sponsor in graph.nodes {
        ChildCount(graph.nodes, sponsor, kids);
      }
      FewChildren(graph.nodes, graph.bounds, sponsor, kids);
      if |kids| > U32_MAX {
        return Err(BadStructure);
      }
      var added := graph.AddChild(sponsor, |kids|);
      if added.Err? {
        return Err(Graph(added.error));
      }
      WithChildAdded(before.nodes, sponsor, added.value, |kids|);
      var rekey := AdmitLeaf(user, added.value, before, sponsor);
      return Ok((rekey, keys[added.value]));
    }

    /** The rest of `join`, once the leaf is in the graph. */
    method AdmitLeaf(user: UserId, leaf: NodeId, ghost before: State, ghost sponsor: NodeId) returns (rekey: RekeyResult)
      requires Sound(before) && sponsor in before.nodes && leaf == before.nextId
      requires graph.nodes == WithChild(before.nodes, sponsor, leaf, |before.nodes[sponsor].children|)
      requires View() == before.(nodes := graph.nodes, nextId := leaf + 1)
      requires graph.Valid() && graph.bounds.maxDepth == 64
      modifies this
      ensures Joins(before, user, sponsor, View()) && Sound(View())
      ensures leaf in keys && keys[leaf] == before.nextKey
      ensures rekey.replaced == Path(before.nodes, sponsor)
      ensures Rekeyed(graph.nodes, keys, rekey.replaced, rekey.messages)
    {
      hide Ascending, Layered, ChildrenInverse, WithChild, KeyTable, Path, Rotated, Rekeyed, Bounded;
      var leafKey := nextKey;
      nextKey := nextKey + 1;
      keys := keys[leaf := leafKey];
      userLeaves := userLeaves[user := leaf];
      JoinTable(before, sponsor, |before.nodes[sponsor].children|);
      KeysPresent(View());
      JoinPath(before, sponsor, |before.nodes[sponsor].children|);
      var path := graph.LeafToRoot(leaf);
      rekey := RotateAndRekey(path.value[1..]);
      JoinSound(before, user, sponsor, View());
      LeafKeyStays(before, sponsor);
    }

    /** `encrypted_data_items`, in any order. */
    method EncryptedDataItems() returns (result: Result<seq<Item>, BcsError>)
      requires Valid()
      ensures result.Ok? && DataItems(View(), result.value)
    {
      hide Tree, KeysDistinct, Bounded;
      ghost var s := View();
      ParentsKeyed(s);
      var items: seq<Item> := [];
      var todo := keys.Keys;
      while todo != {}
        invariant todo <= keys.Keys
        invariant forall i :: 0 <= i < |items| ==> ItemOk(s, items[i]) && items[i].node !in todo
        invariant forall i, j :: 0 <= i < j < |items| ==> items[i].node != items[j].node
        invariant forall v :: v in s.nodes && s.nodes[v].parent.Some? && v !in todo ==> Lists(items, v)
        decreases |todo|
      {
        var node :| node in todo;
        todo := todo - {node};
        ghost var before := items;
        if node in graph.nodes && graph.nodes[node].parent.Some? {
          var parent := graph.nodes[node].parent.value;
          if parent !in keys {
            return Err(MissingKey);
          }
          items := items + [Item(node, parent, Wrapped(keys[node], keys[parent]))];
          assert items[|before|].node == node;
        }
        forall v | v in s.nodes && s.nodes[v].parent.Some? && v !in todo && v != node
          ensures Lists(items, v)
        {
          assert Lists(before, v);
          var i :| 0 <= i < |before| && before[i].node == v;
          assert items[i].node == v;
        }
      }
      return Ok(items);
    }

    /** `encrypt_message`. */
    method EncryptMessage<T>(plaintext: T) returns (result: Result<Sealed<T>, BcsError>)
      requires Valid()
      ensures ROOT in keys && result == Ok(Sealed(keys[ROOT], plaintext))
    {
      RootKeyed(View());
      if ROOT !in keys {
        return Err(MissingKey);
      }
      return Ok(Sealed(keys[ROOT], plaintext));
    }

    /** `user_decrypt`, for any leaf key, items and sealed message. */
    method UserDecrypt<T>(user: UserId, leafKey: Key, items: seq<Item>, message: Sealed<T>)
        returns (result: Result<T, BcsError>)
      requires Valid()
      ensures user !in userLeaves ==> result == Err(NotEligible)
      ensures user in userLeaves && userLeaves[user] !in graph.nodes ==> result == Err(Graph(NoSuchNode))
      ensures user in userLeaves && userLeaves[user] in graph.nodes ==>
                result == match Climb(items, Path(graph.nodes, userLeaves[user]), leafKey)
                          case None => Err(NotEligible)
                          case Some(k) => if k == message.under then Ok(message.plaintext) else Err(Cipher)
      ensures DataItems(View(), items) && ROOT in keys && message.under == keys[ROOT] ==>
                (result.Ok? <==>
                   && user in userLeaves && userLeaves[user] in graph.nodes && userLeaves[user] in keys
                   && leafKey == keys[userLeaves[user]])
    {
      hide Tree, KeyTable, Bounded, DataItems;
      if user !in userLeaves {
        return Err(NotEligible);
      }
      var leaf := userLeaves[user];
      var found := graph.LeafToRoot(leaf);
      if found.Err? {
        return Err(Graph(found.error));
      }
      var path := found.value;
      if DataItems(View(), items) {
        ClimbCurrent(View(), items, leaf, leafKey);
      }
      var current := leafKey;
      var i := 0;
      assert path[0..] == path;
      while i + 1 < |path|
        invariant 0 <= i < |path|
        invariant Climb(items, path[i..], current) == Climb(items, path, leafKey)
      {
        var item := FindItem(items, path[i], path[i + 1]);
        assert path[i..][1..] == path[i + 1..];
        if item.None? || item.value.wrapped.under != current {
          return Err(NotEligible);
        }
        current := item.value.wrapped.payload;
        i := i + 1;
      }
      return if current == message.under then Ok(message.plaintext) else Err(Cipher);
    }

    /** `communiques_group_oriented`: collect by encrypting node, then list in any order. */
    static method GroupOriented(messages: seq<RekeyMessage>) returns (out: seq<Communique>)
      ensures Grouped(messages, out)
    {
      var grouped: map<NodeId, seq<(NodeId, Wrapped)>> := map[];
      for i := 0 to |messages|
        invariant GroupMap(messages[..i], grouped)
      {
        var m := messages[i];
        GroupMapStep(messages[..i], grouped, m);
        assert messages[..i + 1] == messages[..i] + [m];
        var sofar := if m.underNode in grouped then grouped[m.underNode] else [];
        grouped := grouped[m.underNode := sofar + [(m.newKeyNode, m.wrapped)]];
      }
      assert messages[..|messages|] == messages;
      out := ListGroups(grouped);
    }

    static method ListGroups(grouped: map<NodeId, seq<(NodeId, Wrapped)>>) returns (out: seq<Communique>)
      ensures forall i :: 0 <= i < |out| ==>
                && out[i].encryptedUnder.NodeKey? && out[i].encryptedUnder.node in grouped
                && out[i].keys == grouped[out[i].encryptedUnder.node]
      ensures forall i, j :: 0 <= i < j < |out| ==> out[i].encryptedUnder != out[j].encryptedUnder
      ensures forall c :: c in grouped ==> GroupFor(out, c)
    {
      out := [];
      var todo := grouped.Keys;
      while todo != {}
        invariant todo <= grouped.Keys
        invariant forall i :: 0 <= i < |out| ==>
                    && out[i].encryptedUnder.NodeKey? && out[i].encryptedUnder.node in grouped
                    && out[i].encryptedUnder.node !in todo && out[i].keys == grouped[out[i].encryptedUnder.node]
        invariant forall i, j :: 0 <= i < j < |out| ==> out[i].encryptedUnder != out[j].encryptedUnder
        invariant forall c :: c in grouped && c !in todo ==> GroupFor(out, c)
        decreases |todo|
      {
        var under :| under in todo;
        todo := todo - {under};
        ghost var before := out;
        out := out + [Communique(NodeKey(under), grouped[under])];
        assert out[|before|].encryptedUnder == NodeKey(under);
        forall c | c in grouped && c !in todo && c != under
          ensures GroupFor(out, c)
        {
          assert GroupFor(before, c);
          var i :| 0 <= i < |before| && before[i].encryptedUnder == NodeKey(c);
          assert out[i].encryptedUnder == NodeKey(c);
        }
      }
    }

    /** The inner loop of `communiques_user_oriented`. */
    method ShareOf(path: seq<NodeId>, replaced: seq<NodeId>, leafKey: Key) returns (share: seq<(NodeId, Wrapped)>)
      requires forall v :: v in path ==> v in keys
      ensures share == UserKeys(path, replaced, keys, leafKey)
    {
      share := [];
      for i := 0 to |path|
        invariant share == UserKeys(path[..i], replaced, keys, leafKey)
      {
        assert path[..i + 1][..i] == path[..i];
        if path[i] in replaced {
          share := share + [(path[i], Wrapped(leafKey, keys[path[i]]))];
        }
      }
      assert path[..|path|] == path;
    }

    /** One user's round of `communiques_user_oriented`. */
    method UserCommunique(user: UserId, replaced: seq<NodeId>) returns (result: Result<seq<(NodeId, Wrapped)>, BcsError>)
      requires Valid() && user in userLeaves
      ensures userLeaves[user] !in graph.nodes ==> result == Err(Graph(NoSuchNode))
      ensures userLeaves[user] in graph.nodes ==> result == Ok(UserShare(View(), replaced, user))
    {
      hide Tree, KeyTable, Bounded, UserKeys;
      var leaf := userLeaves[user];
      var path := graph.LeafToRoot(leaf);
      if path.Err? {
        return Err(Graph(path.error));
      }
      PathKeyed(View(), leaf);
      var share := ShareOf(path.value, replaced, keys[leaf]);
      return Ok(share);
    }

    /** `communiques_user_oriented`, over the users in any order. */
    method UserOriented(replaced: seq<NodeId>) returns (result: Result<seq<Communique>, BcsError>)
      requires Valid()
      ensures result.Ok? <==> forall u :: u in userLeaves ==> userLeaves[u] in graph.nodes
      ensures result.Ok? ==> UserPackaged(View(), replaced, result.value, userLeaves.Keys)
      ensures result.Err? ==> result == Err(Graph(NoSuchNode))
    {
      hide Tree, KeyTable, Bounded, UserPackaged, UserShare;
      ghost var s := View();
      var out: seq<Communique> := [];
      var todo := userLeaves.Keys;
      ghost var done := {};
      NothingPackaged(s, replaced);
      while todo != {}
        invariant done !! todo && done + todo == userLeaves.Keys
        invariant forall u :: u in done ==> userLeaves[u] in graph.nodes
        invariant UserPackaged(s, replaced, out, done)
        decreases |todo|
      {
        var user :| user in todo;
        var share := UserCommunique(user, replaced);
        if share.Err? {
          return Err(Graph(NoSuchNode));
        }
        UserPackagedStep(s, replaced, out, done, user);
        todo, done := todo - {user}, done + {user};
        if share.value != [] {
          out := out + [Communique(UserLeaf(user), share.value)];
        }
      }
      assert done == userLeaves.Keys;
      return Ok(out);
    }

    /** `open_user_communique`. */
    static method OpenUserCommunique(communique: Communique, leafKey: Key) returns (result: Result<seq<(NodeId, Key)>, BcsError>)
      ensures result == match OpenWith(communique.keys, leafKey)
                        case None => Err(Cipher)
                        case Some(plain) => Ok(plain)
    {
      var out := [];
      var wraps := communique.keys;
      for i := 0 to |wraps|
        invariant OpenWith(wraps[..i], leafKey) == Some(out)
      {
        assert wraps[..i + 1][..i] == wraps[..i];
        if wraps[i].1.under != leafKey {
          return Err(Cipher);
        }
        out := out + [(wraps[i].0, wraps[i].1.payload)];
      }
      assert wraps[..|wraps|] == wraps;
      return Ok(out);
    }
  }

  lemma ParentsKeyed(s: State)
    requires Sound(s)
    ensures forall v :: v in s.nodes ==> v in s.keys
    ensures forall v :: v in s.nodes && s.nodes[v].parent.Some? ==> s.nodes[v].parent.value in s.keys
  {
    forall v | v in s.nodes && s.nodes[v].parent.Some?
      ensures s.nodes[v].parent.value in s.keys
    {
      assert AscendingAt(s.nodes, v);
    }
  }

  lemma NothingPackaged(s: State, replaced: seq<NodeId>)
    requires Sound(s)
    ensures UserPackaged(s, replaced, [], {})
  {
  }

  /** The new leaf's ancestors are the sponsor's path. */
  lemma JoinPath(s: State, sponsor: NodeId, coord: nat)
    requires Sound(s) && sponsor in s.nodes
    ensures var nodes := WithChild(s.nodes, sponsor, s.nextId, coord);
            Ascending(nodes) && s.nextId in nodes && Path(nodes, s.nextId)[1..] == Path(s.nodes, sponsor)
    ensures Descending(Path(s.nodes, sponsor))
  {
    hide Ascending, Layered, ChildrenInverse, WithChild, KeyTable, Path;
    var nodes := WithChild(s.nodes, sponsor, s.nextId, coord);
    WithChildAdded(s.nodes, sponsor, s.nextId, coord);
    AddedPaths(s.nodes, nodes, sponsor, s.nextId, coord, sponsor);
    PathDescends(s.nodes, sponsor);
  }

  lemma NothingRekeyed(nodes: Nodes, keys: map<NodeId, Key>)
    ensures Rekeyed(nodes, keys, [], [])
  {
  }

  lemma RotatedNil(keys: map<NodeId, Key>, k: Key)
    ensures Rotated(keys, [], k) == keys
  {
  }

  lemma FewChildren(nodes: Nodes, bounds: Bounds, v: NodeId, kids: seq<NodeId>)
    requires ChildrenInverse(nodes) && Ascending(nodes) && Bounded(nodes, bounds) && bounds.maxBreadth == 8
    requires ChildrenListed(nodes, v, kids)
    ensures |kids| <= 8
  {
    assert forall c :: c in kids ==> AscendingAt(nodes, c);
    assert kids != [] ==> kids[0] in kids;
    if v in nodes {
      ChildCount(nodes, v, kids);
    }
  }

  /** Between adding the leaf and rotating, the key table is in order. */
  lemma JoinTable(s: State, sponsor: NodeId, coord: nat)
    requires Sound(s) && sponsor in s.nodes
    ensures Sound(State(WithChild(s.nodes, sponsor, s.nextId, coord), s.nextId + 1,
                        s.keys[s.nextId := s.nextKey], s.userLeaves, s.nextKey + 1))
  {
    hide Ascending, Layered, ChildrenInverse, WithChild, KeyTable;
    AddedTree(s.nodes, s.nextId, sponsor, coord);
    ExtendTable(s.nodes.Keys, s.keys, s.nextId, s.nextKey);
  }

  lemma LeafKeyStays(s: State, sponsor: NodeId)
    requires Sound(s) && sponsor in s.nodes
    ensures var keys := Rotated(s.keys[s.nextId := s.nextKey], Path(s.nodes, sponsor), s.nextKey + 1);
            s.nextId in keys && keys[s.nextId] == s.nextKey
  {
    hide Layered, ChildrenInverse, KeyTable, Path;
    PathBounded(s.nodes, s.nextId, sponsor);
    RotatedKeys(s.keys[s.nextId := s.nextKey], Path(s.nodes, sponsor), s.nextKey + 1);
  }
}
