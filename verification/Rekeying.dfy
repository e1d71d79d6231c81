/**
 What the broadcast layer publishes (crates/broadcast/src/graph.rs and rekey.rs): data items, rekey
 messages and the three ways of packaging them, as values.
 */
module Rekeying {
  import opened Wrappers
  import opened Sequences
  import opened KeyGraphs
  import opened KeyHierarchy
  import opened KeySecrecy

  datatype Item = Item(node: NodeId, parent: NodeId, wrapped: Wrapped)

  datatype RekeyMessage = RekeyMessage(newKeyNode: NodeId, underNode: NodeId, wrapped: Wrapped)

  datatype RekeyResult = RekeyResult(replaced: seq<NodeId>, messages: seq<RekeyMessage>)

  datatype EncryptionRef = NodeKey(node: NodeId) | UserLeaf(user: UserId)

  datatype Communique = Communique(encryptedUnder: EncryptionRef, keys: seq<(NodeId, Wrapped)>)

  // ------------------------------------------------------------------------- data items

  ghost predicate ItemOk(s: State, item: Item)
  {
    && item.node in s.nodes && s.nodes[item.node].parent == Some(item.parent)
    && item.node in s.keys && item.parent in s.keys
    && item.wrapped == Wrapped(s.keys[item.node], s.keys[item.parent])
  }

  /** One item for each non-root node, carrying its parent's key under its own. */
  ghost predicate DataItems(s: State, items: seq<Item>)
  {
    && (forall i :: 0 <= i < |items| ==> ItemOk(s, items[i]))
    && (forall i, j :: 0 <= i < j < |items| ==> items[i].node != items[j].node)
    && (forall v :: v in s.nodes && s.nodes[v].parent.Some? ==> Lists(items, v))
  }

  ghost predicate Lists(items: seq<Item>, v: NodeId)
  {
    exists i :: 0 <= i < |items| && items[i].node == v
  }

  function Wraps(items: seq<Item>): set<Wrapped>
  {
    set i | 0 <= i < |items| :: items[i].wrapped
  }

  /** `find` the item for an edge. */
  function FindItem(items: seq<Item>, child: NodeId, parent: NodeId): (r: Option<Item>)
    ensures r.Some? ==> r.value in items && r.value.node == child && r.value.parent == parent
    ensures r.None? ==> forall i :: 0 <= i < |items| ==> !(items[i].node == child && items[i].parent == parent)
  {
    if items == [] then None
    else if items[0].node == child && items[0].parent == parent then Some(items[0])
    else FindItem(items[1..], child, parent)
  }

  /** Unwrapping from k up a path of nodes, as `user_decrypt` does. */
  function Climb(items: seq<Item>, path: seq<NodeId>, k: Key): Option<Key>
    decreases path
  {
    if |path| < 2 then Some(k)
    else
      match FindItem(items, path[0], path[1])
      case None => None
      case Some(item) => if item.wrapped.under == k then Climb(items, path[1..], item.wrapped.payload) else None
  }

  /** Whatever the items are, a climb is a derivation from the key it starts with. */
  lemma {:induction false} ClimbDerives(items: seq<Item>, path: seq<NodeId>, held: set<Key>, k: Key)
    requires Derives(held, Wraps(items), k) && Climb(items, path, k).Some?
    ensures Derives(held, Wraps(items), Climb(items, path, k).value)
    decreases path
  {
    hide Derives;
    if |path| >= 2 {
      var item := FindItem(items, path[0], path[1]).value;
      var i :| 0 <= i < |items| && items[i] == item;
      assert Wrapped(k, item.wrapped.payload) in Wraps(items);
      DerivesUnwrap(held, Wraps(items), k, item.wrapped.payload);
      ClimbDerives(items, path[1..], held, item.wrapped.payload);
    }
  }

  /** With the current items, only the node's current key climbs, and it reaches the root key. */
  lemma {:induction false} ClimbCurrent(s: State, items: seq<Item>, v: NodeId, k: Key)
    requires Sound(s) && DataItems(s, items) && v in s.nodes
    ensures ROOT in s.keys && v in s.keys
    ensures Climb(items, Path(s.nodes, v), k) ==
            if v == ROOT then Some(k) else if k == s.keys[v] then Some(s.keys[ROOT]) else None
    decreases v
  {
    hide KeysDistinct, ChildrenInverse;
    if v != ROOT {
      assert LayeredAt(s.nodes, v) && AscendingAt(s.nodes, v);
      var p := s.nodes[v].parent.value;
      var path := Path(s.nodes, v);
      assert path[1..] == Path(s.nodes, p);
      assert path[1] == p;
      assert Lists(items, v);
      var i :| 0 <= i < |items| && items[i].node == v;
      assert ItemOk(s, items[i]);
      var found := FindItem(items, v, p);
      assert found.Some? && ItemOk(s, found.value);
      ClimbCurrent(s, items, p, s.keys[p]);
    } else {
      assert Path(s.nodes, v) == [v];
    }
  }

  /** The data items are published items in the sense of the secrecy results. */
  lemma ItemsAreOut(s: State, items: seq<Item>, v: NodeId)
    requires DataItems(s, items) && v in s.nodes && s.nodes[v].parent.Some?
    ensures ItemOut(s, v, Wraps(items))
  {
    assert Lists(items, v);
    var i :| 0 <= i < |items| && items[i].node == v;
    assert ItemOk(s, items[i]);
    assert items[i].wrapped in Wraps(items);
  }

  lemma ParentAbove(nodes: Nodes, c: NodeId, p: NodeId)
    requires Ascending(nodes) && c in nodes && nodes[c].parent == Some(p)
    ensures Below(nodes, c, p)
  {
    assert AscendingAt(nodes, c);
    assert Path(nodes, c) == [c] + Path(nodes, p);
    assert Path(nodes, c)[1] == p;
  }

  lemma ItemsAreUpward(s: State, items: seq<Item>, w: Wrapped)
    requires Ascending(s.nodes) && DataItems(s, items) && w in Wraps(items)
    ensures exists c, a :: Upward(s, c, a, w)
  {
    var i :| 0 <= i < |items| && items[i].wrapped == w;
    assert ItemOk(s, items[i]);
    ParentAbove(s.nodes, items[i].node, items[i].parent);
    assert Upward(s, items[i].node, items[i].parent, w);
  }

  // --------------------------------------------------------------------- rekey messages

  ghost predicate MessageOk(nodes: Nodes, keys: map<NodeId, Key>, replaced: seq<NodeId>, m: RekeyMessage)
  {
    && m.newKeyNode in replaced
    && m.underNode in nodes && nodes[m.underNode].parent == Some(m.newKeyNode)
    && m.underNode in keys && m.newKeyNode in keys
    && m.wrapped == Wrapped(keys[m.underNode], keys[m.newKeyNode])
  }

  /** Exactly one message for each edge into a replaced node, under the child's current key. */
  ghost predicate Rekeyed(nodes: Nodes, keys: map<NodeId, Key>, replaced: seq<NodeId>, messages: seq<RekeyMessage>)
  {
    && (forall i :: 0 <= i < |messages| ==> MessageOk(nodes, keys, replaced, messages[i]))
    && UndersDistinct(messages)
    && (forall c :: c in nodes && nodes[c].parent.Some? && nodes[c].parent.value in replaced ==> MessageUnder(messages, c))
  }

  ghost predicate UndersDistinct(messages: seq<RekeyMessage>)
  {
    forall i, j :: 0 <= i < j < |messages| ==> messages[i].underNode != messages[j].underNode
  }

  ghost predicate MessageUnder(messages: seq<RekeyMessage>, c: NodeId)
  {
    exists i :: 0 <= i < |messages| && messages[i].underNode == c
  }

  function MessageWraps(messages: seq<RekeyMessage>): set<Wrapped>
  {
    set i | 0 <= i < |messages| :: messages[i].wrapped
  }

  /** The children of a node, in some order. */
  ghost predicate ChildrenListed(nodes: Nodes, v: NodeId, kids: seq<NodeId>)
  {
    && Distinct(kids)
    && (forall c :: c in kids <==> c in nodes && nodes[c].parent == Some(v))
  }

  /** The messages for one replaced node. */
  ghost predicate WrappedFor(keys: map<NodeId, Key>, v: NodeId, newKey: Key, kids: seq<NodeId>, more: seq<RekeyMessage>)
  {
    && |more| == |kids|
    && forall i :: 0 <= i < |kids| ==>
         kids[i] in keys && more[i] == RekeyMessage(v, kids[i], Wrapped(keys[kids[i]], newKey))
  }

  /** One more node up: earlier messages stay right, because neither end of theirs is rotated again. */
  lemma RekeyedStep(
      nodes: Nodes, keys: map<NodeId, Key>, replaced: seq<NodeId>, messages: seq<RekeyMessage>, v: NodeId,
      newKey: Key, kids: seq<NodeId>, more: seq<RekeyMessage>)
    requires Ascending(nodes) && Rekeyed(nodes, keys, replaced, messages) && forall a :: a in replaced ==> v < a
    requires ChildrenListed(nodes, v, kids) && WrappedFor(keys, v, newKey, kids, more)
    ensures Rekeyed(nodes, keys[v := newKey], replaced + [v], messages + more)
  {
    var keys', all := keys[v := newKey], messages + more;
    forall i | 0 <= i < |all|
      ensures MessageOk(nodes, keys', replaced + [v], all[i])
    {
      if i < |messages| {
        assert MessageOk(nodes, keys, replaced, messages[i]);
        assert AscendingAt(nodes, all[i].underNode);
      } else {
        assert kids[i - |messages|] in kids;
        assert AscendingAt(nodes, all[i].underNode);
      }
    }
    StepUnders(nodes, keys, replaced, messages, v, newKey, kids, more);
    forall c | c in nodes && nodes[c].parent.Some? && nodes[c].parent.value in replaced + [v]
      ensures MessageUnder(all, c)
    {
      if nodes[c].parent.value in replaced {
        assert MessageUnder(messages, c);
        var i :| 0 <= i < |messages| && messages[i].underNode == c;
        assert all[i].underNode == c;
      } else {
        var i :| 0 <= i < |kids| && kids[i] == c;
        assert all[|messages| + i].underNode == c;
      }
    }
  }

  lemma StepUnders(
      nodes: Nodes, keys: map<NodeId, Key>, replaced: seq<NodeId>, messages: seq<RekeyMessage>, v: NodeId,
      newKey: Key, kids: seq<NodeId>, more: seq<RekeyMessage>)
    requires Rekeyed(nodes, keys, replaced, messages) && forall a :: a in replaced ==> v < a
    requires ChildrenListed(nodes, v, kids) && WrappedFor(keys, v, newKey, kids, more)
    ensures UndersDistinct(messages + more)
  {
    var all := messages + more;
    forall i, j | 0 <= i < j < |all|
      ensures all[i].underNode != all[j].underNode
    {
      if i < |messages| <= j {
        assert MessageOk(nodes, keys, replaced, messages[i]);
        assert kids[j - |messages|] in kids;
      }
    }
  }

  /** The messages are what the sufficiency results ask for, and no more than upward wraps. */
  lemma RekeyedIsOut(s: State, replaced: seq<NodeId>, messages: seq<RekeyMessage>)
    requires ChildrenInverse(s.nodes) && Rekeyed(s.nodes, s.keys, replaced, messages)
    ensures RekeyOut(s, replaced, MessageWraps(messages))
  {
    forall v, c | v in replaced && v in s.nodes && c in s.nodes[v].children
      ensures v in s.keys && c in s.keys && Wrapped(s.keys[c], s.keys[v]) in MessageWraps(messages)
    {
      assert ListsChildren(s.nodes, v);
      assert MessageUnder(messages, c);
      var i :| 0 <= i < |messages| && messages[i].underNode == c;
      assert MessageOk(s.nodes, s.keys, replaced, messages[i]);
      assert messages[i].wrapped in MessageWraps(messages);
    }
  }

  lemma RekeyedIsUpward(s: State, replaced: seq<NodeId>, messages: seq<RekeyMessage>, w: Wrapped)
    requires Ascending(s.nodes) && Rekeyed(s.nodes, s.keys, replaced, messages) && w in MessageWraps(messages)
    ensures exists c, a :: Upward(s, c, a, w)
  {
    var i :| 0 <= i < |messages| && messages[i].wrapped == w;
    assert MessageOk(s.nodes, s.keys, replaced, messages[i]);
    ParentAbove(s.nodes, messages[i].underNode, messages[i].newKeyNode);
    assert Upward(s, messages[i].underNode, messages[i].newKeyNode, w);
  }

  // -------------------------------------------------------------------------- packaging

  /** `communiques_key_oriented`. */
  function KeyOriented(messages: seq<RekeyMessage>): seq<Communique>
  {
    seq(|messages|, i requires 0 <= i < |messages| =>
      Communique(NodeKey(messages[i].underNode), [(messages[i].newKeyNode, messages[i].wrapped)]))
  }

  /** The communique sends the new key of the replaced parent of a node, under the key of that node. */
  ghost predicate Informs(nodes: Nodes, keys: map<NodeId, Key>, replaced: seq<NodeId>, c: Communique)
  {
    && c.encryptedUnder.NodeKey? && c.encryptedUnder.node in nodes && nodes[c.encryptedUnder.node].parent.Some?
    && var u, v := c.encryptedUnder.node, nodes[c.encryptedUnder.node].parent.value;
    && v in replaced && u in keys && v in keys && c.keys == [(v, Wrapped(keys[u], keys[v]))]
  }

  /** Key-oriented communiques inform exactly the children of the replaced nodes, each once. */
  lemma KeyOrientedInforms(nodes: Nodes, keys: map<NodeId, Key>, replaced: seq<NodeId>, messages: seq<RekeyMessage>)
    requires Rekeyed(nodes, keys, replaced, messages)
    ensures forall c :: c in KeyOriented(messages) ==> Informs(nodes, keys, replaced, c)
    ensures forall u :: u in nodes && nodes[u].parent.Some? && nodes[u].parent.value in replaced ==>
              GroupFor(KeyOriented(messages), u)
    ensures forall i, j :: 0 <= i < j < |messages| ==>
              KeyOriented(messages)[i].encryptedUnder != KeyOriented(messages)[j].encryptedUnder
  {
    var out := KeyOriented(messages);
    forall c | c in out
      ensures Informs(nodes, keys, replaced, c)
    {
      var i :| 0 <= i < |out| && out[i] == c;
      assert MessageOk(nodes, keys, replaced, messages[i]);
    }
    forall u | u in nodes && nodes[u].parent.Some? && nodes[u].parent.value in replaced
      ensures GroupFor(out, u)
    {
      assert MessageUnder(messages, u);
      var i :| 0 <= i < |messages| && messages[i].underNode == u;
      assert out[i].encryptedUnder == NodeKey(u);
    }
  }

  /** The keys going out under one node, in message order. */
  function KeysUnder(messages: seq<RekeyMessage>, c: NodeId): (r: seq<(NodeId, Wrapped)>)
    ensures r == [] <==> !MessageUnder(messages, c)
  {
    if messages == [] then []
    else
      var n := |messages| - 1;
      var init := KeysUnder(messages[..n], c);
      assert MessageUnder(messages, c) <==> messages[n].underNode == c || MessageUnder(messages[..n], c) by {
        UnderInit(messages, c);
      }
      if messages[n].underNode == c then init + [(messages[n].newKeyNode, messages[n].wrapped)] else init
  }

  lemma UnderInit(messages: seq<RekeyMessage>, c: NodeId)
    requires messages != []
    ensures MessageUnder(messages, c) <==>
            messages[|messages| - 1].underNode == c || MessageUnder(messages[..|messages| - 1], c)
  {
    var n := |messages| - 1;
    forall i | 0 <= i < n
      ensures messages[..n][i] == messages[i]
    {
    }
    if MessageUnder(messages[..n], c) {
      var i :| 0 <= i < n && messages[..n][i].underNode == c;
      assert messages[i].underNode == c;
    }
    if MessageUnder(messages, c) && messages[n].underNode != c {
      var i :| 0 <= i < |messages| && messages[i].underNode == c;
      assert messages[..n][i].underNode == c;
    }
  }

  /** One communique for each encrypting node, carrying everything under it. */
  ghost predicate Grouped(messages: seq<RekeyMessage>, out: seq<Communique>)
  {
    && (forall i :: 0 <= i < |out| ==>
          out[i].encryptedUnder.NodeKey? && out[i].keys != []
          && out[i].keys == KeysUnder(messages, out[i].encryptedUnder.node))
    && (forall i, j :: 0 <= i < j < |out| ==> out[i].encryptedUnder != out[j].encryptedUnder)
    && (forall c :: MessageUnder(messages, c) ==> GroupFor(out, c))
  }

  ghost predicate GroupFor(out: seq<Communique>, c: NodeId)
  {
    exists i :: 0 <= i < |out| && out[i].encryptedUnder == NodeKey(c)
  }

  /** The hash map of `communiques_group_oriented` after some messages. */
  ghost predicate GroupMap(messages: seq<RekeyMessage>, grouped: map<NodeId, seq<(NodeId, Wrapped)>>)
  {
    && (forall c :: c in grouped <==> MessageUnder(messages, c))
    && (forall c :: c in grouped ==> grouped[c] == KeysUnder(messages, c))
  }

  lemma GroupMapStep(messages: seq<RekeyMessage>, grouped: map<NodeId, seq<(NodeId, Wrapped)>>, m: RekeyMessage)
    requires GroupMap(messages, grouped)
    ensures var sofar := if m.underNode in grouped then grouped[m.underNode] else [];
            GroupMap(messages + [m], grouped[m.underNode := sofar + [(m.newKeyNode, m.wrapped)]])
  {
    hide MessageUnder;
    var all := messages + [m];
    assert all[..|messages|] == messages;
    forall c
      ensures MessageUnder(all, c) <==> m.underNode == c || MessageUnder(messages, c)
    {
      UnderInit(all, c);
    }
  }

  /** With distinct encrypting nodes, the keys under a node are its one message. */
  lemma {:induction false} KeysUnderOne(messages: seq<RekeyMessage>, i: nat)
    requires i < |messages| && UndersDistinct(messages)
    ensures KeysUnder(messages, messages[i].underNode) == [(messages[i].newKeyNode, messages[i].wrapped)]
  {
    var n := |messages| - 1;
    assert UndersDistinct(messages[..n]);
    if i < n {
      assert messages[..n][i] == messages[i];
      KeysUnderOne(messages[..n], i);
    } else {
      assert !MessageUnder(messages[..n], messages[n].underNode);
    }
  }

  /**
   A single join or leave never gives a node two messages, so grouping by encrypting key packages
   it exactly as one key per communique does.
   */
  lemma GroupingChangesNothing(messages: seq<RekeyMessage>, out: seq<Communique>)
    requires UndersDistinct(messages) && Grouped(messages, out)
    ensures multiset(out) == multiset(KeyOriented(messages)) && |out| == |KeyOriented(messages)|
    ensures forall c :: c in out <==> c in KeyOriented(messages)
  {
    var flat := KeyOriented(messages);
    forall c | c in out
      ensures c in flat
    {
      var i :| 0 <= i < |out| && out[i] == c;
      var j :| 0 <= j < |messages| && messages[j].underNode == c.encryptedUnder.node;
      KeysUnderOne(messages, j);
      assert flat[j] == c;
    }
    forall c | c in flat
      ensures c in out
    {
      var j :| 0 <= j < |flat| && flat[j] == c;
      KeysUnderOne(messages, j);
      assert MessageUnder(messages, messages[j].underNode);
      var i :| 0 <= i < |out| && out[i].encryptedUnder == NodeKey(messages[j].underNode);
      assert out[i] == c;
    }
    assert Distinct(out) && Distinct(flat);
    SameLength(out, flat);
    SameMultiset(out, flat);
  }

  lemma SameMultiset<T>(a: seq<T>, b: seq<T>)
    requires Distinct(a) && Distinct(b) && forall x :: x in a <==> x in b
    ensures multiset(a) == multiset(b)
  {
    forall x
      ensures multiset(a)[x] == multiset(b)[x]
    {
      DistinctOnce(a, x);
      DistinctOnce(b, x);
    }
  }

  lemma {:induction false} DistinctOnce<T>(s: seq<T>, x: T)
    requires Distinct(s)
    ensures multiset(s)[x] == if x in s then 1 else 0
  {
    if s != [] {
      var n := |s| - 1;
      DistinctOnce(s[..n], x);
      assert s == s[..n] + [s[n]];
    }
  }

  /** Duplicate-free sequences with the same elements have the same length. */
  lemma SameLength<T>(a: seq<T>, b: seq<T>)
    requires Distinct(a) && Distinct(b) && forall x :: x in a <==> x in b
    ensures |a| == |b|
  {
    var left, right := set x | x in a, set x | x in b;
    assert left == right;
    DistinctSize(a);
    DistinctSize(b);
  }

  lemma {:induction false} DistinctSize<T>(s: seq<T>)
    requires Distinct(s)
    ensures |set x | x in s| == |s|
  {
    if s != [] {
      var n := |s| - 1;
      DistinctSize(s[..n]);
      assert s == s[..n] + [s[n]];
      assert (set x | x in s) == (set x | x in s[..n]) + {s[n]};
    }
  }

  /** A user's share of a rekeying: the replaced nodes on its path, under its leaf key. */
  function UserKeys(path: seq<NodeId>, replaced: seq<NodeId>, keys: map<NodeId, Key>, leafKey: Key): (r: seq<(NodeId, Wrapped)>)
    requires forall v :: v in path ==> v in keys
    ensures r == [] <==> forall v :: v in path ==> v !in replaced
  {
    if path == [] then []
    else
      var init := UserKeys(path[..|path| - 1], replaced, keys, leafKey);
      var v := path[|path| - 1];
      assert path == path[..|path| - 1] + [v];
      if v in replaced then init + [(v, Wrapped(leafKey, keys[v]))] else init
  }

  /** What is in it: the replaced nodes on the path with their current keys, and nothing else. */
  lemma {:induction false} UserKeysContent(path: seq<NodeId>, replaced: seq<NodeId>, keys: map<NodeId, Key>, leafKey: Key)
    requires forall v :: v in path ==> v in keys
    ensures forall v, w :: (v, w) in UserKeys(path, replaced, keys, leafKey) <==>
                             v in path && v in replaced && w == Wrapped(leafKey, keys[v])
  {
    if path != [] {
      var n := |path| - 1;
      UserKeysContent(path[..n], replaced, keys, leafKey);
      assert path == path[..n] + [path[n]];
    }
  }

  /** `open_user_communique`: every wrap must open. */
  function OpenWith(wraps: seq<(NodeId, Wrapped)>, k: Key): (r: Option<seq<(NodeId, Key)>>)
    ensures r.Some? <==> forall i :: 0 <= i < |wraps| ==> wraps[i].1.under == k
    ensures r.Some? ==> |r.value| == |wraps|
                        && forall i :: 0 <= i < |wraps| ==> r.value[i] == (wraps[i].0, wraps[i].1.payload)
  {
    if wraps == [] then Some([])
    else
      var n := |wraps| - 1;
      var init := OpenWith(wraps[..n], k);
      if init.Some? && wraps[n].1.under == k then
        Some(init.value + [(wraps[n].0, wraps[n].1.payload)])
      else
        assert forall i :: 0 <= i < n ==> wraps[..n][i] == wraps[i];
        None
  }

  /** A user's communique opens with its leaf key only, and holds its replaced nodes' current keys. */
  lemma UserShareOpens(path: seq<NodeId>, replaced: seq<NodeId>, keys: map<NodeId, Key>, leafKey: Key, k: Key)
    requires forall v :: v in path ==> v in keys
    requires exists v :: v in path && v in replaced
    ensures OpenWith(UserKeys(path, replaced, keys, leafKey), k).Some? <==> k == leafKey
    ensures k == leafKey ==>
              forall v, x :: (v, x) in OpenWith(UserKeys(path, replaced, keys, leafKey), k).value <==>
                               v in path && v in replaced && x == keys[v]
  {
    var wraps := UserKeys(path, replaced, keys, leafKey);
    UserKeysContent(path, replaced, keys, leafKey);
    forall i | 0 <= i < |wraps|
      ensures wraps[i].1.under == leafKey && (wraps[i].0, wraps[i].1) in wraps
    {
      assert (wraps[i].0, wraps[i].1) in wraps;
    }
    assert wraps[0].1.under == leafKey;
    if k == leafKey {
      var plain := OpenWith(wraps, k).value;
      forall v, x
        ensures (v, x) in plain <==> v in path && v in replaced && x == keys[v]
      {
        if (v, x) in plain {
          var i :| 0 <= i < |plain| && plain[i] == (v, x);
          assert (wraps[i].0, wraps[i].1) in wraps;
        }
        if v in path && v in replaced && x == keys[v] {
          assert (v, Wrapped(leafKey, keys[v])) in wraps;
          var i :| 0 <= i < |wraps| && wraps[i] == (v, Wrapped(leafKey, keys[v]));
          assert plain[i] == (v, x);
        }
      }
    }
  }

  /** What a user gets of a rekeying, in the current state. */
  ghost function UserShare(s: State, replaced: seq<NodeId>, u: UserId): seq<(NodeId, Wrapped)>
    requires Sound(s) && u in s.userLeaves && s.userLeaves[u] in s.nodes
  {
    var leaf := s.userLeaves[u];
    PathKeyed(s, leaf);
    UserKeys(Path(s.nodes, leaf), replaced, s.keys, s.keys[leaf])
  }

  lemma PathKeyed(s: State, v: NodeId)
    requires Sound(s) && v in s.nodes
    ensures v in s.keys && forall a :: a in Path(s.nodes, v) ==> a in s.keys
  {
    PathShape(s.nodes, v);
  }

  /** One communique for each user whose path is touched, with its whole share. */
  ghost predicate UserPackaged(s: State, replaced: seq<NodeId>, out: seq<Communique>, users: set<UserId>)
    requires Sound(s) && users <= s.userLeaves.Keys && forall u :: u in users ==> s.userLeaves[u] in s.nodes
  {
    && (forall i :: 0 <= i < |out| ==>
          && out[i].encryptedUnder.UserLeaf? && out[i].encryptedUnder.user in users
          && out[i].keys != [] && out[i].keys == UserShare(s, replaced, out[i].encryptedUnder.user))
    && (forall i, j :: 0 <= i < j < |out| ==> out[i].encryptedUnder != out[j].encryptedUnder)
    && (forall u :: u in users && UserShare(s, replaced, u) != [] ==> ShareFor(out, u))
  }

  ghost predicate ShareFor(out: seq<Communique>, u: UserId)
  {
    exists i :: 0 <= i < |out| && out[i].encryptedUnder == UserLeaf(u)
  }

  lemma UserPackagedStep(s: State, replaced: seq<NodeId>, out: seq<Communique>, users: set<UserId>, u: UserId)
    requires Sound(s) && users <= s.userLeaves.Keys && forall x :: x in users ==> s.userLeaves[x] in s.nodes
    requires u !in users && u in s.userLeaves && s.userLeaves[u] in s.nodes
    requires UserPackaged(s, replaced, out, users)
    ensures var share := UserShare(s, replaced, u);
            UserPackaged(s, replaced, if share == [] then out else out + [Communique(UserLeaf(u), share)], users + {u})
  {
    hide Sound, UserShare;
    var share := UserShare(s, replaced, u);
    var out' := if share == [] then out else out + [Communique(UserLeaf(u), share)];
    forall x | x in users + {u} && UserShare(s, replaced, x) != []
      ensures ShareFor(out', x)
    {
      if x == u {
        assert out'[|out|].encryptedUnder == UserLeaf(u);
      } else {
        assert ShareFor(out, x);
        var i :| 0 <= i < |out| && out[i].encryptedUnder == UserLeaf(x);
        assert out'[i].encryptedUnder == UserLeaf(x);
      }
    }
  }

  lemma UserShareUpward(s: State, replaced: seq<NodeId>, u: UserId, i: nat)
    requires Sound(s) && u in s.userLeaves && s.userLeaves[u] in s.nodes && i < |UserShare(s, replaced, u)|
    ensures Upward(s, s.userLeaves[u], UserShare(s, replaced, u)[i].0, UserShare(s, replaced, u)[i].1)
  {
    hide Path, Layered, ChildrenInverse, KeysDistinct, UserKeys;
    var leaf := s.userLeaves[u];
    PathKeyed(s, leaf);
    var share := UserShare(s, replaced, u);
    UserKeysContent(Path(s.nodes, leaf), replaced, s.keys, s.keys[leaf]);
    assert (share[i].0, share[i].1) in share;
  }

  // --------------------------------------------------------------- everything published

  lemma {:induction false} KeysUnderWraps(messages: seq<RekeyMessage>, c: NodeId, k: nat)
    requires k < |KeysUnder(messages, c)|
    ensures KeysUnder(messages, c)[k].1 in MessageWraps(messages)
  {
    var n := |messages| - 1;
    assert messages[n].wrapped in MessageWraps(messages);
    assert forall w :: w in MessageWraps(messages[..n]) ==> w in MessageWraps(messages) by {
      forall w | w in MessageWraps(messages[..n])
        ensures w in MessageWraps(messages)
      {
        var i :| 0 <= i < n && messages[..n][i].wrapped == w;
        assert messages[i].wrapped == w;
      }
    }
    if k < |KeysUnder(messages[..n], c)| {
      KeysUnderWraps(messages[..n], c, k);
    }
  }

  /** Published in state s: a data item, a rekey message in any packaging, or part of a user's communique. */
  ghost predicate PublishedIn(s: State, w: Wrapped)
  {
    || (exists items :: DataItems(s, items) && w in Wraps(items))
    || (exists replaced, messages :: Rekeyed(s.nodes, s.keys, replaced, messages) && w in MessageWraps(messages))
    || (exists replaced, u, i :: InShare(s, replaced, u, i, w))
  }

  ghost predicate InShare(s: State, replaced: seq<NodeId>, u: UserId, i: nat, w: Wrapped)
  {
    && Sound(s) && u in s.userLeaves && s.userLeaves[u] in s.nodes
    && i < |UserShare(s, replaced, u)| && UserShare(s, replaced, u)[i].1 == w
  }

  lemma PublishedIsUpward(s: State, w: Wrapped)
    requires Sound(s) && PublishedIn(s, w)
    ensures exists c, a :: Upward(s, c, a, w)
  {
    hide DataItems, Rekeyed, Wraps, MessageWraps, UserShare, Upward, KeyTable, Layered, ChildrenInverse;
    if items :| DataItems(s, items) && w in Wraps(items) {
      ItemsAreUpward(s, items, w);
    } else if replaced, messages :| Rekeyed(s.nodes, s.keys, replaced, messages) && w in MessageWraps(messages) {
      RekeyedIsUpward(s, replaced, messages, w);
    } else {
      var replaced, u, i :| InShare(s, replaced, u, i, w);
      UserShareUpward(s, replaced, u, i);
    }
  }

  /**
   The audience law for what the code publishes: over any run, whatever mixture of data items, rekey
   messages and communiques of its states is out, as long as the items of every state are, a coalition
   derives a node's key in a state exactly when a member sat at or below the node in that state.
   */
  lemma PublicationLaw(
      states: seq<State>, events: seq<Event>, published: set<Wrapped>, coalition: set<UserId>, i: nat, v: NodeId)
    requires Run(states, events) && i < |states| && v in states[i].nodes
    requires forall w :: w in published ==> exists j :: 0 <= j < |states| && PublishedIn(states[j], w)
    requires forall j :: 0 <= j < |states| ==> exists items :: DataItems(states[j], items) && Wraps(items) <= published
    ensures v in states[i].keys
    ensures Derives(HeldBy(states, coalition), published, states[i].keys[v])
       <==> exists x :: x in coalition && Sits(states[i], v, x)
  {
    hide Tree, KeyTable, Disciplined, Step, PublishedIn, Upward, DataItems, Wraps, ItemOut, Derives, Sits;
    RunIsGood(states, events);
    forall w | w in published
      ensures exists j, c, a :: 0 <= j < |states| && Upward(states[j], c, a, w)
    {
      var j :| 0 <= j < |states| && PublishedIn(states[j], w);
      PublishedIsUpward(states[j], w);
    }
    forall j, u | 0 <= j < |states| && u in states[j].nodes && states[j].nodes[u].parent.Some?
      ensures ItemOut(states[j], u, published)
    {
      var items :| DataItems(states[j], items) && Wraps(items) <= published;
      ItemsAreOut(states[j], items, u);
      MoreOut(states[j], u, Wraps(items), published);
    }
    DerivesIff(states, events, published, coalition, i, v);
  }

  lemma MoreOut(s: State, v: NodeId, some: set<Wrapped>, more: set<Wrapped>)
    requires v in s.nodes && s.nodes[v].parent.Some? && ItemOut(s, v, some) && some <= more
    ensures ItemOut(s, v, more)
  {
  }

  // ----------------------------------------------------------- each packaging suffices

  /** Everything carried by some communiques. */
  ghost function CommuniqueWraps(out: seq<Communique>): set<Wrapped>
  {
    set i, k | 0 <= i < |out| && 0 <= k < |out[i].keys| :: out[i].keys[k].1
  }

  lemma KeyOrientedWraps(messages: seq<RekeyMessage>)
    ensures CommuniqueWraps(KeyOriented(messages)) == MessageWraps(messages)
  {
    var out := KeyOriented(messages);
    forall w | w in MessageWraps(messages)
      ensures w in CommuniqueWraps(out)
    {
      var i :| 0 <= i < |messages| && messages[i].wrapped == w;
      assert out[i].keys[0].1 == w;
    }
  }

  lemma SameWraps(a: seq<Communique>, b: seq<Communique>)
    requires forall c :: c in a <==> c in b
    ensures CommuniqueWraps(a) == CommuniqueWraps(b)
  {
    SomeWraps(a, b);
    SomeWraps(b, a);
  }

  lemma SomeWraps(a: seq<Communique>, b: seq<Communique>)
    requires forall c :: c in a ==> c in b
    ensures CommuniqueWraps(a) <= CommuniqueWraps(b)
  {
    forall w | w in CommuniqueWraps(a)
      ensures w in CommuniqueWraps(b)
    {
      var i, k :| 0 <= i < |a| && 0 <= k < |a[i].keys| && a[i].keys[k].1 == w;
      assert a[i] in b;
      var j :| 0 <= j < |b| && b[j] == a[i];
      assert b[j].keys[k].1 == w;
    }
  }

  /** Key-oriented: after any proper join or leave each member gets its current path keys from it alone. */
  lemma KeyOrientedSuffices(
      s: State, e: Event, s': State, messages: seq<RekeyMessage>, u: UserId, held: set<Key>, a: NodeId)
    requires Good(s) && Ascending(s.nodes) && Changes(s, e, s')
    requires Rekeyed(s'.nodes, s'.keys, Replaced(s, e), messages)
    requires Brings(s, s', u, held) && Ascending(s'.nodes) && Below(s'.nodes, s'.userLeaves[u], a)
    ensures a in s'.keys && Derives(held, CommuniqueWraps(KeyOriented(messages)), s'.keys[a])
  {
    hide *;
    ChangeSound(s, e, s');
    RekeyedIsOut(s', Replaced(s, e), messages);
    KeepsUp(s, e, s', MessageWraps(messages), u, held, a);
    KeyOrientedWraps(messages);
  }

  lemma ChangeSound(s: State, e: Event, s': State)
    requires Good(s) && Ascending(s.nodes) && Changes(s, e, s')
    ensures Good(s') && Sound(s') && ChildrenInverse(s'.nodes)
  {
    hide Changes, Ascending, Layered, ChildrenInverse, KeyTable, Disciplined;
    StepGood(s, e, s');
  }

  /** Group-oriented: likewise. */
  lemma GroupOrientedSuffices(
      s: State, e: Event, s': State, messages: seq<RekeyMessage>, out: seq<Communique>, u: UserId, held: set<Key>, a: NodeId)
    requires Good(s) && Ascending(s.nodes) && Changes(s, e, s')
    requires Rekeyed(s'.nodes, s'.keys, Replaced(s, e), messages) && Grouped(messages, out)
    requires Brings(s, s', u, held) && Ascending(s'.nodes) && Below(s'.nodes, s'.userLeaves[u], a)
    ensures a in s'.keys && Derives(held, CommuniqueWraps(out), s'.keys[a])
  {
    hide *;
    KeyOrientedSuffices(s, e, s', messages, u, held, a);
    RekeyedUnders(s'.nodes, s'.keys, Replaced(s, e), messages);
    GroupingChangesNothing(messages, out);
    SameWraps(out, KeyOriented(messages));
  }

  lemma RekeyedUnders(nodes: Nodes, keys: map<NodeId, Key>, replaced: seq<NodeId>, messages: seq<RekeyMessage>)
    requires Rekeyed(nodes, keys, replaced, messages)
    ensures UndersDistinct(messages)
  {
  }

  /**
   User-oriented: a member with a replaced node on its path has one communique; the leaf key it
   brings opens it, and gives exactly the current keys of the replaced nodes on its path.
   */
  lemma UserOrientedSuffices(s: State, e: Event, s': State, out: seq<Communique>, u: UserId, held: set<Key>, a: NodeId)
      returns (i: nat)
    requires Good(s) && Ascending(s.nodes) && Changes(s, e, s') && Brings(s, s', u, held)
    requires Sound(s') && (forall x :: x in s'.userLeaves ==> s'.userLeaves[x] in s'.nodes)
    requires UserPackaged(s', Replaced(s, e), out, s'.userLeaves.Keys)
    requires Below(s'.nodes, s'.userLeaves[u], a) && a in Replaced(s, e)
    ensures i < |out| && out[i].encryptedUnder == UserLeaf(u)
    ensures s'.userLeaves[u] in s'.keys && s'.keys[s'.userLeaves[u]] in held
    ensures var plain := OpenWith(out[i].keys, s'.keys[s'.userLeaves[u]]);
            && plain.Some?
            && forall b, x :: (b, x) in plain.value <==>
                 Below(s'.nodes, s'.userLeaves[u], b) && b in Replaced(s, e) && b in s'.keys && x == s'.keys[b]
  {
    hide Ascending, Layered, ChildrenInverse, KeyTable, Disciplined, Changes, HoldsPath, OpenWith, UserKeys, Replaced, Path;
    var leaf, replaced := s'.userLeaves[u], Replaced(s, e);
    LeafKeyKept(s, e, s', u, held);
    PathKeyed(s', leaf);
    var path := Path(s'.nodes, leaf);
    UserShareOpens(path, replaced, s'.keys, s'.keys[leaf], s'.keys[leaf]);
    ShareSome(path, replaced, s'.keys, s'.keys[leaf], a);
    assert ShareFor(out, u);
    i :| 0 <= i < |out| && out[i].encryptedUnder == UserLeaf(u);
  }

  lemma ShareSome(path: seq<NodeId>, replaced: seq<NodeId>, keys: map<NodeId, Key>, leafKey: Key, a: NodeId)
    requires (forall v :: v in path ==> v in keys) && a in path && a in replaced
    ensures UserKeys(path, replaced, keys, leafKey) != []
  {
  }
}
