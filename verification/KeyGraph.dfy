/** The bounded key graph (crates/keygraph/src/graph.rs): a rooted tree kept in a node table. */
module KeyGraphs {
  import opened Wrappers
  import opened Sequences

  type NodeId = nat

  const U64_MAX: nat := 0xFFFF_FFFF_FFFF_FFFF
  const USIZE_MAX: nat := 0xFFFF_FFFF_FFFF_FFFF

  datatype KgError = NoSuchNode | BoundExceeded | CannotRemoveRoot | Cycle | Invariant

  datatype Bounds = Bounds(maxDepth: nat, maxBreadth: nat, maxNodes: nat)

  datatype Node = Node(position: seq<nat>, layer: nat, parent: Option<NodeId>, children: seq<NodeId>, keyEpoch: nat)

  type Nodes = map<NodeId, Node>

  const ROOT: NodeId := 0

  // ------------------------------------------------------------------- well-formedness

  /** A parent exists and is older than its child. */
  ghost predicate AscendingAt(nodes: Nodes, v: NodeId)
    requires v in nodes
  {
    nodes[v].parent.Some? ==> nodes[v].parent.value in nodes && nodes[v].parent.value < v
  }

  ghost predicate Ascending(nodes: Nodes)
  {
    forall v :: v in nodes ==> AscendingAt(nodes, v)
  }

  /** A non-root node sits one step below its parent. */
  ghost predicate LayeredAt(nodes: Nodes, v: NodeId)
    requires v in nodes
  {
    && nodes[v].parent.Some? && nodes[v].parent.value in nodes
    && nodes[v].layer == nodes[nodes[v].parent.value].layer + 1
    && nodes[v].position != []
    && nodes[v].position[..|nodes[v].position| - 1] == nodes[nodes[v].parent.value].position
  }

  /** A single root, at the empty position, and every other node layered under its parent. */
  ghost predicate Layered(nodes: Nodes)
  {
    && ROOT in nodes && nodes[ROOT].parent == None
    && nodes[ROOT].layer == 0 && nodes[ROOT].position == []
    && forall v :: v in nodes && v != ROOT ==> LayeredAt(nodes, v)
  }

  /** p's child list holds exactly the nodes that name p as parent, each once. */
  ghost predicate ListsChildren(nodes: Nodes, p: NodeId)
    requires p in nodes
  {
    && Distinct(nodes[p].children)
    && (forall c :: c in nodes[p].children ==> c in nodes && nodes[c].parent == Some(p))
    && (forall c :: c in nodes && nodes[c].parent == Some(p) ==> c in nodes[p].children)
  }

  /** Child lists are the duplicate-free inverse of the parent edges. */
  ghost predicate ChildrenInverse(nodes: Nodes)
  {
    forall p :: p in nodes ==> ListsChildren(nodes, p)
  }

  ghost predicate Tree(nodes: Nodes, nextId: nat)
  {
    && Ascending(nodes) && Layered(nodes) && ChildrenInverse(nodes)
    && forall v :: v in nodes ==> v < nextId
  }

  ghost predicate Bounded(nodes: Nodes, bounds: Bounds)
  {
    && (forall v :: v in nodes ==> nodes[v].layer <= bounds.maxDepth && |nodes[v].children| <= bounds.maxBreadth)
    && (|nodes| <= bounds.maxNodes || |nodes| == 1)
  }

  // ------------------------------------------------------------------------------ paths

  /** The path from a node up to the root. */
  ghost function Path(nodes: Nodes, v: NodeId): (path: seq<NodeId>)
    requires Ascending(nodes) && v in nodes
    ensures |path| > 0 && path[0] == v
    decreases v
  {
    match nodes[v].parent
    case None => [v]
    case Some(p) => [v] + Path(nodes, p)
  }

  lemma {:induction false} PathShape(nodes: Nodes, v: NodeId)
    requires Ascending(nodes) && v in nodes
    ensures forall i :: 0 <= i < |Path(nodes, v)| ==> Path(nodes, v)[i] in nodes && Path(nodes, v)[i] <= v
    ensures Distinct(Path(nodes, v))
    decreases v
  {
    if nodes[v].parent.Some? {
      PathShape(nodes, nodes[v].parent.value);
    }
  }

  /** In a layered tree the path has one node per layer and ends at the root. */
  lemma {:induction false} PathLength(nodes: Nodes, v: NodeId)
    requires Ascending(nodes) && Layered(nodes) && v in nodes
    ensures |Path(nodes, v)| == nodes[v].layer + 1 == |nodes[v].position| + 1
    ensures Path(nodes, v)[|Path(nodes, v)| - 1] == ROOT
    decreases v
  {
    if v != ROOT {
      PathLength(nodes, nodes[v].parent.value);
    }
  }

  /** Consecutive path entries are child and parent, and the path above an entry is its own path. */
  lemma {:induction false} PathAbove(nodes: Nodes, v: NodeId, i: nat)
    requires Ascending(nodes) && v in nodes && i < |Path(nodes, v)|
    ensures Path(nodes, v)[i] in nodes && Path(nodes, v)[i..] == Path(nodes, Path(nodes, v)[i])
    ensures i + 1 < |Path(nodes, v)| ==> nodes[Path(nodes, v)[i]].parent == Some(Path(nodes, v)[i + 1])
    decreases v
  {
    var path := Path(nodes, v);
    if i > 0 {
      var p := nodes[v].parent.value;
      assert path[1..] == Path(nodes, p);
      PathAbove(nodes, p, i - 1);
      assert path[i..] == path[1..][i - 1..];
    } else {
      assert path[0..] == path;
    }
  }

  /** Only the parent pointers matter. */
  lemma {:induction false} PathSame(nodes: Nodes, nodes': Nodes, v: NodeId)
    requires Ascending(nodes) && Ascending(nodes') && v in nodes && v in nodes'
    requires forall u :: u in nodes && u in nodes' ==> nodes[u].parent == nodes'[u].parent
    ensures Path(nodes, v) == Path(nodes', v)
    decreases v
  {
    if nodes[v].parent.Some? {
      PathSame(nodes, nodes', nodes[v].parent.value);
    }
  }

  ghost predicate Below(nodes: Nodes, v: NodeId, a: NodeId)
    requires Ascending(nodes)
  {
    v in nodes && a in Path(nodes, v)
  }

  lemma BelowTrans(nodes: Nodes, v: NodeId, a: NodeId, b: NodeId)
    requires Ascending(nodes) && Below(nodes, v, a) && Below(nodes, a, b)
    ensures Below(nodes, v, b)
  {
    var i :| 0 <= i < |Path(nodes, v)| && Path(nodes, v)[i] == a;
    PathAbove(nodes, v, i);
    var j :| 0 <= j < |Path(nodes, a)| && Path(nodes, a)[j] == b;
    assert Path(nodes, v)[i + j] == b;
  }

  /** A strict descendant is below one of the children. */
  lemma BelowChild(nodes: Nodes, v: NodeId, a: NodeId) returns (c: NodeId)
    requires Ascending(nodes) && ChildrenInverse(nodes) && Below(nodes, v, a) && v != a
    ensures a in nodes && c in nodes[a].children && Below(nodes, v, c)
  {
    var path := Path(nodes, v);
    var i :| 0 <= i < |path| && path[i] == a;
    PathAbove(nodes, v, i);
    PathAbove(nodes, v, i - 1);
    c := path[i - 1];
  }

  // --------------------------------------------------------------------------- adding

  ghost function WithChild(nodes: Nodes, p: NodeId, id: NodeId, coord: nat): Nodes
    requires p in nodes
  {
    var parent := nodes[p];
    nodes[id := Node(parent.position + [coord], parent.layer + 1, Some(p), [], 0)]
         [p := parent.(children := parent.children + [id])]
  }

  /** What adding a child changes, node by node. */
  ghost predicate ChildAdded(nodes: Nodes, nodes': Nodes, p: NodeId, id: NodeId, coord: nat)
  {
    && p in nodes && id !in nodes && (forall v :: v in nodes ==> v < id)
    && nodes'.Keys == nodes.Keys + {id}
    && nodes'[id] == Node(nodes[p].position + [coord], nodes[p].layer + 1, Some(p), [], 0)
    && nodes'[p] == nodes[p].(children := nodes[p].children + [id])
    && forall u :: u in nodes && u != p ==> nodes'[u] == nodes[u]
  }

  lemma AddedAscending(nodes: Nodes, nodes': Nodes, p: NodeId, id: NodeId, coord: nat)
    requires Ascending(nodes) && ChildAdded(nodes, nodes', p, id, coord)
    ensures Ascending(nodes')
  {
  }

  lemma AddedLayered(nodes: Nodes, nodes': Nodes, p: NodeId, id: NodeId, coord: nat)
    requires Layered(nodes) && ChildAdded(nodes, nodes', p, id, coord)
    ensures Layered(nodes')
  {
    forall v | v in nodes' && v != ROOT
      ensures LayeredAt(nodes', v)
    {
      if v == id {
        assert (nodes[p].position + [coord])[..|nodes[p].position|] == nodes[p].position;
      } else {
        assert LayeredAt(nodes, v);
      }
    }
  }

  lemma AddedParentLists(nodes: Nodes, nodes': Nodes, p: NodeId, id: NodeId, coord: nat)
    requires ListsChildrenOf(nodes, p) && ChildAdded(nodes, nodes', p, id, coord)
    ensures ListsChildren(nodes', p)
  {
    var before, after := nodes[p].children, nodes'[p].children;
    assert id !in before;
    assert after[|before|] == id;
    forall c | c in nodes' && nodes'[c].parent == Some(p)
      ensures c in after
    {
      if c != id { assert c in before; }
    }
  }

  ghost predicate ListsChildrenOf(nodes: Nodes, p: NodeId)
  {
    p in nodes && ListsChildren(nodes, p)
  }

  /** A node the addition does not touch keeps its child list. */
  lemma AddedOtherLists(nodes: Nodes, nodes': Nodes, p: NodeId, id: NodeId, coord: nat, a: NodeId)
    requires ListsChildrenOf(nodes, a) && ChildAdded(nodes, nodes', p, id, coord) && a != p
    ensures ListsChildren(nodes', a)
  {
    assert nodes'[a] == nodes[a];
    forall c | c in nodes' && nodes'[c].parent == Some(a)
      ensures c in nodes'[a].children
    {
      assert c in nodes && nodes[c].parent == Some(a);
    }
  }

  lemma AddedLeafLists(nodes: Nodes, nodes': Nodes, p: NodeId, id: NodeId, coord: nat)
    requires Ascending(nodes) && ChildAdded(nodes, nodes', p, id, coord)
    ensures ListsChildren(nodes', id)
  {
    forall c | c in nodes'
      ensures nodes'[c].parent != Some(id)
    {
      if c != id { assert AscendingAt(nodes, c); }
    }
  }

  lemma AddedInverse(nodes: Nodes, nodes': Nodes, p: NodeId, id: NodeId, coord: nat)
    requires Ascending(nodes) && ChildrenInverse(nodes) && ChildAdded(nodes, nodes', p, id, coord)
    ensures ChildrenInverse(nodes')
  {
    hide ListsChildren, Ascending;
    AddedParentLists(nodes, nodes', p, id, coord);
    AddedLeafLists(nodes, nodes', p, id, coord);
    forall a | a in nodes'
      ensures ListsChildren(nodes', a)
    {
      if a != id && a != p {
        AddedOtherLists(nodes, nodes', p, id, coord, a);
      }
    }
  }

  lemma WithChildAdded(nodes: Nodes, p: NodeId, id: NodeId, coord: nat)
    requires p in nodes && forall v :: v in nodes ==> v < id
    ensures ChildAdded(nodes, WithChild(nodes, p, id, coord), p, id, coord)
  {
  }

  lemma AddedTree(nodes: Nodes, nextId: nat, p: NodeId, coord: nat)
    requires Tree(nodes, nextId) && p in nodes
    ensures Tree(WithChild(nodes, p, nextId, coord), nextId + 1)
    ensures WithChild(nodes, p, nextId, coord).Keys == nodes.Keys + {nextId}
  {
    hide Ascending, Layered, ChildrenInverse, WithChild;
    var nodes' := WithChild(nodes, p, nextId, coord);
    WithChildAdded(nodes, p, nextId, coord);
    AddedAscending(nodes, nodes', p, nextId, coord);
    AddedLayered(nodes, nodes', p, nextId, coord);
    AddedInverse(nodes, nodes', p, nextId, coord);
  }

  lemma BoundedAt(nodes: Nodes, bounds: Bounds, v: NodeId)
    requires Bounded(nodes, bounds)
    ensures v in nodes ==> nodes[v].layer <= bounds.maxDepth && |nodes[v].children| <= bounds.maxBreadth
  {
  }

  /** A child added within the bounds keeps them. */
  lemma AddedBounded(nodes: Nodes, bounds: Bounds, id: NodeId, p: NodeId, coord: nat)
    requires Bounded(nodes, bounds) && p in nodes && id !in nodes
    requires nodes[p].layer < bounds.maxDepth && |nodes[p].children| < bounds.maxBreadth && |nodes| < bounds.maxNodes
    ensures Bounded(WithChild(nodes, p, id, coord), bounds)
  {
    assert WithChild(nodes, p, id, coord).Keys == nodes.Keys + {id};
    assert |WithChild(nodes, p, id, coord).Keys| == |nodes.Keys| + 1;
  }

  /** Old paths survive, and the new node's path is one step longer than its parent's. */
  lemma AddedPaths(nodes: Nodes, nodes': Nodes, p: NodeId, id: NodeId, coord: nat, v: NodeId)
    requires Ascending(nodes) && ChildAdded(nodes, nodes', p, id, coord) && v in nodes
    ensures Ascending(nodes')
    ensures Path(nodes', v) == Path(nodes, v) && Path(nodes', id) == [id] + Path(nodes, p)
  {
    AddedAscending(nodes, nodes', p, id, coord);
    assert forall u :: u in nodes && u in nodes' ==> nodes[u].parent == nodes'[u].parent;
    PathSame(nodes, nodes', v);
    PathSame(nodes, nodes', p);
  }

  // -------------------------------------------------------------------------- removing

  /** `children.retain(|c| *c != x)`. */
  function Retain(s: seq<NodeId>, x: NodeId): seq<NodeId>
  {
    if s == [] then []
    else
      var n := |s| - 1;
      Retain(s[..n], x) + (if s[n] == x then [] else [s[n]])
  }

  lemma {:induction false} RetainElements(s: seq<NodeId>, x: NodeId)
    ensures forall c :: c in Retain(s, x) <==> c in s && c != x
    ensures |Retain(s, x)| <= |s|
    ensures Distinct(s) ==> Distinct(Retain(s, x))
  {
    if s != [] {
      var n := |s| - 1;
      var front := Retain(s[..n], x);
      assert s == s[..n] + [s[n]];
      RetainElements(s[..n], x);
      if Distinct(s) {
        assert s[n] !in s[..n];
        assert forall i :: 0 <= i < |front| ==> front[i] in front;
      }
    }
  }

  /** nodes' is nodes without id and everything below it. */
  ghost predicate Pruning(nodes: Nodes, nodes': Nodes, id: NodeId)
    requires Ascending(nodes)
  {
    && (forall v :: v in nodes' <==> v in nodes && !Below(nodes, v, id))
    && (forall v :: v in nodes' ==> nodes'[v] == nodes[v].(children := Retain(nodes[v].children, id)))
  }

  lemma ParentStays(nodes: Nodes, v: NodeId, id: NodeId)
    requires Ascending(nodes) && v in nodes && nodes[v].parent.Some? && v != id
    ensures Below(nodes, v, id) <==> Below(nodes, nodes[v].parent.value, id)
  {
    assert AscendingAt(nodes, v);
    assert Path(nodes, v) == [v] + Path(nodes, nodes[v].parent.value);
  }

  lemma PrunedAscending(nodes: Nodes, nodes': Nodes, id: NodeId)
    requires Ascending(nodes) && Pruning(nodes, nodes', id)
    ensures Ascending(nodes')
  {
    forall v | v in nodes'
      ensures AscendingAt(nodes', v)
    {
      assert AscendingAt(nodes, v);
      SelfBelow(nodes, v);
      if nodes[v].parent.Some? { ParentStays(nodes, v, id); }
    }
  }

  lemma SelfBelow(nodes: Nodes, v: NodeId)
    requires Ascending(nodes) && v in nodes
    ensures Below(nodes, v, v)
  {
  }

  lemma PrunedLayered(nodes: Nodes, nodes': Nodes, id: NodeId)
    requires Ascending(nodes) && Layered(nodes) && Pruning(nodes, nodes', id) && id != ROOT
    ensures Layered(nodes')
  {
    assert Path(nodes, ROOT) == [ROOT];
    forall v | v in nodes' && v != ROOT
      ensures LayeredAt(nodes', v)
    {
      assert LayeredAt(nodes, v);
      SelfBelow(nodes, v);
      ParentStays(nodes, v, id);
    }
  }

  lemma PrunedInverse(nodes: Nodes, nodes': Nodes, id: NodeId)
    requires Ascending(nodes) && ChildrenInverse(nodes) && Pruning(nodes, nodes', id)
    ensures ChildrenInverse(nodes')
  {
    forall p | p in nodes'
      ensures ListsChildren(nodes', p)
    {
      PrunedLists(nodes, nodes', id, p);
    }
  }

  lemma PrunedLists(nodes: Nodes, nodes': Nodes, id: NodeId, p: NodeId)
    requires Ascending(nodes) && ListsChildrenOf(nodes, p) && Pruning(nodes, nodes', id) && p in nodes'
    ensures ListsChildren(nodes', p)
  {
    RetainElements(nodes[p].children, id);
    forall c | c in nodes'[p].children
      ensures c in nodes' && nodes'[c].parent == Some(p)
    {
      ParentStays(nodes, c, id);
    }
    forall c | c in nodes' && nodes'[c].parent == Some(p)
      ensures c in nodes'[p].children
    {
      SelfBelow(nodes, c);
    }
  }

  /** Removing a subtree leaves a tree. */
  lemma PrunedTree(nodes: Nodes, nodes': Nodes, nextId: nat, id: NodeId)
    requires Tree(nodes, nextId) && Pruning(nodes, nodes', id) && id != ROOT
    ensures Tree(nodes', nextId)
  {
    hide Ascending, Layered, ChildrenInverse;
    PrunedAscending(nodes, nodes', id);
    PrunedLayered(nodes, nodes', id);
    PrunedInverse(nodes, nodes', id);
  }

  /** Surviving nodes keep their paths. */
  lemma PrunedPath(nodes: Nodes, nodes': Nodes, id: NodeId, v: NodeId)
    requires Ascending(nodes) && Pruning(nodes, nodes', id) && v in nodes'
    ensures Ascending(nodes') && Path(nodes', v) == Path(nodes, v)
  {
    PrunedAscending(nodes, nodes', id);
    PathSame(nodes, nodes', v);
  }

  // ------------------------------------------------------- the sweep of `remove_subtree`

  ghost predicate Covered(nodes: Nodes, v: NodeId, stack: seq<NodeId>)
    requires Ascending(nodes)
  {
    exists i :: 0 <= i < |stack| && Below(nodes, v, stack[i])
  }

  ghost predicate ParentIn(nodes: Nodes, v: NodeId, s: set<NodeId>)
  {
    v in nodes && nodes[v].parent.Some? && nodes[v].parent.value in s
  }

  /** The stack holds the uppermost descendants not yet removed. */
  ghost predicate Sweeping(nodes: Nodes, id: NodeId, removed: set<NodeId>, stack: seq<NodeId>)
    requires Ascending(nodes)
  {
    && Distinct(stack)
    && (forall i :: 0 <= i < |stack| ==> Below(nodes, stack[i], id) && stack[i] !in removed)
    && (forall i :: 0 <= i < |stack| && stack[i] != id ==> ParentIn(nodes, stack[i], removed))
    && (forall r :: r in removed ==> Below(nodes, r, id))
    && (forall r :: r in removed && r != id ==> ParentIn(nodes, r, removed))
    && (forall v :: Below(nodes, v, id) && v !in removed ==> Covered(nodes, v, stack))
  }

  lemma SweepStart(nodes: Nodes, id: NodeId)
    requires Ascending(nodes) && id in nodes
    ensures Sweeping(nodes, id, {}, [id])
  {
    SelfBelow(nodes, id);
    forall v | Below(nodes, v, id)
      ensures Covered(nodes, v, [id])
    {
      assert Below(nodes, v, [id][0]);
    }
  }

  /** A child of a stack entry is a descendant not yet reached. */
  lemma SweepChild(nodes: Nodes, id: NodeId, removed: set<NodeId>, stack: seq<NodeId>, current: NodeId, c: NodeId)
    requires Ascending(nodes) && ChildrenInverse(nodes) && Sweeping(nodes, id, removed, stack)
    requires current in stack && current in nodes && c in nodes[current].children
    ensures Below(nodes, c, id) && c !in removed && c !in stack && c != id && nodes[c].parent == Some(current)
  {
    assert ListsChildren(nodes, current);
    assert AscendingAt(nodes, c);
    assert Below(nodes, current, id);
    PathShape(nodes, current);
    assert id <= current;
    ParentStays(nodes, c, id);
  }

  lemma SweepStep(nodes: Nodes, id: NodeId, removed: set<NodeId>, stack: seq<NodeId>, kids: seq<NodeId>)
    requires Ascending(nodes) && ChildrenInverse(nodes) && Sweeping(nodes, id, removed, stack) && stack != []
    requires stack[|stack| - 1] in nodes && Distinct(kids)
    requires forall c :: c in kids <==> c in nodes[stack[|stack| - 1]].children
    ensures Sweeping(nodes, id, removed + {stack[|stack| - 1]}, stack[..|stack| - 1] + kids)
  {
    hide Below, Covered, ChildrenInverse, Ascending;
    var n := |stack| - 1;
    var current := stack[n];
    var stack' := stack[..n] + kids;
    var removed' := removed + {current};
    forall c | c in kids
      ensures Below(nodes, c, id) && c !in removed' && c !in stack && ParentIn(nodes, c, removed')
    {
      SweepChild(nodes, id, removed, stack, current, c);
    }
    ConcatDistinct(stack, kids);
    hide Distinct;
    forall i | 0 <= i < |stack'|
      ensures Below(nodes, stack'[i], id) && stack'[i] !in removed'
      ensures stack'[i] != id ==> ParentIn(nodes, stack'[i], removed')
    {
      if i < n {
        assert stack'[i] == stack[i] && stack[i] != current;
      } else {
        assert stack'[i] == kids[i - n];
      }
    }
    forall v | Below(nodes, v, id) && v !in removed'
      ensures Covered(nodes, v, stack')
    {
      SweepCovers(nodes, stack, kids, v);
    }
  }

  /** Replacing the last entry by new ones keeps a list duplicate-free. */
  lemma ConcatDistinct(stack: seq<NodeId>, kids: seq<NodeId>)
    requires Distinct(stack) && Distinct(kids) && stack != [] && forall c :: c in kids ==> c !in stack
    ensures Distinct(stack[..|stack| - 1] + kids)
    ensures forall i :: 0 <= i < |stack| - 1 ==> stack[i] != stack[|stack| - 1]
  {
    var n := |stack| - 1;
    var both := stack[..n] + kids;
    forall i, j | 0 <= i < j < |both|
      ensures both[i] != both[j]
    {
      if j >= n {
        assert both[j] == kids[j - n];
        assert kids[j - n] in kids;
        if i < n {
          assert both[i] == stack[i] && stack[i] in stack;
        } else {
          assert both[i] == kids[i - n];
        }
      }
    }
  }

  lemma SweepCovers(nodes: Nodes, stack: seq<NodeId>, kids: seq<NodeId>, v: NodeId)
    requires Ascending(nodes) && ChildrenInverse(nodes) && stack != [] && Covered(nodes, v, stack)
    requires v != stack[|stack| - 1] && stack[|stack| - 1] in nodes
    requires forall c :: c in kids <==> c in nodes[stack[|stack| - 1]].children
    ensures Covered(nodes, v, stack[..|stack| - 1] + kids)
  {
    var n := |stack| - 1;
    var stack' := stack[..n] + kids;
    var i :| 0 <= i < |stack| && Below(nodes, v, stack[i]);
    if i < n {
      assert stack'[i] == stack[i];
    } else {
      var c := BelowChild(nodes, v, stack[n]);
      assert c in kids;
      var k :| 0 <= k < |kids| && kids[k] == c;
      assert stack'[n + k] == c;
    }
  }

  // ------------------------------------------------------------------- the mutable graph

  /** What `verify_invariants` checks. */
  ghost predicate CheckedAt(nodes: Nodes, v: NodeId)
    requires v in nodes
  {
    match nodes[v].parent
    case None => v == ROOT
    case Some(p) => p in nodes && v in nodes[p].children
  }

  ghost predicate PassesChecks(nodes: Nodes)
  {
    && ROOT in nodes && nodes[ROOT].parent == None
    && forall v :: v in nodes ==> CheckedAt(nodes, v)
  }

  /** A tree passes the structural check. */
  lemma TreePassesChecks(nodes: Nodes, nextId: nat)
    requires Tree(nodes, nextId)
    ensures PassesChecks(nodes)
  {
    forall v | v in nodes
      ensures CheckedAt(nodes, v)
    {
      if v != ROOT {
        assert LayeredAt(nodes, v);
        assert ListsChildren(nodes, nodes[v].parent.value);
      }
    }
  }

  class KeyGraph {
    var nodes: Nodes
    var nextId: nat
    const bounds: Bounds

    ghost predicate Valid()
      reads this
    {
      && Tree(nodes, nextId) && Bounded(nodes, bounds) && nextId <= U64_MAX
      && bounds.maxDepth <= USIZE_MAX && bounds.maxNodes <= USIZE_MAX
    }

    /** `with_root`. */
    constructor (bounds: Bounds)
      requires bounds.maxDepth <= USIZE_MAX && bounds.maxNodes <= USIZE_MAX
      ensures Valid() && this.bounds == bounds
      ensures nodes == map[ROOT := Node([], 0, None, [], 0)] && nextId == 1
    {
      this.bounds := bounds;
      nodes := map[ROOT := Node([], 0, None, [], 0)];
      nextId := 1;
    }

    /** `add_child`: the new node takes the next id, or nothing changes. */
    method AddChild(parentId: NodeId, coord: nat) returns (result: Result<NodeId, KgError>)
      requires Valid()
      modifies this
      ensures Valid()
      ensures parentId !in old(nodes) ==> result == Err(NoSuchNode)
      ensures parentId in old(nodes) ==>
                (result.Ok? <==>
                   && old(nodes)[parentId].layer < bounds.maxDepth
                   && |old(nodes)[parentId].children| < bounds.maxBreadth
                   && |old(nodes)| < bounds.maxNodes
                   && old(nextId) < U64_MAX)
      ensures parentId in old(nodes) && result.Err? ==> result == Err(BoundExceeded)
      ensures result.Ok? ==>
                && result.value == old(nextId) && nextId == old(nextId) + 1
                && nodes == WithChild(old(nodes), parentId, old(nextId), coord)
      ensures result.Err? ==> nodes == old(nodes) && nextId == old(nextId)
    {
      hide Ascending, Layered, ChildrenInverse;
      BoundedAt(nodes, bounds, parentId);
      hide Bounded;
      if parentId !in nodes {
        return Err(NoSuchNode);
      }
      var parent := nodes[parentId];
      if parent.layer + 1 > USIZE_MAX {
        return Err(BoundExceeded);
      }
      var layer := parent.layer + 1;
      if layer > bounds.maxDepth || |parent.children| >= bounds.maxBreadth || |nodes| >= bounds.maxNodes {
        return Err(BoundExceeded);
      }
      var position := parent.position + [coord];
      var id := nextId;
      if nextId == U64_MAX {
        return Err(BoundExceeded);
      }
      AddedTree(nodes, id, parentId, coord);
      AddedBounded(nodes, bounds, id, parentId, coord);
      assert id !in nodes;
      nextId := nextId + 1;
      nodes := nodes[id := Node(position, layer, Some(parentId), [], 0)];
      nodes := nodes[parentId := nodes[parentId].(children := nodes[parentId].children + [id])];
      assert nodes == WithChild(old(nodes), parentId, id, coord);
      return Ok(id);
    }

    /**
     `remove_subtree`: exactly the node and its descendants go, unless `max_nodes` is the largest
     `usize`, in which case the call fails after unlisting the node and the tree is broken.
     */
    method RemoveSubtree(id: NodeId) returns (result: Result<(), KgError>)
      requires Valid()
      modifies this
      ensures nextId == old(nextId)
      ensures id == ROOT ==> result == Err(CannotRemoveRoot)
      ensures id != ROOT && id !in old(nodes) ==> result == Err(NoSuchNode)
      ensures id == ROOT || id !in old(nodes) ==> nodes == old(nodes)
      ensures id != ROOT && id in old(nodes) && bounds.maxNodes < USIZE_MAX ==>
                result == Ok(()) && Pruning(old(nodes), nodes, id)
      ensures id != ROOT && id in old(nodes) && bounds.maxNodes == USIZE_MAX ==>
                result == Err(BoundExceeded) && id in nodes && !ChildrenInverse(nodes)
      ensures Valid() <==> id == ROOT || id !in old(nodes) || bounds.maxNodes < USIZE_MAX
    {
      if id == ROOT {
        return Err(CannotRemoveRoot);
      }
      if id !in nodes {
        return Err(NoSuchNode);
      }
      ghost var before := nodes;
      RemovalReady(nodes, nextId, bounds, id);
      hide Ascending, Layered, ChildrenInverse, Below, Retain, SweptTo, Pruning;
      var p := nodes[id].parent.value;
      nodes := nodes[p := nodes[p].(children := Retain(nodes[p].children, id))];
      Unlisted(before, nodes, nextId, id);
      result := Sweep(id, before);
    }

    /** The stack loop of `remove_subtree`, once id is unlisted at its parent. */
    method Sweep(id: NodeId, ghost before: Nodes) returns (result: Result<(), KgError>)
      requires Tree(before, nextId) && Bounded(before, bounds) && id in before && id != ROOT
      requires SweptTo(before, nodes, id, {}) && bounds.maxNodes <= USIZE_MAX
      modifies this`nodes
      ensures bounds.maxNodes < USIZE_MAX ==>
                result == Ok(()) && Pruning(before, nodes, id) && Tree(nodes, nextId) && Bounded(nodes, bounds)
      ensures bounds.maxNodes == USIZE_MAX ==> result == Err(BoundExceeded) && nodes == old(nodes)
    {
      hide Ascending, Layered, ChildrenInverse, Sweeping, Below, Retain, SweptTo, Pruning;
      var stack := [id];
      var guard := 0;
      ghost var removed := {};
      RemovalReady(before, nextId, bounds, id);
      SweepStart(before, id);
      while stack != []
        invariant Sweeping(before, id, removed, stack)
        invariant SweptTo(before, nodes, id, removed)
        invariant guard == |removed|
        invariant bounds.maxNodes == USIZE_MAX ==> nodes == old(nodes) && stack != []
        decreases |nodes|
      {
        SweepRoom(before, nodes, id, removed, stack);
        SweepNext(before, nodes, id, removed, stack);
        var current := stack[|stack| - 1];
        stack := stack[..|stack| - 1];
        if guard + 1 > USIZE_MAX {
          return Err(BoundExceeded);
        }
        guard := guard + 1;
        if bounds.maxNodes + 1 > USIZE_MAX {
          return Err(BoundExceeded);
        }
        if guard > bounds.maxNodes + 1 {
          return Err(Cycle);
        }
        if current in nodes {
          stack := stack + nodes[current].children;
          nodes := nodes - {current};
          removed := removed + {current};
        }
      }
      SweepDone(before, nodes, id, removed, nextId, bounds);
      return Ok(());
    }

    /** `leaf_to_root`: the node's path; the cycle guard never fires. */
    method LeafToRoot(id: NodeId) returns (result: Result<seq<NodeId>, KgError>)
      requires Valid()
      ensures result ==
              if bounds.maxDepth + 2 > USIZE_MAX then Err(BoundExceeded)
              else if id !in nodes then Err(NoSuchNode)
              else Ok(Path(nodes, id))
    {
      if bounds.maxDepth + 2 > USIZE_MAX {
        return Err(BoundExceeded);
      }
      var maxSteps := bounds.maxDepth + 2;
      var path := [];
      var current := Some(id);
      while current.Some?
        invariant id !in nodes ==> path == [] && current == Some(id)
        invariant id in nodes ==> PathSoFar(nodes, id, path, current)
        decreases if current.Some? then current.value + 1 else 0
      {
        if id in nodes {
          PathLength(nodes, id);
        }
        if |path| > maxSteps {
          return Err(Cycle);
        }
        if current.value !in nodes {
          return Err(NoSuchNode);
        }
        var node := nodes[current.value];
        PathStep(nodes, id, path, current.value);
        path := path + [current.value];
        current := node.parent;
      }
      return Ok(path);
    }

    /**
     `verify_invariants`, over the nodes in any order: the root is there and has no parent, and every
     other node has one that is there and lists it.
     */
    method VerifyInvariants() returns (result: Result<(), KgError>)
      ensures result == if PassesChecks(nodes) then Ok(()) else Err(Invariant)
      ensures result.Ok? <==>
                && ROOT in nodes && nodes[ROOT].parent == None
                && forall v :: v in nodes && v != ROOT ==>
                     && nodes[v].parent.Some? && nodes[v].parent.value in nodes
                     && v in nodes[nodes[v].parent.value].children
    {
      var roots := 0;
      var todo := nodes.Keys;
      while todo != {}
        invariant todo <= nodes.Keys
        invariant forall v :: v in nodes && v !in todo ==> CheckedAt(nodes, v)
        invariant roots == if ROOT in nodes && ROOT !in todo && nodes[ROOT].parent == None then 1 else 0
        decreases |todo|
      {
        var id :| id in todo;
        todo := todo - {id};
        match nodes[id].parent {
          case None =>
            roots := roots + 1;
            if id != ROOT {
              return Err(Invariant);
            }
          case Some(p) =>
            if p !in nodes || id !in nodes[p].children {
              return Err(Invariant);
            }
        }
      }
      return if roots == 1 then Ok(()) else Err(Invariant);
    }
  }

  /** path followed by the path of current is the path of id. */
  ghost predicate PathSoFar(nodes: Nodes, id: NodeId, path: seq<NodeId>, current: Option<NodeId>)
    requires Ascending(nodes) && id in nodes
  {
    match current
    case None => path == Path(nodes, id)
    case Some(v) => v in nodes && path + Path(nodes, v) == Path(nodes, id)
  }

  lemma PathStep(nodes: Nodes, id: NodeId, path: seq<NodeId>, v: NodeId)
    requires Ascending(nodes) && v in nodes
    ensures id in nodes && PathSoFar(nodes, id, path, Some(v)) ==>
              PathSoFar(nodes, id, path + [v], nodes[v].parent)
    ensures AscendingAt(nodes, v)
  {
    if nodes[v].parent.Some? {
      assert AscendingAt(nodes, v);
      assert (path + [v]) + Path(nodes, nodes[v].parent.value) == path + Path(nodes, v);
    }
  }

  // ------------------------------------------------------ what the sweep leaves behind

  /** The node table once the nodes in `removed` are gone. */
  ghost predicate SweptTo(before: Nodes, nodes: Nodes, id: NodeId, removed: set<NodeId>)
  {
    && nodes.Keys == before.Keys - removed
    && forall v :: v in nodes ==> nodes[v] == before[v].(children := Retain(before[v].children, id))
  }

  lemma {:induction false} RetainAbsent(s: seq<NodeId>, x: NodeId)
    requires x !in s
    ensures Retain(s, x) == s
  {
    if s != [] {
      var n := |s| - 1;
      RetainAbsent(s[..n], x);
      assert s == s[..n] + [s[n]];
    }
  }

  /** Unlisting id at its parent is retaining everywhere, and breaks the child lists until id is gone. */
  lemma Unlisted(before: Nodes, nodes: Nodes, nextId: nat, id: NodeId)
    requires Ascending(before) && ChildrenInverse(before) && id in before && before[id].parent.Some?
    requires before[id].parent.value in before
    requires nodes == before[before[id].parent.value := before[before[id].parent.value].(
               children := Retain(before[before[id].parent.value].children, id))]
    ensures SweptTo(before, nodes, id, {})
    ensures id in nodes && !ChildrenInverse(nodes) && !Tree(nodes, nextId)
  {
    var p := before[id].parent.value;
    forall v | v in nodes && v != p
      ensures nodes[v] == before[v].(children := Retain(before[v].children, id))
    {
      assert ListsChildren(before, v);
      RetainAbsent(before[v].children, id);
    }
    RetainElements(before[p].children, id);
    assert AscendingAt(before, id);
    assert !ListsChildren(nodes, p) by {
      assert id in nodes && nodes[id].parent == Some(p) && id !in nodes[p].children;
    }
  }

  /** Removed nodes and the stack top all lie in the table, so the count stays within it. */
  lemma SweepRoom(before: Nodes, nodes: Nodes, id: NodeId, removed: set<NodeId>, stack: seq<NodeId>)
    requires Ascending(before) && Sweeping(before, id, removed, stack) && stack != []
    requires SweptTo(before, nodes, id, removed)
    ensures |removed| + 1 <= |before|
    ensures var current := stack[|stack| - 1];
            current in nodes && current !in removed && |nodes - {current}| < |nodes|
  {
    hide Ascending, Sweeping, SweptTo;
    var current := stack[|stack| - 1];
    SweepTop(before, id, removed, stack);
    SweptKeys(before, nodes, id, removed);
    SubsetSize(removed + {current}, before.Keys);
    DropSize(nodes, current);
  }

  /** The node on top of the stack is an old one, not yet removed; so is everything removed. */
  lemma SweepTop(before: Nodes, id: NodeId, removed: set<NodeId>, stack: seq<NodeId>)
    requires Ascending(before) && Sweeping(before, id, removed, stack) && stack != []
    ensures stack[|stack| - 1] in before && stack[|stack| - 1] !in removed && removed <= before.Keys
  {
    hide Ascending, Path, Covered, ParentIn;
    assert Below(before, stack[|stack| - 1], id);
  }

  lemma SweptKeys(before: Nodes, nodes: Nodes, id: NodeId, removed: set<NodeId>)
    requires SweptTo(before, nodes, id, removed)
    ensures nodes.Keys == before.Keys - removed
  {
  }

  lemma DropSize(nodes: Nodes, v: NodeId)
    requires v in nodes
    ensures |nodes - {v}| == |nodes| - 1
  {
    assert (nodes - {v}).Keys == nodes.Keys - {v};
    assert |nodes.Keys - {v}| == |nodes.Keys| - 1;
  }

  /** What removal needs of the graph it starts from. */
  lemma RemovalReady(nodes: Nodes, nextId: nat, bounds: Bounds, id: NodeId)
    requires Tree(nodes, nextId) && Bounded(nodes, bounds) && id in nodes && id != ROOT
    ensures Ascending(nodes) && ChildrenInverse(nodes)
    ensures nodes[id].parent.Some? && nodes[id].parent.value in nodes
    ensures |nodes| <= bounds.maxNodes || |nodes| == 1
  {
    assert LayeredAt(nodes, id);
  }

  lemma SubsetSize(a: set<NodeId>, b: set<NodeId>)
    requires a <= b
    ensures |a| <= |b|
  {
    assert b == a + (b - a);
  }

  lemma SweepNext(before: Nodes, nodes: Nodes, id: NodeId, removed: set<NodeId>, stack: seq<NodeId>)
    requires Ascending(before) && ChildrenInverse(before) && Sweeping(before, id, removed, stack) && stack != []
    requires SweptTo(before, nodes, id, removed) && stack[|stack| - 1] in nodes
    ensures Sweeping(before, id, removed + {stack[|stack| - 1]},
                     stack[..|stack| - 1] + nodes[stack[|stack| - 1]].children)
    ensures SweptTo(before, nodes - {stack[|stack| - 1]}, id, removed + {stack[|stack| - 1]})
  {
    hide Sweeping, Ascending, Below;
    var current := stack[|stack| - 1];
    assert ListsChildren(before, current);
    RetainElements(before[current].children, id);
    forall c | c in before[current].children
      ensures c in nodes[current].children
    {
      SweepChild(before, id, removed, stack, current, c);
    }
    SweepStep(before, id, removed, stack, nodes[current].children);
  }

  /** An empty stack means everything below id is gone: a pruning, still a bounded tree. */
  lemma SweepDone(before: Nodes, nodes: Nodes, id: NodeId, removed: set<NodeId>, nextId: nat, bounds: Bounds)
    requires Tree(before, nextId) && Bounded(before, bounds) && id != ROOT
    requires Sweeping(before, id, removed, []) && SweptTo(before, nodes, id, removed)
    ensures Pruning(before, nodes, id) && Tree(nodes, nextId) && Bounded(nodes, bounds)
  {
    assert Pruning(before, nodes, id) by {
      forall v | v in before
        ensures v in nodes <==> !Below(before, v, id)
      {
        assert !Covered(before, v, []);
      }
    }
    PrunedTree(before, nodes, nextId, id);
    PrunedBounded(before, nodes, id, bounds);
  }

  lemma PrunedBounded(before: Nodes, nodes: Nodes, id: NodeId, bounds: Bounds)
    requires Ascending(before) && Layered(before) && Bounded(before, bounds) && Pruning(before, nodes, id) && id != ROOT
    ensures Bounded(nodes, bounds)
  {
    forall v | v in nodes
      ensures nodes[v].layer <= bounds.maxDepth && |nodes[v].children| <= bounds.maxBreadth
    {
      RetainElements(before[v].children, id);
    }
    assert nodes.Keys <= before.Keys;
    SubsetSize(nodes.Keys, before.Keys);
    assert Path(before, ROOT) == [ROOT];
    assert ROOT in nodes;
    SubsetSize({ROOT}, nodes.Keys);
  }
}
