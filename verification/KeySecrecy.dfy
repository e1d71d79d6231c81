/**
 Who can derive which key, over whole runs of the broadcast graph: from everything a coalition
 ever held and everything ever published, exactly the keys of nodes that had a coalition member
 beneath them while the key was current.
 */
module KeySecrecy {
  import opened Wrappers
  import opened KeyGraphs
  import opened KeyHierarchy

  // ------------------------------------------------------------------------------- runs

  datatype Event = Join(user: UserId, sponsor: NodeId) | Leave(user: UserId)

  /**
   One call: refused with the state unchanged, or carried out. `Join` is proper when the joiner
   is not a member already and the sponsor is not a user's leaf; the code checks neither.
   */
  ghost predicate Step(s: State, e: Event, s': State)
  {
    s' == s || (Ascending(s.nodes) && Changes(s, e, s'))
  }

  ghost predicate Changes(s: State, e: Event, s': State)
    requires Ascending(s.nodes)
  {
    match e
    case Join(user, sponsor) => Proper(s, user, sponsor) && Joins(s, user, sponsor, s')
    case Leave(user) => Leaves(s, user, s')
  }

  ghost predicate Proper(s: State, user: UserId, sponsor: NodeId)
  {
    user !in s.userLeaves && forall u :: u in s.userLeaves ==> s.userLeaves[u] != sponsor
  }

  ghost predicate Good(s: State)
  {
    Sound(s) && Disciplined(s)
  }

  lemma GoodAscending(s: State)
    requires Good(s)
    ensures Ascending(s.nodes)
  {
  }

  lemma StepGood(s: State, e: Event, s': State)
    requires Good(s) && Step(s, e, s')
    ensures Good(s') && s.nextKey <= s'.nextKey
    ensures forall w :: Inherits(s, s', w)
  {
    hide Ascending, Layered, ChildrenInverse, KeyTable;
    if s' != s {
      match e
      case Join(user, sponsor) =>
        JoinSound(s, user, sponsor, s');
        JoinDisciplined(s, user, sponsor, s');
        forall w
          ensures Inherits(s, s', w)
        {
          JoinInherits(s, user, sponsor, s', w);
        }
      case Leave(user) =>
        LeaveSound(s, user, s');
        LeaveDisciplined(s, user, s');
        forall w
          ensures Inherits(s, s', w)
        {
          LeaveInherits(s, user, s', w);
        }
    } else {
      KeysPresent(s);
    }
  }

  lemma KeysPresent(s: State)
    requires Sound(s)
    ensures forall v :: v in s.nodes ==> v in s.keys && s.keys[v] < s.nextKey
  {
  }

  /** A history: the state after each event, starting from a good one. */
  ghost predicate Run(states: seq<State>, events: seq<Event>)
  {
    && |states| == |events| + 1 && Good(states[0])
    && (forall i :: 0 <= i < |events| ==> Step(states[i], events[i], states[i + 1]))
  }

  ghost predicate GoodRun(states: seq<State>, events: seq<Event>)
  {
    Run(states, events) && forall i :: 0 <= i < |states| ==> Good(states[i])
  }

  /** Every state of a run is good. */
  lemma RunIsGood(states: seq<State>, events: seq<Event>)
    requires Run(states, events)
    ensures GoodRun(states, events)
  {
    hide Good, Step;
    forall i | 0 <= i < |states|
      ensures Good(states[i])
    {
      ReachedGood(states, events, i);
    }
  }

  lemma {:induction false} ReachedGood(states: seq<State>, events: seq<Event>, i: nat)
    requires Run(states, events) && i < |states|
    ensures Good(states[i])
    decreases i
  {
    hide Good, Step;
    if i > 0 {
      ReachedGood(states, events, i - 1);
      assert Step(states[i - 1], events[i - 1], states[i - 1 + 1]);
      StepGood(states[i - 1], events[i - 1], states[i]);
    }
  }

  // ------------------------------------------------------------------------- derivation

  /** Each key unwraps the next. */
  ghost predicate Chain(published: set<Wrapped>, chain: seq<Key>)
  {
    && chain != []
    && forall i :: 0 <= i < |chain| - 1 ==> Wrapped(chain[i], chain[i + 1]) in published
  }

  ghost predicate Derives(held: set<Key>, published: set<Wrapped>, k: Key)
  {
    exists chain :: Chain(published, chain) && chain[0] in held && chain[|chain| - 1] == k
  }

  lemma DerivesHeld(held: set<Key>, published: set<Wrapped>, k: Key)
    requires k in held
    ensures Derives(held, published, k)
  {
    assert Chain(published, [k]) && [k][0] in held;
  }

  lemma DerivesUnwrap(held: set<Key>, published: set<Wrapped>, k: Key, p: Key)
    requires Derives(held, published, k) && Wrapped(k, p) in published
    ensures Derives(held, published, p)
  {
    var chain :| Chain(published, chain) && chain[0] in held && chain[|chain| - 1] == k;
    var longer := chain + [p];
    forall i | 0 <= i < |longer| - 1
      ensures Wrapped(longer[i], longer[i + 1]) in published
    {
      if i < |chain| - 1 { assert Wrapped(chain[i], chain[i + 1]) in published; }
    }
    assert Chain(published, longer) && longer[0] in held;
  }

  /** Nothing else is derivable: a set that holds the held keys and is closed under unwrapping has it all. */
  lemma {:induction false} DerivesLeast(held: set<Key>, published: set<Wrapped>, closed: set<Key>, chain: seq<Key>)
    requires held <= closed && Chain(published, chain) && chain[0] in held
    requires forall k, p :: k in closed && Wrapped(k, p) in published ==> p in closed
    ensures chain[|chain| - 1] in closed
  {
    if |chain| > 1 {
      var n := |chain| - 1;
      assert Chain(published, chain[..n]) by {
        forall i | 0 <= i < n - 1
          ensures Wrapped(chain[..n][i], chain[..n][i + 1]) in published
        {
          assert Wrapped(chain[i], chain[i + 1]) in published;
        }
      }
      DerivesLeast(held, published, closed, chain[..n]);
      assert Wrapped(chain[n - 1], chain[n - 1 + 1]) in published;
    }
  }

  // ----------------------------------------------------------------------- publications

  /** w carries, in state s, the key of a node above c under the key of c. */
  ghost predicate Upward(s: State, c: NodeId, a: NodeId, w: Wrapped)
  {
    && Ascending(s.nodes) && Below(s.nodes, c, a) && c in s.keys && a in s.keys
    && w == Wrapped(s.keys[c], s.keys[a])
  }

  /** Everything published is an upward wrap of some state of the run. */
  ghost predicate OnlyUpward(states: seq<State>, published: set<Wrapped>)
  {
    forall w :: w in published ==>
      exists i, c, a :: 0 <= i < |states| && Upward(states[i], c, a, w)
  }

  /** Every state's encrypted data items are published. */
  ghost predicate ItemsOut(states: seq<State>, published: set<Wrapped>)
  {
    forall i, v :: 0 <= i < |states| && v in states[i].nodes && states[i].nodes[v].parent.Some? ==>
      ItemOut(states[i], v, published)
  }

  ghost predicate ItemOut(s: State, v: NodeId, published: set<Wrapped>)
    requires v in s.nodes && s.nodes[v].parent.Some?
  {
    && v in s.keys && s.nodes[v].parent.value in s.keys
    && Wrapped(s.keys[v], s.keys[s.nodes[v].parent.value]) in published
  }

  /** The leaf keys the members of a coalition were ever given. */
  ghost function HeldBy(states: seq<State>, coalition: set<UserId>): set<Key>
  {
    set i, u | 0 <= i < |states| && u in coalition && u in states[i].userLeaves
               && states[i].userLeaves[u] in states[i].keys :: states[i].keys[states[i].userLeaves[u]]
  }

  // ---------------------------------------------------------------------------- secrecy

  /** A key pins its audience: wherever in the run it is current, the same users are beneath its node. */
  lemma {:induction false} KeyPinsAudience(states: seq<State>, events: seq<Event>, i: nat, v: NodeId, j: nat, w: NodeId)
    requires GoodRun(states, events) && i <= j < |states|
    requires v in states[i].nodes && w in states[j].nodes
    requires v in states[i].keys && w in states[j].keys && states[i].keys[v] == states[j].keys[w]
    ensures Ascending(states[i].nodes) && Ascending(states[j].nodes)
    ensures Beneath(states[i], v) == Beneath(states[j], w)
    decreases j
  {
    hide Good, Step, Inherits, Beneath;
    GoodAscending(states[i]);
    GoodAscending(states[j]);
    if i == j {
      SameNode(states[i], v, w);
    } else {
      GoodAscending(states[j - 1]);
      assert Step(states[j - 1], events[j - 1], states[j - 1 + 1]);
      StepGood(states[j - 1], events[j - 1], states[j]);
      SupplyGrows(states, events, i, j - 1);
      OldKey(states[i], v, states[j - 1].nextKey);
      InheritsOld(states[j - 1], states[j], w);
      KeyPinsAudience(states, events, i, v, j - 1, w);
    }
  }

  lemma SameNode(s: State, v: NodeId, w: NodeId)
    requires Good(s) && v in s.keys && w in s.keys && s.keys[v] == s.keys[w]
    ensures v == w
  {
  }

  lemma OldKey(s: State, v: NodeId, bound: Key)
    requires Good(s) && v in s.keys && s.nextKey <= bound
    ensures s.keys[v] < bound
  {
  }

  lemma InheritsOld(s: State, s': State, w: NodeId)
    requires Ascending(s.nodes) && Ascending(s'.nodes) && Inherits(s, s', w)
    requires w in s'.nodes && w in s'.keys && s'.keys[w] < s.nextKey
    ensures w in s.nodes && w in s.keys && s.keys[w] == s'.keys[w] && Beneath(s, w) == Beneath(s', w)
  {
  }

  lemma {:induction false} SupplyGrows(states: seq<State>, events: seq<Event>, i: nat, j: nat)
    requires GoodRun(states, events) && i <= j < |states|
    ensures states[i].nextKey <= states[j].nextKey
    decreases j
  {
    hide Good, Step, Inherits;
    if i < j {
      GoodAscending(states[j - 1]);
      assert Step(states[j - 1], events[j - 1], states[j - 1 + 1]);
      StepGood(states[j - 1], events[j - 1], states[j]);
      SupplyGrows(states, events, i, j - 1);
    }
  }

  /** Both orders of the two states. */
  lemma AudienceSame(states: seq<State>, events: seq<Event>, i: nat, v: NodeId, j: nat, w: NodeId)
    requires GoodRun(states, events) && i < |states| && j < |states|
    requires v in states[i].nodes && w in states[j].nodes
    requires v in states[i].keys && w in states[j].keys && states[i].keys[v] == states[j].keys[w]
    ensures Ascending(states[i].nodes) && Ascending(states[j].nodes)
    ensures Beneath(states[i], v) == Beneath(states[j], w)
  {
    hide Good, Step, Beneath;
    if i <= j {
      KeyPinsAudience(states, events, i, v, j, w);
    } else {
      KeyPinsAudience(states, events, j, w, i, v);
    }
  }

  /** Whoever is beneath a node is beneath everything above it. */
  lemma BeneathGrows(s: State, c: NodeId, a: NodeId)
    requires Ascending(s.nodes) && Below(s.nodes, c, a)
    ensures Beneath(s, c) <= Beneath(s, a)
  {
    forall u | u in Beneath(s, c)
      ensures u in Beneath(s, a)
    {
      BelowTrans(s.nodes, s.userLeaves[u], c, a);
    }
  }

  /** user x was beneath the node whose current key k was, whenever it was current. */
  ghost predicate Audience(states: seq<State>, k: Key, x: UserId)
  {
    forall j, w :: 0 <= j < |states| && w in states[j].nodes && w in states[j].keys && states[j].keys[w] == k ==>
      Sits(states[j], w, x)
  }

  ghost predicate Sits(s: State, v: NodeId, x: UserId)
  {
    Ascending(s.nodes) && x in Beneath(s, v)
  }

  lemma AudienceFrom(states: seq<State>, events: seq<Event>, i: nat, v: NodeId, x: UserId)
    requires GoodRun(states, events) && i < |states| && v in states[i].nodes && v in states[i].keys
    requires Sits(states[i], v, x)
    ensures Audience(states, states[i].keys[v], x)
  {
    hide Good, Step, Beneath;
    forall j, w | 0 <= j < |states| && w in states[j].nodes && w in states[j].keys && states[j].keys[w] == states[i].keys[v]
      ensures Sits(states[j], w, x)
    {
      AudienceSame(states, events, i, v, j, w);
    }
  }

  /** Unwrapping never leaves the audience. */
  lemma AudienceUpward(states: seq<State>, events: seq<Event>, published: set<Wrapped>, k: Key, p: Key, x: UserId)
    requires GoodRun(states, events) && OnlyUpward(states, published) && Wrapped(k, p) in published
    requires Audience(states, k, x)
    ensures Audience(states, p, x)
  {
    hide Good, Step, Below;
    var i, c, a :| 0 <= i < |states| && Upward(states[i], c, a, Wrapped(k, p));
    GoodAscending(states[i]);
    BelowIn(states[i].nodes, c, a);
    assert Sits(states[i], c, x);
    BeneathGrows(states[i], c, a);
    AudienceFrom(states, events, i, a, x);
  }

  lemma BelowIn(nodes: Nodes, c: NodeId, a: NodeId)
    requires Ascending(nodes) && Below(nodes, c, a)
    ensures c in nodes && a in nodes
  {
    PathShape(nodes, c);
  }

  lemma {:induction false} ChainAudience(
      states: seq<State>, events: seq<Event>, published: set<Wrapped>, chain: seq<Key>, x: UserId)
    requires GoodRun(states, events) && OnlyUpward(states, published) && Chain(published, chain)
    requires Audience(states, chain[0], x)
    ensures Audience(states, chain[|chain| - 1], x)
  {
    hide Run, OnlyUpward, Audience;
    if |chain| > 1 {
      var n := |chain| - 1;
      assert Chain(published, chain[..n]) by {
        forall i | 0 <= i < n - 1
          ensures Wrapped(chain[..n][i], chain[..n][i + 1]) in published
        {
          assert Wrapped(chain[i], chain[i + 1]) in published;
        }
      }
      ChainAudience(states, events, published, chain[..n], x);
      assert Wrapped(chain[n - 1], chain[n - 1 + 1]) in published;
      AudienceUpward(states, events, published, chain[n - 1], chain[n], x);
    }
  }

  /** Every key on a leaf's path follows from the leaf's key and the data items. */
  lemma {:induction false} ItemsClimb(s: State, held: set<Key>, published: set<Wrapped>, leaf: NodeId, a: NodeId)
    requires Sound(s) && Below(s.nodes, leaf, a) && leaf in s.keys && s.keys[leaf] in held
    requires forall v :: v in s.nodes && s.nodes[v].parent.Some? ==> ItemOut(s, v, published)
    ensures a in s.nodes && a in s.keys && Derives(held, published, s.keys[a])
    decreases leaf - a
  {
    hide Ascending, Layered, Path, Derives, KeysDistinct;
    BelowIn(s.nodes, leaf, a);
    if leaf == a {
      DerivesHeld(held, published, s.keys[a]);
    } else {
      var c := BelowChild(s.nodes, leaf, a);
      ChildEdge(s.nodes, a, c);
      PathAtMost(s.nodes, leaf, c);
      ItemsClimb(s, held, published, leaf, c);
      assert ItemOut(s, c, published);
      DerivesUnwrap(held, published, s.keys[c], s.keys[a]);
    }
  }

  lemma ChildEdge(nodes: Nodes, p: NodeId, c: NodeId)
    requires Ascending(nodes) && ChildrenInverse(nodes) && p in nodes && c in nodes[p].children
    ensures c in nodes && nodes[c].parent == Some(p) && p < c
  {
    assert ListsChildren(nodes, p);
    assert AscendingAt(nodes, c);
  }

  lemma PathAtMost(nodes: Nodes, v: NodeId, a: NodeId)
    requires Ascending(nodes) && Below(nodes, v, a)
    ensures a <= v
  {
    PathShape(nodes, v);
  }

  /** Nothing published ever carries a key outside its audience. */
  lemma DerivesOnlyAudience(
      states: seq<State>, events: seq<Event>, published: set<Wrapped>, coalition: set<UserId>, i: nat, v: NodeId)
    requires GoodRun(states, events) && OnlyUpward(states, published)
    requires i < |states| && v in states[i].nodes && v in states[i].keys
    requires Derives(HeldBy(states, coalition), published, states[i].keys[v])
    ensures exists x :: x in coalition && Sits(states[i], v, x)
  {
    hide Good, Step, OnlyUpward, Audience, Sits;
    var chain :| Chain(published, chain) && chain[0] in HeldBy(states, coalition) && chain[|chain| - 1] == states[i].keys[v];
    var j, x :| 0 <= j < |states| && x in coalition && x in states[j].userLeaves
      && states[j].userLeaves[x] in states[j].keys && states[j].keys[states[j].userLeaves[x]] == chain[0];
    LeafSits(states[j], x);
    AudienceFrom(states, events, j, states[j].userLeaves[x], x);
    ChainAudience(states, events, published, chain, x);
    AudienceAt(states, states[i].keys[v], x, i, v);
  }

  lemma AudienceAt(states: seq<State>, k: Key, x: UserId, i: nat, v: NodeId)
    requires Audience(states, k, x) && i < |states|
    requires v in states[i].nodes && v in states[i].keys && states[i].keys[v] == k
    ensures Sits(states[i], v, x)
  {
  }

  lemma LeafSits(s: State, x: UserId)
    requires Good(s) && x in s.userLeaves
    ensures s.userLeaves[x] in s.nodes && s.userLeaves[x] in s.keys && Sits(s, s.userLeaves[x], x)
  {
    hide Path, KeysDistinct, Layered;
    assert IsLeaf(s, s.userLeaves[x]);
    SelfBelow(s.nodes, s.userLeaves[x]);
  }

  /**
   The audience law. Whatever has been published over a whole run, as long as it holds every
   state's data items and only upward wraps, a coalition pooling every leaf key its members were
   ever given derives a node's key in a given state exactly when one of them sat at or below that
   node in that state.
   */
  lemma DerivesIff(
      states: seq<State>, events: seq<Event>, published: set<Wrapped>, coalition: set<UserId>, i: nat, v: NodeId)
    requires Run(states, events) && OnlyUpward(states, published) && ItemsOut(states, published)
    requires i < |states| && v in states[i].nodes
    ensures v in states[i].keys
    ensures Derives(HeldBy(states, coalition), published, states[i].keys[v])
       <==> exists x :: x in coalition && Sits(states[i], v, x)
  {
    hide Good, Step, OnlyUpward, Derives;
    RunIsGood(states, events);
    GoodKeyed(states[i], v);
    var held := HeldBy(states, coalition);
    if Derives(held, published, states[i].keys[v]) {
      DerivesOnlyAudience(states, events, published, coalition, i, v);
    }
    forall x | x in coalition && Sits(states[i], v, x)
      ensures Derives(held, published, states[i].keys[v])
    {
      LeafSits(states[i], x);
      ItemsClimb(states[i], held, published, states[i].userLeaves[x], v);
    }
  }

  lemma GoodKeyed(s: State, v: NodeId)
    requires Good(s) && v in s.nodes
    ensures v in s.keys && Ascending(s.nodes) && Sound(s)
  {
  }

  /** No member of the coalition is a member in state i: none of that state's keys can be had. */
  lemma LockedOut(
      states: seq<State>, events: seq<Event>, published: set<Wrapped>, coalition: set<UserId>, i: nat, v: NodeId)
    requires Run(states, events) && OnlyUpward(states, published)
    requires i < |states| && v in states[i].nodes && coalition !! states[i].userLeaves.Keys
    ensures v in states[i].keys && !Derives(HeldBy(states, coalition), published, states[i].keys[v])
  {
    hide Good, Step, OnlyUpward, Derives;
    RunIsGood(states, events);
    GoodKeyed(states[i], v);
    if Derives(HeldBy(states, coalition), published, states[i].keys[v]) {
      DerivesOnlyAudience(states, events, published, coalition, i, v);
    }
  }

  /** Every member reads the message key of every state it is a member of. */
  lemma MembersRead(
      states: seq<State>, events: seq<Event>, published: set<Wrapped>, i: nat, x: UserId)
    requires Run(states, events) && ItemsOut(states, published)
    requires i < |states| && x in states[i].userLeaves
    ensures ROOT in states[i].keys && Derives(HeldBy(states, {x}), published, states[i].keys[ROOT])
  {
    hide Step, Derives, Path, Disciplined, KeysDistinct, Layered, ItemOut;
    RunIsGood(states, events);
    LeafSits(states[i], x);
    RootAbove(states[i].nodes, states[i].nextId, states[i].userLeaves[x]);
    ItemsClimb(states[i], HeldBy(states, {x}), published, states[i].userLeaves[x], ROOT);
  }

  lemma {:induction false} RootAbove(nodes: Nodes, nextId: nat, v: NodeId)
    requires Tree(nodes, nextId) && v in nodes
    ensures ROOT in nodes && Below(nodes, v, ROOT)
    decreases v
  {
    if v != ROOT {
      assert LayeredAt(nodes, v) && AscendingAt(nodes, v);
      RootAbove(nodes, nextId, nodes[v].parent.value);
    } else {
      SelfBelow(nodes, v);
    }
  }

  // ------------------------------------------------------- where the code needs its callers

  /** A join leaves another node's key alone unless the node is on the sponsor's path. */
  lemma JoinKeepsKey(s: State, user: UserId, sponsor: NodeId, s': State, v: NodeId)
    requires Sound(s) && Joins(s, user, sponsor, s') && v in s.nodes
    ensures v in s.keys && v in s'.keys
    ensures s'.keys[v] == s.keys[v] <==> !Below(s.nodes, sponsor, v)
  {
    hide Ascending, Layered, ChildrenInverse, WithChild, KeysDistinct, Path;
    var path := Path(s.nodes, sponsor);
    PathBounded(s.nodes, s.nextId, sponsor);
    RotatedKeys(s.keys[s.nextId := s.nextKey], path, s.nextKey + 1);
    if v in path {
      var i :| 0 <= i < |path| && path[i] == v;
    }
  }

  /** Sponsoring a join with a user's own leaf is what changes that user's leaf key. */
  lemma SponsorCutOff(s: State, user: UserId, sponsor: NodeId, s': State, other: UserId)
    requires Good(s) && Joins(s, user, sponsor, s') && other in s.userLeaves && other != user
    ensures other in s'.userLeaves && s'.userLeaves[other] == s.userLeaves[other]
    ensures s.userLeaves[other] in s.keys && s.userLeaves[other] in s'.keys
    ensures s'.keys[s.userLeaves[other]] == s.keys[s.userLeaves[other]] <==> sponsor != s.userLeaves[other]
  {
    hide Ascending, Layered, ChildrenInverse, WithChild, KeysDistinct, Path, Rotated;
    var leaf := s.userLeaves[other];
    assert IsLeaf(s, leaf);
    JoinKeepsKey(s, user, sponsor, s', leaf);
    SelfBelow(s.nodes, sponsor);
    if Below(s.nodes, sponsor, leaf) {
      LeafOnlySelf(s, sponsor, leaf);
    }
  }

  /** The keys from a leaf up to the root. */
  ghost function PathKeys(s: State, leaf: NodeId): set<Key>
  {
    set b | b in s.keys && Ascending(s.nodes) && Below(s.nodes, leaf, b) :: s.keys[b]
  }

  /** A key of the state after a join is fresh, or the same node's key from before, off the sponsor's path. */
  lemma JoinFresh(s: State, user: UserId, sponsor: NodeId, s': State, c: NodeId)
    requires Sound(s) && Joins(s, user, sponsor, s') && c in s'.keys
    ensures s'.keys[c] >= s.nextKey || (c in s.keys && s'.keys[c] == s.keys[c] && !Below(s.nodes, sponsor, c))
    ensures Below(s.nodes, sponsor, c) ==> s'.keys[c] >= s.nextKey
  {
    hide Ascending, Layered, ChildrenInverse, WithChild, KeyTable, Path;
    var path := Path(s.nodes, sponsor);
    PathBounded(s.nodes, s.nextId, sponsor);
    RotatedKeys(s.keys[s.nextId := s.nextKey], path, s.nextKey + 1);
    if c in path {
      var i :| 0 <= i < |path| && path[i] == c;
    }
  }

  /** The old path keys of a leaf that sponsors a join open nothing published before or after it. */
  lemma StaleClosed(
      s: State, user: UserId, leaf: NodeId, s': State, published: set<Wrapped>, k: Key, p: Key)
    requires Sound(s) && leaf in s.nodes && Joins(s, user, leaf, s') && OnlyUpward([s, s'], published)
    requires k in PathKeys(s, leaf) && Wrapped(k, p) in published
    ensures p in PathKeys(s, leaf)
  {
    hide Ascending, Layered, ChildrenInverse, WithChild, Path, Joins, Rotated;
    var states := [s, s'];
    var i, c, a :| 0 <= i < |states| && Upward(states[i], c, a, Wrapped(k, p));
    var b :| b in s.keys && Below(s.nodes, leaf, b) && s.keys[b] == k;
    if i == 1 {
      JoinFresh(s, user, leaf, s', c);
    }
    StaleAbove(s, leaf, b, c, a);
  }

  lemma StaleAbove(s: State, leaf: NodeId, b: NodeId, c: NodeId, a: NodeId)
    requires Sound(s) && Below(s.nodes, leaf, b)
    requires b in s.keys && c in s.keys && s.keys[b] == s.keys[c] && Below(s.nodes, c, a) && a in s.keys
    ensures s.keys[a] in PathKeys(s, leaf)
  {
    hide Ascending, Layered, ChildrenInverse, Path;
    BelowTrans(s.nodes, leaf, b, a);
  }

  /**
   What it costs: from its old path keys and everything published in the states before and after the
   join, the other user derives the new message key exactly when its leaf was not the sponsor.
   */
  lemma SponsorCost(s: State, user: UserId, sponsor: NodeId, s': State, other: UserId, published: set<Wrapped>)
    requires Good(s) && Joins(s, user, sponsor, s') && other in s.userLeaves && other != user
    requires OnlyUpward([s, s'], published) && ItemsOut([s, s'], published)
    ensures ROOT in s'.keys
    ensures Derives(PathKeys(s, s.userLeaves[other]), published, s'.keys[ROOT]) <==> sponsor != s.userLeaves[other]
  {
    hide Ascending, Layered, ChildrenInverse, WithChild, KeyTable, Path, Derives, OnlyUpward, ItemOut, Rotated;
    var leaf := s.userLeaves[other];
    var held := PathKeys(s, leaf);
    LeafSits(s, other);
    JoinSound(s, user, sponsor, s');
    RootKeyed(s');
    RootAbove(s.nodes, s.nextId, leaf);
    SponsorCutOff(s, user, sponsor, s', other);
    if sponsor != leaf {
      var states := [s, s'];
      assert states[1] == s';
      SelfBelow(s.nodes, leaf);
      WithChildAdded(s.nodes, sponsor, s.nextId, |s.nodes[sponsor].children|);
      RootAbove(s'.nodes, s'.nextId, leaf);
      ItemsClimb(s', held, published, leaf, ROOT);
    } else {
      JoinFresh(s, user, leaf, s', ROOT);
      StaleNever(s, user, leaf, s', published);
    }
  }

  lemma StaleNever(s: State, user: UserId, leaf: NodeId, s': State, published: set<Wrapped>)
    requires Sound(s) && leaf in s.nodes && Joins(s, user, leaf, s') && OnlyUpward([s, s'], published)
    requires ROOT in s'.keys && s'.keys[ROOT] >= s.nextKey
    ensures !Derives(PathKeys(s, leaf), published, s'.keys[ROOT])
  {
    hide Ascending, Layered, ChildrenInverse, WithChild, Path, OnlyUpward, Joins, KeysDistinct;
    var held := PathKeys(s, leaf);
    forall k, p | k in held && Wrapped(k, p) in published
      ensures p in held
    {
      StaleClosed(s, user, leaf, s', published, k, p);
    }
    if Derives(held, published, s'.keys[ROOT]) {
      var chain :| Chain(published, chain) && chain[0] in held && chain[|chain| - 1] == s'.keys[ROOT];
      DerivesLeast(held, published, held, chain);
    }
  }

  /** The leaf a member already had survives a second join and the leave that follows. */
  lemma OldLeafSurvives(s: State, user: UserId, sponsor: NodeId, s1: State, s2: State)
    requires Good(s) && Joins(s, user, sponsor, s1) && Good(s1) && Leaves(s1, user, s2)
    requires user in s.userLeaves && sponsor != s.userLeaves[user]
    ensures s.userLeaves[user] in s2.nodes && s.userLeaves[user] in s2.keys && s.userLeaves[user] in s.keys
    ensures s2.keys[s.userLeaves[user]] == s.keys[s.userLeaves[user]]
  {
    hide Ascending, Layered, ChildrenInverse, WithChild, KeysDistinct, Path;
    var leaf := s.userLeaves[user];
    assert IsLeaf(s, leaf);
    WithChildAdded(s.nodes, sponsor, s.nextId, |s.nodes[sponsor].children|);
    AddedPaths(s.nodes, s1.nodes, sponsor, s.nextId, |s.nodes[sponsor].children|, sponsor);
    JoinKeepsKey(s, user, sponsor, s1, leaf);
    if Below(s.nodes, sponsor, leaf) {
      LeafOnlySelf(s, sponsor, leaf);
    }
    StaysUnlessLeaf(s1, user, s2, leaf);
    var path := Ancestors(s1.nodes, s.nextId);
    AncestorsShape(s1.nodes, s.nextId);
    assert path == Path(s.nodes, sponsor);
    RotatedKeys(s1.keys - {s.nextId}, path, s1.nextKey);
  }

  /**
   After joining and leaving, a user is shut out exactly when it was not a member before: `join`
   does not refuse a member, and the leave then removes only the newer of its two leaves.
   */
  lemma RejoinIff(s: State, user: UserId, sponsor: NodeId, s1: State, s2: State, published: set<Wrapped>)
    requires Good(s) && (forall u :: u in s.userLeaves ==> s.userLeaves[u] != sponsor)
    requires Joins(s, user, sponsor, s1) && Ascending(s1.nodes) && Leaves(s1, user, s2)
    requires OnlyUpward([s, s1, s2], published) && ItemsOut([s, s1, s2], published)
    ensures user !in s2.userLeaves && ROOT in s2.keys
    ensures Derives(HeldBy([s, s1, s2], {user}), published, s2.keys[ROOT]) <==> user in s.userLeaves
  {
    hide Ascending, Layered, ChildrenInverse, WithChild, KeyTable, Path, Derives, OnlyUpward, ItemOut, Disciplined;
    var states := [s, s1, s2];
    JoinSound(s, user, sponsor, s1);
    JoinDisciplined(s, user, sponsor, s1);
    LeaveSound(s1, user, s2);
    LeaveDisciplined(s1, user, s2);
    RootKeyed(s2);
    if user in s.userLeaves {
      var leaf := s.userLeaves[user];
      OldLeafSurvives(s, user, sponsor, s1, s2);
      assert states[0] == s && states[2] == s2;
      RootAbove(s2.nodes, s2.nextId, leaf);
      ItemsClimb(s2, HeldBy(states, {user}), published, leaf, ROOT);
    } else {
      var events := [Join(user, sponsor), Leave(user)];
      assert forall i :: 0 <= i < 2 ==> Step(states[i], events[i], states[i + 1]);
      assert states[2] == s2;
      LockedOut(states, events, published, {user}, 2, ROOT);
    }
  }

  lemma RootKeyed(s: State)
    requires Sound(s)
    ensures ROOT in s.nodes && ROOT in s.keys
  {
  }

  // ------------------------------------------------------------------ rekeying suffices

  /** For each replaced node, its new key goes out under each child's current key. */
  ghost predicate RekeyOut(s': State, replaced: seq<NodeId>, messages: set<Wrapped>)
  {
    forall v, c :: v in replaced && v in s'.nodes && c in s'.nodes[v].children ==>
      v in s'.keys && c in s'.keys && Wrapped(s'.keys[c], s'.keys[v]) in messages
  }

  /** A path whose keys are held or replaced is derivable from the rekey messages alone. */
  lemma {:induction false} RekeyClimb(
      s': State, replaced: seq<NodeId>, held: set<Key>, messages: set<Wrapped>, leaf: NodeId, a: NodeId)
    requires Sound(s') && RekeyOut(s', replaced, messages) && Below(s'.nodes, leaf, a)
    requires leaf in s'.keys && s'.keys[leaf] in held
    requires forall b :: Below(s'.nodes, leaf, b) ==> b in replaced || (b in s'.keys && s'.keys[b] in held)
    ensures a in s'.keys && Derives(held, messages, s'.keys[a])
    decreases leaf - a
  {
    hide Ascending, Layered, Path, Derives, KeyTable;
    if a in s'.keys && s'.keys[a] in held {
      DerivesHeld(held, messages, s'.keys[a]);
    } else {
      BelowIn(s'.nodes, leaf, a);
      var c := BelowChild(s'.nodes, leaf, a);
      ChildEdge(s'.nodes, a, c);
      PathAtMost(s'.nodes, leaf, c);
      RekeyClimb(s', replaced, held, messages, leaf, c);
      DerivesUnwrap(held, messages, s'.keys[c], s'.keys[a]);
    }
  }

  /** The keys on a member's path. */
  ghost predicate HoldsPath(s: State, leaf: NodeId, held: set<Key>)
  {
    && Ascending(s.nodes)
    && forall b :: Below(s.nodes, leaf, b) ==> b in s.keys && s.keys[b] in held
  }

  /** Anyone already in keeps up with a join from its old path keys and the rekey messages alone. */
  lemma JoinKeepsUp(
      s: State, user: UserId, sponsor: NodeId, s': State, messages: set<Wrapped>, u: UserId, held: set<Key>, a: NodeId)
    requires Good(s) && Proper(s, user, sponsor) && Joins(s, user, sponsor, s')
    requires RekeyOut(s', Path(s.nodes, sponsor), messages)
    requires u in s.userLeaves && HoldsPath(s, s.userLeaves[u], held)
    requires Ascending(s'.nodes) && Below(s'.nodes, s.userLeaves[u], a)
    ensures a in s'.keys && Derives(held, messages, s'.keys[a])
  {
    hide Ascending, Layered, ChildrenInverse, WithChild, KeyTable, Path, Derives, RekeyOut, Rotated;
    var leaf := s.userLeaves[u];
    assert IsLeaf(s, leaf);
    JoinSound(s, user, sponsor, s');
    WithChildAdded(s.nodes, sponsor, s.nextId, |s.nodes[sponsor].children|);
    AddedPaths(s.nodes, s'.nodes, sponsor, s.nextId, |s.nodes[sponsor].children|, leaf);
    forall b | Below(s'.nodes, leaf, b)
      ensures b in Path(s.nodes, sponsor) || (b in s'.keys && s'.keys[b] in held)
    {
      BelowIn(s.nodes, leaf, b);
      JoinKeepsKey(s, user, sponsor, s', b);
    }
    SelfBelow(s.nodes, leaf);
    SponsorCutOff(s, user, sponsor, s', u);
    RekeyClimb(s', Path(s.nodes, sponsor), held, messages, leaf, a);
  }

  /** The joiner starts from its leaf key alone. */
  lemma JoinerStarts(s: State, user: UserId, sponsor: NodeId, s': State, messages: set<Wrapped>, a: NodeId)
    requires Good(s) && Joins(s, user, sponsor, s') && RekeyOut(s', Path(s.nodes, sponsor), messages)
    requires Ascending(s'.nodes) && Below(s'.nodes, s.nextId, a)
    ensures s'.userLeaves[user] == s.nextId && s.nextId in s'.keys && a in s'.keys
    ensures Derives({s'.keys[s.nextId]}, messages, s'.keys[a])
  {
    hide Ascending, Layered, ChildrenInverse, WithChild, KeyTable, Path, Derives, RekeyOut, Rotated;
    JoinSound(s, user, sponsor, s');
    WithChildAdded(s.nodes, sponsor, s.nextId, |s.nodes[sponsor].children|);
    AddedPaths(s.nodes, s'.nodes, sponsor, s.nextId, |s.nodes[sponsor].children|, sponsor);
    RekeyClimb(s', Path(s.nodes, sponsor), {s'.keys[s.nextId]}, messages, s.nextId, a);
  }

  /** Everyone who stays keeps up with a leave. */
  lemma LeaveKeepsUp(
      s: State, user: UserId, s': State, messages: set<Wrapped>, u: UserId, held: set<Key>, a: NodeId)
    requires Good(s) && Leaves(s, user, s')
    requires RekeyOut(s', Ancestors(s.nodes, s.userLeaves[user]), messages)
    requires u in s'.userLeaves && HoldsPath(s, s.userLeaves[u], held)
    requires Ascending(s'.nodes) && Below(s'.nodes, s.userLeaves[u], a)
    ensures a in s'.keys && Derives(held, messages, s'.keys[a])
  {
    hide Ascending, Layered, ChildrenInverse, Path, Derives, RekeyOut, KeysDistinct;
    var gone, leaf := s.userLeaves[user], s.userLeaves[u];
    var path := Ancestors(s.nodes, gone);
    assert IsLeaf(s, leaf) && IsLeaf(s, gone);
    LeaveSound(s, user, s');
    OthersStay(s, user, s', u);
    AncestorsShape(s.nodes, gone);
    RotatedKeys(s.keys - {gone}, path, s.nextKey);
    forall b | Below(s'.nodes, leaf, b)
      ensures b in path || (b in s'.keys && s'.keys[b] in held)
    {
      BelowIn(s'.nodes, leaf, b);
      PrunedSubset(s.nodes, s'.nodes, gone);
    }
    SelfBelow(s.nodes, leaf);
    AncestorHasChild(s, gone, leaf);
    RekeyClimb(s', path, held, messages, leaf, a);
  }

  /** A childless node is nobody's ancestor. */
  lemma AncestorHasChild(s: State, v: NodeId, leaf: NodeId)
    requires Sound(s) && v in s.nodes && IsLeaf(s, leaf)
    ensures leaf !in Ancestors(s.nodes, v)
  {
    hide Ascending, Layered, ChildrenInverse, KeyTable, Path;
    AncestorsShape(s.nodes, v);
    if leaf in Ancestors(s.nodes, v) {
      var i :| 0 <= i < |Ancestors(s.nodes, v)| && Ancestors(s.nodes, v)[i] == leaf;
      assert Path(s.nodes, v)[i + 1] == leaf;
      LeafOnlySelf(s, v, leaf);
    }
  }

  // ---------------------------------------------------------- the same for any proper change

  /** The nodes a change replaces. */
  ghost function Replaced(s: State, e: Event): seq<NodeId>
  {
    match e
    case Join(_, sponsor) => if Ascending(s.nodes) && sponsor in s.nodes then Path(s.nodes, sponsor) else []
    case Leave(user) =>
      if Ascending(s.nodes) && user in s.userLeaves && s.userLeaves[user] in s.nodes then
        Ancestors(s.nodes, s.userLeaves[user])
      else []
  }

  /** What a member of the new state brings: its old path keys, or the leaf key it was just given. */
  ghost predicate Brings(s: State, s': State, u: UserId, held: set<Key>)
  {
    && u in s'.userLeaves
    && if u in s.userLeaves then HoldsPath(s, s.userLeaves[u], held)
       else s'.userLeaves[u] in s'.keys && s'.keys[s'.userLeaves[u]] in held
  }

  lemma DerivesMore(held: set<Key>, held': set<Key>, published: set<Wrapped>, k: Key)
    requires held <= held' && Derives(held, published, k)
    ensures Derives(held', published, k)
  {
    var chain :| Chain(published, chain) && chain[0] in held && chain[|chain| - 1] == k;
    assert chain[0] in held';
  }

  /** After any proper join or leave every member gets all its path keys from what it brings and the rekey messages. */
  lemma KeepsUp(s: State, e: Event, s': State, messages: set<Wrapped>, u: UserId, held: set<Key>, a: NodeId)
    requires Good(s) && Ascending(s.nodes) && Changes(s, e, s') && RekeyOut(s', Replaced(s, e), messages)
    requires Brings(s, s', u, held) && Ascending(s'.nodes) && Below(s'.nodes, s'.userLeaves[u], a)
    ensures a in s'.keys && Derives(held, messages, s'.keys[a])
  {
    hide Ascending, Layered, ChildrenInverse, KeyTable, Path, Derives, RekeyOut, Rotated, WithChild, Pruning, Disciplined;
    match e
    case Join(user, sponsor) =>
      if u in s.userLeaves {
        JoinKeepsUp(s, user, sponsor, s', messages, u, held, a);
      } else {
        JoinerStarts(s, user, sponsor, s', messages, a);
        DerivesMore({s'.keys[s.nextId]}, held, messages, s'.keys[a]);
      }
    case Leave(user) =>
      LeaveKeepsUp(s, user, s', messages, u, held, a);
  }

  /** The leaf key a member brings is still its leaf key. */
  lemma LeafKeyKept(s: State, e: Event, s': State, u: UserId, held: set<Key>)
    requires Good(s) && Ascending(s.nodes) && Changes(s, e, s') && Brings(s, s', u, held)
    ensures s'.userLeaves[u] in s'.keys && s'.keys[s'.userLeaves[u]] in held
  {
    hide Ascending, Layered, ChildrenInverse, KeyTable, Path, WithChild, Pruning, Rotated;
    if u in s.userLeaves {
      assert IsLeaf(s, s.userLeaves[u]);
      LeafSits(s, u);
      SelfBelow(s.nodes, s.userLeaves[u]);
      match e
      case Join(user, sponsor) =>
        SponsorCutOff(s, user, sponsor, s', u);
      case Leave(user) =>
        LeaveKeepsLeafKey(s, user, s', u);
    }
  }

  lemma LeaveKeepsLeafKey(s: State, user: UserId, s': State, u: UserId)
    requires Good(s) && Leaves(s, user, s') && u in s.userLeaves && u != user && s.userLeaves[u] in s.keys
    ensures s.userLeaves[u] in s'.keys && s'.keys[s.userLeaves[u]] == s.keys[s.userLeaves[u]]
  {
    hide Ascending, Layered, ChildrenInverse, KeyTable, Path, Pruning;
    var gone, leaf := s.userLeaves[user], s.userLeaves[u];
    assert IsLeaf(s, leaf) && IsLeaf(s, gone);
    AncestorHasChild(s, gone, leaf);
    AncestorsShape(s.nodes, gone);
    RotatedKeys(s.keys - {gone}, Ancestors(s.nodes, gone), s.nextKey);
  }
}
