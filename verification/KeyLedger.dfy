/**
 The audience law when members may join again: a user counts through every leaf it was ever given
 that is still in the tree. Each such leaf is treated as a user of its own, named by its node.
 */
module KeyLedger {
  import opened KeyGraphs
  import opened KeyHierarchy
  import opened KeySecrecy

  /** The leaves ever given out and still in the tree, with the users they were given to. */
  type Ledger = map<NodeId, UserId>

  ghost predicate Owns(s: State, ledger: Ledger)
  {
    forall u :: u in s.userLeaves ==> s.userLeaves[u] in ledger && ledger[s.userLeaves[u]] == u
  }

  /** One call: refused, a join not sponsored by a leaf that was given out, or a leave. */
  ghost predicate LooseStep(s: State, ledger: Ledger, e: Event, s': State, ledger': Ledger)
  {
    || (s' == s && ledger' == ledger)
    || (Ascending(s.nodes)
        && match e
           case Join(user, sponsor) =>
             sponsor !in ledger && Joins(s, user, sponsor, s') && ledger' == ledger[s.nextId := user]
           case Leave(user) => Leaves(s, user, s') && ledger' == ledger - {s.userLeaves[user]})
  }

  /** A history of joins, by members too, and leaves. */
  ghost predicate LooseRun(states: seq<State>, ledgers: seq<Ledger>, events: seq<Event>)
  {
    && |states| == |ledgers| == |events| + 1
    && Good(Named(states[0], ledgers[0])) && Owns(states[0], ledgers[0])
    && (forall i :: 0 <= i < |events| ==> LooseStep(states[i], ledgers[i], events[i], states[i + 1], ledgers[i + 1]))
  }

  /** The state with each given leaf as a user named by its node. */
  ghost function Named(s: State, ledger: Ledger): State
  {
    s.(userLeaves := map l | l in ledger :: l)
  }

  ghost function NamedEvent(s: State, e: Event): Event
  {
    match e
    case Join(_, sponsor) => Join(s.nextId, sponsor)
    case Leave(user) => Leave(if user in s.userLeaves then s.userLeaves[user] else 0)
  }

  /** A good state with its current members starts a history. */
  lemma StartLedger(s: State) returns (ledger: Ledger)
    requires Good(s)
    ensures Good(Named(s, ledger)) && Owns(s, ledger)
    ensures forall l :: l in ledger <==> exists u :: u in s.userLeaves && s.userLeaves[u] == l
  {
    hide Tree, KeyTable;
    ledger := map u | u in s.userLeaves :: s.userLeaves[u] := u;
    forall l | l in ledger
      ensures IsLeaf(Named(s, ledger), l)
    {
      var u :| u in s.userLeaves && s.userLeaves[u] == l;
      assert IsLeaf(s, s.userLeaves[u]);
    }
  }

  lemma LedgerLeaf(s: State, ledger: Ledger, l: NodeId)
    requires Good(Named(s, ledger)) && l in ledger
    ensures l in s.nodes && l < s.nextId && l in s.keys
  {
    hide KeysDistinct, Ascending, Layered, ChildrenInverse;
    assert Named(s, ledger).userLeaves[l] == l;
    assert IsLeaf(Named(s, ledger), l);
  }

  lemma NamedStep(s: State, ledger: Ledger, e: Event, s': State, ledger': Ledger)
    requires Good(Named(s, ledger)) && Owns(s, ledger) && LooseStep(s, ledger, e, s', ledger')
    ensures Step(Named(s, ledger), NamedEvent(s, e), Named(s', ledger')) && Owns(s', ledger')
    ensures s.nextId <= s'.nextId && forall l :: l in ledger' ==> l in ledger || l >= s.nextId
    ensures forall l :: l in ledger && l in ledger' ==> ledger[l] == ledger'[l]
  {
    hide Good, Path, Rotated, WithChild, Pruning, Ascending;
    if !(s' == s && ledger' == ledger) {
      match e
      case Join(user, sponsor) =>
        forall l | l in ledger
          ensures l < s.nextId
        {
          LedgerLeaf(s, ledger, l);
        }
        NamedJoin(s, ledger, user, sponsor, s', ledger');
      case Leave(user) =>
        NamedLeave(s, ledger, user, s', ledger');
    }
  }

  lemma NamedJoin(s: State, ledger: Ledger, user: UserId, sponsor: NodeId, s': State, ledger': Ledger)
    requires Ascending(s.nodes) && Joins(s, user, sponsor, s') && ledger' == ledger[s.nextId := user]
    requires sponsor !in ledger && s.nextId !in ledger
    ensures Proper(Named(s, ledger), s.nextId, sponsor)
    ensures Joins(Named(s, ledger), s.nextId, sponsor, Named(s', ledger'))
  {
    hide Path, Rotated, WithChild, Ascending;
    assert Named(s', ledger').userLeaves == Named(s, ledger).userLeaves[s.nextId := s.nextId];
  }

  lemma NamedLeave(s: State, ledger: Ledger, user: UserId, s': State, ledger': Ledger)
    requires Ascending(s.nodes) && Owns(s, ledger) && Leaves(s, user, s')
    requires ledger' == ledger - {s.userLeaves[user]}
    ensures Leaves(Named(s, ledger), s.userLeaves[user], Named(s', ledger'))
  {
    hide Path, Rotated, Pruning, Ascending;
    var leaf := s.userLeaves[user];
    assert Named(s', ledger').userLeaves == Named(s, ledger).userLeaves - {leaf};
  }

  ghost function NamedStates(states: seq<State>, ledgers: seq<Ledger>): (r: seq<State>)
    requires |states| == |ledgers|
    ensures |r| == |states|
  {
    seq(|states|, i requires 0 <= i < |states| => Named(states[i], ledgers[i]))
  }

  ghost function NamedEvents(states: seq<State>, events: seq<Event>): (r: seq<Event>)
    requires |states| == |events| + 1
    ensures |r| == |events|
  {
    seq(|events|, i requires 0 <= i < |events| => NamedEvent(states[i], events[i]))
  }

  lemma {:induction false} ReachedNamed(states: seq<State>, ledgers: seq<Ledger>, events: seq<Event>, i: nat)
    requires LooseRun(states, ledgers, events) && i < |states|
    ensures Good(Named(states[i], ledgers[i])) && Owns(states[i], ledgers[i])
    decreases i
  {
    hide Good, LooseStep, Step, Owns;
    if i > 0 {
      ReachedNamed(states, ledgers, events, i - 1);
      assert LooseStep(states[i - 1], ledgers[i - 1], events[i - 1], states[i - 1 + 1], ledgers[i - 1 + 1]);
      NamedStep(states[i - 1], ledgers[i - 1], events[i - 1], states[i], ledgers[i]);
      StepGood(Named(states[i - 1], ledgers[i - 1]), NamedEvent(states[i - 1], events[i - 1]), Named(states[i], ledgers[i]));
    }
  }

  /** Taken leaf by leaf, a loose history is a run. */
  lemma NamedRun(states: seq<State>, ledgers: seq<Ledger>, events: seq<Event>)
    requires LooseRun(states, ledgers, events)
    ensures Run(NamedStates(states, ledgers), NamedEvents(states, events))
  {
    hide Good, LooseStep, Step, Owns, Named, NamedEvent;
    var named, calls := NamedStates(states, ledgers), NamedEvents(states, events);
    forall i | 0 <= i < |events|
      ensures Step(named[i], calls[i], named[i + 1])
    {
      ReachedNamed(states, ledgers, events, i);
      assert LooseStep(states[i], ledgers[i], events[i], states[i + 1], ledgers[i + 1]);
      NamedStep(states[i], ledgers[i], events[i], states[i + 1], ledgers[i + 1]);
    }
  }

  /** A leaf belongs to the same user as long as it is in the tree. */
  lemma {:induction false} OwnerFixed(
      states: seq<State>, ledgers: seq<Ledger>, events: seq<Event>, i: nat, j: nat, l: NodeId)
    requires LooseRun(states, ledgers, events) && i <= j < |states| && l in ledgers[i]
    ensures states[i].nextId <= states[j].nextId
    ensures l in ledgers[j] ==> ledgers[i][l] == ledgers[j][l]
    decreases j
  {
    hide Good, LooseStep, Step, Owns, Named;
    if i < j {
      OwnerFixed(states, ledgers, events, i, j - 1, l);
      ReachedNamed(states, ledgers, events, j - 1);
      ReachedNamed(states, ledgers, events, i);
      LedgerLeaf(states[i], ledgers[i], l);
      assert LooseStep(states[j - 1], ledgers[j - 1], events[j - 1], states[j - 1 + 1], ledgers[j - 1 + 1]);
      NamedStep(states[j - 1], ledgers[j - 1], events[j - 1], states[j], ledgers[j]);
    }
  }

  /** Every leaf key the members of a coalition were given, in any state its leaf was still in the tree. */
  ghost function HeldEver(states: seq<State>, ledgers: seq<Ledger>, coalition: set<UserId>): set<Key>
    requires |states| == |ledgers|
  {
    set i, l | 0 <= i < |states| && l in ledgers[i] && ledgers[i][l] in coalition && l in states[i].keys :: states[i].keys[l]
  }

  /** The leaves a coalition was given. */
  ghost function LeavesOf(ledgers: seq<Ledger>, coalition: set<UserId>): set<NodeId>
  {
    set i, l | 0 <= i < |ledgers| && l in ledgers[i] && ledgers[i][l] in coalition :: l
  }

  lemma SameOwner(states: seq<State>, ledgers: seq<Ledger>, events: seq<Event>, coalition: set<UserId>, i: nat, l: NodeId)
    requires LooseRun(states, ledgers, events) && i < |states| && l in ledgers[i]
    ensures l in LeavesOf(ledgers, coalition) <==> ledgers[i][l] in coalition
  {
    hide LooseRun;
    if l in LeavesOf(ledgers, coalition) {
      var j :| 0 <= j < |ledgers| && l in ledgers[j] && ledgers[j][l] in coalition;
      LooseLengths(states, ledgers, events);
      if i <= j {
        OwnerFixed(states, ledgers, events, i, j, l);
      } else {
        OwnerFixed(states, ledgers, events, j, i, l);
      }
    } else {
      LooseLengths(states, ledgers, events);
    }
  }

  lemma LooseLengths(states: seq<State>, ledgers: seq<Ledger>, events: seq<Event>)
    requires LooseRun(states, ledgers, events)
    ensures |states| == |ledgers| == |events| + 1
  {
  }

  lemma HeldIsHeldEver(states: seq<State>, ledgers: seq<Ledger>, events: seq<Event>, coalition: set<UserId>)
    requires LooseRun(states, ledgers, events)
    ensures HeldBy(NamedStates(states, ledgers), LeavesOf(ledgers, coalition)) == HeldEver(states, ledgers, coalition)
  {
    hide LooseRun, LeavesOf;
    LooseLengths(states, ledgers, events);
    var named, leaves := NamedStates(states, ledgers), LeavesOf(ledgers, coalition);
    forall k
      ensures k in HeldBy(named, leaves) <==> k in HeldEver(states, ledgers, coalition)
    {
      if k in HeldBy(named, leaves) {
        var i, u :| 0 <= i < |named| && u in leaves && u in named[i].userLeaves
          && named[i].userLeaves[u] in named[i].keys && named[i].keys[named[i].userLeaves[u]] == k;
        SameOwner(states, ledgers, events, coalition, i, u);
      }
      if k in HeldEver(states, ledgers, coalition) {
        var i, l :| 0 <= i < |states| && l in ledgers[i] && ledgers[i][l] in coalition && l in states[i].keys
          && states[i].keys[l] == k;
        SameOwner(states, ledgers, events, coalition, i, l);
        assert l in named[i].userLeaves && named[i].userLeaves[l] == l;
      }
    }
  }

  lemma NamedUpward(states: seq<State>, ledgers: seq<Ledger>, published: set<Wrapped>)
    requires |states| == |ledgers| && OnlyUpward(states, published) && ItemsOut(states, published)
    ensures OnlyUpward(NamedStates(states, ledgers), published) && ItemsOut(NamedStates(states, ledgers), published)
  {
    hide Ascending, Below;
    var named := NamedStates(states, ledgers);
    forall w | w in published
      ensures exists i, c, a :: 0 <= i < |named| && Upward(named[i], c, a, w)
    {
      var i, c, a :| 0 <= i < |states| && Upward(states[i], c, a, w);
      assert Upward(named[i], c, a, w);
    }
    forall i, v | 0 <= i < |named| && v in named[i].nodes && named[i].nodes[v].parent.Some?
      ensures ItemOut(named[i], v, published)
    {
      assert ItemOut(states[i], v, published);
    }
  }

  /** A leaf given to the coalition is still in the tree at or below the node. */
  ghost predicate Reaches(s: State, ledger: Ledger, coalition: set<UserId>, v: NodeId)
  {
    Ascending(s.nodes) && exists l :: l in ledger && ledger[l] in coalition && Below(s.nodes, l, v)
  }

  /**
   The audience law without asking that joiners are new: over any history of joins and leaves, a
   coalition derives a node's key in a state exactly when a leaf any of its members was ever given is
   still in the tree at or below that node in that state.
   */
  lemma LedgerLaw(
      states: seq<State>, ledgers: seq<Ledger>, events: seq<Event>, published: set<Wrapped>, coalition: set<UserId>,
      i: nat, v: NodeId)
    requires LooseRun(states, ledgers, events) && OnlyUpward(states, published) && ItemsOut(states, published)
    requires i < |states| && v in states[i].nodes
    ensures v in states[i].keys
    ensures Derives(HeldEver(states, ledgers, coalition), published, states[i].keys[v])
       <==> Reaches(states[i], ledgers[i], coalition, v)
  {
    hide LooseRun, Run, OnlyUpward, ItemsOut, Derives, HeldBy, HeldEver, LeavesOf, Good, Below, Ascending;
    LooseLengths(states, ledgers, events);
    var named, leaves := NamedStates(states, ledgers), LeavesOf(ledgers, coalition);
    NamedRun(states, ledgers, events);
    NamedUpward(states, ledgers, published);
    HeldIsHeldEver(states, ledgers, events, coalition);
    DerivesIff(named, NamedEvents(states, events), published, leaves, i, v);
    ReachedNamed(states, ledgers, events, i);
    GoodAscending(named[i]);
    forall l | l in ledgers[i]
      ensures l in leaves <==> ledgers[i][l] in coalition
    {
      SameOwner(states, ledgers, events, coalition, i, l);
    }
    SitsIsReaches(states[i], ledgers[i], coalition, leaves, v);
  }

  lemma SitsIsReaches(s: State, ledger: Ledger, coalition: set<UserId>, leaves: set<NodeId>, v: NodeId)
    requires Ascending(s.nodes) && forall l :: l in ledger ==> (l in leaves <==> ledger[l] in coalition)
    ensures (exists x :: x in leaves && Sits(Named(s, ledger), v, x)) <==> Reaches(s, ledger, coalition, v)
  {
    hide Ascending, Below;
    if Reaches(s, ledger, coalition, v) {
      var l :| l in ledger && ledger[l] in coalition && Below(s.nodes, l, v);
      assert Sits(Named(s, ledger), v, l);
    }
  }
}
