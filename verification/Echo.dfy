/** The echo round for identifiable abort (crates/custody/src/echo.rs). */
module Echo {
  import opened Wrappers
  import opened Bytes
  import opened Transactions
  import opened Sighash
  import opened Headers

  datatype PartyView = PartyView(receiver: nat, messages: seq<Script>)

  datatype EchoOutcome = Consistent(agreed: Hash256) | Equivocator(sender: nat)

  // ---------------------------------------------------------------------- transcripts

  /** `to_be_bytes` of a 64-bit integer. */
  function BE8(v: nat): (r: seq<Byte>)
    ensures |r| == 8
  {
    Reverse(LE(8, v))
  }

  lemma {:induction false} ReverseInjective(a: seq<Byte>, b: seq<Byte>)
    requires Reverse(a) == Reverse(b)
    ensures a == b
  {
    if a != [] {
      Split(Reverse(a[1..]), [a[0]], Reverse(b[1..]), [b[0]]);
      assert [a[0]][0] == [b[0]][0];
      ReverseInjective(a[1..], b[1..]);
      assert a == [a[0]] + a[1..] && b == [b[0]] + b[1..];
    }
  }

  lemma BE8Injective(v: U64, w: U64)
    requires BE8(v) == BE8(w)
    ensures v == w
  {
    hide LE, Pow256;
    ReverseInjective(LE(8, v), LE(8, w));
    Pow256Values();
    LEInjective(8, v, w);
  }

  /** The most significant byte comes first. */
  lemma BE8Digit(v: nat, k: nat)
    requires k < 8
    ensures BE8(v)[k] == v / Pow256(7 - k) % 256
  {
    hide LE, Reverse;
    ReverseAt(LE(8, v), k);
    LEDigit(8, v, 7 - k);
  }

  /** One entry: the sender, the length and the message. */
  function Entry(sender: nat, message: Script): seq<Byte>
  {
    BE8(sender) + BE8(|message|) + message
  }

  function Transcript(messages: seq<Script>, first: nat): seq<Byte>
    decreases messages
  {
    if messages == [] then [] else Entry(first, messages[0]) + Transcript(messages[1..], first + 1)
  }

  lemma {:induction false} TranscriptSnoc(messages: seq<Script>, m: Script, first: nat)
    ensures Transcript(messages + [m], first) == Transcript(messages, first) + Entry(first + |messages|, m)
    decreases messages
  {
    hide Entry;
    if messages == [] {
      assert [m][1..] == [];
      assert Transcript([m][1..], first + 1) == [];
      assert messages + [m] == [m];
    } else {
      TranscriptSnoc(messages[1..], m, first + 1);
      assert (messages + [m])[1..] == messages[1..] + [m];
    }
  }

  /** The bytes taken by the first i entries. */
  function Lead(messages: seq<Script>, i: nat): nat
    requires i <= |messages|
  {
    if i == 0 then 0 else 16 + |messages[0]| + Lead(messages[1..], i - 1)
  }

  /** Each message stands behind its sender's number and its length, and nothing else is hashed. */
  lemma {:induction false} TranscriptAt(messages: seq<Script>, first: nat, i: nat)
    requires i <= |messages|
    ensures |Transcript(messages, first)| == Lead(messages, |messages|)
    ensures i < |messages| ==>
              At(Transcript(messages, first), Lead(messages, i), BE8(first + i) + BE8(|messages[i]|) + messages[i])
    decreases messages
  {
    hide BE8;
    if messages != [] {
      var head, rest := Entry(first, messages[0]), Transcript(messages[1..], first + 1);
      TranscriptAt(messages[1..], first + 1, if i == 0 then 0 else i - 1);
      if 0 < i < |messages| {
        var bs := BE8(first + i) + BE8(|messages[i]|) + messages[i];
        AtShifted(head, rest, Lead(messages[1..], i - 1), bs);
      }
    }
  }

  lemma AtShifted(head: seq<Byte>, rest: seq<Byte>, off: nat, bs: seq<Byte>)
    requires At(rest, off, bs)
    ensures At(head + rest, |head| + off, bs)
  {
    assert (head + rest)[|head| + off..|head| + off + |bs|] == rest[off..off + |bs|];
  }

  /** The length-prefixed encoding is injective. */
  lemma {:induction false} TranscriptInjective(a: seq<Script>, b: seq<Script>, first: nat)
    requires Transcript(a, first) == Transcript(b, first)
    ensures a == b
    decreases a
  {
    hide BE8;
    if a != [] && b != [] {
      var x, y := Transcript(a[1..], first + 1), Transcript(b[1..], first + 1);
      var h, h' := BE8(first) + BE8(|a[0]|), BE8(first) + BE8(|b[0]|);
      assert Transcript(a, first) == h + (a[0] + x);
      assert Transcript(b, first) == h' + (b[0] + y);
      Split(h, a[0] + x, h', b[0] + y);
      Split(BE8(first), BE8(|a[0]|), BE8(first), BE8(|b[0]|));
      BE8Injective(|a[0]|, |b[0]|);
      Split(a[0], x, b[0], y);
      TranscriptInjective(a[1..], b[1..], first + 1);
      assert a == [a[0]] + a[1..] && b == [b[0]] + b[1..];
    }
  }

  /** `transcript_hash`. */
  method TranscriptHash(hash: Hasher, messages: seq<Script>) returns (r: Hash256)
    ensures r == hash(Transcript(messages, 0))
  {
    hide LE, BE8;
    var buffer: seq<Byte> := [];
    for sender := 0 to |messages|
      invariant buffer == Transcript(messages[..sender], 0)
    {
      TranscriptSnoc(messages[..sender], messages[sender], 0);
      assert messages[..sender + 1] == messages[..sender] + [messages[sender]];
      buffer := buffer + (BE8(sender) + BE8(|messages[sender]|) + messages[sender]);
    }
    assert messages[..|messages|] == messages;
    return hash(buffer);
  }

  // ------------------------------------------------------------------------- the round

  /** Two receivers hold different messages from a sender. */
  ghost predicate Differs(views: seq<PartyView>, sender: nat)
  {
    exists i, j :: 0 <= i < |views| && 0 <= j < |views| && DifferAt(views, sender, i, j)
  }

  ghost predicate DifferAt(views: seq<PartyView>, sender: nat, i: nat, j: nat)
    requires i < |views| && j < |views|
  {
    && sender < |views[i].messages| && sender < |views[j].messages|
    && views[i].messages[sender] != views[j].messages[sender]
  }

  function Echoed(hash: Hasher, view: PartyView): Hash256
  {
    hash(Transcript(view.messages, 0))
  }

  /** All receivers echo the same hash. */
  ghost predicate Agree(hash: Hasher, views: seq<PartyView>)
  {
    forall i :: 0 <= i < |views| ==> Echoed(hash, views[i]) == Echoed(hash, views[0])
  }

  function Longest(views: seq<PartyView>): (n: nat)
    ensures forall i :: 0 <= i < |views| ==> |views[i].messages| <= n
  {
    if views == [] then 0
    else
      var rest := Longest(views[1..]);
      assert forall i :: 0 < i < |views| ==> views[i] == views[1..][i - 1];
      if |views[0].messages| > rest then |views[0].messages| else rest
  }

  /** The inner loop: does any receiver's message from this sender differ from the first one seen? */
  method FindDifference(views: seq<PartyView>, sender: nat) returns (found: bool)
    ensures found <==> Differs(views, sender)
  {
    var reference: Option<Script> := None;
    ghost var at := 0;
    for i := 0 to |views|
      invariant reference.None? ==> forall k :: 0 <= k < i ==> sender >= |views[k].messages|
      invariant reference.Some? ==>
                  && 0 <= at < i && sender < |views[at].messages| && views[at].messages[sender] == reference.value
                  && forall k :: 0 <= k < i && sender < |views[k].messages| ==> views[k].messages[sender] == reference.value
    {
      if sender < |views[i].messages| {
        var message := views[i].messages[sender];
        match reference {
          case None =>
            reference := Some(message);
            at := i;
          case Some(seen) =>
            if seen != message {
              assert DifferAt(views, sender, at, i);
              return true;
            }
        }
      }
    }
    return false;
  }

  /** What the round reports, on any views. */
  ghost predicate Reports(hash: Hasher, views: seq<PartyView>, outcome: EchoOutcome)
  {
    match outcome
    case Consistent(agreed) => Agree(hash, views) && agreed == if views == [] then hash([]) else Echoed(hash, views[0])
    case Equivocator(sender) =>
      && !Agree(hash, views)
      && if exists s: nat :: Differs(views, s) then
           Differs(views, sender) && forall s: nat :: s < sender ==> !Differs(views, s)
         else sender == if Longest(views) == 0 then 0 else Longest(views) - 1
  }

  /** `run_echo_round`. */
  method RunEchoRound(hash: Hasher, views: seq<PartyView>) returns (outcome: EchoOutcome)
    ensures Reports(hash, views, outcome)
  {
    hide Transcript, Differs;
    if views == [] {
      return Consistent(hash([]));
    }
    var agreed := TranscriptHash(hash, views[0].messages);
    var consistent := true;
    for i := 0 to |views|
      invariant consistent <==> forall k :: 0 <= k < i ==> Echoed(hash, views[k]) == agreed
    {
      var echoed := TranscriptHash(hash, views[i].messages);
      if echoed != agreed {
        consistent := false;
      }
    }
    if consistent {
      return Consistent(agreed);
    }
    var senderCount := Longest(views);
    for sender := 0 to senderCount
      invariant forall s: nat :: s < sender ==> !Differs(views, s)
    {
      var found := FindDifference(views, sender);
      if found {
        return Equivocator(sender);
      }
    }
    forall s: nat
      ensures !Differs(views, s)
    {
      if s >= senderCount {
        PastTheEnd(views, s);
      }
    }
    return Equivocator(if senderCount == 0 then 0 else senderCount - 1);
  }

  lemma PastTheEnd(views: seq<PartyView>, s: nat)
    requires s >= Longest(views)
    ensures !Differs(views, s)
  {
  }

  // ----------------------------------------------------------------- what it establishes

  /** Agreement means equal views, or the hash collides on two transcripts. */
  lemma AgreementIsEquality(hash: Hasher, views: seq<PartyView>, i: nat)
    requires Agree(hash, views) && i < |views|
    ensures
      || views[i].messages == views[0].messages
      || IsCollision(hash, (Transcript(views[i].messages, 0), Transcript(views[0].messages, 0)))
  {
    if Transcript(views[i].messages, 0) == Transcript(views[0].messages, 0) {
      TranscriptInjective(views[i].messages, views[0].messages, 0);
    }
  }

  ghost predicate EqualLengths(views: seq<PartyView>)
  {
    forall i :: 0 <= i < |views| ==> |views[i].messages| == |views[0].messages|
  }

  /** With full views, disagreement is some sender's doing. */
  lemma DisagreementHasCause(hash: Hasher, views: seq<PartyView>)
    requires EqualLengths(views) && !Agree(hash, views)
    ensures exists s: nat :: Differs(views, s)
  {
    var i :| 0 <= i < |views| && Echoed(hash, views[i]) != Echoed(hash, views[0]);
    var s := DiffIndex(views[i].messages, views[0].messages);
    assert DifferAt(views, s, i, 0);
    assert Differs(views, s);
  }

  lemma DiffIndex<T>(a: seq<T>, b: seq<T>) returns (s: nat)
    requires |a| == |b| && a != b
    ensures s < |a| && a[s] != b[s]
  {
    s :| 0 <= s < |a| && a[s] != b[s];
  }

  /** With full views the named sender is the least who sent two receivers different messages. */
  lemma BlameIsJust(hash: Hasher, views: seq<PartyView>, sender: nat)
    requires EqualLengths(views) && Reports(hash, views, Equivocator(sender))
    ensures Differs(views, sender) && forall s: nat :: s < sender ==> !Differs(views, s)
  {
    hide Differs, Agree, EqualLengths;
    DisagreementHasCause(hash, views);
  }

  // -------------------------------------------------------- views of different lengths

  /** Of any two views one is the beginning of the other. */
  ghost predicate Nested(views: seq<PartyView>)
  {
    forall i, j :: 0 <= i < |views| && 0 <= j < |views| && |views[i].messages| <= |views[j].messages| ==>
      views[i].messages <= views[j].messages
  }

  /** Some sender told two receivers different things exactly when the views are not nested. */
  lemma DiffersIffNotNested(views: seq<PartyView>)
    ensures (exists s: nat :: Differs(views, s)) <==> !Nested(views)
  {
    if !Nested(views) {
      var i, j :| 0 <= i < |views| && 0 <= j < |views| && |views[i].messages| <= |views[j].messages|
        && !(views[i].messages <= views[j].messages);
      var n := |views[i].messages|;
      var s := DiffIndex(views[i].messages, views[j].messages[..n]);
      assert DifferAt(views, s, i, j);
      assert Differs(views, s);
    }
    forall s: nat | Differs(views, s)
      ensures !Nested(views)
    {
      var i, j :| 0 <= i < |views| && 0 <= j < |views| && DifferAt(views, s, i, j);
      if |views[i].messages| <= |views[j].messages| {
        NotPrefix(views[i].messages, views[j].messages, s);
      } else {
        NotPrefix(views[j].messages, views[i].messages, s);
      }
    }
  }

  lemma NotPrefix<T>(a: seq<T>, b: seq<T>, s: nat)
    requires s < |a| <= |b| && a[s] != b[s]
    ensures !(a <= b)
  {
  }

  /**
   Exactly when the blame is unjust: the hashes disagree and the views are nested. The sender named
   is then the last one of the longest view, and nobody equivocated at all.
   */
  lemma UnjustIff(hash: Hasher, views: seq<PartyView>, outcome: EchoOutcome)
    requires Reports(hash, views, outcome)
    ensures outcome.Equivocator? && !Differs(views, outcome.sender) <==> Nested(views) && !Agree(hash, views)
    ensures Nested(views) && !Agree(hash, views) ==>
              && outcome == Equivocator(Longest(views) - 1) && Longest(views) > 0
              && forall s: nat :: !Differs(views, s)
  {
    hide Differs, Nested, Agree, Longest;
    DiffersIffNotNested(views);
    SilenceAgrees(hash, views);
  }

  lemma SilenceAgrees(hash: Hasher, views: seq<PartyView>)
    ensures Longest(views) == 0 ==> Agree(hash, views)
  {
    hide Transcript;
    if Longest(views) == 0 {
      assert forall i :: 0 <= i < |views| ==> views[i].messages == [];
    }
  }

  /** Nested views of different lengths always come to that, or the hash collides on two of them. */
  lemma RaggedBlame(hash: Hasher, views: seq<PartyView>, outcome: EchoOutcome, i: nat)
    requires Nested(views) && Reports(hash, views, outcome)
    requires i < |views| && |views[i].messages| != |views[0].messages|
    ensures
      || (outcome == Equivocator(Longest(views) - 1) && !Differs(views, outcome.sender))
      || IsCollision(hash, (Transcript(views[i].messages, 0), Transcript(views[0].messages, 0)))
  {
    hide Differs, Nested, Reports, Longest;
    if Agree(hash, views) {
      AgreementIsEquality(hash, views, i);
    } else {
      UnjustIff(hash, views, outcome);
    }
  }
}
