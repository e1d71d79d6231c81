/** The hash-chained custody log (crates/custody/src/lifecycle.rs). */
module Lifecycle {
  import opened Wrappers
  import opened Bytes
  import opened Sighash
  import opened Echo

  datatype EventKind = Genesis | Rotation | Revocation

  datatype LifecycleEvent = LifecycleEvent(
    kind: EventKind, publicKey: PublicKey, logicalTime: U64, prevHash: Hash256, hash: Hash256)

  datatype CustodyError = Revoked

  function Tag(kind: EventKind): Byte
  {
    match kind case Genesis => 0 case Rotation => 1 case Revocation => 2
  }

  /** The buffer hashed by `event_hash`. */
  function EventBytes(kind: EventKind, publicKey: PublicKey, logicalTime: U64, prev: Hash256): seq<Byte>
  {
    [Tag(kind)] + publicKey + BE8(logicalTime) + prev
  }

  function Bytes74(e: LifecycleEvent): seq<Byte>
  {
    EventBytes(e.kind, e.publicKey, e.logicalTime, e.prevHash)
  }

  /** Where each field stands in the 74 bytes that are hashed. */
  lemma FieldsAt(e: LifecycleEvent, k: nat)
    requires k < 8
    ensures |Bytes74(e)| == 74
    ensures Bytes74(e)[0] == match e.kind case Genesis => 0 case Rotation => 1 case Revocation => 2
    ensures Bytes74(e)[1..34] == e.publicKey && Bytes74(e)[42..] == e.prevHash
    ensures Bytes74(e)[34 + k] == e.logicalTime / Pow256(7 - k) % 256
  {
    hide BE8, Pow256;
    BE8Digit(e.logicalTime, k);
  }

  lemma EventInjective(e: LifecycleEvent, f: LifecycleEvent)
    requires Bytes74(e) == Bytes74(f)
    ensures e.kind == f.kind && e.publicKey == f.publicKey && e.logicalTime == f.logicalTime && e.prevHash == f.prevHash
  {
    hide BE8;
    var a, b := [Tag(e.kind)], [Tag(f.kind)];
    Split(a + e.publicKey + BE8(e.logicalTime), e.prevHash, b + f.publicKey + BE8(f.logicalTime), f.prevHash);
    Split(a + e.publicKey, BE8(e.logicalTime), b + f.publicKey, BE8(f.logicalTime));
    Split(a, e.publicKey, b, f.publicKey);
    assert a[0] == b[0];
    BE8Injective(e.logicalTime, f.logicalTime);
  }

  // ------------------------------------------------------------------ what a log must be

  ghost predicate EventOk(hash: Hasher, events: seq<LifecycleEvent>, i: nat)
    requires i < |events|
  {
    && (events[i].kind == Genesis <==> i == 0)
    && hash(Bytes74(events[i])) == events[i].hash
    && events[i].prevHash == (if i == 0 then ZERO else events[i - 1].hash)
    && (events[i].kind == Revocation ==> i == |events| - 1)
  }

  /** Everything but the times. */
  ghost predicate Chained(hash: Hasher, events: seq<LifecycleEvent>)
  {
    events != [] && forall i :: 0 <= i < |events| ==> EventOk(hash, events, i)
  }

  ghost predicate TimesOrdered(events: seq<LifecycleEvent>)
  {
    forall i :: 0 < i < |events| ==> events[i - 1].logicalTime <= events[i].logicalTime
  }

  /** `verify_lifecycle` accepts exactly the chained logs whose times do not decrease. */
  method VerifyLifecycle(hash: Hasher, events: seq<LifecycleEvent>) returns (ok: bool)
    ensures ok <==> Chained(hash, events) && TimesOrdered(events)
  {
    hide Bytes74;
    if events == [] {
      return false;
    }
    if events[0].kind != Genesis || events[0].prevHash != ZERO {
      assert !EventOk(hash, events, 0);
      return false;
    }
    var lastTime: nat := 0;
    var seenRevocation := false;
    for position := 0 to |events|
      invariant forall i :: 0 <= i < position ==> OkSoFar(hash, events, i, position)
      invariant forall i :: 0 < i < position ==> events[i - 1].logicalTime <= events[i].logicalTime
      invariant seenRevocation <==> position > 0 && events[position - 1].kind == Revocation
      invariant lastTime == if position == 0 then 0 else events[position - 1].logicalTime
    {
      var event := events[position];
      if seenRevocation {
        assert !EventOk(hash, events, position - 1);
        return false;
      }
      if position == 0 {
        if event.kind != Genesis {
          return false;
        }
      } else if event.kind == Genesis {
        assert !EventOk(hash, events, position);
        return false;
      }
      if hash(Bytes74(event)) != event.hash {
        assert !EventOk(hash, events, position);
        return false;
      }
      if position > 0 {
        if events[position - 1].hash != event.prevHash {
          assert !EventOk(hash, events, position);
          return false;
        }
      }
      if event.logicalTime < lastTime {
        return false;
      }
      ghost var next := position + 1;
      forall i | 0 <= i < next
        ensures OkSoFar(hash, events, i, next)
      {
        assert i < position ==> OkSoFar(hash, events, i, position);
      }
      lastTime := event.logicalTime;
      if event.kind == Revocation {
        seenRevocation := true;
      }
    }
    forall i | 0 <= i < |events|
      ensures EventOk(hash, events, i)
    {
      assert OkSoFar(hash, events, i, |events|);
    }
    return true;
  }

  /** EventOk within the first n events. */
  ghost predicate OkSoFar(hash: Hasher, events: seq<LifecycleEvent>, i: nat, n: nat)
    requires i < n <= |events|
  {
    && (events[i].kind == Genesis <==> i == 0)
    && hash(Bytes74(events[i])) == events[i].hash
    && events[i].prevHash == (if i == 0 then ZERO else events[i - 1].hash)
    && (events[i].kind == Revocation ==> i == n - 1)
  }

  // ------------------------------------------------------------------ the head hash binds

  /** The buffers of the last pair of events that differ. */
  function LogCollision(a: seq<LifecycleEvent>, b: seq<LifecycleEvent>): (seq<Byte>, seq<Byte>)
    requires a != [] && b != []
    decreases |a|
  {
    var e, f := a[|a| - 1], b[|b| - 1];
    if Bytes74(e) != Bytes74(f) || |a| == 1 || |b| == 1 then (Bytes74(e), Bytes74(f))
    else LogCollision(a[..|a| - 1], b[..|b| - 1])
  }

  /** Dropping the last event of a longer log leaves a log that is right so far. */
  ghost predicate Prefix(hash: Hasher, events: seq<LifecycleEvent>)
  {
    events != [] && forall i :: 0 <= i < |events| ==> LinkOk(hash, events, i)
  }

  ghost predicate LinkOk(hash: Hasher, events: seq<LifecycleEvent>, i: nat)
    requires i < |events|
  {
    && (events[i].kind == Genesis <==> i == 0)
    && hash(Bytes74(events[i])) == events[i].hash
    && events[i].prevHash == (if i == 0 then ZERO else events[i - 1].hash)
  }

  lemma {:induction false} PrefixBinds(hash: Hasher, a: seq<LifecycleEvent>, b: seq<LifecycleEvent>)
    requires Prefix(hash, a) && Prefix(hash, b) && a[|a| - 1].hash == b[|b| - 1].hash
    ensures a == b || IsCollision(hash, LogCollision(a, b))
    decreases |a|
  {
    hide Bytes74;
    var n, m := |a| - 1, |b| - 1;
    var e, f := a[n], b[m];
    assert LinkOk(hash, a, n) && LinkOk(hash, b, m);
    if Bytes74(e) == Bytes74(f) {
      EventInjective(e, f);
      if n > 0 && m > 0 {
        assert Prefix(hash, a[..n]) by {
          forall i | 0 <= i < n ensures LinkOk(hash, a[..n], i) { assert LinkOk(hash, a, i); }
        }
        assert Prefix(hash, b[..m]) by {
          forall i | 0 <= i < m ensures LinkOk(hash, b[..m], i) { assert LinkOk(hash, b, i); }
        }
        PrefixBinds(hash, a[..n], b[..m]);
        assert a == a[..n] + [e] && b == b[..m] + [f];
      } else {
        assert a == [e] && b == [f];
      }
    }
  }

  /** Two accepted logs with the same head are the same log, length included, or the hash collides. */
  lemma HeadBinds(hash: Hasher, a: seq<LifecycleEvent>, b: seq<LifecycleEvent>)
    requires Chained(hash, a) && Chained(hash, b) && a[|a| - 1].hash == b[|b| - 1].hash
    ensures a == b || IsCollision(hash, LogCollision(a, b))
  {
    forall i | 0 <= i < |a| ensures LinkOk(hash, a, i) { assert EventOk(hash, a, i); }
    forall i | 0 <= i < |b| ensures LinkOk(hash, b, i) { assert EventOk(hash, b, i); }
    PrefixBinds(hash, a, b);
  }

  // ------------------------------------------------------------------------ the custodian

  /** Appending to a log that is not revoked. */
  lemma ChainedStep(hash: Hasher, events: seq<LifecycleEvent>, e: LifecycleEvent)
    requires Chained(hash, events) && events[|events| - 1].kind != Revocation
    requires e.kind != Genesis && e.prevHash == events[|events| - 1].hash && hash(Bytes74(e)) == e.hash
    ensures Chained(hash, events + [e])
  {
    hide Bytes74;
    forall i | 0 <= i < |events| + 1
      ensures EventOk(hash, events + [e], i)
    {
      assert i < |events| ==> EventOk(hash, events, i);
    }
  }

  /** One call on a custodian. */
  datatype Step = Rotate(publicKey: PublicKey, logicalTime: U64) | Revoke(logicalTime: U64)

  function NextEvent(hash: Hasher, last: LifecycleEvent, step: Step): LifecycleEvent
  {
    match step
    case Rotate(key, time) =>
      LifecycleEvent(Rotation, key, time, last.hash, hash(EventBytes(Rotation, key, time, last.hash)))
    case Revoke(time) =>
      LifecycleEvent(Revocation, last.publicKey, time, last.hash,
                     hash(EventBytes(Revocation, last.publicKey, time, last.hash)))
  }

  /** The log after a call: a revoked log takes no more events. */
  function After(hash: Hasher, events: seq<LifecycleEvent>, step: Step): (r: seq<LifecycleEvent>)
    requires events != []
    ensures r != []
  {
    var last := events[|events| - 1];
    if last.kind == Revocation then events else events + [NextEvent(hash, last, step)]
  }

  /** The log after a custodian's whole life so far. */
  function History(hash: Hasher, key: PublicKey, time: U64, steps: seq<Step>): (r: seq<LifecycleEvent>)
    ensures r != []
  {
    if steps == [] then [LifecycleEvent(Genesis, key, time, ZERO, hash(EventBytes(Genesis, key, time, ZERO)))]
    else After(hash, History(hash, key, time, steps[..|steps| - 1]), steps[|steps| - 1])
  }

  /** Calls made at non-decreasing times. */
  ghost predicate StepsOrdered(time: U64, steps: seq<Step>)
  {
    && (steps != [] ==> time <= steps[0].logicalTime)
    && forall i :: 0 < i < |steps| ==> steps[i - 1].logicalTime <= steps[i].logicalTime
  }

  lemma AfterChained(hash: Hasher, events: seq<LifecycleEvent>, step: Step)
    requires Chained(hash, events)
    ensures Chained(hash, After(hash, events, step))
  {
    hide EventBytes;
    if events[|events| - 1].kind != Revocation {
      ChainedStep(hash, events, NextEvent(hash, events[|events| - 1], step));
    }
  }

  /** The calls that were carried out: everything up to the first revocation. */
  function CarriedOut(steps: seq<Step>): (r: seq<Step>)
    ensures |r| <= |steps|
  {
    if steps == [] then []
    else
      var init := CarriedOut(steps[..|steps| - 1]);
      if init != [] && init[|init| - 1].Revoke? then init else init + [steps[|steps| - 1]]
  }

  /** The log has one event for the genesis and one for each call carried out, at its time. */
  ghost predicate Logs(events: seq<LifecycleEvent>, time: U64, done: seq<Step>)
  {
    && |events| == |done| + 1 && events[0].logicalTime == time
    && (forall i :: 0 <= i < |done| ==> events[i + 1].logicalTime == done[i].logicalTime)
    && (events[|done|].kind == Revocation <==> done != [] && done[|done| - 1].Revoke?)
  }

  lemma {:induction false} HistoryLogs(hash: Hasher, key: PublicKey, time: U64, steps: seq<Step>)
    ensures Chained(hash, History(hash, key, time, steps))
    ensures Logs(History(hash, key, time, steps), time, CarriedOut(steps))
    decreases |steps|
  {
    hide EventBytes, After, Logs, Chained;
    if steps == [] {
      GenesisLogs(hash, key, time);
    } else {
      var n := |steps| - 1;
      HistoryLogs(hash, key, time, steps[..n]);
      AfterChained(hash, History(hash, key, time, steps[..n]), steps[n]);
      LogsStep(hash, History(hash, key, time, steps[..n]), time, CarriedOut(steps[..n]), steps[n]);
    }
  }

  lemma GenesisLogs(hash: Hasher, key: PublicKey, time: U64)
    ensures Chained(hash, History(hash, key, time, [])) && Logs(History(hash, key, time, []), time, [])
  {
    hide EventBytes;
    assert forall i :: 0 <= i < 1 ==> EventOk(hash, History(hash, key, time, []), i);
  }

  lemma LogsStep(hash: Hasher, events: seq<LifecycleEvent>, time: U64, done: seq<Step>, step: Step)
    requires events != [] && Logs(events, time, done)
    ensures Logs(After(hash, events, step), time, if done != [] && done[|done| - 1].Revoke? then done else done + [step])
  {
    hide EventBytes;
  }

  /** A custodian's log is always chained, and accepted exactly when the calls carried out had ordered times. */
  lemma HistoryVerifiesIff(hash: Hasher, key: PublicKey, time: U64, steps: seq<Step>)
    ensures var events := History(hash, key, time, steps);
            Chained(hash, events) && (TimesOrdered(events) <==> StepsOrdered(time, CarriedOut(steps)))
  {
    hide Chained, History, CarriedOut;
    HistoryLogs(hash, key, time, steps);
    LogsOrdered(History(hash, key, time, steps), time, CarriedOut(steps));
  }

  lemma LogsOrdered(events: seq<LifecycleEvent>, time: U64, done: seq<Step>)
    requires Logs(events, time, done)
    ensures TimesOrdered(events) <==> StepsOrdered(time, done)
  {
    if TimesOrdered(events) {
      forall i | 0 < i < |done|
        ensures done[i - 1].logicalTime <= done[i].logicalTime
      {
        assert events[i].logicalTime <= events[i + 1].logicalTime;
        assert events[i - 1 + 1].logicalTime == done[i - 1].logicalTime;
      }
    }
    if StepsOrdered(time, done) {
      forall i | 0 < i < |events|
        ensures events[i - 1].logicalTime <= events[i].logicalTime
      {
        assert events[i - 1 + 1].logicalTime == done[i - 1].logicalTime;
        if i > 1 {
          assert events[i - 2 + 1].logicalTime == done[i - 2].logicalTime;
        }
      }
    }
  }

  /** In particular when all calls had ordered times. */
  lemma HistoryVerifies(hash: Hasher, key: PublicKey, time: U64, steps: seq<Step>)
    requires StepsOrdered(time, steps)
    ensures Chained(hash, History(hash, key, time, steps)) && TimesOrdered(History(hash, key, time, steps))
  {
    hide Chained, History, CarriedOut, TimesOrdered, StepsOrdered;
    HistoryVerifiesIff(hash, key, time, steps);
    PrefixOrdered(time, steps);
  }

  lemma PrefixOrdered(time: U64, steps: seq<Step>)
    requires StepsOrdered(time, steps)
    ensures StepsOrdered(time, CarriedOut(steps))
  {
    CarriedPrefix(steps);
  }

  lemma {:induction false} CarriedPrefix(steps: seq<Step>)
    ensures CarriedOut(steps) <= steps
    ensures CarriedOut(steps) == steps || (CarriedOut(steps) != [] && CarriedOut(steps)[|CarriedOut(steps)| - 1].Revoke?)
    decreases |steps|
  {
    if steps != [] {
      CarriedPrefix(steps[..|steps| - 1]);
    }
  }

  // --------------------------------------------------------- which chained logs a custodian made

  /** The last event revokes another key than the one in use. */
  ghost predicate RevokesAnother(events: seq<LifecycleEvent>)
  {
    var n := |events| - 1;
    n >= 1 && events[n].kind == Revocation && events[n].publicKey != events[n - 1].publicKey
  }

  /** The calls behind a chained log. */
  lemma {:induction false} CallsBehind(hash: Hasher, events: seq<LifecycleEvent>) returns (steps: seq<Step>)
    requires Chained(hash, events) && !RevokesAnother(events)
    ensures events == History(hash, events[0].publicKey, events[0].logicalTime, steps)
    decreases |events|
  {
    hide EventBytes;
    var n := |events| - 1;
    var e := events[n];
    assert EventOk(hash, events, n);
    if n == 0 {
      steps := [];
      assert events == [e];
    } else {
      ChainedShorter(hash, events);
      var init := events[..n];
      var before := CallsBehind(hash, init);
      var step := if e.kind == Rotation then Step.Rotate(e.publicKey, e.logicalTime) else Step.Revoke(e.logicalTime);
      steps := before + [step];
      assert steps[..|before|] == before;
      assert e == NextEvent(hash, init[n - 1], step);
      assert events == init + [e];
    }
  }

  lemma ChainedShorter(hash: Hasher, events: seq<LifecycleEvent>)
    requires Chained(hash, events) && |events| > 1
    ensures var init := events[..|events| - 1]; Chained(hash, init) && init[|init| - 1].kind != Revocation
  {
    var init := events[..|events| - 1];
    assert EventOk(hash, events, |events| - 2);
    forall i | 0 <= i < |init|
      ensures EventOk(hash, init, i)
    {
      assert EventOk(hash, events, i);
    }
  }

  lemma {:induction false} HistoryRevokesOwn(hash: Hasher, key: PublicKey, time: U64, steps: seq<Step>)
    ensures !RevokesAnother(History(hash, key, time, steps))
    decreases |steps|
  {
    hide EventBytes;
    if steps != [] {
      HistoryRevokesOwn(hash, key, time, steps[..|steps| - 1]);
    }
  }

  /**
   The logs custodians make are exactly the chained ones, except that the check does not look at which
   key a revocation names: one that names another key is accepted and no custodian makes it.
   */
  lemma MadeIff(hash: Hasher, events: seq<LifecycleEvent>)
    ensures (exists key, time, steps :: events == History(hash, key, time, steps)) <==>
            Chained(hash, events) && !RevokesAnother(events)
  {
    hide Chained, RevokesAnother, History;
    if Chained(hash, events) && !RevokesAnother(events) {
      var steps := CallsBehind(hash, events);
    }
    forall key, time, steps | events == History(hash, key, time, steps)
      ensures Chained(hash, events) && !RevokesAnother(events)
    {
      HistoryLogs(hash, key, time, steps);
      HistoryRevokesOwn(hash, key, time, steps);
    }
  }

  class KeyCustodian {
    const hash: Hasher
    var publicKey: PublicKey
    var revoked: bool
    var events: seq<LifecycleEvent>

    /** The log is chained, and the fields are what its last event says. */
    ghost predicate Valid()
      reads this
    {
      && Chained(hash, events)
      && publicKey == events[|events| - 1].publicKey
      && (revoked <==> events[|events| - 1].kind == Revocation)
    }

    /** `new`. */
    constructor (hash: Hasher, publicKey: PublicKey, logicalTime: U64)
      ensures Valid() && this.hash == hash && this.publicKey == publicKey && !revoked
      ensures events == History(hash, publicKey, logicalTime, [])
    {
      this.hash := hash;
      this.publicKey := publicKey;
      revoked := false;
      var digest := hash(EventBytes(Genesis, publicKey, logicalTime, ZERO));
      events := [LifecycleEvent(Genesis, publicKey, logicalTime, ZERO, digest)];
    }

    /** `head_hash`. */
    function HeadHash(): Hash256
      reads this
    {
      if events == [] then ZERO else events[|events| - 1].hash
    }

    /** `rotate`. */
    method Rotate(newPublicKey: PublicKey, logicalTime: U64) returns (result: Result<(), CustodyError>)
      requires Valid()
      modifies this
      ensures Valid()
      ensures result == if old(revoked) then Err(CustodyError.Revoked) else Ok(())
      ensures events == After(hash, old(events), Step.Rotate(newPublicKey, logicalTime))
      ensures revoked == old(revoked) && publicKey == if revoked then old(publicKey) else newPublicKey
    {
      if revoked {
        return Err(CustodyError.Revoked);
      }
      var prevHash := HeadHash();
      var digest := hash(EventBytes(Rotation, newPublicKey, logicalTime, prevHash));
      var event := LifecycleEvent(Rotation, newPublicKey, logicalTime, prevHash, digest);
      ChainedStep(hash, events, event);
      events := events + [event];
      publicKey := newPublicKey;
      return Ok(());
    }

    /** `revoke`. */
    method Revoke(logicalTime: U64) returns (result: Result<(), CustodyError>)
      requires Valid()
      modifies this
      ensures Valid()
      ensures result == if old(revoked) then Err(CustodyError.Revoked) else Ok(())
      ensures events == After(hash, old(events), Step.Revoke(logicalTime))
      ensures publicKey == old(publicKey) && revoked
    {
      if revoked {
        return Err(CustodyError.Revoked);
      }
      var prevHash := HeadHash();
      var digest := hash(EventBytes(Revocation, publicKey, logicalTime, prevHash));
      var event := LifecycleEvent(Revocation, publicKey, logicalTime, prevHash, digest);
      ChainedStep(hash, events, event);
      events := events + [event];
      revoked := true;
      return Ok(());
    }
  }
}
