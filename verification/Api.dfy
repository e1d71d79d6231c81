/**
 Admission at the API boundary (crates/api/src/service.rs, ratelimit.rs, auth.rs, audit.rs). The
 signature check, the backend's answer and its running time come in as parameters.
 */
module Api {
  import opened Wrappers
  import opened Bytes

  type Caller = string

  datatype ApiError =
    | Oversize | Unauthorized | Expired | Replay | RateLimited | Timeout | NotTerminated | Backend(code: nat)

  datatype Operation = Operation(name: string, requiresAuth: bool)

  datatype Request = Request(
    caller: Caller, operation: Operation, payload: seq<Byte>, position: Option<string>, nonce: nat, expiry: nat,
    signature: seq<Byte>)

  datatype Response = Response(data: seq<Byte>, chainRoot: Option<Hash256>)

  datatype AuditEntry = AuditEntry(
    timestamp: nat, caller: Caller, operation: string, position: Option<string>, outcome: string)

  /** One execution by the backend. */
  datatype Execution = Execution(request: Request, now: nat, ok: bool)

  datatype Config = Config(maxPayload: nat, limit: nat, windowSecs: nat, timeoutMillis: nat, keys: map<Caller, seq<Byte>>)

  datatype Admission = Admission(
    seen: set<(Caller, nat)>, windows: map<Caller, (nat, nat)>, audit: seq<AuditEntry>, executed: seq<Execution>)

  /** `signing_prehash` and `verify_der_prehash` together. */
  type Verifier = (seq<Byte>, Request) -> bool

  // ----------------------------------------------------------------------- one request

  /** `window_secs.max(1)`. */
  function Secs(config: Config): (s: nat)
    ensures s >= 1
  {
    if config.windowSecs == 0 then 1 else config.windowSecs
  }

  function Window(config: Config, now: nat): nat
  {
    now / Secs(config)
  }

  /** A window is `window_secs` long, or one second when that is zero, and the windows follow each other from time zero. */
  lemma WindowSpan(config: Config, now: nat, w: nat)
    ensures var secs := if config.windowSecs > 0 then config.windowSecs else 1;
            Window(config, now) == w <==> secs * w <= now < secs * w + secs
  {
    var secs := Secs(config);
    if secs * w <= now < secs * w + secs {
      QuotientIs(now, secs, w, now - secs * w);
    }
  }

  /** The caller's entry, rolled over to the current window. */
  function EntryAt(config: Config, windows: map<Caller, (nat, nat)>, caller: Caller, now: nat): (nat, nat)
  {
    if caller in windows && windows[caller].0 == Window(config, now) then windows[caller] else (Window(config, now), 0)
  }

  /** What is left after an admission attempt: everything checked, then nonce, then budget. */
  function Authenticate(config: Config, verify: Verifier, s: Admission, r: Request, now: nat): (Option<ApiError>, Admission)
  {
    if r.caller !in config.keys then (Some(Unauthorized), s)
    else if r.expiry < now then (Some(Expired), s)
    else if !verify(config.keys[r.caller], r) then (Some(Unauthorized), s)
    else if (r.caller, r.nonce) in s.seen then (Some(Replay), s)
    else
      var entry := EntryAt(config, s.windows, r.caller, now);
      var s' := s.(seen := s.seen + {(r.caller, r.nonce)});
      if entry.1 >= config.limit then (Some(RateLimited), s'.(windows := s.windows[r.caller := entry]))
      else (None, s'.(windows := s.windows[r.caller := (entry.0, entry.1 + 1)]))
  }

  function Audited(e: Execution): AuditEntry
  {
    AuditEntry(e.now, e.request.caller, e.request.operation.name, e.request.position, if e.ok then "ok" else "error")
  }

  function Executed(s: Admission, e: Execution): Admission
  {
    s.(audit := s.audit + [Audited(e)], executed := s.executed + [e])
  }

  /** `handle`, without its answer: what it leaves behind. */
  function Handle(config: Config, verify: Verifier, s: Admission, r: Request, now: nat, ok: bool): Admission
  {
    if |r.payload| > config.maxPayload then s
    else if r.operation.requiresAuth then
      var (refused, s') := Authenticate(config, verify, s, r, now);
      if refused.Some? then s' else Executed(s', Execution(r, now, ok))
    else Executed(s, Execution(r, now, ok))
  }

  /** A request that is not executed was refused. */
  lemma RefusedOrExecuted(config: Config, verify: Verifier, s: Admission, r: Request, now: nat, ok: bool)
    ensures Handle(config, verify, s, r, now, ok).executed == s.executed <==>
            || |r.payload| > config.maxPayload
            || (r.operation.requiresAuth && Authenticate(config, verify, s, r, now).0.Some?)
  {
    AdmissionOnly(config, verify, s, r, now);
    assert |s.executed + [Execution(r, now, ok)]| == |s.executed| + 1;
  }

  // ------------------------------------------------------------------------- whole runs

  /** Authenticated executions for a caller in a window. */
  function Spent(config: Config, executed: seq<Execution>, caller: Caller, w: nat): nat
  {
    if executed == [] then 0
    else
      var e := executed[|executed| - 1];
      Spent(config, executed[..|executed| - 1], caller, w)
      + if e.request.operation.requiresAuth && e.request.caller == caller && Window(config, e.now) == w then 1 else 0
  }

  ghost predicate NoncesOnce(s: Admission)
  {
    && (forall i :: 0 <= i < |s.executed| && Signed(s.executed[i]) ==> NonceOf(s.executed[i]) in s.seen)
    && (forall i, j :: 0 <= i < j < |s.executed| && Signed(s.executed[i]) && Signed(s.executed[j]) ==>
                         NonceOf(s.executed[i]) != NonceOf(s.executed[j]))
  }

  predicate Signed(e: Execution)
  {
    e.request.operation.requiresAuth
  }

  function NonceOf(e: Execution): (Caller, nat)
  {
    (e.request.caller, e.request.nonce)
  }

  /** The limiter's entry is what the caller has spent in its window, and nothing later was spent. */
  ghost predicate Budget(config: Config, s: Admission, clock: nat, caller: Caller)
  {
    && (forall w :: Spent(config, s.executed, caller, w) <= config.limit)
    && (caller in s.windows ==>
          && s.windows[caller].0 <= Window(config, clock)
          && Spent(config, s.executed, caller, s.windows[caller].0) == s.windows[caller].1
          && forall w :: w > s.windows[caller].0 ==> Spent(config, s.executed, caller, w) == 0)
    && (caller !in s.windows ==> forall w :: Spent(config, s.executed, caller, w) == 0)
  }

  ghost predicate AuditMatches(s: Admission)
  {
    |s.audit| == |s.executed| && forall i :: 0 <= i < |s.audit| ==> Tells(s.audit[i], s.executed[i])
  }

  /** The entry names the caller, the operation, the position, the time and whether the backend succeeded. */
  ghost predicate Tells(entry: AuditEntry, e: Execution)
  {
    && entry.timestamp == e.now && entry.caller == e.request.caller && entry.operation == e.request.operation.name
    && entry.position == e.request.position && entry.outcome in {"ok", "error"} && (entry.outcome == "ok" <==> e.ok)
  }

  lemma SpentSnoc(config: Config, executed: seq<Execution>, e: Execution, caller: Caller, w: nat)
    ensures Spent(config, executed + [e], caller, w) ==
            Spent(config, executed, caller, w)
            + if e.request.operation.requiresAuth && e.request.caller == caller && Window(config, e.now) == w then 1 else 0
  {
    assert (executed + [e])[..|executed|] == executed;
  }

  lemma HandleNonces(config: Config, verify: Verifier, s: Admission, r: Request, now: nat, ok: bool)
    requires NoncesOnce(s)
    ensures NoncesOnce(Handle(config, verify, s, r, now, ok))
  {
    hide EntryAt;
    var s' := Handle(config, verify, s, r, now, ok);
    assert s.seen <= s'.seen;
  }

  lemma HandleAudit(config: Config, verify: Verifier, s: Admission, r: Request, now: nat, ok: bool)
    requires AuditMatches(s)
    ensures AuditMatches(Handle(config, verify, s, r, now, ok))
  {
    hide EntryAt;
  }

  /** Admitting keeps every caller's budget as long as the clock does not go back to an earlier window. */
  lemma HandleBudget(
      config: Config, verify: Verifier, s: Admission, clock: nat, r: Request, now: nat, ok: bool, caller: Caller)
    requires Budget(config, s, clock, caller) && Window(config, clock) <= Window(config, now)
    ensures Budget(config, Handle(config, verify, s, r, now, ok), now, caller)
  {
    hide Spent, Window;
    var e := Execution(r, now, ok);
    forall w: nat
      ensures Spent(config, s.executed + [e], caller, w) ==
              Spent(config, s.executed, caller, w)
              + if r.operation.requiresAuth && r.caller == caller && Window(config, now) == w then 1 else 0
    {
      SpentSnoc(config, s.executed, e, caller, w);
    }
  }

  // ------------------------------------------------------------------ what was executed was allowed

  /** Registered, signed under the registered key, and in time. */
  ghost predicate Authorised(config: Config, verify: Verifier, e: Execution)
  {
    && e.request.caller in config.keys && verify(config.keys[e.request.caller], e.request)
    && e.now <= e.request.expiry
  }

  ghost predicate AllAuthorised(config: Config, verify: Verifier, executed: seq<Execution>)
  {
    forall i :: 0 <= i < |executed| ==>
      && |executed[i].request.payload| <= config.maxPayload
      && (Signed(executed[i]) ==> Authorised(config, verify, executed[i]))
  }

  /** What is left of the caller's budget in the window of a time, from the limiter's entry. */
  ghost predicate BudgetLeft(config: Config, s: Admission, caller: Caller, now: nat)
  {
    caller in s.windows && s.windows[caller].0 == Window(config, now) ==> s.windows[caller].1 < config.limit
  }

  /**
   Exactly when a request is executed: it is small enough and, if it must be signed, the caller is
   registered, the signature verifies under the registered key, it has not expired, its nonce is new
   and the caller's budget is not used up.
   */
  lemma ExecutedIff(config: Config, verify: Verifier, s: Admission, r: Request, now: nat, ok: bool)
    ensures var s' := Handle(config, verify, s, r, now, ok);
            var runs := |r.payload| <= config.maxPayload
              && (r.operation.requiresAuth ==>
                    && Authorised(config, verify, Execution(r, now, ok)) && (r.caller, r.nonce) !in s.seen
                    && BudgetLeft(config, s, r.caller, now) && config.limit > 0);
            s'.executed == if runs then s.executed + [Execution(r, now, ok)] else s.executed
  {
    hide Window;
  }

  /** Each refusal, and what admission leaves behind: only an authorised request uses up a nonce or touches the limiter. */
  lemma RefusalIff(config: Config, verify: Verifier, s: Admission, r: Request, now: nat)
    ensures var (refused, s') := Authenticate(config, verify, s, r, now);
            var known, signed := r.caller in config.keys, r.caller in config.keys && verify(config.keys[r.caller], r);
            var isNew := (r.caller, r.nonce) !in s.seen;
            var left := BudgetLeft(config, s, r.caller, now) && config.limit > 0;
            && (refused == Some(Unauthorized) <==> !known || (now <= r.expiry && !signed))
            && (refused == Some(Expired) <==> known && r.expiry < now)
            && (refused == Some(Replay) <==> signed && now <= r.expiry && !isNew)
            && (refused == Some(RateLimited) <==> signed && now <= r.expiry && isNew && !left)
            && (refused == None <==> signed && now <= r.expiry && isNew && left)
            && s'.seen == (if signed && now <= r.expiry then s.seen + {(r.caller, r.nonce)} else s.seen)
            && (forall c :: c != r.caller || refused !in {None, Some(RateLimited)} ==>
                  (c in s'.windows <==> c in s.windows) && (c in s.windows ==> s'.windows[c] == s.windows[c]))
  {
    hide Window;
    if (r.caller, r.nonce) in s.seen {
      assert s.seen + {(r.caller, r.nonce)} == s.seen;
    }
  }

  lemma HandleAuthorised(config: Config, verify: Verifier, s: Admission, r: Request, now: nat, ok: bool)
    requires AllAuthorised(config, verify, s.executed)
    ensures AllAuthorised(config, verify, Handle(config, verify, s, r, now, ok).executed)
  {
    hide Handle, BudgetLeft;
    ExecutedIff(config, verify, s, r, now, ok);
  }

  datatype Call = Call(request: Request, now: nat, ok: bool)

  const START: Admission := Admission({}, map[], [], [])

  function Run(config: Config, verify: Verifier, calls: seq<Call>): Admission
  {
    if calls == [] then START
    else
      var c := calls[|calls| - 1];
      Handle(config, verify, Run(config, verify, calls[..|calls| - 1]), c.request, c.now, c.ok)
  }

  /** The clock may go back inside a window, and never to an earlier window. */
  ghost predicate WindowsOrdered(config: Config, calls: seq<Call>)
  {
    forall i :: 0 < i < |calls| ==> Window(config, calls[i - 1].now) <= Window(config, calls[i].now)
  }

  function LastClock(calls: seq<Call>): nat
  {
    if calls == [] then 0 else calls[|calls| - 1].now
  }

  /** Over every run: no nonce is used twice, and the audit log is the executions, one for one. */
  lemma {:induction false} RunSafe(config: Config, verify: Verifier, calls: seq<Call>)
    ensures NoncesOnce(Run(config, verify, calls)) && AuditMatches(Run(config, verify, calls))
    decreases |calls|
  {
    hide Handle, NoncesOnce, AuditMatches;
    if calls == [] {
      NothingYet();
    } else {
      var n := |calls| - 1;
      var s := Run(config, verify, calls[..n]);
      RunSafe(config, verify, calls[..n]);
      HandleNonces(config, verify, s, calls[n].request, calls[n].now, calls[n].ok);
      HandleAudit(config, verify, s, calls[n].request, calls[n].now, calls[n].ok);
    }
  }

  /** Over every run: whatever was executed was small enough and, where it had to be, authorised. */
  lemma {:induction false} RunAuthorised(config: Config, verify: Verifier, calls: seq<Call>)
    ensures AllAuthorised(config, verify, Run(config, verify, calls).executed)
    decreases |calls|
  {
    hide Handle;
    if calls != [] {
      var n := |calls| - 1;
      RunAuthorised(config, verify, calls[..n]);
      HandleAuthorised(config, verify, Run(config, verify, calls[..n]), calls[n].request, calls[n].now, calls[n].ok);
    }
  }

  lemma NothingYet()
    ensures NoncesOnce(START) && AuditMatches(START)
  {
  }

  /** Over every run whose window numbers do not decrease: no caller is served beyond its limit in any window. */
  lemma {:induction false} RunBudget(config: Config, verify: Verifier, calls: seq<Call>, caller: Caller)
    requires WindowsOrdered(config, calls)
    ensures Budget(config, Run(config, verify, calls), LastClock(calls), caller)
    decreases |calls|
  {
    hide Handle, Window;
    if calls != [] {
      var n := |calls| - 1;
      RunBudget(config, verify, calls[..n], caller);
      if n == 0 {
        BudgetAnyClock(config, caller, calls[n].now);
        HandleBudget(config, verify, START, calls[n].now, calls[n].request, calls[n].now, calls[n].ok, caller);
      } else {
        HandleBudget(config, verify, Run(config, verify, calls[..n]), LastClock(calls[..n]),
                     calls[n].request, calls[n].now, calls[n].ok, caller);
      }
    }
  }

  lemma BudgetAnyClock(config: Config, caller: Caller, clock: nat)
    ensures Budget(config, START, clock, caller)
  {
  }

  /** A request that passes every check is executed and counted in its window. */
  lemma Admitted(config: Config, verify: Verifier, s: Admission, r: Request, now: nat, ok: bool)
    requires r.operation.requiresAuth && |r.payload| <= config.maxPayload
    requires r.caller in config.keys && now <= r.expiry && verify(config.keys[r.caller], r)
    requires (r.caller, r.nonce) !in s.seen && EntryAt(config, s.windows, r.caller, now).1 < config.limit
    ensures var entry := EntryAt(config, s.windows, r.caller, now);
            var s' := Handle(config, verify, s, r, now, ok);
            && s'.seen == s.seen + {(r.caller, r.nonce)} && s'.executed == s.executed + [Execution(r, now, ok)]
            && s'.windows == s.windows[r.caller := (entry.0, entry.1 + 1)]
  {
  }

  // ------------------------------------------------------- exactly when a budget can be overspent

  function Times(calls: seq<Call>): (r: seq<nat>)
    ensures |r| == |calls|
  {
    seq(|calls|, i requires 0 <= i < |calls| => calls[i].now)
  }

  /** How many of the times fall in a window. */
  function Visits(config: Config, times: seq<nat>, w: nat): nat
  {
    if times == [] then 0
    else
      Visits(config, times[..|times| - 1], w) + if Window(config, times[|times| - 1]) == w then 1 else 0
  }

  /** A time in the window, and a later one outside it. */
  ghost predicate Quits(config: Config, times: seq<nat>, w: nat)
  {
    exists i, m :: 0 <= i < m < |times| && Window(config, times[i]) == w && Window(config, times[m]) != w
  }

  /** The window is left and entered again. */
  ghost predicate Returns(config: Config, times: seq<nat>, w: nat)
  {
    exists i, m, j ::
      && 0 <= i < m < j < |times|
      && Window(config, times[i]) == w && Window(config, times[m]) != w && Window(config, times[j]) == w
  }

  lemma TimesSnoc(config: Config, times: seq<nat>, now: nat, w: nat)
    ensures Visits(config, times + [now], w) == Visits(config, times, w) + if Window(config, now) == w then 1 else 0
    ensures Quits(config, times, w) ==> Quits(config, times + [now], w)
    ensures Quits(config, times, w) && Window(config, now) == w ==> Returns(config, times + [now], w)
    ensures Returns(config, times, w) ==> Returns(config, times + [now], w)
    ensures Window(config, now) != w && Visits(config, times, w) > 0 ==> Quits(config, times + [now], w)
  {
    hide Window, Quits, Returns;
    assert (times + [now])[..|times|] == times;
    QuitsSnoc(config, times, now, w);
    ReturnsSnoc(config, times, now, w);
    if Visits(config, times, w) > 0 && Window(config, now) != w {
      var i := VisitAt(config, times, w);
      QuitsAt(config, times + [now], w, i, |times|);
    }
  }

  lemma QuitsAt(config: Config, times: seq<nat>, w: nat, i: nat, m: nat)
    requires i < m < |times| && Window(config, times[i]) == w && Window(config, times[m]) != w
    ensures Quits(config, times, w)
  {
  }

  lemma ReturnsAt(config: Config, times: seq<nat>, w: nat, i: nat, m: nat, j: nat)
    requires i < m < j < |times|
    requires Window(config, times[i]) == w && Window(config, times[m]) != w && Window(config, times[j]) == w
    ensures Returns(config, times, w)
  {
  }

  lemma QuitsSnoc(config: Config, times: seq<nat>, now: nat, w: nat)
    ensures Quits(config, times, w) ==> Quits(config, times + [now], w)
    ensures Quits(config, times, w) && Window(config, now) == w ==> Returns(config, times + [now], w)
  {
    hide Window, Returns;
    if Quits(config, times, w) {
      var i, m :| 0 <= i < m < |times| && Window(config, times[i]) == w && Window(config, times[m]) != w;
      QuitsAt(config, times + [now], w, i, m);
      if Window(config, now) == w {
        ReturnsAt(config, times + [now], w, i, m, |times|);
      }
    }
  }

  lemma ReturnsSnoc(config: Config, times: seq<nat>, now: nat, w: nat)
    ensures Returns(config, times, w) ==> Returns(config, times + [now], w)
  {
    hide Window;
    if Returns(config, times, w) {
      var i, m, j :| 0 <= i < m < j < |times| && Window(config, times[i]) == w && Window(config, times[m]) != w
        && Window(config, times[j]) == w;
      ReturnsAt(config, times + [now], w, i, m, j);
    }
  }

  lemma {:induction false} VisitAt(config: Config, times: seq<nat>, w: nat) returns (i: nat)
    requires Visits(config, times, w) > 0
    ensures i < |times| && Window(config, times[i]) == w
  {
    var n := |times| - 1;
    if Window(config, times[n]) == w {
      return n;
    }
    i := VisitAt(config, times[..n], w);
  }

  /** Until the window is left, the limiter's entry for it is what was spent there. */
  ghost predicate Steady(config: Config, s: Admission, times: seq<nat>, caller: Caller, w: nat)
  {
    var spent := Spent(config, s.executed, caller, w);
    && spent <= config.limit && spent <= Visits(config, times, w)
    && (!Quits(config, times, w) ==>
          spent == if caller in s.windows && s.windows[caller].0 == w then s.windows[caller].1 else 0)
  }

  lemma HandleSteady(
      config: Config, verify: Verifier, s: Admission, times: seq<nat>, r: Request, now: nat, ok: bool, caller: Caller, w: nat)
    requires Steady(config, s, times, caller, w) && !Returns(config, times + [now], w)
    ensures Steady(config, Handle(config, verify, s, r, now, ok), times + [now], caller, w)
  {
    hide Spent, Window, Visits, Quits, Returns;
    TimesSnoc(config, times, now, w);
    SpentSnoc(config, s.executed, Execution(r, now, ok), caller, w);
  }

  lemma {:induction false} RunSteady(config: Config, verify: Verifier, calls: seq<Call>, caller: Caller, w: nat)
    requires !Returns(config, Times(calls), w)
    ensures Steady(config, Run(config, verify, calls), Times(calls), caller, w)
    decreases |calls|
  {
    hide Handle, Window, Returns;
    if calls == [] {
      SteadyStart(config, caller, w);
    } else {
      var n := |calls| - 1;
      assert Times(calls) == Times(calls[..n]) + [calls[n].now];
      TimesSnoc(config, Times(calls[..n]), calls[n].now, w);
      RunSteady(config, verify, calls[..n], caller, w);
      HandleSteady(config, verify, Run(config, verify, calls[..n]), Times(calls[..n]),
                   calls[n].request, calls[n].now, calls[n].ok, caller, w);
    }
  }

  lemma SteadyStart(config: Config, caller: Caller, w: nat)
    ensures Steady(config, START, [], caller, w)
  {
  }

  /** Nobody is served more often than there were calls, whatever the clock does. */
  lemma {:induction false} SpentAtMostVisits(config: Config, verify: Verifier, calls: seq<Call>, caller: Caller, w: nat)
    ensures Spent(config, Run(config, verify, calls).executed, caller, w) <= Visits(config, Times(calls), w)
    decreases |calls|
  {
    hide Window, EntryAt;
    if calls != [] {
      var n := |calls| - 1;
      var s := Run(config, verify, calls[..n]);
      assert Times(calls) == Times(calls[..n]) + [calls[n].now];
      TimesSnoc(config, Times(calls[..n]), calls[n].now, w);
      SpentAtMostVisits(config, verify, calls[..n], caller, w);
      SpentSnoc(config, s.executed, Execution(calls[n].request, calls[n].now, calls[n].ok), caller, w);
      AdmissionOnly(config, verify, s, calls[n].request, calls[n].now);
    }
  }

  // What a caller who leaves the window at position m and comes back can get.

  /** A caller that can sign: `make(k)` is a valid request with nonce k, good at all the times. */
  ghost predicate CanSign(config: Config, verify: Verifier, make: nat -> Request, caller: Caller, times: seq<nat>)
  {
    caller in config.keys && forall k :: Signable(config, verify, make, caller, times, k)
  }

  ghost predicate Signable(config: Config, verify: Verifier, make: nat -> Request, caller: Caller, times: seq<nat>, k: nat)
  {
    && make(k).caller == caller && make(k).nonce == k && make(k).operation.requiresAuth
    && |make(k).payload| <= config.maxPayload && caller in config.keys && verify(config.keys[caller], make(k))
    && forall i :: 0 <= i < |times| ==> times[i] <= make(k).expiry
  }

  /** An oversize request, which is refused without a trace. */
  function Filler(config: Config): Request
  {
    Request("", Operation("", true), seq(config.maxPayload + 1, _ => 0), None, 0, 0, [])
  }

  /** Sign at every time in the window and at position m, and send an oversize request otherwise. */
  function Detour(config: Config, make: nat -> Request, times: seq<nat>, w: nat, m: nat): (calls: seq<Call>)
    ensures |calls| == |times|
  {
    seq(|times|, i requires 0 <= i < |times| =>
      Call(if Window(config, times[i]) == w || i == m then make(i) else Filler(config), times[i], true))
  }

  function Min(a: nat, b: nat): nat
  {
    if a < b then a else b
  }

  /** What the caller was given before position m and from it on, after n calls. */
  ghost predicate OnDetour(
      config: Config, s: Admission, caller: Caller, w: nat, before: nat, after: nat, turned: bool)
  {
    && Spent(config, s.executed, caller, w) == Min(before, config.limit) + Min(after, config.limit)
    && (!turned ==> after == 0 && (before == 0 ==> caller !in s.windows)
                    && (before > 0 ==> caller in s.windows && s.windows[caller] == (w, Min(before, config.limit))))
    && (turned ==> caller in s.windows && (after == 0 ==> s.windows[caller].0 != w)
                   && (after > 0 ==> s.windows[caller] == (w, Min(after, config.limit))))
  }

  ghost predicate SeenBelow(s: Admission, caller: Caller, n: nat)
  {
    forall k :: (caller, k) in s.seen ==> k < n
  }

  /** A signed call in the window takes what is left of the current budget. */
  lemma DetourInside(
      config: Config, verify: Verifier, r: Request, now: nat, caller: Caller, w: nat, n: nat, s: Admission,
      before: nat, after: nat, turned: bool)
    requires config.limit > 0 && OnDetour(config, s, caller, w, before, after, turned) && SeenBelow(s, caller, n)
    requires Passes(config, verify, r, caller, n, now) && Window(config, now) == w
    ensures var s' := Handle(config, verify, s, r, now, true);
            && SeenBelow(s', caller, n + 1)
            && OnDetour(config, s', caller, w, if turned then before else before + 1, if turned then after + 1 else after, turned)
  {
    hide Spent, Window;
    SpentSnoc(config, s.executed, Execution(r, now, true), caller, w);
  }

  /** The call outside turns the limiter's entry to another window. */
  lemma DetourTurn(
      config: Config, verify: Verifier, r: Request, now: nat, caller: Caller, w: nat, n: nat, s: Admission, before: nat)
    requires config.limit > 0 && OnDetour(config, s, caller, w, before, 0, false) && SeenBelow(s, caller, n)
    requires Passes(config, verify, r, caller, n, now) && Window(config, now) != w
    ensures var s' := Handle(config, verify, s, r, now, true);
            SeenBelow(s', caller, n + 1) && OnDetour(config, s', caller, w, before, 0, true)
  {
    hide Spent, Window;
    SpentSnoc(config, s.executed, Execution(r, now, true), caller, w);
  }

  /** Everything but nonce and budget is in order. */
  ghost predicate Passes(config: Config, verify: Verifier, r: Request, caller: Caller, nonce: nat, now: nat)
  {
    && r.caller == caller && r.nonce == nonce && r.operation.requiresAuth && |r.payload| <= config.maxPayload
    && caller in config.keys && verify(config.keys[caller], r) && now <= r.expiry
  }

  lemma FillerIgnored(config: Config, verify: Verifier, s: Admission, now: nat)
    ensures Handle(config, verify, s, Filler(config), now, true) == s
  {
  }

  lemma DetourStep(
      config: Config, verify: Verifier, make: nat -> Request, times: seq<nat>, caller: Caller, w: nat, m: nat, n: nat,
      s: Admission, before: nat, after: nat)
    requires config.limit > 0 && CanSign(config, verify, make, caller, times)
    requires m < |times| && Window(config, times[m]) != w && n < |times| && SeenBelow(s, caller, n)
    requires OnDetour(config, s, caller, w, before, after, n > m)
    ensures var c := Detour(config, make, times, w, m)[n];
            var s' := Handle(config, verify, s, c.request, c.now, c.ok);
            var hit := if Window(config, times[n]) == w then 1 else 0;
            && SeenBelow(s', caller, n + 1)
            && OnDetour(config, s', caller, w, if n < m then before + hit else before,
                        if n > m then after + hit else after, n + 1 > m)
  {
    hide Window, Handle, OnDetour, Filler;
    assert Signable(config, verify, make, caller, times, n);
    if Window(config, times[n]) == w {
      DetourInside(config, verify, make(n), times[n], caller, w, n, s, before, after, n > m);
    } else if n == m {
      AfterNothing(config, s, caller, w, before, after);
      DetourTurn(config, verify, make(n), times[n], caller, w, n, s, before);
    } else {
      FillerIgnored(config, verify, s, times[n]);
    }
  }

  lemma AfterNothing(config: Config, s: Admission, caller: Caller, w: nat, before: nat, after: nat)
    requires OnDetour(config, s, caller, w, before, after, false)
    ensures after == 0
  {
  }

  /** Visits among the first n calls, before position m. */
  function Early(config: Config, times: seq<nat>, w: nat, m: nat, n: nat): nat
    requires n <= |times| && m <= |times|
  {
    Visits(config, times[..if n < m then n else m], w)
  }

  /** Visits among the first n calls, from position m on. */
  function Late(config: Config, times: seq<nat>, w: nat, m: nat, n: nat): nat
    requires n <= |times| && m <= |times|
  {
    if n <= m then 0 else VisitsMonotone(config, times, w, m, n); Visits(config, times[..n], w) - Visits(config, times[..m], w)
  }

  lemma SplitNext(config: Config, times: seq<nat>, w: nat, m: nat, n: nat)
    requires n < |times| && m < |times| && Window(config, times[m]) != w
    ensures var hit := if Window(config, times[n]) == w then 1 else 0;
            && Early(config, times, w, m, n + 1) == Early(config, times, w, m, n) + (if n < m then hit else 0)
            && Late(config, times, w, m, n + 1) == Late(config, times, w, m, n) + (if n > m then hit else 0)
  {
    hide Window, Visits;
    VisitsNext(config, times, w, n);
  }

  lemma RunNext(config: Config, verify: Verifier, calls: seq<Call>, n: nat)
    requires n < |calls|
    ensures Run(config, verify, calls[..n + 1]) ==
            Handle(config, verify, Run(config, verify, calls[..n]), calls[n].request, calls[n].now, calls[n].ok)
  {
    hide Handle;
    assert calls[..n + 1] == calls[..n] + [calls[n]];
    RunSnoc(config, verify, calls[..n], calls[n]);
  }

  lemma {:induction false} DetourRun(
      config: Config, verify: Verifier, make: nat -> Request, times: seq<nat>, caller: Caller, w: nat, m: nat, n: nat)
    requires config.limit > 0 && CanSign(config, verify, make, caller, times)
    requires m < |times| && Window(config, times[m]) != w && n <= |times|
    ensures var s := Run(config, verify, Detour(config, make, times, w, m)[..n]);
            && SeenBelow(s, caller, n)
            && OnDetour(config, s, caller, w, Early(config, times, w, m, n), Late(config, times, w, m, n), n > m)
    decreases n
  {
    hide Window, Handle, OnDetour, SeenBelow, Early, Late, Run, Detour, CanSign;
    var calls := Detour(config, make, times, w, m);
    if n == 0 {
      DetourStart(config, times, caller, w, m);
      assert calls[..0] == [];
      RunEmpty(config, verify);
    } else {
      DetourRun(config, verify, make, times, caller, w, m, n - 1);
      RunNext(config, verify, calls, n - 1);
      SplitNext(config, times, w, m, n - 1);
      DetourStep(config, verify, make, times, caller, w, m, n - 1, Run(config, verify, calls[..n - 1]),
                 Early(config, times, w, m, n - 1), Late(config, times, w, m, n - 1));
    }
  }

  lemma RunEmpty(config: Config, verify: Verifier)
    ensures Run(config, verify, []) == START
  {
  }

  lemma DetourStart(config: Config, times: seq<nat>, caller: Caller, w: nat, m: nat)
    requires m <= |times|
    ensures SeenBelow(START, caller, 0)
    ensures OnDetour(config, START, caller, w, Early(config, times, w, m, 0), Late(config, times, w, m, 0), false)
  {
  }

  /** Visits add up, and a time in the window counts. */
  lemma {:induction false} VisitsGrow(config: Config, times: seq<nat>, w: nat, a: nat, b: nat, i: nat)
    requires a <= i < b <= |times| && Window(config, times[i]) == w
    ensures Visits(config, times[..a], w) < Visits(config, times[..b], w)
    decreases b
  {
    hide Window;
    VisitsNext(config, times, w, b - 1);
    if i < b - 1 {
      VisitsGrow(config, times, w, a, b - 1, i);
    } else {
      VisitsMonotone(config, times, w, a, b - 1);
    }
  }

  lemma {:induction false} VisitsMonotone(config: Config, times: seq<nat>, w: nat, a: nat, b: nat)
    requires a <= b <= |times|
    ensures Visits(config, times[..a], w) <= Visits(config, times[..b], w)
    decreases b
  {
    hide Window;
    if a < b {
      VisitsNext(config, times, w, b - 1);
      VisitsMonotone(config, times, w, a, b - 1);
    }
  }

  /** A caller that can sign overspends a window it may leave and enter again, if it has enough calls there. */
  lemma DetourOverspends(
      config: Config, verify: Verifier, make: nat -> Request, times: seq<nat>, caller: Caller, w: nat)
    returns (calls: seq<Call>)
    requires config.limit > 0 && CanSign(config, verify, make, caller, times)
    requires Returns(config, times, w) && Visits(config, times, w) > config.limit
    ensures Times(calls) == times && Spent(config, Run(config, verify, calls).executed, caller, w) > config.limit
  {
    hide Window, CanSign, Run, Visits, Spent, Detour, OnDetour, SeenBelow;
    var i, m, j :| 0 <= i < m < j < |times| && Window(config, times[i]) == w && Window(config, times[m]) != w
      && Window(config, times[j]) == w;
    calls := Detour(config, make, times, w, m);
    DetourTimes(config, make, times, w, m);
    DetourRun(config, verify, make, times, caller, w, m, |times|);
    assert calls[..|calls|] == calls;
    TwoBudgets(config, Run(config, verify, calls), times, caller, w, i, m, j);
  }

  lemma DetourTimes(config: Config, make: nat -> Request, times: seq<nat>, w: nat, m: nat)
    ensures Times(Detour(config, make, times, w, m)) == times
  {
    hide Window;
  }

  lemma TwoBudgets(config: Config, s: Admission, times: seq<nat>, caller: Caller, w: nat, i: nat, m: nat, j: nat)
    requires config.limit > 0 && i < m < j < |times| && Visits(config, times, w) > config.limit
    requires Window(config, times[i]) == w && Window(config, times[j]) == w
    requires OnDetour(config, s, caller, w, Early(config, times, w, m, |times|), Late(config, times, w, m, |times|), true)
    ensures Spent(config, s.executed, caller, w) > config.limit
  {
    hide Window, Visits, Spent;
    assert times[..|times|] == times;
    VisitsGrow(config, times, w, 0, m, i);
    VisitsGrow(config, times, w, m, |times|, j);
  }

  /**
   Exactly when a window's budget can be overspent, told from the times of the calls alone: the
   window is left and entered again, and more calls fall in it than the limit.
   */
  lemma OverspendIff(
      config: Config, verify: Verifier, make: nat -> Request, times: seq<nat>, caller: Caller, w: nat)
    requires config.limit > 0 && CanSign(config, verify, make, caller, times)
    ensures (exists calls ::
               Times(calls) == times && Spent(config, Run(config, verify, calls).executed, caller, w) > config.limit)
       <==> Returns(config, times, w) && Visits(config, times, w) > config.limit
  {
    hide Window, CanSign, Run, Visits, Spent, Returns, Times;
    if Returns(config, times, w) && Visits(config, times, w) > config.limit {
      var calls := DetourOverspends(config, verify, make, times, caller, w);
    }
    forall calls | Times(calls) == times && Spent(config, Run(config, verify, calls).executed, caller, w) > config.limit
      ensures Returns(config, times, w) && Visits(config, times, w) > config.limit
    {
      SpentAtMostVisits(config, verify, calls, caller, w);
      if !Returns(config, times, w) {
        RunSteady(config, verify, calls, caller, w);
      }
    }
  }

  lemma VisitsNext(config: Config, times: seq<nat>, w: nat, n: nat)
    requires n < |times|
    ensures Visits(config, times[..n + 1], w) ==
            Visits(config, times[..n], w) + if Window(config, times[n]) == w then 1 else 0
  {
    assert times[..n + 1][..n] == times[..n];
  }

  lemma RunSnoc(config: Config, verify: Verifier, calls: seq<Call>, c: Call)
    ensures Run(config, verify, calls + [c]) ==
            Handle(config, verify, Run(config, verify, calls), c.request, c.now, c.ok)
    ensures Run(config, verify, []) == START
  {
    assert (calls + [c])[..|calls|] == calls;
  }

  // -------------------------------------------------------------------------- the service

  class ApiService {
    const config: Config
    const verify: Verifier
    const chainRoots: Hash256 -> bool
    var seen: set<(Caller, nat)>
    var windows: map<Caller, (nat, nat)>
    var audit: seq<AuditEntry>
    ghost var executed: seq<Execution>

    ghost function View(): Admission
      reads this
    {
      Admission(seen, windows, audit, executed)
    }

    constructor (config: Config, verify: Verifier, chainRoots: Hash256 -> bool)
      ensures View() == START && this.config == config && this.verify == verify && this.chainRoots == chainRoots
    {
      this.config := config;
      this.verify := verify;
      this.chainRoots := chainRoots;
      seen, windows, audit, executed := {}, map[], [], [];
    }

    /** `NonceStore::check_and_record`. */
    method CheckAndRecord(caller: Caller, nonce: nat) returns (isNew: bool)
      modifies this`seen
      ensures isNew == ((caller, nonce) !in old(seen)) && seen == old(seen) + {(caller, nonce)}
    {
      isNew := (caller, nonce) !in seen;
      seen := seen + {(caller, nonce)};
    }

    /** `RateLimiter::allow`. */
    method Allow(caller: Caller, now: nat) returns (ok: bool)
      modifies this`windows
      ensures var entry := EntryAt(config, old(windows), caller, now);
              && ok == (entry.1 < config.limit)
              && windows == old(windows)[caller := if ok then (entry.0, entry.1 + 1) else entry]
    {
      var current := now / Secs(config);
      if caller !in windows {
        windows := windows[caller := (current, 0)];
      }
      if windows[caller].0 != current {
        windows := windows[caller := (current, 0)];
      }
      if windows[caller].1 >= config.limit {
        return false;
      }
      windows := windows[caller := (windows[caller].0, windows[caller].1 + 1)];
      return true;
    }

    /** `authenticate`. */
    method Admit(r: Request, now: nat) returns (refused: Option<ApiError>)
      modifies this`seen, this`windows
      ensures (refused, View()) == Authenticate(config, verify, old(View()), r, now)
    {
      hide EntryAt;
      if r.caller !in config.keys {
        return Some(Unauthorized);
      }
      if r.expiry < now {
        return Some(Expired);
      }
      if !verify(config.keys[r.caller], r) {
        return Some(Unauthorized);
      }
      var isNew := CheckAndRecord(r.caller, r.nonce);
      if !isNew {
        assert seen == old(seen);
        return Some(Replay);
      }
      var ok := Allow(r.caller, now);
      if !ok {
        return Some(RateLimited);
      }
      return None;
    }

    /** `handle`, given what the backend would answer and how long it would take. */
    method HandleRequest(r: Request, now: nat, answer: Result<Response, ApiError>, elapsed: nat)
        returns (result: Result<seq<Byte>, ApiError>)
      modifies this
      ensures View() == Handle(config, verify, old(View()), r, now, answer.Ok?)
      ensures result.Ok? <==>
                && executed != old(executed) && elapsed <= config.timeoutMillis && answer.Ok?
                && (answer.value.chainRoot == None || chainRoots(answer.value.chainRoot.value))
      ensures result.Ok? ==> result.value == answer.value.data
      ensures executed != old(executed) && result.Err? ==>
                result.error == if elapsed > config.timeoutMillis then Timeout
                                else if answer.Err? then answer.error
                                else NotTerminated
      ensures executed == old(executed) ==>
                (|r.payload| > config.maxPayload || Authenticate(config, verify, old(View()), r, now).0.Some?) &&
                result == Err(if |r.payload| > config.maxPayload then Oversize
                              else Authenticate(config, verify, old(View()), r, now).0.value)
    {
      hide Authenticate;
      RefusedOrExecuted(config, verify, View(), r, now, answer.Ok?);
      if |r.payload| > config.maxPayload {
        return Err(Oversize);
      }
      if r.operation.requiresAuth {
        AdmissionOnly(config, verify, View(), r, now);
        var refused := Admit(r, now);
        if refused.Some? {
          return Err(refused.value);
        }
      }
      executed := executed + [Execution(r, now, answer.Ok?)];
      var outcome := if answer.Ok? then "ok" else "error";
      audit := audit + [AuditEntry(now, r.caller, r.operation.name, r.position, outcome)];
      if elapsed > config.timeoutMillis {
        return Err(Timeout);
      }
      if answer.Err? {
        return Err(answer.error);
      }
      if answer.value.chainRoot.Some? && !chainRoots(answer.value.chainRoot.value) {
        return Err(NotTerminated);
      }
      return Ok(answer.value.data);
    }
  }

  /** Admission itself executes and records nothing. */
  lemma AdmissionOnly(config: Config, verify: Verifier, s: Admission, r: Request, now: nat)
    ensures var s' := Authenticate(config, verify, s, r, now).1; s'.audit == s.audit && s'.executed == s.executed
  {
  }
}
