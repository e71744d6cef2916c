// The pause/resolve handshake as a transition system: any number of pausing
// goroutines, any number of concurrent Resolve callers presenting any tokens,
// callbacks that may panic, and a token counter that wraps and reuses values.
// One action is one stretch of code that the engine's mutex (or a single
// channel operation) makes atomic.
module PauseMachine {
  import opened Common
  import opened Tokens
  import opened PauseTable

  type Flow = nat

  // A pausing goroutine, from registration on. Its index in State.pauses is its
  // identity and stands for the channel it allocated.
  datatype Phase =
    | Notifying   // registered; inside the onPause callback
    | Waiting     // blocked on its channel
    | Unwinding   // resolved, or its callback panicked; deferred cleanup pending
    | Done

  datatype Pause = Pause(
    flow: Flow,
    token: Token,
    raw: string,
    phase: Phase,
    buffer: Option<Resolution>,   // the channel: one slot
    outcome: Option<Resolution>)  // what the goroutine received

  // A Resolve call that has claimed a pause and not yet sent to its channel.
  datatype Claim = Claim(pause: nat, res: Resolution)

  datatype State = State(
    next: Token,
    pending: map<Token, nat>,
    pausedByFlow: map<Flow, int>,
    status: map<Flow, Status>,
    pauses: seq<Pause>,
    inHand: map<nat, Claim>)

  datatype Action =
    | Register(flow: Flow, raw: string, token: Token)
    | CallbackReturn(p: nat)
    | CallbackPanic(p: nat)
    | Resolve(caller: nat, token: Token, res: Resolution)
    | Send(caller: nat)
    | Wake(p: nat)
    | CleanUp(p: nat)

  ghost predicate Init(s: State) {
    s.pending == map[] && s.pausedByFlow == map[] && s.pauses == [] && s.inHand == map[]
  }

  predicate InPhase(s: State, p: nat, phase: Phase) {
    p < |s.pauses| && s.pauses[p].phase == phase
  }

  // The token still resolves this very pause.
  predicate Open(s: State, p: nat) {
    p < |s.pauses| && s.pauses[p].token in s.pending && s.pending[s.pauses[p].token] == p
  }

  ghost predicate Enabled(s: State, a: Action) {
    match a
    case Register(_, _, token) => IsNext(s.next, s.pending.Keys, token)
    case CallbackReturn(p) => InPhase(s, p, Notifying)
    case CallbackPanic(p) => InPhase(s, p, Notifying)
    case Resolve(caller, _, _) => caller !in s.inHand
    case Send(caller) =>
      // a send to a full one-slot channel blocks
      && caller in s.inHand
      && s.inHand[caller].pause < |s.pauses|
      && s.pauses[s.inHand[caller].pause].buffer.None?
    case Wake(p) => InPhase(s, p, Waiting) && s.pauses[p].buffer.Some?
    case CleanUp(p) => InPhase(s, p, Unwinding)
  }

  function SetPhase(s: State, p: nat, phase: Phase): State
    requires p < |s.pauses|
  {
    s.(pauses := s.pauses[p := s.pauses[p].(phase := phase)])
  }

  function Registered(s: State, flow: Flow, raw: string, token: Token): State {
    s.(next := token,
       pending := s.pending[token := |s.pauses|],
       pausedByFlow := Incremented(s.pausedByFlow, flow),
       status := s.status[flow := Pending],
       pauses := s.pauses + [Pause(flow, token, raw, Notifying, None, None)])
  }

  // An unknown or already claimed token changes nothing.
  function Claimed(s: State, caller: nat, token: Token, res: Resolution): State {
    if token in s.pending then
      s.(pending := s.pending - {token},
         inHand := s.inHand[caller := Claim(s.pending[token], res)])
    else s
  }

  function Sent(s: State, caller: nat): State
    requires caller in s.inHand && s.inHand[caller].pause < |s.pauses|
  {
    var c := s.inHand[caller];
    s.(inHand := s.inHand - {caller},
       pauses := s.pauses[c.pause := s.pauses[c.pause].(buffer := Some(c.res))])
  }

  function Woken(s: State, p: nat): State
    requires p < |s.pauses|
  {
    s.(pauses := s.pauses[p := s.pauses[p].(phase := Unwinding, buffer := None, outcome := s.pauses[p].buffer)])
  }

  function Cleaned(s: State, p: nat): State
    requires p < |s.pauses|
  {
    var f := s.pauses[p].flow;
    s.(pending := WithoutOwn(s.pending, s.pauses[p].token, p),
       pausedByFlow := Decremented(s.pausedByFlow, f),
       status := if CountOf(s.pausedByFlow, f) == 1 then s.status[f := Active] else s.status,
       pauses := s.pauses[p := s.pauses[p].(phase := Done)])
  }

  ghost function Apply(s: State, a: Action): State
    requires Enabled(s, a)
  {
    match a
    case Register(flow, raw, token) => Registered(s, flow, raw, token)
    case CallbackReturn(p) => SetPhase(s, p, Waiting)
    case CallbackPanic(p) => SetPhase(s, p, Unwinding)
    case Resolve(caller, token, res) => Claimed(s, caller, token, res)
    case Send(caller) => Sent(s, caller)
    case Wake(p) => Woken(s, p)
    case CleanUp(p) => Cleaned(s, p)
  }

  // ---------- the invariant ----------

  // Pauses of a flow between registration and cleanup.
  function Live(pauses: seq<Pause>, f: Flow): nat {
    if pauses == [] then 0
    else Live(pauses[..|pauses| - 1], f) + LiveOne(pauses[|pauses| - 1], f)
  }

  function LiveOne(p: Pause, f: Flow): nat {
    if p.flow == f && p.phase != Done then 1 else 0
  }

  ghost predicate PendingSound(s: State) {
    forall t :: t in s.pending ==>
      && t != 0
      && s.pending[t] < |s.pauses|
      && s.pauses[s.pending[t]].token == t
      && s.pauses[s.pending[t]].phase != Done
      && s.pauses[s.pending[t]].buffer.None?
      && s.pauses[s.pending[t]].outcome.None?
  }

  ghost predicate ClaimsSound(s: State) {
    && (forall c :: c in s.inHand ==>
         && s.inHand[c].pause < |s.pauses|
         && !Open(s, s.inHand[c].pause)
         && s.pauses[s.inHand[c].pause].buffer.None?
         && s.pauses[s.inHand[c].pause].outcome.None?)
    && (forall c, d :: c in s.inHand && d in s.inHand && c != d ==> s.inHand[c].pause != s.inHand[d].pause)
  }

  ghost predicate HeldByCaller(s: State, p: nat) {
    exists c :: c in s.inHand && s.inHand[c].pause == p
  }

  // A goroutine that is still running its callback or blocked can be released:
  // its token resolves it, or a resolution is on its way or already buffered.
  ghost predicate NoneStranded(s: State) {
    forall p :: 0 <= p < |s.pauses| ==>
      && (s.pauses[p].buffer.Some? ==> s.pauses[p].outcome.None?)
      && (s.pauses[p].phase in {Notifying, Waiting} ==>
            && s.pauses[p].outcome.None?
            && (Open(s, p) || HeldByCaller(s, p) || s.pauses[p].buffer.Some?))
  }

  ghost predicate CountsExact(s: State) {
    && (forall f: Flow :: CountOf(s.pausedByFlow, f) == Live(s.pauses, f))
    && (forall f: Flow :: f in s.pausedByFlow ==> s.pausedByFlow[f] > 0)
  }

  ghost predicate StatusExact(s: State) {
    forall p :: 0 <= p < |s.pauses| ==>
      && s.pauses[p].flow in s.status
      && s.status[s.pauses[p].flow] == if Live(s.pauses, s.pauses[p].flow) > 0 then Pending else Active
  }

  ghost predicate Inv(s: State) {
    PendingSound(s) && ClaimsSound(s) && NoneStranded(s) && CountsExact(s) && StatusExact(s)
  }

  lemma {:induction false} LiveAppend(pauses: seq<Pause>, x: Pause, f: Flow)
    ensures Live(pauses + [x], f) == Live(pauses, f) + LiveOne(x, f)
  {
    assert (pauses + [x])[..|pauses|] == pauses;
  }

  lemma {:induction false} LiveUpdate(pauses: seq<Pause>, p: nat, x: Pause, f: Flow)
    requires p < |pauses|
    ensures Live(pauses[p := x], f) == Live(pauses, f) - LiveOne(pauses[p], f) + LiveOne(x, f)
  {
    var n := |pauses| - 1;
    if p == n {
      assert pauses[p := x][..n] == pauses[..n];
    } else {
      assert pauses[p := x][..n] == pauses[..n][p := x];
      LiveUpdate(pauses[..n], p, x, f);
    }
  }

  lemma {:induction false} LiveWitness(pauses: seq<Pause>, f: Flow)
    ensures Live(pauses, f) > 0 <==> exists p :: 0 <= p < |pauses| && LiveOne(pauses[p], f) == 1
  {
    if pauses == [] {
    } else {
      var n := |pauses| - 1;
      LiveWitness(pauses[..n], f);
      if Live(pauses, f) > 0 && LiveOne(pauses[n], f) == 0 {
        var p :| 0 <= p < n && LiveOne(pauses[..n][p], f) == 1;
        assert LiveOne(pauses[p], f) == 1;
      }
      if p :| 0 <= p < |pauses| && LiveOne(pauses[p], f) == 1 {
        if p < n {
          assert LiveOne(pauses[..n][p], f) == 1;
        }
      }
    }
  }

  // Updating a pause without touching its flow or its being done changes no count.
  lemma LiveUnchanged(s: State, t: State, p: nat)
    requires p < |s.pauses| == |t.pauses| && t.pauses == s.pauses[p := t.pauses[p]]
    requires t.pauses[p].flow == s.pauses[p].flow
    requires t.pauses[p].phase == Done <==> s.pauses[p].phase == Done
    ensures forall f :: Live(t.pauses, f) == Live(s.pauses, f)
  {
    forall f: Flow ensures Live(t.pauses, f) == Live(s.pauses, f) {
      LiveUpdate(s.pauses, p, t.pauses[p], f);
    }
  }

  lemma SameCounts(s: State, t: State, p: nat)
    requires CountsExact(s) && StatusExact(s) && t.pausedByFlow == s.pausedByFlow && t.status == s.status
    requires p < |s.pauses| == |t.pauses| && t.pauses == s.pauses[p := t.pauses[p]]
    requires t.pauses[p].flow == s.pauses[p].flow
    requires t.pauses[p].phase == Done <==> s.pauses[p].phase == Done
    ensures CountsExact(t) && StatusExact(t)
  {
    LiveUnchanged(s, t, p);
    hide Live, CountOf;
    assert forall q :: 0 <= q < |t.pauses| ==> t.pauses[q].flow == s.pauses[q].flow;
  }

  // Whoever holds a pause's claim in s still does in t.
  lemma StillHeld(s: State, t: State, q: nat)
    requires HeldByCaller(s, q) && forall c :: c in s.inHand && s.inHand[c].pause == q ==>
      c in t.inHand && t.inHand[c].pause == q
    ensures HeldByCaller(t, q)
  {
    var c :| c in s.inHand && s.inHand[c].pause == q;
    assert c in t.inHand;
  }

  // ---- registration ----

  lemma RegisterKeepsPending(s: State, flow: Flow, raw: string, token: Token)
    requires PendingSound(s) && token != 0
    ensures PendingSound(Registered(s, flow, raw, token))
  {
    var t := Registered(s, flow, raw, token);
    assert forall p :: 0 <= p < |s.pauses| ==> t.pauses[p] == s.pauses[p];
  }

  lemma RegisterKeepsOpen(s: State, flow: Flow, raw: string, token: Token, q: nat)
    requires PendingSound(s) && token !in s.pending && q < |s.pauses|
    ensures Open(s, q) <==> Open(Registered(s, flow, raw, token), q)
  {
    assert Registered(s, flow, raw, token).pauses[q] == s.pauses[q];
  }

  lemma RegisterKeepsClaims(s: State, flow: Flow, raw: string, token: Token)
    requires PendingSound(s) && ClaimsSound(s) && token !in s.pending
    ensures ClaimsSound(Registered(s, flow, raw, token))
  {
    var t := Registered(s, flow, raw, token);
    forall c | c in t.inHand
      ensures !Open(t, t.inHand[c].pause) && t.pauses[t.inHand[c].pause] == s.pauses[s.inHand[c].pause]
    {
      RegisterKeepsOpen(s, flow, raw, token, s.inHand[c].pause);
    }
    hide Open;
  }

  lemma RegisterKeepsNoneStranded(s: State, flow: Flow, raw: string, token: Token)
    requires PendingSound(s) && NoneStranded(s) && token !in s.pending
    ensures NoneStranded(Registered(s, flow, raw, token))
  {
    var t := Registered(s, flow, raw, token);
    assert Open(t, |s.pauses|);
    forall q: nat | q < |s.pauses|
      ensures t.pauses[q] == s.pauses[q] && (Open(s, q) ==> Open(t, q)) && (HeldByCaller(s, q) ==> HeldByCaller(t, q))
    {
      RegisterKeepsOpen(s, flow, raw, token, q);
      if HeldByCaller(s, q) { StillHeld(s, t, q); }
    }
    hide Open, HeldByCaller;
  }

  lemma RegisterKeepsTables(s: State, flow: Flow, raw: string, token: Token)
    requires Inv(s) && IsNext(s.next, s.pending.Keys, token)
    ensures PendingSound(Registered(s, flow, raw, token))
    ensures ClaimsSound(Registered(s, flow, raw, token))
    ensures NoneStranded(Registered(s, flow, raw, token))
  {
    assert token != 0 && token !in s.pending;
    hide PendingSound, ClaimsSound, NoneStranded, Registered;
    RegisterKeepsPending(s, flow, raw, token);
    RegisterKeepsClaims(s, flow, raw, token);
    RegisterKeepsNoneStranded(s, flow, raw, token);
  }

  lemma RegisterCounts(s: State, flow: Flow, raw: string, token: Token, f: Flow)
    ensures var t := Registered(s, flow, raw, token);
      && Live(t.pauses, f) == Live(s.pauses, f) + (if f == flow then 1 else 0)
      && CountOf(t.pausedByFlow, f) == CountOf(s.pausedByFlow, f) + (if f == flow then 1 else 0)
  {
    LiveAppend(s.pauses, Pause(flow, token, raw, Notifying, None, None), f);
  }

  lemma RegisterKeepsCountsExact(s: State, flow: Flow, raw: string, token: Token)
    requires CountsExact(s)
    ensures CountsExact(Registered(s, flow, raw, token))
  {
    var t := Registered(s, flow, raw, token);
    forall f: Flow ensures CountOf(t.pausedByFlow, f) == Live(t.pauses, f) {
      RegisterCounts(s, flow, raw, token, f);
    }
    hide Live;
  }

  lemma RegisterKeepsStatus(s: State, flow: Flow, raw: string, token: Token)
    requires StatusExact(s)
    ensures StatusExact(Registered(s, flow, raw, token))
  {
    var t := Registered(s, flow, raw, token);
    hide Live, CountOf, Incremented;
    forall p | 0 <= p < |t.pauses|
      ensures t.pauses[p].flow in t.status
      ensures t.status[t.pauses[p].flow] == if Live(t.pauses, t.pauses[p].flow) > 0 then Pending else Active
    {
      RegisterCounts(s, flow, raw, token, t.pauses[p].flow);
      assert p < |s.pauses| ==> t.pauses[p] == s.pauses[p];
    }
  }

  lemma RegisterKeepsCounts(s: State, flow: Flow, raw: string, token: Token)
    requires CountsExact(s) && StatusExact(s)
    ensures CountsExact(Registered(s, flow, raw, token)) && StatusExact(Registered(s, flow, raw, token))
  {
    hide CountsExact, StatusExact, Registered;
    RegisterKeepsCountsExact(s, flow, raw, token);
    RegisterKeepsStatus(s, flow, raw, token);
  }

  // ---- a step of one goroutine ----

  // Goroutine p goes on, touching no table and no other pause.
  ghost predicate OnlyPause(s: State, t: State, p: nat) {
    && p < |s.pauses| == |t.pauses| && t.pauses == s.pauses[p := t.pauses[p]]
    && t.pauses[p].token == s.pauses[p].token && t.pauses[p].flow == s.pauses[p].flow
    && t.pending == s.pending && t.inHand == s.inHand
    && t.pausedByFlow == s.pausedByFlow && t.status == s.status
  }

  lemma OnlyPauseKeepsTables(s: State, t: State, p: nat)
    requires PendingSound(s) && ClaimsSound(s) && OnlyPause(s, t, p)
    requires t.pauses[p].phase != Done
    requires Open(s, p) || HeldByCaller(s, p) ==> t.pauses[p].buffer.None? && t.pauses[p].outcome.None?
    ensures PendingSound(t) && ClaimsSound(t)
  {
    forall q: nat ensures Open(s, q) <==> Open(t, q) {
      SameOpen(s, t, p, q);
    }
    forall c | c in s.inHand && s.inHand[c].pause == p ensures HeldByCaller(s, p) {
    }
    hide Open, HeldByCaller;
    forall k | k in s.pending && s.pending[k] == p ensures Open(s, p) {
      OpenByEntry(s, k);
    }
  }

  lemma SameOpen(s: State, t: State, p: nat, q: nat)
    requires OnlyPause(s, t, p)
    ensures Open(s, q) <==> Open(t, q)
  {
  }

  lemma OpenByEntry(s: State, k: Token)
    requires PendingSound(s) && k in s.pending
    ensures Open(s, s.pending[k])
  {
  }

  lemma OnlyPauseKeepsNoneStranded(s: State, t: State, p: nat)
    requires NoneStranded(s) && OnlyPause(s, t, p)
    requires t.pauses[p].buffer.Some? ==> t.pauses[p].outcome.None?
    requires t.pauses[p].phase in {Notifying, Waiting} ==>
      s.pauses[p].phase in {Notifying, Waiting} && t.pauses[p].outcome.None? && t.pauses[p].buffer == s.pauses[p].buffer
    ensures NoneStranded(t)
  {
    forall q: nat | q < |s.pauses| ensures (Open(s, q) <==> Open(t, q)) && (HeldByCaller(s, q) ==> HeldByCaller(t, q)) {
      SameOpen(s, t, p, q);
      if HeldByCaller(s, q) { StillHeld(s, t, q); }
    }
    hide Open, HeldByCaller;
  }

  lemma PhaseKeepsInv(s: State, p: nat, phase: Phase)
    requires Inv(s) && InPhase(s, p, Notifying) && phase in {Waiting, Unwinding}
    ensures Inv(SetPhase(s, p, phase))
  {
    var t := SetPhase(s, p, phase);
    SameCounts(s, t, p);
    assert OnlyPause(s, t, p);
    UnresolvedIsEmpty(s, p);
    OnlyPauseKeepsTables(s, t, p);
    OnlyPauseKeepsNoneStranded(s, t, p);
    hide PendingSound, ClaimsSound, NoneStranded, CountsExact, StatusExact;
  }

  // A pause that can still be resolved has received nothing and holds nothing.
  lemma UnresolvedIsEmpty(s: State, p: nat)
    requires PendingSound(s) && ClaimsSound(s)
    ensures Open(s, p) || HeldByCaller(s, p) ==> s.pauses[p].buffer.None? && s.pauses[p].outcome.None?
  {
  }

  lemma WakeKeepsInv(s: State, p: nat)
    requires Inv(s) && InPhase(s, p, Waiting) && s.pauses[p].buffer.Some?
    ensures Inv(Woken(s, p))
  {
    var t := Woken(s, p);
    SameCounts(s, t, p);
    assert OnlyPause(s, t, p);
    UnresolvedIsEmpty(s, p);
    OnlyPauseKeepsTables(s, t, p);
    OnlyPauseKeepsNoneStranded(s, t, p);
    hide PendingSound, ClaimsSound, NoneStranded, CountsExact, StatusExact;
  }

  // ---- Resolve ----

  lemma ClaimKeepsPending(s: State, caller: nat, token: Token, res: Resolution)
    requires PendingSound(s)
    ensures PendingSound(Claimed(s, caller, token, res))
  {
  }

  lemma ClaimCloses(s: State, caller: nat, token: Token, res: Resolution, q: nat)
    requires PendingSound(s) && token in s.pending
    ensures Open(Claimed(s, caller, token, res), q) <==> Open(s, q) && q != s.pending[token]
  {
  }

  lemma ClaimKeepsClaims(s: State, caller: nat, token: Token, res: Resolution)
    requires PendingSound(s) && ClaimsSound(s) && token in s.pending && caller !in s.inHand
    ensures ClaimsSound(Claimed(s, caller, token, res))
  {
    var t, p := Claimed(s, caller, token, res), s.pending[token];
    OpenByEntry(s, token);
    forall c | c in t.inHand ensures !Open(t, t.inHand[c].pause) {
      ClaimCloses(s, caller, token, res, t.inHand[c].pause);
    }
    hide Open;
  }

  lemma ClaimKeepsNoneStranded(s: State, caller: nat, token: Token, res: Resolution)
    requires PendingSound(s) && NoneStranded(s) && token in s.pending && caller !in s.inHand
    ensures NoneStranded(Claimed(s, caller, token, res))
  {
    var t, p := Claimed(s, caller, token, res), s.pending[token];
    assert HeldByCaller(t, p) by { assert t.inHand[caller].pause == p; }
    forall q: nat | q < |s.pauses|
      ensures (Open(s, q) ==> Open(t, q) || q == p) && (HeldByCaller(s, q) ==> HeldByCaller(t, q))
    {
      ClaimCloses(s, caller, token, res, q);
      if HeldByCaller(s, q) { StillHeld(s, t, q); }
    }
    hide Open, HeldByCaller;
  }

  lemma ResolveKeepsInv(s: State, caller: nat, token: Token, res: Resolution)
    requires Inv(s) && caller !in s.inHand
    ensures Inv(Claimed(s, caller, token, res))
  {
    if token in s.pending {
      ClaimKeepsPending(s, caller, token, res);
      ClaimKeepsClaims(s, caller, token, res);
      ClaimKeepsNoneStranded(s, caller, token, res);
      hide PendingSound, ClaimsSound, NoneStranded;
    }
  }

  lemma SendKeepsTables(s: State, caller: nat)
    requires PendingSound(s) && ClaimsSound(s) && caller in s.inHand
    ensures PendingSound(Sent(s, caller)) && ClaimsSound(Sent(s, caller))
  {
    var t, p := Sent(s, caller), s.inHand[caller].pause;
    forall q: nat ensures Open(s, q) <==> Open(t, q) {
      SendKeepsOpen(s, caller, q);
    }
    forall k | k in s.pending ensures s.pending[k] != p {
      OpenByEntry(s, k);
    }
    hide Open;
  }

  lemma SendKeepsOpen(s: State, caller: nat, q: nat)
    requires caller in s.inHand && s.inHand[caller].pause < |s.pauses|
    ensures Open(s, q) <==> Open(Sent(s, caller), q)
  {
  }

  lemma SendKeepsNoneStranded(s: State, caller: nat)
    requires ClaimsSound(s) && NoneStranded(s) && caller in s.inHand
    ensures NoneStranded(Sent(s, caller))
  {
    var t, p := Sent(s, caller), s.inHand[caller].pause;
    forall q: nat | q < |s.pauses|
      ensures (Open(s, q) <==> Open(t, q)) && (q != p && HeldByCaller(s, q) ==> HeldByCaller(t, q))
    {
      SendKeepsOpen(s, caller, q);
      if q != p && HeldByCaller(s, q) { StillHeld(s, t, q); }
    }
    hide Open, HeldByCaller;
  }

  lemma SendKeepsInv(s: State, caller: nat)
    requires Inv(s) && caller in s.inHand
    ensures Inv(Sent(s, caller))
  {
    assert s.inHand[caller].pause < |s.pauses|;
    SameCounts(s, Sent(s, caller), s.inHand[caller].pause);
    SendKeepsTables(s, caller);
    SendKeepsNoneStranded(s, caller);
    hide PendingSound, ClaimsSound, NoneStranded, CountsExact, StatusExact;
  }

  // ---- cleanup ----

  lemma CleanUpCloses(s: State, p: nat, q: nat)
    requires PendingSound(s) && p < |s.pauses|
    ensures Open(Cleaned(s, p), q) <==> Open(s, q) && q != p
  {
  }

  lemma CleanUpKeepsPending(s: State, p: nat)
    requires PendingSound(s) && p < |s.pauses|
    ensures PendingSound(Cleaned(s, p))
  {
  }

  lemma CleanUpKeepsClaims(s: State, p: nat)
    requires PendingSound(s) && ClaimsSound(s) && p < |s.pauses|
    ensures ClaimsSound(Cleaned(s, p))
  {
    var t := Cleaned(s, p);
    forall c | c in t.inHand ensures !Open(t, t.inHand[c].pause) {
      CleanUpCloses(s, p, t.inHand[c].pause);
    }
    hide Open;
  }

  lemma CleanUpKeepsNoneStranded(s: State, p: nat)
    requires PendingSound(s) && NoneStranded(s) && p < |s.pauses|
    ensures NoneStranded(Cleaned(s, p))
  {
    var t := Cleaned(s, p);
    forall q: nat | q < |s.pauses|
      ensures (q != p && Open(s, q) ==> Open(t, q)) && (HeldByCaller(s, q) ==> HeldByCaller(t, q))
    {
      CleanUpCloses(s, p, q);
      if HeldByCaller(s, q) { StillHeld(s, t, q); }
    }
    hide Open, HeldByCaller;
  }

  lemma CleanUpKeepsCounts(s: State, p: nat)
    requires CountsExact(s) && StatusExact(s) && InPhase(s, p, Unwinding)
    ensures CountsExact(Cleaned(s, p)) && StatusExact(Cleaned(s, p))
  {
    var t := Cleaned(s, p);
    forall f: Flow ensures Live(t.pauses, f) == Live(s.pauses, f) - LiveOne(s.pauses[p], f) {
      LiveUpdate(s.pauses, p, t.pauses[p], f);
    }
    LiveWitness(s.pauses, s.pauses[p].flow);
    assert LiveOne(s.pauses[p], s.pauses[p].flow) == 1;
  }

  lemma StepKeepsInv(s: State, a: Action)
    requires Inv(s) && Enabled(s, a)
    ensures Inv(Apply(s, a))
  {
    match a
    case Register(flow, raw, token) =>
      RegisterKeepsTables(s, flow, raw, token);
      RegisterKeepsCounts(s, flow, raw, token);
    case CallbackReturn(p) => PhaseKeepsInv(s, p, Waiting);
    case CallbackPanic(p) => PhaseKeepsInv(s, p, Unwinding);
    case Resolve(caller, token, res) => ResolveKeepsInv(s, caller, token, res);
    case Send(caller) => SendKeepsInv(s, caller);
    case Wake(p) => WakeKeepsInv(s, p);
    case CleanUp(p) =>
      CleanUpKeepsPending(s, p);
      CleanUpKeepsClaims(s, p);
      CleanUpKeepsNoneStranded(s, p);
      CleanUpKeepsCounts(s, p);
      hide PendingSound, ClaimsSound, NoneStranded, CountsExact, StatusExact;
  }

  // ---------- runs ----------

  ghost predicate Run(ss: seq<State>, acts: seq<Action>) {
    && |ss| == |acts| + 1
    && Init(ss[0])
    && forall i :: 0 <= i < |acts| ==> Enabled(ss[i], acts[i]) && ss[i + 1] == Apply(ss[i], acts[i])
  }

  lemma {:induction false} RunKeepsInv(ss: seq<State>, acts: seq<Action>, i: nat)
    requires Run(ss, acts) && i < |ss|
    ensures Inv(ss[i])
  {
    if i == 0 {
    } else {
      RunKeepsInv(ss, acts, i - 1);
      StepKeepsInv(ss[i - 1], acts[i - 1]);
    }
  }

  // The state after these actions in turn, if each is possible.
  ghost function After(s: State, acts: seq<Action>): Option<State>
    decreases |acts|
  {
    if acts == [] then Some(s)
    else if Enabled(s, acts[0]) then After(Apply(s, acts[0]), acts[1..])
    else None
  }

  lemma AfterFirst(s: State, a: Action, rest: seq<Action>)
    requires Enabled(s, a)
    ensures After(s, [a] + rest) == After(Apply(s, a), rest)
  {
    assert ([a] + rest)[1..] == rest;
  }

  // The whole life of a pause from any state the engine can be in: registered,
  // announced, resolved by its token, woken and cleaned up, it has received that
  // very resolution; or its callback panics and it goes without one. Either way
  // the token is free again.
  lemma WholeLife(s: State, flow: Flow, raw: string, token: Token, caller: nat, res: Resolution)
    requires Inv(s) && Enabled(s, Register(flow, raw, token)) && caller !in s.inHand
    ensures var p := |s.pauses|;
      var end := After(s, [Register(flow, raw, token)] + ([CallbackReturn(p)] + ([Resolve(caller, token, res)] +
        ([Send(caller)] + ([Wake(p)] + ([CleanUp(p)] + []))))));
      && end.Some? && p < |end.value.pauses|
      && end.value.pauses[p] == Pause(flow, token, raw, Done, None, Some(res))
      && end.value.pending == s.pending && end.value.inHand == s.inHand
  {
    var p := |s.pauses|;
    var s2 := SetPhase(Registered(s, flow, raw, token), p, Waiting);
    assert s2.pauses[p] == Pause(flow, token, raw, Waiting, None, None) && Open(s2, p);
    assert s2.pending - {token} == s.pending;
    hide After;
    AfterFirst(s, Register(flow, raw, token), [CallbackReturn(p)] + ([Resolve(caller, token, res)] +
      ([Send(caller)] + ([Wake(p)] + ([CleanUp(p)] + [])))));
    AfterFirst(Registered(s, flow, raw, token), CallbackReturn(p),
      [Resolve(caller, token, res)] + ([Send(caller)] + ([Wake(p)] + ([CleanUp(p)] + []))));
    hide Registered, SetPhase;
    ResolvedLife(s2, p, caller, res);
  }

  // From its resolution on.
  lemma ResolvedLife(s: State, p: nat, caller: nat, res: Resolution)
    requires InPhase(s, p, Waiting) && Open(s, p) && s.pauses[p].buffer.None? && caller !in s.inHand
    ensures var was := s.pauses[p];
      var end := After(s, [Resolve(caller, was.token, res)] + ([Send(caller)] + ([Wake(p)] + ([CleanUp(p)] + []))));
      && end.Some? && p < |end.value.pauses|
      && end.value.pauses[p] == was.(phase := Done, outcome := Some(res))
      && end.value.pending == s.pending - {was.token} && end.value.inHand == s.inHand
  {
    var token := s.pauses[p].token;
    var s3 := Claimed(s, caller, token, res);
    var s4 := Sent(s3, caller);
    var s5 := Woken(s4, p);
    assert s3.inHand - {caller} == s.inHand;
    assert s5.pauses[p] == s.pauses[p].(phase := Unwinding, outcome := Some(res));
    hide After;
    AfterFirst(s, Resolve(caller, token, res), [Send(caller)] + ([Wake(p)] + ([CleanUp(p)] + [])));
    AfterFirst(s3, Send(caller), [Wake(p)] + ([CleanUp(p)] + []));
    AfterFirst(s4, Wake(p), [CleanUp(p)] + []);
    AfterFirst(s5, CleanUp(p), []);
    AfterNothing(Cleaned(s5, p));
  }

  lemma AfterNothing(s: State)
    ensures After(s, []) == Some(s)
  {
  }

  lemma PanickedLife(s: State, flow: Flow, raw: string, token: Token)
    requires Inv(s) && Enabled(s, Register(flow, raw, token))
    ensures var p := |s.pauses|;
      var end := After(s, [Register(flow, raw, token)] + ([CallbackPanic(p)] + ([CleanUp(p)] + [])));
      && end.Some? && p < |end.value.pauses|
      && end.value.pauses[p] == Pause(flow, token, raw, Done, None, None)
      && end.value.pending == s.pending && end.value.inHand == s.inHand
  {
    var p := |s.pauses|;
    var s1 := Apply(s, Register(flow, raw, token));
    var s2 := SetPhase(s1, p, Unwinding);
    assert s2.pending - {token} == s.pending;
    hide After;
    AfterFirst(s, Register(flow, raw, token), [CallbackPanic(p)] + ([CleanUp(p)] + []));
    AfterFirst(s1, CallbackPanic(p), [CleanUp(p)] + []);
    AfterFirst(s2, CleanUp(p), []);
    AfterNothing(Cleaned(s2, p));
  }

  // Resolve's send never waits: whatever else happened between claiming the
  // pause and sending, its one-slot channel is empty.
  lemma SendNeverBlocks(ss: seq<State>, acts: seq<Action>, i: nat, caller: nat)
    requires Run(ss, acts) && i < |ss|
    requires caller in ss[i].inHand
    ensures Enabled(ss[i], Send(caller))
  {
    RunKeepsInv(ss, acts, i);
  }

  // The i-th action is a Resolve that presented pause p's own token while the
  // engine held that token for p.
  ghost predicate ResolvesAt(ss: seq<State>, acts: seq<Action>, i: nat, p: nat, res: Resolution) {
    && i < |acts| && i < |ss|
    && acts[i].Resolve?
    && acts[i].res == res
    && Open(ss[i], p)
    && acts[i].token == ss[i].pauses[p].token
  }

  // Once claimed or cleaned up, a pause never becomes resolvable again, even if
  // its token value is issued anew; its identity fields never change.
  lemma {:induction false} NeverReopens(ss: seq<State>, acts: seq<Action>, i: nat, j: nat, p: nat)
    requires Run(ss, acts) && i <= j < |ss| && p < |ss[i].pauses| && !Open(ss[i], p)
    ensures p < |ss[j].pauses| && !Open(ss[j], p)
    decreases j - i
  {
    if i == j {
    } else {
      RunKeepsInv(ss, acts, i);
      StaysClosed(ss[i], acts[i], p);
      NeverReopens(ss, acts, i + 1, j, p);
    }
  }

  lemma StaysClosed(s: State, a: Action, p: nat)
    requires Inv(s) && Enabled(s, a) && p < |s.pauses| && !Open(s, p)
    ensures p < |Apply(s, a).pauses| && !Open(Apply(s, a), p)
  {
  }

  // Where the resolution a pause has received, or is about to receive, stands.
  ghost predicate Carries(s: State, p: nat, res: Resolution) {
    && p < |s.pauses|
    && (|| s.pauses[p].outcome == Some(res)
        || s.pauses[p].buffer == Some(res)
        || InCallersHand(s, p, res))
  }

  ghost predicate InCallersHand(s: State, p: nat, res: Resolution) {
    exists c :: c in s.inHand && s.inHand[c] == Claim(p, res)
  }

  lemma ClaimStaysInHand(s: State, a: Action, p: nat, res: Resolution)
    requires Enabled(s, a) && InCallersHand(s, p, res) && !a.Send?
    ensures InCallersHand(Apply(s, a), p, res)
  {
    var c :| c in s.inHand && s.inHand[c] == Claim(p, res);
    assert c in Apply(s, a).inHand && Apply(s, a).inHand[c] == Claim(p, res);
  }

  lemma SendDelivers(s: State, caller: nat, p: nat, res: Resolution)
    requires Enabled(s, Send(caller)) && InCallersHand(s, p, res) && p < |s.pauses|
    ensures InCallersHand(Sent(s, caller), p, res) || Sent(s, caller).pauses[p].buffer == Some(res)
  {
    var c :| c in s.inHand && s.inHand[c] == Claim(p, res);
    if c != caller {
      assert c in Sent(s, caller).inHand && Sent(s, caller).inHand[c] == Claim(p, res);
    }
  }

  lemma ReceivedStays(s: State, a: Action, p: nat, res: Resolution)
    requires Inv(s) && Enabled(s, a) && p < |s.pauses|
    requires s.pauses[p].outcome == Some(res) || s.pauses[p].buffer == Some(res)
    ensures Apply(s, a).pauses[p].outcome == Some(res) || Apply(s, a).pauses[p].buffer == Some(res)
  {
    hide PendingSound, CountsExact, StatusExact;
  }

  // A resolution on its way to a pause stays on its way until it is received.
  lemma CarriedAfter(s: State, a: Action, p: nat, res: Resolution)
    requires Inv(s) && Enabled(s, a) && Carries(s, p, res)
    ensures Carries(Apply(s, a), p, res)
  {
    assert |Apply(s, a).pauses| >= |s.pauses|;
    if InCallersHand(s, p, res) {
      match a {
        case Send(caller) => SendDelivers(s, caller, p, res);
        case _ => ClaimStaysInHand(s, a, p, res);
      }
    } else {
      ReceivedStays(s, a, p, res);
    }
    hide Apply, Inv, Enabled;
  }

  lemma NewInHand(s: State, a: Action, p: nat, res: Resolution)
    requires PendingSound(s) && Enabled(s, a) && InCallersHand(Apply(s, a), p, res)
    ensures InCallersHand(s, p, res) || (a.Resolve? && a.res == res && Open(s, p) && a.token == s.pauses[p].token)
  {
    var c :| c in Apply(s, a).inHand && Apply(s, a).inHand[c] == Claim(p, res);
    if c in s.inHand && s.inHand[c] == Claim(p, res) {
      assert InCallersHand(s, p, res);
    } else {
      assert a.Resolve? && a.token in s.pending;
      OpenByEntry(s, a.token);
    }
  }

  lemma NewlyReceived(s: State, a: Action, p: nat, res: Resolution)
    requires ClaimsSound(s) && Enabled(s, a) && p < |Apply(s, a).pauses|
    requires Apply(s, a).pauses[p].outcome == Some(res) || Apply(s, a).pauses[p].buffer == Some(res)
    ensures p < |s.pauses|
    ensures s.pauses[p].outcome == Some(res) || s.pauses[p].buffer == Some(res) || InCallersHand(s, p, res)
  {
    match a {
      case Send(caller) =>
        assert s.inHand[caller] == Claim(s.inHand[caller].pause, s.inHand[caller].res);
      case _ =>
    }
  }

  lemma CarriedBefore(s: State, a: Action, p: nat, res: Resolution)
    requires Inv(s) && Enabled(s, a) && Carries(Apply(s, a), p, res)
    ensures Carries(s, p, res) || (a.Resolve? && a.res == res && Open(s, p) && a.token == s.pauses[p].token)
  {
    if InCallersHand(Apply(s, a), p, res) {
      NewInHand(s, a, p, res);
      InHandIsRegistered(s, p, res);
    } else {
      NewlyReceived(s, a, p, res);
    }
    hide Apply, Inv, Enabled, Open;
  }

  lemma InHandIsRegistered(s: State, p: nat, res: Resolution)
    requires ClaimsSound(s)
    ensures InCallersHand(s, p, res) ==> p < |s.pauses|
  {
  }

  lemma {:induction false} CarriedResolution(ss: seq<State>, acts: seq<Action>, n: nat, p: nat, res: Resolution)
    returns (i: nat)
    requires Run(ss, acts) && n < |ss| && Carries(ss[n], p, res)
    ensures i < n && ResolvesAt(ss, acts, i, p, res)
  {
    if n == 0 {
      assert false;
    } else {
      RunKeepsInv(ss, acts, n - 1);
      CarriedBefore(ss[n - 1], acts[n - 1], p, res);
      if Carries(ss[n - 1], p, res) {
        i := CarriedResolution(ss, acts, n - 1, p, res);
      } else {
        i := n - 1;
      }
    }
  }

  lemma ResolvedOnce(ss: seq<State>, acts: seq<Action>, i: nat, j: nat, p: nat, res: Resolution, res': Resolution)
    requires Run(ss, acts) && ResolvesAt(ss, acts, i, p, res) && ResolvesAt(ss, acts, j, p, res')
    ensures i == j
  {
    var lo, hi := if i < j then i else j, if i < j then j else i;
    if lo < hi {
      RunKeepsInv(ss, acts, lo);
      assert !Open(ss[lo + 1], p);
      NeverReopens(ss, acts, lo + 1, hi, p);
      assert false;
    }
  }

  // A pause receives a resolution only from a Resolve call that presented its
  // token while it held it, and exactly one call in the whole run did so.
  lemma OneResolutionFromItsToken(ss: seq<State>, acts: seq<Action>, n: nat, p: nat, res: Resolution)
    requires Run(ss, acts) && n < |ss| && p < |ss[n].pauses| && ss[n].pauses[p].outcome == Some(res)
    ensures exists i: nat :: i < n && ResolvesAt(ss, acts, i, p, res)
    ensures forall i, j, r, r' :: ResolvesAt(ss, acts, i, p, r) && ResolvesAt(ss, acts, j, p, r') ==> i == j && r == r'
  {
    var i := CarriedResolution(ss, acts, n, p, res);
    forall i, j, r, r' | ResolvesAt(ss, acts, i, p, r) && ResolvesAt(ss, acts, j, p, r')
      ensures i == j && r == r'
    {
      ResolvedOnce(ss, acts, i, j, p, r, r');
    }
  }

  // A pause's goroutine goes on only with an outcome.
  predicate Answered(s: State, p: nat) {
    p < |s.pauses| && s.pauses[p].phase in {Unwinding, Done} ==> s.pauses[p].outcome.Some?
  }

  lemma AnsweredStays(s: State, a: Action, p: nat)
    requires Enabled(s, a) && Answered(s, p) && a != CallbackPanic(p)
    ensures Answered(Apply(s, a), p)
  {
  }

  // Unless its callback panicked, a pause that is no longer waiting has received
  // a resolution - by OneResolutionFromItsToken, the one resolved for it.
  lemma {:induction false} FinishedHasOutcome(ss: seq<State>, acts: seq<Action>, i: nat, p: nat)
    requires Run(ss, acts) && i < |ss| && p < |ss[i].pauses| && ss[i].pauses[p].phase in {Unwinding, Done}
    requires forall j :: 0 <= j < i ==> acts[j] != CallbackPanic(p)
    ensures ss[i].pauses[p].outcome.Some?
  {
    RunAnswered(ss, acts, i, p);
  }

  lemma {:induction false} RunAnswered(ss: seq<State>, acts: seq<Action>, i: nat, p: nat)
    requires Run(ss, acts) && i < |ss| && forall j :: 0 <= j < i ==> acts[j] != CallbackPanic(p)
    ensures Answered(ss[i], p)
  {
    if i > 0 {
      RunAnswered(ss, acts, i - 1, p);
      AnsweredStays(ss[i - 1], acts[i - 1], p);
    }
  }

  predicate SameIdentity(p: Pause, q: Pause) {
    q.flow == p.flow && q.token == p.token && q.raw == p.raw
  }

  // A registered pause carries what its goroutine came with, and keeps it.
  lemma {:induction false} RegisteredAs(ss: seq<State>, acts: seq<Action>, i: nat, j: nat)
    requires Run(ss, acts) && i < |acts| && acts[i].Register? && i < j < |ss|
    ensures var p := |ss[i].pauses|;
      && p < |ss[j].pauses|
      && ss[j].pauses[p].flow == acts[i].flow
      && ss[j].pauses[p].token == acts[i].token
      && ss[j].pauses[p].raw == acts[i].raw
    decreases j
  {
    assert Enabled(ss[j - 1], acts[j - 1]) && ss[j] == Apply(ss[j - 1], acts[j - 1]);
    if i + 1 < j {
      RegisteredAs(ss, acts, i, j - 1);
      hide Run, Enabled, Apply;
      StepKeepsIdentity(ss[j - 1], acts[j - 1], |ss[i].pauses|);
    } else {
      hide Run, Enabled, Apply;
      NewlyRegistered(ss[i], acts[i]);
    }
  }

  lemma StepKeepsIdentity(s: State, a: Action, p: nat)
    requires Enabled(s, a) && p < |s.pauses|
    ensures p < |Apply(s, a).pauses| && SameIdentity(s.pauses[p], Apply(s, a).pauses[p])
  {
  }

  lemma NewlyRegistered(s: State, a: Action)
    requires Enabled(s, a) && a.Register?
    ensures Apply(s, a).pauses == s.pauses + [Pause(a.flow, a.token, a.raw, Notifying, None, None)]
  {
  }

  // Whether a Resolve reports success says exactly whether it released a pause.
  lemma ResolveReleasesExactlyOne(ss: seq<State>, acts: seq<Action>, i: nat)
    requires Run(ss, acts) && i < |acts| && acts[i].Resolve?
    ensures acts[i].token in ss[i].pending <==> exists p :: ResolvesAt(ss, acts, i, p, acts[i].res)
    ensures forall p, q :: ResolvesAt(ss, acts, i, p, acts[i].res) && ResolvesAt(ss, acts, i, q, acts[i].res) ==> p == q
    ensures acts[i].token !in ss[i].pending ==> ss[i + 1] == ss[i]
  {
    RunKeepsInv(ss, acts, i);
    if acts[i].token in ss[i].pending {
      assert ResolvesAt(ss, acts, i, ss[i].pending[acts[i].token], acts[i].res);
    }
  }

  // One pause's cleanup leaves every other pause's entry where it was, also when
  // the other pause has been issued the same token value, and its own is gone.
  lemma CleanUpRemovesOnlyItsOwn(ss: seq<State>, acts: seq<Action>, i: nat, q: nat)
    requires Run(ss, acts) && i < |acts| && acts[i].CleanUp? && q < |ss[i].pauses|
    ensures Open(ss[i + 1], q) <==> Open(ss[i], q) && q != acts[i].p
  {
    RunKeepsInv(ss, acts, i);
  }

  // The count of a flow is the number of its pauses between registration and
  // cleanup, no zero is stored, and a flow that has ever been paused is Pending
  // exactly while that number is positive.
  lemma CountsAndStatus(ss: seq<State>, acts: seq<Action>, i: nat, f: Flow)
    requires Run(ss, acts) && i < |ss|
    ensures CountOf(ss[i].pausedByFlow, f) == |LiveSet(ss[i], f)|
    ensures f in ss[i].pausedByFlow <==> LiveSet(ss[i], f) != {}
    ensures (exists p :: 0 <= p < |ss[i].pauses| && ss[i].pauses[p].flow == f) ==>
              f in ss[i].status && (ss[i].status[f] == Pending <==> LiveSet(ss[i], f) != {})
  {
    RunKeepsInv(ss, acts, i);
    LiveCounts(ss[i].pauses, f, LiveSet(ss[i], f));
  }

  ghost function LiveSet(s: State, f: Flow): set<nat> {
    set p: nat | p < |s.pauses| && LiveOne(s.pauses[p], f) == 1
  }

  lemma {:induction false} LiveCounts(pauses: seq<Pause>, f: Flow, live: set<nat>)
    requires forall p: nat :: p in live <==> p < |pauses| && LiveOne(pauses[p], f) == 1
    ensures |live| == Live(pauses, f)
  {
    if pauses == [] {
      assert live == {};
    } else {
      var n := |pauses| - 1;
      var front := live - {n};
      assert LiveOne(pauses[n], f) == 1 <==> n in live;
      forall p: nat ensures p in front <==> p < n && LiveOne(pauses[..n][p], f) == 1 {
        assert p < n ==> pauses[..n][p] == pauses[p];
      }
      hide LiveOne;
      LiveCounts(pauses[..n], f, front);
      assert n in live ==> live == front + {n};
      assert n !in live ==> live == front;
    }
  }

  // When every pause has finished, nothing is left in either table.
  lemma AllDoneLeavesNothing(ss: seq<State>, acts: seq<Action>, i: nat)
    requires Run(ss, acts) && i < |ss|
    requires forall p :: 0 <= p < |ss[i].pauses| ==> ss[i].pauses[p].phase == Done
    ensures ss[i].pending == map[] && ss[i].pausedByFlow == map[]
  {
    RunKeepsInv(ss, acts, i);
    forall f: Flow ensures f !in ss[i].pausedByFlow {
      LiveWitness(ss[i].pauses, f);
    }
    forall t: Token ensures t !in ss[i].pending {
    }
    assert ss[i].pending.Keys == {} && ss[i].pausedByFlow.Keys == {};
  }

  // No goroutine is stranded: until it has its resolution, a blocked pause can
  // still be resolved, or a resolution is in a caller's hand or in its channel.
  lemma NoPauseStranded(ss: seq<State>, acts: seq<Action>, i: nat, p: nat)
    requires Run(ss, acts) && i < |ss| && InPhase(ss[i], p, Waiting)
    ensures Open(ss[i], p) || HeldByCaller(ss[i], p) || Enabled(ss[i], Wake(p))
  {
    RunKeepsInv(ss, acts, i);
  }
}
