// The whole path of a pause, two state machines composed: proxy goroutines and
// the engine on one side, the operator's model on the other, joined by the
// bounded pause channel and the one message the UI loop has taken from it but
// not yet handled. Callbacks do not panic here, and the operator's model is the
// only caller of Resolve.
module PauseProtocol {
  import opened Common
  import opened Tokens
  import opened PauseTable
  import M = PauseMachine
  import P = Prompt

  const CHANNEL_SIZE: nat := 16

  // The UI is the one Resolve caller.
  const UI: nat := 0

  datatype State = State(
    engine: M.State,
    channel: seq<P.Paused>,
    inflight: Option<P.Paused>,    // received by the wait command, not yet handled
    ui: P.State,
    sending: bool,                 // the UI is inside Resolve, between claim and send
    // history, read by no transition:
    arrived: seq<nat>,             // pauses in the order they entered the channel
    shown: seq<nat>,               // pauses in the order they became active
    decided: seq<Resolution>)      // the operator's decisions in order

  datatype Action =
    | Pause(flow: nat, raw: string, token: Token)
    | Notify(p: nat)
    | Receive
    | Deliver
    | Press(key: P.Key)
    | Decide(key: P.Key)
    | FinishDecision
    | Wake(p: nat)
    | CleanUp(p: nat)

  ghost predicate Init(s: State) {
    && M.Init(s.engine)
    && s.channel == [] && s.inflight == None && !s.sending
    && s.ui.active == None && s.ui.queue == [] && s.ui.editor == P.CLOSED
    && s.arrived == [] && s.shown == [] && s.decided == []
  }

  ghost predicate Enabled(s: State, a: Action) {
    match a
    case Pause(flow, raw, token) => M.Enabled(s.engine, M.Register(flow, raw, token))
    case Notify(p) => M.Enabled(s.engine, M.CallbackReturn(p)) && |s.channel| < CHANNEL_SIZE
    case Receive => s.inflight.None? && s.channel != []
    case Deliver => s.inflight.Some? && !s.sending
    case Press(key) => !s.sending && P.Decision(s.ui, key).None?
    case Decide(key) =>
      !s.sending && P.Decision(s.ui, key).Some? && M.Enabled(s.engine, M.Resolve(UI, 0, Resolution(true, None)))
    case FinishDecision => s.sending && M.Enabled(s.engine, M.Send(UI))
    case Wake(p) => M.Enabled(s.engine, M.Wake(p))
    case CleanUp(p) => M.Enabled(s.engine, M.CleanUp(p))
  }

  function ItemOf(e: M.State, p: nat): P.Paused
    requires p < |e.pauses|
  {
    P.Paused(e.pauses[p].token, e.pauses[p].flow, P.Message(p, e.pauses[p].raw))
  }

  // Completing a pause brings up the head of the queue, if there is one.
  function WithCompleted(s: State): State {
    s.(ui := P.Completed(s.ui),
       sending := false,
       shown := s.shown + if s.ui.queue == [] then [] else [s.ui.queue[0].msg.pause])
  }

  function Notified(s: State, e: M.State, item: P.Paused): State {
    s.(engine := e, channel := s.channel + [item], arrived := s.arrived + [item.msg.pause])
  }

  function Delivered(s: State): State
    requires s.inflight.Some?
  {
    s.(ui := P.Enqueued(s.ui, s.inflight.value),
       inflight := None,
       shown := s.shown + if s.ui.active.Some? then [] else [s.inflight.value.msg.pause])
  }

  ghost function Apply(s: State, a: Action): State
    requires Enabled(s, a)
  {
    match a
    case Pause(flow, raw, token) => s.(engine := M.Apply(s.engine, M.Register(flow, raw, token)))
    case Notify(p) => Notified(s, M.Apply(s.engine, M.CallbackReturn(p)), ItemOf(s.engine, p))
    case Receive => s.(inflight := Some(s.channel[0]), channel := s.channel[1..])
    case Deliver => Delivered(s)
    case Press(key) => s.(ui := P.Pressed(s.ui, key))
    case Decide(key) =>
      var res := P.Decision(s.ui, key).value;
      var token := s.ui.active.value.token;
      var t := s.(engine := M.Apply(s.engine, M.Resolve(UI, token, res)), decided := s.decided + [res]);
      // a failed Resolve is not noticed: the model moves on all the same
      if token in s.engine.pending then t.(sending := true) else WithCompleted(t)
    case FinishDecision => WithCompleted(s.(engine := M.Apply(s.engine, M.Send(UI))))
    case Wake(p) => s.(engine := M.Apply(s.engine, M.Wake(p)))
    case CleanUp(p) => s.(engine := M.Apply(s.engine, M.CleanUp(p)))
  }

  // ---------- the invariant ----------

  // Announced but undecided pauses, nearest to a decision first: the active one,
  // the queue, the one in flight, the channel.
  function Line(s: State): seq<P.Paused> {
    Front(s) + Behind(s)
  }

  function Front(s: State): seq<P.Paused> {
    if s.ui.active.Some? && !s.sending then [s.ui.active.value] else []
  }

  function Behind(s: State): seq<P.Paused> {
    s.ui.queue + (if s.inflight.Some? then [s.inflight.value] else []) + s.channel
  }

  function Ids(items: seq<P.Paused>): (ids: seq<nat>)
    ensures |ids| == |items|
    ensures forall i :: 0 <= i < |ids| ==> ids[i] == items[i].msg.pause
  {
    seq(|items|, i requires 0 <= i < |items| => items[i].msg.pause)
  }

  ghost predicate ItemSound(e: M.State, item: P.Paused) {
    && M.Open(e, item.msg.pause)
    && e.pauses[item.msg.pause].phase == M.Waiting
    && item == ItemOf(e, item.msg.pause)
  }

  ghost predicate LineSound(e: M.State, line: seq<P.Paused>) {
    && (forall i :: 0 <= i < |line| ==> ItemSound(e, line[i]))
    && (forall i, j :: 0 <= i < j < |line| ==> line[i].msg.pause != line[j].msg.pause)
  }

  // Every unresolved pause is still announcing itself or stands in the line.
  ghost predicate LineComplete(e: M.State, line: seq<P.Paused>) {
    forall p: nat :: M.Open(e, p) ==> e.pauses[p].phase == M.Notifying || p in Ids(line)
  }

  ghost predicate NotifyingOpen(e: M.State) {
    forall p :: 0 <= p < |e.pauses| && e.pauses[p].phase == M.Notifying ==> M.Open(e, p)
  }

  ghost predicate HandExact(s: State) {
    && s.engine.inHand.Keys == (if s.sending then {UI} else {})
    && (s.sending ==>
          && s.ui.active.Some?
          && !s.ui.editor.injecting
          && s.decided != []
          && s.engine.inHand[UI] == M.Claim(s.ui.active.value.msg.pause, s.decided[|s.decided| - 1]))
  }

  ghost predicate HistoryExact(s: State) {
    && s.arrived == s.shown + Ids(Behind(s))
    && (s.ui.active.Some? ==> s.shown != [] && s.shown[|s.shown| - 1] == s.ui.active.value.msg.pause)
    && |s.decided| == |s.shown| - |Front(s)|
    && (forall k :: 0 <= k < |s.decided| ==> M.Carries(s.engine, s.shown[k], s.decided[k]))
  }

  // The engine's side of the invariant, for a given line.
  ghost predicate LineFits(e: M.State, line: seq<P.Paused>) {
    LineSound(e, line) && LineComplete(e, line) && NotifyingOpen(e)
  }

  ghost predicate Inv(s: State) {
    && M.Inv(s.engine)
    && P.Inv(s.ui)
    && HandExact(s)
    && LineFits(s.engine, Line(s))
    && HistoryExact(s)
  }

  lemma InIds(line: seq<P.Paused>, p: nat)
    ensures p in Ids(line) <==> exists i :: 0 <= i < |line| && line[i].msg.pause == p
  {
    if i :| 0 <= i < |line| && line[i].msg.pause == p {
      assert Ids(line)[i] == p;
    }
  }

  predicate Neutral(a: M.Action) {
    a.Register? || a.Send? || a.Wake? || a.CleanUp?
  }

  // Steps that neither announce nor resolve a pause leave an open pause as it is
  // and open none but the one they register.
  lemma NeutralKeepsOpen(e: M.State, a: M.Action, p: nat)
    requires M.Inv(e) && M.Enabled(e, a) && Neutral(a) && M.Open(e, p)
    requires e.pauses[p].phase in {M.Notifying, M.Waiting}
    ensures M.Open(M.Apply(e, a), p) && M.Apply(e, a).pauses[p] == e.pauses[p]
  {
    match a {
      case CleanUp(q) =>
        hide M.ClaimsSound, M.NoneStranded, M.CountsExact, M.StatusExact;
        M.CleanUpCloses(e, q, p);
      case Send(caller) => hide M.PendingSound, M.NoneStranded, M.CountsExact, M.StatusExact;
      case _ => hide M.ClaimsSound, M.NoneStranded, M.CountsExact, M.StatusExact;
    }
  }

  lemma NeutralOpensOnlyNew(e: M.State, a: M.Action, p: nat)
    requires M.Inv(e) && M.Enabled(e, a) && Neutral(a) && M.Open(M.Apply(e, a), p)
    ensures p < |e.pauses| ==> M.Open(e, p)
    ensures p < |e.pauses| || M.Apply(e, a).pauses[p].phase == M.Notifying
  {
  }

  lemma NeutralNotifying(e: M.State, a: M.Action, p: nat)
    requires M.Inv(e) && M.Enabled(e, a) && Neutral(a) && NotifyingOpen(e)
    requires M.InPhase(M.Apply(e, a), p, M.Notifying)
    ensures M.Open(M.Apply(e, a), p)
  {
    if p < |e.pauses| {
      assert e.pauses[p].phase == M.Notifying;
      NeutralKeepsOpen(e, a, p);
    }
  }

  lemma LineStays(e: M.State, a: M.Action, line: seq<P.Paused>)
    requires M.Inv(e) && M.Enabled(e, a) && LineFits(e, line) && Neutral(a)
    ensures LineFits(M.Apply(e, a), line)
  {
    var e' := M.Apply(e, a);
    forall i | 0 <= i < |line| ensures ItemSound(e', line[i]) {
      NeutralKeepsOpen(e, a, line[i].msg.pause);
    }
    forall p: nat | M.Open(e', p) && e'.pauses[p].phase != M.Notifying ensures p in Ids(line) {
      NeutralOpensOnlyNew(e, a, p);
      NeutralKeepsOpen(e, a, p);
    }
    forall p: nat | p < |e'.pauses| && e'.pauses[p].phase == M.Notifying ensures M.Open(e', p) {
      NeutralNotifying(e, a, p);
    }
  }

  // Announcing puts the pause at the end of the line.
  lemma LineGrows(e: M.State, p: nat, line: seq<P.Paused>)
    requires M.Inv(e) && M.InPhase(e, p, M.Notifying) && LineFits(e, line)
    ensures LineFits(M.SetPhase(e, p, M.Waiting), line + [ItemOf(e, p)])
  {
    var e', line' := M.SetPhase(e, p, M.Waiting), line + [ItemOf(e, p)];
    assert M.Open(e, p);
    forall i | 0 <= i < |line| ensures ItemSound(e', line[i]) && line[i].msg.pause != p {
      assert ItemSound(e, line[i]);
    }
    assert ItemSound(e', ItemOf(e, p));
    forall q: nat | M.Open(e', q) && e'.pauses[q].phase != M.Notifying ensures q in Ids(line') {
      assert M.Open(e, q);
      InIds(line, q);
      InIds(line', q);
      if q != p {
        var i :| 0 <= i < |line| && line[i].msg.pause == q;
        assert line'[i].msg.pause == q;
      } else {
        assert line'[|line|].msg.pause == q;
      }
    }
    forall q: nat | q < |e'.pauses| && e'.pauses[q].phase == M.Notifying ensures M.Open(e', q) {
      assert M.Open(e, q);
    }
  }

  lemma LineStaysSound(e: M.State, line: seq<P.Paused>, res: Resolution)
    requires M.Inv(e) && LineFits(e, line) && line != []
    ensures forall i :: 0 <= i < |line[1..]| ==> ItemSound(M.Claimed(e, UI, line[0].token, res), line[1..][i])
  {
    assert ItemSound(e, line[0]);
    forall i | 0 <= i < |line[1..]| ensures ItemSound(M.Claimed(e, UI, line[0].token, res), line[1..][i]) {
      assert line[1..][i] == line[i + 1] && ItemSound(e, line[i + 1]);
    }
  }

  // Claiming the first of the line takes it out of the line.
  lemma LineShrinks(e: M.State, line: seq<P.Paused>, res: Resolution)
    requires M.Inv(e) && LineFits(e, line) && line != []
    ensures line[0].token in e.pending && e.pending[line[0].token] == line[0].msg.pause
    ensures LineFits(M.Claimed(e, UI, line[0].token, res), line[1..])
  {
    var rest := line[1..];
    assert ItemSound(e, line[0]);
    var e' := M.Claimed(e, UI, line[0].token, res);
    LineStaysSound(e, line, res);
    forall i, j | 0 <= i < j < |rest| ensures rest[i].msg.pause != rest[j].msg.pause {
      assert rest[i] == line[i + 1] && rest[j] == line[j + 1];
    }
    forall q: nat | M.Open(e', q) && e'.pauses[q].phase != M.Notifying ensures q in Ids(rest) {
      assert M.Open(e, q);
      InIds(line, q);
      InIds(rest, q);
      var i :| 0 <= i < |line| && line[i].msg.pause == q;
      assert i > 0 && rest[i - 1].msg.pause == q;
    }
    forall q: nat | q < |e'.pauses| && e'.pauses[q].phase == M.Notifying ensures M.Open(e', q) {
      assert M.Open(e, q);
    }
  }

  lemma DecisionsStayCarried(s: State, a: M.Action)
    requires M.Inv(s.engine) && HistoryExact(s) && M.Enabled(s.engine, a)
    ensures HistoryExact(s.(engine := M.Apply(s.engine, a)))
  {
    var t := s.(engine := M.Apply(s.engine, a));
    assert Behind(t) == Behind(s) && Front(t) == Front(s);
    forall k | 0 <= k < |s.decided| ensures M.Carries(t.engine, s.shown[k], s.decided[k]) {
      M.CarriedAfter(s.engine, a, s.shown[k], s.decided[k]);
    }
  }

  lemma EngineStepKeepsInv(s: State, a: M.Action)
    requires Inv(s) && M.Enabled(s.engine, a) && (a.Register? || a.Wake? || a.CleanUp?)
    ensures Inv(s.(engine := M.Apply(s.engine, a)))
  {
    M.StepKeepsInv(s.engine, a);
    LineStays(s.engine, a, Line(s));
    DecisionsStayCarried(s, a);
    assert Line(s.(engine := M.Apply(s.engine, a))) == Line(s);
  }

  lemma NotifyKeepsHistory(s: State, e: M.State, item: P.Paused)
    requires HistoryExact(s)
    requires forall k :: 0 <= k < |s.decided| ==> M.Carries(e, s.shown[k], s.decided[k])
    ensures HistoryExact(Notified(s, e, item))
    ensures Line(Notified(s, e, item)) == Line(s) + [item]
  {
    var t := Notified(s, e, item);
    assert Behind(t) == Behind(s) + [item];
    assert Ids(Behind(t)) == Ids(Behind(s)) + [item.msg.pause];
    assert Front(t) == Front(s);
  }

  lemma NotifyKeepsInv(s: State, p: nat)
    requires Inv(s) && Enabled(s, Notify(p))
    ensures Inv(Apply(s, Notify(p)))
  {
    var a := M.CallbackReturn(p);
    M.StepKeepsInv(s.engine, a);
    LineGrows(s.engine, p, Line(s));
    DecisionsStayCarried(s, a);
    hide M.Inv, LineFits, M.Carries, P.Inv, HistoryExact, M.SetPhase;
    NotifyKeepsHistory(s, M.SetPhase(s.engine, p, M.Waiting), ItemOf(s.engine, p));
    hide Line;
  }

  lemma ReceiveKeepsInv(s: State)
    requires Inv(s) && Enabled(s, Receive)
    ensures Inv(Apply(s, Receive))
  {
    assert Behind(Apply(s, Receive)) == Behind(s);
    assert Line(Apply(s, Receive)) == Line(s);
  }

  // Handling the notification moves its pause up without changing the line.
  lemma DeliverKeepsLine(s: State)
    requires HistoryExact(s) && P.Inv(s.ui) && s.inflight.Some? && !s.sending
    ensures HistoryExact(Delivered(s)) && Line(Delivered(s)) == Line(s)
  {
    var t := Delivered(s);
    if s.ui.active.Some? {
      assert Behind(t) == Behind(s);
    } else {
      assert Behind(s) == [s.inflight.value] + Behind(t);
      assert Ids(Behind(s)) == [s.inflight.value.msg.pause] + Ids(Behind(t));
    }
  }

  lemma DeliverKeepsInv(s: State)
    requires Inv(s) && Enabled(s, Deliver)
    ensures Inv(Apply(s, Deliver))
  {
    P.EventKeepsInv(s.ui, P.Notify(s.inflight.value));
    DeliverKeepsLine(s);
  }

  lemma PressKeepsInv(s: State, key: P.Key)
    requires Inv(s) && Enabled(s, Press(key))
    ensures Inv(Apply(s, Press(key)))
  {
    P.EventKeepsInv(s.ui, P.Press(key));
    assert Behind(Apply(s, Press(key))) == Behind(s);
    assert Line(Apply(s, Press(key))) == Line(s);
  }

  function Deciding(s: State, e: M.State, res: Resolution): State {
    s.(engine := e, decided := s.decided + [res], sending := true)
  }

  lemma DecideKeepsHistory(s: State, e: M.State, res: Resolution)
    requires HistoryExact(s) && s.ui.active.Some? && !s.sending
    requires forall k :: 0 <= k < |s.decided| ==> M.Carries(e, s.shown[k], s.decided[k])
    requires M.Carries(e, s.ui.active.value.msg.pause, res)
    ensures HistoryExact(Deciding(s, e, res))
    ensures Line(s) == [s.ui.active.value] + Line(Deciding(s, e, res))
  {
    assert Behind(Deciding(s, e, res)) == Behind(s);
  }

  lemma DecideKeepsInv(s: State, key: P.Key)
    requires Inv(s) && Enabled(s, Decide(key))
    ensures Inv(Apply(s, Decide(key)))
  {
    var item := s.ui.active.value;
    var res := P.Decision(s.ui, key).value;
    assert !s.ui.editor.injecting;
    var e := M.Claimed(s.engine, UI, item.token, res);
    ClaimedForOperator(s, item, res);
    DecideClaims(s, key);
    hide Apply, Enabled, P.Decision, M.Claimed, Deciding;
    DecidingInv(s, e, item, res);
  }

  lemma DecideClaims(s: State, key: P.Key)
    requires Enabled(s, Decide(key)) && s.ui.active.value.token in s.engine.pending
    ensures var res := P.Decision(s.ui, key).value;
      Apply(s, Decide(key)) == Deciding(s, M.Claimed(s.engine, UI, s.ui.active.value.token, res), res)
  {
  }

  lemma DecidingInv(s: State, e: M.State, item: P.Paused, res: Resolution)
    requires P.Inv(s.ui) && HistoryExact(s) && s.ui.active == Some(item) && !s.sending && !s.ui.editor.injecting
    requires M.Inv(e) && LineFits(e, Line(s)[1..]) && e.inHand == map[UI := M.Claim(item.msg.pause, res)]
    requires M.Carries(e, item.msg.pause, res)
    requires forall k :: 0 <= k < |s.decided| ==> M.Carries(e, s.shown[k], s.decided[k])
    ensures Inv(Deciding(s, e, res))
  {
    DecideKeepsHistory(s, e, res);
    hide M.Inv, LineFits, HistoryExact, M.Carries, P.Inv, Line;
    assert Line(s)[1..] == Line(Deciding(s, e, res));
  }

  // What the engine knows once the operator's Resolve has taken the entry.
  lemma ClaimedForOperator(s: State, item: P.Paused, res: Resolution)
    requires Inv(s) && s.ui.active == Some(item) && !s.sending
    ensures var e := M.Claimed(s.engine, UI, item.token, res);
      && item.token in s.engine.pending
      && M.Inv(e) && LineFits(e, Line(s)[1..])
      && e.inHand == map[UI := M.Claim(item.msg.pause, res)]
      && M.Carries(e, item.msg.pause, res)
      && forall k :: 0 <= k < |s.decided| ==> M.Carries(e, s.shown[k], s.decided[k])
  {
    var a := M.Resolve(UI, item.token, res);
    assert Line(s)[0] == item;
    LineShrinks(s.engine, Line(s), res);
    M.StepKeepsInv(s.engine, a);
    DecisionsStayCarried(s, a);
    hide M.Inv, LineFits;
    assert ItemSound(s.engine, item);
  }

  lemma CompletedKeepsHistory(s: State)
    requires HistoryExact(s) && P.Inv(s.ui) && s.sending && s.ui.active.Some?
    ensures HistoryExact(WithCompleted(s)) && Line(WithCompleted(s)) == Line(s)
  {
    if s.ui.queue == [] {
      assert Behind(WithCompleted(s)) == Behind(s);
      hide P.Inv, Ids, M.Carries;
      assert s.shown + [] == s.shown;
    } else {
      QueueMovesUp(s);
      hide P.Inv, Ids, Behind, M.Carries;
      Associates(s.shown, [s.ui.queue[0].msg.pause], Ids(Behind(WithCompleted(s))));
    }
  }

  lemma QueueMovesUp(s: State)
    requires s.ui.queue != []
    ensures Behind(s) == [s.ui.queue[0]] + Behind(WithCompleted(s))
    ensures Ids(Behind(s)) == [s.ui.queue[0].msg.pause] + Ids(Behind(WithCompleted(s)))
  {
  }

  lemma FinishKeepsInv(s: State)
    requires Inv(s) && Enabled(s, FinishDecision)
    ensures Inv(Apply(s, FinishDecision))
  {
    var a := M.Send(UI);
    M.StepKeepsInv(s.engine, a);
    LineStays(s.engine, a, Line(s));
    DecisionsStayCarried(s, a);
    var sent := s.(engine := M.Apply(s.engine, a));
    assert Line(sent) == Line(s);
    CompletedKeepsHistory(sent);
    CompletedKeepsPrompt(s.ui);
    assert sent.engine.inHand.Keys == {};
  }

  lemma CompletedKeepsPrompt(ui: P.State)
    requires P.Inv(ui)
    ensures !ui.editor.injecting ==> P.Inv(P.Completed(ui))
  {
  }

  lemma StepKeepsInv(s: State, a: Action)
    requires Inv(s) && Enabled(s, a)
    ensures Inv(Apply(s, a))
  {
    match a
    case Pause(flow, raw, token) => EngineStepKeepsInv(s, M.Register(flow, raw, token));
    case Notify(p) => NotifyKeepsInv(s, p);
    case Receive => ReceiveKeepsInv(s);
    case Deliver => DeliverKeepsInv(s);
    case Press(key) => PressKeepsInv(s, key);
    case Decide(key) => DecideKeepsInv(s, key);
    case FinishDecision => FinishKeepsInv(s);
    case Wake(p) => EngineStepKeepsInv(s, M.Wake(p));
    case CleanUp(p) => EngineStepKeepsInv(s, M.CleanUp(p));
  }

  // ---------- reachable states ----------

  ghost predicate Run(ss: seq<State>, acts: seq<Action>) {
    && |ss| == |acts| + 1
    && Init(ss[0])
    && forall i :: 0 <= i < |acts| ==> Enabled(ss[i], acts[i]) && ss[i + 1] == Apply(ss[i], acts[i])
  }

  ghost predicate Reachable(s: State) {
    exists ss, acts :: Run(ss, acts) && ss[|acts|] == s
  }

  lemma {:induction false} RunKeepsInv(ss: seq<State>, acts: seq<Action>, i: nat)
    requires Run(ss, acts) && i < |ss|
    ensures Inv(ss[i])
  {
    if i == 0 {
      assert Line(ss[0]) == [] && Behind(ss[0]) == [];
    } else {
      RunKeepsInv(ss, acts, i - 1);
      StepKeepsInv(ss[i - 1], acts[i - 1]);
    }
  }

  lemma ReachableInv(s: State)
    requires Reachable(s)
    ensures Inv(s)
  {
    var ss, acts :| Run(ss, acts) && ss[|acts|] == s;
    RunKeepsInv(ss, acts, |acts|);
  }

  // How often pause p occurs over all the places an unresolved pause can be.
  function Announcing(s: State, p: nat): nat {
    if M.InPhase(s.engine, p, M.Notifying) then 1 else 0
  }

  function Places(s: State, p: nat): nat {
    Announcing(s, p)
      + multiset(Ids(s.channel))[p]
      + multiset(Ids(if s.inflight.Some? then [s.inflight.value] else []))[p]
      + multiset(Ids(s.ui.queue))[p]
      + multiset(Ids(Front(s)))[p]
  }

  lemma {:induction false} CountInDistinct(ids: seq<nat>, p: nat)
    requires forall i, j :: 0 <= i < j < |ids| ==> ids[i] != ids[j]
    ensures multiset(ids)[p] == if p in ids then 1 else 0
  {
    if ids == [] {
    } else {
      var n := |ids| - 1;
      assert ids == ids[..n] + [ids[n]];
      CountInDistinct(ids[..n], p);
    }
  }

  lemma LineDistinct(s: State, p: nat)
    requires LineFits(s.engine, Line(s))
    ensures multiset(Ids(Line(s)))[p] == if p in Ids(Line(s)) then 1 else 0
    ensures p in Ids(Line(s)) <==> M.Open(s.engine, p) && s.engine.pauses[p].phase != M.Notifying
  {
    CountInDistinct(Ids(Line(s)), p);
    InIds(Line(s), p);
    if i :| 0 <= i < |Line(s)| && Line(s)[i].msg.pause == p {
      assert ItemSound(s.engine, Line(s)[i]);
    }
  }

  // Every unresolved pause is in exactly one place - still announcing itself,
  // in the channel, in flight, queued or active - and a resolved one in none.
  lemma UnresolvedInExactlyOnePlace(s: State, p: nat)
    requires Reachable(s)
    ensures Places(s, p) == if M.Open(s.engine, p) then 1 else 0
  {
    ReachableInv(s);
    LineDistinct(s, p);
    PlacesSum(s, p);
  }

  lemma PlacesSum(s: State, p: nat)
    ensures Places(s, p) == Announcing(s, p) + multiset(Ids(Line(s)))[p]
  {
    var flight := if s.inflight.Some? then [s.inflight.value] else [];
    assert Ids(Line(s)) == Ids(Front(s)) + (Ids(s.ui.queue) + Ids(flight) + Ids(s.channel));
  }

  // Whenever the operator decides, the engine holds the token shown for the very
  // pause that is shown, so Resolve succeeds and releases that pause.
  lemma OperatorResolveSucceeds(s: State, key: P.Key)
    requires Reachable(s) && Enabled(s, Decide(key))
    ensures s.ui.active.Some?
    ensures s.ui.active.value.token in s.engine.pending
    ensures s.engine.pending[s.ui.active.value.token] == s.ui.active.value.msg.pause
    ensures s.ui.active.value.msg.pause < |s.engine.pauses|
    ensures s.ui.active.value == ItemOf(s.engine, s.ui.active.value.msg.pause)
  {
    ReachableInv(s);
    assert Line(s)[0] == s.ui.active.value && ItemSound(s.engine, Line(s)[0]);
  }

  // Pauses become active in the order they were announced, and none is lost:
  // what has not been shown yet is still queued, in flight or in the channel.
  lemma ShownInArrivalOrder(s: State)
    requires Reachable(s)
    ensures s.arrived == s.shown + Ids(Behind(s))
    ensures s.shown <= s.arrived
  {
    ReachableInv(s);
  }

  // The k-th decision the operator took goes to the k-th announced pause and to
  // no other: if that goroutine has received anything, it is that decision.
  lemma DecisionsReachTheirPauses(s: State, k: nat)
    requires Reachable(s) && k < |s.decided|
    ensures k < |s.arrived| && M.Carries(s.engine, s.arrived[k], s.decided[k])
    ensures s.engine.pauses[s.arrived[k]].outcome in {None, Some(s.decided[k])}
    ensures s.engine.pauses[s.arrived[k]].phase in {M.Unwinding, M.Done} ==>
      s.engine.pauses[s.arrived[k]].outcome == Some(s.decided[k])
  {
    ReachableInv(s);
    assert s.arrived[k] == s.shown[k];
    var p := s.arrived[k];
    assert M.Carries(s.engine, p, s.decided[k]);
    ReachableAnswered(s, p);
  }

  // No goroutine goes on without an answer.
  lemma ReachableAnswered(s: State, p: nat)
    requires Reachable(s)
    ensures M.Answered(s.engine, p)
  {
    var ss, acts :| Run(ss, acts) && ss[|acts|] == s;
    RunAnswered(ss, acts, |acts|, p);
  }

  lemma {:induction false} RunAnswered(ss: seq<State>, acts: seq<Action>, i: nat, p: nat)
    requires Run(ss, acts) && i < |ss|
    ensures M.Answered(ss[i].engine, p)
  {
    if i > 0 {
      RunAnswered(ss, acts, i - 1, p);
      StepAnswered(ss[i - 1], acts[i - 1], p);
    }
  }

  lemma StepAnswered(s: State, a: Action, p: nat)
    requires Enabled(s, a) && M.Answered(s.engine, p)
    ensures M.Answered(Apply(s, a).engine, p)
  {
    hide P.Completed, P.Enqueued, P.Pressed, P.Decision;
    match a
    case Pause(flow, raw, token) => M.AnsweredStays(s.engine, M.Register(flow, raw, token), p);
    case Notify(q) => M.AnsweredStays(s.engine, M.CallbackReturn(q), p);
    case FinishDecision => M.AnsweredStays(s.engine, M.Send(UI), p);
    case Wake(q) => M.AnsweredStays(s.engine, M.Wake(q), p);
    case CleanUp(q) => M.AnsweredStays(s.engine, M.CleanUp(q), p);
    case _ =>
  }

  // What a decision is: the drop key's is to drop, the forward key's to forward
  // the message unchanged, and the editor's to forward its text.
  lemma WhatTheOperatorDecides(s: State, key: P.Key)
    requires Enabled(s, Decide(key))
    ensures s.ui.active.Some?
    ensures Apply(s, Decide(key)).decided == s.decided +
      [if s.ui.editor.editing then Resolution(false, Some(s.ui.editor.text.content))
       else Resolution(key.traffic.PausedDrop?, None)]
    ensures if s.ui.editor.editing then key.editor.Send? else key.traffic.PausedForward? || key.traffic.PausedDrop?
  {
    P.KeysThatDecide(s.ui, key);
  }

  // With a pause on show and the traffic pane listening, both keys decide it.
  lemma OperatorCanDecide(s: State, key: P.Key)
    requires Reachable(s) && s.ui.active.Some? && !s.sending && P.TrafficListens(s.ui)
    requires !key.isLeader && (key.traffic.PausedForward? || key.traffic.PausedDrop?)
    ensures Enabled(s, Decide(key))
  {
    ReachableInv(s);
    P.KeysThatDecide(s.ui, key);
    hide LineFits, HistoryExact, P.Inv, M.Inv;
  }

  // The state after these actions in turn, if each is possible.
  ghost function After(s: State, acts: seq<Action>): Option<State>
    decreases |acts|
  {
    if acts == [] then Some(s)
    else if Enabled(s, acts[0]) then After(Apply(s, acts[0]), acts[1..])
    else None
  }

  lemma AfterFirst(s: State, a: Action, rest: seq<Action>)
    requires Enabled(s, a)
    ensures After(s, [a] + rest) == After(Apply(s, a), rest)
  {
    assert ([a] + rest)[1..] == rest;
  }

  lemma AfterNothing(s: State)
    ensures After(s, []) == Some(s)
  {
  }

  // A pause's whole way through an idle system: announced, received, shown. The
  // operator's next key can then decide it, and the goroutine, woken with that
  // decision, goes on to its end.
  lemma PauseIsShown(s: State, flow: nat, raw: string, token: Token)
    requires Reachable(s) && M.Enabled(s.engine, M.Register(flow, raw, token))
    requires s.ui.active.None? && s.inflight.None? && s.channel == [] && !s.sending && !s.ui.editor.editing
    requires !s.ui.modes.showHelp && !s.ui.modes.repeating && !s.ui.modes.viewing
    ensures var p := |s.engine.pauses|;
      var end := After(s, [Pause(flow, raw, token)] + ([Notify(p)] + ([Receive] + ([Deliver] + []))));
      && end.Some? && end.value.ui.active == Some(P.Paused(token, flow, P.Message(p, raw)))
      && P.TrafficListens(end.value.ui) && !end.value.sending && end.value.engine.inHand == map[]
      && p < |end.value.engine.pauses| && end.value.engine.pauses[p].phase == M.Waiting
  {
    ReachableInv(s);
    var p := |s.engine.pauses|;
    var item := P.Paused(token, flow, P.Message(p, raw));
    assert s.ui.queue == [] && s.engine.inHand.Keys == {};
    RegisteredEngine(s.engine, flow, raw, token);
    P.ShownPauseGetsTheKeys(s.ui, item);
    var e1 := M.Registered(s.engine, flow, raw, token);
    var s2 := Notified(s.(engine := e1), M.SetPhase(e1, p, M.Waiting), item);
    assert s2.channel == [item];
    hide After, Inv, P.TrafficListens, M.Registered, M.SetPhase, ItemOf, Reachable;
    AfterFirst(s, Pause(flow, raw, token), [Notify(p)] + ([Receive] + ([Deliver] + [])));
    AfterFirst(s.(engine := e1), Notify(p), [Receive] + ([Deliver] + []));
    AfterNotified(s2, item);
  }

  lemma RegisteredEngine(e: M.State, flow: nat, raw: string, token: Token)
    requires M.Enabled(e, M.Register(flow, raw, token))
    ensures var p, e1 := |e.pauses|, M.Registered(e, flow, raw, token);
      && M.Enabled(e1, M.CallbackReturn(p)) && p < |e1.pauses|
      && ItemOf(e1, p) == P.Paused(token, flow, P.Message(p, raw))
      && M.SetPhase(e1, p, M.Waiting).inHand == e.inHand
      && M.InPhase(M.SetPhase(e1, p, M.Waiting), p, M.Waiting)
  {
  }

  lemma AfterNotified(s: State, item: P.Paused)
    requires s.channel == [item] && s.inflight.None? && !s.sending
    ensures After(s, [Receive] + ([Deliver] + [])) ==
      Some(Delivered(s.(inflight := Some(item), channel := [])))
  {
    var s3 := s.(inflight := Some(item), channel := []);
    assert s.channel[1..] == [];
    hide After, Delivered;
    AfterFirst(s, Receive, [Deliver] + []);
    AfterFirst(s3, Deliver, []);
    AfterNothing(Delivered(s3));
  }

  lemma ShownPauseIsDecided(s: State, key: P.Key)
    requires Reachable(s) && s.ui.active.Some? && !s.sending && P.TrafficListens(s.ui)
    requires !key.isLeader && (key.traffic.PausedForward? || key.traffic.PausedDrop?)
    ensures var p := s.ui.active.value.msg.pause;
      var end := After(s, [Decide(key)] + ([FinishDecision] + ([Wake(p)] + ([CleanUp(p)] + []))));
      && end.Some? && p < |end.value.engine.pauses|
      && end.value.engine.pauses[p].phase == M.Done
      && end.value.engine.pauses[p].outcome == Some(Resolution(key.traffic.PausedDrop?, None))
  {
    var p, token := s.ui.active.value.msg.pause, s.ui.active.value.token;
    var res := Resolution(key.traffic.PausedDrop?, None);
    ReachableInv(s);
    OperatorCanDecide(s, key);
    OperatorResolveSucceeds(s, key);
    P.KeysThatDecide(s.ui, key);
    ShownIsWaiting(s);
    DecideClaims(s, key);
    DecidedEngine(s.engine, p, token, res);
    hide After, Inv, P.TrafficListens, P.Completed, P.Decision, Reachable, M.Claimed;
    var e1 := M.Claimed(s.engine, UI, token, res);
    var s1 := Deciding(s, e1, res);
    var s2 := WithCompleted(s1.(engine := M.Sent(e1, UI)));
    AfterFirst(s, Decide(key), [FinishDecision] + ([Wake(p)] + ([CleanUp(p)] + [])));
    AfterFirst(s1, FinishDecision, [Wake(p)] + ([CleanUp(p)] + []));
    AfterDecision(s2, p);
  }

  // The operator's side moves as the prompt does on its own: by the key pressed,
  // by the notification delivered, and by a decision once it is through.
  lemma OperatorIsThePrompt(s: State, a: Action)
    requires Reachable(s) && Enabled(s, a)
    ensures match a
      case Press(key) => Apply(s, a) == s.(ui := P.After(s.ui, P.Press(key)))
      case Deliver => s.inflight.Some? && Apply(s, a).ui == P.After(s.ui, P.Notify(s.inflight.value))
      case Decide(key) =>
        && Enabled(Apply(s, a), FinishDecision)
        && Apply(Apply(s, a), FinishDecision).ui == P.After(s.ui, P.Press(key))
      case FinishDecision => true
      case _ => Apply(s, a).ui == s.ui
  {
    match a
    case Decide(key) => DecisionIsThePrompts(s, key);
    case _ => hide P.Completed, P.Moved, P.Decision, P.Activated, Reachable;
  }

  lemma DecisionIsThePrompts(s: State, key: P.Key)
    requires Reachable(s) && Enabled(s, Decide(key))
    ensures Enabled(Apply(s, Decide(key)), FinishDecision)
    ensures Apply(Apply(s, Decide(key)), FinishDecision).ui == P.After(s.ui, P.Press(key))
  {
    ReachableInv(s);
    OperatorResolveSucceeds(s, key);
    DecideClaims(s, key);
    ShownIsWaiting(s);
    assert s.engine.inHand == map[] && P.After(s.ui, P.Press(key)) == P.Completed(s.ui);
    var p, token, res := s.ui.active.value.msg.pause, s.ui.active.value.token, P.Decision(s.ui, key).value;
    hide P.Completed, P.Moved, P.Decision, P.After, Inv, Reachable, Apply, Enabled;
    DecidedEngine(s.engine, p, token, res);
    FinishedUI(Deciding(s, M.Claimed(s.engine, UI, token, res), res));
  }

  lemma FinishedUI(s: State)
    requires s.sending && M.Enabled(s.engine, M.Send(UI))
    ensures Enabled(s, FinishDecision) && Apply(s, FinishDecision).ui == P.Completed(s.ui)
  {
  }

  // The engine's side of it.
  lemma DecidedEngine(e: M.State, p: nat, token: Token, res: Resolution)
    requires e.inHand == map[] && M.Open(e, p) && e.pauses[p].token == token
    requires e.pauses[p].phase == M.Waiting && e.pauses[p].buffer.None?
    ensures var e1 := M.Claimed(e, UI, token, res);
      && M.Enabled(e1, M.Send(UI))
      && var e2 := M.Sent(e1, UI); M.Enabled(e2, M.Wake(p)) && e2.pauses[p].buffer == Some(res)
  {
  }

  lemma AfterDecision(s: State, p: nat)
    requires M.Enabled(s.engine, M.Wake(p))
    ensures var end := After(s, [Wake(p)] + ([CleanUp(p)] + []));
      && end.Some? && p < |end.value.engine.pauses| && end.value.engine.pauses[p].phase == M.Done
      && end.value.engine.pauses[p].outcome == s.engine.pauses[p].buffer
  {
    var e := M.Woken(s.engine, p);
    hide After;
    AfterFirst(s, Wake(p), [CleanUp(p)] + []);
    AfterFirst(s.(engine := e), CleanUp(p), []);
    AfterNothing(s.(engine := M.Cleaned(e, p)));
  }

  lemma ShownIsWaiting(s: State)
    requires Inv(s) && s.ui.active.Some? && !s.sending
    ensures ItemSound(s.engine, s.ui.active.value)
    ensures s.engine.pauses[s.ui.active.value.msg.pause].buffer.None?
  {
    assert Line(s)[0] == s.ui.active.value;
    assert ItemSound(s.engine, Line(s)[0]);
  }

  // What is on show for a pause is what its goroutine paused with: the text, the
  // flow and the token.
  lemma ShownIsWhatWasPaused(ss: seq<State>, acts: seq<Action>, i: nat, j: nat)
    requires Run(ss, acts) && i < |acts| && acts[i].Pause? && i < j < |ss|
    requires !ss[j].sending && ss[j].ui.active.Some?
    requires ss[j].ui.active.value.msg.pause == |ss[i].engine.pauses|
    ensures ss[j].ui.active.value == P.Paused(
      acts[i].token, acts[i].flow, P.Message(|ss[i].engine.pauses|, acts[i].raw))
  {
    var p := |ss[i].engine.pauses|;
    RunKeepsInv(ss, acts, j);
    assert ss[i + 1] == Apply(ss[i], acts[i]);
    PausedAs(ss, acts, i + 1, j, p);
    assert Line(ss[j])[0] == ss[j].ui.active.value && ItemSound(ss[j].engine, Line(ss[j])[0]);
  }

  lemma {:induction false} PausedAs(ss: seq<State>, acts: seq<Action>, i: nat, j: nat, p: nat)
    requires Run(ss, acts) && i <= j < |ss| && p < |ss[i].engine.pauses|
    ensures p < |ss[j].engine.pauses| && M.SameIdentity(ss[i].engine.pauses[p], ss[j].engine.pauses[p])
    decreases j - i
  {
    if i < j {
      PausedAs(ss, acts, i, j - 1, p);
      assert ss[j] == Apply(ss[j - 1], acts[j - 1]);
      StepKeepsIdentity(ss[j - 1], acts[j - 1], p);
    }
  }

  lemma StepKeepsIdentity(s: State, a: Action, p: nat)
    requires Enabled(s, a) && p < |s.engine.pauses|
    ensures p < |Apply(s, a).engine.pauses| && M.SameIdentity(s.engine.pauses[p], Apply(s, a).engine.pauses[p])
  {
    hide P.Completed, P.Enqueued, P.Pressed, P.Decision;
  }

  // The protocol waits for nothing but the operator: if no goroutine, channel or
  // UI step is possible, then either every pause has finished or one is on show.
  lemma OnlyTheOperatorIsAwaited(s: State)
    requires Reachable(s)
    requires forall p :: !Enabled(s, Notify(p)) && !Enabled(s, Wake(p)) && !Enabled(s, CleanUp(p))
    requires !Enabled(s, Receive) && !Enabled(s, Deliver) && !Enabled(s, FinishDecision)
    ensures s.ui.active.Some? || forall p :: 0 <= p < |s.engine.pauses| ==> s.engine.pauses[p].phase == M.Done
  {
    ReachableInv(s);
    assert s.channel == [] && s.inflight == None;
    if s.sending { SendIsEnabled(s); }
    hide Reachable;
    if s.ui.active.None? {
      hide Inv, Enabled;
      forall p | 0 <= p < |s.engine.pauses| ensures s.engine.pauses[p].phase == M.Done {
        assert !Enabled(s, Notify(p)) && !Enabled(s, Wake(p)) && !Enabled(s, CleanUp(p));
        StuckIsDone(s, p);
      }
    }
  }

  lemma StuckIsDone(s: State, p: nat)
    requires Inv(s) && s.channel == [] && s.inflight == None && !s.sending && s.ui.active.None?
    requires p < |s.engine.pauses| && !Enabled(s, Notify(p)) && !Enabled(s, Wake(p)) && !Enabled(s, CleanUp(p))
    ensures s.engine.pauses[p].phase == M.Done
  {
    hide Inv, Enabled;
    StuckPhase(s, p);
    if s.engine.pauses[p].phase == M.Waiting {
      NotWaitingUnresolved(s, p);
    }
  }

  lemma StuckPhase(s: State, p: nat)
    requires s.channel == []
    requires p < |s.engine.pauses| && !Enabled(s, Notify(p)) && !Enabled(s, Wake(p)) && !Enabled(s, CleanUp(p))
    ensures s.engine.pauses[p].phase == M.Done
         || (s.engine.pauses[p].phase == M.Waiting && s.engine.pauses[p].buffer.None?)
  {
  }

  // Steps of goroutines, the channel and the UI loop: all but a new pause and
  // what the operator does.
  predicate Machine(a: Action) {
    a.Notify? || a.Receive? || a.Deliver? || a.FinishDecision? || a.Wake? || a.CleanUp?
  }

  // The most steps a pause has still to take, its way through the channel to the
  // UI included, once its decision is there.
  function StepsLeft(phase: M.Phase): nat {
    match phase
    case Notifying => 5
    case Waiting => 2
    case Unwinding => 1
    case Done => 0
  }

  function Work(pauses: seq<M.Pause>): nat {
    if pauses == [] then 0
    else Work(pauses[..|pauses| - 1]) + StepsLeft(pauses[|pauses| - 1].phase)
  }

  function Measure(s: State): nat {
    Work(s.engine.pauses) + 2 * |s.channel| + (if s.inflight.Some? then 1 else 0) + if s.sending then 1 else 0
  }

  lemma {:induction false} WorkAfter(pauses: seq<M.Pause>, p: nat, x: M.Pause)
    requires p < |pauses|
    ensures Work(pauses[p := x]) == Work(pauses) - StepsLeft(pauses[p].phase) + StepsLeft(x.phase)
  {
    var n := |pauses| - 1;
    if p == n {
      assert pauses[p := x][..n] == pauses[..n];
    } else {
      assert pauses[p := x][..n] == pauses[..n][p := x];
      WorkAfter(pauses[..n], p, x);
    }
  }

  lemma MachineStepLowers(s: State, a: Action)
    requires Enabled(s, a) && Machine(a)
    ensures Measure(Apply(s, a)) < Measure(s)
  {
    hide Work, P.Completed, P.Enqueued;
    var pauses, after := s.engine.pauses, Apply(s, a).engine.pauses;
    match a
    case Notify(p) => WorkAfter(pauses, p, after[p]);
    case Wake(p) => WorkAfter(pauses, p, after[p]);
    case CleanUp(p) => WorkAfter(pauses, p, after[p]);
    case FinishDecision =>
      var p := s.engine.inHand[UI].pause;
      WorkAfter(pauses, p, after[p]);
    case Receive =>
    case Deliver =>
  }

  // The machine runs out of steps: from any state on, however its steps are
  // chosen, at most Measure of them follow each other before the operator acts
  // or a new pause comes. With OnlyTheOperatorIsAwaited: a pause is then on show,
  // or every pause has finished.
  lemma {:induction false} MachineRunsOut(ss: seq<State>, acts: seq<Action>)
    requires |ss| == |acts| + 1
    requires forall i :: 0 <= i < |acts| ==>
      Machine(acts[i]) && Enabled(ss[i], acts[i]) && ss[i + 1] == Apply(ss[i], acts[i])
    ensures |acts| + Measure(ss[|acts|]) <= Measure(ss[0])
    decreases |acts|
  {
    hide Enabled, Apply, Machine, Measure;
    if acts != [] {
      var n := |acts| - 1;
      MachineStepLowers(ss[n], acts[n]);
      MachineRunsOut(ss[..n + 1], acts[..n]);
    }
  }

  lemma SendIsEnabled(s: State)
    requires Inv(s) && s.sending
    ensures Enabled(s, FinishDecision)
  {
    hide LineFits, HistoryExact, P.Inv;
  }

  // With nothing on its way and nothing on show, no unresolved pause is waiting.
  lemma NotWaitingUnresolved(s: State, p: nat)
    requires Inv(s) && s.channel == [] && s.inflight == None && !s.sending && s.ui.active.None?
    requires p < |s.engine.pauses| && s.engine.pauses[p].phase == M.Waiting
    ensures s.engine.pauses[p].buffer.Some?
  {
    assert Line(s) == [];
    assert LineComplete(s.engine, Line(s));
    assert p !in Ids(Line(s));
    assert !M.HeldByCaller(s.engine, p);
    hide LineFits, HistoryExact, P.Inv, LineComplete;
  }
}
