// The operator's side of interception: one active pause, a queue behind it, the
// editor that can be open on it, and the modal states that decide which handler
// a key reaches. Pure functions give the meaning of every event; the class Model
// is the object the source updates in place, proved against them.
module Prompt {
  import opened Common
  import opened Tokens
  import opened PauseTable
  import opened Engine
  import ContentLength

  // The message held by a pause. `pause` is the identity of that pause, kept only
  // to say later whose message an edited text came from.
  datatype Message = Message(pause: nat, raw: string)

  datatype Paused = Paused(token: Token, flow: nat, msg: Message)

  // The editor's text, with the pause whose message seeded it.
  datatype Text = Text(origin: Option<nat>, content: string)

  datatype Focus = Terminal | Traffic

  datatype Editor = Editor(editing: bool, injecting: bool, text: Text)

  const CLOSED := Editor(false, false, Text(None, ""))

  // Which handler has the keyboard, apart from the editor.
  datatype Modes = Modes(
    focus: Focus,
    pendingLeader: bool,
    showHelp: bool,
    repeating: bool,
    filtering: bool,
    cmdline: bool,
    viewing: bool)

  datatype State = State(active: Option<Paused>, queue: seq<Paused>, editor: Editor, modes: Modes)

  datatype EditorAction = Quit | Send | FixLength | Cancel | Edit(content: string)

  datatype TrafficAction =
    | PausedEdit | PausedForward | PausedDrop
    | Inject(live: bool)   // live: a live WebSocket session is selected
    | OpenCommand | OpenFilter | OpenDetail(selected: bool) | OpenHelp | OpenRepeater(repeatable: bool)
    | NoAction

  datatype LeaderAction = PaneSwitch | HelpToggle | NoLeaderAction

  // A key press: what the keymap makes of it in each context, whether it is the
  // leader, and whether it closes an overlay or text input that has the keyboard.
  datatype Key = Key(
    editor: EditorAction,
    traffic: TrafficAction,
    leader: LeaderAction,
    isLeader: bool,
    closes: bool,
    commandOpensHelp: bool)

  // ---------- meaning of the events ----------

  function Activated(s: State, item: Paused): State {
    s.(active := Some(item),
       modes := s.modes.(focus := Traffic, pendingLeader := false, cmdline := false, filtering := false))
  }

  function Enqueued(s: State, item: Paused): State {
    if s.active.Some? then s.(queue := s.queue + [item]) else Activated(s, item)
  }

  function Completed(s: State): State {
    var cleared := s.(active := None, editor := s.editor.(editing := false, text := Text(None, "")));
    if s.queue == [] then cleared
    else Activated(cleared.(queue := s.queue[1..]), s.queue[0])
  }

  predicate OverlayOpen(m: Modes) {
    m.showHelp || m.repeating
  }

  predicate InputOpen(m: Modes) {
    m.filtering || m.cmdline || m.viewing
  }

  // The key reaches the traffic pane's action table.
  predicate AtTraffic(s: State, k: Key) {
    && !OverlayOpen(s.modes) && !s.editor.editing && !InputOpen(s.modes)
    && !s.modes.pendingLeader && !k.isLeader && s.modes.focus == Traffic
  }

  predicate AtEditor(s: State) {
    !OverlayOpen(s.modes) && s.editor.editing
  }

  // The resolution a key press sends for the active pause, if it sends one.
  function Decision(s: State, k: Key): Option<Resolution> {
    if s.active.None? then None
    else if AtEditor(s) && !s.editor.injecting && k.editor.Send? then
      Some(Resolution(false, Some(s.editor.text.content)))
    else if AtTraffic(s, k) && k.traffic.PausedForward? then Some(Resolution(false, None))
    else if AtTraffic(s, k) && k.traffic.PausedDrop? then Some(Resolution(true, None))
    else None
  }

  function Edited(e: Editor, act: EditorAction): Editor {
    match act
    case Quit => e
    case Send => if e.injecting then e.(editing := false, injecting := false) else e
    case FixLength => if e.injecting then e else e.(text := Text(e.text.origin, ContentLength.Fixed(e.text.content)))
    case Cancel => e.(editing := false, injecting := false)
    case Edit(content) => e.(text := Text(e.text.origin, content))
  }

  function Opened(m: Modes, act: TrafficAction): Modes {
    match act
    case OpenCommand => m.(cmdline := true)
    case OpenFilter => m.(filtering := true)
    case OpenDetail(selected) => m.(viewing := selected)
    case OpenHelp => m.(showHelp := true)
    case OpenRepeater(repeatable) => m.(repeating := repeatable)
    case _ => m
  }

  function LeaderPressed(m: Modes, k: Key): Modes {
    var t := m.(pendingLeader := false);
    if k.isLeader then t
    else match k.leader
      case PaneSwitch => t.(focus := if m.focus == Terminal then Traffic else Terminal)
      case HelpToggle => t.(showHelp := true)
      case NoLeaderAction => t
  }

  // The overlays and text inputs that take the keyboard before the panes do.
  function OverlayPressed(m: Modes, k: Key): Modes {
    if m.showHelp then m.(showHelp := !k.closes) else m.(repeating := !k.closes)
  }

  function InputPressed(m: Modes, k: Key): Modes {
    if m.filtering then m.(filtering := !k.closes)
    else if m.cmdline then m.(cmdline := !k.closes, showHelp := k.closes && k.commandOpensHelp)
    else m.(viewing := !k.closes)
  }

  function PanePressed(m: Modes, k: Key): Modes {
    if m.pendingLeader then LeaderPressed(m, k)
    else if k.isLeader then m.(pendingLeader := true)
    else if m.focus == Terminal then m
    else Opened(m, k.traffic)
  }

  function PaneEdited(s: State, act: TrafficAction): Editor {
    match act
    case PausedEdit =>
      if s.active.None? then s.editor
      else s.editor.(editing := true, text := Text(Some(s.active.value.msg.pause), s.active.value.msg.raw))
    case Inject(live) => if live then Editor(true, true, Text(None, "")) else s.editor
    case _ => s.editor
  }

  // A key press that sends no decision.
  function Moved(s: State, k: Key): State {
    if OverlayOpen(s.modes) then s.(modes := OverlayPressed(s.modes, k))
    else if s.editor.editing then s.(editor := Edited(s.editor, k.editor))
    else if InputOpen(s.modes) then s.(modes := InputPressed(s.modes, k))
    else if AtTraffic(s, k) then s.(editor := PaneEdited(s, k.traffic), modes := Opened(s.modes, k.traffic))
    else s.(modes := PanePressed(s.modes, k))
  }

  function Pressed(s: State, k: Key): State {
    if Decision(s, k).Some? then Completed(s) else Moved(s, k)
  }

  // ---------- what holds between events ----------

  ghost predicate Inv(s: State) {
    && (s.editor.injecting ==> s.editor.editing)
    && (s.editor.editing && !s.editor.injecting ==>
          s.active.Some? && s.editor.text.origin == Some(s.active.value.msg.pause))
    && (s.active.None? ==> s.queue == [])
  }

  datatype Event = Press(key: Key) | Notify(item: Paused)

  function After(s: State, e: Event): State {
    match e
    case Press(key) => Pressed(s, key)
    case Notify(item) => Enqueued(s, item)
  }

  function AfterAll(s: State, es: seq<Event>): State {
    if es == [] then s else After(AfterAll(s, es[..|es| - 1]), es[|es| - 1])
  }

  lemma EventKeepsInv(s: State, e: Event)
    requires Inv(s)
    ensures Inv(After(s, e))
  {
  }

  // Over any run of keys and notifications from a fresh model: composing an
  // injected frame happens in an open editor; an open editor that is not
  // composing one belongs to the active pause; and whatever edited text a key
  // sends was seeded by the message of the very pause it resolves.
  lemma {:induction false} EditorBelongsToActivePause(s: State, es: seq<Event>, k: Key)
    requires Inv(s)
    ensures var t := AfterAll(s, es);
      && (t.editor.injecting ==> t.editor.editing)
      && (t.editor.editing && !t.editor.injecting ==> t.active.Some?)
      && (Decision(t, k).Some? && Decision(t, k).value.edited.Some? ==>
            && t.active.Some?
            && t.editor.text.origin == Some(t.active.value.msg.pause)
            && Decision(t, k).value.edited == Some(t.editor.text.content))
  {
    AfterAllKeepsInv(s, es);
  }

  lemma {:induction false} AfterAllKeepsInv(s: State, es: seq<Event>)
    requires Inv(s)
    ensures Inv(AfterAll(s, es))
  {
    if es == [] {
    } else {
      AfterAllKeepsInv(s, es[..|es| - 1]);
      EventKeepsInv(AfterAll(s, es[..|es| - 1]), es[|es| - 1]);
    }
  }

  // However many notifications arrive while a pause is active, they only
  // lengthen the queue, in order; with no active pause they still leave an open
  // editor and its text alone.
  lemma {:induction false} NotificationsOnlyQueue(s: State, items: seq<Paused>)
    ensures s.active.Some? ==> AfterAll(s, Notifications(items)) == s.(queue := s.queue + items)
    ensures AfterAll(s, Notifications(items)).editor == s.editor
    decreases |items|
  {
    if items == [] {
    } else {
      var n := |items| - 1;
      assert Notifications(items)[..n] == Notifications(items[..n]);
      NotificationsOnlyQueue(s, items[..n]);
      assert items == items[..n] + [items[n]];
      assert s.queue + items == (s.queue + items[..n]) + [items[n]];
    }
  }

  function Notifications(items: seq<Paused>): seq<Event> {
    seq(|items|, i requires 0 <= i < |items| => Notify(items[i]))
  }

  // Taking a decision on every pause in turn, with nothing else pressed, shows
  // them in arrival order: after the active pause comes the head of the queue.
  lemma {:induction false} QueueServedInOrder(s: State, n: nat)
    requires s.active.Some? && n <= |s.queue|
    ensures CompletedTimes(s, n).active == Some(([s.active.value] + s.queue)[n])
    ensures CompletedTimes(s, n).queue == s.queue[n..]
  {
    if n == 0 {
    } else {
      QueueServedInOrder(s, n - 1);
    }
  }

  function CompletedTimes(s: State, n: nat): State {
    if n == 0 then s else Completed(CompletedTimes(s, n - 1))
  }

  // ---------- what the keys do ----------

  // The keys that decide the pause on show, and what each decides: with the
  // traffic pane listening, forward and drop; in an editor that is not composing
  // a frame, send. No other key decides anything.
  lemma KeysThatDecide(s: State, k: Key)
    ensures s.active.None? || s.modes.showHelp || s.modes.repeating ==> Decision(s, k) == None
    ensures s.active.Some? && !s.modes.showHelp && !s.modes.repeating && s.editor.editing ==>
      Decision(s, k) ==
        if k.editor == Send && !s.editor.injecting then Some(Resolution(false, Some(s.editor.text.content))) else None
    ensures !s.editor.editing && !(TrafficListens(s) && !k.isLeader) ==> Decision(s, k) == None
    ensures s.active.Some? && TrafficListens(s) && !k.isLeader ==>
      Decision(s, k) == match k.traffic
        case PausedForward => Some(Resolution(false, None))
        case PausedDrop => Some(Resolution(true, None))
        case _ => None
  {
  }

  // No overlay, text input, editor or pending leader stands before the pane.
  predicate TrafficListens(s: State) {
    && s.modes.focus == Traffic && !s.modes.pendingLeader && !s.editor.editing
    && !s.modes.showHelp && !s.modes.repeating
    && !s.modes.filtering && !s.modes.cmdline && !s.modes.viewing
  }

  // A pause that comes on show, from a notification or from the queue, takes the
  // keyboard from the text inputs and the terminal: unless an overlay or the
  // detail view is open, the next key that is not the leader can decide it.
  lemma ShownPauseGetsTheKeys(s: State, item: Paused)
    requires s.active.None? && s.queue == [] && !s.editor.editing
    requires !s.modes.showHelp && !s.modes.repeating && !s.modes.viewing
    ensures var t := After(s, Notify(item)); t.active == Some(item) && t.queue == [] && TrafficListens(t)
  {
  }

  lemma NextPauseGetsTheKeys(s: State, k: Key)
    requires Decision(s, k).Some? && s.queue != []
    ensures var t := After(s, Press(k));
      && t.active == Some(s.queue[0]) && t.queue == s.queue[1..]
      && !t.editor.editing && t.editor.text == Text(None, "")
      && (!s.modes.viewing ==> TrafficListens(t))
  {
  }

  lemma LastPauseLeavesNothing(s: State, k: Key)
    requires Decision(s, k).Some? && s.queue == []
    ensures var t := After(s, Press(k));
      t.active.None? && t.queue == [] && !t.editor.editing && t.editor.text == Text(None, "") && t.modes == s.modes
  {
  }

  // The keys of an open editor, when they decide nothing.
  lemma EditorKeys(s: State, k: Key)
    requires s.editor.editing && !s.modes.showHelp && !s.modes.repeating && Decision(s, k).None?
    ensures var e := s.editor; After(s, Press(k)) == s.(editor := match k.editor
      case Edit(content) => Editor(true, e.injecting, Text(e.text.origin, content))
      case FixLength =>
        if e.injecting then e
        else Editor(true, false, Text(e.text.origin, ContentLength.Fixed(e.text.content)))
      case Cancel => Editor(false, false, e.text)
      case Send => if e.injecting then Editor(false, false, e.text) else e
      case Quit => e)
  {
  }

  // The keys of the traffic pane that decide nothing: the editor opens on the
  // very text of the pause on show, a live session is composed for, and the
  // overlays and inputs open; with no pause on show the pause keys do nothing.
  lemma TrafficKeys(s: State, k: Key)
    requires TrafficListens(s) && !k.isLeader && Decision(s, k).None?
    ensures After(s, Press(k)).active == s.active && After(s, Press(k)).queue == s.queue
    ensures After(s, Press(k)).editor == match k.traffic
      case PausedEdit =>
        if s.active.None? then s.editor
        else Editor(true, s.editor.injecting, Text(Some(s.active.value.msg.pause), s.active.value.msg.raw))
      case Inject(live) => if live then Editor(true, true, Text(None, "")) else s.editor
      case _ => s.editor
    ensures After(s, Press(k)).modes == match k.traffic
      case OpenCommand => s.modes.(cmdline := true)
      case OpenFilter => s.modes.(filtering := true)
      case OpenDetail(selected) => if selected then s.modes.(viewing := true) else s.modes
      case OpenHelp => s.modes.(showHelp := true)
      case OpenRepeater(repeatable) => if repeatable then s.modes.(repeating := true) else s.modes
      case _ => s.modes
  {
  }

  // The leader waits for one key, which it gives a meaning: the other pane, the
  // help, or - the leader again, or any other key - nothing.
  lemma LeaderKeys(s: State, leader: Key, k: Key)
    requires !s.modes.pendingLeader && !s.editor.editing && !s.modes.showHelp && !s.modes.repeating
    requires !s.modes.filtering && !s.modes.cmdline && !s.modes.viewing && leader.isLeader
    ensures After(s, Press(leader)) == s.(modes := s.modes.(pendingLeader := true))
    ensures var t, m := After(After(s, Press(leader)), Press(k)), s.modes;
      t == s.(modes :=
        if k.isLeader || k.leader == NoLeaderAction then m
        else if k.leader == HelpToggle then m.(showHelp := true)
        else m.(focus := if m.focus == Terminal then Traffic else Terminal))
  {
  }

  // With the terminal in front, keys are the terminal's own.
  lemma TerminalKeys(s: State, k: Key)
    requires s.modes.focus == Terminal && !s.modes.pendingLeader && !s.editor.editing && !k.isLeader
    requires !s.modes.showHelp && !s.modes.repeating && !s.modes.filtering && !s.modes.cmdline && !s.modes.viewing
    ensures After(s, Press(k)) == s
  {
  }

  // An overlay has the keyboard until it is closed, then a text input.
  lemma OverlayKeys(s: State, k: Key)
    requires s.modes.showHelp || s.modes.repeating
    ensures After(s, Press(k)) ==
      if !k.closes then s
      else if s.modes.showHelp then s.(modes := s.modes.(showHelp := false))
      else s.(modes := s.modes.(repeating := false))
  {
  }

  lemma InputKeys(s: State, k: Key)
    requires !s.modes.showHelp && !s.modes.repeating && !s.editor.editing
    requires s.modes.filtering || s.modes.cmdline || s.modes.viewing
    ensures After(s, Press(k)) ==
      if !k.closes then s
      else if s.modes.filtering then s.(modes := s.modes.(filtering := false))
      else if s.modes.cmdline then s.(modes := s.modes.(cmdline := false, showHelp := k.commandOpensHelp))
      else s.(modes := s.modes.(viewing := false))
  {
  }

  // ---------- the object ----------

  class Model {
    const engine: Engine
    var paused: Option<nat>
    var pausedMsg: Option<Message>
    var pausedToken: Token
    var pauseQueue: seq<Paused>
    var editor: Editor   // editing, injecting and the text area
    var modes: Modes

    ghost predicate Valid()
      reads this
    {
      && (paused.Some? <==> pausedMsg.Some?)
      && (paused.None? ==> pausedToken == 0)
      && Inv(View())
    }

    ghost function View(): State
      reads this
    {
      State(if paused.Some? && pausedMsg.Some? then Some(Paused(pausedToken, paused.value, pausedMsg.value)) else None,
            pauseQueue, editor, modes)
    }

    constructor (e: Engine)
      ensures Valid() && engine == e
      ensures View() == State(None, [], CLOSED, Modes(Terminal, false, false, false, false, false, false))
    {
      engine := e;
      paused, pausedMsg, pausedToken, pauseQueue := None, None, 0, [];
      editor := CLOSED;
      modes := Modes(Terminal, false, false, false, false, false, false);
    }

    method EnqueuePause(item: Paused)
      requires Valid()
      modifies this
      ensures Valid() && View() == Enqueued(old(View()), item)
    {
      if paused.Some? {
        pauseQueue := pauseQueue + [item];
        return;
      }
      ActivatePause(item);
    }

    method ActivatePause(item: Paused)
      requires paused.None? && !(editor.editing && !editor.injecting) && (editor.injecting ==> editor.editing)
      modifies this
      ensures Valid() && View() == Activated(old(View()), item)
    {
      paused := Some(item.flow);
      pausedMsg := Some(item.msg);
      pausedToken := item.token;
      modes := modes.(focus := Traffic, pendingLeader := false, cmdline := false, filtering := false);
    }

    method CompletePause()
      requires Valid() && !editor.injecting
      modifies this
      ensures Valid() && View() == Completed(old(View()))
    {
      paused := None;
      pausedMsg := None;
      pausedToken := 0;
      editor := editor.(editing := false);
      editor := editor.(text := Text(None, ""));
      if |pauseQueue| == 0 {
        return;
      }
      var next := pauseQueue[0];
      pauseQueue := pauseQueue[1..];
      ActivatePause(next);
    }

    // What one event asked of the engine: nothing, or one decision under the
    // token of the pause that was active.
    twostate predicate EngineTold(decision: Option<Resolution>)
      reads *
    {
      if decision.None? then
        engine.pending == old(engine.pending) && forall c :: c in engine.pending.Values ==> c.buffer == old(c.buffer)
      else
        && engine.pending == old(engine.pending) - {old(pausedToken)}
        && (old(pausedToken in engine.pending) ==> old(engine.pending[pausedToken]).buffer == decision)
    }

    // The engine call and the bookkeeping of one decision on the active pause.
    method Decide(res: Resolution)
      requires Valid() && engine.Valid() && paused.Some? && !editor.injecting
      modifies this, engine`pending, if pausedToken in engine.pending then {engine.pending[pausedToken]} else {}
      ensures Valid() && engine.Valid() && View() == Completed(old(View()))
      ensures EngineTold(Some(res))
    {
      var _ := engine.Resolve(pausedToken, res);
      CompletePause();
    }

    // The channel of the pause that was on show, if the engine held its token,
    // has received this resolution.
    twostate predicate Sent(res: Resolution)
      reads *
    {
      old(paused.Some? && pausedToken in engine.pending) ==> old(engine.pending[pausedToken]).buffer == Some(res)
    }

    // One key press. Either it decides the active pause, and then the engine is
    // told exactly that decision under that pause's token, or the engine is left
    // alone; in both cases the model moves as the key's meaning says.
    method OnKey(k: Key)
      requires Valid() && engine.Valid()
      modifies this, engine`pending, if pausedToken in engine.pending then {engine.pending[pausedToken]} else {}
      ensures Valid() && engine.Valid() && View() == Pressed(old(View()), k)
      ensures EngineTold(Decision(old(View()), k))
      ensures old(TrafficListens(View())) && !k.isLeader && k.traffic.PausedForward? ==> Sent(Resolution(false, None))
      ensures old(TrafficListens(View())) && !k.isLeader && k.traffic.PausedDrop? ==> Sent(Resolution(true, None))
      ensures old(editor.editing && !editor.injecting && !modes.showHelp && !modes.repeating) && k.editor.Send? ==>
        Sent(Resolution(false, Some(old(editor.text.content))))
      ensures
        || old(paused.None?)
        || (!(old(TrafficListens(View())) && !k.isLeader && (k.traffic.PausedForward? || k.traffic.PausedDrop?)) &&
            !(old(editor.editing && !editor.injecting) && k.editor.Send?)) ==>
          engine.pending == old(engine.pending) && forall c :: c in engine.pending.Values ==> c.buffer == old(c.buffer)
    {
      KeysThatDecide(View(), k);
      if modes.showHelp || modes.repeating {
        OnOverlayKey(k);
      } else if editor.editing {
        OnEditKey(k);
      } else if modes.filtering || modes.cmdline || modes.viewing {
        OnInputKey(k);
      } else {
        OnPaneKey(k);
      }
    }

    method OnOverlayKey(k: Key)
      requires Valid() && engine.Valid() && (modes.showHelp || modes.repeating)
      modifies this`modes
      ensures Valid() && View() == Pressed(old(View()), k) && Decision(old(View()), k).None?
    {
      if modes.showHelp {
        modes := modes.(showHelp := !k.closes);
      } else {
        modes := modes.(repeating := !k.closes);
      }
    }

    method OnInputKey(k: Key)
      requires Valid() && engine.Valid() && !OverlayOpen(modes) && !editor.editing
      requires modes.filtering || modes.cmdline || modes.viewing
      modifies this`modes
      ensures Valid() && View() == Pressed(old(View()), k) && Decision(old(View()), k).None?
    {
      if modes.filtering {
        modes := modes.(filtering := !k.closes);
      } else if modes.cmdline {
        modes := modes.(cmdline := !k.closes, showHelp := k.closes && k.commandOpensHelp);
      } else {
        modes := modes.(viewing := !k.closes);
      }
    }

    method OnEditKey(k: Key)
      requires Valid() && engine.Valid() && AtEditor(View())
      modifies this, engine`pending, if pausedToken in engine.pending then {engine.pending[pausedToken]} else {}
      ensures Valid() && engine.Valid() && View() == Pressed(old(View()), k)
      ensures EngineTold(Decision(old(View()), k))
    {
      match k.editor
      case Quit =>
      case Send =>
        if editor.injecting {
          editor := editor.(editing := false, injecting := false);
          return;
        }
        if paused.Some? {
          Decide(Resolution(false, Some(editor.text.content)));
        }
      case FixLength =>
        if !editor.injecting {
          var fixed := ContentLength.FixContentLength(editor.text.content);
          editor := editor.(text := Text(editor.text.origin, fixed));
        }
      case Cancel =>
        editor := editor.(editing := false, injecting := false);
      case Edit(content) =>
        editor := editor.(text := Text(editor.text.origin, content));
    }

    method OnPaneKey(k: Key)
      requires Valid() && engine.Valid() && !OverlayOpen(modes) && !editor.editing && !InputOpen(modes)
      modifies this, engine`pending, if pausedToken in engine.pending then {engine.pending[pausedToken]} else {}
      ensures Valid() && engine.Valid() && View() == Pressed(old(View()), k)
      ensures EngineTold(Decision(old(View()), k))
    {
      if modes.pendingLeader {
        modes := LeaderPressed(modes, k);
        return;
      }
      if k.isLeader {
        modes := modes.(pendingLeader := true);
        return;
      }
      if modes.focus == Terminal {
        return;
      }
      OnTrafficKey(k);
    }

    method OnTrafficKey(k: Key)
      requires Valid() && engine.Valid() && AtTraffic(View(), k)
      modifies this, engine`pending, if pausedToken in engine.pending then {engine.pending[pausedToken]} else {}
      ensures Valid() && engine.Valid() && View() == Pressed(old(View()), k)
      ensures EngineTold(Decision(old(View()), k))
    {
      match k.traffic
      case PausedEdit =>
        if paused.Some? {
          EnterEdit();
        }
      case PausedForward =>
        if paused.Some? {
          Decide(Resolution(false, None));
        }
      case PausedDrop =>
        if paused.Some? {
          Decide(Resolution(true, None));
        }
      case Inject(live) =>
        if live {
          editor := Editor(true, true, Text(None, ""));
        }
      case _ => modes := Opened(modes, k.traffic);
    }

    method EnterEdit()
      requires Valid() && paused.Some? && !editor.editing
      modifies this`editor
      ensures Valid() && View() == old(View()).(editor := PaneEdited(old(View()), PausedEdit))
    {
      editor := editor.(text := Text(Some(pausedMsg.value.pause), pausedMsg.value.raw));
      editor := editor.(editing := true);
    }
  }
}
