// One direction of a WebSocket session: the pump that forwards (and may tamper
// with) the frames of one peer, any number of injected frames, and the mutex
// that keeps their bytes apart on the way to the other peer. A write is not one
// step here: the holder of the mutex puts its bytes out piece by piece.
module WsSession {
  import opened Common
  import opened WsFrame

  datatype Writer = Pump | Injector

  datatype Entry = Entry(writer: Writer, frame: Frame)

  datatype PumpState =
    | Reading
    | Asking(frame: Frame)    // waiting for the hook's answer
    | Holding(frame: Frame)   // has a frame to write
    | Writing(frame: Frame)   // inside the guarded writer
    | Stopped

  datatype State = State(
    tampering: bool,
    src: bytes,               // what the peer has sent and the pump has not read
    pump: PumpState,
    lock: Option<Writer>,
    left: bytes,              // what the holder of the lock has still to write
    broken: bool,             // a write failed: the buffered writer refuses all later ones
    wire: bytes,              // what the other peer has received
    recorded: seq<bytes>,     // payloads recorded on the flow
    // history, read by no transition:
    read: seq<Frame>,         // frames the pump has read
    verdicts: seq<Verdict>,   // what was decided for them, in order
    log: seq<Entry>)          // frames in the order their writers got the lock

  datatype Action =
    | Read
    | Answer(v: Verdict)
    | PumpLocks
    | Inject(frame: Frame)
    | Emit(n: nat)
    | Fail
    | Unlock

  ghost predicate Init(s: State) {
    && s.pump == Reading && s.lock == None && s.left == [] && !s.broken
    && s.wire == [] && s.recorded == [] && s.read == [] && s.verdicts == [] && s.log == []
  }

  ghost predicate SoundVerdict(v: Verdict) {
    v.Forward? && v.edit.Some? ==> |v.edit.value| <= MAX_INT64
  }

  ghost predicate Enabled(s: State, a: Action) {
    match a
    case Read => s.pump == Reading
    case Answer(v) => s.pump.Asking? && SoundVerdict(v)
    case PumpLocks => s.pump.Holding? && s.lock.None?
    case Inject(frame) => s.lock.None? && WellFormed(frame)
    case Emit(n) => s.lock.Some? && !s.broken && 0 < n <= |s.left|
    case Fail => s.lock.Some? && !s.broken
    case Unlock => s.lock.Some? && (s.broken || s.left == [])
  }

  function Edited(f: Frame, edit: Option<bytes>): Frame {
    if edit.Some? then f.(payload := edit.value) else f
  }

  // The pump's next state once its write has returned.
  function AfterWrite(s: State): PumpState {
    if s.lock != Some(Pump) then s.pump
    else if s.broken || (s.pump.Writing? && s.pump.frame.opcode == OP_CLOSE) then Stopped
    else Reading
  }

  function AfterRead(s: State): State {
    match Decode(s.src)
    case Err(_) => s.(pump := Stopped)
    case Ok((f, more)) =>
      var t := s.(src := more,
                  read := s.read + [f],
                  recorded := if IsData(f.opcode) then s.recorded + [f.payload] else s.recorded);
      if IsData(f.opcode) && s.tampering then t.(pump := Asking(f))
      else t.(pump := Holding(f), verdicts := s.verdicts + [Forward(None)])
  }

  ghost function Apply(s: State, a: Action): State
    requires Enabled(s, a)
  {
    match a
    case Read => AfterRead(s)
    case Answer(v) =>
      s.(pump := if v.Omit? then Reading else Holding(Edited(s.pump.frame, v.edit)), verdicts := s.verdicts + [v])
    case PumpLocks =>
      if s.broken then s.(pump := Stopped)
      else s.(pump := Writing(s.pump.frame), lock := Some(Pump), left := Encode(s.pump.frame),
              log := s.log + [Entry(Pump, s.pump.frame)])
    case Inject(frame) =>
      if s.broken then s
      else s.(lock := Some(Injector), left := Encode(frame), log := s.log + [Entry(Injector, frame)])
    case Emit(n) => s.(wire := s.wire + s.left[..n], left := s.left[n..])
    case Fail => s.(broken := true)
    case Unlock => s.(pump := AfterWrite(s), lock := None)
  }

  // ---------- what is to be written ----------

  function Outgoing(f: Frame, v: Verdict): seq<Frame> {
    if v.Omit? then [] else [Edited(f, v.edit)]
  }

  // The frames the pump owes for the frames it has read and decided.
  function Owed(read: seq<Frame>, verdicts: seq<Verdict>): seq<Frame> {
    if verdicts == [] then []
    else
      var n := |verdicts| - 1;
      Owed(read, verdicts[..n]) + if n < |read| then Outgoing(read[n], verdicts[n]) else []
  }

  function FramesBy(log: seq<Entry>, w: Writer): seq<Frame> {
    if log == [] then []
    else
      var n := |log| - 1;
      FramesBy(log[..n], w) + if log[n].writer == w then [log[n].frame] else []
  }

  function Frames(log: seq<Entry>): (fs: seq<Frame>)
    ensures |fs| == |log| && forall i :: 0 <= i < |fs| ==> fs[i] == log[i].frame
  {
    seq(|log|, i requires 0 <= i < |log| => log[i].frame)
  }

  function DataPayloads(fs: seq<Frame>): seq<bytes> {
    if fs == [] then []
    else
      var n := |fs| - 1;
      DataPayloads(fs[..n]) + if IsData(fs[n].opcode) then [fs[n].payload] else []
  }

  // ---------- the invariant ----------

  function InHand(s: State): seq<Frame> {
    if s.pump.Holding? then [s.pump.frame] else []
  }

  ghost predicate AllWellFormed(fs: seq<Frame>) {
    forall i :: 0 <= i < |fs| ==> WellFormed(fs[i])
  }

  // The wire carries the logged frames, complete but for what the lock's holder
  // (or a broken connection) has left.
  ghost predicate WireExact(s: State) {
    && AllWellFormed(Frames(s.log))
    && s.wire + s.left == EncodeAll(Frames(s.log))
    && (s.lock.None? && !s.broken ==> s.left == [])
    && (s.left != [] ==> s.log != [] && |s.left| <= |Encode(s.log[|s.log| - 1].frame)|)
  }

  ghost predicate ReadExact(s: State, whole: bytes) {
    && DecodeAll(whole) == s.read + DecodeAll(s.src)
    && s.recorded == DataPayloads(s.read)
    && |s.verdicts| == |s.read| - (if s.pump.Asking? then 1 else 0)
    && (s.pump.Asking? ==> s.tampering && s.pump.frame == s.read[|s.read| - 1] && IsData(s.pump.frame.opcode))
    && AllWellFormed(s.read)
    && (!s.tampering ==> forall i :: 0 <= i < |s.verdicts| ==> s.verdicts[i] == Forward(None))
    && (forall i :: 0 <= i < |s.verdicts| ==> SoundVerdict(s.verdicts[i]) &&
                                              (!IsData(s.read[i].opcode) ==> s.verdicts[i] == Forward(None)))
  }

  ghost predicate PumpExact(s: State) {
    && |s.verdicts| <= |s.read|
    && FramesBy(s.log, Pump) <= Owed(s.read, s.verdicts)
    && (!s.broken || s.pump != Stopped ==> FramesBy(s.log, Pump) + InHand(s) == Owed(s.read, s.verdicts))
    && (s.pump.Holding? ==> WellFormed(s.pump.frame))
    && (s.lock == Some(Pump) <==> s.pump.Writing?)
    && (s.pump.Writing? ==> s.log != [] && s.log[|s.log| - 1] == Entry(Pump, s.pump.frame))
  }

  // Nothing follows a close frame of the pump's.
  ghost predicate CloseLast(s: State) {
    var sent := FramesBy(s.log, Pump);
    && (forall i :: 0 <= i < |sent| - 1 ==> sent[i].opcode != OP_CLOSE)
    && (sent != [] && sent[|sent| - 1].opcode == OP_CLOSE ==> s.pump.Writing? || s.pump == Stopped)
  }

  ghost predicate Inv(s: State, whole: bytes) {
    WireExact(s) && ReadExact(s, whole) && PumpExact(s) && CloseLast(s)
  }

  lemma LogGrows(log: seq<Entry>, e: Entry)
    ensures Frames(log + [e]) == Frames(log) + [e.frame]
    ensures EncodeAll(Frames(log + [e])) == EncodeAll(Frames(log)) + Encode(e.frame)
    ensures forall w :: FramesBy(log + [e], w) == FramesBy(log, w) + if e.writer == w then [e.frame] else []
  {
    assert Frames(log + [e])[..|log|] == Frames(log);
    forall w ensures FramesBy(log + [e], w) == FramesBy(log, w) + if e.writer == w then [e.frame] else [] {
      assert (log + [e])[..|log|] == log;
    }
  }

  lemma OwedGrows(read: seq<Frame>, verdicts: seq<Verdict>, v: Verdict)
    requires |verdicts| < |read|
    ensures Owed(read, verdicts + [v]) == Owed(read, verdicts) + Outgoing(read[|verdicts|], v)
  {
    assert (verdicts + [v])[..|verdicts|] == verdicts;
  }

  // What is owed does not depend on frames that come later.
  lemma {:induction false} OwedReadsAhead(read: seq<Frame>, more: seq<Frame>, verdicts: seq<Verdict>)
    requires |verdicts| <= |read|
    ensures Owed(read + more, verdicts) == Owed(read, verdicts)
  {
    if verdicts != [] {
      OwedReadsAhead(read, more, verdicts[..|verdicts| - 1]);
    }
  }

  lemma DecodedWellFormed(b: bytes)
    requires Decode(b).Ok?
    ensures WellFormed(Decode(b).value.0)
  {
    EncodeDecodedIff(b);
  }

  // Each part of the invariant depends on a few fields only.
  lemma SameWire(s: State, t: State)
    requires WireExact(s)
    requires t.log == s.log && t.wire == s.wire && t.left == s.left && t.lock == s.lock && (s.broken ==> t.broken)
    ensures WireExact(t)
  {
    hide EncodeAll, Encode, AllWellFormed;
  }

  lemma SameRead(s: State, t: State, whole: bytes)
    requires ReadExact(s, whole)
    requires t.src == s.src && t.read == s.read && t.verdicts == s.verdicts && t.recorded == s.recorded
    requires t.tampering == s.tampering && (t.pump == s.pump || (!t.pump.Asking? && !s.pump.Asking?))
    ensures ReadExact(t, whole)
  {
    hide DecodeAll, DataPayloads, AllWellFormed;
  }

  lemma SamePump(s: State, t: State)
    requires PumpExact(s) && CloseLast(s)
    requires t.log == s.log && t.read == s.read && t.verdicts == s.verdicts && t.lock == s.lock && t.pump == s.pump
    requires s.broken ==> t.broken
    ensures PumpExact(t) && CloseLast(t)
  {
    hide FramesBy, Owed, WellFormed;
  }

  lemma OneMoreRead(read: seq<Frame>, f: Frame, verdicts: seq<Verdict>, whole: bytes, src: bytes, more: bytes)
    requires Decode(src) == Ok((f, more)) && DecodeAll(whole) == read + DecodeAll(src) && AllWellFormed(read)
    ensures DecodeAll(whole) == (read + [f]) + DecodeAll(more) && AllWellFormed(read + [f])
    ensures DataPayloads(read + [f]) == DataPayloads(read) + if IsData(f.opcode) then [f.payload] else []
  {
    DecodedWellFormed(src);
    assert DecodeAll(src) == [f] + DecodeAll(more);
    assert (read + [f])[..|read|] == read;
    hide Decode, WellFormed, DecodeAll, DataPayloads;
    Associates(read, [f], DecodeAll(more));
  }

  lemma ReadKeepsReadExact(s: State, whole: bytes)
    requires ReadExact(s, whole) && s.pump == Reading
    ensures ReadExact(AfterRead(s), whole)
  {
    hide Decode, WellFormed, DecodeAll, DataPayloads, AllWellFormed;
    if Decode(s.src).Ok? {
      var (f, more) := Decode(s.src).value;
      OneMoreRead(s.read, f, s.verdicts, whole, s.src, more);
    }
  }

  lemma ReadKeepsPump(s: State)
    requires PumpExact(s) && s.pump == Reading && |s.verdicts| == |s.read|
    ensures PumpExact(AfterRead(s))
  {
    hide Decode, WellFormed, FramesBy, Owed;
    var t := AfterRead(s);
    var sent := FramesBy(s.log, Pump);
    assert sent + InHand(s) == sent;
    if Decode(s.src).Ok? {
      var (f, more) := Decode(s.src).value;
      DecodedWellFormed(s.src);
      OwedReadsAhead(s.read, [f], s.verdicts);
      OwedGrows(t.read, s.verdicts, Forward(None));
      if t.pump.Holding? {
        assert sent + InHand(t) == sent + [f];
      } else {
        assert sent + InHand(t) == sent;
      }
    }
  }

  lemma ReadKeepsWire(s: State)
    requires WireExact(s) && CloseLast(s) && s.pump == Reading
    ensures WireExact(AfterRead(s)) && CloseLast(AfterRead(s))
  {
    hide Decode, EncodeAll, Encode, WellFormed, FramesBy;
    var t := AfterRead(s);
    assert t.log == s.log && t.wire == s.wire && t.left == s.left && t.lock == s.lock && t.broken == s.broken;
  }

  lemma AnswerKeepsInv(s: State, whole: bytes, v: Verdict)
    requires Inv(s, whole) && Enabled(s, Answer(v))
    ensures Inv(Apply(s, Answer(v)), whole)
  {
    AnswerKeepsPump(s, whole, v);
    AnswerKeepsRead(s, whole, v);
    AnswerKeepsClose(s, v);
    SameWire(s, Apply(s, Answer(v)));
    hide WireExact, ReadExact, PumpExact, CloseLast;
  }

  lemma AnswerKeepsRead(s: State, whole: bytes, v: Verdict)
    requires ReadExact(s, whole) && Enabled(s, Answer(v))
    ensures ReadExact(Apply(s, Answer(v)), whole)
  {
    hide DecodeAll, DataPayloads, AllWellFormed, WellFormed;
    assert IsData(s.read[|s.verdicts|].opcode);
  }

  lemma AnswerKeepsClose(s: State, v: Verdict)
    requires CloseLast(s) && Enabled(s, Answer(v))
    ensures CloseLast(Apply(s, Answer(v)))
  {
    hide FramesBy;
  }

  lemma EditedWellFormed(f: Frame, v: Verdict)
    requires WellFormed(f) && v.Forward? && SoundVerdict(v)
    ensures WellFormed(Edited(f, v.edit))
  {
  }

  lemma AnswerKeepsPump(s: State, whole: bytes, v: Verdict)
    requires ReadExact(s, whole) && PumpExact(s) && Enabled(s, Answer(v))
    ensures PumpExact(Apply(s, Answer(v)))
  {
    assert WellFormed(s.read[|s.read| - 1]);
    if v.Forward? { EditedWellFormed(s.pump.frame, v); }
    hide Decode, DecodeAll, EncodeAll, Encode, FramesBy, Owed, DataPayloads, WellFormed, AllWellFormed, Edited;
    var sent := FramesBy(s.log, Pump);
    OwedGrows(s.read, s.verdicts, v);
    assert sent + InHand(s) == sent;
    assert sent + [] == sent;
  }

  lemma LogKeepsInv(s: State, t: State, whole: bytes, e: Entry)
    requires Inv(s, whole) && s.lock.None? && !s.broken && WellFormed(e.frame)
    requires e.writer == Pump ==> s.pump == Holding(e.frame)
    requires t == s.(lock := Some(e.writer), left := Encode(e.frame), log := s.log + [e],
                     pump := if e.writer == Pump then Writing(e.frame) else s.pump)
    ensures Inv(t, whole)
  {
    SameRead(s, t, whole);
    LogKeepsWire(s, t, e);
    LogKeepsPump(s, t, e);
    hide WireExact, ReadExact, PumpExact, CloseLast;
  }

  lemma LogKeepsWire(s: State, t: State, e: Entry)
    requires WireExact(s) && s.lock.None? && !s.broken && WellFormed(e.frame)
    requires t.wire == s.wire && t.lock.Some? && t.left == Encode(e.frame) && t.log == s.log + [e]
    ensures WireExact(t)
  {
    hide EncodeAll, Encode, WellFormed, FramesBy, Frames;
    LogGrows(s.log, e);
    assert s.wire + [] == s.wire;
    assert t.log[|t.log| - 1] == e;
    AllWellFormedGrows(Frames(s.log), e.frame);
  }

  lemma AllWellFormedGrows(fs: seq<Frame>, f: Frame)
    requires AllWellFormed(fs) && WellFormed(f)
    ensures AllWellFormed(fs + [f])
  {
    hide WellFormed;
  }

  lemma LogKeepsPump(s: State, t: State, e: Entry)
    requires PumpExact(s) && CloseLast(s) && s.lock.None? && !s.broken
    requires e.writer == Pump ==> s.pump == Holding(e.frame)
    requires t == s.(lock := Some(e.writer), left := Encode(e.frame), log := s.log + [e],
                     pump := if e.writer == Pump then Writing(e.frame) else s.pump)
    ensures PumpExact(t) && CloseLast(t)
  {
    LogGrows(s.log, e);
    hide EncodeAll, Encode, WellFormed, FramesBy, Frames, Owed;
    assert FramesBy(t.log, Pump) + InHand(t) == FramesBy(s.log, Pump) + InHand(s);
    var sent, sent' := FramesBy(s.log, Pump), FramesBy(t.log, Pump);
    assert forall i :: 0 <= i < |sent| ==> sent'[i] == sent[i];
  }

  lemma EmitKeepsInv(s: State, whole: bytes, n: nat)
    requires Inv(s, whole) && Enabled(s, Emit(n))
    ensures Inv(Apply(s, Emit(n)), whole)
  {
    var t := Apply(s, Emit(n));
    EmitKeepsWire(s, n);
    SameRead(s, t, whole);
    SamePump(s, t);
    hide WireExact, ReadExact, PumpExact, CloseLast;
  }

  lemma EmitKeepsWire(s: State, n: nat)
    requires WireExact(s) && Enabled(s, Emit(n))
    ensures WireExact(Apply(s, Emit(n)))
  {
    hide EncodeAll, Encode, AllWellFormed;
    assert s.left == s.left[..n] + s.left[n..];
    Associates(s.wire, s.left[..n], s.left[n..]);
  }

  lemma FailKeepsInv(s: State, whole: bytes)
    requires Inv(s, whole)
    ensures Inv(s.(broken := true), whole)
  {
    var t := s.(broken := true);
    SameWire(s, t);
    SameRead(s, t, whole);
    SamePump(s, t);
    hide WireExact, ReadExact, PumpExact, CloseLast;
  }

  lemma StoppedKeepsPump(s: State)
    requires PumpExact(s) && CloseLast(s) && s.broken && s.pump.Holding?
    ensures PumpExact(s.(pump := Stopped)) && CloseLast(s.(pump := Stopped))
  {
    hide FramesBy, Owed, WellFormed;
  }

  // A writer that gets the lock of a broken connection writes nothing.
  lemma PumpLocksKeepsInv(s: State, whole: bytes)
    requires Inv(s, whole) && Enabled(s, PumpLocks)
    ensures Inv(Apply(s, PumpLocks), whole)
  {
    var t := Apply(s, PumpLocks);
    if s.broken {
      SameWire(s, t);
      SameRead(s, t, whole);
      StoppedKeepsPump(s);
      hide WireExact, ReadExact, PumpExact, CloseLast;
    } else {
      assert WellFormed(s.pump.frame);
      hide Inv, WellFormed, Encode;
      LogKeepsInv(s, t, whole, Entry(Pump, s.pump.frame));
    }
  }

  lemma UnlockKeepsPump(s: State)
    requires PumpExact(s) && CloseLast(s) && Enabled(s, Unlock)
    ensures PumpExact(Apply(s, Unlock)) && CloseLast(Apply(s, Unlock))
  {
    hide WellFormed, Owed, FramesBy, Decode, Encode;
    if s.lock == Some(Pump) {
      LastByPump(s.log, s.pump.frame);
    }
  }

  lemma LastByPump(log: seq<Entry>, f: Frame)
    requires log != [] && log[|log| - 1] == Entry(Pump, f)
    ensures var sent := FramesBy(log, Pump); sent != [] && sent[|sent| - 1] == f
  {
  }

  lemma UnlockKeepsRest(s: State, whole: bytes)
    requires WireExact(s) && ReadExact(s, whole) && PumpExact(s) && Enabled(s, Unlock)
    ensures WireExact(Apply(s, Unlock)) && ReadExact(Apply(s, Unlock), whole)
  {
    hide Decode, DecodeAll, EncodeAll, Encode, WellFormed, FramesBy, Owed, DataPayloads;
    var t := Apply(s, Unlock);
    assert t.log == s.log && t.wire == s.wire && t.left == s.left && t.read == s.read && t.verdicts == s.verdicts;
  }

  lemma StepKeepsInv(s: State, a: Action, whole: bytes)
    requires Inv(s, whole) && Enabled(s, a)
    ensures Inv(Apply(s, a), whole)
  {
    match a
    case Read => ReadKeepsInv(s, whole);
    case Answer(v) => AnswerKeepsInv(s, whole, v);
    case PumpLocks => PumpLocksKeepsInv(s, whole);
    case Inject(frame) =>
      if !s.broken {
        hide Inv, WellFormed, Encode;
        LogKeepsInv(s, Apply(s, a), whole, Entry(Injector, frame));
      }
    case Emit(n) => EmitKeepsInv(s, whole, n);
    case Fail => FailKeepsInv(s, whole);
    case Unlock =>
      UnlockKeepsPump(s);
      UnlockKeepsRest(s, whole);
      hide WireExact, ReadExact, PumpExact, CloseLast;
  }

  lemma ReadKeepsInv(s: State, whole: bytes)
    requires Inv(s, whole) && s.pump == Reading
    ensures Inv(AfterRead(s), whole)
  {
    assert |s.verdicts| == |s.read|;
    ReadKeepsReadExact(s, whole);
    ReadKeepsPump(s);
    ReadKeepsWire(s);
    hide WireExact, ReadExact, PumpExact, CloseLast, AfterRead;
  }

  // ---------- runs ----------

  ghost predicate Run(ss: seq<State>, acts: seq<Action>) {
    && |ss| == |acts| + 1
    && Init(ss[0])
    && forall i :: 0 <= i < |acts| ==> Enabled(ss[i], acts[i]) && ss[i + 1] == Apply(ss[i], acts[i])
  }

  lemma InitInv(s: State)
    requires Init(s)
    ensures Inv(s, s.src)
  {
    assert [] + DecodeAll(s.src) == DecodeAll(s.src);
  }

  lemma {:induction false} RunKeepsInv(ss: seq<State>, acts: seq<Action>, i: nat)
    requires Run(ss, acts) && i < |ss|
    ensures Inv(ss[i], ss[0].src)
  {
    hide Inv, Init, Enabled, Apply;
    if i == 0 {
      InitInv(ss[0]);
    } else {
      RunKeepsInv(ss, acts, i - 1);
      StepKeepsInv(ss[i - 1], acts[i - 1], ss[0].src);
    }
  }

  // The state after these actions in turn, if each is possible.
  ghost function After(s: State, acts: seq<Action>): Option<State>
    decreases |acts|
  {
    if acts == [] then Some(s)
    else if Enabled(s, acts[0]) then After(Apply(s, acts[0]), acts[1..])
    else None
  }

  lemma AfterFirst(s: State, a: Action, rest: seq<Action>)
    requires Enabled(s, a)
    ensures After(s, [a] + rest) == After(Apply(s, a), rest)
  {
    assert ([a] + rest)[1..] == rest;
  }

  lemma AfterNothing(s: State)
    ensures After(s, []) == Some(s)
  {
  }

  // A frame can be injected whenever the lock is free, its bytes cut anywhere; a
  // write that breaks off leaves the first piece on the wire and the connection
  // broken.
  lemma InjectedInPieces(s: State, f: Frame, n: nat)
    requires s.lock.None? && !s.broken && WellFormed(f) && 0 < n < |Encode(f)|
    ensures var end := After(s, [Inject(f)] + ([Emit(n)] + ([Emit(|Encode(f)| - n)] + ([Unlock] + []))));
      && end.Some? && end.value.wire == s.wire + Encode(f) && end.value.lock.None? && !end.value.broken
      && end.value.log == s.log + [Entry(Injector, f)] && end.value.pump == s.pump
    ensures var end := After(s, [Inject(f)] + ([Emit(n)] + ([Fail] + ([Unlock] + []))));
      end.Some? && end.value.wire == s.wire + Encode(f)[..n] && end.value.lock.None? && end.value.broken
  {
    hide Encode, WellFormed, Decode;
    var b := Encode(f);
    var s1 := s.(lock := Some(Injector), left := b, log := s.log + [Entry(Injector, f)]);
    var s2 := s1.(wire := s.wire + b[..n], left := b[n..]);
    var s3 := s2.(wire := s.wire + b, left := []);
    assert b[n..][..|b| - n] == b[n..] && b[n..][|b| - n..] == [];
    assert (s.wire + b[..n]) + b[n..] == s.wire + b;
    assert Apply(s2, Emit(|b| - n)) == s3;
    hide After;
    AfterFirst(s, Inject(f), [Emit(n)] + ([Emit(|b| - n)] + ([Unlock] + [])));
    AfterFirst(s1, Emit(n), [Emit(|b| - n)] + ([Unlock] + []));
    AfterFirst(s2, Emit(|b| - n), [Unlock] + []);
    AfterFirst(s3, Unlock, []);
    AfterNothing(Apply(s3, Unlock));
    AfterFirst(s, Inject(f), [Emit(n)] + ([Fail] + ([Unlock] + [])));
    AfterFirst(s1, Emit(n), [Fail] + ([Unlock] + []));
    AfterFirst(s2, Fail, [Unlock] + []);
    AfterFirst(s2.(broken := true), Unlock, []);
    AfterNothing(Apply(s2.(broken := true), Unlock));
  }

  // Frames that have reached the other peer in full.
  function Delivered(s: State): seq<Entry> {
    if s.left == [] || s.log == [] then s.log else s.log[..|s.log| - 1]
  }

  lemma WholeFramesReadBack(wire: bytes, log: seq<Entry>)
    requires AllWellFormed(Frames(log)) && wire == EncodeAll(Frames(log))
    ensures DecodeAll(wire) == Frames(log)
  {
    hide Decode, DecodeAll, EncodeAll, Encode, WellFormed;
    DecodeAllEncoded(Frames(log), []);
    NothingToDecode([]);
    assert wire + [] == wire && Frames(log) + [] == Frames(log);
  }

  lemma PartFrameReadsBack(wire: bytes, left: bytes, log: seq<Entry>, last: Entry)
    requires AllWellFormed(Frames(log)) && WellFormed(last.frame)
    requires wire + left == EncodeAll(Frames(log)) + Encode(last.frame)
    requires 0 < |left| <= |Encode(last.frame)|
    ensures DecodeAll(wire) == Frames(log)
  {
    hide Decode, DecodeAll, EncodeAll, Encode, WellFormed;
    var b := Encode(last.frame);
    var k := |b| - |left|;
    WireSplits(wire, left, EncodeAll(Frames(log)), b);
    DecodeAllEncoded(Frames(log), b[..k]);
    PartIsNoFrame(last.frame, k);
    NothingToDecode(b[..k]);
    assert Frames(log) + [] == Frames(log);
  }

  // In every interleaving, what the other peer has received reads back, frame by
  // frame, as the frames written in full, in the order their writers got the
  // lock: no frame's bytes are ever split by another's.
  lemma WireReadsBack(ss: seq<State>, acts: seq<Action>, i: nat)
    requires Run(ss, acts) && i < |ss|
    ensures DecodeAll(ss[i].wire) == Frames(Delivered(ss[i]))
    ensures ss[i].lock.None? && !ss[i].broken ==> Delivered(ss[i]) == ss[i].log
  {
    RunKeepsInv(ss, acts, i);
    hide Run;
    WireInvReadsBack(ss[i]);
  }

  lemma WireInvReadsBack(s: State)
    requires WireExact(s)
    ensures DecodeAll(s.wire) == Frames(Delivered(s))
    ensures s.lock.None? && !s.broken ==> Delivered(s) == s.log
  {
    hide Decode, DecodeAll, EncodeAll, Encode, WellFormed;
    if s.left == [] {
      assert s.wire + [] == s.wire;
      WholeFramesReadBack(s.wire, s.log);
    } else {
      var n := |s.log| - 1;
      assert s.log == s.log[..n] + [s.log[n]];
      LogGrows(s.log[..n], s.log[n]);
      assert WellFormed(s.log[n].frame) by {
        assert Frames(s.log)[n] == s.log[n].frame;
      }
      assert forall j :: 0 <= j < n ==> Frames(s.log[..n])[j] == Frames(s.log)[j];
      PartFrameReadsBack(s.wire, s.left, s.log[..n], s.log[n]);
    }
  }

  lemma NothingToDecode(b: bytes)
    requires b == [] || Decode(b).Err?
    ensures DecodeAll(b) == []
  {
  }

  lemma WireSplits(wire: bytes, left: bytes, front: bytes, last: bytes)
    requires wire + left == front + last && |left| <= |last|
    ensures wire == front + last[..|last| - |left|]
  {
    assert wire == (wire + left)[..|wire|];
    assert (front + last)[..|wire|] == front + last[..|last| - |left|];
  }

  // The frames written are a merge of two sequences, each in its own order: the
  // injected frames, and the pump's. The pump's are what it owes for the frames
  // it has read - edited as decided, omitted ones absent - up to one it may still
  // hold, and end at the first close frame.
  lemma MergeOfPumpedAndInjected(ss: seq<State>, acts: seq<Action>, i: nat)
    requires Run(ss, acts) && i < |ss|
    ensures FramesBy(ss[i].log, Pump) <= Owed(ss[i].read, ss[i].verdicts)
    ensures !ss[i].broken ==> FramesBy(ss[i].log, Pump) + InHand(ss[i]) == Owed(ss[i].read, ss[i].verdicts)
    ensures var sent := FramesBy(ss[i].log, Pump);
      forall j :: 0 <= j < |sent| - 1 ==> sent[j].opcode != OP_CLOSE
    ensures multiset(Frames(ss[i].log)) ==
      multiset(FramesBy(ss[i].log, Pump)) + multiset(FramesBy(ss[i].log, Injector))
    ensures FramesBy(ss[i].log, Injector) == Injected(ss, acts, i)
  {
    RunKeepsInv(ss, acts, i);
    MergeCounts(ss[i].log);
    InjectedInOrder(ss, acts, i);
  }

  // The frames of the first i actions' Inject calls that were not refused.
  ghost function Injected(ss: seq<State>, acts: seq<Action>, i: nat): seq<Frame>
    requires i <= |acts| && i <= |ss|
  {
    if i == 0 then []
    else
      Injected(ss, acts, i - 1) +
      if acts[i - 1].Inject? && !ss[i - 1].broken then [acts[i - 1].frame] else []
  }

  function NewEntry(s: State, a: Action): seq<Entry> {
    if s.broken then []
    else if a.Inject? then [Entry(Injector, a.frame)]
    else if a.PumpLocks? && s.pump.Holding? then [Entry(Pump, s.pump.frame)]
    else []
  }

  lemma LogOfStep(s: State, a: Action)
    requires Enabled(s, a)
    ensures Apply(s, a).log == s.log + NewEntry(s, a)
  {
    hide Decode, Encode, WellFormed;
    assert s.log + [] == s.log;
  }

  lemma InjectedGrows(log: seq<Entry>, s: State, a: Action)
    ensures FramesBy(log + NewEntry(s, a), Injector)
         == FramesBy(log, Injector) + if a.Inject? && !s.broken then [a.frame] else []
  {
    hide FramesBy;
    if NewEntry(s, a) != [] {
      LogGrows(log, NewEntry(s, a)[0]);
    } else {
      assert log + [] == log && FramesBy(log, Injector) + [] == FramesBy(log, Injector);
    }
  }

  lemma LogOfRun(ss: seq<State>, acts: seq<Action>, i: nat)
    requires Run(ss, acts) && 0 < i < |ss|
    ensures ss[i].log == ss[i - 1].log + NewEntry(ss[i - 1], acts[i - 1])
  {
    assert Enabled(ss[i - 1], acts[i - 1]) && ss[i] == Apply(ss[i - 1], acts[i - 1]);
    hide Apply, Enabled, NewEntry;
    LogOfStep(ss[i - 1], acts[i - 1]);
  }

  lemma {:induction false} InjectedInOrder(ss: seq<State>, acts: seq<Action>, i: nat)
    requires Run(ss, acts) && i < |ss|
    ensures FramesBy(ss[i].log, Injector) == Injected(ss, acts, i)
  {
    if i == 0 {
      assert ss[0].log == [];
    } else {
      assert i <= |acts|;
      hide Run, FramesBy, NewEntry;
      LogOfRun(ss, acts, i);
      InjectedInOrder(ss, acts, i - 1);
      InjectedGrows(ss[i - 1].log, ss[i - 1], acts[i - 1]);
    }
  }

  lemma {:induction false} MergeCounts(log: seq<Entry>)
    ensures multiset(Frames(log)) == multiset(FramesBy(log, Pump)) + multiset(FramesBy(log, Injector))
  {
    if log == [] {
    } else {
      var n := |log| - 1;
      MergeCounts(log[..n]);
      assert log == log[..n] + [log[n]];
      LogGrows(log[..n], log[n]);
      hide Frames, FramesBy, EncodeAll, Encode;
      CountsGrow(Frames(log[..n]), FramesBy(log[..n], Pump), FramesBy(log[..n], Injector), log[n].frame, log[n].writer);
      assert FramesBy(log, Pump) == FramesBy(log[..n], Pump) + if log[n].writer == Pump then [log[n].frame] else [];
      assert FramesBy(log, Injector) ==
        FramesBy(log[..n], Injector) + if log[n].writer == Injector then [log[n].frame] else [];
    }
  }

  lemma CountsGrow(all: seq<Frame>, pumped: seq<Frame>, injected: seq<Frame>, f: Frame, w: Writer)
    requires multiset(all) == multiset(pumped) + multiset(injected)
    ensures multiset(all + [f]) ==
      multiset(pumped + if w == Pump then [f] else []) + multiset(injected + if w == Injector then [f] else [])
  {
    assert pumped + [] == pumped && injected + [] == injected;
  }

  // Control frames, and every frame when nothing is tampered with, are forwarded
  // as they are.
  lemma OnlyDataIsAskedAbout(ss: seq<State>, acts: seq<Action>, i: nat, j: nat)
    requires Run(ss, acts) && i < |ss| && j < |ss[i].verdicts|
    ensures j < |ss[i].read|
    ensures !IsData(ss[i].read[j].opcode) || !ss[i].tampering ==> ss[i].verdicts[j] == Forward(None)
  {
    RunKeepsInv(ss, acts, i);
  }

  predicate EndsInClose(fs: seq<Frame>) {
    fs != [] && fs[|fs| - 1].opcode == OP_CLOSE
  }

  // What a verdict owes: an edit the frame read with that payload and all else
  // as it was, no edit the frame itself, an omission nothing.
  lemma WhatIsOwed(ss: seq<State>, acts: seq<Action>, i: nat, j: nat)
    requires Run(ss, acts) && i < |ss| && j < |ss[i].verdicts|
    ensures j < |ss[i].read| && Owed(ss[i].read, []) == []
    ensures var f := ss[i].read[j];
      Owed(ss[i].read, ss[i].verdicts[..j + 1]) == Owed(ss[i].read, ss[i].verdicts[..j]) +
        match ss[i].verdicts[j]
        case Omit => []
        case Forward(None) => [f]
        case Forward(Some(p)) => [Frame(f.fin, f.opcode, f.masked, f.key, p)]
  {
    RunKeepsInv(ss, acts, i);
    assert |ss[i].verdicts| <= |ss[i].read|;
    hide Run, Inv, Owed;
    OwedFor(ss[i].read, ss[i].verdicts, j);
  }

  lemma OwedFor(read: seq<Frame>, verdicts: seq<Verdict>, j: nat)
    requires j < |verdicts| <= |read|
    ensures Owed(read, []) == []
    ensures var f := read[j];
      Owed(read, verdicts[..j + 1]) == Owed(read, verdicts[..j]) +
        match verdicts[j]
        case Omit => []
        case Forward(None) => [f]
        case Forward(Some(p)) => [Frame(f.fin, f.opcode, f.masked, f.key, p)]
  {
    assert Owed(read, []) == [];
    hide Owed, Outgoing;
    OwedNext(read, verdicts, j);
    OutgoingIs(read[j], verdicts[j]);
  }

  lemma OwedNext(read: seq<Frame>, verdicts: seq<Verdict>, j: nat)
    requires j < |verdicts| <= |read|
    ensures Owed(read, verdicts[..j + 1]) == Owed(read, verdicts[..j]) + Outgoing(read[j], verdicts[j])
  {
    hide Outgoing;
    assert verdicts[..j + 1][..j] == verdicts[..j];
  }

  lemma OutgoingIs(f: Frame, v: Verdict)
    ensures Outgoing(f, v) == match v
      case Omit => []
      case Forward(None) => [f]
      case Forward(Some(p)) => [Frame(f.fin, f.opcode, f.masked, f.key, p)]
  {
  }

  // The hook is asked about every data frame read while tampering, and what it
  // answers is the verdict; every other frame goes on at once.
  lemma DataIsAskedAbout(ss: seq<State>, acts: seq<Action>, i: nat)
    requires Run(ss, acts) && i < |acts| && acts[i] == Read && Decode(ss[i].src).Ok?
    ensures var f := Decode(ss[i].src).value.0;
      && ss[i + 1].read == ss[i].read + [f]
      && if ss[i].tampering && f.opcode in {0, 1, 2}
         then ss[i + 1].pump == Asking(f) && ss[i + 1].verdicts == ss[i].verdicts
         else ss[i + 1].pump == Holding(f) && ss[i + 1].verdicts == ss[i].verdicts + [Forward(None)]
  {
    hide Decode;
  }

  lemma AnswerIsTheVerdict(ss: seq<State>, acts: seq<Action>, i: nat)
    requires Run(ss, acts) && i < |acts| && acts[i].Answer?
    ensures ss[i].pump.Asking? && ss[i + 1].verdicts == ss[i].verdicts + [acts[i].v]
    ensures ss[i + 1].pump == match acts[i].v
      case Omit => Reading
      case Forward(None) => Holding(ss[i].pump.frame)
      case Forward(Some(p)) =>
        var f := ss[i].pump.frame;
        Holding(Frame(f.fin, f.opcode, f.masked, f.key, p))
  {
  }

  // What stops the pump: a read failure, a broken connection, its own close frame.
  lemma WhatStopsThePump(ss: seq<State>, acts: seq<Action>, i: nat)
    requires Run(ss, acts) && i < |acts|
    ensures acts[i] == Read && Decode(ss[i].src).Err? ==> ss[i + 1] == ss[i].(pump := Stopped)
    ensures acts[i] == PumpLocks && ss[i].broken ==> ss[i + 1] == ss[i].(pump := Stopped)
    ensures acts[i] == Unlock && ss[i].lock == Some(Pump) ==>
      && ss[i].pump.Writing?
      && ss[i + 1].pump == if ss[i].broken || ss[i].pump.frame.opcode == 8 then Stopped else Reading
    ensures acts[i] == Unlock && ss[i].lock == Some(Injector) ==> ss[i + 1].pump == ss[i].pump
  {
    RunKeepsInv(ss, acts, i);
    hide Decode, Encode, WireExact, ReadExact, CloseLast, FramesBy, Owed;
  }

  // A pump that has stopped on an unbroken connection has come to the end of
  // what can be read, or has sent a close frame.
  ghost predicate StopExact(s: State) {
    s.pump == Stopped && !s.broken ==> Decode(s.src).Err? || EndsInClose(FramesBy(s.log, Pump))
  }

  lemma UnlockKeepsStop(s: State)
    requires StopExact(s) && PumpExact(s) && Enabled(s, Unlock)
    ensures StopExact(Apply(s, Unlock))
  {
    hide Decode, Encode, FramesBy, Owed;
    if s.pump.Writing? {
      LastByPump(s.log, s.pump.frame);
    }
  }

  lemma InjectKeepsStop(s: State, frame: Frame)
    requires StopExact(s) && Enabled(s, Inject(frame))
    ensures StopExact(Apply(s, Inject(frame)))
  {
    hide Decode, Encode, FramesBy;
    var e := Entry(Injector, frame);
    LogGrows(s.log, e);
    assert FramesBy(s.log, Pump) + [] == FramesBy(s.log, Pump);
  }

  lemma StepKeepsStop(s: State, a: Action)
    requires StopExact(s) && PumpExact(s) && Enabled(s, a)
    ensures StopExact(Apply(s, a))
  {
    hide Decode, Encode, FramesBy, Owed;
    match a
    case Unlock => UnlockKeepsStop(s);
    case Inject(frame) => InjectKeepsStop(s, frame);
    case _ =>
  }

  lemma {:induction false} RunKeepsStop(ss: seq<State>, acts: seq<Action>, i: nat)
    requires Run(ss, acts) && i < |ss|
    ensures StopExact(ss[i])
  {
    if i > 0 {
      RunKeepsStop(ss, acts, i - 1);
      RunKeepsInv(ss, acts, i - 1);
      hide StopExact, Enabled, Apply, PumpExact, WireExact, ReadExact, CloseLast;
      StepKeepsStop(ss[i - 1], acts[i - 1]);
    }
  }

  // Once the pump has stopped on an unbroken connection, nothing is missing: it
  // has sent what it owes for the peer's whole stream or, if it sent a close
  // frame, for the stream up to that.
  lemma StoppedPumpIsComplete(ss: seq<State>, acts: seq<Action>, i: nat)
    requires Run(ss, acts) && i < |ss| && ss[i].pump == Stopped && !ss[i].broken
    ensures FramesBy(ss[i].log, Pump) == Owed(DecodeAll(ss[0].src), ss[i].verdicts)
    ensures |ss[i].verdicts| == |DecodeAll(ss[0].src)| || EndsInClose(FramesBy(ss[i].log, Pump))
  {
    RunKeepsInv(ss, acts, i);
    RunKeepsStop(ss, acts, i);
    hide Run;
    var s, whole := ss[i], DecodeAll(ss[0].src);
    hide Decode, FramesBy, DecodeAll, Owed;
    if Decode(s.src).Err? { NothingToDecode(s.src); }
    OwedReadsAhead(s.read, DecodeAll(s.src), s.verdicts);
    assert FramesBy(s.log, Pump) + [] == FramesBy(s.log, Pump);
  }

  // The flow records every data frame read, with its original payload whatever
  // the hook made of it, and the frames read are the first of those sent by the
  // peer.
  lemma RecordsOriginalPayloads(ss: seq<State>, acts: seq<Action>, i: nat)
    requires Run(ss, acts) && i < |ss|
    ensures ss[i].recorded == DataPayloads(ss[i].read)
    ensures ss[i].read <= DecodeAll(ss[0].src)
  {
    RunKeepsInv(ss, acts, i);
  }

  // ---------- the pump on its own ----------

  // The pump's answers as a function: the hook is asked about data frames only,
  // and its answer may depend on how many frames came before.
  type Hook = (nat, Frame) -> Verdict

  function HookVerdict(hook: Option<Hook>, n: nat, f: Frame): Verdict {
    if hook.Some? && IsData(f.opcode) then hook.value(n, f) else Forward(None)
  }

  // Everything an undisturbed pump writes for a stream, from the n-th frame on.
  function Pumped(b: bytes, hook: Option<Hook>, n: nat): bytes
    decreases |b|
  {
    match Decode(b)
    case Err(_) => []
    case Ok((f, more)) =>
      DecodeShrinks(b);
      var v := HookVerdict(hook, n, f);
      if v.Omit? then Pumped(more, hook, n + 1)
      else if f.opcode == OP_CLOSE then Encode(Edited(f, v.edit))
      else Encode(Edited(f, v.edit)) + Pumped(more, hook, n + 1)
  }

  function PumpedPayloads(b: bytes, hook: Option<Hook>, n: nat): seq<bytes>
    decreases |b|
  {
    match Decode(b)
    case Err(_) => []
    case Ok((f, more)) =>
      DecodeShrinks(b);
      var v := HookVerdict(hook, n, f);
      (if IsData(f.opcode) then [f.payload] else []) +
      if v.Forward? && f.opcode == OP_CLOSE then [] else PumpedPayloads(more, hook, n + 1)
  }

  // The pump's output and record, frame by frame: a control frame, or any frame
  // without a hook, goes out as it is; a data frame as the hook says; the close
  // frame, opcode 8, is the last. Data is recorded with its original payload.
  lemma PumpedFirst(f: Frame, more: bytes, hook: Option<Hook>, n: nat)
    requires WellFormed(f)
    ensures Pumped(Encode(f) + more, hook, n) ==
      if f.opcode !in {0, 1, 2} then Encode(f) + (if f.opcode == 8 then [] else Pumped(more, hook, n + 1))
      else if hook.None? then Encode(f) + Pumped(more, hook, n + 1)
      else match hook.value(n, f)
        case Omit => Pumped(more, hook, n + 1)
        case Forward(None) => Encode(f) + Pumped(more, hook, n + 1)
        case Forward(Some(p)) =>
          Encode(Frame(f.fin, f.opcode, f.masked, f.key, p)) + Pumped(more, hook, n + 1)
    ensures PumpedPayloads(Encode(f) + more, hook, n) ==
      if f.opcode in {0, 1, 2} then [f.payload] + PumpedPayloads(more, hook, n + 1)
      else if f.opcode == 8 then []
      else PumpedPayloads(more, hook, n + 1)
  {
    DecodeEncoded(f, more);
    hide Decode, Encode, WellFormed, Pumped, PumpedPayloads;
    PumpedNext(Encode(f) + more, f, more, hook, n);
    RecordedNext(Encode(f) + more, f, more, hook, n);
    assert Encode(f) + [] == Encode(f);
  }

  lemma PumpedNext(b: bytes, f: Frame, more: bytes, hook: Option<Hook>, n: nat)
    requires Decode(b) == Ok((f, more))
    ensures Pumped(b, hook, n) ==
      if hook.None? || f.opcode !in {0, 1, 2} then
        if f.opcode == 8 then Encode(f) else Encode(f) + Pumped(more, hook, n + 1)
      else match hook.value(n, f)
        case Omit => Pumped(more, hook, n + 1)
        case Forward(None) => Encode(f) + Pumped(more, hook, n + 1)
        case Forward(Some(p)) =>
          Encode(Frame(f.fin, f.opcode, f.masked, f.key, p)) + Pumped(more, hook, n + 1)
  {
    DecodeShrinks(b);
    hide Decode, Encode;
    var v := HookVerdict(hook, n, f);
    var rest := Pumped(more, hook, n + 1);
    assert Pumped(b, hook, n) ==
      if v.Omit? then rest
      else if f.opcode == 8 then Encode(Edited(f, v.edit)) else Encode(Edited(f, v.edit)) + rest;
    hide Pumped;
    if v.Forward? { OutgoingIs(f, v); }
  }

  lemma RecordedNext(b: bytes, f: Frame, more: bytes, hook: Option<Hook>, n: nat)
    requires Decode(b) == Ok((f, more))
    ensures PumpedPayloads(b, hook, n) ==
      if f.opcode in {0, 1, 2} then [f.payload] + PumpedPayloads(more, hook, n + 1)
      else if f.opcode == 8 then []
      else PumpedPayloads(more, hook, n + 1)
  {
    DecodeShrinks(b);
    hide Decode, Encode;
    var rest := PumpedPayloads(more, hook, n + 1);
    assert [] + rest == rest;
  }

  lemma PumpedNothing(b: bytes, hook: Option<Hook>, n: nat)
    requires Decode(b).Err?
    ensures Pumped(b, hook, n) == [] && PumpedPayloads(b, hook, n) == []
  {
  }

  class Peer {
    var wire: bytes

    constructor ()
      ensures wire == []
    {
      wire := [];
    }

    method Write(b: bytes)
      modifies this
      ensures wire == old(wire) + b
    {
      wire := wire + b;
    }
  }

  // The pump loop: read a frame, record it, ask the hook, forward; stop at a
  // close frame or when the source gives no more.
  method PumpWS(src: BufReader, dst: Peer, hook: Option<Hook>) returns (recorded: seq<bytes>)
    modifies src, dst
    ensures dst.wire == old(dst.wire) + Pumped(old(src.unread), hook, 0)
    ensures recorded == PumpedPayloads(old(src.unread), hook, 0)
  {
    hide Decode, Encode;
    recorded := [];
    ghost var b := src.unread;
    var n := 0;
    assert [] + PumpedPayloads(b, hook, 0) == PumpedPayloads(b, hook, 0);
    while true
      invariant dst.wire + Pumped(src.unread, hook, n) == old(dst.wire) + Pumped(b, hook, 0)
      invariant recorded + PumpedPayloads(src.unread, hook, n) == PumpedPayloads(b, hook, 0)
      decreases |src.unread|
    {
      ghost var unread := src.unread;
      var r := src.ReadWSFrame();
      if r.Err? {
        assert dst.wire + [] == dst.wire && recorded + [] == recorded;
        return;
      }
      DecodeShrinks(unread);
      var fr := r.value;
      ghost var verdict := HookVerdict(hook, n, fr);
      ghost var stops := verdict.Forward? && fr.opcode == OP_CLOSE;
      PumpedStep(unread, hook, n, recorded, dst.wire);
      if IsData(fr.opcode) {
        recorded := recorded + [fr.payload];
        if hook.Some? {
          var answer := hook.value(n, fr);
          if answer.Omit? {
            n := n + 1;
            continue;
          }
          fr := Edited(fr, answer.edit);
        }
      }
      dst.Write(Encode(fr));
      n := n + 1;
      if fr.opcode == OP_CLOSE {
        return;
      }
    }
  }

  // One turn of the loop, on what has been recorded and written so far.
  lemma PumpedStep(b: bytes, hook: Option<Hook>, n: nat, recorded: seq<bytes>, wire: bytes)
    requires Decode(b).Ok?
    ensures var (f, more) := Decode(b).value;
      var v := HookVerdict(hook, n, f);
      var recorded' := if IsData(f.opcode) then recorded + [f.payload] else recorded;
      if v.Omit? then
        && wire + Pumped(b, hook, n) == wire + Pumped(more, hook, n + 1)
        && recorded + PumpedPayloads(b, hook, n) == recorded' + PumpedPayloads(more, hook, n + 1)
      else if f.opcode == OP_CLOSE then
        && wire + Pumped(b, hook, n) == wire + Encode(Edited(f, v.edit))
        && recorded + PumpedPayloads(b, hook, n) == recorded'
      else
        && wire + Pumped(b, hook, n) == (wire + Encode(Edited(f, v.edit))) + Pumped(more, hook, n + 1)
        && recorded + PumpedPayloads(b, hook, n) == recorded' + PumpedPayloads(more, hook, n + 1)
  {
    hide Decode, Encode;
    var (f, more) := Decode(b).value;
    var v := HookVerdict(hook, n, f);
    DecodeShrinks(b);
    var own := if IsData(f.opcode) then [f.payload] else [];
    var tail := if v.Forward? && f.opcode == OP_CLOSE then [] else PumpedPayloads(more, hook, n + 1);
    assert PumpedPayloads(b, hook, n) == own + tail;
    assert recorded + [] == recorded && (recorded + own) + [] == recorded + own;
    hide IsData, HookVerdict, PumpedPayloads, Edited;
    Associates(recorded, own, tail);
    if v.Forward? {
      Associates(wire, Encode(Edited(f, v.edit)), Pumped(more, hook, n + 1));
    }
  }
}
