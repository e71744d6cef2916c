// The terminal emulator's replies on their way to the target: a pump that reads
// the emulator's pipe, a queue of at most 64 chunks, a forwarder that writes to
// the target, and a Close that may be called any number of times. Every action
// is one statement of one goroutine that the others can run between.
module ReplyFifo {
  import opened Common

  const FIFO_SIZE: nat := 64

  datatype Pump =
    | Reading
    | Offering(chunk: bytes, last: bool)  // read with, or without, an error beside it
    | PumpDone

  datatype Forwarder =
    | Top                          // about to look at stop
    | Selecting                    // waiting for a reply or for stop
    | Holding(chunk: bytes)        // has a reply, about to look at stop again
    | Cleared(chunk: bytes)        // stop was still open; about to write
    | Writing(chunk: bytes)        // inside the target's Write
    | WriterDone

  datatype State = State(
    hasTarget: bool,               // false: replies are discarded, no forwarder
    pump: Pump,
    queue: seq<bytes>,
    forwarder: Forwarder,
    closed: bool,
    // history, read by no transition:
    produced: seq<bytes>,          // chunks the pump has read
    kept: seq<bool>,               // for each chunk offered: was it queued?
    accepted: seq<bytes>,          // chunks queued
    taken: seq<bytes>,             // chunks the forwarder has received
    started: seq<bytes>,           // chunks whose write has started
    written: seq<bytes>,           // chunks whose write has succeeded
    stopCloses: nat,               // times the stop channel was closed
    lateStarts: nat)               // writes started after that

  datatype Action =
    | Read(chunk: bytes, last: bool)
    | ReadEnd
    | Offer
    | LookAtStop
    | Receive
    | SeeStop
    | LookAgain
    | StartWrite
    | EndWrite(ok: bool)
    | Close

  ghost predicate Init(s: State) {
    && s.pump == Reading && s.queue == [] && !s.closed
    && s.forwarder == (if s.hasTarget then Top else WriterDone)
    && s.produced == [] && s.kept == [] && s.accepted == [] && s.taken == [] && s.started == [] && s.written == []
    && s.stopCloses == 0 && s.lateStarts == 0
  }

  predicate Enabled(s: State, a: Action) {
    match a
    case Read(chunk, _) => s.pump == Reading && !s.closed && chunk != []
    case ReadEnd => s.pump == Reading          // EOF once the pipe is closed, or any error
    case Offer => s.pump.Offering?
    case LookAtStop => s.forwarder == Top
    case Receive => s.forwarder == Selecting && s.queue != []
    case SeeStop => s.forwarder == Selecting && s.closed
    case LookAgain => s.forwarder.Holding?
    case StartWrite => s.forwarder.Cleared?
    case EndWrite(_) => s.forwarder.Writing?
    case Close => true
  }

  predicate RoomFor(s: State) {
    s.hasTarget && |s.queue| < FIFO_SIZE
  }

  function Offered(s: State): State
    requires s.pump.Offering?
  {
    var t := s.(pump := if s.pump.last then PumpDone else Reading, kept := s.kept + [RoomFor(s)]);
    if RoomFor(s) then t.(queue := s.queue + [s.pump.chunk], accepted := s.accepted + [s.pump.chunk]) else t
  }

  function Apply(s: State, a: Action): State
    requires Enabled(s, a)
  {
    match a
    case Read(chunk, last) => s.(pump := Offering(chunk, last), produced := s.produced + [chunk])
    case ReadEnd => s.(pump := PumpDone)
    case Offer => Offered(s)
    case LookAtStop => s.(forwarder := if s.closed then WriterDone else Selecting)
    case Receive => s.(forwarder := Holding(s.queue[0]), queue := s.queue[1..], taken := s.taken + [s.queue[0]])
    case SeeStop => s.(forwarder := WriterDone)
    case LookAgain => s.(forwarder := if s.closed then WriterDone else Cleared(s.forwarder.chunk))
    case StartWrite =>
      s.(forwarder := Writing(s.forwarder.chunk), started := s.started + [s.forwarder.chunk],
         lateStarts := if s.closed then s.lateStarts + 1 else s.lateStarts)
    case EndWrite(ok) =>
      if ok then s.(forwarder := Top, written := s.written + [s.forwarder.chunk]) else s.(forwarder := WriterDone)
    case Close => if s.closed then s else s.(closed := true, stopCloses := s.stopCloses + 1)
  }

  // ---------- the invariant ----------

  // The elements of s whose flag is set.
  function Chosen(s: seq<bytes>, flags: seq<bool>): seq<bytes>
    requires |flags| <= |s|
  {
    if flags == [] then []
    else
      var n := |flags| - 1;
      Chosen(s, flags[..n]) + if flags[n] then [s[n]] else []
  }

  ghost predicate QueueExact(s: State) {
    && |s.queue| <= FIFO_SIZE
    && s.accepted == s.taken + s.queue
    && |s.produced| == |s.kept| + (if s.pump.Offering? then 1 else 0)
    && (s.pump.Offering? ==> s.produced[|s.kept|] == s.pump.chunk)
    && s.accepted == Chosen(s.produced, s.kept)
    && (!s.hasTarget ==> s.forwarder == WriterDone)
  }

  ghost predicate ForwarderExact(s: State) {
    && s.written <= s.started <= s.taken
    && |s.taken| <= |s.started| + 1
    && |s.started| <= |s.written| + 1
    && match s.forwarder
       case Top => s.started == s.taken && s.written == s.started
       case Selecting => s.started == s.taken && s.written == s.started
       case Holding(c) => s.taken == s.started + [c] && s.written == s.started
       case Cleared(c) => s.taken == s.started + [c] && s.written == s.started
       case Writing(c) => s.started == s.taken && s.started == s.written + [c]
       case WriterDone => true
  }

  ghost predicate StopExact(s: State) {
    && s.stopCloses == (if s.closed then 1 else 0)
    && s.lateStarts + (if s.closed && s.forwarder.Cleared? then 1 else 0) <= 1
    && (!s.closed ==> s.lateStarts == 0)
    && (s.lateStarts > 0 ==> s.forwarder in {Top, WriterDone} || s.forwarder.Writing?)
  }

  ghost predicate Inv(s: State) {
    QueueExact(s) && ForwarderExact(s) && StopExact(s)
  }

  lemma {:induction false} ChosenGrows(s: seq<bytes>, flags: seq<bool>, chunk: bytes)
    requires |flags| <= |s|
    ensures Chosen(s + [chunk], flags) == Chosen(s, flags)
  {
    if flags == [] {
    } else {
      ChosenGrows(s, flags[..|flags| - 1], chunk);
    }
  }

  lemma StepKeepsQueue(s: State, a: Action)
    requires QueueExact(s) && Enabled(s, a)
    ensures QueueExact(Apply(s, a))
  {
    match a
    case Read(chunk, _) => ChosenGrows(s.produced, s.kept, chunk);
    case Offer =>
      assert (s.kept + [RoomFor(s)])[..|s.kept|] == s.kept;
      assert s.taken + (s.queue + [s.pump.chunk]) == (s.taken + s.queue) + [s.pump.chunk];
      assert s.accepted + [] == s.accepted;
    case Receive => assert s.taken + s.queue == (s.taken + [s.queue[0]]) + s.queue[1..];
    case _ =>
  }

  lemma StepKeepsInv(s: State, a: Action)
    requires Inv(s) && Enabled(s, a)
    ensures Inv(Apply(s, a))
  {
    StepKeepsQueue(s, a);
    StepKeepsForwarder(s, a);
    StepKeepsStop(s, a);
    hide QueueExact, ForwarderExact, StopExact, Apply;
  }

  lemma StepKeepsForwarder(s: State, a: Action)
    requires ForwarderExact(s) && Enabled(s, a)
    ensures ForwarderExact(Apply(s, a))
  {
    match a
    case Receive =>
    case StartWrite =>
    case EndWrite(_) =>
    case LookAtStop =>
    case LookAgain =>
    case SeeStop =>
    case Read(_, _) => ForwarderUnmoved(s, Apply(s, a));
    case ReadEnd => ForwarderUnmoved(s, Apply(s, a));
    case Offer => ForwarderUnmoved(s, Apply(s, a));
    case Close => ForwarderUnmoved(s, Apply(s, a));
  }

  lemma ForwarderUnmoved(s: State, t: State)
    requires ForwarderExact(s)
    requires t.forwarder == s.forwarder && t.written == s.written && t.started == s.started && t.taken == s.taken
    ensures ForwarderExact(t)
  {
  }

  lemma StepKeepsStop(s: State, a: Action)
    requires StopExact(s) && Enabled(s, a)
    ensures StopExact(Apply(s, a))
  {
  }

  ghost predicate Run(ss: seq<State>, acts: seq<Action>) {
    && |ss| == |acts| + 1
    && Init(ss[0])
    && forall i :: 0 <= i < |acts| ==> Enabled(ss[i], acts[i]) && ss[i + 1] == Apply(ss[i], acts[i])
  }

  lemma {:induction false} RunKeepsInv(ss: seq<State>, acts: seq<Action>, i: nat)
    requires Run(ss, acts) && i < |ss|
    ensures Inv(ss[i])
  {
    if i == 0 {
    } else {
      RunKeepsInv(ss, acts, i - 1);
      StepKeepsInv(ss[i - 1], acts[i - 1]);
    }
  }

  // ---------- what holds in every interleaving ----------

  predicate IsSubsequence(a: seq<bytes>, b: seq<bytes>)
    decreases |b|
  {
    if a == [] then true
    else if b == [] then false
    else if a[|a| - 1] == b[|b| - 1] then IsSubsequence(a[..|a| - 1], b[..|b| - 1])
    else IsSubsequence(a, b[..|b| - 1])
  }

  lemma {:induction false} SubsequenceOfLonger(a: seq<bytes>, b: seq<bytes>, x: bytes)
    requires IsSubsequence(a, b)
    ensures IsSubsequence(a, b + [x])
    decreases |b|, 1
  {
    assert (b + [x])[..|b|] == b;
    if a != [] && a[|a| - 1] == x {
      SubsequenceWithoutLast(a, b);
    }
  }

  lemma {:induction false} SubsequenceWithoutLast(a: seq<bytes>, b: seq<bytes>)
    requires a != [] && IsSubsequence(a, b)
    ensures IsSubsequence(a[..|a| - 1], b)
    decreases |b|, 0
  {
    var n := |b| - 1;
    assert b == b[..n] + [b[n]];
    if a[|a| - 1] == b[n] {
      SubsequenceOfLonger(a[..|a| - 1], b[..n], b[n]);
    } else {
      SubsequenceWithoutLast(a, b[..n]);
      SubsequenceOfLonger(a[..|a| - 1], b[..n], b[n]);
    }
  }

  lemma {:induction false} ChosenIsSubsequence(s: seq<bytes>, flags: seq<bool>)
    requires |flags| <= |s|
    ensures IsSubsequence(Chosen(s, flags), s[..|flags|])
  {
    if flags == [] {
    } else {
      var n := |flags| - 1;
      var front := Chosen(s, flags[..n]);
      ChosenIsSubsequence(s, flags[..n]);
      assert s[..n + 1] == s[..n] + [s[n]] && s[..n + 1][..n] == s[..n];
      if flags[n] {
        assert (front + [s[n]])[..|front|] == front;
      } else {
        assert front + [] == front;
        SubsequenceOfLonger(front, s[..n], s[n]);
      }
    }
  }

  // The queue is bounded; chunks reach the target as an in-order prefix of those
  // queued, at most the last of which fails; and the queued ones are a
  // subsequence of those the emulator produced: none is displaced or reordered.
  lemma ChunksArriveInOrder(ss: seq<State>, acts: seq<Action>, i: nat)
    requires Run(ss, acts) && i < |ss|
    ensures |ss[i].queue| <= 64
    ensures ss[i].written <= ss[i].started <= ss[i].accepted
    ensures |ss[i].started| <= |ss[i].written| + 1
    ensures |ss[i].kept| <= |ss[i].produced|
    ensures IsSubsequence(ss[i].accepted, ss[i].produced[..|ss[i].kept|])
  {
    RunKeepsInv(ss, acts, i);
    ChosenIsSubsequence(ss[i].produced, ss[i].kept);
  }

  // A chunk is dropped exactly when 64 are waiting (or nobody is to be told),
  // and it is then the newest that goes.
  lemma DropsNewestExactlyWhenFull(ss: seq<State>, acts: seq<Action>, i: nat)
    requires Run(ss, acts) && i < |acts| && acts[i].Offer? && ss[i].hasTarget
    ensures ss[i].produced != []
    ensures if |ss[i].queue| == 64
      then ss[i + 1].queue == ss[i].queue
      else ss[i + 1].queue == ss[i].queue + [ss[i].produced[|ss[i].produced| - 1]]
  {
    RunKeepsInv(ss, acts, i);
  }

  // The state after taking these actions in turn, if each is possible.
  function After(s: State, acts: seq<Action>): Option<State>
    decreases |acts|
  {
    if acts == [] then Some(s)
    else if Enabled(s, acts[0]) then After(Apply(s, acts[0]), acts[1..])
    else None
  }

  // The pump reading and offering these chunks, no other goroutine moving.
  function Burst(chunks: seq<bytes>): seq<Action> {
    if chunks == [] then [] else [Read(chunks[0], false), Offer] + Burst(chunks[1..])
  }

  function FirstOf(chunks: seq<bytes>): seq<bytes> {
    if |chunks| <= FIFO_SIZE then chunks else chunks[..FIFO_SIZE]
  }

  // While the forwarder takes no step, wherever it stands - a target that never
  // returns from Write included - the pump still takes in every chunk: those
  // waiting stay, and of the new ones as many are kept as there is room for, the
  // first ones.
  lemma PumpNeverBlocked(ss: seq<State>, acts: seq<Action>, i: nat, chunks: seq<bytes>)
    requires Run(ss, acts) && i < |ss| && ss[i].pump == Reading && !ss[i].closed
    requires forall k :: 0 <= k < |chunks| ==> chunks[k] != []
    ensures After(ss[i], Burst(chunks)).Some?
    ensures var s, t := ss[i], After(ss[i], Burst(chunks)).value;
      && t.pump == Reading && t.forwarder == s.forwarder && t.produced == s.produced + chunks
      && t.queue ==
           if !s.hasTarget then s.queue
           else if |s.queue + chunks| <= 64 then s.queue + chunks
           else (s.queue + chunks)[..64]
  {
    RunKeepsInv(ss, acts, i);
    BurstGoesThrough(ss[i], chunks);
  }

  lemma {:induction false} BurstGoesThrough(s: State, chunks: seq<bytes>)
    requires s.pump == Reading && !s.closed && |s.queue| <= FIFO_SIZE
    requires forall k :: 0 <= k < |chunks| ==> chunks[k] != []
    ensures After(s, Burst(chunks)).Some?
    ensures var t := After(s, Burst(chunks)).value;
      && t.pump == Reading && t.forwarder == s.forwarder && t.produced == s.produced + chunks
      && t.queue == if s.hasTarget then FirstOf(s.queue + chunks) else s.queue
    decreases |chunks|
  {
    if chunks == [] {
      assert s.produced + chunks == s.produced && s.queue + chunks == s.queue;
    } else {
      var c, rest := chunks[0], chunks[1..];
      var t := Offered(s.(pump := Offering(c, false), produced := s.produced + [c]));
      OneChunk(s, c, Burst(rest));
      assert chunks == [c] + rest;
      BurstGoesThrough(t, rest);
      Associates(s.produced, [c], rest);
      FirstOfMore(s.queue, c, rest);
    }
  }

  lemma OneChunk(s: State, c: bytes, acts: seq<Action>)
    requires s.pump == Reading && !s.closed && c != []
    ensures After(s, [Read(c, false), Offer] + acts)
         == After(Offered(s.(pump := Offering(c, false), produced := s.produced + [c])), acts)
  {
    var all := [Read(c, false), Offer] + acts;
    assert all[1..] == [Offer] + acts && all[1..][1..] == acts;
    var t := Apply(s, all[0]);
    assert After(s, all) == After(t, all[1..]);
    assert Enabled(t, all[1..][0]);
  }

  lemma FirstOfMore(queue: seq<bytes>, c: bytes, rest: seq<bytes>)
    requires |queue| <= FIFO_SIZE
    ensures FirstOf(queue + ([c] + rest)) == FirstOf((if |queue| < FIFO_SIZE then queue + [c] else queue) + rest)
  {
    Associates(queue, [c], rest);
  }

  // A chunk's whole way through an idle terminal, to a write that succeeds and
  // leaves the forwarder ready, or to one that fails and ends it.
  lemma ChunkIsReceived(s: State, chunk: bytes)
    requires s.hasTarget && s.pump == Reading && !s.closed && s.queue == [] && s.forwarder == Top && chunk != []
    ensures var end := After(s, [Read(chunk, false), Offer] + ([LookAtStop] + ([Receive] + [])));
      && end.Some? && end.value.queue == [] && end.value.pump == Reading && !end.value.closed
      && end.value.forwarder == Holding(chunk) && end.value.written == s.written
  {
    var s1 := Offered(s.(pump := Offering(chunk, false), produced := s.produced + [chunk]));
    var s2 := s1.(forwarder := Selecting);
    assert s1.queue == [chunk] && [chunk][1..] == [];
    hide After;
    OneChunk(s, chunk, [LookAtStop] + ([Receive] + []));
    AfterFirst(s1, LookAtStop, [Receive] + []);
    AfterFirst(s2, Receive, []);
    AfterNothing(Apply(s2, Receive));
  }

  lemma ChunkIsWritten(s: State, chunk: bytes, ok: bool)
    requires !s.closed && s.forwarder == Holding(chunk)
    ensures var end := After(s, [LookAgain] + ([StartWrite] + ([EndWrite(ok)] + [])));
      && end.Some? && end.value.pump == s.pump && end.value.queue == s.queue
      && end.value.written == s.written + (if ok then [chunk] else [])
      && end.value.forwarder == if ok then Top else WriterDone
  {
    var s1 := s.(forwarder := Cleared(chunk));
    var s2 := Apply(s1, StartWrite);
    assert s.written + [] == s.written;
    hide After;
    AfterFirst(s, LookAgain, [StartWrite] + ([EndWrite(ok)] + []));
    AfterFirst(s1, StartWrite, [EndWrite(ok)] + []);
    AfterFirst(s2, EndWrite(ok), []);
    AfterNothing(Apply(s2, EndWrite(ok)));
  }

  lemma AfterFirst(s: State, a: Action, rest: seq<Action>)
    requires Enabled(s, a)
    ensures After(s, [a] + rest) == After(Apply(s, a), rest)
  {
    assert ([a] + rest)[1..] == rest;
  }

  lemma AfterNothing(s: State)
    ensures After(s, []) == Some(s)
  {
  }

  // However often Close is called, stop is closed once, and at most one write
  // starts afterwards.
  lemma StopsOnce(ss: seq<State>, acts: seq<Action>, i: nat)
    requires Run(ss, acts) && i < |ss|
    ensures ss[i].stopCloses <= 1 && ss[i].lateStarts <= 1
    ensures ss[i].closed <==> ss[i].stopCloses == 1
    ensures ss[i].closed <==> exists j :: 0 <= j < i && acts[j] == Close
  {
    RunKeepsInv(ss, acts, i);
    ClosedByClose(ss, acts, i);
  }

  lemma {:induction false} ClosedByClose(ss: seq<State>, acts: seq<Action>, i: nat)
    requires Run(ss, acts) && i < |ss|
    ensures ss[i].closed <==> exists j :: 0 <= j < i && acts[j] == Close
  {
    if i == 0 {
    } else {
      ClosedByClose(ss, acts, i - 1);
      assert ss[i] == Apply(ss[i - 1], acts[i - 1]);
    }
  }

  // Steps the two goroutines have left once Close has begun.
  function Remaining(s: State): nat {
    (match s.pump
     case Reading => 1
     case Offering(_, _) => 2
     case PumpDone => 0) +
    (match s.forwarder
     case WriterDone => 0
     case Top => 1
     case Holding(_) => 1
     case Selecting => 2
     case Writing(_) => 2
     case Cleared(_) => 3)
  }

  lemma StepsRunOut(s: State, a: Action)
    requires s.closed && Enabled(s, a) && !a.Close?
    ensures Remaining(Apply(s, a)) < Remaining(s)
  {
  }

  lemma OnlyAWriteHolds(s: State)
    requires s.closed && !s.forwarder.WriterDone? && !s.forwarder.Writing?
    ensures Enabled(s, LookAtStop) || Enabled(s, SeeStop) || Enabled(s, LookAgain) || Enabled(s, StartWrite)
  {
  }

  lemma NoneRemaining(s: State)
    ensures Remaining(s) == 0 <==> s.pump == PumpDone && s.forwarder == WriterDone
  {
  }

  // After Close both goroutines run out of steps: each step brings them nearer
  // to their end, and until then one is possible. Only a Write that the target
  // does not return from can hold the forwarder up.
  lemma ShutdownTerminates(ss: seq<State>, acts: seq<Action>, i: nat)
    requires Run(ss, acts) && i < |ss| && ss[i].closed
    ensures i < |acts| && !acts[i].Close? ==> Remaining(ss[i + 1]) < Remaining(ss[i])
    ensures !ss[i].forwarder.WriterDone? && !ss[i].forwarder.Writing? ==>
      Enabled(ss[i], LookAtStop) || Enabled(ss[i], SeeStop) || Enabled(ss[i], LookAgain) || Enabled(ss[i], StartWrite)
    ensures Remaining(ss[i]) == 0 <==> ss[i].pump == PumpDone && ss[i].forwarder == WriterDone
  {
    hide Remaining, Apply, Enabled;
    if i < |acts| && !acts[i].Close? {
      StepsRunOut(ss[i], acts[i]);
    }
    if !ss[i].forwarder.WriterDone? && !ss[i].forwarder.Writing? {
      OnlyAWriteHolds(ss[i]);
    }
    NoneRemaining(ss[i]);
  }

  // ---------- the objects ----------

  // The reply channel and the non-blocking hand-off of the pump.
  class ReplyQueue {
    var chunks: seq<bytes>

    ghost predicate Valid()
      reads this
    {
      |chunks| <= FIFO_SIZE
    }

    constructor ()
      ensures Valid() && chunks == []
    {
      chunks := [];
    }

    method Offer(chunk: bytes) returns (kept: bool)
      requires Valid()
      modifies this
      ensures Valid() && (kept <==> |old(chunks)| < 64)
      ensures chunks == if kept then old(chunks) + [chunk] else old(chunks)
    {
      if |chunks| < FIFO_SIZE {
        chunks := chunks + [chunk];
        return true;
      }
      return false;
    }

    method Take() returns (chunk: bytes)
      requires Valid() && chunks != []
      modifies this
      ensures Valid() && old(chunks) == [chunk] + chunks
    {
      chunk := chunks[0];
      chunks := chunks[1..];
    }
  }

  // The lifecycle fields guarded by the emulator's mutex.
  class VT {
    var closed: bool
    var closeErr: Option<nat>
    var stopCloses: nat
    var inputCloses: nat

    ghost predicate Valid()
      reads this
    {
      stopCloses == inputCloses == if closed then 1 else 0
    }

    constructor ()
      ensures Valid() && !closed
    {
      closed, closeErr, stopCloses, inputCloses := false, None, 0, 0;
    }

    // Closing the stop channel or the pipe twice would panic or hide the first
    // error; `inputErr` is what closing the pipe reports now.
    method Close(inputErr: Option<nat>) returns (err: Option<nat>)
      requires Valid()
      modifies this
      ensures Valid() && closed && err == closeErr
      ensures closeErr == if old(closed) then old(closeErr) else inputErr
    {
      if !closed {
        closed := true;
        stopCloses := stopCloses + 1;
        inputCloses := inputCloses + 1;
        closeErr := inputErr;
      }
      err := closeErr;
    }
  }
}
