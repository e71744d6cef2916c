// The two streaming gRPC readers, over a source that may cut its bytes into
// reads in any way and fail with any error at any point.
module GrpcReaders {
  import opened Common
  import opened BigEndian
  import opened GrpcFrames

  datatype ReadError = EOF | Failure(code: nat)

  // What one read of the underlying reader has to give.
  datatype Chunk = Chunk(data: bytes, err: Option<ReadError>)

  // The bytes a script delivers up to its first error, and that error. A script
  // that runs out ends with EOF.
  function Stream(script: seq<Chunk>): bytes {
    if script == [] then []
    else if script[0].err.Some? then script[0].data
    else script[0].data + Stream(script[1..])
  }

  function Ending(script: seq<Chunk>): ReadError {
    if script == [] then EOF
    else if script[0].err.Some? then script[0].err.value
    else Ending(script[1..])
  }

  function Weight(script: seq<Chunk>): nat {
    if script == [] then 0 else |script[0].data| + 1 + Weight(script[1..])
  }

  class Source {
    var script: seq<Chunk>

    constructor (chunks: seq<Chunk>)
      ensures script == chunks
    {
      script := chunks;
    }

    // A read may return bytes and an error together, or neither. A buffer too
    // small for the chunk takes its beginning.
    method Read(limit: nat) returns (data: bytes, err: Option<ReadError>)
      modifies this
      ensures |data| <= limit
      ensures err.None? ==> data + Stream(script) == Stream(old(script)) && Ending(script) == Ending(old(script))
      ensures err.Some? ==> data == Stream(old(script)) && err.value == Ending(old(script))
      ensures Weight(script) <= Weight(old(script))
      ensures err.None? && limit > 0 ==> Weight(script) < Weight(old(script))
    {
      if script == [] {
        return [], Some(EOF);
      }
      var c := script[0];
      if |c.data| <= limit {
        script := script[1..];
        return c.data, c.err;
      }
      var rest := Chunk(c.data[limit..], c.err);
      assert c.data[..limit] + rest.data == c.data;
      assert ([rest] + script[1..])[1..] == script[1..];
      script := [rest] + script[1..];
      assert c.data[..limit] + (rest.data + Stream(script[1..])) == c.data + Stream(script[1..]);
      return c.data[..limit], None;
    }
  }

  // ---------- splitting input as it arrives ----------

  // `buf` holds what is left of `taken` once the messages `seen` are taken off.
  ghost predicate Splitting(taken: bytes, seen: seq<GrpcMessage>, buf: bytes) {
    Messages(Frames(taken)) == seen + Messages(Frames(buf)) && Rest(taken) == Rest(buf)
  }

  lemma SplittingStarts(before: bytes, data: bytes)
    ensures Splitting(before + data, Messages(Frames(before)), Rest(before) + data)
  {
    SplitContinues(before, data);
    hide Frames, Rest, Message;
  }

  lemma FirstMessage(buf: bytes)
    requires HasFrame(buf)
    ensures Messages(Frames(buf)) == [Message(FirstFrame(buf))] + Messages(Frames(buf[FrameSize(buf)..]))
    ensures Rest(buf) == Rest(buf[FrameSize(buf)..])
  {
    MessagesCons(FirstFrame(buf), Frames(buf[FrameSize(buf)..]));
    hide HasFrame, FirstFrame, FrameSize, Message, Messages;
  }

  lemma MessagesCons(f: RawFrame, fs: seq<RawFrame>)
    ensures Messages([f] + fs) == [Message(f)] + Messages(fs)
  {
  }

  lemma SplittingStep(taken: bytes, seen: seq<GrpcMessage>, buf: bytes)
    requires Splitting(taken, seen, buf) && HasFrame(buf)
    ensures Splitting(taken, seen + [Message(FirstFrame(buf))], buf[FrameSize(buf)..])
    ensures Fits(Message(FirstFrame(buf)))
  {
    var msg, rest := Message(FirstFrame(buf)), buf[FrameSize(buf)..];
    FirstFrameBytes(buf);
    FirstMessage(buf);
    hide Frames, Rest, HasFrame, FirstFrame, FrameSize, Message, Messages, Fits;
    Associates(seen, [msg], Messages(Frames(rest)));
  }

  lemma SplittingEnds(taken: bytes, seen: seq<GrpcMessage>, buf: bytes)
    requires Splitting(taken, seen, buf) && !HasFrame(buf)
    ensures seen == Messages(Frames(taken)) && buf == Rest(taken)
  {
    assert seen + [] == seen;
  }

  // Take the first frame off a buffer, if it is complete.
  method TakeFrame(buf: bytes) returns (found: bool, msg: GrpcMessage, rest: bytes)
    ensures found <==> HasFrame(buf)
    ensures found ==> msg == Message(FirstFrame(buf)) && rest == buf[FrameSize(buf)..]
  {
    if |buf| < 5 {
      return false, GrpcMessage(false, []), buf;
    }
    var length := Get(buf[1..5]);
    if |buf| < 5 + length {
      return false, GrpcMessage(false, []), buf;
    }
    var frame := buf[..5 + length];
    assert frame[5..] == buf[5..5 + length];
    return true, GrpcMessage(frame[0] % 2 == 1, frame[5..]), buf[5 + length..];
  }

  // ---------- the tampering reader ----------

  // The transform's answer may depend on how many messages were asked about
  // before, as a human's does.
  type Transform = (nat, GrpcMessage) -> Verdict

  function Forwarded(m: GrpcMessage, edit: Option<bytes>): GrpcMessage {
    if edit.Some? then GrpcMessage(m.compressed, edit.value) else m
  }

  // The bytes one message contributes. Writing a frame whose message is too long
  // for the length field fails, and that failure is ignored.
  function Reframe(m: GrpcMessage, v: Verdict): bytes {
    if v.Forward? && Fits(Forwarded(m, v.edit)) then Frame(Forwarded(m, v.edit)) else []
  }

  function Reframed(ms: seq<GrpcMessage>, transform: Transform): bytes {
    if ms == [] then []
    else
      var n := |ms| - 1;
      Reframed(ms[..n], transform) + Reframe(ms[n], transform(n, ms[n]))
  }

  // The messages the flow records: those not omitted, as forwarded.
  function RecordedOne(m: GrpcMessage, v: Verdict): seq<GrpcMessage> {
    if v.Forward? then [Forwarded(m, v.edit)] else []
  }

  function Recorded(ms: seq<GrpcMessage>, transform: Transform): seq<GrpcMessage> {
    if ms == [] then []
    else
      var n := |ms| - 1;
      Recorded(ms[..n], transform) + RecordedOne(ms[n], transform(n, ms[n]))
  }

  lemma OneMore(ms: seq<GrpcMessage>, m: GrpcMessage, transform: Transform)
    ensures Reframed(ms + [m], transform) == Reframed(ms, transform) + Reframe(m, transform(|ms|, m))
    ensures Recorded(ms + [m], transform) == Recorded(ms, transform) + RecordedOne(m, transform(|ms|, m))
  {
    assert (ms + [m])[..|ms|] == ms;
  }

  // What the answer for one more message adds: an edit, the empty one included,
  // a frame with those bytes and the message's own flag, no edit the message's
  // frame again, an omission nothing. Beyond the length field nothing is sent.
  lemma WhatAnAnswerSends(ms: seq<GrpcMessage>, m: GrpcMessage, transform: Transform)
    ensures Reframed([], transform) == []
    ensures Reframed(ms + [m], transform) == Reframed(ms, transform) +
      match transform(|ms|, m)
      case Omit => []
      case Forward(None) => if |m.data| < 4294967296 then Frame(m) else []
      case Forward(Some(e)) => if |e| < 4294967296 then Frame(GrpcMessage(m.compressed, e)) else []
  {
    OneMore(ms, m, transform);
    assert Reframed([], transform) == [];
    hide Reframed, Frame;
  }

  lemma WhatAnAnswerRecords(ms: seq<GrpcMessage>, m: GrpcMessage, transform: Transform)
    ensures Recorded([], transform) == []
    ensures Recorded(ms + [m], transform) == Recorded(ms, transform) +
      match transform(|ms|, m)
      case Omit => []
      case Forward(None) => [m]
      case Forward(Some(e)) => [GrpcMessage(m.compressed, e)]
  {
    OneMore(ms, m, transform);
    assert Recorded([], transform) == [];
    hide Recorded;
  }

  // The whole output for a whole input: each complete frame transformed, then
  // the bytes of an unfinished frame as they are.
  function TamperedStream(b: bytes, transform: Transform): bytes {
    Reframed(Messages(Frames(b)), transform) + Rest(b)
  }

  class GrpcTamperReader {
    const src: Source
    const transform: Transform
    var incoming: bytes
    var out: bytes
    var srcErr: Option<ReadError>
    var calls: seq<GrpcMessage>      // the messages put to the transform, in order
    var recorded: seq<GrpcMessage>   // the messages the transform added to the flow

    ghost const whole: bytes         // everything the source will deliver
    ghost const ending: ReadError
    ghost var taken: bytes           // what it has delivered
    ghost var served: bytes          // what Read has returned

    // Everything delivered so far has been split, transformed and recorded.
    ghost predicate Settled()
      reads this
    {
      && calls == Messages(Frames(taken))
      && recorded == Recorded(calls, transform)
      && incoming == Rest(taken)
      && served + out == Reframed(calls, transform)
    }

    ghost predicate Finished()
      reads this
    {
      && taken == whole
      && calls == Messages(Frames(whole))
      && recorded == Recorded(calls, transform)
      && incoming == []
      && served + out == TamperedStream(whole, transform)
    }

    ghost predicate Valid()
      reads this, src
    {
      if srcErr.None? then Settled() && taken + Stream(src.script) == whole && Ending(src.script) == ending
      else Finished() && srcErr == Some(ending)
    }

    constructor (source: Source, tr: Transform)
      ensures Valid() && src == source && transform == tr
      ensures whole == Stream(source.script) && ending == Ending(source.script)
      ensures served == [] && srcErr == None
    {
      src, transform := source, tr;
      incoming, out, srcErr, calls, recorded := [], [], None, [], [];
      whole, ending, taken, served := Stream(source.script), Ending(source.script), [], [];
      new;
      assert [] + Stream(src.script) == Stream(src.script);
    }

    // Serve a caller's buffer of any size. An error comes alone, and only when
    // everything owed has been served.
    method Read(limit: nat) returns (data: bytes, err: Option<ReadError>)
      requires Valid()
      modifies this, src
      ensures Valid() && |data| <= limit
      ensures served == old(served) + data
      ensures err.Some? ==> data == [] && err.value == ending && served == TamperedStream(whole, transform)
      ensures err.Some? ==> Finished()
      ensures err.None? && limit > 0 ==> data != []
    {
      hide Reframed, Recorded, Messages, Frames, Rest, TamperedStream, Stream, Ending, Weight;
      while |out| == 0 && srcErr.None?
        invariant Valid() && served == old(served)
        decreases Weight(src.script) + if srcErr.None? then 1 else 0
      {
        Fill();
      }
      if |out| > 0 {
        var n := if limit < |out| then limit else |out|;
        data, err := out[..n], None;
        assert out == out[..n] + out[n..];
        Associates(served, out[..n], out[n..]);
        out := out[n..];
        served := served + data;
      } else {
        assert served + out == served;
        data, err := [], srcErr;
      }
    }

    // Reading with one buffer after another: for every way the source cuts its
    // bytes and every choice of buffer sizes, the bytes obtained by the time the
    // reader reports its error are the same, and no read with room comes back
    // empty-handed before that.
    method ReadAll(sizes: seq<nat>) returns (total: bytes, err: Option<ReadError>)
      requires Valid()
      modifies this, src
      ensures Valid() && served == old(served) + total
      ensures err.Some? ==> err.value == ending && served == TamperedStream(whole, transform)
      ensures err.None? && (forall i :: 0 <= i < |sizes| ==> sizes[i] > 0) ==> |total| >= |sizes|
    {
      hide TamperedStream, Stream;
      total, err := [], None;
      for i := 0 to |sizes|
        invariant Valid() && served == old(served) + total && err.None?
        invariant (forall j :: 0 <= j < |sizes| ==> sizes[j] > 0) ==> |total| >= i
      {
        var data: bytes;
        data, err := Read(sizes[i]);
        total := total + data;
        if err.Some? {
          return;
        }
      }
    }

    method Fill()
      requires Valid() && srcErr.None?
      modifies this, src
      ensures Valid() && served == old(served)
      ensures Weight(src.script) <= old(Weight(src.script))
      ensures srcErr.None? ==> Weight(src.script) < old(Weight(src.script))
    {
      var err := Pull();
      if err.Some? {
        Flush(err.value);
      }
    }

    // One read from the source, split and transformed.
    method Pull() returns (err: Option<ReadError>)
      requires Valid() && srcErr.None?
      modifies this`incoming, this`out, this`calls, this`recorded, this`taken, src
      ensures Settled()
      ensures err.None? ==> taken + Stream(src.script) == whole && Ending(src.script) == ending
      ensures err.Some? ==> taken == whole && err.value == ending
      ensures Weight(src.script) <= old(Weight(src.script))
      ensures err.None? ==> Weight(src.script) < old(Weight(src.script))
    {
      hide Reframed, Recorded, Frames, Rest, Messages;
      var data: bytes;
      data, err := src.Read(32 * 1024);
      Associates(taken, data, Stream(src.script));
      if |data| > 0 {
        Absorb(data);
      } else {
        assert taken + data == taken;
      }
    }

    method Absorb(data: bytes)
      requires Settled()
      modifies this`incoming, this`out, this`calls, this`recorded, this`taken
      ensures Settled() && taken == old(taken) + data
    {
      SplittingStarts(taken, data);
      taken := taken + data;
      incoming := incoming + data;
      Drain();
    }

    // The source has failed or ended: trailing partial bytes go out unchanged.
    method Flush(err: ReadError)
      requires Settled() && taken == whole
      modifies this`incoming, this`out, this`srcErr
      ensures Finished() && srcErr == Some(err)
    {
      assert served + (out + incoming) == (served + out) + incoming;
      if |incoming| > 0 {
        out := out + incoming;
        incoming := [];
      }
      srcErr := Some(err);
    }

    // Put every complete frame of the input to the transform, once each.
    method Drain()
      requires Splitting(taken, calls, incoming)
      requires recorded == Recorded(calls, transform)
      requires served + out == Reframed(calls, transform)
      modifies this`incoming, this`out, this`calls, this`recorded
      ensures calls == Messages(Frames(taken)) && incoming == Rest(taken)
      ensures recorded == Recorded(calls, transform)
      ensures served + out == Reframed(calls, transform)
    {
      while true
        invariant Splitting(taken, calls, incoming)
        invariant recorded == Recorded(calls, transform)
        invariant served + out == Reframed(calls, transform)
        decreases |incoming|
      {
        var found, msg, rest := TakeFrame(incoming);
        if !found {
          break;
        }
        SplittingStep(taken, calls, incoming);
        OneMore(calls, msg, transform);
        incoming := rest;
        var verdict := transform(|calls|, msg);
        calls := calls + [msg];
        Emit(msg, verdict);
      }
      SplittingEnds(taken, calls, incoming);
    }

    // Record and write out one message the way the verdict says.
    method Emit(msg: GrpcMessage, verdict: Verdict)
      modifies this`out, this`recorded
      ensures recorded == old(recorded) + RecordedOne(msg, verdict)
      ensures served + out == served + old(out) + Reframe(msg, verdict)
    {
      if verdict.Omit? {
        assert old(recorded) + [] == old(recorded);
        assert served + out + [] == served + out;
        return;
      }
      var forwarded := if verdict.edit.Some? then GrpcMessage(msg.compressed, verdict.edit.value) else msg;
      recorded := recorded + [forwarded];
      var framed := WriteFrame(forwarded);
      if framed.Ok? {
        assert served + (out + framed.value) == (served + out) + framed.value;
        out := out + framed.value;
      } else {
        assert served + out + [] == served + out;
      }
    }
  }

  method WriteFrame(m: GrpcMessage) returns (r: Result<bytes, FrameError>)
    ensures r == if Fits(m) then Ok(Frame(m)) else Err(TooLarge)
  {
    if |m.data| >= MESSAGE_LIMIT {
      return Err(TooLarge);
    }
    return Ok([if m.compressed then 1 else 0] + Put(|m.data|, 4) + m.data);
  }

  // ---------- what tampering does to a stream ----------

  lemma FrameKeepsFlagIffPlain(f: RawFrame)
    ensures |Frame(Message(f))| == |RawBytes(f)|
    ensures Frame(Message(f)) == RawBytes(f) <==> f.flag <= 1
  {
    hide Put;
    var a, b := Frame(Message(f)), RawBytes(f);
    assert a[0] == Flag(f.flag % 2 == 1) && b[0] == f.flag;
    assert a[1..] == Put(|f.data|, 4) + f.data == b[1..];
    assert a == [a[0]] + a[1..] && b == [b[0]] + b[1..];
  }

  lemma ReframeUnedited(m: GrpcMessage)
    requires Fits(m)
    ensures Reframe(m, Forward(None)) == Frame(m)
  {
  }

  lemma {:induction false} ReframedPlain(fs: seq<RawFrame>, transform: Transform)
    requires forall n, m :: transform(n, m) == Forward(None)
    requires forall i :: 0 <= i < |fs| ==> |fs[i].data| < MESSAGE_LIMIT
    ensures |Reframed(Messages(fs), transform)| == |Concat(fs)|
    ensures Reframed(Messages(fs), transform) == Concat(fs) <==> PlainFlags(fs)
  {
    if fs == [] {
    } else {
      var n := |fs| - 1;
      var front, m := fs[..n], Message(fs[n]);
      ReframedPlain(front, transform);
      LastMessage(fs);
      assert Fits(m) && transform(|front|, m) == Forward(None);
      hide Frame, RawBytes, Reframe, Reframed, Message, Messages, PlainFlags, Fits;
      ReframeUnedited(m);
      OneMore(Messages(front), m, transform);
      FrameKeepsFlagIffPlain(fs[n]);
      SameLengthConcat(Reframed(Messages(front), transform), Frame(m), Concat(front), RawBytes(fs[n]));
      PlainFlagsLast(fs);
    }
  }

  lemma LastMessage(fs: seq<RawFrame>)
    requires fs != []
    ensures Messages(fs) == Messages(fs[..|fs| - 1]) + [Message(fs[|fs| - 1])]
  {
    hide Message;
  }

  lemma PlainFlagsLast(fs: seq<RawFrame>)
    requires fs != []
    ensures PlainFlags(fs) <==> PlainFlags(fs[..|fs| - 1]) && fs[|fs| - 1].flag <= 1
  {
    assert forall i :: 0 <= i < |fs| - 1 ==> fs[..|fs| - 1][i] == fs[i];
  }

  lemma SameLengthConcat(a: bytes, b: bytes, c: bytes, d: bytes)
    requires |a| == |c|
    ensures a + b == c + d <==> a == c && b == d
  {
    if a + b == c + d {
      assert (a + b)[..|a|] == a && (c + d)[..|a|] == c;
      assert (a + b)[|a|..] == b && (c + d)[|a|..] == d;
    }
  }

  function Concat(fs: seq<RawFrame>): bytes {
    if fs == [] then [] else Concat(fs[..|fs| - 1]) + RawBytes(fs[|fs| - 1])
  }

  lemma {:induction false} ConcatAppend(a: seq<RawFrame>, b: seq<RawFrame>)
    ensures Concat(a + b) == Concat(a) + Concat(b)
    decreases |b|
  {
    if b == [] {
      assert a + b == a;
    } else {
      var n := |b| - 1;
      assert (a + b)[..|a + b| - 1] == a + b[..n] && (a + b)[|a + b| - 1] == b[n];
      hide RawBytes;
      ConcatAppend(a, b[..n]);
      Associates(Concat(a), Concat(b[..n]), RawBytes(b[n]));
    }
  }

  // Cutting a stream into frames loses nothing.
  lemma {:induction false} ConcatFrames(b: bytes)
    ensures Concat(Frames(b)) + Rest(b) == b
    ensures forall i :: 0 <= i < |Frames(b)| ==> |Frames(b)[i].data| < MESSAGE_LIMIT
    decreases |b|
  {
    if HasFrame(b) {
      var more := b[FrameSize(b)..];
      FirstFrameBytes(b);
      ConcatFrames(more);
      ConcatAppend([FirstFrame(b)], Frames(more));
      ConcatOne(FirstFrame(b));
      hide RawBytes, FirstFrame, HasFrame, FrameSize, Concat;
      Associates(RawBytes(FirstFrame(b)), Concat(Frames(more)), Rest(more));
    }
  }

  lemma ConcatOne(f: RawFrame)
    ensures Concat([f]) == RawBytes(f)
  {
    hide RawBytes;
    assert Concat([f]) == Concat([]) + RawBytes(f);
  }

  // A transform that edits nothing is the identity on exactly the streams whose
  // complete frames carry flag 0 or 1.
  lemma NoEditIsIdentityIffPlain(b: bytes, transform: Transform)
    requires forall n, m :: transform(n, m) == Forward(None)
    ensures TamperedStream(b, transform) == b <==> PlainFlags(Frames(b))
  {
    ConcatFrames(b);
    ReframedPlain(Frames(b), transform);
    SameLengthConcat(Reframed(Messages(Frames(b)), transform), Rest(b), Concat(Frames(b)), Rest(b));
  }

  // ---------- the observing reader ----------

  class GrpcFramer {
    const src: Source
    var buf: bytes
    var recorded: seq<GrpcMessage>   // the messages reported to onMessage

    ghost const whole: bytes
    ghost const ending: ReadError
    ghost var ended: bool
    ghost var taken: bytes

    ghost predicate Valid()
      reads this, src
    {
      && (if ended then taken == whole
          else taken + Stream(src.script) == whole && Ending(src.script) == ending)
      && recorded == Messages(Frames(taken))
      && buf == Rest(taken)
    }

    constructor (source: Source)
      ensures Valid() && src == source && taken == [] && !ended
      ensures whole == Stream(source.script) && ending == Ending(source.script)
    {
      src := source;
      buf, recorded := [], [];
      whole, ending, taken, ended := Stream(source.script), Ending(source.script), [], false;
      new;
      assert [] + Stream(src.script) == Stream(src.script);
    }

    // The caller gets exactly what the source gave; the messages completed so
    // far have been reported.
    method Read(limit: nat) returns (data: bytes, err: Option<ReadError>)
      requires Valid() && !ended
      modifies this, src
      ensures Valid() && taken == old(taken) + data
      ensures ended == err.Some? && (ended ==> err.value == ending)
    {
      hide Frames, Rest, Messages, Splitting;
      data, err := src.Read(limit);
      SplittingStarts(taken, data);
      assert err.None? ==> taken + (data + Stream(src.script)) == (taken + data) + Stream(src.script);
      taken, ended := taken + data, err.Some?;
      if |data| > 0 {
        buf := buf + data;
      }
      assert buf == old(buf) + data;
      Drain();
    }

    method Drain()
      requires Splitting(taken, recorded, buf)
      modifies this`buf, this`recorded
      ensures recorded == Messages(Frames(taken)) && buf == Rest(taken)
    {
      while true
        invariant Splitting(taken, recorded, buf)
        decreases |buf|
      {
        var found, msg, rest := TakeFrame(buf);
        if !found {
          break;
        }
        SplittingStep(taken, recorded, buf);
        recorded := recorded + [msg];
        buf := rest;
      }
      SplittingEnds(taken, recorded, buf);
    }
  }
}
