// The gRPC wire format: one flag byte, a four-byte big-endian length, the
// message. Batch encoding and decoding, and the lenient splitting of a stream
// into complete frames that the streaming readers do.
module GrpcFrames {
  import opened Common
  import opened BigEndian

  datatype GrpcMessage = GrpcMessage(compressed: bool, data: bytes)

  datatype FrameError = TooLarge | ShortHeader | BadFlag | ShortPayload

  const MESSAGE_LIMIT: nat := 0x1_0000_0000

  predicate Fits(m: GrpcMessage) {
    |m.data| < MESSAGE_LIMIT
  }

  predicate AllFit(ms: seq<GrpcMessage>) {
    forall i :: 0 <= i < |ms| ==> Fits(ms[i])
  }

  function Flag(compressed: bool): byte {
    if compressed then 1 else 0
  }

  function Frame(m: GrpcMessage): (f: bytes)
    ensures |f| == 5 + |m.data|
  {
    [Flag(m.compressed)] + Put(|m.data|, 4) + m.data
  }

  // The frames of the messages one after the other.
  function Framed(ms: seq<GrpcMessage>): bytes {
    if ms == [] then [] else Framed(ms[..|ms| - 1]) + Frame(ms[|ms| - 1])
  }

  function Encode(ms: seq<GrpcMessage>): Result<bytes, FrameError> {
    if AllFit(ms) then Ok(Framed(ms)) else Err(TooLarge)
  }

  // ---------- a stream cut into complete frames ----------

  // The length the header declares, header included.
  function FrameSize(b: bytes): (n: nat)
    requires |b| >= 5
    ensures n >= 5
  {
    5 + Get(b[1..5])
  }

  predicate HasFrame(b: bytes) {
    |b| >= 5 && FrameSize(b) <= |b|
  }

  datatype RawFrame = RawFrame(flag: byte, data: bytes)

  function FirstFrame(b: bytes): RawFrame
    requires HasFrame(b)
  {
    RawFrame(b[0], b[5..FrameSize(b)])
  }

  // Every complete frame of b in order, whatever the flag byte says.
  function Frames(b: bytes): seq<RawFrame>
    decreases |b|
  {
    if HasFrame(b) then [FirstFrame(b)] + Frames(b[FrameSize(b)..]) else []
  }

  // What follows the last complete frame.
  function Rest(b: bytes): bytes
    decreases |b|
  {
    if HasFrame(b) then Rest(b[FrameSize(b)..]) else b
  }

  // How the streaming readers see a frame: only the lowest flag bit counts.
  function Message(f: RawFrame): GrpcMessage {
    GrpcMessage(f.flag % 2 == 1, f.data)
  }

  function Messages(fs: seq<RawFrame>): (ms: seq<GrpcMessage>)
    ensures |ms| == |fs|
    ensures forall i :: 0 <= i < |ms| ==> ms[i] == Message(fs[i])
  {
    seq(|fs|, i requires 0 <= i < |fs| => Message(fs[i]))
  }

  // The wire bytes of a raw frame.
  function RawBytes(f: RawFrame): bytes {
    [f.flag] + Put(|f.data|, 4) + f.data
  }

  lemma {:induction false} RestHasNoFrame(b: bytes)
    ensures !HasFrame(Rest(b))
    decreases |b|
  {
    if HasFrame(b) {
      RestHasNoFrame(b[FrameSize(b)..]);
    }
  }

  // More input never changes the frames already complete: splitting can go on
  // from what was left over.
  lemma {:induction false} SplitContinues(a: bytes, b: bytes)
    ensures Frames(a + b) == Frames(a) + Frames(Rest(a) + b)
    ensures Rest(a + b) == Rest(Rest(a) + b)
    decreases |a|
  {
    if HasFrame(a) {
      var n := FrameSize(a);
      FrameInPrefix(a, b);
      hide HasFrame, FrameSize, FirstFrame;
      SplitContinues(a[n..], b);
      Associates([FirstFrame(a)], Frames(a[n..]), Frames(Rest(a) + b));
    } else {
      assert Rest(a) == a && Frames(a) == [];
    }
  }

  lemma FrameInPrefix(a: bytes, b: bytes)
    requires HasFrame(a)
    ensures HasFrame(a + b) && FrameSize(a + b) == FrameSize(a) && FirstFrame(a + b) == FirstFrame(a)
    ensures (a + b)[FrameSize(a)..] == a[FrameSize(a)..] + b
  {
    var n := FrameSize(a);
    assert (a + b)[1..5] == a[1..5];
    assert (a + b)[5..n] == a[5..n];
  }

  lemma FirstFrameBytes(b: bytes)
    requires HasFrame(b)
    ensures RawBytes(FirstFrame(b)) + b[FrameSize(b)..] == b
    ensures |FirstFrame(b).data| < MESSAGE_LIMIT
  {
    var n := FrameSize(b);
    PutGet(b[1..5]);
    Limits();
    assert |b[5..n]| == Get(b[1..5]);
    assert b == [b[0]] + b[1..5] + b[5..n] + b[n..];
  }

  // A frame followed by anything is split off as that frame.
  lemma FrameSplitsOff(f: RawFrame, more: bytes)
    requires |f.data| < MESSAGE_LIMIT
    ensures HasFrame(RawBytes(f) + more)
    ensures FirstFrame(RawBytes(f) + more) == f
    ensures (RawBytes(f) + more)[FrameSize(RawBytes(f) + more)..] == more
  {
    var b := RawBytes(f) + more;
    Limits();
    GetPut(|f.data|, 4);
    assert b[1..5] == Put(|f.data|, 4);
    assert b[5..5 + |f.data|] == f.data;
    assert b[5 + |f.data|..] == more;
  }

  // ---------- the layout ----------

  // The flag byte, four bytes of length, the message.
  lemma FrameLayout(m: GrpcMessage)
    requires |m.data| < 4294967296
    ensures var f := Frame(m);
      && |f| == 5 + |m.data|
      && f[0] == (if m.compressed then 1 else 0)
      && Get([f[1], f[2], f[3], f[4]]) == |m.data|
      && f[5..] == m.data
  {
    var f := Frame(m);
    Limits();
    GetPut(|m.data|, 4);
    assert f[1..5] == Put(|m.data|, 4) && f[1..5] == [f[1], f[2], f[3], f[4]];
  }

  // What a frame says of itself, complete or not: only the lowest bit of the
  // flag byte tells whether the message is compressed.
  lemma FirstFrameLayout(b: bytes)
    requires |b| >= 5
    ensures FrameSize(b) == 5 + Get([b[1], b[2], b[3], b[4]])
    ensures HasFrame(b) <==> |b| >= FrameSize(b)
    ensures HasFrame(b) ==> Message(FirstFrame(b)) == GrpcMessage(b[0] % 2 == 1, b[5..FrameSize(b)])
  {
    assert b[1..5] == [b[1], b[2], b[3], b[4]];
  }

  // ---------- batch decoding ----------

  // Whole frames with flag 0 or 1 only.
  function Decode(b: bytes): (r: Result<seq<GrpcMessage>, FrameError>)
    decreases |b|
  {
    if b == [] then Ok([])
    else if |b| < 5 then Err(ShortHeader)
    else if b[0] != 0 && b[0] != 1 then Err(BadFlag)
    else if !HasFrame(b) then Err(ShortPayload)
    else
      var rest := Decode(b[FrameSize(b)..]);
      if rest.Err? then rest else Ok([Message(FirstFrame(b))] + rest.value)
  }

  predicate PlainFlags(fs: seq<RawFrame>) {
    forall i :: 0 <= i < |fs| ==> fs[i].flag <= 1
  }

  // Decoding accepts exactly the bodies that are a whole number of frames with
  // valid flags, and yields their messages.
  lemma {:induction false} DecodeExactly(b: bytes)
    ensures Decode(b).Ok? <==> Rest(b) == [] && PlainFlags(Frames(b))
    ensures Decode(b).Ok? ==> Decode(b).value == Messages(Frames(b))
    decreases |b|
  {
    if HasFrame(b) {
      var n := FrameSize(b);
      DecodeExactly(b[n..]);
      var fs := Frames(b[n..]);
      assert Frames(b) == [FirstFrame(b)] + fs;
      if PlainFlags(Frames(b)) {
        assert Frames(b)[0].flag <= 1;
        forall i | 0 <= i < |fs| ensures fs[i].flag <= 1 {
          assert Frames(b)[i + 1] == fs[i];
        }
      }
    }
  }

  // What strict decoding makes of the front of a body: too short for a header, a
  // flag that is none, too short for its message, or a message.
  lemma DecodeRefused(b: bytes)
    ensures b == [] ==> Decode(b) == Ok([])
    ensures 0 < |b| < 5 ==> Decode(b) == Err(ShortHeader)
    ensures |b| >= 5 && b[0] >= 2 ==> Decode(b) == Err(BadFlag)
    ensures |b| >= 5 && b[0] < 2 && |b| < FrameSize(b) ==> Decode(b) == Err(ShortPayload)
  {
    hide FrameSize;
  }

  lemma DecodeFront(b: bytes, more: bytes)
    requires |b| >= 5 && b[0] < 2 && |b| == FrameSize(b)
    ensures Decode(more).Err? ==> Decode(b + more) == Decode(more)
    ensures Decode(more).Ok? ==> Decode(b + more) == Ok([GrpcMessage(b[0] == 1, b[5..])] + Decode(more).value)
  {
    FrameInPrefix(b, more);
    assert b[FrameSize(b)..] + more == more && b[5..FrameSize(b)] == b[5..];
    hide FrameSize;
    DecodeWhole(b + more);
    hide Decode;
  }

  lemma DecodeWhole(b: bytes)
    requires HasFrame(b) && b[0] < 2
    ensures Decode(b) ==
      if Decode(b[FrameSize(b)..]).Err? then Decode(b[FrameSize(b)..])
      else Ok([Message(FirstFrame(b))] + Decode(b[FrameSize(b)..]).value)
  {
    hide FrameSize, Message, FirstFrame;
  }

  lemma {:induction false} FramedAppend(a: seq<GrpcMessage>, b: seq<GrpcMessage>)
    ensures Framed(a + b) == Framed(a) + Framed(b)
    decreases |b|
  {
    if b == [] {
      assert a + b == a;
    } else {
      var n := |b| - 1;
      assert (a + b)[..|a + b| - 1] == a + b[..n] && (a + b)[|a + b| - 1] == b[n];
      hide Frame;
      FramedAppend(a, b[..n]);
      Associates(Framed(a), Framed(b[..n]), Frame(b[n]));
    }
  }

  lemma FramedOne(m: GrpcMessage)
    ensures Framed([m]) == Frame(m)
  {
    assert Framed([m]) == Framed([]) + Frame(m);
  }

  lemma FrameIsRaw(m: GrpcMessage)
    ensures Frame(m) == RawBytes(RawFrame(Flag(m.compressed), m.data))
    ensures Message(RawFrame(Flag(m.compressed), m.data)) == m
  {
  }

  // Encoding then decoding gives back the messages...
  lemma {:induction false} DecodeEncoded(ms: seq<GrpcMessage>)
    requires AllFit(ms)
    ensures Decode(Framed(ms)) == Ok(ms)
    decreases |ms|
  {
    if ms == [] {
    } else {
      var f := RawFrame(Flag(ms[0].compressed), ms[0].data);
      assert ms == [ms[0]] + ms[1..];
      FramedAppend([ms[0]], ms[1..]);
      FramedOne(ms[0]);
      FrameIsRaw(ms[0]);
      assert Fits(ms[0]);
      FrameSplitsOff(f, Framed(ms[1..]));
      DecodeEncoded(ms[1..]);
    }
  }

  // ... and a body that decodes is the encoding of what it decodes to.
  lemma {:induction false} EncodeDecoded(b: bytes)
    requires Decode(b).Ok?
    ensures AllFit(Decode(b).value) && Framed(Decode(b).value) == b
    decreases |b|
  {
    if b == [] {
    } else {
      FirstDecoded(b);
      var m, more := Message(FirstFrame(b)), b[FrameSize(b)..];
      hide Decode, Frame, HasFrame, FirstFrame, FrameSize, Fits, Message, Framed;
      EncodeDecoded(more);
      FramedAppend([m], Decode(more).value);
      FramedOne(m);
    }
  }

  lemma FirstDecoded(b: bytes)
    requires Decode(b).Ok? && b != []
    ensures HasFrame(b) && Decode(b[FrameSize(b)..]).Ok?
    ensures var m := Message(FirstFrame(b));
      && Decode(b).value == [m] + Decode(b[FrameSize(b)..]).value
      && Fits(m) && Frame(m) + b[FrameSize(b)..] == b
  {
    DecodeStep(b);
    hide Decode, HasFrame, FrameSize, RawBytes, Frame;
    FirstFrameBytes(b);
    FrameOfPlain(FirstFrame(b));
  }

  lemma DecodeStep(b: bytes)
    requires Decode(b).Ok? && b != []
    ensures HasFrame(b) && FirstFrame(b).flag <= 1 && Decode(b[FrameSize(b)..]).Ok?
    ensures Decode(b).value == [Message(FirstFrame(b))] + Decode(b[FrameSize(b)..]).value
  {
    hide FrameSize, Message;
  }

  lemma FrameOfPlain(f: RawFrame)
    requires f.flag <= 1
    ensures Frame(Message(f)) == RawBytes(f)
  {
    FrameIsRaw(Message(f));
    hide RawBytes, Frame;
    assert RawFrame(Flag(Message(f).compressed), Message(f).data) == f;
  }

  // The encoding loop, into a growing buffer.
  method EncodeGRPCFrames(messages: seq<GrpcMessage>) returns (r: Result<bytes, FrameError>)
    ensures r == Encode(messages)
  {
    var out: bytes := [];
    for i := 0 to |messages|
      invariant AllFit(messages[..i])
      invariant out == Framed(messages[..i])
    {
      if |messages[i].data| >= MESSAGE_LIMIT {
        assert !Fits(messages[i]);
        return Err(TooLarge);
      }
      assert messages[..i + 1][..i] == messages[..i];
      out := out + Frame(messages[i]);
    }
    assert messages[..|messages|] == messages;
    return Ok(out);
  }

  // One message taken off the front goes to the end of those collected.
  lemma DecodeMore(b: bytes, messages: seq<GrpcMessage>, m: GrpcMessage)
    requires |b| >= 5 && b[0] <= 1 && HasFrame(b) && m == Message(FirstFrame(b))
    ensures var rest := Decode(b[FrameSize(b)..]);
      match Decode(b)
      case Err(e) => rest == Err(e)
      case Ok(more) => rest.Ok? && messages + more == (messages + [m]) + rest.value
  {
    var rest := Decode(b[FrameSize(b)..]);
    hide HasFrame, FirstFrame, Message, FrameSize;
    if rest.Ok? {
      Associates(messages, [m], rest.value);
    }
  }

  // The decoding loop, over a shrinking body.
  method DecodeGRPCFrames(body: bytes) returns (r: Result<seq<GrpcMessage>, FrameError>)
    ensures r == Decode(body)
  {
    var rest := body;
    var messages: seq<GrpcMessage> := [];
    assert Decode(body).Ok? ==> [] + Decode(body).value == Decode(body).value;
    while |rest| > 0
      invariant Decode(body) == match Decode(rest) case Ok(more) => Ok(messages + more) case Err(e) => Err(e)
      decreases |rest|
    {
      if |rest| < 5 {
        return Err(ShortHeader);
      }
      if rest[0] != 0 && rest[0] != 1 {
        return Err(BadFlag);
      }
      var length := Get(rest[1..5]);
      if length > |rest| - 5 {
        return Err(ShortPayload);
      }
      var end := 5 + length;
      var message := GrpcMessage(rest[0] == 1, rest[5..end]);
      DecodeMore(rest, messages, message);
      hide Decode;
      messages := messages + [message];
      rest := rest[end..];
    }
    assert messages + [] == messages;
    return Ok(messages);
  }
}
