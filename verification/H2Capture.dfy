// Capturing HTTP/2 and gRPC request bodies as they are sent upstream, and what
// replay gets back from the capture: exactly the bytes sent, or a refusal.
module H2Capture {
  import opened Common
  import opened GrpcFrames
  import opened GrpcReaders
  import opened ContentCoding
  import opened CapturedBody

  // The record after the body has gone upstream in full.
  function Finished(cs: Codecs, m: Captured, wire: bytes, isGRPC: bool): Captured {
    if isGRPC then m.(raw := wire, body := wire, meta := m.meta[REPRESENTATION := DECODED])
    else match DecodeStrict(cs, wire, ContentEncodingOf(m.headers))
      case Err(_) => m.(raw := wire, body := wire, meta := m.meta[REPRESENTATION := UNAVAILABLE])
      case Ok(logical) => m.(raw := wire, body := logical, meta := m.meta[REPRESENTATION := DECODED])
  }

  // ---------- HTTP/2 bodies ----------

  // An empty logical body is only given back when its wire bytes or its headers
  // vouch for it.
  predicate Recoverable(m: Captured, wire: bytes, logical: bytes) {
    logical != [] || (wire != [] && !IsHeaderDump(wire)) || AbsentBodyCredible(m.headers)
  }

  // For any wire bytes and any codings: the captured body is the strict decoding
  // of the wire, or it is refused, and when it is refused is said exactly. Every
  // non-empty logical body is given back.
  lemma HTTP2BodyIsDecodedWire(cs: Codecs, m: Captured, wire: bytes)
    ensures var got := CapturedHTTP2Body(cs, Finished(cs, m, wire, false));
      match DecodeStrict(cs, wire, ContentEncodingOf(m.headers))
      case Err(_) => got == Err(Unavailable)
      case Ok(logical) => got == if Recoverable(m, wire, logical) then Ok(logical) else Err(MissingBody)
  {
  }

  // Encoding the captured body for replay and decoding that gives the same
  // logical body, exactly when the decoding cap allows the intermediate bodies.
  lemma HTTP2ReplayKeepsLogicalBody(cs: Codecs, m: Captured, wire: bytes, logical: bytes)
    requires Lawful(cs) && CapturedHTTP2Body(cs, Finished(cs, m, wire, false)) == Ok(logical)
    ensures DecodeStrict(cs, wire, ContentEncodingOf(m.headers)) == Ok(logical)
    ensures ContentEncodings(ContentEncodingOf(m.headers)).Ok?
    ensures EncodeRequestBody(cs, HTTP2, m.headers, RequestBody(logical, [])).Ok?
    ensures
      var sent := EncodeRequestBody(cs, HTTP2, m.headers, RequestBody(logical, [])).value;
      DecodeStrict(cs, sent, ContentEncodingOf(m.headers)) == Ok(logical) <==>
        logical == [] || WithinCap(cs, ContentEncodings(ContentEncodingOf(m.headers)).value, logical)
  {
    hide CapturedHTTP2Body, Finished, WithinCap, EncodeRequestBody, EncodeChain, DecodeChain, ContentEncodings,
      Lawful, ContentEncodingOf;
    HTTP2BodyIsDecodedWire(cs, m, wire);
    ContentCoding.DecodeEncoded(cs, logical, ContentEncodingOf(m.headers));
    EncodedAsHTTP(cs, m.headers, logical);
  }

  lemma EncodedAsHTTP(cs: Codecs, h: Header, logical: bytes)
    ensures EncodeRequestBody(cs, HTTP2, h, RequestBody(logical, [])) ==
      match ContentCoding.Encode(cs, logical, ContentEncodingOf(h))
      case Ok(encoded) => Ok(encoded)
      case Err(e) => Err(Coding(e))
  {
  }

  // ---------- gRPC bodies ----------

  // What the flow records for one message.
  function GrpcRecord(d: Direction, m: GrpcMessage): Captured {
    Captured(d, map[], m.data, m.data, if m.compressed then map["compressed" := "true"] else map[])
  }

  // The client messages among ms, in order, are the records of own. Responses
  // may be interleaved in any way.
  ghost predicate Records(ms: seq<Captured>, own: seq<GrpcMessage>) {
    if ms == [] then own == []
    else if ms[0].direction != ClientToServer then Records(ms[1..], own)
    else own != [] && ms[0] == GrpcRecord(ClientToServer, own[0]) && Records(ms[1..], own[1..])
  }

  lemma RecordReadsBack(m: GrpcMessage)
    ensures CapturedMessage(GrpcRecord(ClientToServer, m)) == Ok(m)
  {
    FlagTexts();
    hide Text.Trim, Text.ToLower;
  }

  lemma FlagTexts()
    ensures Text.ToLower(Text.Trim("true")) == "true" && Text.ToLower(Text.Trim("")) == ""
  {
    NothingToTrim();
    hide Text.Trim, Text.ToLower;
    Text.LowerStays("true");
    Text.LowerStays("");
  }

  lemma NothingToTrim()
    ensures Text.Trim("true") == "true" && Text.Trim("") == ""
  {
    hide Text.Trim;
    Text.TrimTrimmed("true");
    Text.TrimTrimmed("");
  }

  lemma {:induction false} RecordsCollected(ms: seq<Captured>, own: seq<GrpcMessage>)
    requires Records(ms, own)
    ensures Collected(ms) == Ok(own)
    decreases |ms|
  {
    hide CapturedMessage, GrpcRecord;
    if ms == [] {
    } else if ms[0].direction != ClientToServer {
      RecordsCollected(ms[1..], own);
    } else {
      RecordReadsBack(own[0]);
      RecordsCollected(ms[1..], own[1..]);
      assert [own[0]] + own[1..] == own;
    }
  }

  lemma DecodedPlainly(cs: Codecs, wire: bytes, header: string)
    requires NoCompression(header)
    ensures DecodedGRPCWire(cs, wire, header) ==
      match Decode(wire)
      case Err(e) => Err(Framing(e))
      case Ok(parsed) => Ok(parsed)
  {
    hide DecodeStrict, NoCompression, Decode;
    NoCompressionIsIdentity(cs, wire, header);
  }

  // The reconciliation of a finished gRPC capture: the wire decides, and the
  // recorded messages, if any, must agree with it.
  lemma ReconciledAfterFinish(cs: Codecs, m: Captured, wire: bytes, recorded: seq<GrpcMessage>)
    requires NoCompression(ContentEncodingOf(m.headers))
    ensures Reconciled(cs, Finished(cs, m, wire, true), recorded) ==
      if wire == [] then Ok(recorded)
      else match Decode(wire)
        case Err(e) => Err(Framing(e))
        case Ok(parsed) => if recorded != [] && recorded != parsed then Err(Mismatch) else Ok(parsed)
  {
    hide DecodedGRPCWire, NoCompression, Decode, ContentEncodingOf;
    DecodedPlainly(cs, wire, ContentEncodingOf(m.headers));
    var t := Finished(cs, m, wire, true);
    assert t.headers == m.headers && t.body == wire && t.raw == wire && Representation(t) == DECODED;
  }

  // What the capture as a whole gives back.
  lemma CapturedAfterFinish(cs: Codecs, m: Captured, wire: bytes, ms: seq<Captured>, own: seq<GrpcMessage>)
    requires NoCompression(ContentEncodingOf(m.headers)) && Records(ms, own)
    ensures CapturedGRPCBody(cs, CapturedFlow(GRPC, Finished(cs, m, wire, true), ms)) ==
      match Reconciled(cs, Finished(cs, m, wire, true), own)
      case Err(e) => Err(e)
      case Ok(messages) =>
        if messages == [] && !AbsentBodyCredible(m.headers) then Err(MissingBody)
        else if !CompressionValid(m.headers, messages) then Err(UnusableCompression)
        else Ok(RequestBody([], messages))
  {
    hide Reconciled, AbsentBodyCredible, CompressionValid, NoCompression, Collected, Records;
    RecordsCollected(ms, own);
    assert Representation(Finished(cs, m, wire, true)) == DECODED;
  }

  lemma EncodedAsGRPC(cs: Codecs, h: Header, ms: seq<GrpcMessage>)
    requires NoCompression(ContentEncodingOf(h))
    ensures EncodeRequestBody(cs, GRPC, h, RequestBody([], ms)) ==
      if !CompressionValid(h, ms) then Err(UnusableCompression)
      else if AllFit(ms) then Ok(Framed(ms)) else Err(Framing(TooLarge))
  {
    hide ContentCoding.Encode, GrpcFrames.Encode, DecodeStrict, NoCompression, CompressionValid, AllFit,
      ContentEncodingOf, Framed;
    NoCompressionIsIdentity(cs, Framed(ms), ContentEncodingOf(h));
    GrpcEncoded(ms);
  }

  lemma GrpcEncoded(ms: seq<GrpcMessage>)
    ensures GrpcFrames.Encode(ms) == if AllFit(ms) then Ok(Framed(ms)) else Err(TooLarge)
  {
  }

  lemma FramedEmptyIff(ms: seq<GrpcMessage>)
    ensures Framed(ms) == [] <==> ms == []
  {
  }

  // Reconstruction and re-encoding give back the bytes sent upstream exactly
  // when those are whole valid frames, usable as to compression, credible if
  // empty, and not contradicted by the recorded messages.
  lemma ReplayIsExactIff(cs: Codecs, m: Captured, wire: bytes, ms: seq<Captured>, own: seq<GrpcMessage>)
    requires NoCompression(ContentEncodingOf(m.headers)) && Records(ms, own)
    ensures ReplaysExactly(cs, m, wire, ms) <==>
      Replayable(m.headers, wire) && (own == Decode(wire).value || (own == [] && wire != []))
  {
    assert Finished(cs, m, wire, true).headers == m.headers;
    hide AbsentBodyCredible, CompressionValid, NoCompression, Records, EncodeRequestBody, CapturedGRPCBody,
      Reconciled, Finished, Framed;
    ReconciledAfterFinish(cs, m, wire, own);
    CapturedAfterFinish(cs, m, wire, ms, own);
    FramedEmptyIff(own);
    EncodedAsGRPC(cs, m.headers, own);
    if Decode(wire).Ok? {
      GrpcFrames.EncodeDecoded(wire);
      EncodedAsGRPC(cs, m.headers, Decode(wire).value);
      FramedEmptyIff(Decode(wire).value);
    }
  }

  // A gRPC flow with this request and these messages, reconstructed and encoded
  // again, gives `wire`.
  ghost predicate Replays(cs: Codecs, request: Captured, ms: seq<Captured>, wire: bytes) {
    var got := CapturedRequestBody(cs, CapturedFlow(GRPC, request, ms));
    got.Ok? && EncodeRequestBody(cs, GRPC, request.headers, got.value) == Ok(wire)
  }

  // So does the flow after the capture of `wire`.
  ghost predicate ReplaysExactly(cs: Codecs, m: Captured, wire: bytes, ms: seq<Captured>) {
    Replays(cs, Finished(cs, m, wire, true), ms, wire)
  }

  // What the wire bytes and the headers must be for that.
  ghost predicate Replayable(h: Header, wire: bytes) {
    && Decode(wire).Ok?
    && CompressionValid(h, Decode(wire).value)
    && (wire != [] || AbsentBodyCredible(h))
  }

  // The observing path records the very messages the wire decodes to, so only
  // the wire bytes and the headers decide.
  lemma ObservedReplayIsExact(cs: Codecs, m: Captured, wire: bytes, ms: seq<Captured>)
    requires NoCompression(ContentEncodingOf(m.headers)) && Records(ms, Messages(Frames(wire)))
    ensures ReplaysExactly(cs, m, wire, ms) <==> Replayable(m.headers, wire)
    ensures CapturedGRPCBody(cs, CapturedFlow(GRPC, Finished(cs, m, wire, true), ms)) != Err(Mismatch)
  {
    hide AbsentBodyCredible, CompressionValid, NoCompression, Records, Reconciled, CapturedGRPCBody, ReplaysExactly,
      Finished;
    var own := Messages(Frames(wire));
    ReplayIsExactIff(cs, m, wire, ms, own);
    GrpcFrames.DecodeExactly(wire);
    ReconciledAfterFinish(cs, m, wire, own);
    CapturedAfterFinish(cs, m, wire, ms, own);
  }

  // Messages short enough to be framed.
  function Fitting(ms: seq<GrpcMessage>): seq<GrpcMessage> {
    if ms == [] then []
    else
      var n := |ms| - 1;
      Fitting(ms[..n]) + if Fits(ms[n]) then [ms[n]] else []
  }

  lemma {:induction false} FittingIsAllIff(ms: seq<GrpcMessage>)
    ensures |Fitting(ms)| <= |ms| && AllFit(Fitting(ms))
    ensures Fitting(ms) == ms <==> AllFit(ms)
  {
    if ms == [] {
    } else {
      var n := |ms| - 1;
      FittingIsAllIff(ms[..n]);
      assert ms == ms[..n] + [ms[n]];
      assert AllFit(ms) <==> AllFit(ms[..n]) && Fits(ms[n]);
    }
  }

  lemma {:induction false} ReframedIsFramed(ms: seq<GrpcMessage>, transform: Transform)
    ensures Reframed(ms, transform) == Framed(Fitting(Recorded(ms, transform)))
  {
    if ms == [] {
    } else {
      var n := |ms| - 1;
      var before := Recorded(ms[..n], transform);
      var v := transform(n, ms[n]);
      ReframedIsFramed(ms[..n], transform);
      if v.Forward? {
        var m := Forwarded(ms[n], v.edit);
        assert (before + [m])[..|before|] == before;
        if Fits(m) {
          FramedAppend(Fitting(before), [m]);
          FramedOne(m);
        } else {
          assert Fitting(before) + [] == Fitting(before);
        }
      } else {
        assert before + [] == before;
      }
    }
  }

  lemma FramedCons(ms: seq<GrpcMessage>)
    requires ms != []
    ensures Framed(ms) == Frame(ms[0]) + Framed(ms[1..])
  {
    assert ms == [ms[0]] + ms[1..];
    FramedAppend([ms[0]], ms[1..]);
    FramedOne(ms[0]);
  }

  lemma SplitOne(m: GrpcMessage, more: bytes)
    requires Fits(m)
    ensures Messages(Frames(Frame(m) + more)) == [m] + Messages(Frames(more))
    ensures Rest(Frame(m) + more) == Rest(more)
  {
    var f := RawFrame(Flag(m.compressed), m.data);
    FrameIsRaw(m);
    FrameSplitsOff(f, more);
    hide RawBytes, FirstFrame, HasFrame, Frame;
    assert Frames(RawBytes(f) + more) == [f] + Frames(more);
  }

  lemma {:induction false} FramedSplits(ms: seq<GrpcMessage>, rest: bytes)
    requires AllFit(ms)
    ensures Messages(Frames(Framed(ms) + rest)) == ms + Messages(Frames(rest))
    ensures Rest(Framed(ms) + rest) == Rest(rest)
    decreases |ms|
  {
    if ms == [] {
      assert Framed(ms) + rest == rest;
    } else {
      assert Fits(ms[0]);
      hide Frame, Frames, Rest, Framed, Messages, Fits;
      var more := Framed(ms[1..]) + rest;
      FramedCons(ms);
      Associates(Frame(ms[0]), Framed(ms[1..]), rest);
      SplitOne(ms[0], more);
      FramedSplits(ms[1..], rest);
      assert [ms[0]] + ms[1..] == ms;
      Associates([ms[0]], ms[1..], Messages(Frames(rest)));
    }
  }

  // The tampered stream splits into the recorded messages that fit a frame,
  // followed by the same unfinished frame as the original.
  lemma TamperedStreamSplits(b: bytes, transform: Transform)
    ensures var recorded := Recorded(Messages(Frames(b)), transform);
      && Messages(Frames(TamperedStream(b, transform))) == Fitting(recorded)
      && Rest(TamperedStream(b, transform)) == Rest(b)
  {
    var recorded := Recorded(Messages(Frames(b)), transform);
    ReframedIsFramed(Messages(Frames(b)), transform);
    FittingIsAllIff(recorded);
    FramedSplits(Fitting(recorded), Rest(b));
    RestHasNoFrame(b);
    assert Fitting(recorded) + [] == Fitting(recorded);
  }

  // The tampering path: replay is exact under the same conditions, and if and
  // only if no edit made a message too long to be framed. Such an edit is
  // recorded although nothing is sent for it.
  lemma TamperedReplayIsExact(cs: Codecs, m: Captured, b: bytes, transform: Transform, ms: seq<Captured>)
    requires NoCompression(ContentEncodingOf(m.headers))
    requires Records(ms, Recorded(Messages(Frames(b)), transform))
    ensures var wire := TamperedStream(b, transform);
      ReplaysExactly(cs, m, wire, ms) <==>
        Replayable(m.headers, wire) && AllFit(Recorded(Messages(Frames(b)), transform))
  {
    hide AbsentBodyCredible, CompressionValid, NoCompression, Records, ReplaysExactly, TamperedStream, Recorded,
      Fitting, AllFit;
    var wire := TamperedStream(b, transform);
    var recorded := Recorded(Messages(Frames(b)), transform);
    ReplayIsExactIff(cs, m, wire, ms, recorded);
    TamperedStreamSplits(b, transform);
    FittingIsAllIff(recorded);
    GrpcFrames.DecodeExactly(wire);
  }

  // With the messages recorded for it, in any order among responses, a request
  // replays `wire` on exactly these conditions; an edited one needs the last.
  ghost predicate ReplaysOn(cs: Codecs, request: Captured, recorded: seq<GrpcMessage>, wire: bytes, edited: bool) {
    NoCompression(ContentEncodingOf(request.headers)) ==>
      forall ms :: Records(ms, recorded) ==>
        (Replays(cs, request, ms, wire) <==> Replayable(request.headers, wire) && (edited ==> AllFit(recorded)))
  }

  lemma ObservedReplaysOn(cs: Codecs, m: Captured, wire: bytes)
    ensures ReplaysOn(cs, Finished(cs, m, wire, true), Messages(Frames(wire)), wire, false)
  {
    assert Finished(cs, m, wire, true).headers == m.headers;
    hide Finished, NoCompression, ContentEncodingOf, Records, Replayable, Replays, Frames, AllFit;
    if NoCompression(ContentEncodingOf(m.headers)) {
      forall ms | Records(ms, Messages(Frames(wire)))
        ensures Replays(cs, Finished(cs, m, wire, true), ms, wire) <==> Replayable(m.headers, wire)
      {
        ObservedReplayIsExact(cs, m, wire, ms);
      }
    }
  }

  lemma TamperedReplaysOn(cs: Codecs, m: Captured, b: bytes, transform: Transform)
    ensures var wire := TamperedStream(b, transform);
      ReplaysOn(cs, Finished(cs, m, wire, true), Recorded(Messages(Frames(b)), transform), wire, true)
  {
    var wire, recorded := TamperedStream(b, transform), Recorded(Messages(Frames(b)), transform);
    assert Finished(cs, m, wire, true).headers == m.headers;
    hide Finished, NoCompression, ContentEncodingOf, Records, Replayable, Replays, Frames, Recorded, TamperedStream,
      AllFit;
    if NoCompression(ContentEncodingOf(m.headers)) {
      forall ms | Records(ms, recorded)
        ensures Replays(cs, Finished(cs, m, wire, true), ms, wire) <==> Replayable(m.headers, wire) && AllFit(recorded)
      {
        TamperedReplayIsExact(cs, m, b, transform, ms);
      }
    }
  }

  // An edit of 2^32 bytes or more: nothing is sent for it, it is recorded all the
  // same, and the flow cannot be replayed.
  lemma LongEditIsNotReplayed(cs: Codecs, m: Captured, message: GrpcMessage, edit: bytes, transform: Transform,
                              ms: seq<Captured>)
    requires NoCompression(ContentEncodingOf(m.headers)) && Fits(message)
    requires |edit| >= MESSAGE_LIMIT && transform(0, message) == Forward(Some(edit))
    requires Records(ms, [GrpcMessage(message.compressed, edit)])
    ensures TamperedStream(Frame(message), transform) == []
    ensures Recorded(Messages(Frames(Frame(message))), transform) == [GrpcMessage(message.compressed, edit)]
    ensures !ReplaysExactly(cs, m, [], ms)
  {
    var own := [GrpcMessage(message.compressed, edit)];
    hide ReplaysExactly, Replayable, Recorded, Frames, NoCompression, Records, ContentEncodingOf, Frame, TamperedStream;
    LongEditLeavesNothing(message, edit, transform);
    assert !Fits(own[0]);
    TamperedReplayIsExact(cs, m, Frame(message), transform, ms);
  }

  lemma LongEditLeavesNothing(message: GrpcMessage, edit: bytes, transform: Transform)
    requires Fits(message) && |edit| >= MESSAGE_LIMIT && transform(0, message) == Forward(Some(edit))
    ensures TamperedStream(Frame(message), transform) == []
    ensures Recorded(Messages(Frames(Frame(message))), transform) == [GrpcMessage(message.compressed, edit)]
  {
    hide Frame, Frames, Rest;
    OneFrame(message);
    assert [message][..0] == [];
    assert Recorded([message], transform) == RecordedOne(message, transform(0, message));
    assert Reframed([message], transform) == Reframe(message, transform(0, message)) == [];
  }

  lemma OneFrame(message: GrpcMessage)
    requires Fits(message)
    ensures Messages(Frames(Frame(message))) == [message] && Rest(Frame(message)) == []
  {
    SplitOne(message, []);
    hide Frame, Fits;
    assert Frame(message) + [] == Frame(message);
  }

  // A request marked unavailable is refused whatever messages go with it.
  ghost predicate Refused(cs: Codecs, request: Captured) {
    forall ms :: CapturedRequestBody(cs, CapturedFlow(GRPC, request, ms)) == Err(Unavailable)
  }

  // ---------- the capturing reader ----------

  class RequestRecord {
    var message: Captured

    constructor (m: Captured)
      ensures message == m
    {
      message := m;
    }
  }

  method FinishH2RequestCapture(cs: Codecs, record: RequestRecord, wire: bytes, isGRPC: bool)
    modifies record
    ensures record.message == Finished(cs, old(record.message), wire, isGRPC)
    ensures record.message.raw == wire
    ensures record.message.headers == old(record.message.headers)
    ensures isGRPC ==>
      && record.message.body == wire
      && record.message.meta == old(record.message.meta)["body-representation" := "decoded"]
    ensures !isGRPC ==>
      match DecodeStrict(cs, wire, ContentEncodingOf(old(record.message.headers)))
      case Ok(logical) =>
        && record.message.body == logical
        && record.message.meta == old(record.message.meta)["body-representation" := "decoded"]
      case Err(_) =>
        && record.message.body == wire
        && record.message.meta == old(record.message.meta)["body-representation" := "unavailable"]
  {
    record.message := record.message.(raw := wire);
    if isGRPC {
      record.message := record.message.(body := wire);
    } else {
      var logical := DecodeContentEncodingStrict(cs, wire, ContentEncodingOf(record.message.headers));
      if logical.Err? {
        record.message := record.message.(body := wire, meta := record.message.meta[REPRESENTATION := UNAVAILABLE]);
        return;
      }
      record.message := record.message.(body := logical.value);
    }
    record.message := record.message.(meta := record.message.meta[REPRESENTATION := DECODED]);
  }

  // A gRPC request body on its way upstream: the observer or the tamperer,
  // copied to `wire` as it is read, completing the record at EOF.
  class CapturedUpload {
    const cs: Codecs
    const framer: GrpcFramer?
    const tamperer: GrpcTamperReader?
    const record: RequestRecord
    const expectedLength: int
    var wire: bytes
    var done: bool

    ghost predicate Linked()
      reads this
    {
      && (framer == null <==> tamperer != null)
      && (framer != null ==> framer.src as object != framer)
      && (tamperer != null ==> tamperer.src as object != tamperer)
    }

    // What will have gone upstream by the end.
    ghost function Output(): bytes
      reads this
      requires Linked()
    {
      if framer != null then framer.whole else TamperedStream(tamperer.whole, tamperer.transform)
    }

    // Until the body is done the record is marked unavailable.
    ghost predicate Valid()
      reads this, record, framer, tamperer
      reads if framer != null then {framer.src} else {}, if tamperer != null then {tamperer.src} else {}
    {
      && Linked()
      && (!done ==> Representation(record.message) == UNAVAILABLE)
      && (tamperer != null ==> expectedLength == -1)
      && (framer != null ==> framer.Valid() && wire == framer.taken)
      && (tamperer != null ==> tamperer.Valid() && wire == tamperer.served)
    }

    constructor Observe(c: Codecs, f: GrpcFramer, r: RequestRecord, expected: int)
      requires f.Valid() && f.taken == [] && Representation(r.message) == UNAVAILABLE
      ensures Valid() && framer == f && record == r && cs == c && expectedLength == expected && wire == [] && !done
    {
      cs, framer, tamperer, record, expectedLength := c, f, null, r, expected;
      wire, done := [], false;
    }

    constructor Tamper(c: Codecs, t: GrpcTamperReader, r: RequestRecord)
      requires t.Valid() && t.served == [] && Representation(r.message) == UNAVAILABLE
      ensures Valid() && tamperer == t && record == r && cs == c && expectedLength == -1 && wire == [] && !done
    {
      cs, framer, tamperer, record, expectedLength := c, null, t, r, -1;
      wire, done := [], false;
    }

    // The record is completed by the read that reports EOF, and by no other.
    method Read(limit: nat) returns (data: bytes, err: Option<ReadError>)
      requires Valid() && (framer != null ==> !framer.ended)
      modifies this, record, framer, tamperer
      modifies if framer != null then {framer.src} else {}, if tamperer != null then {tamperer.src} else {}
      ensures Valid() && wire == old(wire) + data
      ensures framer != null ==> framer.ended == err.Some?
      ensures err.Some? ==> wire == Output() && (tamperer != null ==> tamperer.Finished())
      ensures done <==> old(done) || err == Some(EOF)
      ensures record.message ==
        if !old(done) && done then Finished(cs, old(record.message), Output(), true) else old(record.message)
    {
      if framer != null {
        data, err := framer.Read(limit);
      } else {
        data, err := tamperer.Read(limit);
      }
      wire := wire + data;
      if err == Some(EOF) && !done {
        done := true;
        FinishH2RequestCapture(cs, record, wire, true);
      }
    }

    // Messages recorded on the flow so far.
    ghost function RecordedMessages(): seq<GrpcMessage>
      reads this, framer, tamperer
      requires Linked()
    {
      if framer != null then framer.recorded else tamperer.recorded
    }

    // The record as it is now replays exactly what went upstream, on exactly the
    // conditions of the observing or the tampering path.
    ghost predicate ReplaysIff()
      reads this, record, framer, tamperer
      requires Linked()
    {
      ReplaysOn(cs, record.message, RecordedMessages(), wire, tamperer != null)
    }

    // However the source cuts its bytes and whatever buffers the transport
    // offers: an upload read to EOF leaves a record that replays exactly the
    // bytes that went upstream, on the conditions above; one that has not been,
    // or was cut short by any other error, leaves a record that is refused.
    method ReadToEnd(sizes: seq<nat>) returns (err: Option<ReadError>)
      requires Valid() && !done && wire == [] && (framer != null ==> !framer.ended)
      modifies this, record, framer, tamperer
      modifies if framer != null then {framer.src} else {}, if tamperer != null then {tamperer.src} else {}
      ensures Valid() && (done <==> err == Some(EOF))
      ensures err == Some(EOF) ==> wire == Output() && record.message == Finished(cs, old(record.message), wire, true)
      ensures err == Some(EOF) ==> ReplaysIff()
      ensures err != Some(EOF) ==> record.message == old(record.message) && Refused(cs, record.message)
    {
      hide ReplaysOn, Finished, TamperedStream, Frames, Recorded;
      err := None;
      for i := 0 to |sizes|
        invariant Valid() && !done && err.None? && (framer != null ==> !framer.ended)
        invariant record.message == old(record.message)
      {
        var data: bytes;
        data, err := Read(sizes[i]);
        if err == Some(EOF) {
          if framer != null {
            ObservedReplaysOn(cs, old(record.message), wire);
          } else {
            TamperedReplaysOn(cs, old(record.message), tamperer.whole, tamperer.transform);
          }
        }
        if err.Some? {
          return;
        }
      }
    }

    // Closing completes the record of a body whose announced length has been
    // read in full although EOF never was; any other unfinished record stays
    // refused.
    method Close()
      requires Valid()
      modifies this`done, record
      ensures Valid() && done
      ensures record.message ==
        if !old(done) && expectedLength > 0 && |wire| == expectedLength
        then Finished(cs, old(record.message), wire, true) else old(record.message)
      ensures !old(done) ==>
        if expectedLength > 0 && |wire| == expectedLength then ReplaysIff() else Refused(cs, record.message)
    {
      hide ReplaysOn, Finished, TamperedStream, Frames, Recorded;
      if !done {
        done := true;
        if expectedLength > 0 && |wire| == expectedLength {
          FinishH2RequestCapture(cs, record, wire, true);
          ObservedReplaysOn(cs, old(record.message), wire);
        }
      }
    }
  }
}
