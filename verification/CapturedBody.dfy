// Reconstructing a replayable request body from what a flow recorded, and
// encoding it for the wire again. Refusals are values, one per cause.
module CapturedBody {
  import opened Common
  import opened Text
  import opened GrpcFrames
  import opened ContentCoding

  type Header = map<string, seq<string>>

  datatype Direction = ClientToServer | ServerToClient

  datatype Captured = Captured(
    direction: Direction, headers: Header, body: bytes, raw: bytes, meta: map<string, string>)

  datatype Protocol = HTTP2 | GRPC

  datatype CapturedFlow = CapturedFlow(protocol: Protocol, request: Captured, messages: seq<Captured>)

  // What replay sends: an HTTP body, or gRPC messages.
  datatype RequestBody = RequestBody(body: bytes, messages: seq<GrpcMessage>)

  datatype Refusal =
    | Unavailable
    | Coding(coding: CodingError)
    | Framing(frame: FrameError)
    | Mismatch
    | Ambiguous
    | BadCompressionFlag
    | UnusableCompression
    | MissingBody
    | UnexpectedMessages
    | UnexpectedBody

  const REPRESENTATION := "body-representation"
  const DECODED := "decoded"
  const UNAVAILABLE := "unavailable"

  // " HTTP/2\r\n", which only a header dump is expected to contain.
  const DUMP_MARK: bytes := [32, 72, 84, 84, 80, 47, 50, 13, 10]

  function Values(h: Header, key: string): seq<string> {
    if key in h then h[key] else []
  }

  function First(h: Header, key: string): string {
    if Values(h, key) == [] then "" else Values(h, key)[0]
  }

  function ContentEncodingOf(h: Header): string {
    Join(Values(h, "Content-Encoding"), ",")
  }

  function Representation(m: Captured): string {
    if REPRESENTATION in m.meta then m.meta[REPRESENTATION] else ""
  }

  predicate MarkAt(raw: bytes, i: int) {
    0 <= i <= |raw| - |DUMP_MARK| && raw[i..i + |DUMP_MARK|] == DUMP_MARK
  }

  predicate IsHeaderDump(raw: bytes) {
    exists i :: 0 <= i <= |raw| && MarkAt(raw, i)
  }

  // A message without a body is believed only if its headers do not announce one.
  predicate AbsentBodyCredible(h: Header) {
    var length := Trim(First(h, "Content-Length"));
    var transfer := Trim(First(h, "Transfer-Encoding"));
    && (length == "" || ParseInt64(length) == Some(0))
    && (transfer == "" || ToAsciiLower(transfer) == "identity")
  }

  predicate NamesCompression(header: string) {
    var parts := Split(header, ",");
    exists i :: 0 <= i < |parts| && Trim(parts[i]) != "" && ToAsciiLower(Trim(parts[i])) != "identity"
  }

  predicate EncodedBodyIsAmbiguous(m: Captured) {
    NamesCompression(ContentEncodingOf(m.headers)) && Representation(m) != DECODED
  }

  function BodyWithoutRaw(cs: Codecs, m: Captured): Result<bytes, Refusal> {
    match ContentCoding.Encode(cs, [], ContentEncodingOf(m.headers))
    case Err(e) => Err(Coding(e))
    case Ok(_) =>
      if EncodedBodyIsAmbiguous(m) then Err(Ambiguous)
      else if m.body != [] then Ok(m.body)
      else if AbsentBodyCredible(m.headers) then Ok([])
      else Err(MissingBody)
  }

  function DecodedWire(cs: Codecs, wire: bytes, h: Header): Result<bytes, Refusal> {
    match DecodeStrict(cs, wire, ContentEncodingOf(h))
    case Err(e) => Err(Coding(e))
    case Ok(logical) => Ok(logical)
  }

  function CapturedHTTP2Body(cs: Codecs, m: Captured): Result<bytes, Refusal> {
    if Representation(m) == UNAVAILABLE then Err(Unavailable)
    else if Representation(m) == DECODED && m.raw != [] && !IsHeaderDump(m.raw) then
      var logical := DecodedWire(cs, m.raw, m.headers);
      if logical.Ok? && logical.value != m.body then Err(Mismatch) else logical
    else if m.body == [] then
      if Representation(m) != DECODED && IsHeaderDump(m.raw) then Err(Unavailable)
      else if Representation(m) == "" && m.raw == [] then
        match ContentCoding.Encode(cs, [], ContentEncodingOf(m.headers))
        case Err(e) => Err(Coding(e))
        case Ok(_) => if AbsentBodyCredible(m.headers) then Ok([]) else Err(MissingBody)
      else BodyWithoutRaw(cs, m)
    else if m.raw != [] && m.raw == m.body then DecodedWire(cs, m.raw, m.headers)
    else match ContentCoding.Encode(cs, [], ContentEncodingOf(m.headers))
      case Err(e) => Err(Coding(e))
      case Ok(_) => if EncodedBodyIsAmbiguous(m) then Err(Ambiguous) else Ok(m.body)
  }

  // ---------- what the headers say ----------

  // The Content-Encoding values in order, joined by commas.
  lemma JoinedHeader(h: Header, values: seq<string>, v: string)
    ensures "Content-Encoding" !in h ==> ContentEncodingOf(h) == ""
    ensures ContentEncodingOf(h["Content-Encoding" := []]) == ""
    ensures ContentEncodingOf(h["Content-Encoding" := [v]]) == v
    ensures values != [] ==>
      ContentEncodingOf(h["Content-Encoding" := values + [v]]) ==
        ContentEncodingOf(h["Content-Encoding" := values]) + "," + v
  {
    if values != [] {
      JoinAppend(values, [v], ",");
    }
  }

  // A missing body is believed without a length and transfer coding, or with a
  // length of zero and no coding but identity.
  lemma CredibleIff(h: Header)
    ensures AbsentBodyCredible(h) <==>
      && ("Content-Length" in h && h["Content-Length"] != [] ==>
            var v := Trim(h["Content-Length"][0]); v == "" || ParseInt64(v) == Some(0))
      && ("Transfer-Encoding" in h && h["Transfer-Encoding"] != [] ==>
            var v := Trim(h["Transfer-Encoding"][0]); v == "" || ToAsciiLower(v) == "identity")
  {
    assert Trim("") == "";
  }

  // Compressed messages can be used when a compression is named for them.
  lemma UsableIff(h: Header)
    ensures CompressionUsable(h) <==>
      && "Grpc-Encoding" in h && h["Grpc-Encoding"] != []
      && Trim(h["Grpc-Encoding"][0]) != "" && ToAsciiLower(Trim(h["Grpc-Encoding"][0])) != "identity"
  {
    assert Trim("") == "";
  }

  // ---------- what any HTTP/2 record gives back ----------

  // Nothing is made up: what is given back is the recorded body or the decoding
  // of the recorded bytes, and both where the record says so and has both.
  lemma HTTP2NeverInvents(cs: Codecs, m: Captured, b: bytes)
    requires CapturedHTTP2Body(cs, m) == Ok(b)
    ensures Representation(m) != UNAVAILABLE
    ensures b == m.body || (m.raw != [] && DecodeStrict(cs, m.raw, ContentEncodingOf(m.headers)) == Ok(b))
    ensures Representation(m) == DECODED && m.raw != [] && !IsHeaderDump(m.raw) ==>
      b == m.body && DecodeStrict(cs, m.raw, ContentEncodingOf(m.headers)) == Ok(b)
    ensures m.body != [] && m.raw == m.body && Representation(m) != DECODED ==>
      DecodeStrict(cs, m.raw, ContentEncodingOf(m.headers)) == Ok(b)
    ensures b == [] ==> AbsentBodyCredible(m.headers) || DecodeStrict(cs, m.raw, ContentEncodingOf(m.headers)) == Ok([])
  {
    hide DecodeStrict, ContentEncodingOf, AbsentBodyCredible, NamesCompression, IsHeaderDump;
  }

  // A body recorded next to other bytes is not given back when a compression is
  // named and nothing says that the body is the decoded one.
  lemma HTTP2AmbiguousIsRefused(cs: Codecs, m: Captured)
    requires NamesCompression(ContentEncodingOf(m.headers)) && Representation(m) !in {DECODED, UNAVAILABLE}
    requires m.body != [] && m.raw != m.body
    ensures CapturedHTTP2Body(cs, m) ==
      match ContentEncodings(ContentEncodingOf(m.headers))
      case Err(e) => Err(Coding(e))
      case Ok(_) => Err(Ambiguous)
  {
    hide ContentEncodings, ContentEncodingOf, NamesCompression, IsHeaderDump;
  }

  // Without compression every recorded body is given back, marked or not, unless
  // the recorded bytes contradict it.
  lemma HTTP2PlainBody(cs: Codecs, m: Captured)
    requires NoCompression(ContentEncodingOf(m.headers)) && !NamesCompression(ContentEncodingOf(m.headers))
    requires m.body != [] && Representation(m) != UNAVAILABLE
    ensures CapturedHTTP2Body(cs, m) ==
      if Representation(m) == DECODED && m.raw != [] && !IsHeaderDump(m.raw) && m.raw != m.body
      then Err(Mismatch) else Ok(m.body)
  {
    hide DecodeStrict, ContentCoding.Encode, ContentEncodingOf, NamesCompression, IsHeaderDump, NoCompression,
      DecodedWire, AbsentBodyCredible, BodyWithoutRaw, Representation, ContentEncodings;
    PlainWire(cs, m.raw, m.headers);
    PlainWire(cs, [], m.headers);
  }

  // A missing body is given back as empty when the headers allow it, but not for
  // an unmarked header dump, whose body was never recorded.
  lemma HTTP2MissingBody(cs: Codecs, m: Captured)
    requires NoCompression(ContentEncodingOf(m.headers)) && !NamesCompression(ContentEncodingOf(m.headers))
    requires m.body == [] && Representation(m) != UNAVAILABLE
    requires Representation(m) == DECODED ==> m.raw == [] || IsHeaderDump(m.raw)
    ensures CapturedHTTP2Body(cs, m) ==
      if Representation(m) != DECODED && IsHeaderDump(m.raw) then Err(Unavailable)
      else if AbsentBodyCredible(m.headers) then Ok([]) else Err(MissingBody)
  {
    hide DecodeStrict, ContentCoding.Encode, ContentEncodingOf, NamesCompression, IsHeaderDump, NoCompression,
      DecodedWire, AbsentBodyCredible, Representation, ContentEncodings;
    PlainWire(cs, m.raw, m.headers);
    PlainWire(cs, [], m.headers);
  }

  lemma PlainWire(cs: Codecs, wire: bytes, h: Header)
    requires NoCompression(ContentEncodingOf(h))
    ensures DecodedWire(cs, wire, h) == Ok(wire)
    ensures ContentCoding.Encode(cs, wire, ContentEncodingOf(h)) == Ok(wire)
  {
    hide DecodeStrict, ContentCoding.Encode, ContentEncodingOf, NoCompression;
    NoCompressionIsIdentity(cs, wire, ContentEncodingOf(h));
  }

  // For a header that is accepted and plain ASCII, the two ways of asking whether
  // it names a compression agree.
  lemma NamesCompressionIff(header: string)
    requires ContentEncodings(header).Ok? && forall i :: 0 <= i < |header| ==> header[i] as int < 128
    ensures NamesCompression(header) <==> !NoCompression(header)
  {
    var parts := Split(header, ",");
    if Trim(header) == "" {
      BlankHasNoComma(header);
    } else {
      PartsParsed(parts);
      forall i | 0 <= i < |parts|
        ensures NamesOne(parts[i]) <==> ContentEncodings(header).value[i] != Identity
      {
        PartIsAscii(header, i);
        NamedByPart(parts[i]);
      }
      hide Split, Trim, ToAsciiLower, ParseOne;
      assert NamesCompression(header) <==> exists i :: 0 <= i < |parts| && NamesOne(parts[i]);
    }
  }

  predicate NamesOne(part: string) {
    Trim(part) != "" && ToAsciiLower(Trim(part)) != "identity"
  }

  lemma BlankHasNoComma(header: string)
    requires Trim(header) == ""
    ensures Split(header, ",") == [header]
  {
    var i := Index(header, ",");
    if i >= 0 {
      CharOf(header, ",", i, i);
      NotBlank(header, i);
    }
  }

  predicate Ascii(s: string) {
    forall i :: 0 <= i < |s| ==> s[i] as int < 128
  }

  lemma {:induction false} PartsAscii(s: string)
    requires Ascii(s)
    ensures forall k :: 0 <= k < |Split(s, ",")| ==> Ascii(Split(s, ",")[k])
    decreases |s|
  {
    var i := Index(s, ",");
    if i >= 0 {
      assert Ascii(s[..i]) && Ascii(s[i + 1..]);
      assert Split(s, ",") == [s[..i]] + Split(s[i + 1..], ",");
      hide Ascii, Index, Split;
      PartsAscii(s[i + 1..]);
    }
  }

  lemma PartIsAscii(header: string, i: nat)
    requires Ascii(header) && i < |Split(header, ",")|
    ensures Ascii(Split(header, ",")[i])
  {
    PartsAscii(header);
  }

  lemma TrimIsAscii(part: string)
    requires Ascii(part)
    ensures Ascii(Trim(part))
  {
    var l, r := TrimTakesSpaces(part);
    hide Trim;
  }

  lemma LowerOfAscii(t: string)
    requires Ascii(t)
    ensures ToLower(t) == ToAsciiLower(t)
  {
  }

  lemma KnownIsNotBlank(part: string)
    requires KnownPart(part)
    ensures Trim(part) != ""
  {
    hide Trim;
    assert |ToLower(Trim(part))| > 0;
  }

  lemma NamedByPart(part: string)
    requires Ascii(part) && ParseOne(part).Ok?
    ensures NamesOne(part) <==> ParseOne(part).value != Identity
  {
    TrimIsAscii(part);
    LowerOfAscii(Trim(part));
    hide Trim, ToLower, ToAsciiLower, ParseOne, KnownPart, Ascii;
    if KnownPart(part) {
      KnownIsParsed(part);
      KnownIsNotBlank(part);
    } else {
      UnknownIsRefused(part);
    }
  }

  // ---------- gRPC ----------

  function CompressionFlag(m: Captured): Result<bool, Refusal> {
    var value := ToLower(Trim(if "compressed" in m.meta then m.meta["compressed"] else ""));
    if value == "" || value == "false" then Ok(false)
    else if value == "true" then Ok(true)
    else Err(BadCompressionFlag)
  }

  function CapturedMessage(m: Captured): Result<GrpcMessage, Refusal> {
    match CompressionFlag(m)
    case Err(e) => Err(e)
    case Ok(compressed) =>
      if m.raw != [] && m.raw != m.body then Err(Mismatch) else Ok(GrpcMessage(compressed, m.body))
  }

  // The client's messages among those recorded, or the first one's refusal.
  function Collected(ms: seq<Captured>): Result<seq<GrpcMessage>, Refusal> {
    if ms == [] then Ok([])
    else if ms[0].direction != ClientToServer then Collected(ms[1..])
    else match CapturedMessage(ms[0])
      case Ok(m) => Prepended([m], Collected(ms[1..]))
      case Err(e) => Err(e)
  }

  function Prepended(front: seq<GrpcMessage>, r: Result<seq<GrpcMessage>, Refusal>): Result<seq<GrpcMessage>, Refusal> {
    match r
    case Ok(ms) => Ok(front + ms)
    case Err(e) => Err(e)
  }

  lemma PrependedTwice(a: seq<GrpcMessage>, b: seq<GrpcMessage>, r: Result<seq<GrpcMessage>, Refusal>)
    ensures Prepended(a, Prepended(b, r)) == Prepended(a + b, r)
    ensures Prepended([], r) == r
  {
    if r.Ok? {
      assert a + (b + r.value) == (a + b) + r.value && [] + r.value == r.value;
    }
  }

  method CollectMessages(ms: seq<Captured>) returns (r: Result<seq<GrpcMessage>, Refusal>)
    ensures r == Collected(ms)
  {
    var messages: seq<GrpcMessage> := [];
    assert ms[0..] == ms;
    PrependedTwice([], [], Collected(ms));
    for i := 0 to |ms|
      invariant Collected(ms) == Prepended(messages, Collected(ms[i..]))
    {
      assert ms[i..][1..] == ms[i + 1..];
      if ms[i].direction != ClientToServer {
        continue;
      }
      var one := CapturedMessage(ms[i]);
      if one.Err? {
        return Err(one.error);
      }
      PrependedTwice(messages, [one.value], Collected(ms[i + 1..]));
      messages := messages + [one.value];
    }
    assert messages + [] == messages;
    return Ok(messages);
  }

  predicate CompressionUsable(h: Header) {
    var encoding := Trim(First(h, "Grpc-Encoding"));
    encoding != "" && ToAsciiLower(encoding) != "identity"
  }

  predicate CompressionValid(h: Header, ms: seq<GrpcMessage>) {
    forall i :: 0 <= i < |ms| && ms[i].compressed ==> CompressionUsable(h)
  }

  function DecodedGRPCWire(cs: Codecs, wire: bytes, header: string): Result<seq<GrpcMessage>, Refusal> {
    match DecodeStrict(cs, wire, header)
    case Err(e) => Err(Coding(e))
    case Ok(framed) => match Decode(framed)
      case Err(e) => Err(Framing(e))
      case Ok(ms) => Ok(ms)
  }

  // The recorded messages and the recorded wire bytes, reconciled.
  function Reconciled(cs: Codecs, m: Captured, recorded: seq<GrpcMessage>): Result<seq<GrpcMessage>, Refusal> {
    var outer := ContentEncodingOf(m.headers);
    if Representation(m) == DECODED && m.body != [] then
      if m.raw != [] && m.raw != m.body then Err(Mismatch)
      else
        var parsed := DecodedGRPCWire(cs, m.body, outer);
        if parsed.Ok? && recorded != [] && recorded != parsed.value then Err(Mismatch) else parsed
    else if recorded == [] && m.body != [] then DecodedGRPCWire(cs, m.body, outer)
    else Ok(recorded)
  }

  function CapturedGRPCBody(cs: Codecs, f: CapturedFlow): Result<RequestBody, Refusal> {
    var m := f.request;
    if Representation(m) == UNAVAILABLE then Err(Unavailable)
    else match Collected(f.messages)
      case Err(e) => Err(e)
      case Ok(recorded) => match Reconciled(cs, m, recorded)
        case Err(e) => Err(e)
        case Ok(messages) =>
          if messages == [] && Representation(m) != DECODED && IsHeaderDump(m.raw) then Err(Unavailable)
          else if messages == [] && !AbsentBodyCredible(m.headers) then Err(MissingBody)
          else if !CompressionValid(m.headers, messages) then Err(UnusableCompression)
          else Ok(RequestBody([], messages))
  }

  function CapturedRequestBody(cs: Codecs, f: CapturedFlow): Result<RequestBody, Refusal> {
    match f.protocol
    case HTTP2 => (match CapturedHTTP2Body(cs, f.request)
                   case Ok(b) => Ok(RequestBody(b, []))
                   case Err(e) => Err(e))
    case GRPC => CapturedGRPCBody(cs, f)
  }

  // Nothing is made up here either: the messages are those recorded, or those the
  // recorded bytes decode to; each that is compressed can be used; and none at
  // all is believed only when the headers are credible.
  lemma GRPCNeverInvents(cs: Codecs, f: CapturedFlow, b: bytes, ms: seq<GrpcMessage>)
    requires CapturedGRPCBody(cs, f) == Ok(RequestBody(b, ms))
    ensures b == [] && Representation(f.request) != UNAVAILABLE && Collected(f.messages).Ok?
    ensures ms == Collected(f.messages).value ||
      (f.request.body != [] && DecodedGRPCWire(cs, f.request.body, ContentEncodingOf(f.request.headers)) == Ok(ms))
    ensures Representation(f.request) == DECODED && f.request.body != [] ==>
      && DecodedGRPCWire(cs, f.request.body, ContentEncodingOf(f.request.headers)) == Ok(ms)
      && (f.request.raw == [] || f.request.raw == f.request.body)
      && Collected(f.messages).value in {[], ms}
    ensures ms == [] ==>
      AbsentBodyCredible(f.request.headers) && (Representation(f.request) == DECODED || !IsHeaderDump(f.request.raw))
    ensures forall i :: 0 <= i < |ms| && ms[i].compressed ==> CompressionUsable(f.request.headers)
  {
    hide DecodedGRPCWire, ContentEncodingOf, AbsentBodyCredible, CompressionUsable, IsHeaderDump, Collected;
  }

  // Without a mark, what was recorded message by message is given back; without
  // that, what the recorded body decodes to.
  lemma GRPCUnmarked(cs: Codecs, f: CapturedFlow)
    requires Representation(f.request) !in {DECODED, UNAVAILABLE} && Collected(f.messages).Ok?
    ensures var recorded, h := Collected(f.messages).value, f.request.headers;
      && (recorded != [] && CompressionValid(h, recorded) ==> CapturedGRPCBody(cs, f) == Ok(RequestBody([], recorded)))
      && (recorded == [] && f.request.body != [] ==>
            match DecodedGRPCWire(cs, f.request.body, ContentEncodingOf(h))
            case Err(e) => CapturedGRPCBody(cs, f) == Err(e)
            case Ok(ms) => ms != [] && CompressionValid(h, ms) ==> CapturedGRPCBody(cs, f) == Ok(RequestBody([], ms)))
  {
    hide DecodedGRPCWire, ContentEncodingOf, AbsentBodyCredible, CompressionValid, IsHeaderDump, Collected;
  }

  // The compression mark of a recorded message: "true" or "false" in any case,
  // white space around it allowed, false when there is none.
  lemma CompressionMark(m: Captured)
    ensures var value := if "compressed" in m.meta then ToLower(Trim(m.meta["compressed"])) else "";
      CompressionFlag(m) ==
        if value == "true" then Ok(true)
        else if value == "" || value == "false" then Ok(false) else Err(BadCompressionFlag)
  {
    assert ToLower(Trim("")) == "";
    hide Trim, ToLower;
  }

  // A recorded message is its body, which other recorded bytes contradict.
  lemma RecordedMessage(m: Captured)
    ensures CapturedMessage(m) ==
      if CompressionFlag(m).Err? then Err(CompressionFlag(m).error)
      else if m.raw == [] || m.raw == m.body then Ok(GrpcMessage(CompressionFlag(m).value, m.body))
      else Err(Mismatch)
  {
    hide CompressionFlag;
  }

  // Only what the client sent counts, in order; the first bad message decides.
  lemma ResponsesDoNotCount(m: Captured, ms: seq<Captured>)
    requires m.direction == ServerToClient
    ensures Collected([]) == Ok([]) && Collected([m] + ms) == Collected(ms)
  {
    assert ([m] + ms)[1..] == ms;
    hide CapturedMessage, Prepended;
  }

  lemma RequestsInOrder(m: Captured, ms: seq<Captured>, one: GrpcMessage)
    requires m.direction == ClientToServer && CapturedMessage(m) == Ok(one)
    ensures Collected(ms).Err? ==> Collected([m] + ms) == Collected(ms)
    ensures Collected(ms).Ok? ==> Collected([m] + ms) == Ok([one] + Collected(ms).value)
  {
    assert ([m] + ms)[1..] == ms;
    hide CapturedMessage;
    assert Collected([m] + ms) == Prepended([one], Collected(ms));
    hide Collected;
  }

  lemma BadRequestDecides(m: Captured, ms: seq<Captured>, e: Refusal)
    requires m.direction == ClientToServer && CapturedMessage(m) == Err(e)
    ensures Collected([m] + ms) == Err(e)
  {
    hide CapturedMessage, Prepended;
  }

  // The logical-to-wire conversion of replay: gRPC messages are framed first,
  // the content coding comes last.
  function EncodeRequestBody(cs: Codecs, p: Protocol, h: Header, body: RequestBody): Result<bytes, Refusal> {
    var logical: Result<bytes, Refusal> :=
      match p
      case HTTP2 => if body.messages != [] then Err(UnexpectedMessages) else Ok(body.body)
      case GRPC =>
        if body.body != [] then Err(UnexpectedBody)
        else if !CompressionValid(h, body.messages) then Err(UnusableCompression)
        else match GrpcFrames.Encode(body.messages)
          case Ok(framed) => Ok(framed)
          case Err(e) => Err(Framing(e));
    match logical
    case Err(e) => Err(e)
    case Ok(b) => match ContentCoding.Encode(cs, b, ContentEncodingOf(h))
      case Ok(encoded) => Ok(encoded)
      case Err(e) => Err(Coding(e))
  }

  // A body of the other protocol's kind is refused.
  lemma OtherKindIsRefused(cs: Codecs, h: Header, body: RequestBody)
    ensures body.messages != [] ==> EncodeRequestBody(cs, HTTP2, h, body) == Err(UnexpectedMessages)
    ensures body.body != [] ==> EncodeRequestBody(cs, GRPC, h, body) == Err(UnexpectedBody)
  {
  }
}
