// Content-Encoding chains: the header names the codings in the order they were
// applied; decoding undoes them from the last to the first (RFC 9110, section
// 8.4). The compressors themselves are parameters.
module ContentCoding {
  import opened Common
  import opened Text

  datatype Coding = Identity | Gzip | XGzip | Deflate | Br | Zstd

  datatype CodingError = EmptyCoding | UnsupportedCoding | Corrupt | TooLong

  // A decompressed body longer than this is refused.
  const MAX_DECODED: nat := 0x400_0000

  // The compression libraries: compress never fails on an in-memory buffer,
  // inflate may.
  datatype Codecs = Codecs(compress: (Coding, bytes) -> bytes, inflate: (Coding, bytes) -> Option<bytes>)

  // What is assumed of them: inflating undoes compressing, and something
  // compresses to something.
  ghost predicate Lawful(cs: Codecs) {
    forall c, b :: c != Identity ==>
      cs.inflate(c, cs.compress(c, b)) == Some(b) && (b != [] ==> cs.compress(c, b) != [])
  }

  function CodingNamed(name: string): Option<Coding> {
    if name == "identity" then Some(Identity)
    else if name == "gzip" then Some(Gzip)
    else if name == "x-gzip" then Some(XGzip)
    else if name == "deflate" then Some(Deflate)
    else if name == "br" then Some(Br)
    else if name == "zstd" then Some(Zstd)
    else None
  }

  function ParseOne(part: string): Result<Coding, CodingError> {
    var name := ToLower(Trim(part));
    if name == "" then Err(EmptyCoding)
    else if CodingNamed(name).Some? then Ok(CodingNamed(name).value)
    else Err(UnsupportedCoding)
  }

  // All the parts, or the first part's error.
  function ParseAll(parts: seq<string>): Result<seq<Coding>, CodingError> {
    if parts == [] then Ok([])
    else
      var front := ParseAll(parts[..|parts| - 1]);
      if front.Err? then front
      else match ParseOne(parts[|parts| - 1])
        case Ok(c) => Ok(front.value + [c])
        case Err(e) => Err(e)
  }

  function ContentEncodings(header: string): Result<seq<Coding>, CodingError> {
    if Trim(header) == "" then Ok([]) else ParseAll(Split(header, ","))
  }

  function EncodeOne(cs: Codecs, c: Coding, b: bytes): bytes {
    if c == Identity then b else cs.compress(c, b)
  }

  function DecodeOne(cs: Codecs, c: Coding, b: bytes): Result<bytes, CodingError> {
    if c == Identity then Ok(b)
    else match cs.inflate(c, b)
      case None => Err(Corrupt)
      case Some(out) => if |out| > MAX_DECODED then Err(TooLong) else Ok(out)
  }

  function EncodeChain(cs: Codecs, codings: seq<Coding>, b: bytes): bytes {
    if codings == [] then b
    else EncodeOne(cs, codings[|codings| - 1], EncodeChain(cs, codings[..|codings| - 1], b))
  }

  function DecodeChain(cs: Codecs, codings: seq<Coding>, b: bytes): Result<bytes, CodingError> {
    if codings == [] then Ok(b)
    else match DecodeOne(cs, codings[|codings| - 1], b)
      case Ok(out) => DecodeChain(cs, codings[..|codings| - 1], out)
      case Err(e) => Err(e)
  }

  // EncodeContentEncoding and DecodeContentEncodingStrict as functions: an empty
  // body stays empty whatever the codings.
  function Encode(cs: Codecs, b: bytes, header: string): Result<bytes, CodingError> {
    match ContentEncodings(header)
    case Err(e) => Err(e)
    case Ok(codings) => if b == [] then Ok([]) else Ok(EncodeChain(cs, codings, b))
  }

  function DecodeStrict(cs: Codecs, b: bytes, header: string): Result<bytes, CodingError> {
    match ContentEncodings(header)
    case Err(e) => Err(e)
    case Ok(codings) => if b == [] then Ok([]) else DecodeChain(cs, codings, b)
  }

  // Every body that decoding will have to recover fits under the cap.
  predicate WithinCap(cs: Codecs, codings: seq<Coding>, b: bytes) {
    forall i :: 0 <= i < |codings| ==> codings[i] == Identity || |EncodeChain(cs, codings[..i], b)| <= MAX_DECODED
  }

  lemma {:induction false} EncodedNotEmpty(cs: Codecs, codings: seq<Coding>, b: bytes)
    requires Lawful(cs) && b != []
    ensures EncodeChain(cs, codings, b) != []
  {
    if codings == [] {
    } else {
      EncodedNotEmpty(cs, codings[..|codings| - 1], b);
    }
  }

  lemma WithinCapLast(cs: Codecs, codings: seq<Coding>, b: bytes)
    requires codings != []
    ensures var n := |codings| - 1;
      WithinCap(cs, codings, b) <==>
        WithinCap(cs, codings[..n], b) && (codings[n] == Identity || |EncodeChain(cs, codings[..n], b)| <= MAX_DECODED)
  {
    var n := |codings| - 1;
    assert forall i :: 0 <= i < n ==> codings[..n][..i] == codings[..i] && codings[..n][i] == codings[i];
  }

  lemma {:induction false} ChainRoundTrip(cs: Codecs, codings: seq<Coding>, b: bytes)
    requires Lawful(cs)
    ensures DecodeChain(cs, codings, EncodeChain(cs, codings, b)) ==
            if WithinCap(cs, codings, b) then Ok(b) else Err(TooLong)
  {
    if codings == [] {
    } else {
      var n := |codings| - 1;
      WithinCapLast(cs, codings, b);
      ChainRoundTrip(cs, codings[..n], b);
    }
  }

  // Decoding what was encoded gives the body back, exactly when every
  // intermediate body fits under the decoding cap; otherwise it is refused.
  lemma DecodeEncoded(cs: Codecs, b: bytes, header: string)
    requires Lawful(cs) && ContentEncodings(header).Ok?
    ensures Encode(cs, b, header).Ok?
    ensures DecodeStrict(cs, Encode(cs, b, header).value, header) ==
            if b == [] || WithinCap(cs, ContentEncodings(header).value, b) then Ok(b) else Err(TooLong)
  {
    var codings := ContentEncodings(header).value;
    ChainRoundTrip(cs, codings, b);
    if b != [] {
      EncodedNotEmpty(cs, codings, b);
    }
  }

  lemma {:induction false} IdentityChain(cs: Codecs, codings: seq<Coding>, b: bytes)
    requires forall i :: 0 <= i < |codings| ==> codings[i] == Identity
    ensures EncodeChain(cs, codings, b) == b && DecodeChain(cs, codings, b) == Ok(b)
  {
    if codings == [] {
    } else {
      IdentityChain(cs, codings[..|codings| - 1], b);
    }
  }

  // A header that names no compression: absent, blank, or identity only.
  predicate NoCompression(header: string) {
    ContentEncodings(header).Ok? &&
    forall i :: 0 <= i < |ContentEncodings(header).value| ==> ContentEncodings(header).value[i] == Identity
  }

  // In particular a message without the header.
  lemma AbsentHeaderHasNoCompression()
    ensures NoCompression("")
  {
    assert Split("", ",") == [""];
    assert Trim("") == "";
  }

  lemma NoCompressionIsIdentity(cs: Codecs, b: bytes, header: string)
    requires NoCompression(header)
    ensures Encode(cs, b, header) == Ok(b) && DecodeStrict(cs, b, header) == Ok(b)
  {
    IdentityChain(cs, ContentEncodings(header).value, b);
  }

  // Chains compose: what two headers' worth of codings do one after the other.
  lemma {:induction false} DecodeChainSplit(cs: Codecs, first: seq<Coding>, last: seq<Coding>, b: bytes)
    ensures DecodeChain(cs, first + last, b) ==
            match DecodeChain(cs, last, b)
              case Ok(out) => DecodeChain(cs, first, out)
              case Err(e) => Err(e)
    decreases |last|
  {
    if last == [] {
      assert first + last == first;
    } else {
      var n := |last| - 1;
      assert (first + last)[..|first + last| - 1] == first + last[..n];
      match DecodeOne(cs, last[n], b) {
        case Ok(out) => DecodeChainSplit(cs, first, last[..n], out);
        case Err(_) =>
      }
    }
  }

  // ---------- from the header's text ----------

  predicate KnownPart(part: string) {
    ToLower(Trim(part)) in {"identity", "gzip", "x-gzip", "deflate", "br", "zstd"}
  }

  lemma KnownIsParsed(part: string)
    requires KnownPart(part)
    ensures ParseOne(part) == Ok(
      var name := ToLower(Trim(part));
      if name == "gzip" then Gzip
      else if name == "x-gzip" then XGzip
      else if name == "deflate" then Deflate
      else if name == "br" then Br
      else if name == "zstd" then Zstd
      else Identity)
    ensures ParseOne(part).value == Identity <==> ToLower(Trim(part)) == "identity"
  {
    hide ToLower, Trim;
  }

  // A blank part and an unknown name are refused, each in its own way.
  lemma UnknownIsRefused(part: string)
    requires !KnownPart(part)
    ensures ParseOne(part) == Err(if Trim(part) == "" then EmptyCoding else UnsupportedCoding)
  {
    hide Trim;
  }

  lemma {:induction false} ParsedInOrder(parts: seq<string>)
    requires forall i :: 0 <= i < |parts| ==> KnownPart(parts[i])
    ensures ParseAll(parts).Ok? && |ParseAll(parts).value| == |parts|
    ensures forall i :: 0 <= i < |parts| ==> ParseOne(parts[i]) == Ok(ParseAll(parts).value[i])
  {
    hide KnownPart, ParseOne;
    if parts != [] {
      var n := |parts| - 1;
      ParsedInOrder(parts[..n]);
      KnownIsParsed(parts[n]);
    }
    PartsParsed(parts);
  }

  lemma {:induction false} PartsParsed(parts: seq<string>)
    requires ParseAll(parts).Ok?
    ensures |ParseAll(parts).value| == |parts|
    ensures forall i :: 0 <= i < |parts| ==> ParseOne(parts[i]) == Ok(ParseAll(parts).value[i])
  {
    hide ParseOne;
    if parts != [] {
      var n := |parts| - 1;
      var front := parts[..n];
      PartsParsed(front);
      assert ParseAll(parts) == Ok(ParseAll(front).value + [ParseOne(parts[n]).value]);
      hide ParseAll;
      forall i | 0 <= i < n ensures ParseOne(parts[i]) == Ok(ParseAll(parts).value[i]) {
        assert front[i] == parts[i];
      }
    }
  }

  // The header's k-th part is the k-th coding, by its trimmed and lowered name.
  lemma HeaderNamesCodings(header: string, k: nat)
    requires Trim(header) != "" && k < |Split(header, ",")|
    requires forall i :: 0 <= i < |Split(header, ",")| ==> KnownPart(Split(header, ",")[i])
    ensures ContentEncodings(header).Ok? && |ContentEncodings(header).value| == |Split(header, ",")|
    ensures var name, c := ToLower(Trim(Split(header, ",")[k])), ContentEncodings(header).value[k];
      && (name == "identity" <==> c == Identity) && (name == "gzip" <==> c == Gzip)
      && (name == "x-gzip" <==> c == XGzip) && (name == "deflate" <==> c == Deflate)
      && (name == "br" <==> c == Br) && (name == "zstd" <==> c == Zstd)
  {
    hide Trim, ToLower, Split, KnownPart;
    ParsedInOrder(Split(header, ","));
    KnownIsParsed(Split(header, ",")[k]);
  }

  // The first part that is blank or unknown decides the refusal; a blank header
  // names no coding.
  lemma {:induction false} HeaderRefused(header: string, k: nat)
    requires Trim(header) != "" && k < |Split(header, ",")| && !KnownPart(Split(header, ",")[k])
    requires forall i :: 0 <= i < k ==> KnownPart(Split(header, ",")[i])
    ensures ContentEncodings(header) ==
      Err(if Trim(Split(header, ",")[k]) == "" then EmptyCoding else UnsupportedCoding)
  {
    hide Trim, Split, KnownPart;
    var parts := Split(header, ",");
    ParsedInOrder(parts[..k]);
    UnknownIsRefused(parts[k]);
    ParseAllStops(parts, k, if Trim(parts[k]) == "" then EmptyCoding else UnsupportedCoding);
  }

  lemma BlankHeader(header: string)
    requires Trim(header) == ""
    ensures ContentEncodings(header) == Ok([])
  {
  }

  // What one coding does: identity nothing, another what the library does, with
  // 64 MiB as the most that is decoded. An empty body stays empty.
  lemma OneCoding(cs: Codecs, header: string, c: Coding, b: bytes)
    requires ContentEncodings(header) == Ok([c])
    ensures Encode(cs, [], header) == Ok([]) && DecodeStrict(cs, [], header) == Ok([])
    ensures b != [] ==> Encode(cs, b, header) == Ok(if c == Identity then b else cs.compress(c, b))
    ensures b != [] && c == Identity ==> DecodeStrict(cs, b, header) == Ok(b)
    ensures b != [] && c != Identity ==>
      DecodeStrict(cs, b, header) == (
        match cs.inflate(c, b)
        case None => Err(Corrupt)
        case Some(out) => if |out| > 67108864 then Err(TooLong) else Ok(out))
  {
    hide ContentEncodings;
    assert [c][..0] == [];
    assert EncodeChain(cs, [], b) == b;
    assert forall out :: DecodeChain(cs, [], out) == Ok(out);
  }

  lemma {:induction false} SplitAtComma(first: string, last: string)
    ensures Split(first + "," + last, ",") == Split(first, ",") + Split(last, ",")
    decreases |first|
  {
    var i := Index(first, ",");
    if i < 0 {
      SplitFirst(first, ",", last);
    } else {
      var rest := first[i + 1..];
      CommaWithin(first, last);
      SplitOff(first);
      SplitOff(first + "," + last);
      CutsAtComma(first, last, i);
      hide Index, Split;
      SplitAtComma(rest, last);
      Associates([first[..i]], Split(rest, ","), Split(last, ","));
    }
  }

  lemma CutsAtComma(first: string, last: string, i: nat)
    requires i < |first|
    ensures (first + "," + last)[..i] == first[..i]
    ensures (first + "," + last)[i + 1..] == first[i + 1..] + "," + last
  {
  }

  lemma SplitOff(s: string)
    requires Index(s, ",") >= 0
    ensures var i := Index(s, ","); Split(s, ",") == [s[..i]] + Split(s[i + 1..], ",")
  {
    hide Index;
  }

  lemma CommaWithin(first: string, last: string)
    requires Index(first, ",") >= 0
    ensures Index(first + "," + last, ",") == Index(first, ",")
  {
    var s, i := first + "," + last, Index(first, ",");
    AtLonger("", first, "," + last, ",", i);
    assert "" + first + ("," + last) == s;
    forall j | 0 <= j < i ensures !At(s, ",", j) {
      if At(s, ",", j) {
        CharOf(s, ",", j, j);
        CharsAt(first, ",", j);
      }
    }
    hide At;
    IndexIs(s, ",", i);
  }

  lemma {:induction false} ParseAllAppend(a: seq<string>, b: seq<string>)
    requires ParseAll(a).Ok? && ParseAll(b).Ok?
    ensures ParseAll(a + b) == Ok(ParseAll(a).value + ParseAll(b).value)
    decreases |b|
  {
    hide ParseOne;
    if b == [] {
      assert a + b == a && ParseAll(a).value + [] == ParseAll(a).value;
    } else {
      var n := |b| - 1;
      assert (a + b)[..|a + b| - 1] == a + b[..n] && (a + b)[|a + b| - 1] == b[n];
      ParseAllAppend(a, b[..n]);
      Associates(ParseAll(a).value, ParseAll(b[..n]).value, [ParseOne(b[n]).value]);
    }
  }

  // A header "first,last" lists the codings of the one and then of the other.
  lemma HeadersListed(first: string, last: string)
    requires Trim(first) != "" && Trim(last) != ""
    requires ContentEncodings(first).Ok? && ContentEncodings(last).Ok?
    ensures ContentEncodings(first + "," + last) ==
      Ok(ContentEncodings(first).value + ContentEncodings(last).value)
  {
    NotBlank(first + "," + last, |first|);
    hide Trim, Split;
    SplitAtComma(first, last);
    ParseAllAppend(Split(first, ","), Split(last, ","));
  }

  // So decoding undoes what `last` names, and then what `first` names...
  lemma DecodeUndoesLastFirst(cs: Codecs, first: string, last: string, b: bytes)
    requires Trim(first) != "" && Trim(last) != ""
    requires ContentEncodings(first).Ok? && ContentEncodings(last).Ok? && b != []
    ensures match DecodeStrict(cs, b, last)
      case Err(e) => DecodeStrict(cs, b, first + "," + last) == Err(e)
      case Ok(out) => out != [] ==> DecodeStrict(cs, b, first + "," + last) == DecodeStrict(cs, out, first)
  {
    hide ContentEncodings, DecodeChain, Trim;
    HeadersListed(first, last);
    DecodeChainSplit(cs, ContentEncodings(first).value, ContentEncodings(last).value, b);
  }

  // ... and encoding applies what `first` names, and then what `last` names.
  lemma EncodeAppliesFirstFirst(cs: Codecs, first: string, last: string, b: bytes)
    requires Trim(first) != "" && Trim(last) != ""
    requires ContentEncodings(first).Ok? && ContentEncodings(last).Ok? && b != []
    ensures Encode(cs, b, first).Ok?
    ensures Encode(cs, b, first).value != [] ==>
      Encode(cs, b, first + "," + last) == Encode(cs, Encode(cs, b, first).value, last)
  {
    hide ContentEncodings, EncodeChain, Trim;
    HeadersListed(first, last);
    EncodeChainSplit(cs, ContentEncodings(first).value, ContentEncodings(last).value, b);
  }

  lemma {:induction false} EncodeChainSplit(cs: Codecs, first: seq<Coding>, last: seq<Coding>, b: bytes)
    ensures EncodeChain(cs, first + last, b) == EncodeChain(cs, last, EncodeChain(cs, first, b))
    decreases |last|
  {
    if last == [] {
      assert first + last == first;
    } else {
      var n := |last| - 1;
      assert (first + last)[..|first + last| - 1] == first + last[..n] && (first + last)[|first + last| - 1] == last[n];
      EncodeChainSplit(cs, first, last[..n], b);
    }
  }

  // ---------- the loops ----------

  lemma {:induction false} ParseAllStops(parts: seq<string>, i: nat, e: CodingError)
    requires i < |parts| && ParseAll(parts[..i]).Ok? && ParseOne(parts[i]) == Err(e)
    ensures ParseAll(parts) == Err(e)
    decreases |parts|
  {
    hide ParseOne;
    var n := |parts| - 1;
    var front := parts[..n];
    if i < n {
      assert front[..i] == parts[..i] && front[i] == parts[i];
      ParseAllStops(front, i, e);
    } else {
      assert front == parts[..i];
    }
  }

  method ParseContentEncodings(header: string) returns (r: Result<seq<Coding>, CodingError>)
    ensures r == ContentEncodings(header)
  {
    hide ParseOne, Split, Trim;
    if Trim(header) == "" {
      return Ok([]);
    }
    var parts := Split(header, ",");
    var encodings: seq<Coding> := [];
    for i := 0 to |parts|
      invariant ParseAll(parts[..i]) == Ok(encodings)
    {
      assert parts[..i + 1][..i] == parts[..i];
      var one := ParseOne(parts[i]);
      if one.Err? {
        ParseAllStops(parts, i, one.error);
        return Err(one.error);
      }
      encodings := encodings + [one.value];
    }
    assert parts[..|parts|] == parts;
    return Ok(encodings);
  }

  method EncodeContentEncoding(cs: Codecs, body: bytes, header: string) returns (r: Result<bytes, CodingError>)
    ensures r == Encode(cs, body, header)
  {
    var parsed := ParseContentEncodings(header);
    if parsed.Err? {
      return Err(parsed.error);
    }
    if |body| == 0 {
      return Ok([]);
    }
    var encodings := parsed.value;
    var out := body;
    for i := 0 to |encodings|
      invariant out == EncodeChain(cs, encodings[..i], body)
    {
      assert encodings[..i + 1][..i] == encodings[..i];
      out := EncodeOne(cs, encodings[i], out);
    }
    assert encodings[..|encodings|] == encodings;
    return Ok(out);
  }

  method DecodeContentEncodingStrict(cs: Codecs, body: bytes, header: string) returns (r: Result<bytes, CodingError>)
    ensures r == DecodeStrict(cs, body, header)
  {
    hide ContentEncodings, DecodeOne;
    var parsed := ParseContentEncodings(header);
    if parsed.Err? {
      return Err(parsed.error);
    }
    if |body| == 0 {
      return Ok([]);
    }
    var encodings := parsed.value;
    var out := body;
    assert encodings[..|encodings|] == encodings;
    for i := |encodings| downto 0
      invariant DecodeChain(cs, encodings, body) == DecodeChain(cs, encodings[..i], out)
    {
      assert encodings[..i + 1][..i] == encodings[..i];
      var one := DecodeOne(cs, encodings[i], out);
      if one.Err? {
        return Err(one.error);
      }
      out := one.value;
    }
    return Ok(out);
  }
}
