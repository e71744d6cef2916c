// The repeater's raw request editor: a request template printed as text, and the
// text, edited or not, read back against the template it came from. Strings are
// Unicode texts, one character a code point.
module RawRequest {
  import opened Common
  import opened Text
  import opened Sorting

  const PROTO_GRPC := "grpc"

  datatype Message = Message(compressed: bool, data: string)

  type Header = map<string, seq<string>>

  datatype Template = Template(
    verb: string, url: string, header: Header, body: string,
    messages: seq<Message>, protocol: string, secure: bool)

  // What url.Parse finds in a text, when it accepts it.
  datatype Url = Url(scheme: string, host: string, requestUri: string)

  type UrlParser = string -> Option<Url>

  datatype Refusal = EmptyRequest | MalformedRequestLine | CompressedPayload | OneBodyForManyMessages(count: nat)

  function HostOf(parse: UrlParser, url: string): string {
    match parse(url) case Some(u) => u.host case None => ""
  }

  function RequestUri(parse: UrlParser, url: string): string {
    match parse(url)
    case Some(u) => if u.host != "" then u.requestUri else url
    case None => url
  }

  function EditableBody(t: Template): string {
    if t.protocol == PROTO_GRPC && |t.messages| == 1 && !t.messages[0].compressed
    then t.messages[0].data
    else t.body
  }

  // ---------- header maps ----------

  predicate TokenChar(c: char) {
    || 'a' <= c <= 'z' || 'A' <= c <= 'Z' || '0' <= c <= '9'
    || c in {'!', '#', '$', '%', '&', '\'', '*', '+', '-', '.', '^', '_', '`', '|', '~'}
  }

  function Upper(c: char): char {
    if 'a' <= c <= 'z' then (c as int - 32) as char else c
  }

  function Capitalized(k: string): (r: string)
    ensures |r| == |k|
    ensures forall i :: 0 <= i < |k| ==> r[i] == if i == 0 || k[i - 1] == '-' then Upper(k[i]) else AsciiLower(k[i])
  {
    seq(|k|, i requires 0 <= i < |k| => if i == 0 || k[i - 1] == '-' then Upper(k[i]) else AsciiLower(k[i]))
  }

  // textproto.CanonicalMIMEHeaderKey: a name that is not a token is left alone.
  function CanonicalKey(k: string): string {
    if forall i :: 0 <= i < |k| ==> TokenChar(k[i]) then Capitalized(k) else k
  }

  function Values(h: Header, k: string): seq<string> {
    if k in h then h[k] else []
  }

  // http.Header.Get, for a canonical name.
  function Get(h: Header, k: string): string {
    if Values(h, k) == [] then "" else Values(h, k)[0]
  }

  // http.Header.Add.
  function Add(h: Header, k: string, v: string): Header {
    h[CanonicalKey(k) := Values(h, CanonicalKey(k)) + [v]]
  }

  // ---------- printing ----------

  function ValueLines(k: string, values: seq<string>): seq<string> {
    if values == [] then [] else [k + ": " + values[0]] + ValueLines(k, values[1..])
  }

  function HeaderLines(h: Header, keys: seq<string>): seq<string>
    requires forall k :: k in keys ==> k in h
  {
    if keys == [] then [] else ValueLines(keys[0], h[keys[0]]) + HeaderLines(h, keys[1..])
  }

  function FirstLine(parse: UrlParser, t: Template): string {
    t.verb + " " + RequestUri(parse, t.url) + " HTTP/1.1"
  }

  function HostLines(parse: UrlParser, t: Template): seq<string> {
    var host := HostOf(parse, t.url);
    if host != "" && Get(t.header, "Host") == "" then ["Host: " + host] else []
  }

  ghost function HeadLines(parse: UrlParser, t: Template): seq<string> {
    [FirstLine(parse, t)] + HostLines(parse, t) + HeaderLines(t.header, KeysInOrder(t.header))
  }

  // The template as text, with a given body under it.
  ghost function Printed(parse: UrlParser, t: Template, body: string): string {
    Join(HeadLines(parse, t), CRLF) + BLANK_CRLF + body
  }

  function Terminated(lines: seq<string>): string {
    if lines == [] then "" else lines[0] + CRLF + Terminated(lines[1..])
  }

  lemma {:induction false} TerminatedAppend(a: seq<string>, b: seq<string>)
    ensures Terminated(a + b) == Terminated(a) + Terminated(b)
    decreases |a|
  {
    if a == [] {
      assert a + b == b;
    } else {
      assert (a + b)[1..] == a[1..] + b;
      TerminatedAppend(a[1..], b);
    }
  }

  lemma {:induction false} TerminatedJoin(lines: seq<string>)
    requires lines != []
    ensures Terminated(lines) == Join(lines, CRLF) + CRLF
    decreases |lines|
  {
    if |lines| > 1 {
      TerminatedJoin(lines[1..]);
    }
  }

  // Raw: the lines written to a builder as they come.
  method Raw(parse: UrlParser, t: Template) returns (b: string)
    ensures b == Printed(parse, t, EditableBody(t))
  {
    b := t.verb + " " + RequestUri(parse, t.url) + " HTTP/1.1" + "\r\n";
    var host := HostOf(parse, t.url);
    if host != "" && Get(t.header, "Host") == "" {
      b := b + "Host: " + host + "\r\n";
    }
    ghost var top := [FirstLine(parse, t)] + HostLines(parse, t);
    assert b == Terminated(top) by { TopLines(parse, t); }
    var keys := SortedKeys(t.header);
    b := PrintHeader(b, t.header, keys);
    TerminatedAppend(top, HeaderLines(t.header, keys));
    TerminatedJoin(HeadLines(parse, t));
    b := b + "\r\n";
    b := b + EditableBody(t);
    EndOfHead(Join(HeadLines(parse, t), CRLF), EditableBody(t));
  }

  lemma TopLines(parse: UrlParser, t: Template)
    ensures Terminated([FirstLine(parse, t)] + HostLines(parse, t)) ==
      (if HostLines(parse, t) == [] then FirstLine(parse, t) + CRLF
       else FirstLine(parse, t) + CRLF + "Host: " + HostOf(parse, t.url) + CRLF)
  {
    TerminatedAppend([FirstLine(parse, t)], HostLines(parse, t));
    assert Terminated([FirstLine(parse, t)]) == FirstLine(parse, t) + CRLF;
  }

  lemma EndOfHead(head: string, body: string)
    ensures head + CRLF + CRLF + body == head + BLANK_CRLF + body
  {
    assert CRLF + CRLF == BLANK_CRLF;
    assert head + CRLF + CRLF == head + (CRLF + CRLF);
  }

  method PrintHeader(start: string, h: Header, keys: seq<string>) returns (b: string)
    requires forall k :: k in keys ==> k in h
    ensures b == start + Terminated(HeaderLines(h, keys))
  {
    b := start;
    for i := 0 to |keys|
      invariant b + Terminated(HeaderLines(h, keys[i..])) == start + Terminated(HeaderLines(h, keys))
    {
      var k := keys[i];
      ghost var before := b;
      for j := 0 to |h[k]|
        invariant b + Terminated(ValueLines(k, h[k][j..])) == before + Terminated(ValueLines(k, h[k]))
      {
        NextValue(b, k, h[k][j..]);
        b := b + k + ": " + h[k][j] + "\r\n";
        assert h[k][j..][1..] == h[k][j + 1..];
      }
      NextKey(before, b, h, keys[i..]);
      assert keys[i..][1..] == keys[i + 1..];
    }
  }

  lemma NextValue(b: string, k: string, values: seq<string>)
    requires values != []
    ensures b + Terminated(ValueLines(k, values)) ==
      (b + k + ": " + values[0] + CRLF) + Terminated(ValueLines(k, values[1..]))
  {
  }

  lemma NextKey(before: string, after: string, h: Header, keys: seq<string>)
    requires keys != [] && forall k :: k in keys ==> k in h
    requires after + Terminated(ValueLines(keys[0], [])) == before + Terminated(ValueLines(keys[0], h[keys[0]]))
    ensures after + Terminated(HeaderLines(h, keys[1..])) == before + Terminated(HeaderLines(h, keys))
  {
    var values, rest := ValueLines(keys[0], h[keys[0]]), HeaderLines(h, keys[1..]);
    assert Terminated(ValueLines(keys[0], [])) == "";
    assert after + "" == after;
    assert HeaderLines(h, keys) == values + rest;
    hide Terminated, HeaderLines, ValueLines;
    TerminatedAppend(values, rest);
    Associates(before, Terminated(values), Terminated(rest));
  }

  // ---------- reading back ----------

  function SplitHeadBody(raw: string): (string, string) {
    var crlf, lf := Index(raw, BLANK_CRLF), Index(raw, BLANK_LF);
    if crlf < 0 && lf < 0 then (raw, "")
    else if crlf >= 0 && (lf < 0 || crlf <= lf) then (raw[..crlf], raw[crlf + 4..])
    else (raw[..lf], raw[lf + 2..])
  }

  // The head's lines, CRLF taken for LF.
  function LinesOf(head: string): (lines: seq<string>)
    ensures lines != []
  {
    Split(Join(Split(head, CRLF), LF), LF)
  }

  function Word(s: string): (w: string)
    ensures w <= s && (forall i :: 0 <= i < |w| ==> !IsSpace(w[i]))
    ensures s != "" && !IsSpace(s[0]) ==> w != ""
    ensures |w| < |s| ==> IsSpace(s[|w|])
  {
    if s == "" || IsSpace(s[0]) then "" else [s[0]] + Word(s[1..])
  }

  // strings.Fields.
  function Fields(s: string): seq<string>
    decreases |s|
  {
    var t := TrimLeft(s);
    if t == "" then [] else [Word(t)] + Fields(t[|Word(t)|..])
  }

  function AddLine(h: Header, line: string): Header {
    var i := Index(line, ":");
    if Trim(line) == "" || i < 0 then h else Add(h, Trim(line[..i]), Trim(line[i + 1..]))
  }

  function ParsedHeader(lines: seq<string>, h: Header): Header {
    if lines == [] then h else ParsedHeader(lines[1..], AddLine(h, lines[0]))
  }

  function WithoutHost(h: Header): Header {
    h - {"Host"}
  }

  // The frames an edited gRPC body stands for.
  function EditedMessages(messages: seq<Message>, body: string): Result<seq<Message>, Refusal> {
    if |messages| == 0 then Ok([Message(false, body)])
    else if |messages| == 1 then
      if messages[0].compressed then Err(CompressedPayload) else Ok([messages[0].(data := body)])
    else Err(OneBodyForManyMessages(|messages|))
  }

  function MessagesAfter(base: Option<Template>, body: string): Result<seq<Message>, Refusal> {
    match base
    case None => Ok([])
    case Some(b) =>
      if b.protocol == PROTO_GRPC && body != EditableBody(b) then EditedMessages(b.messages, body) else Ok(b.messages)
  }

  function Origin(parse: UrlParser, base: Option<Template>): (string, string) {
    match base
    case None => ("http", "")
    case Some(b) =>
      match parse(b.url)
      case None => ("http", "")
      case Some(u) => (if u.scheme != "" then u.scheme else "http", u.host)
  }

  // An absolute target keeps its path and query only.
  function RelativeTarget(parse: UrlParser, target: string): string {
    match parse(target)
    case Some(u) => if u.scheme != "" then u.requestUri else target
    case None => target
  }

  function Parsed(parse: UrlParser, raw: string, base: Option<Template>): Result<Template, Refusal> {
    var (head, body) := SplitHeadBody(raw);
    var lines := LinesOf(head);
    if Trim(lines[0]) == "" then Err(EmptyRequest)
    else
      var fields := Fields(lines[0]);
      if |fields| < 2 then Err(MalformedRequestLine)
      else
        var (scheme, host) := Origin(parse, base);
        var grpc := base.Some? && base.value.protocol == PROTO_GRPC;
        match MessagesAfter(base, body)
        case Err(e) => Err(e)
        case Ok(messages) =>
          Ok(Template(
            fields[0],
            scheme + "://" + host + RelativeTarget(parse, fields[1]),
            WithoutHost(ParsedHeader(lines[1..], map[])),
            if grpc then "" else body,
            messages,
            if base.Some? then base.value.protocol else "",
            base.Some? && base.value.secure))
  }

  // ParseRaw, with the header map filled in a loop.
  method ParseRaw(parse: UrlParser, raw: string, base: Option<Template>) returns (r: Result<Template, Refusal>)
    ensures r == Parsed(parse, raw, base)
  {
    hide SplitHeadBody, LinesOf, Trim, Fields, ParsedHeader, EditableBody;
    var (head, body) := SplitHeadBody(raw);
    var lines := LinesOf(head);
    if Trim(lines[0]) == "" {
      return Err(EmptyRequest);
    }
    var fields := Fields(lines[0]);
    if |fields| < 2 {
      return Err(MalformedRequestLine);
    }
    var verb, target := fields[0], fields[1];
    var header := ReadHeader(lines[1..]);
    header := header - {"Host"};
    var scheme, host, secure, protocol := "http", "", false, "";
    var messages: seq<Message> := [];
    if base.Some? {
      secure, protocol, messages := base.value.secure, base.value.protocol, base.value.messages;
      var u := parse(base.value.url);
      if u.Some? {
        if u.value.scheme != "" {
          scheme := u.value.scheme;
        }
        host := u.value.host;
      }
    }
    assert (scheme, host) == Origin(parse, base);
    var v := parse(target);
    if v.Some? && v.value.scheme != "" {
      target := v.value.requestUri;
    }
    assert target == RelativeTarget(parse, fields[1]);
    var templateBody := body;
    if protocol == PROTO_GRPC {
      templateBody := "";
      var original := "";
      if base.Some? {
        original := EditableBody(base.value);
      }
      if body != original {
        if |messages| == 0 {
          messages := [Message(false, body)];
        } else if |messages| == 1 {
          if messages[0].compressed {
            return Err(CompressedPayload);
          }
          messages := [messages[0].(data := body)];
        } else {
          return Err(OneBodyForManyMessages(|messages|));
        }
      }
    }
    assert MessagesAfter(base, body) == Ok(messages);
    return Ok(Template(verb, scheme + "://" + host + target, header, templateBody, messages, protocol, secure));
  }

  method ReadHeader(lines: seq<string>) returns (header: Header)
    ensures header == ParsedHeader(lines, map[])
  {
    hide Index, Trim, Add;
    header := map[];
    for i := 0 to |lines|
      invariant ParsedHeader(lines[i..], header) == ParsedHeader(lines, map[])
    {
      var line := lines[i];
      assert lines[i..][0] == line && lines[i..][1..] == lines[i + 1..];
      if Trim(line) != "" {
        var colon := Index(line, ":");
        if colon >= 0 {
          header := Add(header, Trim(line[..colon]), Trim(line[colon + 1..]));
        }
      }
    }
  }

  // ---------- the text, byte by byte ----------

  function Target(parse: UrlParser, url: string): string {
    if parse(url).Some? && parse(url).value.host != "" then parse(url).value.requestUri else url
  }

  // The request line; then, if the address names a host and the header has none,
  // the line that names it; the header lines; a blank line; the body.
  lemma PrintedLayout(parse: UrlParser, t: Template, body: string)
    ensures var host := if parse(t.url).Some? then parse(t.url).value.host else "";
      var given := "Host" in t.header && t.header["Host"] != [] && t.header["Host"][0] != "";
      var headers := Terminated(HeaderLines(t.header, KeysInOrder(t.header)));
      Printed(parse, t, body) ==
        t.verb + " " + Target(parse, t.url) + " HTTP/1.1\r\n" +
        (if host != "" && !given then "Host: " + host + "\r\n" else "") + headers + "\r\n" + body
  {
    var top, headers := [FirstLine(parse, t)] + HostLines(parse, t), HeaderLines(t.header, KeysInOrder(t.header));
    TopLayout(parse, t);
    TerminatedAppend(top, headers);
    TerminatedJoin(HeadLines(parse, t));
    EndOfHead(Join(HeadLines(parse, t), CRLF), body);
    hide Terminated, HeaderLines, Join, KeysInOrder, HostLines, FirstLine, Target;
  }

  lemma TopLayout(parse: UrlParser, t: Template)
    ensures var host := if parse(t.url).Some? then parse(t.url).value.host else "";
      var given := "Host" in t.header && t.header["Host"] != [] && t.header["Host"][0] != "";
      Terminated([FirstLine(parse, t)] + HostLines(parse, t)) ==
        t.verb + " " + Target(parse, t.url) + " HTTP/1.1\r\n" +
        if host != "" && !given then "Host: " + host + "\r\n" else ""
  {
    TopLines(parse, t);
    hide Terminated;
    var first := FirstLine(parse, t);
    assert first + CRLF == t.verb + " " + Target(parse, t.url) + " HTTP/1.1\r\n";
    if HostLines(parse, t) == [] {
      assert first + CRLF == first + CRLF + "";
    } else {
      Associates(first + CRLF, "Host: ", HostOf(parse, t.url));
      Associates(first + CRLF, "Host: " + HostOf(parse, t.url), CRLF);
    }
  }

  // The header lines: each name's values on lines of their own, in order.
  lemma HeaderLayout(h: Header, k: string, rest: seq<string>, v: string, more: seq<string>)
    requires k in h && forall x :: x in rest ==> x in h
    ensures Terminated(HeaderLines(h, [])) == "" && Terminated(ValueLines(k, [])) == ""
    ensures Terminated(HeaderLines(h, [k] + rest)) == Terminated(ValueLines(k, h[k])) + Terminated(HeaderLines(h, rest))
    ensures Terminated(ValueLines(k, [v] + more)) == k + ": " + v + "\r\n" + Terminated(ValueLines(k, more))
  {
    assert ([k] + rest)[1..] == rest && ([v] + more)[1..] == more;
    TerminatedAppend(ValueLines(k, h[k]), HeaderLines(h, rest));
    TerminatedAppend([k + ": " + v], ValueLines(k, more));
    assert Terminated([k + ": " + v]) == k + ": " + v + "\r\n";
  }

  // What is read: where each part of the template comes from.
  lemma WhatIsParsed(parse: UrlParser, raw: string, base: Option<Template>, t: Template)
    requires Parsed(parse, raw, base) == Ok(t)
    ensures var fields := Fields(LinesOf(SplitHeadBody(raw).0)[0]);
      var from := if base.Some? then parse(base.value.url) else None;
      var to := if |fields| > 1 then parse(fields[1]) else None;
      && |fields| >= 2 && t.verb == fields[0]
      && t.url ==
           (if from.Some? && from.value.scheme != "" then from.value.scheme else "http") + "://" +
           (if from.Some? then from.value.host else "") +
           (if to.Some? && to.value.scheme != "" then to.value.requestUri else fields[1])
    ensures "Host" !in t.header
    ensures t.protocol == (if base.Some? then base.value.protocol else "")
    ensures t.secure <==> base.Some? && base.value.secure
    ensures t.body == if base.Some? && base.value.protocol == "grpc" then "" else SplitHeadBody(raw).1
  {
    hide SplitHeadBody, LinesOf, Fields, Trim, ParsedHeader, MessagesAfter;
  }

  // What is refused on account of its first line.
  lemma WhatIsRefused(parse: UrlParser, raw: string, base: Option<Template>)
    ensures var first := LinesOf(SplitHeadBody(raw).0)[0];
      && (Trim(first) == "" ==> Parsed(parse, raw, base) == Err(EmptyRequest))
      && (Trim(first) != "" && |Fields(first)| < 2 ==> Parsed(parse, raw, base) == Err(MalformedRequestLine))
  {
    hide SplitHeadBody, LinesOf, Fields, Trim, ParsedHeader, MessagesAfter;
  }

  // An edited gRPC body is the one plain message, new or changed; a compressed
  // one and several refuse it. Unedited, and in other protocols, all stay.
  lemma WhatAnEditMeans(t: Template, body: string)
    ensures MessagesAfter(None, body) == Ok([])
    ensures t.protocol != "grpc" || body == EditableBody(t) ==> MessagesAfter(Some(t), body) == Ok(t.messages)
    ensures t.protocol == "grpc" && body != EditableBody(t) ==>
      MessagesAfter(Some(t), body) == (
        if |t.messages| >= 2 then Err(OneBodyForManyMessages(|t.messages|))
        else if |t.messages| == 1 && t.messages[0].compressed then Err(CompressedPayload)
        else Ok([Message(false, body)]))
  {
    hide EditableBody;
  }

  // What is shown for editing: the one plain gRPC message, otherwise the body.
  lemma WhatIsEdited(t: Template)
    ensures EditableBody(t) ==
      if t.protocol == "grpc" && |t.messages| == 1 && !t.messages[0].compressed then t.messages[0].data else t.body
  {
  }

  // The head ends at the first blank line of either kind, wherever that is.
  lemma SplitAtFirstBlank(raw: string)
    ensures var (head, body) := SplitHeadBody(raw);
      && (forall j :: 0 <= j < |head| ==> !At(raw, BLANK_CRLF, j) && !At(raw, BLANK_LF, j))
      && (raw == head + "\r\n\r\n" + body || raw == head + "\n\n" + body ||
          (raw == head && body == "" && forall j :: 0 <= j ==> !At(raw, BLANK_CRLF, j) && !At(raw, BLANK_LF, j)))
  {
    var crlf, lf := Index(raw, BLANK_CRLF), Index(raw, BLANK_LF);
    hide Index;
    if crlf >= 0 && (lf < 0 || crlf <= lf) {
      assert raw == raw[..crlf] + raw[crlf..crlf + 4] + raw[crlf + 4..];
    } else if lf >= 0 {
      assert raw == raw[..lf] + raw[lf..lf + 2] + raw[lf + 2..];
    }
  }

  // A line that is blank or has no colon is passed over; of another, what stands
  // before the first colon names the value behind it.
  lemma WhatALineAdds(h: Header, name: string, value: string)
    requires !Contains(name, ":")
    ensures AddLine(h, name + ":" + value) ==
      h[CanonicalKey(Trim(name)) := Values(h, CanonicalKey(Trim(name))) + [Trim(value)]]
  {
    var line := name + ":" + value;
    FirstSeparator(name, ":", value);
    NotBlank(line, |name|);
    AddedByLine(h, line, |name|);
    hide AddLine, Trim, CanonicalKey, Values, Contains, Index;
  }

  lemma AddedByLine(h: Header, line: string, i: nat)
    requires Trim(line) != "" && i < |line| && Index(line, ":") == i
    ensures var name := CanonicalKey(Trim(line[..i]));
      AddLine(h, line) == h[name := Values(h, name) + [Trim(line[i + 1..])]]
  {
    hide Trim, CanonicalKey, Values, Index;
  }

  lemma LinePassedOver(h: Header, line: string)
    requires Trim(line) == "" || !Contains(line, ":")
    ensures AddLine(h, line) == h
  {
    hide Trim, Add;
  }

  // Names are capitalized word by word, unless one is no token.
  lemma CanonicalNames()
    ensures CanonicalKey("content-TYPE") == "Content-Type" && CanonicalKey("x y") == "x y"
  {
    assert !TokenChar("x y"[1]);
    assert Capitalized("content-TYPE") == "Content-Type";
  }

  // ---------- where the head ends ----------

  predicate OneLine(s: string) {
    forall i :: 0 <= i < |s| ==> s[i] != '\n'
  }

  ghost predicate Lines(lines: seq<string>) {
    && lines != []
    && (forall i :: 0 <= i < |lines| ==> OneLine(lines[i]))
    && (forall i :: 1 <= i < |lines| ==> lines[i] != "")
  }

  // No blank line of either kind starts inside printed lines, and no bare-LF
  // one where their own blank line does.
  lemma {:induction false} NoBlankInside(lines: seq<string>, body: string, j: nat)
    requires Lines(lines) && j <= |Join(lines, CRLF)|
    ensures !At(Join(lines, CRLF) + BLANK_CRLF + body, BLANK_LF, j)
    ensures At(Join(lines, CRLF) + BLANK_CRLF + body, BLANK_CRLF, j) ==> j == |Join(lines, CRLF)|
    decreases |lines|
  {
    var first, all := lines[0], Join(lines, CRLF) + BLANK_CRLF + body;
    if |lines| == 1 {
      assert all == first + CRLF + (CRLF + body);
      InFirstLine(first, CRLF + body, j);
    } else {
      var rest := Join(lines[1..], CRLF) + BLANK_CRLF + body;
      assert all == first + CRLF + rest;
      RestStart(lines[1..], BLANK_CRLF + body);
      assert Join(lines[1..], CRLF) + (BLANK_CRLF + body) == rest;
      if j < |first| + 2 {
        InFirstLine(first, rest, j);
      } else {
        NoBlankInside(lines[1..], body, j - |first| - 2);
        LaterStart(first + CRLF, rest, BLANK_LF, j);
        LaterStart(first + CRLF, rest, BLANK_CRLF, j);
      }
    }
  }

  lemma LaterStart(front: string, rest: string, pattern: string, j: nat)
    requires j >= |front|
    ensures At(front + rest, pattern, j) <==> At(rest, pattern, j - |front|)
  {
    if j + |pattern| <= |front + rest| {
      assert (front + rest)[j..j + |pattern|] == rest[j - |front|..j - |front| + |pattern|];
    }
  }

  // A line that is not empty is not taken for the end of a blank one.
  lemma RestStart(lines: seq<string>, tail: string)
    requires lines != [] && lines[0] != "" && OneLine(lines[0]) && Stop(tail)
    ensures var rest := Join(lines, CRLF) + tail; |rest| >= 2 && rest[0] != '\n' && rest[1] != '\n'
  {
    var rest := Join(lines, CRLF) + tail;
    assert rest[0] == lines[0][0];
    assert |lines[0]| > 1 ==> rest[1] == lines[0][1];
    assert |lines[0]| == 1 ==> rest[1] == '\r';
  }

  predicate Stop(tail: string) {
    tail != "" && tail[0] == '\r'
  }

  lemma InFirstLine(first: string, rest: string, j: nat)
    requires OneLine(first) && j < |first| + 2
    ensures At(first + CRLF + rest, BLANK_CRLF, j) ==> j == |first| && |rest| >= 2 && rest[1] == '\n'
    ensures At(first + CRLF + rest, BLANK_LF, j) ==> j == |first| + 1 && rest != "" && rest[0] == '\n'
  {
    var all := first + CRLF + rest;
    if At(all, BLANK_CRLF, j) {
      CharOf(all, BLANK_CRLF, j, j);
      CharOf(all, BLANK_CRLF, j, j + 1);
      CharOf(all, BLANK_CRLF, j, j + 3);
    }
    if At(all, BLANK_LF, j) {
      CharOf(all, BLANK_LF, j, j);
      CharOf(all, BLANK_LF, j, j + 1);
    }
  }

  // The body is cut off byte for byte, whatever blank lines it holds.
  lemma SplitPrinted(lines: seq<string>, body: string)
    requires Lines(lines)
    ensures SplitHeadBody(Join(lines, CRLF) + BLANK_CRLF + body) == (Join(lines, CRLF), body)
  {
    var head := Join(lines, CRLF);
    var raw := head + BLANK_CRLF + body;
    forall j | 0 <= j <= |head| ensures !At(raw, BLANK_LF, j) && (At(raw, BLANK_CRLF, j) ==> j == |head|) {
      NoBlankInside(lines, body, j);
    }
    hide At;
    assert At(raw, BLANK_CRLF, |head|) by { AtLonger(head, BLANK_CRLF, body, BLANK_CRLF, 0); }
    IndexIs(raw, BLANK_CRLF, |head|);
    assert raw[..|head|] == head && raw[|head| + 4..] == body;
  }

  lemma LinesRead(lines: seq<string>)
    requires Lines(lines)
    ensures LinesOf(Join(lines, CRLF)) == lines
  {
    forall i | 0 <= i < |lines| ensures !Contains(lines[i], CRLF) && !Contains(lines[i], LF) {
      OneLineHasNone(lines[i]);
    }
    SplitJoin(lines, CRLF);
    SplitJoin(lines, LF);
  }

  lemma OneLineHasNone(s: string)
    requires OneLine(s)
    ensures !Contains(s, CRLF) && !Contains(s, LF)
  {
    if Contains(s, LF) { CharOf(s, LF, Index(s, LF), Index(s, LF)); }
    if Contains(s, CRLF) { CharOf(s, CRLF, Index(s, CRLF), Index(s, CRLF) + 1); }
  }

  // ---------- the request line ----------

  predicate Plain(s: string) {
    s != "" && forall i :: 0 <= i < |s| ==> !IsSpace(s[i])
  }

  lemma {:induction false} WordOf(w: string, rest: string)
    requires (forall i :: 0 <= i < |w| ==> !IsSpace(w[i])) && rest != "" && IsSpace(rest[0])
    ensures Word(w + rest) == w
    decreases |w|
  {
    if w == "" {
      assert w + rest == rest;
    } else {
      assert (w + rest)[1..] == w[1..] + rest;
      WordOf(w[1..], rest);
      assert w == [w[0]] + w[1..];
    }
  }

  lemma FirstField(w: string, rest: string)
    requires Plain(w) && rest != "" && IsSpace(rest[0])
    ensures Fields(w + rest) == [w] + Fields(rest)
    ensures Fields(" " + w + rest) == [w] + Fields(rest)
  {
    var s := w + rest;
    assert s[0] == w[0];
    WordOf(w, rest);
    assert s[|w|..] == rest;
    FieldsUnfold(s);
    Associates(" ", w, rest);
  }

  lemma FieldsUnfold(s: string)
    requires s != "" && !IsSpace(s[0])
    ensures Fields(s) == [Word(s)] + Fields(s[|Word(s)|..]) && Fields(" " + s) == Fields(s)
  {
    var t := " " + s;
    assert t[0] == ' ' && IsSpace(' ') && t[1..] == s;
    hide IsSpace;
    assert TrimLeft(s) == s;
    assert TrimLeft(t) == TrimLeft(t[1..]);
  }

  lemma RequestLineFields(verb: string, target: string)
    requires Plain(verb) && Plain(target)
    ensures var line := verb + " " + target + " HTTP/1.1";
      |Fields(line)| >= 2 && Fields(line)[0] == verb && Fields(line)[1] == target && Trim(line) != ""
  {
    var line, tail := verb + " " + target + " HTTP/1.1", " HTTP/1.1";
    NotBlank(line, 0);
    assert line == verb + (" " + target + tail);
    assert IsSpace(' ');
    hide Fields, IsSpace, Trim;
    FirstField(verb, " " + target + tail);
    FirstField(target, tail);
  }

  // ---------- header lines ----------

  // A name is printed and read back unchanged when it is canonical and free of
  // colons, line feeds and outer white space; a value when it is free of the
  // last two.
  predicate PrintableName(k: string) {
    Trimmed(k) && CanonicalKey(k) == k && ':' !in k && OneLine(k)
  }

  predicate PrintableValue(v: string) {
    Trimmed(v) && OneLine(v)
  }

  ghost predicate PrintableHeader(h: Header) {
    forall k :: k in h ==> PrintableName(k) && forall i :: 0 <= i < |h[k]| ==> PrintableValue(h[k][i])
  }

  lemma FirstColon(k: string, rest: string)
    requires ':' !in k
    ensures Index(k + ":" + rest, ":") == |k|
    ensures (k + ":" + rest)[..|k|] == k && (k + ":" + rest)[|k| + 1..] == rest
  {
    var s := k + ":" + rest;
    forall j | 0 <= j < |k| ensures !At(s, ":", j) {
      assert k[j] in k;
      if At(s, ":", j) { CharOf(s, ":", j, j); }
    }
    assert At(s, ":", |k|);
    IndexIs(s, ":", |k|);
  }

  lemma AddLineIs(h: Header, line: string, k: string, v: string)
    requires Index(line, ":") >= 0 && Trim(line) != "" && CanonicalKey(k) == k
    requires Trim(line[..Index(line, ":")]) == k && Trim(line[Index(line, ":") + 1..]) == v
    ensures AddLine(h, line) == h[k := Values(h, k) + [v]]
  {
    hide Index, Trim, CanonicalKey, Values;
  }

  lemma HeaderLineRead(h: Header, k: string, v: string)
    requires PrintableName(k) && PrintableValue(v)
    ensures AddLine(h, k + ": " + v) == h[k := Values(h, k) + [v]]
  {
    var line := k + ": " + v;
    hide Index, Trim, CanonicalKey, Values, AddLine;
    assert line == k + ":" + (" " + v);
    FirstColon(k, " " + v);
    TrimTrimmed(v);
    TrimTrimmed(k);
    NotBlank(line, |k|);
    AddLineIs(h, line, k, v);
  }

  lemma {:induction false} ValueLinesShape(k: string, values: seq<string>)
    requires OneLine(k) && forall i :: 0 <= i < |values| ==> OneLine(values[i])
    ensures forall i :: 0 <= i < |ValueLines(k, values)| ==>
      OneLine(ValueLines(k, values)[i]) && ValueLines(k, values)[i] != ""
    decreases |values|
  {
    if values != [] {
      ValueLinesShape(k, values[1..]);
    }
  }

  function AddAll(h: Header, k: string, values: seq<string>): Header {
    if values == [] then h else h[k := Values(h, k) + values]
  }

  lemma AddAllStep(h: Header, k: string, values: seq<string>)
    requires values != []
    ensures AddAll(h[k := Values(h, k) + [values[0]]], k, values[1..]) == AddAll(h, k, values)
  {
    assert Values(h, k) + [values[0]] + values[1..] == Values(h, k) + values;
    assert values[1..] == [] ==> values == [values[0]];
  }

  lemma {:induction false} ValueLinesRead(h: Header, k: string, values: seq<string>, rest: seq<string>)
    requires PrintableName(k) && forall i :: 0 <= i < |values| ==> PrintableValue(values[i])
    ensures ParsedHeader(ValueLines(k, values) + rest, h) == ParsedHeader(rest, AddAll(h, k, values))
    decreases |values|
  {
    hide PrintableName, PrintableValue, AddLine, AddAll, Values;
    if values == [] {
      assert ValueLines(k, values) + rest == rest;
      assert AddAll(h, k, values) == h by { NothingAdded(h, k); }
    } else {
      var lines := ValueLines(k, values) + rest;
      HeaderLineRead(h, k, values[0]);
      ValueLinesRead(AddLine(h, lines[0]), k, values[1..], rest);
      AddAllStep(h, k, values);
      assert lines[1..] == ValueLines(k, values[1..]) + rest;
    }
  }

  lemma NothingAdded(h: Header, k: string)
    ensures AddAll(h, k, []) == h
  {
  }

  lemma {:induction false} HeaderLinesRead(h: Header, keys: seq<string>, start: Header, q: string)
    requires PrintableHeader(h) && (forall k :: k in keys ==> k in h)
    requires forall i, j :: 0 <= i < j < |keys| ==> keys[i] != keys[j]
    ensures var r := ParsedHeader(HeaderLines(h, keys), start);
      && Values(r, q) == Values(start, q) + (if q in keys then h[q] else [])
      && (q in r <==> q in start || (q in keys && h[q] != []))
    decreases |keys|
  {
    if keys != [] {
      var k, rest := keys[0], keys[1..];
      ValueLinesRead(start, k, h[k], HeaderLines(h, rest));
      hide PrintableName, PrintableValue, AddLine, ParsedHeader, ValueLines, AddAll, Values;
      FirstOrRest(keys, q);
      HeaderLinesRead(h, rest, AddAll(start, k, h[k]), q);
      AddedValues(start, k, h[k], q);
    }
  }

  lemma FirstOrRest(keys: seq<string>, q: string)
    requires keys != [] && forall i, j :: 0 <= i < j < |keys| ==> keys[i] != keys[j]
    ensures q in keys <==> q == keys[0] || q in keys[1..]
    ensures keys[0] !in keys[1..]
  {
    assert keys == [keys[0]] + keys[1..];
  }

  lemma AddedValues(h: Header, k: string, values: seq<string>, q: string)
    ensures Values(AddAll(h, k, values), q) == Values(h, q) + if q == k then values else []
    ensures q in AddAll(h, k, values) <==> q in h || (q == k && values != [])
  {
    assert Values(h, q) + [] == Values(h, q);
  }

  lemma {:induction false} HeaderLinesShape(h: Header, keys: seq<string>)
    requires PrintableHeader(h) && (forall k :: k in keys ==> k in h)
    ensures forall i :: 0 <= i < |HeaderLines(h, keys)| ==>
      OneLine(HeaderLines(h, keys)[i]) && HeaderLines(h, keys)[i] != ""
    decreases |keys|
  {
    if keys != [] {
      ValueLinesShape(keys[0], h[keys[0]]);
      HeaderLinesShape(h, keys[1..]);
    }
  }

  // What comes back of a header map: all of it but Host, and but names without
  // a value, which print nothing.
  function Kept(h: Header): Header {
    map k | k in h && k != "Host" && h[k] != [] :: h[k]
  }

  lemma HostIsCanonical()
    ensures CanonicalKey("Host") == "Host" && Trim("Host") == "Host"
  {
    HostCapitalized();
    hide Trim, Capitalized, IsSpace, TokenChar;
    HostIsPlain();
    TrimTrimmed("Host");
  }

  lemma HostCapitalized()
    ensures Capitalized("Host") == "Host"
  {
  }

  lemma HostIsPlain()
    ensures Trimmed("Host") && forall i :: 0 <= i < 4 ==> TokenChar("Host"[i])
  {
  }

  lemma HostLineRead(host: string)
    ensures AddLine(map[], "Host: " + host).Keys <= {"Host"}
  {
    hide Index, Trim, CanonicalKey, Values;
    HostIsCanonical();
    assert "Host: " + host == "Host" + ":" + (" " + host);
    FirstColon("Host", " " + host);
  }

  lemma KeptIs(h: Header, start: Header, r: Header)
    requires start.Keys <= {"Host"}
    requires forall q :: q in r <==> q in start || (q in h && h[q] != [])
    requires forall q :: Values(r, q) == Values(start, q) + Values(h, q)
    ensures WithoutHost(r) == Kept(h)
  {
    forall q | q in Kept(h) ensures r[q] == h[q] {
      assert Values(r, q) == Values(start, q) + Values(h, q);
    }
  }

  lemma AllHeaderLinesRead(h: Header, start: Header)
    requires PrintableHeader(h) && start.Keys <= {"Host"}
    ensures WithoutHost(ParsedHeader(HeaderLines(h, KeysInOrder(h)), start)) == Kept(h)
  {
    var keys := KeysInOrder(h);
    var r := ParsedHeader(HeaderLines(h, keys), start);
    hide ParsedHeader, HeaderLines, PrintableHeader, Kept, KeysInOrder, WithoutHost;
    forall q
      ensures q in r <==> q in start || (q in h && h[q] != [])
      ensures Values(r, q) == Values(start, q) + Values(h, q)
    {
      HeaderLinesRead(h, keys, start, q);
    }
    KeptIs(h, start, r);
  }

  lemma HeaderRead(parse: UrlParser, t: Template)
    requires PrintableHeader(t.header)
    ensures WithoutHost(ParsedHeader(HostLines(parse, t) + HeaderLines(t.header, KeysInOrder(t.header)), map[])) ==
      Kept(t.header)
  {
    var lines := HeaderLines(t.header, KeysInOrder(t.header));
    hide HeaderLines, AddLine, KeysInOrder, PrintableHeader, Kept, WithoutHost;
    if HostLines(parse, t) == [] {
      assert HostLines(parse, t) + lines == lines;
      AllHeaderLinesRead(t.header, map[]);
    } else {
      HostLineRead(HostOf(parse, t.url));
      assert (HostLines(parse, t) + lines)[1..] == lines;
      AllHeaderLinesRead(t.header, AddLine(map[], HostLines(parse, t)[0]));
    }
  }

  // ---------- the round trip ----------

  // What the target that is printed must look like to be read back.
  ghost predicate PrintableUrl(parse: UrlParser, url: string) {
    var target := RequestUri(parse, url);
    Plain(target) && RelativeTarget(parse, target) == target && OneLine(HostOf(parse, url))
  }

  ghost predicate Printable(parse: UrlParser, t: Template) {
    Plain(t.verb) && PrintableUrl(parse, t.url) && PrintableHeader(t.header)
  }

  // The template's address put together from its parts again.
  function Reassembled(parse: UrlParser, t: Template): string {
    var (scheme, host) := Origin(parse, Some(t));
    scheme + "://" + host + RequestUri(parse, t.url)
  }

  // The request with its body replaced, whatever the new body: verb, address and
  // header survive, and the body arrives byte for byte - as the template's body,
  // or in the one frame it stands for.
  lemma EditedBodyReadBack(parse: UrlParser, t: Template, body: string)
    requires Printable(parse, t)
    ensures Parsed(parse, Printed(parse, t, body), Some(t)) ==
      match MessagesAfter(Some(t), body)
      case Err(e) => Err(e)
      case Ok(messages) =>
        Ok(t.(url := Reassembled(parse, t), header := Kept(t.header), messages := messages,
              body := if t.protocol == PROTO_GRPC then "" else body))
  {
    assert RelativeTarget(parse, RequestUri(parse, t.url)) == RequestUri(parse, t.url);
    PrintedIsCut(parse, t, body);
    HeadLinesParse(parse, t);
    hide SplitHeadBody, LinesOf, Trim, Fields, HeadLines, ParsedHeader, Kept, MessagesAfter, WithoutHost, Printable,
      Printed, RequestUri, RelativeTarget, Origin;
  }

  lemma PrintedIsCut(parse: UrlParser, t: Template, body: string)
    requires Printable(parse, t)
    ensures var (head, rest) := SplitHeadBody(Printed(parse, t, body));
      rest == body && LinesOf(head) == HeadLines(parse, t)
  {
    hide Printable, Lines, HeadLines, LinesOf, SplitHeadBody;
    HeadLinesShape(parse, t);
    SplitPrinted(HeadLines(parse, t), body);
    LinesRead(HeadLines(parse, t));
  }

  lemma HeadLinesParse(parse: UrlParser, t: Template)
    requires Printable(parse, t)
    ensures var lines := HeadLines(parse, t);
      && lines != [] && Trim(lines[0]) != "" && |Fields(lines[0])| >= 2
      && Fields(lines[0])[0] == t.verb && Fields(lines[0])[1] == RequestUri(parse, t.url)
      && WithoutHost(ParsedHeader(lines[1..], map[])) == Kept(t.header)
  {
    HeadLinesAre(parse, t);
    assert Plain(t.verb) && Plain(RequestUri(parse, t.url)) && PrintableHeader(t.header);
    hide Trim, Fields, HeadLines, HostLines, HeaderLines, KeysInOrder, ParsedHeader, Kept, WithoutHost, RequestUri,
      Plain, PrintableHeader, Printable;
    RequestLineFields(t.verb, RequestUri(parse, t.url));
    HeaderRead(parse, t);
  }

  lemma HeadLinesAre(parse: UrlParser, t: Template)
    ensures HeadLines(parse, t) != [] && HeadLines(parse, t)[0] == FirstLine(parse, t)
    ensures HeadLines(parse, t)[1..] == HostLines(parse, t) + HeaderLines(t.header, KeysInOrder(t.header))
  {
    hide FirstLine, HostLines, HeaderLines;
  }

  lemma TopShape(parse: UrlParser, t: Template)
    requires Plain(t.verb) && PrintableUrl(parse, t.url)
    ensures Lines([FirstLine(parse, t)] + HostLines(parse, t))
  {
    PlainIsOneLine(t.verb);
    PlainIsOneLine(RequestUri(parse, t.url));
    hide Plain, RequestUri, HostOf, Get;
    assert OneLine(FirstLine(parse, t));
  }

  lemma LinesAppend(top: seq<string>, rest: seq<string>)
    requires Lines(top) && forall i :: 0 <= i < |rest| ==> OneLine(rest[i]) && rest[i] != ""
    ensures Lines(top + rest)
  {
    hide OneLine;
  }

  lemma HeadLinesShape(parse: UrlParser, t: Template)
    requires Printable(parse, t)
    ensures Lines(HeadLines(parse, t))
  {
    hide FirstLine, HostLines, HeaderLines, OneLine, KeysInOrder, PrintableHeader, Plain, PrintableUrl, Lines;
    TopShape(parse, t);
    HeaderLinesShape(t.header, KeysInOrder(t.header));
    LinesAppend([FirstLine(parse, t)] + HostLines(parse, t), HeaderLines(t.header, KeysInOrder(t.header)));
  }

  lemma PlainIsOneLine(s: string)
    requires Plain(s)
    ensures OneLine(s)
  {
    assert IsSpace('\n');
  }

  // Unedited text gives the template back.
  lemma RawReadBack(parse: UrlParser, t: Template)
    requires Printable(parse, t) && t.url == Reassembled(parse, t)
    ensures Parsed(parse, Printed(parse, t, EditableBody(t)), Some(t)) ==
      Ok(t.(header := Kept(t.header), body := if t.protocol == PROTO_GRPC then "" else t.body))
  {
    EditedBodyReadBack(parse, t, EditableBody(t));
  }

  // ---------- whatever was read can be printed ----------

  lemma {:induction false} FieldsArePlain(s: string)
    ensures forall i :: 0 <= i < |Fields(s)| ==> Plain(Fields(s)[i])
    decreases |s|
  {
    var t := TrimLeft(s);
    if t != "" {
      assert Plain(Word(t));
      hide IsSpace, Plain;
      FieldsArePlain(t[|Word(t)|..]);
    }
  }

  lemma TokenFacts(c: char)
    requires TokenChar(c)
    ensures TokenChar(Upper(c)) && TokenChar(AsciiLower(c))
    ensures c != ':' && c != '\n' && !IsSpace(c)
  {
  }

  lemma CapitalizedTwice(k: string)
    requires forall i :: 0 <= i < |k| ==> TokenChar(k[i])
    ensures Capitalized(Capitalized(k)) == Capitalized(k)
    ensures forall i :: 0 <= i < |k| ==> TokenChar(Capitalized(k)[i])
  {
    var c := Capitalized(k);
    forall i | 0 <= i < |k| ensures TokenChar(c[i]) && (c[i] == '-' <==> k[i] == '-') {
      TokenFacts(k[i]);
    }
    hide TokenChar;
    assert Capitalized(c) == c;
  }

  // A canonical name is canonical, and still free of what the name was free of.
  lemma CanonicalIsPrintable(k: string)
    requires Trimmed(k) && ':' !in k && OneLine(k)
    ensures PrintableName(CanonicalKey(k))
  {
    hide TokenChar, IsSpace;
    if forall i :: 0 <= i < |k| ==> TokenChar(k[i]) {
      CapitalizedTwice(k);
      var c := Capitalized(k);
      forall i | 0 <= i < |c| ensures c[i] != ':' && c[i] != '\n' && !IsSpace(c[i]) {
        TokenFacts(c[i]);
      }
    }
  }

  lemma TrimInside(s: string)
    ensures Trimmed(Trim(s)) && forall c :: c in Trim(s) ==> c in s
  {
    var l, r := TrimTakesSpaces(s);
    hide Trim;
  }

  lemma PartIsOneLine(s: string, a: nat, b: nat)
    requires OneLine(s) && a <= b <= |s|
    ensures OneLine(s[a..b])
  {
  }

  lemma TrimmedPart(s: string)
    requires OneLine(s)
    ensures Trimmed(Trim(s)) && OneLine(Trim(s)) && (':' !in s ==> ':' !in Trim(s))
  {
    TrimInside(s);
    hide Trim, Trimmed;
    forall i | 0 <= i < |Trim(s)| ensures Trim(s)[i] != '\n' {
      assert Trim(s)[i] in Trim(s);
    }
  }

  lemma NameAndValueOf(line: string)
    requires OneLine(line) && Index(line, ":") >= 0
    ensures PrintableName(CanonicalKey(Trim(line[..Index(line, ":")])))
    ensures PrintableValue(Trim(line[Index(line, ":") + 1..]))
  {
    var i := Index(line, ":");
    NoColonBefore(line);
    hide Index, Trim, CanonicalKey, PrintableName, OneLine, Trimmed;
    PartIsOneLine(line, 0, i);
    PartIsOneLine(line, i + 1, |line|);
    TrimmedPart(line[..i]);
    TrimmedPart(line[i + 1..]);
    CanonicalIsPrintable(Trim(line[..i]));
  }

  lemma AddedIsPrintable(h: Header, line: string)
    requires PrintableHeader(h) && Kept(h) == h - {"Host"} && OneLine(line)
    ensures PrintableHeader(AddLine(h, line)) && Kept(AddLine(h, line)) == AddLine(h, line) - {"Host"}
  {
    hide Index, Trim, CanonicalKey, PrintableName, PrintableValue, OneLine, Kept, PrintableHeader, Values;
    var i := Index(line, ":");
    if Trim(line) != "" && i >= 0 {
      NameAndValueOf(line);
      AddPrintable(h, CanonicalKey(Trim(line[..i])), Trim(line[i + 1..]));
    }
  }

  lemma NoColonBefore(line: string)
    requires Index(line, ":") >= 0
    ensures ':' !in line[..Index(line, ":")]
  {
    var i := Index(line, ":");
    if ':' in line[..i] {
      var j :| 0 <= j < i && line[..i][j] == ':';
      assert At(line, ":", j);
    }
  }

  lemma AddPrintable(h: Header, c: string, v: string)
    requires PrintableHeader(h) && Kept(h) == h - {"Host"} && PrintableName(c) && PrintableValue(v)
    ensures var r := h[c := Values(h, c) + [v]]; PrintableHeader(r) && Kept(r) == r - {"Host"}
  {
    hide PrintableName, PrintableValue;
    var r := h[c := Values(h, c) + [v]];
    forall k | k in r ensures PrintableName(k) && forall i :: 0 <= i < |r[k]| ==> PrintableValue(r[k][i]) {
    }
    forall k | k in r && k != "Host" ensures r[k] != [] {
      assert k != c ==> k in h - {"Host"} && k in Kept(h);
    }
  }

  lemma {:induction false} ParsedHeaderIsPrintable(lines: seq<string>, h: Header)
    requires PrintableHeader(h) && Kept(h) == h - {"Host"}
    requires forall i :: 0 <= i < |lines| ==> OneLine(lines[i])
    ensures var r := ParsedHeader(lines, h); PrintableHeader(r) && Kept(r) == r - {"Host"}
    decreases |lines|
  {
    hide PrintableHeader, Kept, OneLine, AddLine;
    if lines != [] {
      AddedIsPrintable(h, lines[0]);
      ParsedHeaderIsPrintable(lines[1..], AddLine(h, lines[0]));
    }
  }

  lemma LinesAreOneLine(head: string)
    ensures forall i :: 0 <= i < |LinesOf(head)| ==> OneLine(LinesOf(head)[i])
  {
    SplitParts(Join(Split(head, CRLF), LF), LF);
    forall i | 0 <= i < |LinesOf(head)| ensures OneLine(LinesOf(head)[i]) {
      var line := LinesOf(head)[i];
      forall j | 0 <= j < |line| ensures line[j] != '\n' {
        if line[j] == '\n' { ContainsAt(line, LF, j); }
      }
    }
  }

  // Whatever text it came from, a template that was read is a fixed point of
  // printing and reading, as long as url.Parse takes its address apart again.
  lemma ReadPrintedReadAgain(parse: UrlParser, raw: string, base: Option<Template>, t: Template)
    requires Parsed(parse, raw, base) == Ok(t)
    requires PrintableUrl(parse, t.url) && t.url == Reassembled(parse, t)
    ensures Parsed(parse, Printed(parse, t, EditableBody(t)), Some(t)) == Ok(t)
  {
    ReadIsPrintable(parse, raw, base, t);
    hide Parsed, Printed, Reassembled, PrintableUrl, Kept, PrintableHeader;
    RawReadBack(parse, t);
  }

  lemma ReadHeaderIsPrintable(head: string)
    ensures var h := WithoutHost(ParsedHeader(LinesOf(head)[1..], map[])); PrintableHeader(h) && Kept(h) == h
  {
    var lines := LinesOf(head);
    LinesAreOneLine(head);
    assert Kept(map[]) == map[] - {"Host"};
    hide LinesOf, ParsedHeader, OneLine, PrintableName, PrintableValue;
    var h := ParsedHeader(lines[1..], map[]);
    ParsedHeaderIsPrintable(lines[1..], map[]);
    assert Kept(h - {"Host"}) == Kept(h);
  }

  lemma ReadIsPrintable(parse: UrlParser, raw: string, base: Option<Template>, t: Template)
    requires Parsed(parse, raw, base) == Ok(t)
    ensures Plain(t.verb) && PrintableHeader(t.header) && Kept(t.header) == t.header
    ensures t.protocol == PROTO_GRPC ==> t.body == ""
  {
    var head := SplitHeadBody(raw).0;
    FieldsArePlain(LinesOf(head)[0]);
    hide LinesOf, SplitHeadBody, ParsedHeader, Fields, Plain, PrintableHeader, Kept, Trim, MessagesAfter, WithoutHost;
    ReadHeaderIsPrintable(head);
  }
}
