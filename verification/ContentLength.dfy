// The editor's Content-Length fixer. Strings stand for byte strings, one
// character a byte, so a length in characters is the length the header needs.
module ContentLength {
  import opened Common
  import opened Text

  const NAME := "content-length:"

  // A raw request cut at its header boundary: the first CRLF blank line if there
  // is one anywhere, otherwise the first bare-LF one.
  datatype Parts = Parts(head: string, sep: string, body: string)

  function Boundary(raw: string): Option<Parts> {
    var i := Index(raw, BLANK_CRLF);
    if i >= 0 then Some(Parts(raw[..i], BLANK_CRLF, raw[i + 4..]))
    else
      var j := Index(raw, BLANK_LF);
      if j >= 0 then Some(Parts(raw[..j], BLANK_LF, raw[j + 2..])) else None
  }

  function Eol(head: string): string {
    if Contains(head, CRLF) then CRLF else LF
  }

  predicate IsLengthLine(line: string) {
    |line| >= |NAME| && ToAsciiLower(line[..|NAME|]) == NAME
  }

  function LengthLine(n: nat): string {
    "Content-Length: " + Decimal(n)
  }

  lemma LengthLineText()
    ensures LengthLine(1234) == "Content-Length: 1234"
  {
    DecimalDigits();
  }

  // The index of the first line naming the header, or the number of lines.
  function FirstLength(lines: seq<string>): (i: nat)
    ensures i <= |lines|
    ensures forall j :: 0 <= j < i ==> !IsLengthLine(lines[j])
    ensures i < |lines| ==> IsLengthLine(lines[i])
  {
    if lines == [] then 0
    else if IsLengthLine(lines[0]) then 0
    else 1 + FirstLength(lines[1..])
  }

  function FixedLines(lines: seq<string>, line: string): seq<string> {
    var i := FirstLength(lines);
    if i < |lines| then lines[i := line] else lines + [line]
  }

  function FixedHead(head: string, n: nat): string {
    Join(FixedLines(Split(head, Eol(head)), LengthLine(n)), Eol(head))
  }

  function Fixed(raw: string): string {
    match Boundary(raw)
    case None => raw
    case Some(p) => FixedHead(p.head, |p.body|) + p.sep + p.body
  }

  // The fixer itself, rewriting or extending the slice of lines.
  method FixContentLength(raw: string) returns (r: string)
    ensures r == Fixed(raw)
  {
    hide IsLengthLine, LengthLine, Split, Join, IndexFrom, ToAsciiLower, Decimal;
    var sep := BLANK_CRLF;
    var i := Index(raw, sep);
    if i < 0 {
      sep := BLANK_LF;
      i := Index(raw, sep);
      if i < 0 {
        return raw;
      }
    }
    var head, body := raw[..i], raw[i + |sep|..];
    var eol := CRLF;
    if !Contains(head, CRLF) {
      eol := LF;
    }
    var lines := Split(head, eol);
    ghost var was := lines;
    var found := false;
    for idx := 0 to |lines|
      invariant !found && lines == was
      invariant forall j :: 0 <= j < idx ==> !IsLengthLine(lines[j])
    {
      if IsLengthLine(lines[idx]) {
        lines := lines[idx := LengthLine(|body|)];
        found := true;
        break;
      }
    }
    if !found {
      lines := lines + [LengthLine(|body|)];
    }
    return Join(lines, eol) + sep + body;
  }

  // ---------- characters and occurrences ----------

  predicate NoBreaks(s: string) {
    forall i :: 0 <= i < |s| ==> s[i] != '\r' && s[i] != '\n'
  }

  predicate OnlyBreaks(s: string) {
    s != "" && forall i :: 0 <= i < |s| ==> s[i] == '\r' || s[i] == '\n'
  }

  lemma LengthLineFacts(n: nat)
    ensures IsLengthLine(LengthLine(n)) && NoBreaks(LengthLine(n)) && LengthLine(n) != ""
  {
    var line := LengthLine(n);
    assert line[..|NAME|] == "Content-Length:";
    assert ToAsciiLower("Content-Length:") == NAME;
    assert NoBreaks("Content-Length: ");
  }

  // A pattern of line breaks occurs before or after a stretch without breaks,
  // never across it.
  lemma NotAcross(before: string, middle: string, after: string, pattern: string, j: int)
    requires NoBreaks(middle) && middle != "" && OnlyBreaks(pattern)
    requires At(before + middle + after, pattern, j)
    ensures At(before, pattern, j) || At(after, pattern, j - |before| - |middle|)
  {
    var s := before + middle + after;
    AtChars(s, pattern, j);
    var a, b := |before|, |before| + |middle|;
    if j + |pattern| <= a {
      CharsAt(before, pattern, j);
    } else if j >= b {
      CharsAt(after, pattern, j - b);
    } else {
      var at := if j < a then a else j;
      CharOf(s, middle, a, at);
      CharOf(s, pattern, j, at);
    }
  }

  // What is found around a stretch without breaks is there whatever the stretch.
  lemma WasThere(before: string, previous: string, line: string, after: string, pattern: string, j: int)
    requires NoBreaks(line) && line != "" && OnlyBreaks(pattern)
    requires At(before + line + after, pattern, j)
    ensures || (At(before + previous + after, pattern, j) && j + |pattern| <= |before|)
            || (At(before + previous + after, pattern, j - |line| + |previous|) && j >= |before| + |line|)
  {
    NotAcross(before, line, after, pattern, j);
    if At(before, pattern, j) {
      AtLonger("", before, previous + after, pattern, j);
      assert "" + before + (previous + after) == before + previous + after;
    } else {
      AtLonger(before + previous, after, "", pattern, j - |before| - |line|);
      assert (before + previous) + after + "" == before + previous + after;
    }
  }

  lemma OutsideEnd(s: string, end: string, pattern: string, j: int)
    requires At(s + end, pattern, j)
    ensures j + |pattern| <= |s| ==> At(s, pattern, j)
    ensures forall k :: 0 <= k < |pattern| ==> (s + end)[j + k] == pattern[k]
  {
    AtChars(s + end, pattern, j);
    if j + |pattern| <= |s| {
      CharsAt(s, pattern, j);
    }
  }

  // ---------- the head alone ----------

  function JoinBefore(lines: seq<string>, i: nat, sep: string): string
    requires i <= |lines|
  {
    if i == 0 then "" else lines[0] + sep + JoinBefore(lines[1..], i - 1, sep)
  }

  function JoinAfter(lines: seq<string>, i: nat, sep: string): string
    requires i < |lines|
  {
    if i == |lines| - 1 then "" else sep + Join(lines[i + 1..], sep)
  }

  lemma JoinMore(lines: seq<string>, sep: string)
    requires |lines| >= 2
    ensures Join(lines, sep) == lines[0] + sep + Join(lines[1..], sep)
  {
  }

  lemma AroundMore(lines: seq<string>, i: nat, sep: string)
    requires 0 < i < |lines|
    ensures JoinBefore(lines, i, sep) == lines[0] + sep + JoinBefore(lines[1..], i - 1, sep)
    ensures JoinAfter(lines, i, sep) == JoinAfter(lines[1..], i - 1, sep)
  {
    assert lines[1..][i - 1 + 1..] == lines[i + 1..];
  }

  lemma AroundHead(lines: seq<string>, line: string, sep: string)
    requires lines != []
    ensures Join(lines[0 := line], sep) == JoinBefore(lines, 0, sep) + line + JoinAfter(lines, 0, sep)
  {
    var changed := lines[0 := line];
    if |lines| == 1 {
      assert changed == [line];
    } else {
      assert changed[1..] == lines[1..];
      JoinMore(changed, sep);
      hide Join;
      Associates(line, sep, Join(lines[1..], sep));
    }
  }

  // Joined lines around one of them, whatever that one is.
  lemma {:induction false} JoinAround(lines: seq<string>, i: nat, line: string, sep: string)
    requires i < |lines|
    ensures Join(lines[i := line], sep) == JoinBefore(lines, i, sep) + line + JoinAfter(lines, i, sep)
    decreases |lines|
  {
    hide Join, JoinBefore, JoinAfter;
    if i == 0 {
      AroundHead(lines, line, sep);
    } else {
      var changed := lines[i := line];
      assert changed[1..] == lines[1..][i - 1 := line] && changed[0] == lines[0];
      JoinMore(changed, sep);
      AroundMore(lines, i, sep);
      JoinAround(lines[1..], i - 1, line, sep);
      FourParts(lines[0] + sep, JoinBefore(lines[1..], i - 1, sep), line, JoinAfter(lines, i, sep));
    }
  }

  lemma FourParts(a: string, b: string, c: string, d: string)
    ensures a + (b + c + d) == a + b + c + d
  {
    Associates(a, b + c, d);
    Associates(a, b, c);
  }

  lemma FixedLinesFirst(lines: seq<string>, line: string)
    requires IsLengthLine(line)
    ensures FirstLength(FixedLines(lines, line)) == FirstLength(lines) < |FixedLines(lines, line)|
    ensures FixedLines(lines, line)[FirstLength(lines)] == line
    ensures FixedLines(FixedLines(lines, line), line) == FixedLines(lines, line)
  {
    var fixed, i := FixedLines(lines, line), FirstLength(lines);
    assert forall j :: 0 <= j < i ==> fixed[j] == lines[j];
    FirstLengthIs(fixed, i);
    assert fixed[i := line] == fixed;
  }

  lemma {:induction false} FirstLengthIs(lines: seq<string>, i: nat)
    requires i < |lines| && IsLengthLine(lines[i]) && forall j :: 0 <= j < i ==> !IsLengthLine(lines[j])
    ensures FirstLength(lines) == i
  {
  }

  lemma NoBreaksNoSeparator(line: string, sep: string)
    requires NoBreaks(line) && OnlyBreaks(sep)
    ensures !Contains(line, sep)
  {
    forall j | 0 <= j ensures !At(line, sep, j) {
      if At(line, sep, j) {
        CharOf(line, sep, j, j);
      }
    }
    IndexNone(line, sep);
  }

  lemma FixedLinesSplit(head: string, n: nat)
    ensures Split(FixedHead(head, n), Eol(head)) == FixedLines(Split(head, Eol(head)), LengthLine(n))
  {
    var sep := Eol(head);
    var lines := Split(head, sep);
    SplitParts(head, sep);
    LengthLineFacts(n);
    NoBreaksNoSeparator(LengthLine(n), sep);
    SplitJoin(FixedLines(lines, LengthLine(n)), sep);
  }

  lemma SplitOne(s: string, sep: string)
    requires sep != ""
    ensures |Split(s, sep)| == 1 <==> !Contains(s, sep)
  {
  }

  // The text around the line that was written: unchanged before (but for the
  // line end an appended line needs) and after.
  datatype Rewrite = Replaced(before: string, line: string, after: string) | Appended

  ghost predicate Rewritten(head: string, fixed: string, line: string, w: Rewrite) {
    match w
    case Replaced(before, previous, after) => head == before + previous + after && fixed == before + line + after
    case Appended => fixed == head + Eol(head) + line
  }

  ghost function Rewriting(head: string): Rewrite {
    var lines := Split(head, Eol(head));
    var i := FirstLength(lines);
    if i < |lines| then Replaced(JoinBefore(lines, i, Eol(head)), lines[i], JoinAfter(lines, i, Eol(head)))
    else Appended
  }

  lemma HowRewritten(head: string, n: nat)
    ensures Rewritten(head, FixedHead(head, n), LengthLine(n), Rewriting(head))
  {
    var sep, line := Eol(head), LengthLine(n);
    var lines := Split(head, sep);
    var i := FirstLength(lines);
    JoinSplit(head, sep);
    if i < |lines| {
      JoinAround(lines, i, line, sep);
      JoinAround(lines, i, lines[i], sep);
      assert lines[i := lines[i]] == lines;
    } else {
      JoinAppend(lines, [line], sep);
    }
  }

  // Replacing a line of a bare-LF head makes no CRLF.
  lemma ReplacedKeepsLF(head: string, before: string, previous: string, line: string, after: string)
    requires head == before + previous + after && !Contains(head, CRLF)
    requires NoBreaks(line) && line != ""
    ensures !Contains(before + line + after, CRLF)
  {
    hide Index, ToAsciiLower;
    forall j | 0 <= j ensures !At(before + line + after, CRLF, j) {
      if At(before + line + after, CRLF, j) {
        WasThere(before, previous, line, after, CRLF, j);
      }
    }
    IndexNone(before + line + after, CRLF);
  }

  // Appending one makes none, unless the head ended in a carriage return.
  lemma AppendedKeepsLF(head: string, line: string)
    requires !Contains(head, CRLF) && NoBreaks(line) && line != ""
    requires head == "" || head[|head| - 1] != '\r'
    ensures !Contains(head + LF + line, CRLF)
  {
    hide Index, ToAsciiLower;
    var fixed := head + LF + line;
    forall j | 0 <= j ensures !At(fixed, CRLF, j) {
      if At(fixed, CRLF, j) {
        assert fixed == (head + LF) + line + "";
        NotAcross(head + LF, line, "", CRLF, j);
        OutsideEnd(head, LF, CRLF, j);
        CharOf(head + LF, CRLF, j, j);
      }
    }
    IndexNone(fixed, CRLF);
  }

  lemma EolOfCrlf(head: string, n: nat)
    requires Eol(head) == CRLF
    ensures Eol(FixedHead(head, n)) == CRLF
  {
    FixedLinesSplit(head, n);
    SplitOne(head, CRLF);
    SplitOne(FixedHead(head, n), CRLF);
  }

  // The fixed head is split at the same line ends, except when a bare-LF head
  // ended in a carriage return that now forms a CRLF with the appended line.
  lemma EolOfFixed(head: string, n: nat)
    ensures Eol(FixedHead(head, n)) == Eol(head)
      || (Eol(head) == LF && head != "" && head[|head| - 1] == '\r'
          && FixedHead(head, n) == head + LF + LengthLine(n) && FirstLength(Split(head, LF)) == |Split(head, LF)|)
  {
    hide LengthLine, IsLengthLine;
    var line := LengthLine(n);
    LengthLineFacts(n);
    if Eol(head) == CRLF {
      EolOfCrlf(head, n);
    } else {
      HowRewritten(head, n);
      match Rewriting(head)
      case Replaced(before, previous, after) =>
        ReplacedKeepsLF(head, before, previous, line, after);
      case Appended =>
        if head == "" || head[|head| - 1] != '\r' {
          AppendedKeepsLF(head, line);
        }
    }
  }

  lemma PrefixIsLengthLine(line: string, longer: string)
    requires line <= longer && IsLengthLine(line)
    ensures IsLengthLine(longer)
  {
    assert line[..|NAME|] == longer[..|NAME|];
  }

  lemma NameUnbroken(s: string)
    requires IsLengthLine(s)
    ensures forall i :: 0 <= i < |NAME| ==> s[i] != '\r' && s[i] != '\n'
  {
    var t := s[..|NAME|];
    forall i | 0 <= i < |NAME| ensures s[i] != '\r' && s[i] != '\n' {
      assert s[i] == t[i] && ToAsciiLower(t)[i] == AsciiLower(t[i]) == NAME[i];
      assert NoBreaks(NAME);
    }
  }

  // The first line of a text names the header if any text starting there does.
  lemma FirstLineNames(head: string, start: string)
    requires start <= head && IsLengthLine(start)
    ensures FirstLength(Split(head, LF)) == 0
  {
    var first := Split(head, LF)[0];
    assert first <= head;
    NameUnbroken(start);
    if |first| < |NAME| {
      CharOf(head, LF, |first|, |first|);
    } else {
      assert first[..|NAME|] == start[..|NAME|];
    }
  }

  // The exceptional head of EolOfFixed, fixed again.
  lemma FixedCarriageReturn(head: string, n: nat)
    requires Eol(head) == LF && head != "" && head[|head| - 1] == '\r'
    requires FirstLength(Split(head, LF)) == |Split(head, LF)|
    ensures var fixed := head + LF + LengthLine(n);
      Eol(fixed) == CRLF &&
      Split(fixed, CRLF) == [head[..|head| - 1], LengthLine(n)] &&
      FirstLength(Split(fixed, CRLF)) == 1
  {
    var start, line := head[..|head| - 1], LengthLine(n);
    LengthLineFacts(n);
    AtReturn(head, line);
    NotBeforeEnd(head);
    NoBreaksNoSeparator(line, CRLF);
    StartIsNoLengthLine(head);
    hide IsLengthLine, Contains, Index, NoBreaks, LengthLine, FirstLength, Split, Eol, Join;
    JoinTwo(start, line, CRLF);
    SplitJoin([start, line], CRLF);
    CrlfInside(start, line);
    FirstLengthIs([start, line], 1);
  }

  lemma AtReturn(head: string, line: string)
    requires head != "" && head[|head| - 1] == '\r'
    ensures head + LF + line == head[..|head| - 1] + CRLF + line
  {
    assert head + LF == head[..|head| - 1] + CRLF;
  }

  lemma StartIsNoLengthLine(head: string)
    requires head != "" && FirstLength(Split(head, LF)) == |Split(head, LF)|
    ensures !IsLengthLine(head[..|head| - 1])
  {
    hide Index, FirstLength, Split;
    if IsLengthLine(head[..|head| - 1]) {
      FirstLineNames(head, head[..|head| - 1]);
    }
  }

  lemma NotBeforeEnd(head: string)
    requires !Contains(head, CRLF) && head != ""
    ensures !Contains(head[..|head| - 1], CRLF)
  {
    hide Index;
    var start := head[..|head| - 1];
    forall j | 0 <= j ensures !At(start, CRLF, j) {
      if At(start, CRLF, j) {
        CharsAt(head, CRLF, j);
      }
    }
    IndexNone(start, CRLF);
  }

  // Fixing a fixed head changes nothing, and its first line that names the
  // header - split as the fixer splits it - states exactly n.
  lemma HeadFixed(head: string, n: nat)
    ensures FixedHead(FixedHead(head, n), n) == FixedHead(head, n)
    ensures var lines := Split(FixedHead(head, n), Eol(FixedHead(head, n)));
      FirstLength(lines) < |lines| && lines[FirstLength(lines)] == LengthLine(n)
  {
    var fixed, line := FixedHead(head, n), LengthLine(n);
    LengthLineFacts(n);
    EolOfFixed(head, n);
    if Eol(fixed) == Eol(head) {
      FixedLinesSplit(head, n);
      FixedLinesFirst(Split(head, Eol(head)), line);
    } else {
      FixedCarriageReturn(head, n);
      var lines := Split(fixed, CRLF);
      assert lines[1 := line] == lines;
      JoinSplit(fixed, CRLF);
    }
  }

  // ---------- the boundary ----------

  lemma BoundaryParts(raw: string, p: Parts)
    requires Boundary(raw) == Some(p)
    ensures raw == p.head + (p.sep + p.body) && At(raw, p.sep, |p.head|)
    ensures forall j :: 0 <= j < |p.head| ==> !At(raw, p.sep, j)
    ensures p.sep == BLANK_CRLF || (p.sep == BLANK_LF && forall j :: 0 <= j ==> !At(raw, BLANK_CRLF, j))
  {
    hide IndexFrom;
    var i := Index(raw, p.sep);
    assert At(raw, p.sep, i) && i == |p.head|;
    CutAt(raw, p.sep, i);
    hide At;
  }

  lemma CutAt(s: string, pattern: string, i: int)
    requires At(s, pattern, i)
    ensures s == s[..i] + (pattern + s[i + |pattern|..])
  {
  }

  lemma HeadEnd(raw: string, p: Parts)
    requires Boundary(raw) == Some(p)
    ensures p.sep == BLANK_LF ==> p.head == "" || p.head[|p.head| - 1] != '\n'
    ensures |p.head| >= 2 ==> p.head[|p.head| - 2..] != CRLF
  {
    hide Boundary, Index;
    BoundaryParts(raw, p);
    var h := |p.head|;
    if p.sep == BLANK_LF && h >= 1 && p.head[h - 1] == '\n' {
      CharsAt(raw, BLANK_LF, h - 1);
    } else if p.sep == BLANK_CRLF && h >= 2 && p.head[h - 2..] == CRLF {
      assert p.head[h - 2] == CRLF[0] && p.head[h - 1] == CRLF[1];
      CharsAt(raw, BLANK_CRLF, h - 2);
    } else if h >= 1 {
      assert h >= 2 ==> p.head[h - 2..][1] == p.head[h - 1];
    }
  }

  // What an occurrence running past the end of a text says about that end.
  lemma StraddlesEnd(s: string, end: string, pattern: string, j: int)
    requires At(s + end, pattern, j) && j + |pattern| > |s|
    requires end == CRLF || (end == LF && !Contains(s, CRLF))
    requires pattern == BLANK_CRLF || pattern == BLANK_LF
    ensures if pattern == BLANK_CRLF then |s| >= 2 && s[|s| - 2..] == CRLF else s != "" && s[|s| - 1] == '\n'
  {
    CharOf(s + end, pattern, j, j);
    CharOf(s + end, pattern, j, j + 1);
    if pattern == BLANK_CRLF {
      CharOf(s + end, pattern, j, j + 2);
      CharOf(s + end, pattern, j, j + 3);
      if end == LF {
        CharsAt(s, CRLF, j);
      }
    }
  }

  // A blank line looked for no later than the boundary's own is not made of the
  // end of the head and a line end put after it.
  lemma NotOverEnd(raw: string, p: Parts, pattern: string, j: int)
    requires Boundary(raw) == Some(p) && (pattern == p.sep || pattern == BLANK_CRLF)
    requires At(p.head + Eol(p.head), pattern, j)
    ensures At(p.head, pattern, j)
  {
    HeadEnd(raw, p);
    OutsideEnd(p.head, Eol(p.head), pattern, j);
    if j + |pattern| > |p.head| {
      StraddlesEnd(p.head, Eol(p.head), pattern, j);
    }
  }

  // A blank line in the fixed text is one of the original at or after the
  // boundary, moved with the text that follows the written line.
  lemma AtOrAfterBoundary(raw: string, p: Parts, pattern: string, k: int)
    requires Boundary(raw) == Some(p) && (pattern == p.sep || pattern == BLANK_CRLF)
    requires At(raw, pattern, k)
    ensures pattern == p.sep && k >= |p.head|
  {
    hide Boundary, Index;
    BoundaryParts(raw, p);
  }

  lemma MovedByReplacing(raw: string, p: Parts, line: string, before: string, previous: string, after: string,
                         pattern: string, j: int)
    requires Boundary(raw) == Some(p) && (pattern == p.sep || pattern == BLANK_CRLF)
    requires NoBreaks(line) && line != "" && OnlyBreaks(pattern) && pattern != ""
    requires p.head == before + previous + after && raw == before + previous + (after + (p.sep + p.body))
    requires At(before + line + (after + (p.sep + p.body)), pattern, j)
    ensures pattern == p.sep && j >= |before + line + after|
  {
    hide Index, Boundary, At, NoBreaks, OnlyBreaks;
    WasThere(before, previous, line, after + (p.sep + p.body), pattern, j);
    if At(raw, pattern, j) && j + |pattern| <= |before| {
      AtOrAfterBoundary(raw, p, pattern, j);
    } else {
      AtOrAfterBoundary(raw, p, pattern, j - |line| + |previous|);
    }
  }

  lemma MovedByAppending(raw: string, p: Parts, line: string, pattern: string, j: int)
    requires Boundary(raw) == Some(p) && (pattern == p.sep || pattern == BLANK_CRLF)
    requires NoBreaks(line) && line != "" && OnlyBreaks(pattern) && pattern != "" && raw == p.head + (p.sep + p.body)
    requires At(p.head + Eol(p.head) + line + (p.sep + p.body), pattern, j)
    ensures pattern == p.sep && j >= |p.head + Eol(p.head) + line|
  {
    hide Index, Boundary, At, Eol, NoBreaks, OnlyBreaks;
    var before, rest := p.head + Eol(p.head), p.sep + p.body;
    NotAcross(before, line, rest, pattern, j);
    if At(before, pattern, j) {
      NotOverEnd(raw, p, pattern, j);
      NotInHead(raw, p, pattern, j);
    } else {
      LaterInRaw(raw, p, pattern, j - |before| - |line|);
    }
  }

  lemma NotInHead(raw: string, p: Parts, pattern: string, j: int)
    requires Boundary(raw) == Some(p) && (pattern == p.sep || pattern == BLANK_CRLF)
    requires raw == p.head + (p.sep + p.body) && pattern != ""
    ensures !At(p.head, pattern, j)
  {
    hide Index, Boundary, At;
    if At(p.head, pattern, j) {
      AtBounds(p.head, pattern, j);
      assert "" + p.head == p.head;
      AtLonger("", p.head, p.sep + p.body, pattern, j);
      AtOrAfterBoundary(raw, p, pattern, j);
    }
  }

  lemma LaterInRaw(raw: string, p: Parts, pattern: string, k: int)
    requires Boundary(raw) == Some(p) && (pattern == p.sep || pattern == BLANK_CRLF)
    requires raw == p.head + (p.sep + p.body) && At(p.sep + p.body, pattern, k)
    ensures pattern == p.sep && k >= 0
  {
    hide Index, Boundary, At;
    AtBounds(p.sep + p.body, pattern, k);
    assert raw + "" == raw;
    AtLonger(p.head, p.sep + p.body, "", pattern, k);
    AtOrAfterBoundary(raw, p, pattern, |p.head| + k);
  }

  lemma Cuts(raw: string, p: Parts)
    requires Boundary(raw) == Some(p)
    ensures raw == p.head + (p.sep + p.body) && OnlyBreaks(p.sep) && p.sep != ""
  {
    hide Boundary, Index;
    BoundaryParts(raw, p);
  }

  lemma Around(raw: string, head: string, rest: string, before: string, line: string, previous: string, after: string)
    requires raw == head + rest && head == before + previous + after
    ensures raw == before + previous + (after + rest)
    ensures before + line + after + rest == before + line + (after + rest)
  {
  }

  lemma NoneEarlier(raw: string, p: Parts, pattern: string, j: int)
    requires Boundary(raw) == Some(p) && (pattern == p.sep || pattern == BLANK_CRLF)
    requires At(FixedHead(p.head, |p.body|) + (p.sep + p.body), pattern, j)
    ensures pattern == p.sep && j >= |FixedHead(p.head, |p.body|)|
  {
    Cuts(raw, p);
    assert OnlyBreaks(pattern) && pattern != "";
    hide Index, Boundary, FixedHead, LengthLine, At, IsLengthLine, Rewriting, NoBreaks, Eol, OnlyBreaks;
    var line := LengthLine(|p.body|);
    LengthLineFacts(|p.body|);
    HowRewritten(p.head, |p.body|);
    match Rewriting(p.head)
    case Replaced(before, previous, after) =>
      NoneInReplaced(raw, p, line, before, previous, after, pattern, j);
    case Appended =>
      MovedByAppending(raw, p, line, pattern, j);
  }

  lemma NoneInReplaced(raw: string, p: Parts, line: string, before: string, previous: string, after: string,
                       pattern: string, j: int)
    requires Boundary(raw) == Some(p) && (pattern == p.sep || pattern == BLANK_CRLF)
    requires NoBreaks(line) && line != "" && OnlyBreaks(pattern) && pattern != ""
    requires p.head == before + previous + after && raw == p.head + (p.sep + p.body)
    requires At(before + line + after + (p.sep + p.body), pattern, j)
    ensures pattern == p.sep && j >= |before + line + after|
  {
    hide Boundary, At, NoBreaks, OnlyBreaks;
    Around(raw, p.head, p.sep + p.body, before, line, previous, after);
    MovedByReplacing(raw, p, line, before, previous, after, pattern, j);
  }

  lemma BoundaryIs(p: Parts)
    requires p.sep == BLANK_CRLF || p.sep == BLANK_LF
    requires forall j :: 0 <= j && At(p.head + (p.sep + p.body), p.sep, j) ==> j >= |p.head|
    requires p.sep == BLANK_LF ==> forall j :: 0 <= j ==> !At(p.head + (p.sep + p.body), BLANK_CRLF, j)
    ensures Boundary(p.head + (p.sep + p.body)) == Some(p)
  {
    var raw := p.head + (p.sep + p.body);
    AtLonger(p.head, p.sep, p.body, p.sep, 0);
    assert p.head + p.sep + p.body == raw;
    IndexIs(raw, p.sep, |p.head|);
    if p.sep == BLANK_LF {
      IndexNone(raw, BLANK_CRLF);
    }
  }

  // The fixed request has its boundary where the fixed head ends: the separator
  // and every byte after it are the original's.
  lemma BoundaryKept(raw: string, p: Parts)
    requires Boundary(raw) == Some(p)
    ensures Fixed(raw) == FixedHead(p.head, |p.body|) + (p.sep + p.body)
    ensures Boundary(Fixed(raw)) == Some(Parts(FixedHead(p.head, |p.body|), p.sep, p.body))
  {
    hide Index, Boundary, FixedHead, At;
    var kept := Parts(FixedHead(p.head, |p.body|), p.sep, p.body);
    assert Fixed(raw) == kept.head + (p.sep + p.body);
    BoundaryParts(raw, p);
    forall j | 0 <= j && At(kept.head + (p.sep + p.body), p.sep, j) ensures j >= |kept.head| {
      NoneEarlier(raw, p, p.sep, j);
    }
    forall j | 0 <= j && p.sep == BLANK_LF ensures !At(kept.head + (p.sep + p.body), BLANK_CRLF, j) {
      if At(kept.head + (p.sep + p.body), BLANK_CRLF, j) { NoneEarlier(raw, p, BLANK_CRLF, j); }
    }
    BoundaryIs(kept);
  }

  // For every text, whatever its line endings; one without a boundary is left alone.
  lemma FixedTwiceIsFixedOnce(raw: string)
    ensures Fixed(Fixed(raw)) == Fixed(raw)
    ensures !Contains(raw, BLANK_CRLF) && !Contains(raw, BLANK_LF) ==> Fixed(raw) == raw
  {
    hide Index, Boundary, FixedHead;
    match Boundary(raw)
    case None =>
    case Some(p) =>
      assert Contains(raw, BLANK_CRLF) || Contains(raw, BLANK_LF) by { BoundaryParts(raw, p); }
      BoundaryKept(raw, p);
      HeadFixed(p.head, |p.body|);
      assert Fixed(Fixed(raw)) == FixedHead(FixedHead(p.head, |p.body|), |p.body|) + p.sep + p.body;
  }

  // ---------- what a reader of the head is told ----------

  predicate Break(c: char) {
    c == '\r' || c == '\n'
  }

  predicate Names(s: string, q: int) {
    0 <= q <= |s| && IsLengthLine(s[q..])
  }

  // A line of s starts at q, lines ending with eol.
  predicate Starts(s: string, q: int, eol: string) {
    q == 0 || At(s, eol, q - |eol|)
  }

  predicate LengthAt(s: string, q: int, eol: string) {
    Names(s, q) && Starts(s, q, eol)
  }

  // The first line naming the header, as a place in the text, or -1.
  function FirstNamed(s: string, eol: string, from: nat): (q: int)
    requires from <= |s|
    ensures q == -1 || (from <= q && LengthAt(s, q, eol))
    ensures forall k :: from <= k && (q == -1 || k < q) ==> !LengthAt(s, k, eol)
    decreases |s| - from
  {
    if LengthAt(s, from, eol) then from
    else if from == |s| then -1
    else FirstNamed(s, eol, from + 1)
  }

  lemma FirstNamedIs(s: string, eol: string, q: int)
    requires LengthAt(s, q, eol) && forall k :: 0 <= k < q ==> !LengthAt(s, k, eol)
    ensures FirstNamed(s, eol, 0) == q
  {
  }

  // The line that starts at q, up to the next line feed.
  function LineText(s: string, q: int): string
    requires 0 <= q <= |s|
    decreases |s| - q
  {
    if q == |s| || s[q] == '\n' then "" else [s[q]] + LineText(s, q + 1)
  }

  // White space around a value. A carriage return counts as a space, whether it
  // stands before the line feed or is a bare one (RFC 9112 section 2.2).
  predicate Padding(c: char) {
    c in {' ', '\t', '\r'}
  }

  function Unpadded(s: string): string {
    if s == "" then ""
    else if Padding(s[0]) then Unpadded(s[1..])
    else if Padding(s[|s| - 1]) then Unpadded(s[..|s| - 1])
    else s
  }

  predicate Digits(s: string) {
    s != "" && forall i :: 0 <= i < |s| ==> '0' <= s[i] <= '9'
  }

  // The number that a length line states, however it is spelled.
  function Stated(line: string): Option<nat> {
    if |line| < |NAME| then None
    else
      var value := Unpadded(line[|NAME|..]);
      if Digits(value) then Some(DigitsValue(value)) else None
  }

  function StatedAt(s: string, q: int): Option<nat>
    requires 0 <= q <= |s|
  {
    Stated(LineText(s, q))
  }

  // What a reader that takes a bare line feed for a line end, as RFC 9112
  // section 2.2 allows, is told by the head's first Content-Length line.
  function Told(head: string): Option<nat> {
    var q := FirstNamed(head, LF, 0);
    if q < 0 then None else StatedAt(head, q)
  }

  lemma LengthLineStates(n: nat)
    ensures Stated(LengthLine(n)) == Some(n)
  {
    var line, digits := LengthLine(n), Decimal(n);
    DecimalValue(n);
    assert line[|NAME|..] == " " + digits && (" " + digits)[1..] == digits;
    assert Unpadded(" " + digits) == Unpadded(digits) == digits;
  }

  lemma {:induction false} UnpaddedBeforeReturn(s: string)
    ensures Unpadded(s + "\r") == Unpadded(s)
    decreases |s|
  {
    var t := s + "\r";
    if s != "" && Padding(s[0]) {
      assert t[1..] == s[1..] + "\r";
      UnpaddedBeforeReturn(s[1..]);
    } else {
      assert t[..|t| - 1] == s && (s == "" ==> t[1..] == "");
    }
  }

  lemma StatedBeforeReturn(line: string)
    ensures Stated(line + "\r") == Stated(line)
  {
    if |line| >= |NAME| {
      assert (line + "\r")[|NAME|..] == line[|NAME|..] + "\r";
      UnpaddedBeforeReturn(line[|NAME|..]);
    } else if |line| == |NAME| - 1 {
      assert (line + "\r")[|NAME|..] == "";
    }
  }

  // A rest that a line before it does not run on into: a line end, or a carriage
  // return alone.
  predicate Stops(rest: string) {
    rest == "" || rest[0] == '\n' || rest == "\r" || CRLF <= rest
  }

  lemma NamesWithin(a: string, rest: string, q: int)
    requires 0 <= q <= |a| && Stops(rest)
    ensures Names(a + rest, q) <==> Names(a, q)
  {
    var t := (a + rest)[q..];
    assert t == a[q..] + rest;
    assert rest != "" ==> t[|a| - q] == rest[0];
    if IsLengthLine(t) {
      NameUnbroken(t);
      if |a| - q >= |NAME| {
        assert t[..|NAME|] == a[q..][..|NAME|];
      }
    }
    if IsLengthLine(a[q..]) {
      PrefixIsLengthLine(a[q..], t);
    }
  }

  lemma {:induction false} LineTextWithin(a: string, rest: string, q: int)
    requires 0 <= q <= |a| && Stops(rest)
    ensures LineText(a + rest, q) == LineText(a, q) || LineText(a + rest, q) == LineText(a, q) + "\r"
    decreases |a| - q
  {
    if q == |a| {
      LineTextAtRest(a, rest);
    } else if a[q] != '\n' {
      LineTextWithin(a, rest, q + 1);
      assert (a + rest)[q] == a[q];
      Associates([a[q]], LineText(a, q + 1), "\r");
    }
  }

  lemma LineTextAtRest(a: string, rest: string)
    requires Stops(rest)
    ensures LineText(a + rest, |a|) == "" || LineText(a + rest, |a|) == "\r"
  {
    var s, q := a + rest, |a|;
    assert rest != "" ==> s[q] == rest[0];
    assert |rest| > 1 ==> s[q + 1] == rest[1];
    if rest != "" && rest[0] != '\n' {
      assert rest[0] == CRLF[0] && (|rest| > 1 ==> rest[1] == CRLF[1]);
      assert LineText(s, q + 1) == "";
    }
  }

  lemma StatedWithin(a: string, rest: string, q: int)
    requires 0 <= q <= |a| && Stops(rest)
    ensures StatedAt(a + rest, q) == StatedAt(a, q)
  {
    hide LineText, Stated;
    LineTextWithin(a, rest, q);
    StatedBeforeReturn(LineText(a, q));
  }

  lemma StartsWithin(a: string, rest: string, q: int)
    requires 0 <= q <= |a|
    ensures Starts(a + rest, q, LF) <==> Starts(a, q, LF)
  {
    if q > 0 {
      assert (a + rest)[q - 1..q] == a[q - 1..q];
    }
  }

  lemma {:induction false} WholeLine(a: string, line: string, k: nat)
    requires NoBreaks(line) && k <= |line|
    ensures LineText(a + line, |a| + k) == line[k..]
    decreases |line| - k
  {
    if k < |line| {
      WholeLine(a, line, k + 1);
      assert (a + line)[|a| + k] == line[k];
    }
  }

  lemma StatedByLine(a: string, line: string, rest: string)
    requires NoBreaks(line) && Stops(rest)
    ensures StatedAt(a + line + rest, |a|) == Stated(line)
  {
    hide Stated, Stops;
    WholeLine(a, line, 0);
    assert line[0..] == line;
    StatedWithin(a + line, rest, |a|);
  }

  lemma {:induction false} AroundFacts(lines: seq<string>, i: nat, sep: string)
    requires i < |lines| && (sep == CRLF || sep == LF)
    ensures i == 0 ==> JoinBefore(lines, i, sep) == ""
    ensures i > 0 ==> var b := JoinBefore(lines, i, sep); |b| >= |sep| && b[|b| - |sep|..] == sep
    ensures Stops(JoinAfter(lines, i, sep))
    decreases i
  {
    if i > 0 {
      AroundFacts(lines[1..], i - 1, sep);
      var b, c := JoinBefore(lines, i, sep), JoinBefore(lines[1..], i - 1, sep);
      assert b == lines[0] + sep + c;
      if i == 1 {
        assert b[|b| - |sep|..] == sep;
      } else {
        assert b[|b| - |sep|..] == c[|c| - |sep|..];
      }
    }
  }

  lemma AtShorter(front: string, s: string, pattern: string, i: int)
    requires 0 <= i && At(front + s, pattern, |front| + i)
    ensures At(s, pattern, i)
  {
    AtChars(front + s, pattern, |front| + i);
    forall j | 0 <= j < |pattern| ensures s[i + j] == pattern[j] {
      assert (front + s)[|front| + i + j] == pattern[j];
    }
    CharsAt(s, pattern, i);
  }

  // No two separators overlap.
  lemma NotOverlapping(first: string, sep: string, rest: string, j: int)
    requires (sep == CRLF || sep == LF) && At(first + sep + rest, sep, j) && j >= |first|
    ensures j == |first| || j >= |first| + |sep|
  {
    assert sep == CRLF ==> (first + sep + rest)[|first| + 1] == sep[1];
    CharOf(first + sep + rest, sep, j, j);
  }

  // A later line's start, seen from the text after the first line.
  lemma StartAfterFirst(first: string, sep: string, rest: string, q: int)
    requires (sep == CRLF || sep == LF) && !Contains(first, sep)
    requires q > 0 && At(first + sep + rest, sep, q - |sep|)
    ensures q >= |first| + |sep| && Starts(rest, q - |first| - |sep|, sep)
  {
    FirstSeparator(first, sep, rest);
    hide Index, Contains, At;
    assert q - |sep| >= |first|;
    NotOverlapping(first, sep, rest, q - |sep|);
    if q > |first| + |sep| {
      AtShorter(first + sep, rest, sep, q - |sep| - |first| - |sep|);
    }
  }

  // The fixer's first length line, found in a list of lines, is the first one
  // in the text.
  lemma {:induction false} FirstLengthPlace(lines: seq<string>, sep: string, q: int)
    requires lines != [] && (sep == CRLF || sep == LF)
    requires forall k :: 0 <= k < |lines| ==> !Contains(lines[k], sep)
    requires LengthAt(Join(lines, sep), q, sep)
    ensures FirstLength(lines) < |lines| && q >= |JoinBefore(lines, FirstLength(lines), sep)|
    decreases |lines|
  {
    hide Contains, Index, IsLengthLine, LengthAt;
    if |lines| == 1 {
      OnlyLine(lines[0], sep, q);
    } else {
      JoinMore(lines, sep);
      BelongsToLine(lines[0], sep, Join(lines[1..], sep), q);
      hide Join;
      if q != 0 {
        FirstLengthPlace(lines[1..], sep, q - |lines[0]| - |sep|);
      }
    }
  }

  lemma OnlyLine(line: string, sep: string, q: int)
    requires !Contains(line, sep) && LengthAt(line, q, sep)
    ensures q == 0 && IsLengthLine(line)
  {
    hide Contains, Index, IsLengthLine;
    if q != 0 {
      ContainsAt(line, sep, q - |sep|);
    }
    assert line[0..] == line;
  }

  // A length line of a text is its first line or a length line of the rest.
  lemma BelongsToLine(first: string, sep: string, rest: string, q: int)
    requires (sep == CRLF || sep == LF) && !Contains(first, sep)
    requires LengthAt(first + sep + rest, q, sep)
    ensures q == 0 ==> IsLengthLine(first)
    ensures q != 0 ==> q >= |first| + |sep| && LengthAt(rest, q - |first| - |sep|, sep)
  {
    hide Contains, Index, IsLengthLine;
    var s := first + sep + rest;
    if q == 0 {
      NamesWithin(first, sep + rest, 0);
      assert first + (sep + rest) == s && first[0..] == first;
    } else {
      StartAfterFirst(first, sep, rest, q);
      assert s[q..] == rest[q - |first| - |sep|..];
    }
  }

  predicate Suffix(s: string, end: string) {
    |s| >= |end| && s[|s| - |end|..] == end
  }

  // Where the fixer writes: on the first length line of its own line split, or
  // after a head that has none.
  lemma WhereRewritten(head: string)
    ensures match Rewriting(head)
      case Appended => forall q :: !LengthAt(head, q, Eol(head))
      case Replaced(before, _, _) =>
        LengthAt(head, |before|, Eol(head)) && forall q :: LengthAt(head, q, Eol(head)) ==> q >= |before|
  {
    var sep := Eol(head);
    var lines := Split(head, sep);
    var i := FirstLength(lines);
    JoinSplit(head, sep);
    SplitParts(head, sep);
    hide Index, Contains, IsLengthLine, FirstLength, Split, Join, JoinBefore, JoinAfter, LengthAt, Eol, At, Names,
      Starts;
    forall q | LengthAt(head, q, sep) ensures i < |lines| && q >= |JoinBefore(lines, i, sep)| {
      FirstLengthPlace(lines, sep, q);
    }
    if i < |lines| {
      LineInPlace(lines, i, sep);
    }
  }

  lemma LineInPlace(lines: seq<string>, i: nat, sep: string)
    requires i < |lines| && IsLengthLine(lines[i]) && (sep == CRLF || sep == LF)
    ensures LengthAt(Join(lines, sep), |JoinBefore(lines, i, sep)|, sep)
  {
    assert lines[i := lines[i]] == lines;
    hide IsLengthLine, Join, JoinBefore, JoinAfter, LengthAt;
    JoinAround(lines, i, lines[i], sep);
    AroundFacts(lines, i, sep);
    PlacedLine(Join(lines, sep), JoinBefore(lines, i, sep), lines[i], JoinAfter(lines, i, sep), sep);
  }

  lemma PlacedLine(s: string, before: string, line: string, after: string, sep: string)
    requires s == before + line + after && IsLengthLine(line)
    requires sep == CRLF || sep == LF
    requires before == "" || Suffix(before, sep)
    ensures LengthAt(s, |before|, sep)
  {
    assert s[|before|..] == line + after;
    PrefixIsLengthLine(line, line + after);
    if before != "" {
      assert s[|before| - |sep|..|before|] == before[|before| - |sep|..];
    }
  }

  lemma RewritingShape(head: string)
    requires Rewriting(head).Replaced?
    ensures Rewriting(head).before == "" || Suffix(Rewriting(head).before, Eol(head))
    ensures Stops(Rewriting(head).after)
  {
    var lines := Split(head, Eol(head));
    AroundFacts(lines, FirstLength(lines), Eol(head));
  }

  // Two heads with the same beginning tell the same up to where it ends.
  lemma SameUpTo(a: string, rest: string, other: string, q: int)
    requires 0 <= q <= |a| && Stops(rest) && Stops(other)
    ensures LengthAt(a + rest, q, LF) <==> LengthAt(a + other, q, LF)
    ensures StatedAt(a + rest, q) == StatedAt(a + other, q)
  {
    hide IsLengthLine, StatedAt, Stops;
    NamesWithin(a, rest, q);
    NamesWithin(a, other, q);
    StartsWithin(a, rest, q);
    StartsWithin(a, other, q);
    StatedWithin(a, rest, q);
    StatedWithin(a, other, q);
  }

  // The first line that names the header, as such a reader takes it, is a line
  // for the fixer too.
  predicate FixerFinds(head: string) {
    var q := FirstNamed(head, LF, 0);
    q < 0 || Starts(head, q, Eol(head))
  }

  // It is, or it states n whether or not the fixer finds it.
  predicate FixerSeesWhatAReaderSees(head: string, n: nat) {
    FixerFinds(head) || StatedAt(head, FirstNamed(head, LF, 0)) == Some(n)
  }

  // The reader's first length line in a rewritten head: the line written, in the
  // old place if there was one, unless an earlier line escaped the fixer.
  ghost predicate FirstLineOf(head: string, fixed: string, line: string) {
    var was, q := FirstNamed(head, LF, 0), FirstNamed(fixed, LF, 0);
    && (if was >= 0 then q == was else q > 0)
    && StatedAt(fixed, q) == if FixerFinds(head) then Stated(line) else StatedAt(head, was)
  }

  lemma SameBeforeAppended(head: string, eol: string, line: string, k: int)
    requires (eol == CRLF || eol == LF) && 0 <= k < |head + eol|
    ensures LengthAt(head + eol + line, k, LF) <==> k <= |head| && LengthAt(head, k, LF)
    ensures k <= |head| ==> StatedAt(head + eol + line, k) == StatedAt(head, k)
  {
    var fixed := head + eol + line;
    assert fixed == head + (eol + line) && head == head + "";
    assert Stops("") && Stops(eol + line);
    hide IsLengthLine, StatedAt, Starts, Stops;
    assert k > |head| ==> fixed[k..][0] == '\n';
    if k <= |head| {
      SameUpTo(head, eol + line, "", k);
    } else if Names(fixed, k) {
      NameUnbroken(fixed[k..]);
    }
  }

  lemma SameBeforeReplaced(before: string, previous: string, line: string, after: string, k: int)
    requires 0 <= k < |before| && before[|before| - 1] == '\n'
    ensures LengthAt(before + line + after, k, LF) <==> LengthAt(before + previous + after, k, LF)
    ensures StatedAt(before + line + after, k) == StatedAt(before + previous + after, k)
  {
    hide LengthAt, StatedAt;
    var a := before[..|before| - 1];
    assert before == a + LF;
    assert before + line + after == a + (LF + line + after);
    assert before + previous + after == a + (LF + previous + after);
    SameUpTo(a, LF + line + after, LF + previous + after, k);
  }

  lemma FirstAfterAppending(head: string, line: string)
    requires NoBreaks(line) && IsLengthLine(line)
    requires forall q :: !LengthAt(head, q, Eol(head))
    ensures FirstLineOf(head, head + Eol(head) + line, line)
  {
    var eol := Eol(head);
    var fixed, b, q := head + eol + line, |head + eol|, FirstNamed(head, LF, 0);
    assert q >= 0 ==> Names(head, q) && !LengthAt(head, q, eol);
    hide IsLengthLine, StatedAt, FirstNamed, Names, Starts, Eol, NoBreaks, Index;
    forall k | 0 <= k < b
      ensures LengthAt(fixed, k, LF) <==> k <= |head| && LengthAt(head, k, LF)
      ensures k <= |head| ==> StatedAt(fixed, k) == StatedAt(head, k)
    {
      SameBeforeAppended(head, eol, line, k);
    }
    hide LengthAt;
    if q < 0 {
      AppendedLine(head, eol, line);
      FirstNamedIs(fixed, LF, b);
    } else {
      FirstNamedIs(fixed, LF, q);
    }
  }

  lemma AppendedLine(head: string, eol: string, line: string)
    requires (eol == CRLF || eol == LF) && NoBreaks(line) && IsLengthLine(line)
    ensures LengthAt(head + eol + line, |head + eol|, LF)
    ensures StatedAt(head + eol + line, |head + eol|) == Stated(line)
  {
    assert head + eol + line + "" == head + eol + line;
    PlacedLine(head + eol + line, head + eol, line, "", LF);
    StatedByLine(head + eol, line, "");
  }

  lemma FirstAfterReplacing(head: string, before: string, previous: string, line: string, after: string)
    requires NoBreaks(line) && IsLengthLine(line) && Stops(after)
    requires head == before + previous + after && (before == "" || Suffix(before, Eol(head)))
    requires LengthAt(head, |before|, Eol(head))
    requires forall q :: LengthAt(head, q, Eol(head)) ==> q >= |before|
    ensures FirstLineOf(head, before + line + after, line)
  {
    var fixed, b, q := before + line + after, |before|, FirstNamed(head, LF, 0);
    EndsInBreak(before, head);
    FirstForReader(head, b);
    ReplacedLine(before, line, after);
    hide IsLengthLine, StatedAt, FirstNamed, Names, Starts, Eol, NoBreaks, Index, Suffix, Stops;
    forall k | 0 <= k < b
      ensures LengthAt(fixed, k, LF) <==> LengthAt(head, k, LF)
      ensures StatedAt(fixed, k) == StatedAt(head, k)
    {
      SameBeforeReplaced(before, previous, line, after, k);
    }
    if q < b {
      FirstNamedIs(fixed, LF, q);
    } else {
      FirstNamedIs(fixed, LF, b);
    }
  }

  lemma EndsInBreak(before: string, head: string)
    requires before == "" || Suffix(before, Eol(head))
    ensures before == "" || before[|before| - 1] == '\n'
  {
    hide Contains;
    if before != "" {
      assert before[|before| - |Eol(head)|..][|Eol(head)| - 1] == '\n';
    }
  }

  lemma FirstForReader(head: string, b: nat)
    requires LengthAt(head, b, Eol(head))
    requires forall q :: LengthAt(head, q, Eol(head)) ==> q >= b
    ensures 0 <= FirstNamed(head, LF, 0) <= b && LengthAt(head, b, LF)
    ensures var q := FirstNamed(head, LF, 0); Starts(head, q, Eol(head)) ==> q == b
  {
    StartsForReader(head, b);
    hide IsLengthLine, Contains, At;
  }

  lemma ReplacedLine(before: string, line: string, after: string)
    requires NoBreaks(line) && IsLengthLine(line) && Stops(after)
    requires before == "" || before[|before| - 1] == '\n'
    ensures LengthAt(before + line + after, |before|, LF)
    ensures StatedAt(before + line + after, |before|) == Stated(line)
  {
    if before != "" {
      assert before[|before| - 1..] == LF;
    }
    PlacedLine(before + line + after, before, line, after, LF);
    StatedByLine(before, line, after);
  }

  lemma StartsForReader(s: string, q: int)
    requires Starts(s, q, CRLF) || Starts(s, q, LF)
    ensures Starts(s, q, LF)
  {
    if q > 0 && At(s, CRLF, q - 2) {
      CharOf(s, CRLF, q - 2, q - 1);
      CharsAt(s, LF, q - 1);
    }
  }

  lemma FirstLineOfFixed(head: string, n: nat)
    ensures FirstLineOf(head, FixedHead(head, n), LengthLine(n))
  {
    var line, fixed := LengthLine(n), FixedHead(head, n);
    LengthLineFacts(n);
    HowRewritten(head, n);
    WhereRewritten(head);
    hide LengthLine, FixedHead, IsLengthLine, Names, StatedAt, Rewriting, FirstLineOf;
    match Rewriting(head)
    case Appended =>
      FirstAfterAppending(head, line);
    case Replaced(before, previous, after) =>
      RewritingShape(head);
      FirstAfterReplacing(head, before, previous, line, after);
  }

  // The head alone: its first length line states n exactly under the condition.
  lemma HeadToldIff(head: string, n: nat)
    ensures Told(FixedHead(head, n)) == Some(n) <==> FixerSeesWhatAReaderSees(head, n)
  {
    LengthLineStates(n);
    hide LengthLine, FixedHead, StatedAt, Stated, Starts;
    FirstLineOfFixed(head, n);
  }

  // ---------- what a reader of the whole request is told ----------

  const BLANK_MIXED := "\n\r\n"

  // The line feed at i ends a line that a blank one follows.
  predicate BlankAt(s: string, i: int) {
    At(s, BLANK_LF, i) || At(s, BLANK_MIXED, i)
  }

  function FirstBlank(s: string, from: nat): (i: int)
    requires from <= |s|
    ensures i == -1 || (from <= i && BlankAt(s, i))
    ensures forall k :: from <= k && (i == -1 || k < i) ==> !BlankAt(s, k)
    decreases |s| - from
  {
    if BlankAt(s, from) then from
    else if from == |s| then -1
    else FirstBlank(s, from + 1)
  }

  datatype Message = Message(head: string, body: string)

  // The text begins with a line that can be a request line: one that is neither
  // empty nor a length line.
  predicate RequestLine(s: string) {
    s != "" && !(LF <= s) && !(CRLF <= s) && !IsLengthLine(s)
  }

  // The length of the blank line at i, with the line feed before it.
  function BlankWidth(s: string, i: int): nat {
    if At(s, BLANK_LF, i) then 2 else 3
  }

  // The request as a reader takes it that ends lines at a line feed and ignores
  // a carriage return before it: the head up to the first blank line, the body
  // all that follows.
  function ReadAs(s: string): Option<Message> {
    var i := FirstBlank(s, 0);
    if i < 0 || !RequestLine(s) then None else Some(Message(s[..i], s[i + BlankWidth(s, i)..]))
  }

  // The reader's first length line states the length of the reader's own body.
  predicate ToldTruly(s: string) {
    match ReadAs(s)
    case None => false
    case Some(m) => Told(m.head) == Some(|m.body|)
  }

  // Where the last line feed before the blank line stands in a separator.
  function LineFeedIn(sep: string): nat {
    if sep == BLANK_CRLF then 1 else 0
  }

  // What the fixed request has before the line that is written, and between it
  // and the body.
  ghost function Before(p: Parts): string {
    match Rewriting(p.head)
    case Replaced(before, _, _) => before
    case Appended => p.head + Eol(p.head)
  }

  ghost function Between(p: Parts): string {
    match Rewriting(p.head)
    case Replaced(_, _, after) => after + p.sep
    case Appended => p.sep
  }

  // Where the reader's head ends, and how long its body is: the first blank line
  // before the written line counts, or else the first behind it.
  ghost function ReaderEnd(p: Parts): int {
    if FirstBlank(Before(p), 0) >= 0 then FirstBlank(Before(p), 0)
    else |Before(p)| + |LengthLine(|p.body|)| + FirstBlank(Between(p), 0)
  }

  ghost function ReaderBodyLength(p: Parts): int {
    var i, k := FirstBlank(Before(p), 0), FirstBlank(Between(p), 0);
    if i >= 0 then |Before(p)| - i - BlankWidth(Before(p), i) + |LengthLine(|p.body|)| + |Between(p)| + |p.body|
    else |Between(p)| - k - BlankWidth(Between(p), k) + |p.body|
  }

  // The reader's head ends where the fixer's does: neither what precedes the
  // line that is written nor what follows it holds an earlier blank line.
  ghost predicate SameBoundary(p: Parts) {
    && FirstBlank(Before(p), 0) < 0
    && FirstBlank(Between(p), 0) == |Between(p)| - |p.sep| + LineFeedIn(p.sep)
  }

  // A length line the fixer missed within the reader's head, which happens to be
  // right about the reader's longer body.
  predicate StaleButRight(head: string, end: int, n: int) {
    var q := FirstNamed(head, LF, 0);
    !FixerFinds(head) && q <= end && StatedAt(head, q).Some? && StatedAt(head, q).value == n
  }

  lemma FirstBlankIs(s: string, i: int)
    requires BlankAt(s, i) && forall k :: 0 <= k < i ==> !BlankAt(s, k)
    ensures FirstBlank(s, 0) == i
  {
    BlankBounds(s, i);
    hide BlankAt;
  }

  lemma BlankBounds(s: string, i: int)
    requires BlankAt(s, i)
    ensures 0 <= i && i + 2 <= |s| && s[i] == '\n'
    ensures s[i + 1] == '\n' || (i + 3 <= |s| && s[i + 1] == '\r' && s[i + 2] == '\n')
  {
    if At(s, BLANK_LF, i) {
      CharOf(s, BLANK_LF, i, i);
      CharOf(s, BLANK_LF, i, i + 1);
    } else {
      CharOf(s, BLANK_MIXED, i, i);
      CharOf(s, BLANK_MIXED, i, i + 1);
      CharOf(s, BLANK_MIXED, i, i + 2);
    }
  }

  lemma BlankThere(s: string, i: int)
    requires 0 <= i && i + 2 <= |s| && s[i] == '\n'
    requires s[i + 1] == '\n' || (i + 3 <= |s| && s[i + 1] == '\r' && s[i + 2] == '\n')
    ensures BlankAt(s, i)
  {
    if s[i + 1] == '\n' {
      CharsAt(s, BLANK_LF, i);
    } else {
      CharsAt(s, BLANK_MIXED, i);
    }
  }

  lemma BlankLonger(front: string, s: string, back: string, i: int)
    requires BlankAt(s, i)
    ensures BlankAt(front + s + back, |front| + i)
  {
    BlankBounds(s, i);
    BlankThere(front + s + back, |front| + i);
  }

  lemma BlankNotAcross(before: string, line: string, rest: string, i: int)
    requires NoBreaks(line) && line != "" && BlankAt(before + line + rest, i)
    ensures BlankAt(before, i) || BlankAt(rest, i - |before| - |line|)
  {
    hide At;
    if At(before + line + rest, BLANK_LF, i) {
      NotAcross(before, line, rest, BLANK_LF, i);
    } else {
      NotAcross(before, line, rest, BLANK_MIXED, i);
    }
  }

  // The first blank line of a text around a stretch without breaks: in front of
  // it, or if there is none, behind it.
  lemma FirstBlankInFront(before: string, line: string, rest: string)
    requires NoBreaks(line) && line != "" && FirstBlank(before, 0) >= 0
    ensures FirstBlank(before + line + rest, 0) == FirstBlank(before, 0)
  {
    var s, b := before + line + rest, FirstBlank(before, 0);
    BlankBounds(before, b);
    hide BlankAt, NoBreaks, FirstBlank;
    forall k | 0 <= k < b ensures !BlankAt(s, k) {
      if BlankAt(s, k) {
        NotBeforeFirst(before, line, rest, k);
      }
    }
    BlankLonger("", before, line + rest, b);
    assert "" + before == before;
    Associates(before, line, rest);
    FirstBlankIs(s, b);
  }

  lemma NotBeforeFirst(before: string, line: string, rest: string, k: int)
    requires NoBreaks(line) && line != "" && 0 <= FirstBlank(before, 0) < |before|
    requires BlankAt(before + line + rest, k)
    ensures k >= FirstBlank(before, 0)
  {
    hide BlankAt, NoBreaks, FirstBlank;
    BlankNotAcross(before, line, rest, k);
    if BlankAt(before, k) {
      BlankBoundsOnly(before, k);
    } else {
      BlankBoundsOnly(rest, k - |before| - |line|);
    }
  }

  lemma FirstBlankBehind(before: string, line: string, rest: string)
    requires NoBreaks(line) && line != "" && FirstBlank(before, 0) < 0 && FirstBlank(rest, 0) >= 0
    ensures FirstBlank(before + line + rest, 0) == |before| + |line| + FirstBlank(rest, 0)
  {
    var s, r := before + line + rest, FirstBlank(rest, 0);
    hide BlankAt, NoBreaks, FirstBlank;
    forall k | 0 <= k < |before| + |line| + r ensures !BlankAt(s, k) {
      if BlankAt(s, k) {
        NotInFront(before, line, rest, k);
      }
    }
    BlankLonger(before + line, rest, "", r);
    assert s + "" == s;
    FirstBlankIs(s, |before| + |line| + r);
  }

  lemma NotInFront(before: string, line: string, rest: string, k: int)
    requires NoBreaks(line) && line != "" && FirstBlank(before, 0) < 0 && FirstBlank(rest, 0) >= 0
    requires BlankAt(before + line + rest, k)
    ensures k >= |before| + |line| + FirstBlank(rest, 0)
  {
    hide BlankAt, NoBreaks, FirstBlank;
    BlankNotAcross(before, line, rest, k);
    if BlankAt(before, k) {
      BlankBoundsOnly(before, k);
    } else {
      BlankBoundsOnly(rest, k - |before| - |line|);
    }
  }

  lemma BlankBoundsOnly(s: string, i: int)
    requires BlankAt(s, i)
    ensures 0 <= i
  {
  }

  lemma FirstBlankLonger(s: string, back: string)
    requires FirstBlank(s, 0) >= 0
    ensures FirstBlank(s + back, 0) == FirstBlank(s, 0)
  {
    var i := FirstBlank(s, 0);
    BlankBounds(s, i);
    assert "" + s + back == s + back;
    BlankLonger("", s, back, i);
    hide BlankAt, FirstBlank;
    forall k | 0 <= k < i ensures !BlankAt(s + back, k) {
      if BlankAt(s + back, k) {
        BlankShorter(s, back, k);
      }
    }
    FirstBlankIs(s + back, i);
  }

  lemma BlankShorter(s: string, back: string, k: int)
    requires BlankAt(s + back, k) && k + 3 <= |s|
    ensures BlankAt(s, k)
  {
    hide BlankAt;
    BlankBounds(s + back, k);
    BlankThere(s, k);
  }

  // The separator's own blank line.
  lemma BlankInSeparator(after: string, sep: string)
    requires sep == BLANK_CRLF || sep == BLANK_LF
    ensures 0 <= FirstBlank(after + sep, 0) <= |after| + LineFeedIn(sep)
    ensures FirstBlank("" + sep, 0) == LineFeedIn(sep)
  {
    BlankThere(after + sep, |after| + LineFeedIn(sep));
    BlankThere("" + sep, LineFeedIn(sep));
    if sep == BLANK_CRLF && BlankAt("" + sep, 0) {
      BlankBounds("" + sep, 0);
    }
    FirstBlankIs("" + sep, LineFeedIn(sep));
  }

  lemma WidthByChar(s: string, i: int)
    requires BlankAt(s, i)
    ensures 0 <= i < |s| - 1 && BlankWidth(s, i) == if s[i + 1] == '\n' then 2 else 3
  {
    BlankBounds(s, i);
    if s[i + 1] == '\n' {
      CharsAt(s, BLANK_LF, i);
    } else if At(s, BLANK_LF, i) {
      CharOf(s, BLANK_LF, i, i + 1);
    }
  }

  lemma WidthThere(front: string, s: string, back: string, i: int)
    requires BlankAt(s, i)
    ensures BlankWidth(front + s + back, |front| + i) == BlankWidth(s, i)
  {
    hide BlankAt, BlankWidth;
    BlankLonger(front, s, back, i);
    WidthByChar(s, i);
    WidthByChar(front + s + back, |front| + i);
  }

  lemma FixedPieces(raw: string, p: Parts)
    requires Boundary(raw) == Some(p)
    ensures FixedHead(p.head, |p.body|) + p.sep == Before(p) + LengthLine(|p.body|) + Between(p)
    ensures Fixed(raw) == Before(p) + LengthLine(|p.body|) + (Between(p) + p.body)
  {
    var fixed, line := FixedHead(p.head, |p.body|), LengthLine(|p.body|);
    HowRewritten(p.head, |p.body|);
    BoundaryKept(raw, p);
    hide Boundary, FixedHead, LengthLine, Rewriting, Eol, Fixed;
    assert fixed + p.sep == Before(p) + line + Between(p) by {
      if Rewriting(p.head).Replaced? {
        Associates(Before(p) + line, Rewriting(p.head).after, p.sep);
      }
    }
    Associates(fixed, p.sep, p.body);
    Associates(Before(p) + line, Between(p), p.body);
  }

  // Between holds the separator at its end.
  lemma BetweenEnds(p: Parts)
    requires p.sep == BLANK_CRLF || p.sep == BLANK_LF
    ensures 0 <= FirstBlank(Between(p), 0) <= |Between(p)| - |p.sep| + LineFeedIn(p.sep)
  {
    hide Rewriting, FirstBlank, LineFeedIn;
    match Rewriting(p.head)
    case Replaced(_, _, after) =>
      BlankInSeparator(after, p.sep);
    case Appended =>
      BlankInSeparator("", p.sep);
      assert "" + p.sep == p.sep;
  }

  // The first blank line of the fixed request.
  lemma FirstBlankOfFixed(raw: string, p: Parts)
    requires Boundary(raw) == Some(p)
    ensures 0 <= ReaderEnd(p) == FirstBlank(Fixed(raw), 0) <= |FixedHead(p.head, |p.body|)| + LineFeedIn(p.sep)
    ensures ReaderEnd(p) == |FixedHead(p.head, |p.body|)| + LineFeedIn(p.sep) <==> SameBoundary(p)
    ensures ReaderBodyLength(p) == |Fixed(raw)| - ReaderEnd(p) - BlankWidth(Fixed(raw), ReaderEnd(p))
  {
    var line := LengthLine(|p.body|);
    LengthLineFacts(|p.body|);
    BoundarySeparator(raw, p);
    hide Boundary, Index, FixedHead, LengthLine, IsLengthLine, NoBreaks, LineFeedIn, Rewriting, Eol, Fixed, Before,
      Between;
    FixedPieces(raw, p);
    BetweenEnds(p);
    BlankAround(Before(p), line, Between(p), p.body);
    hide FirstBlank, BlankWidth;
    FoundWithin(Before(p));
  }

  // The first blank line of a text around a written line, and how wide it is.
  lemma BlankAround(before: string, line: string, between: string, body: string)
    requires NoBreaks(line) && line != "" && FirstBlank(between, 0) >= 0
    ensures var i, k, t := FirstBlank(before, 0), FirstBlank(between, 0), before + line + (between + body);
      && FirstBlank(t, 0) == (if i >= 0 then i else |before| + |line| + k)
      && BlankWidth(t, FirstBlank(t, 0)) == if i >= 0 then BlankWidth(before, i) else BlankWidth(between, k)
  {
    hide FirstBlank, NoBreaks, BlankAt, BlankWidth;
    FirstBlankLonger(between, body);
    if FirstBlank(before, 0) >= 0 {
      FirstBlankInFront(before, line, between + body);
      WidthInFront(before, line + (between + body), FirstBlank(before, 0));
      Associates(before, line, between + body);
    } else {
      FirstBlankBehind(before, line, between + body);
      WidthThere(before + line, between, body, FirstBlank(between, 0));
      Associates(before + line, between, body);
    }
  }

  lemma WidthInFront(s: string, back: string, i: int)
    requires BlankAt(s, i)
    ensures BlankWidth(s + back, i) == BlankWidth(s, i)
  {
    hide BlankAt, BlankWidth;
    assert "" + s == s;
    WidthThere("", s, back, i);
  }

  lemma BoundarySeparator(raw: string, p: Parts)
    requires Boundary(raw) == Some(p)
    ensures p.sep == BLANK_CRLF || p.sep == BLANK_LF
  {
  }

  lemma FoundWithin(s: string)
    ensures FirstBlank(s, 0) < |s| || s == ""
    ensures FirstBlank("", 0) < 0
  {
    if FirstBlank(s, 0) >= 0 { BlankBounds(s, FirstBlank(s, 0)); }
    if FirstBlank("", 0) >= 0 { BlankBounds("", FirstBlank("", 0)); }
  }

  // What is told by the beginning of a text, up to a line end.
  lemma ToldOfFront(a: string, rest: string)
    requires Stops(rest)
    ensures var q := FirstNamed(a + rest, LF, 0);
      Told(a) == if 0 <= q <= |a| then StatedAt(a + rest, q) else None
  {
    var q, s := FirstNamed(a + rest, LF, 0), a + rest;
    assert s == a + rest && a == a + "";
    hide LengthAt, StatedAt, Stops;
    forall k | 0 <= k <= |a|
      ensures LengthAt(s, k, LF) <==> LengthAt(a, k, LF)
      ensures StatedAt(s, k) == StatedAt(a, k)
    {
      assert Stops("") by { StopsAtEnd(); }
      SameUpTo(a, rest, "", k);
    }
    if 0 <= q <= |a| {
      FirstNamedIs(a, LF, q);
    } else {
      NamedWithin(a);
    }
  }

  lemma StopsAtEnd()
    ensures Stops("")
  {
  }

  lemma NamedWithin(s: string)
    ensures FirstNamed(s, LF, 0) <= |s|
  {
  }

  // A carriage return at the end of the head tells nothing.
  lemma ToldBeforeReturn(s: string)
    ensures Told(s + "\r") == Told(s)
  {
    var q := FirstNamed(s + "\r", LF, 0);
    assert !Names(s + "\r", |s| + 1);
    ToldOfFront(s, "\r");
  }

  // The reader's message when its head ends where the fixer's does.
  lemma SameMessage(fixed: string, sep: string, body: string)
    requires sep == BLANK_CRLF || sep == BLANK_LF
    ensures var t, i := fixed + (sep + body), |fixed| + LineFeedIn(sep);
      && BlankWidth(t, i) == |t| - i - |body|
      && t[..i] == (if sep == BLANK_LF then fixed else fixed + "\r")
      && t[|t| - |body|..] == body
  {
    var t, i := fixed + (sep + body), |fixed| + LineFeedIn(sep);
    assert t[i + 1] == sep[LineFeedIn(sep) + 1];
    if sep == BLANK_LF {
      CharsAt(t, BLANK_LF, i);
    } else if At(t, BLANK_LF, i) {
      CharOf(t, BLANK_LF, i, i + 1);
    }
  }

  // Its message when an earlier blank line ends its head: it lies in the fixed
  // head, and the body takes in what the fixer counted as head.
  lemma LongerMessage(fixed: string, sep: string, body: string, i: nat)
    requires sep == BLANK_CRLF || sep == BLANK_LF
    requires var t := fixed + (sep + body); BlankAt(t, i) && i < |fixed| + LineFeedIn(sep)
    ensures var t := fixed + (sep + body);
      && i < |fixed| && t[..i] == fixed[..i] && fixed[i] == '\n'
      && |t| - i - BlankWidth(t, i) > |body|
  {
    var t := fixed + (sep + body);
    BlankBounds(t, i);
    WidthByChar(t, i);
    assert forall k :: 0 <= k < |sep| ==> t[|fixed| + k] == sep[k];
    assert i != |fixed|;
  }

  predicate EmptyFirst(s: string) {
    LF <= s || CRLF <= s
  }

  lemma SameStart(u: string, s: string, t: string)
    requires u <= s && u <= t && (|u| >= 2 || u == LF)
    ensures EmptyFirst(s) <==> EmptyFirst(t)
  {
    assert s[0] == u[0] == t[0];
    assert |u| >= 2 ==> s[1] == u[1] == t[1];
  }

  lemma ShortEol(head: string)
    requires |head| < 2
    ensures Eol(head) == LF
  {
    if Contains(head, CRLF) {
      AtBounds(head, CRLF, Index(head, CRLF));
    }
  }

  lemma NamedIsNotEmpty(s: string)
    requires IsLengthLine(s)
    ensures !EmptyFirst(s) && !EmptyFirst(s + LF)
  {
    NameUnbroken(s);
    assert (s + LF)[0] == s[0];
  }

  // The first line stays empty, or not, whatever the fixer does.
  lemma EmptyFirstKept(p: Parts)
    ensures EmptyFirst(Before(p) + LengthLine(|p.body|) + (Between(p) + p.body)) <==> EmptyFirst(p.head + LF)
  {
    var line, rest := LengthLine(|p.body|), Between(p) + p.body;
    LengthLineFacts(|p.body|);
    HowRewritten(p.head, 0);
    hide LengthLine, FixedHead, Rewriting, IsLengthLine, Eol, NoBreaks, EmptyFirst;
    match Rewriting(p.head)
    case Replaced(before, previous, after) =>
      RewritingShape(p.head);
      EndsInBreak(before, p.head);
      if before == "" { WholeFirstLine(p.head); }
      EmptyFirstReplaced(p.head, before, previous, after, line, rest);
    case Appended =>
      EmptyFirstAppended(p.head, line, rest);
  }

  lemma EmptyFirstReplaced(head: string, before: string, previous: string, after: string, line: string, rest: string)
    requires head == before + previous + after && IsLengthLine(line)
    requires if before == "" then IsLengthLine(head) else before[|before| - 1] == '\n'
    ensures EmptyFirst(before + line + rest) <==> EmptyFirst(head + LF)
  {
    hide IsLengthLine, EmptyFirst;
    if before == "" {
      StartsNamed(line, rest);
      assert "" + line + rest == line + rest;
      NamedIsNotEmpty(line + rest);
      NamedIsNotEmpty(head);
    } else {
      assert head + LF == before + (previous + after + LF) && before + line + rest == before + (line + rest);
      SameStart(before, before + line + rest, head + LF);
    }
  }

  lemma EmptyFirstAppended(head: string, line: string, rest: string)
    ensures EmptyFirst(head + Eol(head) + line + rest) <==> EmptyFirst(head + LF)
  {
    if |head| < 2 { ShortEol(head); }
    hide EmptyFirst, Eol;
    FourParts(head, Eol(head), line, rest);
    Associates(head + Eol(head), line, rest);
    if |head| < 2 {
      SameStart(head + LF, head + LF + (line + rest), head + LF);
    } else {
      SameStart(head, head + (Eol(head) + line + rest), head + LF);
    }
  }

  lemma StartsNamed(line: string, rest: string)
    requires IsLengthLine(line)
    ensures IsLengthLine(line + rest)
  {
    PrefixIsLengthLine(line, line + rest);
  }

  // A head whose first line is replaced begins with a length line.
  lemma WholeFirstLine(head: string)
    requires Rewriting(head).Replaced? && Rewriting(head).before == ""
    ensures IsLengthLine(head)
  {
    WhereRewritten(head);
    NamedFirst(head);
  }

  lemma FirstLineNamed(raw: string, p: Parts)
    requires Boundary(raw) == Some(p)
    ensures IsLengthLine(Fixed(raw)) <==> IsLengthLine(p.head + LF)
  {
    var fixed, rest := FixedHead(p.head, |p.body|), p.sep + p.body;
    BoundaryKept(raw, p);
    BoundarySeparator(raw, p);
    FirstLineOfFixed(p.head, |p.body|);
    NamesWithin(fixed, rest, 0);
    NamesWithin(p.head, LF, 0);
    NamedFirst(fixed);
    NamedFirst(p.head);
    NamedFirst(p.head + LF);
    NamedFirst(fixed + rest);
  }

  lemma NamedFirst(s: string)
    ensures IsLengthLine(s) <==> FirstNamed(s, LF, 0) == 0
    ensures IsLengthLine(s) <==> Names(s, 0)
  {
    assert s[0..] == s;
  }

  lemma RequestLineKept(raw: string, p: Parts)
    requires Boundary(raw) == Some(p)
    ensures RequestLine(Fixed(raw)) <==> RequestLine(p.head + LF)
  {
    hide Boundary, Fixed, FixedHead, LengthLine, IsLengthLine, Before, Between;
    FixedPieces(raw, p);
    FirstLineNamed(raw, p);
    EmptyFirstKept(p);
    LengthLineFacts(|p.body|);
  }

  // The reader's message once the request is fixed, in full.
  lemma ReaderMessage(raw: string, p: Parts)
    requires Boundary(raw) == Some(p)
    ensures 0 <= ReaderEnd(p) && 0 <= ReaderBodyLength(p) && ReaderEnd(p) + ReaderBodyLength(p) <= |Fixed(raw)|
    ensures ReadAs(Fixed(raw)) ==
      if !RequestLine(p.head + LF) then None
      else Some(Message(Fixed(raw)[..ReaderEnd(p)], Fixed(raw)[|Fixed(raw)| - ReaderBodyLength(p)..]))
  {
    hide Boundary, Fixed, FixedHead, ReaderEnd, ReaderBodyLength, RequestLine, SameBoundary, FirstBlank, BlankWidth,
      BlankAt, ReadAs;
    RequestLineKept(raw, p);
    FirstBlankOfFixed(raw, p);
    CutBounds(raw, p);
    ReadAsIs(Fixed(raw), ReaderEnd(p), ReaderBodyLength(p));
  }

  lemma ReadAsIs(t: string, i: int, n: int)
    requires 0 <= i == FirstBlank(t, 0) && 0 <= n == |t| - i - BlankWidth(t, i)
    ensures ReadAs(t) == if !RequestLine(t) then None else Some(Message(t[..i], t[|t| - n..]))
  {
    hide RequestLine, FirstBlank, BlankAt, BlankWidth;
    assert i + BlankWidth(t, i) == |t| - n;
  }

  lemma CutBounds(raw: string, p: Parts)
    requires Boundary(raw) == Some(p)
    ensures 0 <= ReaderEnd(p) && 0 <= ReaderBodyLength(p) && ReaderEnd(p) + ReaderBodyLength(p) <= |Fixed(raw)|
    ensures BlankAt(Fixed(raw), ReaderEnd(p))
  {
    FirstBlankOfFixed(raw, p);
    hide Boundary, Fixed, FixedHead, ReaderEnd, ReaderBodyLength, SameBoundary, FirstBlank, BlankWidth, BlankAt;
    BlankBounds(Fixed(raw), ReaderEnd(p));
    WidthByChar(Fixed(raw), ReaderEnd(p));
  }

  // That message against what the fixer took for head and body.
  lemma MessageShape(raw: string, p: Parts)
    requires Boundary(raw) == Some(p)
    ensures 0 <= ReaderEnd(p) && 0 <= ReaderBodyLength(p) && ReaderEnd(p) + ReaderBodyLength(p) <= |Fixed(raw)|
    ensures var fixed, t, i, n := FixedHead(p.head, |p.body|), Fixed(raw), ReaderEnd(p), ReaderBodyLength(p);
      if SameBoundary(p)
      then t[..i] == (if p.sep == BLANK_LF then fixed else fixed + "\r") && t[|t| - n..] == p.body
      else n > |p.body| && i < |fixed| && t[..i] == fixed[..i] && fixed[i] == '\n'
  {
    hide Boundary, Fixed, FixedHead, FirstBlank, At, BlankAt, SameBoundary, ReaderEnd, ReaderBodyLength, BlankWidth,
      LineFeedIn;
    CutBounds(raw, p);
    FirstBlankOfFixed(raw, p);
    BoundaryKept(raw, p);
    BoundarySeparator(raw, p);
    if SameBoundary(p) {
      SameMessage(FixedHead(p.head, |p.body|), p.sep, p.body);
    } else {
      LongerMessage(FixedHead(p.head, |p.body|), p.sep, p.body, ReaderEnd(p));
    }
  }

  // The reader's body is the fixer's, or begins earlier and is longer.
  lemma SameBodyIff(raw: string, p: Parts)
    requires Boundary(raw) == Some(p) && RequestLine(p.head + LF)
    ensures ReadAs(Fixed(raw)).Some?
    ensures ReadAs(Fixed(raw)).value.body == p.body <==> SameBoundary(p)
    ensures |ReadAs(Fixed(raw)).value.body| == |p.body| <==> SameBoundary(p)
  {
    hide Boundary, Fixed, FixedHead, ReadAs, SameBoundary, RequestLine, ReaderEnd, ReaderBodyLength;
    ReaderMessage(raw, p);
    MessageShape(raw, p);
  }

  lemma ToldWithin(head: string, n: nat, i: nat, m: nat)
    requires i < |FixedHead(head, n)| && FixedHead(head, n)[i] == '\n' && m != n
    ensures Told(FixedHead(head, n)[..i]) == Some(m) <==> StaleButRight(head, i, m)
  {
    LengthLineStates(n);
    hide FixedHead, LengthLine, IsLengthLine, StatedAt, Stated, Starts;
    var fixed := FixedHead(head, n);
    var a, rest := fixed[..i], fixed[i..];
    assert fixed == a + rest && Stops(rest);
    FirstLineOfFixed(head, n);
    hide Stops, Told, FirstNamed;
    ToldOfFront(a, rest);
  }

  // The theorem, in terms of the request before fixing: a reader of the whole
  // fixed request is told the length of its own body exactly when there is a
  // request line, its head ends where the fixer's does and the fixer saw the
  // length line the reader sees or that line is right; or else when its head
  // ends earlier and a line the fixer missed happens to be right about its
  // longer body.
  lemma ReaderToldTrulyIff(raw: string, p: Parts)
    requires Boundary(raw) == Some(p)
    ensures ToldTruly(Fixed(raw)) <==>
      && RequestLine(p.head + LF)
      && if SameBoundary(p) then FixerSeesWhatAReaderSees(p.head, |p.body|)
         else StaleButRight(p.head, ReaderEnd(p), ReaderBodyLength(p))
  {
    hide Boundary, Fixed, FixedHead, SameBoundary, FixerSeesWhatAReaderSees, StaleButRight, Told,
      RequestLine, ReaderEnd, ReaderBodyLength, ToldTruly;
    MessageShape(raw, p);
    ToldTrulyIs(raw, p);
    if SameBoundary(p) {
      HeadToldIff(p.head, |p.body|);
      ToldBeforeReturn(FixedHead(p.head, |p.body|));
    } else {
      ToldWithin(p.head, |p.body|, ReaderEnd(p), ReaderBodyLength(p));
    }
  }

  lemma ToldTrulyIs(raw: string, p: Parts)
    requires Boundary(raw) == Some(p) && 0 <= ReaderEnd(p) <= |Fixed(raw)| && 0 <= ReaderBodyLength(p)
    ensures ToldTruly(Fixed(raw)) <==>
      RequestLine(p.head + LF) && Told(Fixed(raw)[..ReaderEnd(p)]) == Some(ReaderBodyLength(p))
  {
    hide Boundary, Fixed, Told, RequestLine, ReaderEnd, ReaderBodyLength, ReadAs;
    ReaderMessage(raw, p);
  }

  // Every line feed ends a line the same way: bare, or after a carriage return.
  predicate Uniform(p: Parts) {
    if p.sep == BLANK_LF then forall k :: 0 <= k < |p.head| ==> p.head[k] != '\r'
    else forall k :: 0 <= k < |p.head| && p.head[k] == '\n' ==> k > 0 && p.head[k - 1] == '\r'
  }

  // Such a request has no blank line before its boundary.
  lemma UniformBlank(raw: string, p: Parts, k: int)
    requires Boundary(raw) == Some(p) && Uniform(p) && BlankAt(raw, k)
    ensures k >= |p.head| + LineFeedIn(p.sep)
  {
    hide Boundary, Index, At, BlankAt;
    BoundaryParts(raw, p);
    BlankBounds(raw, k);
    assert forall j :: 0 <= j < |p.head| ==> raw[j] == p.head[j];
    assert forall j :: 0 <= j < |p.sep| ==> raw[|p.head| + j] == p.sep[j];
    if p.sep == BLANK_LF {
      if k < |p.head| { CharsAt(raw, BLANK_LF, k); }
    } else if k < |p.head| {
      assert raw[k + 1] == '\r' && raw[k - 1] == '\r';
      CharsAt(raw, BLANK_CRLF, k - 1);
    }
  }

  lemma UniformFinds(p: Parts)
    requires Uniform(p)
    ensures FixerFinds(p.head)
  {
    var q := FirstNamed(p.head, LF, 0);
    hide Uniform, Eol, FirstNamed, IsLengthLine;
    if q > 0 {
      LineFeedBefore(p.head, q);
      if Eol(p.head) == CRLF {
        ReturnBefore(p, q);
      }
    }
  }

  lemma LineFeedBefore(s: string, q: int)
    requires q > 0 && Starts(s, q, LF)
    ensures q <= |s| && s[q - 1] == '\n'
  {
    CharOf(s, LF, q - 1, q - 1);
  }

  lemma ReturnBefore(p: Parts, q: nat)
    requires Uniform(p) && Eol(p.head) == CRLF && 0 < q <= |p.head| && p.head[q - 1] == '\n'
    ensures At(p.head, CRLF, q - 2)
  {
    var i := Index(p.head, CRLF);
    CharOf(p.head, CRLF, i, i);
    CharsAt(p.head, CRLF, q - 2);
  }

  // The head and the line end put after it are the request's own beginning,
  // unless the head has no line feed at all.
  lemma UniformEnd(raw: string, p: Parts)
    requires Boundary(raw) == Some(p) && Uniform(p)
    ensures p.head + Eol(p.head) <= raw || forall k :: 0 <= k < |p.head| ==> p.head[k] != '\n'
  {
    BoundaryParts(raw, p);
    hide Boundary, Index, Eol;
    if p.sep == BLANK_LF {
      NoReturns(p.head);
      BeginsWith(raw, p, LF, LF);
    } else if k :| 0 <= k < |p.head| && p.head[k] == '\n' {
      ReturnThere(p, k);
      BeginsWith(raw, p, CRLF, CRLF);
    }
  }

  lemma ReturnThere(p: Parts, k: int)
    requires Uniform(p) && p.sep == BLANK_CRLF && 0 <= k < |p.head| && p.head[k] == '\n'
    ensures Eol(p.head) == CRLF
  {
    CharsAt(p.head, CRLF, k - 1);
    ContainsAt(p.head, CRLF, k - 1);
  }

  lemma BeginsWith(raw: string, p: Parts, eol: string, more: string)
    requires raw == p.head + (p.sep + p.body) && p.sep == eol + more
    ensures p.head + eol <= raw
  {
    Associates(eol, more, p.body);
    Associates(p.head, eol, more + p.body);
  }

  lemma UniformPrefix(raw: string, p: Parts, front: string, back: string)
    requires Boundary(raw) == Some(p) && Uniform(p) && raw == front + back && |front| < |p.head| + 2 + LineFeedIn(p.sep)
    ensures FirstBlank(front, 0) < 0
  {
    hide Boundary, Uniform, FirstBlank, BlankAt, LineFeedIn;
    var i := FirstBlank(front, 0);
    if i >= 0 {
      BlankBounds(front, i);
      assert "" + front + back == raw;
      BlankLonger("", front, back, i);
      UniformBlank(raw, p, i);
    }
  }

  lemma UniformSuffix(raw: string, p: Parts, front: string, after: string)
    requires Boundary(raw) == Some(p) && Uniform(p) && p.head == front + after
    ensures FirstBlank(after + p.sep, 0) == |after| + LineFeedIn(p.sep)
  {
    BoundaryParts(raw, p);
    BoundarySeparator(raw, p);
    hide Boundary, Uniform, BlankAt, LineFeedIn, Index, At;
    BlankInSeparator(after, p.sep);
    UniformLater(raw, p, front, after, FirstBlank(after + p.sep, 0));
  }

  lemma UniformLater(raw: string, p: Parts, front: string, after: string, i: int)
    requires Boundary(raw) == Some(p) && Uniform(p) && p.head == front + after
    requires raw == p.head + (p.sep + p.body) && BlankAt(after + p.sep, i)
    ensures i >= |after| + LineFeedIn(p.sep)
  {
    hide Boundary, Uniform, BlankAt, LineFeedIn;
    assert front + (after + p.sep) + p.body == raw by {
      Associates(front, after, p.sep);
      Associates(front + after, p.sep, p.body);
    }
    BlankLonger(front, after + p.sep, p.body, i);
    UniformBlank(raw, p, |front| + i);
  }

  lemma OneLineFeed(head: string, eol: string)
    requires (forall k :: 0 <= k < |head| ==> head[k] != '\n') && (eol == CRLF || eol == LF)
    ensures FirstBlank(head + eol, 0) < 0
  {
    var i := FirstBlank(head + eol, 0);
    if i >= 0 {
      BlankBounds(head + eol, i);
    }
  }

  lemma UniformBoundary(raw: string, p: Parts)
    requires Boundary(raw) == Some(p) && Uniform(p)
    ensures SameBoundary(p)
  {
    BoundaryParts(raw, p);
    HowRewritten(p.head, |p.body|);
    hide Boundary, Uniform, FirstBlank, FixedHead, Rewriting, Index, At, BlankAt, LengthLine, Eol;
    match Rewriting(p.head)
    case Replaced(before, previous, after) =>
      Around(raw, p.head, p.sep + p.body, before, previous, previous, after);
      Associates(before, previous, after + (p.sep + p.body));
      UniformPrefix(raw, p, before, previous + (after + (p.sep + p.body)));
      UniformSuffix(raw, p, before + previous, after);
    case Appended =>
      UniformAppended(raw, p);
      BoundarySeparator(raw, p);
      BlankInSeparator("", p.sep);
      assert "" + p.sep == p.sep;
  }

  lemma UniformAppended(raw: string, p: Parts)
    requires Boundary(raw) == Some(p) && Uniform(p)
    ensures FirstBlank(p.head + Eol(p.head), 0) < 0
  {
    UniformEnd(raw, p);
    var front := p.head + Eol(p.head);
    if front <= raw {
      BoundarySeparator(raw, p);
      UniformEndLength(p);
      hide Boundary, Uniform, FirstBlank, Eol, LineFeedIn;
      assert raw == front + raw[|front|..];
      UniformPrefix(raw, p, front, raw[|front|..]);
    } else {
      OneLineFeed(p.head, Eol(p.head));
    }
  }

  lemma UniformEndLength(p: Parts)
    requires Uniform(p) && (p.sep == BLANK_CRLF || p.sep == BLANK_LF)
    ensures |Eol(p.head)| < 2 + LineFeedIn(p.sep)
  {
    if p.sep == BLANK_LF && Eol(p.head) == CRLF {
      CharOf(p.head, CRLF, Index(p.head, CRLF), Index(p.head, CRLF));
    }
  }

  // A request with one kind of line end throughout needs only a request line.
  lemma UniformLineEnds(raw: string, p: Parts)
    requires Boundary(raw) == Some(p) && Uniform(p)
    ensures ToldTruly(Fixed(raw)) <==> RequestLine(p.head + LF)
  {
    hide Boundary, Fixed, SameBoundary, FixerFinds, RequestLine, ToldTruly, Uniform, StaleButRight;
    UniformBoundary(raw, p);
    UniformFinds(p);
    ReaderToldTrulyIff(raw, p);
  }

  // A bare-LF blank line before a CRLF boundary, in a head without carriage
  // returns, always misleads: every length line is the fixer's, and none is true.
  lemma BareBlankLineMisleads(raw: string, p: Parts)
    requires Boundary(raw) == Some(p) && p.sep == BLANK_CRLF
    requires (forall k :: 0 <= k < |p.head| ==> p.head[k] != '\r') && Contains(p.head, BLANK_LF)
    ensures FixerSeesWhatAReaderSees(p.head, |p.body|) && !ToldTruly(Fixed(raw))
  {
    NoReturns(p.head);
    var j := Index(p.head, BLANK_LF);
    hide Boundary, Fixed, FixedHead, LengthLine, IsLengthLine, RequestLine, ToldTruly, Eol, SameBoundary, Index;
    BareBlankBefore(p, j);
    ReaderToldTrulyIff(raw, p);
  }

  lemma NoReturns(head: string)
    requires forall k :: 0 <= k < |head| ==> head[k] != '\r'
    ensures Eol(head) == LF && FixerFinds(head)
  {
    if Contains(head, CRLF) {
      CharOf(head, CRLF, Index(head, CRLF), Index(head, CRLF));
    }
  }

  lemma BareBlankBefore(p: Parts, j: int)
    requires p.sep == BLANK_CRLF && Eol(p.head) == LF && At(p.head, BLANK_LF, j)
    requires forall k :: 0 <= k < |p.head| ==> p.head[k] != '\r'
    ensures !SameBoundary(p)
  {
    HowRewritten(p.head, 0);
    assert BlankAt(p.head, j);
    hide Eol, FixedHead, LengthLine, Rewriting, Split, Index, At, BlankAt, FirstBlank, LineFeedIn;
    match Rewriting(p.head)
    case Replaced(before, previous, after) =>
      ReplacedUnbroken(p.head);
      BlankAroundLine(before, previous, after, p.sep, j);
    case Appended =>
      BlankIsFound("", p.head, Eol(p.head), j);
      assert "" + p.head + Eol(p.head) == p.head + Eol(p.head);
  }

  lemma BlankIsFound(front: string, s: string, back: string, j: int)
    requires BlankAt(s, j)
    ensures 0 <= FirstBlank(front + s + back, 0) <= |front| + j < |front| + |s|
  {
    BlankBounds(s, j);
    BlankLonger(front, s, back, j);
  }

  lemma BlankAroundLine(before: string, line: string, after: string, sep: string, j: int)
    requires NoBreaks(line) && line != "" && BlankAt(before + line + after, j)
    ensures FirstBlank(before, 0) >= 0 || 0 <= FirstBlank(after + sep, 0) < |after|
  {
    hide BlankAt, FirstBlank, NoBreaks;
    BlankNotAcross(before, line, after, j);
    if BlankAt(before, j) {
      BlankIsFound("", before, "", j);
      assert "" + before + "" == before;
    } else {
      BlankIsFound("", after, sep, j - |before| - |line|);
      assert "" + after + sep == after + sep;
    }
  }

  // In a head without carriage returns the replaced line is one line.
  lemma ReplacedUnbroken(head: string)
    requires Eol(head) == LF && Rewriting(head).Replaced? && forall k :: 0 <= k < |head| ==> head[k] != '\r'
    ensures NoBreaks(Rewriting(head).line) && Rewriting(head).line != ""
  {
    SplitParts(head, LF);
    HowRewritten(head, 0);
    var w := Rewriting(head);
    assert IsLengthLine(w.line) && !Contains(w.line, LF);
    hide Split, FirstLength, FixedHead, Rewriting, LengthLine, Eol, Contains;
    Unbroken(w.before, w.line, w.after);
  }

  lemma Unbroken(before: string, line: string, after: string)
    requires !Contains(line, LF) && IsLengthLine(line)
    requires var s := before + line + after; forall k :: 0 <= k < |s| ==> s[k] != '\r'
    ensures NoBreaks(line) && line != ""
  {
    var s := before + line + after;
    forall k | 0 <= k < |line| ensures line[k] != '\r' && line[k] != '\n' {
      assert line[k] == s[|before| + k];
      if line[k] == '\n' {
        CharsAt(line, LF, k);
        ContainsAt(line, LF, k);
      }
    }
  }

  // So does a blank line of either kind in a head with no length line: the line
  // appended at the fixer's boundary lies in the reader's body.
  lemma EarlierBlankLineMisleads(raw: string, p: Parts, j: int)
    requires Boundary(raw) == Some(p) && BlankAt(p.head, j) && FirstNamed(p.head, LF, 0) < 0
    ensures FixerSeesWhatAReaderSees(p.head, |p.body|) && !ToldTruly(Fixed(raw))
  {
    NothingToReplace(p.head);
    BlankIsFound("", p.head, Eol(p.head), j);
    assert "" + p.head + Eol(p.head) == p.head + Eol(p.head);
    hide Boundary, Fixed, FixedHead, LengthLine, IsLengthLine, RequestLine, ToldTruly, Eol, Index, BlankAt, Rewriting,
      FirstBlank;
    ReaderToldTrulyIff(raw, p);
  }

  lemma NothingToReplace(head: string)
    requires FirstNamed(head, LF, 0) < 0
    ensures Rewriting(head).Appended?
  {
    WhereRewritten(head);
    hide Rewriting, LengthAt, Eol;
    if Rewriting(head).Replaced? {
      NamedForReader(head, |Rewriting(head).before|);
    }
  }

  lemma NamedForReader(head: string, q: int)
    ensures LengthAt(head, q, Eol(head)) ==> LengthAt(head, q, LF)
  {
    hide IsLengthLine, Contains, At;
    if LengthAt(head, q, Eol(head)) {
      StartsForReader(head, q);
    }
  }

  // One such request: the reader's body begins after the first blank line, with
  // c, and is told the length of what follows the second.
  lemma BlankLineMisleads(a: string, m: nat, c: string, body: string)
    requires NoBreaks(a) && NoBreaks(c)
    ensures var head := a + LF + LengthLine(m) + BLANK_LF + c;
      && Boundary(head + (BLANK_CRLF + body)) == Some(Parts(head, BLANK_CRLF, body))
      && FixerSeesWhatAReaderSees(head, |body|)
      && !ToldTruly(Fixed(head + (BLANK_CRLF + body)))
  {
    LengthLineFacts(m);
    hide LengthLine, IsLengthLine, Fixed, FixerSeesWhatAReaderSees, ToldTruly;
    var front := a + LF + LengthLine(m);
    var p := Parts(front + BLANK_LF + c, BLANK_CRLF, body);
    assert forall k :: 0 <= k < |p.head| ==> p.head[k] != '\r';
    CharsAt(p.head, BLANK_LF, |front|);
    ContainsAt(p.head, BLANK_LF, |front|);
    FirstReturn(p);
    BareBlankLineMisleads(p.head + (BLANK_CRLF + body), p);
  }

  lemma FirstReturn(p: Parts)
    requires p.sep == BLANK_CRLF && forall k :: 0 <= k < |p.head| ==> p.head[k] != '\r'
    ensures Boundary(p.head + (p.sep + p.body)) == Some(p)
  {
    hide Boundary, Index;
    forall j | 0 <= j && At(p.head + (p.sep + p.body), p.sep, j) ensures j >= |p.head| {
      CharOf(p.head + (p.sep + p.body), p.sep, j, j);
    }
    BoundaryIs(p);
  }

  // A length line behind a bare line feed, in a head that has a CRLF elsewhere,
  // is passed over: the reader is told what it says, whatever the body's length.
  lemma HiddenLengthLineStays(a: string, b: string, line: string, n: nat)
    requires NoBreaks(a) && NoBreaks(b) && !IsLengthLine(a) && !IsLengthLine(b)
    requires NoBreaks(line) && IsLengthLine(line)
    ensures var head := a + CRLF + b + LF + line;
      Told(FixedHead(head, n)) == Told(head) == Stated(line)
  {
    var front := a + CRLF + b;
    BeforeHidden(a, b);
    hide IsLengthLine, StatedAt, Stated, FirstNamed, FixedHead, LengthAt, NoBreaks, At, Index, Told, Eol, Suffix;
    HiddenLineIsFirst(a, b, line);
    EolOfHidden(a, b, line);
    NotAfterCrlf(front, b, line);
    PassedOver(front + LF + line, |front| + 1, n);
  }

  // Names ignore case, and only the number counts.
  lemma LowerCaseStates()
    ensures IsLengthLine("content-length: 4") && Stated("content-length: 4") == Some(4)
  {
    var line := "content-length: 4";
    assert line[..|NAME|] == "content-length:" && ToAsciiLower("content-length:") == NAME;
    assert line[|NAME|..] == " 4" && " 4"[1..] == "4";
    assert Unpadded(" 4") == Unpadded("4") == "4" && "4"[..0] == "" && DigitsValue("4") == 4;
  }

  lemma SignStatesNothing()
    ensures Stated("Content-Length: +4") == None
  {
    assert "Content-Length: +4"[|NAME|..] == " +4" && " +4"[1..] == "+4";
    assert Unpadded(" +4") == Unpadded("+4") == "+4" && "+4"[0] == '+';
  }

  // The line the fixer replaces runs to the next CRLF: lines behind bare line
  // feeds within it are lost.
  lemma BareLinesAreLost(a: string, m: nat, b: string, n: nat)
    requires NoBreaks(a) && !IsLengthLine(a) && !Contains(LengthLine(m) + LF + b, CRLF)
    ensures FixedHead(a + CRLF + (LengthLine(m) + LF + b), n) == a + CRLF + LengthLine(n)
  {
    var previous, line := LengthLine(m) + LF + b, LengthLine(n);
    var head := a + CRLF + previous;
    LengthLineFacts(m);
    assert LengthLine(m) + (LF + b) == previous;
    PrefixIsLengthLine(LengthLine(m), previous);
    NoBreaksNoSeparator(a, CRLF);
    CrlfInside(a, previous);
    hide IsLengthLine, LengthLine, NoBreaks, Contains, Index, FirstLength, Split, Eol, Join, FixedLines;
    JoinTwo(a, previous, CRLF);
    JoinTwo(a, line, CRLF);
    SplitJoin([a, previous], CRLF);
    SecondRewritten(a, previous, line);
  }

  lemma JoinTwo(a: string, b: string, sep: string)
    ensures Join([a, b], sep) == a + sep + b
  {
    assert [a, b][1..] == [b];
  }

  lemma SecondRewritten(a: string, previous: string, line: string)
    requires !IsLengthLine(a) && IsLengthLine(previous)
    ensures FixedLines([a, previous], line) == [a, line]
  {
    FirstLengthIs([a, previous], 1);
  }

  // What is told stays when the reader's first length line is not the fixer's.
  lemma PassedOver(head: string, q: int, n: nat)
    requires FirstNamed(head, LF, 0) == q > 0 && Eol(head) == CRLF && !At(head, CRLF, q - 2)
    ensures Told(FixedHead(head, n)) == StatedAt(head, q)
  {
    hide StatedAt, Stated, FirstNamed, FixedHead, At, Eol, LengthLine;
    FirstLineOfFixed(head, n);
  }

  lemma EolOfHidden(a: string, b: string, line: string)
    ensures Eol(a + CRLF + b + LF + line) == CRLF
  {
    CrlfInside(a, b + LF + line);
    assert a + CRLF + b + LF + line == a + CRLF + (b + LF + line);
  }

  lemma BeforeHidden(a: string, b: string)
    ensures if b != "" then Suffix(a + CRLF + b, b) else Suffix(a + CRLF + b, CRLF)
  {
  }

  lemma ToldIs(s: string, q: int)
    requires LengthAt(s, q, LF) && forall k :: 0 <= k < q ==> !LengthAt(s, k, LF)
    ensures Told(s) == StatedAt(s, q)
  {
    FirstNamedIs(s, LF, q);
  }

  lemma HiddenLineIsFirst(a: string, b: string, line: string)
    requires NoBreaks(a) && NoBreaks(b) && !IsLengthLine(a) && !IsLengthLine(b)
    requires NoBreaks(line) && IsLengthLine(line)
    ensures var head := a + CRLF + b + LF + line;
      && FirstNamed(head, LF, 0) == |a + CRLF + b| + 1
      && StatedAt(head, |a + CRLF + b| + 1) == Stated(line)
      && Told(head) == Stated(line)
  {
    hide IsLengthLine, StatedAt, Stated, FirstNamed, LengthAt, NoBreaks, At, Stops, Told;
    var front := a + CRLF + b;
    var head := front + LF + line;
    assert head == a + CRLF + b + (LF + line);
    AppendedLine(front, LF, line);
    assert Stops(LF + line) by { StopsAtLF(line); }
    NoneBefore(a, b, LF + line);
    FirstNamedIs(head, LF, |front| + 1);
    ToldIs(head, |front| + 1);
  }

  lemma StopsAtLF(line: string)
    ensures Stops(LF + line)
  {
  }

  lemma NoneBefore(a: string, b: string, rest: string)
    requires NoBreaks(a) && NoBreaks(b) && !IsLengthLine(a) && !IsLengthLine(b) && Stops(rest)
    ensures forall k :: 0 <= k <= |a + CRLF + b| ==> !LengthAt(a + CRLF + b + rest, k, LF)
  {
    hide NoBreaks, IsLengthLine, Stops, LengthAt;
    forall k | 0 <= k <= |a + CRLF + b| ensures !LengthAt(a + CRLF + b + rest, k, LF) {
      NotBefore(a, b, rest, k);
    }
  }

  lemma CrlfInside(a: string, rest: string)
    ensures Eol(a + CRLF + rest) == CRLF
  {
    CharsAt(a + CRLF + rest, CRLF, |a|);
    ContainsAt(a + CRLF + rest, CRLF, |a|);
  }

  lemma NotAfterCrlf(front: string, b: string, line: string)
    requires NoBreaks(b) && (if b != "" then Suffix(front, b) else Suffix(front, CRLF))
    ensures !At(front + LF + line, CRLF, |front| - 1)
  {
    assert |front| >= 1 && front[|front| - 1] == (if b != "" then b[|b| - 1] else CRLF[1]) by {
      assert b != "" ==> front[|front| - |b|..][|b| - 1] == front[|front| - 1];
      assert b == "" ==> front[|front| - 2..][1] == front[|front| - 1];
    }
    if At(front + LF + line, CRLF, |front| - 1) {
      CharOf(front + LF + line, CRLF, |front| - 1, |front| - 1);
    }
  }

  lemma NotBefore(a: string, b: string, rest: string, k: nat)
    requires NoBreaks(a) && NoBreaks(b) && !IsLengthLine(a) && !IsLengthLine(b) && Stops(rest)
    requires k <= |a + CRLF + b|
    ensures !LengthAt(a + CRLF + b + rest, k, LF)
  {
    var head := a + CRLF + b + rest;
    if k > 0 && At(head, LF, k - 1) {
      CharOf(head, LF, k - 1, k - 1);
      assert k == |a| + 2;
      hide IsLengthLine;
      Associates(a + CRLF, b, rest);
      NoNameBehind(a + CRLF, b, rest);
    } else if k == 0 {
      hide IsLengthLine;
      FourParts(a, CRLF, b, rest);
      assert "" + (a + (CRLF + b + rest)) == head;
      NoNameBehind("", a, CRLF + b + rest);
    }
  }

  lemma NoNameBehind(front: string, line: string, rest: string)
    requires !IsLengthLine(line) && Stops(rest)
    ensures !Names(front + (line + rest), |front|)
  {
    hide IsLengthLine, Stops;
    NamesWithin(line, rest, 0);
    assert line[0..] == line && (line + rest)[0..] == line + rest;
    assert (front + (line + rest))[|front|..] == line + rest;
  }
}
