// The string operations the source takes from Go's strings package, with the
// facts about them that the parsers and printers rely on.
module Text {
  import opened Common

  const CRLF := "\r\n"
  const LF := "\n"
  const BLANK_CRLF := "\r\n\r\n"
  const BLANK_LF := "\n\n"

  // unicode.IsSpace.
  predicate IsSpace(c: char) {
    var n := c as int;
    || 0x09 <= n <= 0x0d || n == 0x20 || n == 0x85 || n == 0xa0
    || n == 0x1680 || 0x2000 <= n <= 0x200a
    || n == 0x2028 || n == 0x2029 || n == 0x202f || n == 0x205f || n == 0x3000
  }

  function TrimLeft(s: string): (t: string)
    ensures |t| <= |s| && t == s[|s| - |t|..]
    ensures t == "" || !IsSpace(t[0])
  {
    if s != "" && IsSpace(s[0]) then TrimLeft(s[1..]) else s
  }

  function TrimRight(s: string): (t: string)
    ensures |t| <= |s| && t == s[..|t|]
    ensures t == "" || !IsSpace(t[|t| - 1])
  {
    if s != "" && IsSpace(s[|s| - 1]) then TrimRight(s[..|s| - 1]) else s
  }

  // strings.TrimSpace.
  function Trim(s: string): string {
    TrimRight(TrimLeft(s))
  }

  predicate Trimmed(s: string) {
    s == "" || (!IsSpace(s[0]) && !IsSpace(s[|s| - 1]))
  }

  // A trimmed text survives trimming, also behind one space.
  lemma TrimTrimmed(s: string)
    requires Trimmed(s)
    ensures Trim(s) == s && Trim(" " + s) == s
  {
    assert TrimLeft(s) == s && TrimRight(s) == s;
    var t := " " + s;
    assert t[0] == ' ' && IsSpace(t[0]);
    assert t[1..] == s;
    assert TrimLeft(t) == TrimLeft(t[1..]);
  }

  lemma NotBlank(s: string, i: nat)
    requires i < |s| && !IsSpace(s[i])
    ensures Trim(s) != ""
  {
    LeftKeeps(s, i);
    var t := TrimLeft(s);
    RightKeeps(t, i - (|s| - |t|));
  }

  lemma {:induction false} LeftKeeps(s: string, i: nat)
    requires i < |s| && !IsSpace(s[i])
    ensures |s| - |TrimLeft(s)| <= i
    decreases |s|
  {
    if IsSpace(s[0]) { LeftKeeps(s[1..], i - 1); }
  }

  lemma {:induction false} RightKeeps(s: string, i: nat)
    requires i < |s| && !IsSpace(s[i])
    ensures |TrimRight(s)| > i
    decreases |s|
  {
    if IsSpace(s[|s| - 1]) { RightKeeps(s[..|s| - 1], i); }
  }

  // Trimming takes white space off both ends, and all of it.
  lemma TrimTakesSpaces(s: string) returns (l: nat, r: nat)
    ensures Trimmed(Trim(s))
    ensures l + |Trim(s)| + r == |s| && Trim(s) == s[l..|s| - r]
    ensures forall i :: 0 <= i < l || |s| - r <= i < |s| ==> IsSpace(s[i])
  {
    l, r := |s| - |TrimLeft(s)|, |TrimLeft(s)| - |Trim(s)|;
    TrimKeepsCharacters(s, l);
    TrimIsTrimmed(s);
    LeftIsSpace(s);
    RightIsSpace(TrimLeft(s));
    hide IsSpace, Trimmed;
    forall i | |s| - r <= i < |s| ensures IsSpace(s[i]) {
      TrimLeftKeeps(s, i - l);
    }
    hide TrimLeft, TrimRight, Trim;
  }

  lemma TrimLeftKeeps(s: string, i: nat)
    requires i < |TrimLeft(s)|
    ensures TrimLeft(s)[i] == s[|s| - |TrimLeft(s)| + i]
  {
  }

  lemma TrimKeepsCharacters(s: string, l: nat)
    requires l == |s| - |TrimLeft(s)|
    ensures l + |Trim(s)| <= |s| && Trim(s) == s[l..l + |Trim(s)|]
  {
    assert TrimLeft(s) == s[l..];
    assert Trim(s) == TrimLeft(s)[..|Trim(s)|];
    hide IsSpace, TrimLeft, TrimRight, Trim;
    PartOfEnd(s, l, |Trim(s)|);
  }

  lemma PartOfEnd(s: string, l: nat, n: nat)
    requires l + n <= |s|
    ensures s[l..][..n] == s[l..l + n]
  {
  }

  lemma TrimIsTrimmed(s: string)
    ensures Trimmed(Trim(s))
  {
    hide IsSpace;
    var t := TrimLeft(s);
    assert TrimRight(t) != "" ==> TrimRight(t)[0] == t[0];
  }

  lemma {:induction false} LeftIsSpace(s: string)
    ensures forall i :: 0 <= i < |s| - |TrimLeft(s)| ==> IsSpace(s[i])
    decreases |s|
  {
    hide IsSpace;
    if s != "" && IsSpace(s[0]) {
      LeftIsSpace(s[1..]);
      forall i | 0 <= i < |s| - |TrimLeft(s)| ensures IsSpace(s[i]) {
        if i > 0 { assert s[i] == s[1..][i - 1]; }
      }
    }
  }

  lemma {:induction false} RightIsSpace(s: string)
    ensures forall i :: |TrimRight(s)| <= i < |s| ==> IsSpace(s[i])
    decreases |s|
  {
    hide IsSpace;
    if s != "" && IsSpace(s[|s| - 1]) {
      var front := s[..|s| - 1];
      RightIsSpace(front);
      forall i | |TrimRight(s)| <= i < |s| ensures IsSpace(s[i]) {
        if i < |s| - 1 { assert s[i] == front[i]; }
      }
    }
  }

  function AsciiLower(c: char): char {
    if 'A' <= c <= 'Z' then (c as int + 32) as char else c
  }

  // The capital letters become their small ones; nothing else changes.
  lemma LowerAlphabet(i: nat)
    ensures i < 26 ==> AsciiLower("ABCDEFGHIJKLMNOPQRSTUVWXYZ"[i]) == "abcdefghijklmnopqrstuvwxyz"[i]
    ensures forall c: char :: !('A' <= c <= 'Z') ==> AsciiLower(c) == c
    ensures Lower(0x130 as char) == 'i' && Lower(0x212a as char) == 'k'
    ensures forall c: char :: c as int !in {0x130, 0x212a} ==> Lower(c) == AsciiLower(c)
  {
  }

  lemma SpaceCharacters(c: char)
    ensures IsSpace(c) <==> c in {'\t', '\n', '\r', ' '} || c as int in {
      0x0b, 0x0c, 0x85, 0xa0, 0x1680, 0x2000, 0x2001, 0x2002, 0x2003, 0x2004, 0x2005, 0x2006, 0x2007, 0x2008, 0x2009,
      0x200a, 0x2028, 0x2029, 0x202f, 0x205f, 0x3000}
  {
  }

  // unicode.ToLower, as far as its result can be an ASCII letter: the capitals,
  // the dotted capital I and the Kelvin sign.
  function Lower(c: char): char {
    if c as int == 0x130 then 'i' else if c as int == 0x212a then 'k' else AsciiLower(c)
  }

  function ToLower(s: string): (t: string)
    ensures |t| == |s| && forall i :: 0 <= i < |s| ==> t[i] == Lower(s[i])
  {
    seq(|s|, i requires 0 <= i < |s| => Lower(s[i]))
  }

  lemma LowerStays(s: string)
    requires forall i :: 0 <= i < |s| ==> 'a' <= s[i] <= 'z'
    ensures ToLower(s) == s
  {
  }

  function ToAsciiLower(s: string): (t: string)
    ensures |t| == |s| && forall i :: 0 <= i < |s| ==> t[i] == AsciiLower(s[i])
  {
    seq(|s|, i requires 0 <= i < |s| => AsciiLower(s[i]))
  }

  predicate At(s: string, pattern: string, i: int) {
    0 <= i && i + |pattern| <= |s| && s[i..i + |pattern|] == pattern
  }

  function IndexFrom(s: string, pattern: string, from: nat): (r: int)
    requires from <= |s|
    ensures r == -1 || (from <= r && At(s, pattern, r))
    ensures forall j :: from <= j && (r == -1 || j < r) ==> !At(s, pattern, j)
    decreases |s| - from
  {
    if At(s, pattern, from) then from
    else if from == |s| then -1
    else IndexFrom(s, pattern, from + 1)
  }

  // strings.Index: the first occurrence, or -1.
  function Index(s: string, pattern: string): (r: int)
    ensures r == -1 || At(s, pattern, r)
    ensures forall j :: 0 <= j && (r == -1 || j < r) ==> !At(s, pattern, j)
  {
    IndexFrom(s, pattern, 0)
  }

  predicate Contains(s: string, pattern: string) {
    Index(s, pattern) >= 0
  }

  lemma AtChars(s: string, pattern: string, j: int)
    requires At(s, pattern, j)
    ensures forall k :: 0 <= k < |pattern| ==> s[j + k] == pattern[k]
  {
  }

  lemma CharsAt(s: string, pattern: string, j: int)
    requires 0 <= j && j + |pattern| <= |s|
    requires forall k :: 0 <= k < |pattern| ==> s[j + k] == pattern[k]
    ensures At(s, pattern, j)
  {
  }

  lemma ContainsAt(s: string, pattern: string, j: int)
    requires At(s, pattern, j)
    ensures Contains(s, pattern)
  {
  }

  lemma CharOf(s: string, pattern: string, j: int, at: int)
    requires At(s, pattern, j) && j <= at < j + |pattern|
    ensures s[at] == pattern[at - j]
  {
    AtChars(s, pattern, j);
    assert s[j + (at - j)] == pattern[at - j];
  }

  lemma AtLonger(front: string, s: string, back: string, pattern: string, j: int)
    requires At(s, pattern, j)
    ensures At(front + s + back, pattern, |front| + j)
  {
    AtChars(s, pattern, j);
    CharsAt(front + s + back, pattern, |front| + j);
  }

  lemma AtBounds(s: string, pattern: string, j: int)
    requires At(s, pattern, j)
    ensures 0 <= j && j + |pattern| <= |s|
  {
  }

  // The first occurrence is determined by being one with none before it.
  lemma IndexIs(s: string, pattern: string, i: int)
    requires At(s, pattern, i) && forall j :: 0 <= j < i ==> !At(s, pattern, j)
    ensures Index(s, pattern) == i
  {
  }

  lemma IndexNone(s: string, pattern: string)
    requires forall j :: 0 <= j ==> !At(s, pattern, j)
    ensures Index(s, pattern) == -1
  {
  }

  // strings.Split.
  function Split(s: string, sep: string): (parts: seq<string>)
    requires sep != ""
    ensures parts != []
    decreases |s|
  {
    var i := Index(s, sep);
    if i < 0 then [s] else [s[..i]] + Split(s[i + |sep|..], sep)
  }

  // strings.Join.
  function Join(parts: seq<string>, sep: string): string {
    if parts == [] then ""
    else if |parts| == 1 then parts[0]
    else parts[0] + sep + Join(parts[1..], sep)
  }

  lemma {:induction false} JoinSplit(s: string, sep: string)
    requires sep != ""
    ensures Join(Split(s, sep), sep) == s
    decreases |s|
  {
    var i := Index(s, sep);
    if i >= 0 {
      var rest := s[i + |sep|..];
      assert Split(s, sep)[1..] == Split(rest, sep);
      assert s == s[..i] + sep + rest;
      hide Index, Split;
      JoinSplit(rest, sep);
    }
  }

  lemma {:induction false} SplitParts(s: string, sep: string)
    requires sep != ""
    ensures forall k :: 0 <= k < |Split(s, sep)| ==> !Contains(Split(s, sep)[k], sep)
    decreases |s|
  {
    var i := Index(s, sep);
    if i >= 0 {
      SplitParts(s[i + |sep|..], sep);
      forall j | 0 <= j ensures !At(s[..i], sep, j) {
        if At(s[..i], sep, j) {
          assert s[..i][j..j + |sep|] == s[j..j + |sep|];
          assert At(s, sep, j);
        }
      }
      IndexNone(s[..i], sep);
    }
  }

  // strings.ReplaceAll.
  function ReplaceAll(s: string, pattern: string, replacement: string): string
    requires pattern != ""
  {
    Join(Split(s, pattern), replacement)
  }

  // A separator that cannot start inside a part and end outside it: a single
  // character, or two different ones.
  predicate Clean(sep: string) {
    |sep| == 1 || (|sep| == 2 && sep[0] != sep[1])
  }

  lemma FirstSeparator(part: string, sep: string, rest: string)
    requires Clean(sep) && !Contains(part, sep)
    ensures Index(part + sep + rest, sep) == |part|
    ensures (part + sep + rest)[..|part|] == part
    ensures (part + sep + rest)[|part| + |sep|..] == rest
  {
    var s := part + sep + rest;
    assert s[|part|..|part| + |sep|] == sep;
    forall j | 0 <= j < |part| ensures !At(s, sep, j) {
      if At(s, sep, j) {
        assert s[j..j + |sep|][0] == sep[0] && s[j..j + |sep|][|sep| - 1] == sep[|sep| - 1];
        if j + |sep| <= |part| {
          assert part[j..j + |sep|] == s[j..j + |sep|];
          assert At(part, sep, j);
        } else {
          assert false;
        }
      }
    }
    IndexIs(s, sep, |part|);
  }

  lemma SplitFirst(part: string, sep: string, rest: string)
    requires Clean(sep) && !Contains(part, sep)
    ensures Split(part + sep + rest, sep) == [part] + Split(rest, sep)
  {
    FirstSeparator(part, sep, rest);
    hide Index, Contains;
  }

  lemma {:induction false} SplitJoin(parts: seq<string>, sep: string)
    requires parts != [] && Clean(sep)
    requires forall k :: 0 <= k < |parts| ==> !Contains(parts[k], sep)
    ensures Split(Join(parts, sep), sep) == parts
    decreases |parts|
  {
    if |parts| == 1 {
    } else {
      var rest := Join(parts[1..], sep);
      assert Join(parts, sep) == parts[0] + sep + rest;
      hide Join, Index, Contains, Split;
      SplitJoin(parts[1..], sep);
      SplitFirst(parts[0], sep, rest);
      assert parts == [parts[0]] + parts[1..];
    }
  }

  lemma {:induction false} JoinAppend(a: seq<string>, b: seq<string>, sep: string)
    requires a != [] && b != []
    ensures Join(a + b, sep) == Join(a, sep) + sep + Join(b, sep)
    decreases |a|
  {
    var all := a + b;
    assert all[0] == a[0] && |all| > 1;
    if |a| == 1 {
      assert all[1..] == b;
    } else {
      assert all[1..] == a[1..] + b;
      assert Join(all, sep) == a[0] + sep + Join(all[1..], sep) && Join(a, sep) == a[0] + sep + Join(a[1..], sep);
      hide Join;
      JoinAppend(a[1..], b, sep);
      Associates(a[0] + sep, Join(a[1..], sep), sep);
      Associates(a[0] + sep, Join(a[1..], sep) + sep, Join(b, sep));
    }
  }

  function Digit(d: nat): char
    requires d < 10
  {
    (48 + d) as char
  }

  // strconv.Itoa for a length.
  function Decimal(n: nat): (s: string)
    ensures s != ""
    ensures forall i :: 0 <= i < |s| ==> '0' <= s[i] <= '9'
  {
    if n < 10 then [Digit(n)] else Decimal(n / 10) + [Digit(n % 10)]
  }

  function DigitsValue(s: string): nat
    requires forall i :: 0 <= i < |s| ==> '0' <= s[i] <= '9'
  {
    if s == "" then 0 else 10 * DigitsValue(s[..|s| - 1]) + (s[|s| - 1] as int - 48)
  }

  lemma {:induction false} DecimalValue(n: nat)
    ensures DigitsValue(Decimal(n)) == n
  {
    if n >= 10 {
      DecimalValue(n / 10);
      assert Decimal(n)[..|Decimal(n)| - 1] == Decimal(n / 10);
    }
  }

  // Decimal digits, the most significant first.
  lemma DecimalDigits()
    ensures Decimal(0) == "0" && Decimal(1234) == "1234"
  {
    assert Decimal(1) == "1" && Decimal(12) == "12" && Decimal(123) == "123";
  }

  lemma ValuesOfDigits()
    ensures DigitsValue("0") == 0 && DigitsValue("1234") == 1234
  {
    assert "1234"[..3] == "123" && "123"[..2] == "12" && "12"[..1] == "1";
    assert DigitsValue("1") == 1;
    assert DigitsValue("12") == 12;
    assert DigitsValue("123") == 123;
  }

  function Unsigned(s: string): string {
    if s != "" && (s[0] == '-' || s[0] == '+') then s[1..] else s
  }

  // strconv.ParseInt(s, 10, 64).
  function ParseInt64(s: string): Option<int> {
    var negative := s != "" && s[0] == '-';
    var digits := Unsigned(s);
    if digits == "" || exists i :: 0 <= i < |digits| && !('0' <= digits[i] <= '9') then None
    else
      var v: int := if negative then 0 - DigitsValue(digits) else DigitsValue(digits);
      if -(MAX_INT64 + 1) <= v <= MAX_INT64 then Some(v) else None
  }

  predicate AllZero(s: string) {
    s != "" && forall i :: 0 <= i < |s| ==> s[i] == '0'
  }

  lemma {:induction false} ZeroDigits(s: string)
    requires forall i :: 0 <= i < |s| ==> '0' <= s[i] <= '9'
    ensures DigitsValue(s) == 0 <==> forall i :: 0 <= i < |s| ==> s[i] == '0'
  {
    if s != "" {
      ZeroDigits(s[..|s| - 1]);
    }
  }

  // A length of zero: zeros only, with or without a sign.
  lemma ZeroLength(s: string)
    ensures ParseInt64(s) == Some(0) <==> AllZero(s) || (s != "" && s[0] in {'+', '-'} && AllZero(s[1..]))
  {
    var signed := s != "" && (s[0] == '-' || s[0] == '+');
    var digits := Unsigned(s);
    if i :| 0 <= i < |digits| && !('0' <= digits[i] <= '9') {
      assert ParseInt64(s) == None;
      assert digits[i] != '0' && !AllZero(digits);
      if signed { assert s[0] != '0' && !AllZero(s); }
    } else {
      ZeroDigits(digits);
      assert signed ==> s[0] != '0';
    }
  }
}
