// Scope conditions: a glob compiled to a regular expression, and one field of a
// target matched by one strategy. Strings are Unicode texts, one character a
// code point.
module Scope {
  import opened Common
  import opened Text

  // ---------- regular expressions ----------

  datatype Atom = Dot | Char(c: char)

  datatype Node = Begin | Finish | One(atom: Atom) | Star(atom: Atom)

  predicate Meta(c: char) {
    c in {'\\', '.', '+', '*', '?', '(', ')', '|', '[', ']', '{', '}', '^', '$'}
  }

  function Prepend(node: Node, rest: Option<seq<Node>>): Option<seq<Node>> {
    match rest case None => None case Some(nodes) => Some([node] + nodes)
  }

  // The part of RE2's syntax without groups, classes, alternatives and the other
  // repetitions: anchors, the dot, escaped and plain characters, and the star of
  // one character.
  function Syntax(re: string): Option<seq<Node>>
    decreases |re|, 0
  {
    if re == "" then Some([])
    else if re[0] == '^' then Prepend(Begin, Syntax(re[1..]))
    else if re[0] == '$' then Prepend(Finish, Syntax(re[1..]))
    else if re[0] == '.' then Repeated(Dot, re[1..])
    else if re[0] == '\\' then
      if |re| >= 2 && Meta(re[1]) then Repeated(Char(re[1]), re[2..]) else None
    else if Meta(re[0]) then None
    else Repeated(Char(re[0]), re[1..])
  }

  function Repeated(atom: Atom, re: string): Option<seq<Node>>
    decreases |re|, 1
  {
    if re != "" && re[0] == '*' then
      if |re| >= 2 && re[1] in {'*', '+', '?'} then None else Prepend(Star(atom), Syntax(re[1..]))
    else Prepend(One(atom), Syntax(re))
  }

  predicate Accepts(atom: Atom, c: char) {
    match atom case Dot => c != '\n' case Char(d) => c == d
  }

  // The nodes match some stretch of s that starts at i.
  predicate MatchesFrom(nodes: seq<Node>, s: string, i: nat)
    requires i <= |s|
    decreases |nodes|, |s| - i
  {
    if nodes == [] then true
    else
      match nodes[0]
      case Begin => i == 0 && MatchesFrom(nodes[1..], s, i)
      case Finish => i == |s| && MatchesFrom(nodes[1..], s, i)
      case One(atom) => i < |s| && Accepts(atom, s[i]) && MatchesFrom(nodes[1..], s, i + 1)
      case Star(atom) =>
        MatchesFrom(nodes[1..], s, i) || (i < |s| && Accepts(atom, s[i]) && MatchesFrom(nodes, s, i + 1))
  }

  // Regexp.MatchString: a match anywhere.
  ghost predicate Found(nodes: seq<Node>, s: string) {
    exists i: nat :: i <= |s| && MatchesFrom(nodes, s, i)
  }

  // ---------- globs ----------

  // A star is any run and a question mark any one character, neither crossing a
  // line feed; everything else is itself, as `same` compares characters.
  ghost predicate GlobMatches(g: string, s: string, same: (char, char) -> bool)
    decreases |g|
  {
    if g == "" then s == ""
    else if g[0] == '*' then
      exists k: nat :: k <= |s| && '\n' !in s[..k] && GlobMatches(g[1..], s[k..], same)
    else
      && s != ""
      && (if g[0] == '?' then s[0] != '\n' else same(g[0], s[0]))
      && GlobMatches(g[1..], s[1..], same)
  }

  function Equal(a: char, b: char): bool {
    a == b
  }

  function EqualIgnoringCase(a: char, b: char): bool {
    AsciiLower(a) == AsciiLower(b)
  }

  // regexp.QuoteMeta of one character.
  function QuoteMeta(c: char): string {
    if Meta(c) then ['\\', c] else [c]
  }

  function Piece(c: char): string {
    if c == '*' then ".*" else if c == '?' then "." else QuoteMeta(c)
  }

  function Pieces(g: string): string {
    if g == "" then "" else Piece(g[0]) + Pieces(g[1..])
  }

  function Compiled(g: string): string {
    "^" + Pieces(g) + "$"
  }

  method GlobToRegexp(g: string) returns (b: string)
    ensures b == Compiled(g)
  {
    b := "^";
    assert g[0..] == g;
    for i := 0 to |g|
      invariant b + Pieces(g[i..]) == "^" + Pieces(g)
    {
      var r := g[i];
      assert g[i..][0] == r && g[i..][1..] == g[i + 1..];
      Associates(b, Piece(r), Pieces(g[i + 1..]));
      hide Pieces, QuoteMeta;
      match r
      case '*' => b := b + ".*";
      case '?' => b := b + ".";
      case _ => b := b + QuoteMeta(r);
    }
    assert b == b + Pieces(g[|g|..]);
    b := b + "$";
  }

  // A star becomes any run and a question mark any character; what else has a
  // meaning to the regexp package is escaped; every other character stays.
  lemma PiecesOfCharacters(c: char)
    ensures Piece('*') == ".*" && Piece('?') == "."
    ensures c in "\\.+()|[]{}^$" ==> Piece(c) == ['\\', c]
    ensures c !in "\\.+()|[]{}^$*?" ==> Piece(c) == [c]
  {
    hide QuoteMeta;
    SpecialCharacters(c);
    assert QuoteMeta(c) == if Meta(c) then ['\\', c] else [c] by { QuotedOne(c); }
  }

  lemma QuotedOne(c: char)
    ensures QuoteMeta(c) == if Meta(c) then ['\\', c] else [c]
  {
  }

  lemma SpecialCharacters(c: char)
    ensures Meta(c) <==> c in "\\.+()|[]{}^$" || c == '*' || c == '?'
    ensures c in "\\.+()|[]{}^$*?" <==> Meta(c)
  {
    assert "\\.+()|[]{}^$*?" == "\\.+()|[]{}^$" + "*?";
    forall i | 0 <= i < |"\\.+()|[]{}^$"| ensures Meta("\\.+()|[]{}^$"[i]) {}
    assert "\\.+()|[]{}^$"[0] == '\\' && "\\.+()|[]{}^$"[1] == '.' && "\\.+()|[]{}^$"[2] == '+';
    assert "\\.+()|[]{}^$"[3] == '(' && "\\.+()|[]{}^$"[4] == ')' && "\\.+()|[]{}^$"[5] == '|';
    assert "\\.+()|[]{}^$"[6] == '[' && "\\.+()|[]{}^$"[7] == ']' && "\\.+()|[]{}^$"[8] == '{';
    assert "\\.+()|[]{}^$"[9] == '}' && "\\.+()|[]{}^$"[10] == '^' && "\\.+()|[]{}^$"[11] == '$';
    assert "*?"[0] == '*' && "*?"[1] == '?';
  }

  function NodeOf(c: char): Node {
    if c == '*' then Star(Dot) else if c == '?' then One(Dot) else One(Char(c))
  }

  function NodesOf(g: string): seq<Node> {
    if g == "" then [Finish] else [NodeOf(g[0])] + NodesOf(g[1..])
  }

  // The compiled expression is well formed, and each character of the glob is
  // one node of it: a quoted character never combines with its neighbours.
  lemma {:induction false} PiecesParse(g: string)
    ensures Syntax(Pieces(g) + "$") == Some(NodesOf(g))
    ensures (Pieces(g) + "$")[0] !in {'*', '+', '?'}
    decreases |g|
  {
    if g == "" {
      assert Pieces(g) + "$" == "$" && "$"[1..] == "";
      assert Syntax("") == Some([]);
      assert Syntax("$") == Prepend(Finish, Syntax(""));
      assert [Finish] + [] == [Finish];
    } else {
      var c, rest := g[0], Pieces(g[1..]) + "$";
      PiecesParse(g[1..]);
      assert Pieces(g) + "$" == Piece(c) + rest;
      PieceParses(c, rest);
    }
  }

  lemma PieceParses(c: char, rest: string)
    requires rest != "" && rest[0] !in {'*', '+', '?'}
    ensures Syntax(Piece(c) + rest) == Prepend(NodeOf(c), Syntax(rest))
    ensures (Piece(c) + rest)[0] !in {'*', '+', '?'}
  {
    var re := Piece(c) + rest;
    if c == '*' {
      assert re[1..] == "*" + rest && re[1..][1..] == rest;
      assert re[1..][1] == rest[0];
    } else if c == '?' || !Meta(c) {
      assert re[1..] == rest;
    } else {
      assert re[2..] == rest;
    }
  }

  lemma CompiledParses(g: string)
    ensures Syntax(Compiled(g)) == Some([Begin] + NodesOf(g))
  {
    PiecesParse(g);
    assert Compiled(g)[1..] == Pieces(g) + "$";
  }

  lemma {:induction false} NodesMatch(g: string, s: string, i: nat)
    requires i <= |s|
    ensures MatchesFrom(NodesOf(g), s, i) <==> GlobMatches(g, s[i..], Equal)
    decreases |g|
  {
    if g == "" {
      assert s[i..] == "" <==> i == |s|;
    } else if g[0] == '*' {
      StarMatches(g, s, i);
    } else {
      assert NodesOf(g)[1..] == NodesOf(g[1..]);
      assert i < |s| ==> s[i..][0] == s[i] && s[i..][1..] == s[i + 1..];
      hide NodesOf;
      if i < |s| {
        NodesMatch(g[1..], s, i + 1);
      }
    }
  }

  // The star taken one character at a time is a run of any length.
  lemma {:induction false} StarMatches(g: string, s: string, i: nat)
    requires i <= |s| && g != "" && g[0] == '*'
    ensures MatchesFrom(NodesOf(g), s, i) <==> GlobMatches(g, s[i..], Equal)
    decreases |g|, |s| - i
  {
    var nodes, rest := NodesOf(g), g[1..];
    assert nodes[1..] == NodesOf(rest) && nodes[0] == Star(Dot);
    NodesMatch(rest, s, i);
    if i < |s| {
      StarMatches(g, s, i + 1);
      if s[i] != '\n' { RunGrows(g, s, i); }
    }
    RunShrinks(g, s, i);
  }

  lemma RunGrows(g: string, s: string, i: nat)
    requires i < |s| && g != "" && g[0] == '*' && s[i] != '\n'
    ensures GlobMatches(g, s[i + 1..], Equal) ==> GlobMatches(g, s[i..], Equal)
  {
    var t, u := s[i..], s[i + 1..];
    if GlobMatches(g, u, Equal) {
      var k: nat :| k <= |u| && '\n' !in u[..k] && GlobMatches(g[1..], u[k..], Equal);
      assert t[..k + 1] == [s[i]] + u[..k] && t[k + 1..] == u[k..];
    }
  }

  lemma RunShrinks(g: string, s: string, i: nat)
    requires i <= |s| && g != "" && g[0] == '*'
    ensures GlobMatches(g, s[i..], Equal) <==>
      GlobMatches(g[1..], s[i..], Equal) || (i < |s| && s[i] != '\n' && GlobMatches(g, s[i + 1..], Equal))
  {
    var t := s[i..];
    if GlobMatches(g[1..], t, Equal) {
      assert t[..0] == "" && t[0..] == t;
    }
    if GlobMatches(g, t, Equal) {
      var k: nat :| k <= |t| && '\n' !in t[..k] && GlobMatches(g[1..], t[k..], Equal);
      if k == 0 {
        assert t[0..] == t;
      } else {
        var u := s[i + 1..];
        assert t[..k] == [s[i]] + u[..k - 1] && t[k..] == u[k - 1..];
        assert s[i] in t[..k];
      }
    } else if i < |s| && s[i] != '\n' {
      RunGrows(g, s, i);
    }
  }

  // For every glob and every text.
  lemma CompiledMatchesExactly(g: string, s: string)
    ensures Syntax(Compiled(g)).Some?
    ensures Found(Syntax(Compiled(g)).value, s) <==> GlobMatches(g, s, Equal)
  {
    CompiledParses(g);
    var nodes := [Begin] + NodesOf(g);
    assert nodes[1..] == NodesOf(g);
    NodesMatch(g, s, 0);
    assert s[0..] == s;
    assert MatchesFrom(nodes, s, 0) <==> GlobMatches(g, s, Equal);
  }

  // ---------- host names ----------

  // canonicalDNSCase, lowering a copy in place from the first capital on.
  method CanonicalDNSCase(s: string) returns (r: string)
    ensures r == ToAsciiLower(s)
  {
    for i := 0 to |s|
      invariant forall k :: 0 <= k < i ==> AsciiLower(s[k]) == s[k]
    {
      if s[i] < 'A' || s[i] > 'Z' {
        continue;
      }
      var b := new char[|s|](k requires 0 <= k < |s| => s[k]);
      for j := i to |s|
        invariant forall k :: 0 <= k < j ==> b[k] == AsciiLower(s[k])
        invariant forall k :: j <= k < |s| ==> b[k] == s[k]
      {
        if 'A' <= b[j] <= 'Z' {
          b[j] := (b[j] as int + 32) as char;
        }
      }
      return b[..];
    }
    return s;
  }

  // Folding both sides of a match is matching that ignores ASCII case: folding
  // moves no wildcard and makes none.
  lemma {:induction false} FoldedGlob(g: string, s: string)
    ensures GlobMatches(ToAsciiLower(g), ToAsciiLower(s), Equal) <==> GlobMatches(g, s, EqualIgnoringCase)
    decreases |g|
  {
    var fg, fs := ToAsciiLower(g), ToAsciiLower(s);
    if g == "" {
    } else {
      assert fg[1..] == ToAsciiLower(g[1..]);
      if g[0] == '*' {
        forall k: nat | k <= |s|
          ensures GlobMatches(fg[1..], fs[k..], Equal) <==> GlobMatches(g[1..], s[k..], EqualIgnoringCase)
          ensures '\n' !in fs[..k] <==> '\n' !in s[..k]
        {
          assert fs[k..] == ToAsciiLower(s[k..]);
          FoldedGlob(g[1..], s[k..]);
          SameBreaks(s, k);
        }
      } else if s != "" {
        assert fs[1..] == ToAsciiLower(s[1..]);
        FoldedGlob(g[1..], s[1..]);
      }
    }
  }

  lemma SameBreaks(s: string, k: nat)
    requires k <= |s|
    ensures '\n' !in ToAsciiLower(s)[..k] <==> '\n' !in s[..k]
  {
    var fs := ToAsciiLower(s);
    if '\n' in s[..k] {
      var i :| 0 <= i < k && s[i] == '\n';
      assert fs[..k][i] == '\n';
    }
    if '\n' in fs[..k] {
      var i :| 0 <= i < k && fs[i] == '\n';
      assert s[..k][i] == '\n';
    }
  }

  // ---------- conditions ----------

  datatype Field = Host | Path | Method | Protocol | Body | Any

  datatype Strategy = Substr | Glob | Regex | Exact

  datatype Target = Target(host: string, verb: string, path: string, protocol: string, body: string)

  function FieldOf(t: Target, f: Field): string {
    match f
    case Host => t.host
    case Method => t.verb
    case Path => t.path
    case Protocol => t.protocol
    case Body => t.body
    case Any => Join([t.host, t.verb, t.path, t.protocol, t.body], " ")
  }

  // Which part of the target each field is; Any is all of them, spaces between.
  lemma FieldsOfTarget(t: Target)
    ensures FieldOf(t, Host) == t.host && FieldOf(t, Method) == t.verb && FieldOf(t, Path) == t.path
    ensures FieldOf(t, Protocol) == t.protocol && FieldOf(t, Body) == t.body
    ensures FieldOf(t, Any) == t.host + " " + t.verb + " " + t.path + " " + t.protocol + " " + t.body
  {
    var h, v, p, r, b := t.host, t.verb, t.path, t.protocol, t.body;
    assert [h, v, p, r, b][1..] == [v, p, r, b] && [v, p, r, b][1..] == [p, r, b];
    assert [p, r, b][1..] == [r, b] && [r, b][1..] == [b];
    assert Join([r, b], " ") == r + " " + b;
    assert Join([p, r, b], " ") == p + " " + (r + " " + b);
    assert Join([v, p, r, b], " ") == v + " " + (p + " " + (r + " " + b));
  }

  // The regexp package: None when an expression does not compile.
  type Engine = string -> Option<string -> bool>

  // It gives the expressions of Syntax their meaning here.
  ghost predicate Faithful(engine: Engine) {
    forall re :: Syntax(re).Some? ==>
      engine(re).Some? && forall s :: engine(re).value(s) <==> Found(Syntax(re).value, s)
  }

  // What a condition without a regular expression of its own decides: on the
  // host, ASCII case is ignored; on every other field it counts.
  ghost predicate Holds(f: Field, strategy: Strategy, pattern: string, v: string)
    requires strategy != Regex
  {
    if f == Host then HoldsBy(strategy, pattern, v, EqualIgnoringCase) else HoldsBy(strategy, pattern, v, Equal)
  }

  ghost predicate HoldsBy(strategy: Strategy, pattern: string, v: string, same: (char, char) -> bool)
    requires strategy != Regex
  {
    match strategy
    case Substr => exists i: nat :: SameAt(pattern, v, i, same)
    case Exact => Same(pattern, v, same)
    case Glob => GlobMatches(pattern, v, same)
  }

  predicate Same(a: string, b: string, same: (char, char) -> bool) {
    |a| == |b| && forall i :: 0 <= i < |a| ==> same(a[i], b[i])
  }

  predicate SameAt(pattern: string, v: string, i: nat, same: (char, char) -> bool) {
    i + |pattern| <= |v| && Same(pattern, v[i..i + |pattern|], same)
  }

  lemma SameFolded(a: string, b: string)
    ensures ToAsciiLower(a) == ToAsciiLower(b) <==> Same(a, b, EqualIgnoringCase)
    ensures a == b <==> Same(a, b, Equal)
  {
    if ToAsciiLower(a) == ToAsciiLower(b) {
      forall i | 0 <= i < |a| ensures AsciiLower(a[i]) == AsciiLower(b[i]) {
        assert ToAsciiLower(a)[i] == ToAsciiLower(b)[i];
      }
    }
  }

  lemma ContainsIsSame(v: string, pattern: string)
    ensures Contains(v, pattern) <==> exists i: nat :: SameAt(pattern, v, i, Equal)
  {
    forall i: nat ensures SameAt(pattern, v, i, Equal) <==> At(v, pattern, i) {
      if i + |pattern| <= |v| { SameFolded(pattern, v[i..i + |pattern|]); }
    }
    if Contains(v, pattern) {
      assert SameAt(pattern, v, Index(v, pattern), Equal);
    }
  }

  lemma FoldedContains(v: string, pattern: string)
    ensures Contains(ToAsciiLower(v), ToAsciiLower(pattern)) <==>
      exists i: nat :: SameAt(pattern, v, i, EqualIgnoringCase)
  {
    var fv, fp := ToAsciiLower(v), ToAsciiLower(pattern);
    ContainsIsSame(fv, fp);
    forall i: nat ensures SameAt(fp, fv, i, Equal) <==> SameAt(pattern, v, i, EqualIgnoringCase) {
      if i + |pattern| <= |v| {
        SameFolded(pattern, v[i..i + |pattern|]);
        SameFolded(fp, fv[i..i + |pattern|]);
        assert fv[i..i + |pattern|] == ToAsciiLower(v[i..i + |pattern|]);
      }
    }
  }

  class Condition {
    const field: Field
    const strategy: Strategy
    const pattern: string
    const negate: bool
    var re: Option<string -> bool>

    constructor (field: Field, strategy: Strategy, pattern: string, negate: bool)
      ensures this.field == field && this.strategy == strategy && this.pattern == pattern && this.negate == negate
      ensures re == None
    {
      this.field, this.strategy, this.pattern, this.negate := field, strategy, pattern, negate;
      re := None;
    }

    // A glob is compiled to exactly the texts it matches - on the host, whatever
    // their case once the text is folded too.
    ghost predicate Ready()
      reads this
    {
      strategy == Glob ==> re.Some? && forall s ::
        re.value(s) <==> GlobMatches(if field == Host then ToAsciiLower(pattern) else pattern, s, Equal)
    }

    method Compile(engine: Engine) returns (ok: bool)
      requires Faithful(engine)
      modifies this
      ensures ok <==> (strategy == Regex ==> engine(pattern).Some?)
      ensures ok ==> Ready() && (strategy == Regex ==> re == engine(pattern))
      ensures !ok || strategy == Substr || strategy == Exact ==> re == old(re)
    {
      match strategy {
        case Regex =>
          var compiled := engine(pattern);
          if compiled.None? {
            return false;
          }
          re := compiled;
        case Glob =>
          var text := pattern;
          if field == Host {
            text := CanonicalDNSCase(text);
          }
          var expression := GlobToRegexp(text);
          CompiledParses(text);
          forall s ensures Found(Syntax(expression).value, s) <==> GlobMatches(text, s, Equal) {
            CompiledMatchesExactly(text, s);
          }
          var compiled := engine(expression);
          if compiled.None? {
            return false;
          }
          re := compiled;
        case _ =>
      }
      return true;
    }

    method Match(t: Target) returns (m: bool)
      ensures strategy != Regex && Ready() ==> m == (negate != Holds(field, strategy, pattern, FieldOf(t, field)))
      ensures strategy == Glob && re.None? ==> m == negate
      ensures strategy == Regex ==> m == (negate != (re.Some? && re.value(FieldOf(t, field))))
    {
      var v := FieldOf(t, field);
      ghost var given := v;
      var text := pattern;
      if field == Host && strategy != Regex {
        v := CanonicalDNSCase(v);
        if strategy == Substr || strategy == Exact {
          text := CanonicalDNSCase(text);
        }
      }
      match strategy {
        case Substr => m := Contains(v, text); ContainsIsSame(given, pattern); FoldedContains(given, pattern);
        case Exact => m := v == text; SameFolded(pattern, given);
        case _ => m := re.Some? && re.value(v); FoldedGlob(pattern, given);
      }
      if negate {
        return !m;
      }
    }
  }

  // A host condition decides the same for every ASCII spelling of its pattern
  // and of the host.
  lemma HostVerdictIgnoresCase(strategy: Strategy, p: string, q: string, v: string, w: string)
    requires strategy != Regex
    requires ToAsciiLower(p) == ToAsciiLower(q) && ToAsciiLower(v) == ToAsciiLower(w)
    ensures Holds(Host, strategy, p, v) <==> Holds(Host, strategy, q, w)
  {
    match strategy
    case Substr =>
      FoldedContains(v, p);
      FoldedContains(w, q);
    case Exact =>
      SameFolded(p, v);
      SameFolded(q, w);
    case Glob =>
      FoldedGlob(p, v);
      FoldedGlob(q, w);
  }
}
