// Text handed to a POSIX shell: quoting, the command string of an interactive
// login shell, and the curl export, each against a small lexer for the POSIX
// Shell Command Language. Strings are Unicode texts, one character a code point.
module Shell {
  import opened Common
  import opened Text
  import opened Sorting

  // ---------- a shell's reading ----------

  // A word: its text once quotes are removed, the part of it before any quoting,
  // and whether there was no quoting at all.
  datatype Word = Word(text: string, lead: string, bare: bool)

  datatype State = Between | Unquoted(w: Word) | InSingle(w: Word) | InDouble(w: Word)

  const NOTHING := Word("", "", true)

  function Bare(text: string): Word {
    Word(text, text, true)
  }

  predicate Blank(c: char) {
    c == ' ' || c == '\t'
  }

  // A character that stands for itself outside quotes. The others quote, expand,
  // separate words or commands, or - the last three - may match file names
  // (sections 2.2 and 2.13).
  predicate Literal(c: char) {
    c !in {'|', '&', ';', '<', '>', '(', ')', '$', '`', '\\', '"', '\'', ' ', '\t', '\n', '\0', '*', '?', '['}
  }

  // At the start of a word these are special as well: a comment (section 2.3)
  // and a tilde prefix (section 2.6.1). Anywhere else they stand for themselves.
  predicate SpecialFirst(c: char) {
    c == '#' || c == '~'
  }

  function Plus(w: Word, c: char): Word {
    Word(w.text + [c], if w.bare then w.lead + [c] else w.lead, w.bare)
  }

  function Escaped(w: Word, c: char): Word {
    Word(w.text + [c], w.lead, false)
  }

  function Cons(w: Word, rest: Option<seq<Word>>): Option<seq<Word>> {
    match rest case None => None case Some(words) => Some([w] + words)
  }

  // The words of a line that is one simple command without expansions: sections
  // 2.2.1 to 2.2.3 (quoting) and 2.3 (token recognition). A line with any other
  // unquoted meaning, an open quote or a NUL has no such reading.
  function Lex(s: string, st: State): Option<seq<Word>>
    decreases |s|, if st.Between? then 1 else 0
  {
    match st
    case Between =>
      if s == "" then Some([])
      else if Blank(s[0]) then Lex(s[1..], Between)
      else if |s| >= 2 && s[..2] == "\\\n" then Lex(s[2..], Between)
      else Lex(s, Unquoted(NOTHING))
    case Unquoted(w) =>
      if s == "" then Some([w])
      else if Blank(s[0]) then Cons(w, Lex(s[1..], Between))
      else if s[0] == '\'' then Lex(s[1..], InSingle(w.(bare := false)))
      else if s[0] == '"' then Lex(s[1..], InDouble(w.(bare := false)))
      else if s[0] == '\\' then
        if |s| == 1 || s[1] == '\0' then None
        else if s[1] == '\n' then Lex(s[2..], Unquoted(w))
        else Lex(s[2..], Unquoted(Escaped(w, s[1])))
      else if Literal(s[0]) && !(w == NOTHING && SpecialFirst(s[0])) then Lex(s[1..], Unquoted(Plus(w, s[0])))
      else None
    case InSingle(w) =>
      if s == "" || s[0] == '\0' then None
      else if s[0] == '\'' then Lex(s[1..], Unquoted(w))
      else Lex(s[1..], InSingle(Escaped(w, s[0])))
    case InDouble(w) =>
      if s == "" || s[0] in "$`\0" then None
      else if s[0] == '"' then Lex(s[1..], Unquoted(w))
      else if s[0] == '\\' && |s| >= 2 && s[1] == '\n' then Lex(s[2..], InDouble(w))
      else if s[0] == '\\' && |s| >= 2 && s[1] in "$`\"\\" then Lex(s[2..], InDouble(Escaped(w, s[1])))
      else Lex(s[1..], InDouble(Escaped(w, s[0])))
  }

  function Words(line: string): Option<seq<Word>> {
    Lex(line, Between)
  }

  function Texts(words: seq<Word>): (texts: seq<string>)
    ensures |texts| == |words|
  {
    seq(|words|, i requires 0 <= i < |words| => words[i].text)
  }

  predicate NulFree(s: string) {
    forall i :: 0 <= i < |s| ==> s[i] != '\0'
  }

  predicate NameChar(c: char) {
    'a' <= c <= 'z' || 'A' <= c <= 'Z' || '0' <= c <= '9' || c == '_'
  }

  // Section 2.10.2, rule 7: a leading word with an unquoted name and equals sign
  // assigns a variable; it is not the command's name. (Its value undergoes more
  // expansions than an argument does; it is not read further here.)
  predicate Assigns(w: Word) {
    var i := Index(w.lead, "=");
    i > 0 && !('0' <= w.lead[0] <= '9') && forall j :: 0 <= j < i ==> NameChar(w.lead[j])
  }

  predicate IsName(s: string) {
    s != "" && !('0' <= s[0] <= '9') && forall i :: 0 <= i < |s| ==> NameChar(s[i])
  }

  // What a shell does not take for a command name beyond what the standard says:
  // the further words it reserves (bash and zsh among others: time, coproc,
  // repeat, foreach), its further forms of assignment (a+=b), its aliases, its job
  // names.
  type Dialect = string -> bool

  // Section 2.4: recognised as the first word of a command, unless quoted - the
  // reserved words, the words and the names with a colon that have unspecified
  // results, and what the shell adds.
  predicate Reserved(w: Word, dialect: Dialect) {
    w.bare &&
    (|| w.text in {"!", "{", "}", "case", "do", "done", "elif", "else", "esac", "fi", "for", "if", "in", "then",
                   "until", "while"}
     || w.text in {"[[", "]]", "function", "select"}
     || (w.text != "" && w.text[|w.text| - 1] == ':' && IsName(w.text[..|w.text| - 1]))
     || dialect(w.text))
  }

  // The line runs the first word as a command, with the others as arguments.
  predicate Runs(line: string, argv: seq<string>, dialect: Dialect) {
    match Words(line)
    case None => false
    case Some(words) => words != [] && !Assigns(words[0]) && !Reserved(words[0], dialect) && Texts(words) == argv
  }

  // ---------- quoting ----------

  const QUOTE := "'"
  const REQUOTE := "'\\''"

  // shellquote.Single.
  function Single(s: string): string {
    QUOTE + ReplaceAll(s, QUOTE, REQUOTE) + QUOTE
  }

  function Requoted(s: string): string {
    if s == "" then "" else (if s[0] == '\'' then REQUOTE else [s[0]]) + Requoted(s[1..])
  }

  lemma {:induction false} ReplacedIsRequoted(s: string)
    ensures ReplaceAll(s, QUOTE, REQUOTE) == Requoted(s)
    decreases |s|
  {
    if s != "" {
      hide Split, Join;
      ReplacedIsRequoted(s[1..]);
      var parts := Split(s[1..], QUOTE);
      if s[0] == '\'' {
        SplitAtQuote(s);
        JoinFront([], "", parts, REQUOTE);
      } else {
        SplitShifted(s);
        JoinFront([s[0]], parts[0], parts[1..], REQUOTE);
        assert parts == [parts[0]] + parts[1..];
      }
    }
  }

  lemma SplitAtQuote(s: string)
    requires s != "" && s[0] == '\''
    ensures Split(s, QUOTE) == [""] + Split(s[1..], QUOTE)
  {
    assert At(s, QUOTE, 0);
    IndexIs(s, QUOTE, 0);
  }

  lemma JoinFront(front: string, first: string, rest: seq<string>, sep: string)
    ensures Join([front + first] + rest, sep) == front + Join([first] + rest, sep)
    ensures rest != [] ==> Join([first] + rest, sep) == first + sep + Join(rest, sep)
  {
    assert ([front + first] + rest)[1..] == rest && ([first] + rest)[1..] == rest;
  }

  lemma IndexShifted(s: string)
    requires s != "" && s[0] != '\''
    ensures Index(s, QUOTE) == if Index(s[1..], QUOTE) < 0 then -1 else Index(s[1..], QUOTE) + 1
  {
    hide IndexFrom;
    var t := s[1..];
    forall k | 0 <= k ensures At(s, QUOTE, k) <==> k > 0 && At(t, QUOTE, k - 1) {
      QuoteAt(s, k);
      if k > 0 { QuoteAt(t, k - 1); }
    }
    hide At;
    var j := Index(t, QUOTE);
    if j < 0 {
      IndexNone(s, QUOTE);
    } else {
      IndexIs(s, QUOTE, j + 1);
    }
  }

  lemma QuoteAt(s: string, k: int)
    requires 0 <= k
    ensures At(s, QUOTE, k) <==> k < |s| && s[k] == '\''
  {
    if k < |s| { assert s[k..k + 1] == [s[k]]; }
  }

  lemma SplitShifted(s: string)
    requires s != "" && s[0] != '\''
    ensures Split(s, QUOTE) == [[s[0]] + Split(s[1..], QUOTE)[0]] + Split(s[1..], QUOTE)[1..]
  {
    var t := s[1..];
    var j := Index(t, QUOTE);
    IndexShifted(s);
    hide Index;
    assert s == [s[0]] + t;
    if j >= 0 {
      assert s[..j + 1] == [s[0]] + t[..j];
      assert s[j + 2..] == t[j + 1..];
    }
  }

  function PlusAll(w: Word, s: string): Word {
    Word(w.text + s, w.lead, false)
  }

  // Inside single quotes, the text up to the closing quote is taken as it is,
  // and each quote in it through the closed, escaped and reopened form.
  lemma {:induction false} RequotedRead(s: string, rest: string, w: Word)
    requires NulFree(s) && !w.bare
    ensures Lex(Requoted(s) + QUOTE + rest, InSingle(w)) == Lex(rest, Unquoted(PlusAll(w, s)))
    decreases |s|
  {
    if s == "" {
      var line := Requoted(s) + QUOTE + rest;
      assert line == QUOTE + rest && line[1..] == rest;
      assert PlusAll(w, s) == w;
    } else {
      var after := Requoted(s[1..]) + QUOTE + rest;
      assert PlusAll(Escaped(w, s[0]), s[1..]) == PlusAll(w, s) by { assert w.text + [s[0]] + s[1..] == w.text + s; }
      RequotedFirst(s, rest, w);
      hide Lex, Requoted, PlusAll;
      RequotedRead(s[1..], rest, Escaped(w, s[0]));
    }
  }

  lemma RequotedFirst(s: string, rest: string, w: Word)
    requires NulFree(s) && s != "" && !w.bare
    ensures Lex(Requoted(s) + QUOTE + rest, InSingle(w)) ==
      Lex(Requoted(s[1..]) + QUOTE + rest, InSingle(Escaped(w, s[0])))
  {
    var line, after := Requoted(s) + QUOTE + rest, Requoted(s[1..]) + QUOTE + rest;
    if s[0] == '\'' {
      assert line == REQUOTE + after;
      hide Lex;
      ReopenedQuote(after, w);
    } else {
      assert line == [s[0]] + after && line[1..] == after;
    }
  }

  lemma ReopenedQuote(after: string, w: Word)
    requires !w.bare
    ensures Lex(REQUOTE + after, InSingle(w)) == Lex(after, InSingle(Escaped(w, '\'')))
  {
    var line := REQUOTE + after;
    assert line[1..] == "\\''" + after;
    assert line[1..][2..] == QUOTE + after;
    assert (QUOTE + after)[1..] == after;
    assert Lex(line, InSingle(w)) == Lex(line[1..], Unquoted(w));
    assert Lex(line[1..], Unquoted(w)) == Lex(QUOTE + after, Unquoted(Escaped(w, '\'')));
    assert Escaped(w, '\'').(bare := false) == Escaped(w, '\'');
  }

  lemma WordStarts(line: string)
    requires line != "" && !Blank(line[0]) && line[0] != '\\'
    ensures Lex(line, Between) == Lex(line, Unquoted(NOTHING))
  {
  }

  lemma QuoteOpens(line: string)
    requires line != "" && line[0] == '\''
    ensures Lex(line, Between) == Lex(line[1..], InSingle(NOTHING.(bare := false)))
  {
    WordStarts(line);
  }

  lemma SingleOpens(s: string, rest: string)
    ensures Lex(Single(s) + rest, Between) == Lex(Requoted(s) + QUOTE + rest, InSingle(NOTHING.(bare := false)))
  {
    ReplacedIsRequoted(s);
    var line := Single(s) + rest;
    hide Lex, ReplaceAll, Requoted;
    assert line[1..] == Requoted(s) + QUOTE + rest;
    QuoteOpens(line);
  }

  // A quoted string is one word, with exactly the string's characters.
  lemma SingleRead(s: string, rest: string)
    requires NulFree(s)
    ensures Lex(Single(s) + rest, Between) == Lex(rest, Unquoted(Word(s, "", false)))
  {
    hide Lex, Single, Requoted, NulFree;
    SingleOpens(s, rest);
    RequotedRead(s, rest, NOTHING.(bare := false));
    assert "" + s == s;
  }

  // ---------- lines of words ----------

  function Then(r: Option<seq<Word>>, q: Option<seq<Word>>): Option<seq<Word>> {
    if r.Some? && q.Some? then Some(r.value + q.value) else None
  }

  // Before a blank or the end, part reads as r.
  ghost predicate Reads(part: string, r: Option<seq<Word>>) {
    forall rest :: rest == "" || Blank(rest[0]) ==> Lex(part + rest, Between) == Then(r, Lex(rest, Between))
  }

  lemma ReadsAlone(line: string, r: Option<seq<Word>>)
    requires Reads(line, r)
    ensures Words(line) == r
  {
    assert line + "" == line;
    assert Lex(line + "", Between) == Then(r, Lex("", Between));
    if r.Some? { assert r.value + [] == r.value; }
  }

  // Parts are put together with a blank, or continued on an indented line.
  predicate Gap(gap: string) {
    gap == " " || gap == " \\\n  "
  }

  lemma GapRead(gap: string, rest: string)
    requires Gap(gap)
    ensures Lex(gap + rest, Between) == Lex(rest, Between)
  {
    assert (gap + rest)[1..] == gap[1..] + rest;
    if gap != " " {
      var line := gap[1..] + rest;
      assert line[..2] == "\\\n" && line[2..] == "  " + rest;
      assert ("  " + rest)[1..] == " " + rest && (" " + rest)[1..] == rest;
      assert Lex(gap + rest, Between) == Lex(line, Between) == Lex("  " + rest, Between);
      assert Lex("  " + rest, Between) == Lex(" " + rest, Between);
    } else {
      assert gap[1..] + rest == rest;
    }
  }

  lemma ReadsTogether(a: string, gap: string, b: string, r: Option<seq<Word>>, q: Option<seq<Word>>)
    requires Reads(a, r) && Reads(b, q) && Gap(gap)
    ensures Reads(a + gap + b, Then(r, q))
  {
    hide Lex;
    forall rest | rest == "" || Blank(rest[0])
      ensures Lex(a + gap + b + rest, Between) == Then(Then(r, q), Lex(rest, Between))
    {
      var tail := gap + (b + rest);
      assert a + gap + b + rest == a + tail;
      assert Lex(a + tail, Between) == Then(r, Lex(tail, Between));
      GapRead(gap, b + rest);
      ThenAssociates(r, q, Lex(rest, Between));
    }
  }

  lemma ThenAssociates(r: Option<seq<Word>>, q: Option<seq<Word>>, t: Option<seq<Word>>)
    ensures Then(Then(r, q), t) == Then(r, Then(q, t))
  {
    if r.Some? && q.Some? && t.Some? { assert r.value + q.value + t.value == r.value + (q.value + t.value); }
  }

  lemma EndOfWord(w: Word, rest: string)
    requires rest == "" || Blank(rest[0])
    ensures Lex(rest, Unquoted(w)) == Then(Some([w]), Lex(rest, Between))
  {
    if rest == "" {
      assert [w] + [] == [w];
    }
  }

  function SingleMeans(s: string): Option<seq<Word>> {
    if NulFree(s) then Some([Word(s, "", false)]) else None
  }

  lemma {:induction false} RequotedNul(s: string, rest: string, w: Word)
    requires !NulFree(s) && !w.bare
    ensures Lex(Requoted(s) + QUOTE + rest, InSingle(w)) == None
    decreases |s|
  {
    var line, after := Requoted(s) + QUOTE + rest, Requoted(s[1..]) + QUOTE + rest;
    if s[0] != '\0' {
      RequotedNul(s[1..], rest, Escaped(w, s[0]));
      if s[0] == '\'' {
        assert line == REQUOTE + after;
        ReopenedQuote(after, w);
      } else {
        assert line == [s[0]] + after && line[1..] == after;
      }
    }
  }

  lemma SingleReads(s: string)
    ensures Reads(Single(s), SingleMeans(s))
  {
    forall rest | rest == "" || Blank(rest[0])
      ensures Lex(Single(s) + rest, Between) == Then(SingleMeans(s), Lex(rest, Between))
    {
      hide Lex, Single, NulFree;
      if NulFree(s) {
        SingleRead(s, rest);
        EndOfWord(Word(s, "", false), rest);
      } else {
        SingleOpens(s, rest);
        RequotedNul(s, rest, NOTHING.(bare := false));
      }
    }
  }

  // A text that an unquoted word can consist of.
  predicate AllLiteral(s: string) {
    s != "" && !SpecialFirst(s[0]) && forall i :: 0 <= i < |s| ==> Literal(s[i])
  }

  lemma {:induction false} LiteralRun(s: string, rest: string, done: string)
    requires (forall i :: 0 <= i < |s| ==> Literal(s[i])) && (done == "" && s != "" ==> !SpecialFirst(s[0]))
    ensures Lex(s + rest, Unquoted(Word(done, done, true))) == Lex(rest, Unquoted(Word(done + s, done + s, true)))
    decreases |s|
  {
    if s == "" {
      assert s + rest == rest && done + s == done;
    } else {
      assert (s + rest)[1..] == s[1..] + rest;
      assert done + [s[0]] + s[1..] == done + s;
      LiteralRun(s[1..], rest, done + [s[0]]);
    }
  }

  lemma LiteralStarts(s: string, rest: string)
    requires AllLiteral(s)
    ensures Lex(s + rest, Between) == Lex(rest, Unquoted(Bare(s)))
  {
    assert (s + rest)[0] == s[0] && Literal(s[0]);
    WordStarts(s + rest);
    LiteralRun(s, rest, "");
    assert "" + s == s;
  }

  lemma LiteralReads(s: string)
    requires AllLiteral(s)
    ensures Reads(s, Some([Bare(s)]))
  {
    hide Lex, AllLiteral;
    forall rest | rest == "" || Blank(rest[0])
      ensures Lex(s + rest, Between) == Then(Some([Bare(s)]), Lex(rest, Between))
    {
      LiteralStarts(s, rest);
      EndOfWord(Bare(s), rest);
    }
  }

  // A word being read that has had no quoting so far.
  predicate Sound(w: Word) {
    w.bare ==> w.lead == w.text && (w.text == "" || AllLiteral(w.text))
  }

  // A word without quoting has only characters that need none.
  lemma {:induction false} BareIsLiteral(s: string, st: State, i: nat)
    requires st.Between? || Sound(st.w)
    requires Lex(s, st).Some? && i < |Lex(s, st).value|
    ensures Sound(Lex(s, st).value[i])
    decreases |s|, if st.Between? then 1 else 0
  {
    hide Literal;
    match st
    case Between =>
      if s == "" {
      } else if Blank(s[0]) {
        BareIsLiteral(s[1..], Between, i);
      } else if |s| >= 2 && s[..2] == "\\\n" {
        BareIsLiteral(s[2..], Between, i);
      } else {
        BareIsLiteral(s, Unquoted(NOTHING), i);
      }
    case Unquoted(w) =>
      if s == "" {
      } else if Blank(s[0]) {
        if i > 0 { BareIsLiteral(s[1..], Between, i - 1); }
      } else if s[0] == '\'' {
        BareIsLiteral(s[1..], InSingle(w.(bare := false)), i);
      } else if s[0] == '"' {
        BareIsLiteral(s[1..], InDouble(w.(bare := false)), i);
      } else if s[0] == '\\' {
        BareIsLiteral(s[2..], if s[1] == '\n' then Unquoted(w) else Unquoted(Escaped(w, s[1])), i);
      } else {
        BareIsLiteral(s[1..], Unquoted(Plus(w, s[0])), i);
      }
    case InSingle(w) =>
      BareIsLiteral(s[1..], if s[0] == '\'' then Unquoted(w) else InSingle(Escaped(w, s[0])), i);
    case InDouble(w) =>
      if s[0] == '"' {
        BareIsLiteral(s[1..], Unquoted(w), i);
      } else if s[0] == '\\' && |s| >= 2 && s[1] == '\n' {
        BareIsLiteral(s[2..], InDouble(w), i);
      } else if s[0] == '\\' && |s| >= 2 && s[1] in "$`\"\\" {
        BareIsLiteral(s[2..], InDouble(Escaped(w, s[1])), i);
      } else {
        BareIsLiteral(s[1..], InDouble(Escaped(w, s[0])), i);
      }
  }

  // ---------- the interactive shell's command ----------

  const FALLBACK_SHELL := "/bin/sh"

  function LoginShell(shellVariable: string): seq<string> {
    [if shellVariable == "" then FALLBACK_SHELL else shellVariable]
  }

  // The regular expression ^[A-Za-z0-9_.:@%+=/-]+$.
  predicate PlainWord(s: string) {
    s != "" && forall i :: 0 <= i < |s| ==> NameChar(s[i]) || s[i] in {'.', ':', '@', '%', '+', '=', '/', '-'}
  }

  function Parts(argv: seq<string>): seq<string>
    requires argv != []
  {
    [if PlainWord(argv[0]) then argv[0] else Single(argv[0])] +
    seq(|argv| - 1, i requires 0 <= i < |argv| - 1 => Single(argv[i + 1]))
  }

  function CommandLine(argv: seq<string>): string
    requires argv != []
  {
    Join(Parts(argv), " ")
  }

  method ShellCommand(argv: seq<string>, shellVariable: string) returns (r: seq<string>)
    ensures r == [if shellVariable == "" then "/bin/sh" else shellVariable] +
      if argv == [] then [] else ["-i", "-c", CommandLine(argv)]
  {
    assert LoginShell(shellVariable) + [] == LoginShell(shellVariable);
    hide Single, PlainWord, Join;
    if |argv| == 0 {
      return LoginShell(shellVariable);
    }
    var parts := [];
    if PlainWord(argv[0]) {
      parts := parts + [argv[0]];
    } else {
      parts := parts + [Single(argv[0])];
    }
    for i := 1 to |argv|
      invariant parts == Parts(argv)[..i]
    {
      parts := parts + [Single(argv[i])];
    }
    assert parts == Parts(argv);
    return LoginShell(shellVariable) + ["-i", "-c", Join(parts, " ")];
  }

  // Only the first argument may stay bare, and it does if it is made of letters,
  // digits and these nine characters alone.
  lemma BareCharacters(s: string)
    ensures PlainWord(s) <==> s != "" && forall i :: 0 <= i < |s| ==>
      || 'a' <= s[i] <= 'z' || 'A' <= s[i] <= 'Z' || '0' <= s[i] <= '9'
      || s[i] in {'_', '.', ':', '@', '%', '+', '=', '/', '-'}
  {
  }

  lemma PartsOfCommand(argv: seq<string>)
    requires argv != []
    ensures |Parts(argv)| == |argv|
    ensures Parts(argv)[0] == if PlainWord(argv[0]) then argv[0] else Single(argv[0])
    ensures forall i :: 1 <= i < |argv| ==> Parts(argv)[i] == Single(argv[i])
  {
  }

  function QuotedWords(argv: seq<string>): (words: seq<Word>)
    ensures |words| == |argv|
  {
    seq(|argv|, i requires 0 <= i < |argv| => Word(argv[i], "", false))
  }

  predicate AllNulFree(argv: seq<string>) {
    forall i :: 0 <= i < |argv| ==> NulFree(argv[i])
  }

  // The words the arguments are quoted into.
  function QuotedMeans(argv: seq<string>): Option<seq<Word>> {
    if AllNulFree(argv) then Some(QuotedWords(argv)) else None
  }

  lemma QuotedMeansMore(a: string, rest: seq<string>)
    ensures QuotedMeans([a] + rest) == Then(SingleMeans(a), QuotedMeans(rest))
  {
    var all := [a] + rest;
    assert AllNulFree(all) <==> NulFree(a) && AllNulFree(rest) by {
      assert all[0] == a && all[1..] == rest;
      forall i | 0 <= i < |rest| ensures all[i + 1] == rest[i] {}
    }
    assert QuotedWords(all) == [Word(a, "", false)] + QuotedWords(rest);
  }

  function FirstMeans(a: string): Option<seq<Word>> {
    if PlainWord(a) then Some([Word(a, a, true)]) else SingleMeans(a)
  }

  lemma PlainIsLiteral(a: string)
    requires PlainWord(a)
    ensures AllLiteral(a)
  {
    hide Literal;
    forall i | 0 <= i < |a| ensures Literal(a[i]) { PlainCharIsLiteral(a[i]); }
  }

  lemma PlainCharIsLiteral(c: char)
    requires NameChar(c) || c in {'.', ':', '@', '%', '+', '=', '/', '-'}
    ensures Literal(c)
  {
  }

  lemma {:induction false} JoinedReads(first: string, r: Option<seq<Word>>, argv: seq<string>)
    requires Reads(first, r)
    ensures Reads(
      Join([first] + seq(|argv|, i requires 0 <= i < |argv| => Single(argv[i])), " "), Then(r, QuotedMeans(argv)))
    decreases |argv|
  {
    hide Reads, Single;
    var parts := seq(|argv|, i requires 0 <= i < |argv| => Single(argv[i]));
    if argv == [] {
      assert [first] + parts == [first] && QuotedWords(argv) == [];
      assert Then(r, QuotedMeans(argv)) == r by { if r.Some? { assert r.value + [] == r.value; } }
    } else {
      var rest := argv[1..];
      var more := seq(|rest|, i requires 0 <= i < |rest| => Single(rest[i]));
      assert parts == [Single(argv[0])] + more && argv == [argv[0]] + rest;
      SingleReads(argv[0]);
      JoinedReads(Single(argv[0]), SingleMeans(argv[0]), rest);
      assert ([first] + parts)[1..] == parts;
      assert Join([first] + parts, " ") == first + " " + Join(parts, " ");
      QuotedMeansMore(argv[0], rest);
      ReadsTogether(first, " ", Join(parts, " "), r, QuotedMeans(argv));
    }
  }

  lemma CommandLineMeans(argv: seq<string>)
    requires argv != []
    ensures Words(CommandLine(argv)) == Then(FirstMeans(argv[0]), QuotedMeans(argv[1..]))
  {
    var a, rest := argv[0], argv[1..];
    var first := Parts(argv)[0];
    assert Parts(argv) == [first] + seq(|rest|, i requires 0 <= i < |rest| => Single(rest[i]));
    assert first == if PlainWord(a) then a else Single(a);
    hide Lex, Reads, Single, PlainWord, Parts, Join;
    if PlainWord(a) {
      PlainIsLiteral(a);
      LiteralReads(a);
    } else {
      SingleReads(a);
    }
    JoinedReads(first, FirstMeans(a), rest);
    ReadsAlone(CommandLine(argv), Then(FirstMeans(a), QuotedMeans(rest)));
  }

  lemma MeansArguments(argv: seq<string>)
    requires argv != []
    ensures var means := Then(FirstMeans(argv[0]), QuotedMeans(argv[1..]));
      (means.Some? && Texts(means.value) == argv) <==> AllNulFree(argv)
  {
    var a, rest := argv[0], argv[1..];
    assert argv == [a] + rest;
    assert PlainWord(a) ==> NulFree(a) by { if PlainWord(a) { PlainIsLiteral(a); } }
    hide PlainWord, NulFree;
    assert AllNulFree(argv) <==> NulFree(a) && AllNulFree(rest) by {
      forall i | 0 <= i < |rest| ensures argv[i + 1] == rest[i] {}
    }
    if AllNulFree(argv) {
      assert Texts(Then(FirstMeans(a), QuotedMeans(rest)).value) == argv;
    }
  }

  // The command string reads as exactly the arguments, if and only if none of
  // them holds a NUL.
  lemma CommandLineReads(argv: seq<string>)
    requires argv != []
    ensures Words(CommandLine(argv)) == Then(FirstMeans(argv[0]), QuotedMeans(argv[1..]))
    ensures (Words(CommandLine(argv)).Some? && Texts(Words(CommandLine(argv)).value) == argv) <==> AllNulFree(argv)
  {
    hide CommandLine, Words, FirstMeans, QuotedMeans, Then, AllNulFree;
    CommandLineMeans(argv);
    MeansArguments(argv);
  }

  // Whatever shell runs the string: it runs the first argument as a command,
  // unless that is left bare and reads as an assignment (FOO=bar) or as a word
  // reserved by the standard (if, select, label:) or by the shell. Those are
  // plain words, and they are not quoted.
  lemma CommandLineRunsIff(argv: seq<string>, dialect: Dialect)
    requires argv != [] && AllNulFree(argv)
    ensures Runs(CommandLine(argv), argv, dialect) <==>
      !(PlainWord(argv[0]) && (Assigns(Bare(argv[0])) || Reserved(Bare(argv[0]), dialect)))
  {
    CommandLineReads(argv);
    hide CommandLine, PlainWord, Lex;
    var words := Words(CommandLine(argv)).value;
    assert words[0] == FirstMeans(argv[0]).value[0];
    assert Index("", "=") == -1;
  }

  lemma AssignmentIsNotRun(dialect: Dialect)
    ensures !Runs(CommandLine(["A=b", "x"]), ["A=b", "x"], dialect)
    ensures !Runs(CommandLine(["if"]), ["if"], dialect)
    ensures !Runs(CommandLine(["select"]), ["select"], dialect)
    ensures !Runs(CommandLine(["a:"]), ["a:"], dialect)
  {
    AssignsVariable();
    ReservedExamples(dialect);
    PlainExamples();
    hide Index, CommandLine, Lex, Runs, Assigns, NameChar, PlainWord, Reserved;
    CommandLineRunsIff(["A=b", "x"], dialect);
    CommandLineRunsIff(["if"], dialect);
    CommandLineRunsIff(["select"], dialect);
    CommandLineRunsIff(["a:"], dialect);
  }

  lemma ReservedExamples(dialect: Dialect)
    ensures Reserved(Bare("select"), dialect) && Reserved(Bare("if"), dialect) && Reserved(Bare("a:"), dialect)
  {
    assert IsName("a") && "a:"[..1] == "a";
  }

  lemma AssignsVariable()
    ensures Assigns(Word("A=b", "A=b", true))
  {
    assert "A=b"[0..1] == "A" && "A=b"[1..2] == "=";
    IndexIs("A=b", "=", 1);
    hide Index;
  }

  lemma PlainExamples()
    ensures PlainWord("A=b") && PlainWord("if") && PlainWord("select") && PlainWord("a:")
  {
  }

  // ---------- the curl export ----------

  datatype Request = Request(meta: map<string, string>, headers: map<string, seq<string>>, body: string)

  datatype Flow = Flow(protocol: string, secure: bool, serverAddr: string, request: Option<Request>)

  datatype Refusal = NotExportable(protocol: string)

  predicate Exportable(f: Flow) {
    f.protocol in ["http/1.1", "http/2", "grpc"] && f.request.Some?
  }

  // What net.SplitHostPort finds in an address, when it accepts it.
  type AddressSplitter = string -> Option<(string, string)>

  function MetaOf(r: Request, key: string): string {
    if key in r.meta then r.meta[key] else ""
  }

  function FlowUrl(split: AddressSplitter, f: Flow): string
    requires f.request.Some?
  {
    var scheme := if f.secure then "https" else "http";
    var host := match split(f.serverAddr)
      case Some((h, port)) => if port == (if f.secure then "443" else "80") then h else f.serverAddr
      case None => f.serverAddr;
    scheme + "://" + host + MetaOf(f.request.value, "path")
  }

  function MethodOf(f: Flow): string
    requires f.request.Some?
  {
    var m := MetaOf(f.request.value, "method");
    if m != "" then m else "GET"
  }

  // strings.EqualFold with "Host": the long s folds to s as well.
  predicate IsHost(k: string) {
    |k| == 4 && k[0] in "hH" && k[1] in "oO" && (k[2] in "sS" || k[2] as int == 0x17f) && k[3] in "tT"
  }

  // ---------- what the export is made of ----------

  // The address: the scheme by the connection, the port left out where it is the
  // scheme's own, then the path.
  lemma AddressOfFlow(split: AddressSplitter, f: Flow, host: string, port: string)
    requires f.request.Some?
    ensures var path := if "path" in f.request.value.meta then f.request.value.meta["path"] else "";
      && (split(f.serverAddr) == Some((host, port)) ==>
            && (f.secure && port == "443" ==> FlowUrl(split, f) == "https://" + host + path)
            && (!f.secure && port == "80" ==> FlowUrl(split, f) == "http://" + host + path)
            && (f.secure && port != "443" ==> FlowUrl(split, f) == "https://" + f.serverAddr + path)
            && (!f.secure && port != "80" ==> FlowUrl(split, f) == "http://" + f.serverAddr + path))
      && (split(f.serverAddr).None? ==>
            FlowUrl(split, f) == (if f.secure then "https://" else "http://") + f.serverAddr + path)
  {
  }

  lemma MethodOfFlow(f: Flow)
    requires f.request.Some?
    ensures var meta := f.request.value.meta;
      MethodOf(f) == if "method" in meta && meta["method"] != "" then meta["method"] else "GET"
  {
  }

  lemma WhatCanBeExported(f: Flow)
    ensures Exportable(f) <==> f.request.Some? && f.protocol in {"http/1.1", "http/2", "grpc"}
  {
    assert "http/1.1" in ["http/1.1", "http/2", "grpc"];
  }

  // The header that is left out, as strings.EqualFold takes its name.
  lemma HostNames(k: string)
    ensures IsHost("Host") && IsHost("host") && IsHost("HOST") && !IsHost("Hosts") && !IsHost("X-Host")
    ensures |k| != 4 ==> !IsHost(k)
    ensures |k| == 4 ==> (IsHost(k) <==>
      ToLower(k[..2]) == "ho" && (ToLower(k[2..3]) == "s" || k[2] as int == 0x17f) && ToLower(k[3..]) == "t")
  {
    if |k| == 4 {
      assert ToLower(k[..2]) == [Lower(k[0]), Lower(k[1])] && ToLower(k[2..3]) == [Lower(k[2])];
      assert ToLower(k[3..]) == [Lower(k[3])];
    }
  }

  // The arguments after the address: each value of each header but Host, named,
  // and the body if there is one; nothing else.
  lemma {:induction false} HeaderArgumentsAre(k: string, values: seq<string>)
    ensures |HeaderArguments(k, values)| == |values|
    ensures forall i :: 0 <= i < |values| ==> HeaderArguments(k, values)[i] == Argument("-H", k + ": " + values[i])
    decreases |values|
  {
    if values != [] {
      HeaderArgumentsAre(k, values[1..]);
    }
  }

  lemma HeadersInTurn(h: map<string, seq<string>>, k: string, rest: seq<string>)
    requires k in h && forall x :: x in rest ==> x in h
    ensures HeadersArguments(h, []) == []
    ensures HeadersArguments(h, [k] + rest) ==
      (if IsHost(k) then [] else HeaderArguments(k, h[k])) + HeadersArguments(h, rest)
  {
    assert ([k] + rest)[1..] == rest;
    hide IsHost;
  }

  lemma ArgumentsOfRequest(r: Request)
    ensures Arguments(r) == HeadersArguments(r.headers, KeysInOrder(r.headers)) +
      if r.body != "" then [Argument("--data-binary", r.body)] else []
  {
  }

  const CONTINUED := " \\\n  "

  // The options after the address, each with its one argument.
  datatype Argument = Argument(option: string, value: string)

  function HeaderArguments(k: string, values: seq<string>): seq<Argument> {
    if values == [] then [] else [Argument("-H", k + ": " + values[0])] + HeaderArguments(k, values[1..])
  }

  function HeadersArguments(h: map<string, seq<string>>, keys: seq<string>): seq<Argument>
    requires forall k :: k in keys ==> k in h
  {
    if keys == [] then []
    else (if IsHost(keys[0]) then [] else HeaderArguments(keys[0], h[keys[0]])) + HeadersArguments(h, keys[1..])
  }

  // What the command is to be given: every header but Host, then the body.
  ghost function Arguments(r: Request): seq<Argument> {
    HeadersArguments(r.headers, KeysInOrder(r.headers)) +
    (if r.body == "" then [] else [Argument("--data-binary", r.body)])
  }

  function Continuations(arguments: seq<Argument>): string {
    if arguments == [] then ""
    else CONTINUED + arguments[0].option + " " + Single(arguments[0].value) + Continuations(arguments[1..])
  }

  ghost function CurlText(split: AddressSplitter, f: Flow): string
    requires f.request.Some?
  {
    "curl -X " + MethodOf(f) + " " + Single(FlowUrl(split, f)) + Continuations(Arguments(f.request.value))
  }

  lemma {:induction false} ContinuationsAppend(a: seq<Argument>, b: seq<Argument>)
    ensures Continuations(a + b) == Continuations(a) + Continuations(b)
    decreases |a|
  {
    hide Single;
    if a == [] {
      assert a + b == b;
    } else {
      assert (a + b)[1..] == a[1..] + b;
      ContinuationsAppend(a[1..], b);
    }
  }

  method Curl(split: AddressSplitter, f: Flow) returns (r: Result<string, Refusal>)
    ensures r == if Exportable(f) then Ok(CurlText(split, f)) else Err(NotExportable(f.protocol))
  {
    if !Exportable(f) {
      return Err(NotExportable(f.protocol));
    }
    hide Single, FlowUrl, MethodOf, Continuations, HeadersArguments, KeysInOrder;
    var b := "curl -X " + MethodOf(f) + " " + Single(FlowUrl(split, f));
    ghost var start := b;
    var h := f.request.value.headers;
    var keys := SortedKeys(h);
    b := WriteHeaders(b, h, keys);
    var body := f.request.value.body;
    if |body| > 0 {
      BodyArgument(start, HeadersArguments(h, keys), body);
      b := b + " \\\n  --data-binary " + Single(body);
    } else {
      assert HeadersArguments(h, keys) + [] == HeadersArguments(h, keys);
    }
    return Ok(b);
  }

  lemma BodyArgument(start: string, arguments: seq<Argument>, body: string)
    ensures start + Continuations(arguments + [Argument("--data-binary", body)]) ==
      start + Continuations(arguments) + " \\\n  --data-binary " + Single(body)
  {
    hide Single;
    var last := [Argument("--data-binary", body)];
    ContinuationsAppend(arguments, last);
    assert CONTINUED + "--data-binary" + " " == " \\\n  --data-binary ";
    LastContinuation(last);
    Regrouped(start, Continuations(arguments), " \\\n  --data-binary ", Single(body));
  }

  lemma LastContinuation(last: seq<Argument>)
    requires |last| == 1
    ensures Continuations(last) == CONTINUED + last[0].option + " " + Single(last[0].value)
  {
    hide Single;
    assert Continuations(last[1..]) == "";
  }

  lemma Regrouped(a: string, b: string, c: string, d: string)
    ensures a + (b + (c + d)) == a + b + c + d
  {
  }

  method WriteHeaders(start: string, h: map<string, seq<string>>, keys: seq<string>) returns (b: string)
    requires forall k :: k in keys ==> k in h
    ensures b == start + Continuations(HeadersArguments(h, keys))
  {
    hide Single;
    b := start;
    for i := 0 to |keys|
      invariant b + Continuations(HeadersArguments(h, keys[i..])) == start + Continuations(HeadersArguments(h, keys))
    {
      var k := keys[i];
      assert keys[i..][1..] == keys[i + 1..];
      NextHeaderKey(h, keys[i..]);
      if IsHost(k) {
        continue;
      }
      ghost var before := b;
      for j := 0 to |h[k]|
        invariant b + Continuations(HeaderArguments(k, h[k][j..])) == before + Continuations(HeaderArguments(k, h[k]))
      {
        NextHeader(b, k, h[k][j..]);
        b := b + " \\\n  -H " + Single(k + ": " + h[k][j]);
        assert h[k][j..][1..] == h[k][j + 1..];
      }
      assert b == before + Continuations(HeaderArguments(k, h[k])) by {
        assert Continuations(HeaderArguments(k, h[k][|h[k]|..])) == "";
        assert b + "" == b;
      }
      Regroup(before, b, Continuations(HeaderArguments(k, h[k])), Continuations(HeadersArguments(h, keys[i + 1..])));
    }
  }

  lemma Regroup(before: string, after: string, x: string, y: string)
    requires after == before + x
    ensures after + y == before + (x + y)
  {
  }

  lemma NextHeader(b: string, k: string, values: seq<string>)
    requires values != []
    ensures b + Continuations(HeaderArguments(k, values)) ==
      (b + " \\\n  -H " + Single(k + ": " + values[0])) + Continuations(HeaderArguments(k, values[1..]))
  {
    hide Single;
    assert CONTINUED + "-H" + " " == " \\\n  -H ";
  }

  lemma NextHeaderKey(h: map<string, seq<string>>, keys: seq<string>)
    requires keys != [] && (forall k :: k in keys ==> k in h)
    ensures Continuations(HeadersArguments(h, keys)) ==
      if IsHost(keys[0]) then Continuations(HeadersArguments(h, keys[1..]))
      else Continuations(HeaderArguments(keys[0], h[keys[0]])) + Continuations(HeadersArguments(h, keys[1..]))
  {
    hide Single, IsHost;
    var rest := HeadersArguments(h, keys[1..]);
    assert [] + rest == rest;
    ContinuationsAppend(HeaderArguments(keys[0], h[keys[0]]), rest);
  }

  // ---------- the export, read by a shell ----------

  function ArgumentWords(arguments: seq<Argument>): seq<Word> {
    if arguments == [] then []
    else [Bare(arguments[0].option), Word(arguments[0].value, "", false)] + ArgumentWords(arguments[1..])
  }

  predicate ValuesNulFree(arguments: seq<Argument>) {
    forall i :: 0 <= i < |arguments| ==> NulFree(arguments[i].value)
  }

  predicate OptionsLiteral(arguments: seq<Argument>) {
    forall i :: 0 <= i < |arguments| ==> AllLiteral(arguments[i].option)
  }

  function ArgumentsMean(arguments: seq<Argument>): Option<seq<Word>> {
    if ValuesNulFree(arguments) then Some(ArgumentWords(arguments)) else None
  }

  lemma ArgumentsMeanMore(arguments: seq<Argument>, r: Option<seq<Word>>)
    requires arguments != []
    ensures Then(r, ArgumentsMean(arguments)) ==
      Then(Then(Then(r, Some([Bare(arguments[0].option)])), SingleMeans(arguments[0].value)),
        ArgumentsMean(arguments[1..]))
  {
    hide NulFree;
    var a, rest := arguments[0], arguments[1..];
    assert ValuesNulFree(arguments) <==> NulFree(a.value) && ValuesNulFree(rest) by {
      assert arguments == [a] + rest;
      forall i | 0 <= i < |rest| ensures arguments[i + 1] == rest[i] {}
    }
    if r.Some? && ValuesNulFree(arguments) {
      assert r.value + ArgumentWords(arguments) ==
        r.value + [Bare(a.option)] + [Word(a.value, "", false)] + ArgumentWords(rest);
    }
  }

  lemma {:induction false} ContinuedReads(line: string, r: Option<seq<Word>>, arguments: seq<Argument>)
    requires Reads(line, r) && OptionsLiteral(arguments)
    ensures Reads(line + Continuations(arguments), Then(r, ArgumentsMean(arguments)))
    decreases |arguments|
  {
    hide Reads, Single, AllLiteral, Lex;
    if arguments == [] {
      assert line + "" == line;
      assert Then(r, Some([])) == r by { if r.Some? { assert r.value + [] == r.value; } }
    } else {
      var a := arguments[0];
      LiteralReads(a.option);
      ReadsTogether(line, CONTINUED, a.option, r, Some([Bare(a.option)]));
      var named := line + CONTINUED + a.option;
      SingleReads(a.value);
      ReadsTogether(named, " ", Single(a.value), Then(r, Some([Bare(a.option)])), SingleMeans(a.value));
      ContinuedReads(named + " " + Single(a.value),
        Then(Then(r, Some([Bare(a.option)])), SingleMeans(a.value)), arguments[1..]);
      ArgumentsMeanMore(arguments, r);
      NextContinuation(line, arguments);
    }
  }

  lemma NextContinuation(line: string, arguments: seq<Argument>)
    requires arguments != []
    ensures line + Continuations(arguments) ==
      line + CONTINUED + arguments[0].option + " " + Single(arguments[0].value) + Continuations(arguments[1..])
  {
    hide Single;
  }

  lemma {:induction false} HeaderOptionsLiteral(h: map<string, seq<string>>, keys: seq<string>)
    requires forall k :: k in keys ==> k in h
    ensures OptionsLiteral(HeadersArguments(h, keys))
    decreases |keys|
  {
    if keys != [] {
      ValueOptionsLiteral(keys[0], h[keys[0]]);
      HeaderOptionsLiteral(h, keys[1..]);
    }
  }

  lemma {:induction false} ValueOptionsLiteral(k: string, values: seq<string>)
    ensures OptionsLiteral(HeaderArguments(k, values))
    decreases |values|
  {
    if values != [] {
      ValueOptionsLiteral(k, values[1..]);
    }
  }

  // What the copied command is meant to be.
  ghost function IntendedWords(split: AddressSplitter, f: Flow): seq<Word>
    requires f.request.Some?
  {
    [Bare("curl"), Bare("-X"), Bare(MethodOf(f)), Word(FlowUrl(split, f), "", false)] +
      ArgumentWords(Arguments(f.request.value))
  }

  ghost predicate NothingHoldsNul(split: AddressSplitter, f: Flow)
    requires f.request.Some?
  {
    NulFree(FlowUrl(split, f)) && ValuesNulFree(Arguments(f.request.value))
  }

  lemma CurlStartReads(m: string, url: string)
    requires AllLiteral(m)
    ensures Reads("curl -X " + m + " " + Single(url), Then(Some([Bare("curl"), Bare("-X"), Bare(m)]), SingleMeans(url)))
  {
    CurlOptionReads();
    hide Reads, Single, AllLiteral, Lex, NulFree;
    LiteralReads(m);
    SingleReads(url);
    ReadsTogether("curl -X", " ", m, Some([Bare("curl"), Bare("-X")]), Some([Bare(m)]));
    assert [Bare("curl"), Bare("-X")] + [Bare(m)] == [Bare("curl"), Bare("-X"), Bare(m)];
    assert "curl -X" + " " == "curl -X ";
    ReadsTogether("curl -X " + m, " ", Single(url), Some([Bare("curl"), Bare("-X"), Bare(m)]), SingleMeans(url));
  }

  lemma CurlOptionReads()
    ensures Reads("curl -X", Some([Bare("curl"), Bare("-X")]))
  {
    assert AllLiteral("curl") && AllLiteral("-X");
    hide Reads, AllLiteral, Lex;
    LiteralReads("curl");
    LiteralReads("-X");
    ReadsTogether("curl", " ", "-X", Some([Bare("curl")]), Some([Bare("-X")]));
    assert "curl" + " " + "-X" == "curl -X";
    assert [Bare("curl")] + [Bare("-X")] == [Bare("curl"), Bare("-X")];
  }

  lemma WholeCommand(m: string, url: string, arguments: seq<Argument>)
    ensures Then(Then(Some([Bare("curl"), Bare("-X"), Bare(m)]), SingleMeans(url)), ArgumentsMean(arguments)) ==
      if NulFree(url) && ValuesNulFree(arguments)
      then Some([Bare("curl"), Bare("-X"), Bare(m), Word(url, "", false)] + ArgumentWords(arguments)) else None
  {
    hide NulFree, ValuesNulFree, ArgumentWords;
    assert [Bare("curl"), Bare("-X"), Bare(m)] + [Word(url, "", false)] ==
      [Bare("curl"), Bare("-X"), Bare(m), Word(url, "", false)];
  }

  lemma CurlLineReads(m: string, url: string, arguments: seq<Argument>)
    requires AllLiteral(m) && OptionsLiteral(arguments)
    ensures Words("curl -X " + m + " " + Single(url) + Continuations(arguments)) ==
      Then(Then(Some([Bare("curl"), Bare("-X"), Bare(m)]), SingleMeans(url)), ArgumentsMean(arguments))
  {
    hide Reads, Single, AllLiteral, Lex, OptionsLiteral, Continuations, Words, Then, SingleMeans, ArgumentsMean;
    CurlStartReads(m, url);
    var line := "curl -X " + m + " " + Single(url);
    var r := Then(Some([Bare("curl"), Bare("-X"), Bare(m)]), SingleMeans(url));
    ContinuedReads(line, r, arguments);
    ReadsAlone(line + Continuations(arguments), Then(r, ArgumentsMean(arguments)));
  }

  lemma ArgumentsLiteral(r: Request)
    ensures OptionsLiteral(Arguments(r))
  {
    hide AllLiteral;
    HeaderOptionsLiteral(r.headers, KeysInOrder(r.headers));
    BodyOptionLiteral();
  }

  lemma BodyOptionLiteral()
    ensures AllLiteral("--data-binary")
  {
  }

  lemma CurlReadsGivenMethod(split: AddressSplitter, f: Flow)
    requires f.request.Some? && AllLiteral(MethodOf(f))
    ensures Words(CurlText(split, f)) == if NothingHoldsNul(split, f) then Some(IntendedWords(split, f)) else None
  {
    var m, url, arguments := MethodOf(f), FlowUrl(split, f), Arguments(f.request.value);
    ArgumentsLiteral(f.request.value);
    hide Single, AllLiteral, FlowUrl, MethodOf, Arguments, OptionsLiteral, NulFree, ValuesNulFree, Continuations,
      ArgumentWords, Words, Then, SingleMeans, ArgumentsMean;
    CurlLineReads(m, url, arguments);
    WholeCommand(m, url, arguments);
  }

  // The exported text is read as exactly the intended command if and only if the
  // method, the one word that is not quoted, needs no quoting, and nothing holds
  // a NUL.
  lemma CurlReadsIff(split: AddressSplitter, f: Flow)
    requires f.request.Some?
    ensures Words(CurlText(split, f)) == Some(IntendedWords(split, f)) <==>
      AllLiteral(MethodOf(f)) && NothingHoldsNul(split, f)
  {
    assert IntendedWords(split, f)[2] == Bare(MethodOf(f));
    if AllLiteral(MethodOf(f)) {
      CurlReadsGivenMethod(split, f);
    } else if Words(CurlText(split, f)) == Some(IntendedWords(split, f)) {
      hide CurlText, Literal, FlowUrl, Arguments, ArgumentWords;
      BareIsLiteral(CurlText(split, f), Between, 2);
    }
  }

  // Characters of a method that need no quoting, wherever they are but first,
  // and some that do.
  lemma MethodExamples()
    ensures AllLiteral("GET") && AllLiteral("A#B") && AllLiteral("A~!{}B")
    ensures !AllLiteral("#A") && !AllLiteral("A|B") && !AllLiteral("A&B")
  {
    assert "A|B"[1] == '|' && "A&B"[1] == '&';
  }

  // A method with an operator in it - A|B and A&B are methods HTTP allows - is cut
  // there: a control operator ends the command, and < or > redirects, so that the
  // export is no longer one plain command.
  lemma OperatorSplitsCommand(split: AddressSplitter, f: Flow, front: string, c: char, tail: string)
    requires f.request.Some? && MethodOf(f) == front + [c] + tail
    requires (front == "" || AllLiteral(front)) && c in {'|', '&', ';', '<', '>', '(', ')'}
    ensures Words(CurlText(split, f)) == None
  {
    var after := tail + " " + Single(FlowUrl(split, f)) + Continuations(Arguments(f.request.value));
    CutAfterOption(split, f, front, c, tail);
    OperatorEnds(front, c, after);
    hide Lex, Single, FlowUrl, Continuations, Arguments, MethodOf, CurlText, AllLiteral;
    UnreadableAfterOption(front + ([c] + after));
  }

  lemma UnreadableAfterOption(line: string)
    requires Lex(line, Between) == None
    ensures Lex("curl -X" + (" " + line), Between) == None
  {
    CurlOptionReads();
    hide Lex;
    GapRead(" ", line);
    assert Lex("curl -X" + (" " + line), Between) == Then(Some([Bare("curl"), Bare("-X")]), Lex(" " + line, Between));
  }

  lemma OperatorEnds(front: string, c: char, after: string)
    requires (front == "" || AllLiteral(front)) && c in {'|', '&', ';', '<', '>', '(', ')'}
    ensures Lex(front + ([c] + after), Between) == None
  {
    if front == "" {
      assert front + ([c] + after) == [c] + after;
      WordStarts([c] + after);
    } else {
      hide AllLiteral;
      LiteralStarts(front, [c] + after);
    }
  }

  lemma CutAfterOption(split: AddressSplitter, f: Flow, front: string, c: char, tail: string)
    requires f.request.Some? && MethodOf(f) == front + [c] + tail
    ensures CurlText(split, f) == "curl -X" + (" " + (front + ([c] +
      (tail + " " + Single(FlowUrl(split, f)) + Continuations(Arguments(f.request.value))))))
  {
    hide Single, FlowUrl, Continuations, Arguments, MethodOf;
    assert "curl -X " == "curl -X" + " ";
  }
}
