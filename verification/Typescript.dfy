/** The text typed at the TempleOS shell to land the agent: every source line that matters as one
    `A("...")` statement, and the lexer that reads those statements back. */
module Typescript {
  import opened Bytes
  import opened Lines

  const NL := '\n'
  const CR := '\r'

  /** Unicode's `White_Space`. */
  predicate IsWhitespace(c: char) {
    var v := c as int;
    || 0x09 <= v <= 0x0d || v == 0x20 || v == 0x85 || v == 0xa0 || v == 0x1680
    || 0x2000 <= v <= 0x200a || v == 0x2028 || v == 0x2029 || v == 0x202f || v == 0x205f || v == 0x3000
  }

  function TrimEnd(s: string): (r: string) {
    if s != [] && IsWhitespace(s[|s| - 1]) then TrimEnd(s[..|s| - 1]) else s
  }

  function TrimStart(s: string): (r: string) {
    if s != [] && IsWhitespace(s[0]) then TrimStart(s[1..]) else s
  }

  /** A trimmed line that is blank or only a comment. */
  predicate Dropped(line: string) {
    var t := TrimStart(line);
    t == [] || (2 <= |t| && t[0] == '/' && t[1] == '/')
  }

  function Kept(lines: seq<string>): (kept: seq<string>) {
    if lines == [] then []
    else
      var line := TrimEnd(lines[|lines| - 1]);
      Kept(lines[..|lines| - 1]) + if Dropped(line) then [] else [line]
  }

  function Escaped(c: char): (s: string) {
    if c == '\\' then ['\\', '\\'] else if c == '"' then ['\\', '"'] else [c]
  }

  function Escape(line: string): (s: string) {
    if line == [] then [] else Escape(line[..|line| - 1]) + Escaped(line[|line| - 1])
  }

  const OPENING: string := ['A', '(', '"']
  const CLOSING: string := ['"', ')', ';', '\n']

  function Statement(line: string): (s: string) { OPENING + Escape(line) + CLOSING }

  function Statements(lines: seq<string>): (s: string) {
    if lines == [] then [] else Statements(lines[..|lines| - 1]) + Statement(lines[|lines| - 1])
  }

  const PREAMBLE: string :=
    "U8 *g_src=MAlloc(200000);I64 g_n=0;\n"
    + "U0 A(U8 *s){I64 l=StrLen(s);MemCpy(g_src+g_n,s,l);g_n+=l;g_src[g_n++]='\\n';}\n"

  /** The call behind the statements. */
  const SAVING: string := "FileWrite"
  const TRAILER: string :=
    SAVING + "(\"~/VmlabAgt.HC\",g_src,g_n);Free(g_src);\n" + "#include \"~/VmlabAgt\"\n" + "VmlabAgentInstall;\n"

  function KeptLines(source: string): (kept: seq<string>) { Kept(LinesOf(source, NL, CR)) }

  function Typescript(source: string): (s: string) {
    PREAMBLE + Statements(KeptLines(source)) + TRAILER
  }

  method EscapeInto(out: string, line: string) returns (r: string)
    ensures r == out + Escape(line)
  {
    r := out;
    for i := 0 to |line|
      invariant r == out + Escape(line[..i])
    {
      assert line[..i + 1][..i] == line[..i];
      r := r + Escaped(line[i]);
    }
    assert line[..|line|] == line;
  }

  method TempleosTypescript(source: string) returns (out: string)
    ensures out == Typescript(source)
  {
    out := PREAMBLE;
    var lines := LinesOf(source, NL, CR);
    out := TypeLines(out, lines);
    out := out + TRAILER;
  }

  method TypeLine(start: string, line: string) returns (out: string)
    ensures out == start + Statement(line)
  {
    out := start + OPENING;
    out := EscapeInto(out, line);
    out := out + CLOSING;
  }

  method TypeLines(start: string, lines: seq<string>) returns (out: string)
    ensures out == start + Statements(Kept(lines))
  {
    out := start;
    for i := 0 to |lines|
      invariant out == start + Statements(Kept(lines[..i]))
    {
      assert lines[..i + 1] == lines[..i] + [lines[i]];
      KeptThen(lines[..i], lines[i]);
      var line := TrimEnd(lines[i]);
      if Dropped(line) { continue; }
      StatementsThen(Kept(lines[..i]), line);
      Assoc(start, Statements(Kept(lines[..i])), Statement(line));
      out := TypeLine(out, line);
    }
    assert lines[..|lines|] == lines;
  }

  lemma KeptThen(lines: seq<string>, line: string)
    ensures Kept(lines + [line])
            == if Dropped(TrimEnd(line)) then Kept(lines) else Kept(lines) + [TrimEnd(line)]
  {
    assert (lines + [line])[..|lines|] == lines;
  }

  lemma StatementsThen(lines: seq<string>, line: string)
    ensures Statements(lines + [line]) == Statements(lines) + Statement(line)
  {
    assert (lines + [line])[..|lines|] == lines;
  }

  // Reading it back.

  datatype Lexed<+T> = Lexed(value: T, rest: string)

  /** The string literal whose opening quote has been read: up to the first unescaped quote. */
  function LexLiteral(s: string): (r: Option<Lexed<string>>)
    ensures r.Some? ==> |r.value.rest| < |s|
  {
    if s == [] then None
    else if s[0] == '"' then Some(Lexed([], s[1..]))
    else if s[0] == '\\' then
      if |s| < 2 || (s[1] != '\\' && s[1] != '"') then None
      else
        match LexLiteral(s[2..])
        case None => None
        case Some(Lexed(v, rest)) => Some(Lexed([s[1]] + v, rest))
    else
      match LexLiteral(s[1..])
      case None => None
      case Some(Lexed(v, rest)) => Some(Lexed([s[0]] + v, rest))
  }

  predicate StartsWith(s: string, prefix: string) { prefix <= s }

  /** All `A("...");` statements at the start. */
  function LexStatements(s: string): (r: Option<Lexed<seq<string>>>)
    decreases |s|
  {
    if !StartsWith(s, OPENING) then Some(Lexed([], s))
    else
      match LexLiteral(s[3..])
      case None => None
      case Some(Lexed(line, rest)) =>
        if !StartsWith(rest, CLOSING[1..]) then None
        else
          match LexStatements(rest[3..])
          case None => None
          case Some(Lexed(lines, end)) => Some(Lexed([line] + lines, end))
  }

  /** The lines a typescript lands. */
  function Lex(s: string): (r: Option<seq<string>>) {
    if !StartsWith(s, PREAMBLE) then None
    else
      match LexStatements(s[|PREAMBLE|..])
      case None => None
      case Some(Lexed(lines, rest)) => if rest == TRAILER then Some(lines) else None
  }

  lemma LastApart<T>(s: seq<T>, more: seq<T>)
    requires s != []
    ensures s[..|s| - 1] + ([s[|s| - 1]] + more) == s + more
  {
  }

  lemma LexEscaped(c: char, s: string, v: string, rest: string)
    requires LexLiteral(s) == Some(Lexed(v, rest))
    ensures LexLiteral(Escaped(c) + s) == Some(Lexed([c] + v, rest))
  {
    var all := Escaped(c) + s;
    if c == '\\' || c == '"' { assert all[2..] == s; } else { assert all[1..] == s; }
  }

  /** No literal ends early: lexing undoes escaping for every line. */
  lemma {:induction false} LexOfEscape(line: string, s: string, v: string, rest: string, all: string)
    requires LexLiteral(s) == Some(Lexed(v, rest)) && all == Escape(line) + s
    ensures LexLiteral(all) == Some(Lexed(line + v, rest))
    decreases |line|
  {
    if line == [] {
      assert all == s && line + v == v;
    } else {
      var n := |line| - 1;
      LexEscaped(line[n], s, v, rest);
      Assoc(Escape(line[..n]), Escaped(line[n]), s);
      LexOfEscape(line[..n], Escaped(line[n]) + s, [line[n]] + v, rest, all);
      LastApart(line, v);
    }
  }

  lemma LexClosing(s: string)
    ensures LexLiteral(CLOSING + s) == Some(Lexed([], CLOSING[1..] + s))
    ensures StartsWith(CLOSING[1..] + s, CLOSING[1..]) && (CLOSING[1..] + s)[3..] == s
  {
    assert (CLOSING + s)[1..] == CLOSING[1..] + s;
  }

  lemma LexOfStatement(line: string, s: string, lines: seq<string>, rest: string)
    requires LexStatements(s) == Some(Lexed(lines, rest))
    ensures LexStatements(Statement(line) + s) == Some(Lexed([line] + lines, rest))
  {
    var all, tail := Statement(line) + s, CLOSING + s;
    assert all == OPENING + (Escape(line) + tail);
    assert all[3..] == Escape(line) + tail;
    LexClosing(s);
    LexOfEscape(line, tail, [], CLOSING[1..] + s, all[3..]);
    assert line + [] == line;
  }

  lemma LastStatement(lines: seq<string>, s: string)
    requires lines != []
    ensures Statements(lines) + s
            == Statements(lines[..|lines| - 1]) + (Statement(lines[|lines| - 1]) + s)
  {
    Assoc(Statements(lines[..|lines| - 1]), Statement(lines[|lines| - 1]), s);
  }

  lemma {:induction false} LexOfStatements(lines: seq<string>, s: string, more: seq<string>, rest: string, all: string)
    requires LexStatements(s) == Some(Lexed(more, rest)) && all == Statements(lines) + s
    ensures LexStatements(all) == Some(Lexed(lines + more, rest))
    decreases |lines|
  {
    if lines == [] {
      assert all == s && lines + more == more;
    } else {
      var n := |lines| - 1;
      var last := Statement(lines[n]) + s;
      LexOfStatement(lines[n], s, more, rest);
      LastStatement(lines, s);
      LexOfStatements(lines[..n], last, [lines[n]] + more, rest, all);
      LastApart(lines, more);
    }
  }

  /** For every source text, lexing the typescript recovers exactly its right-trimmed lines that
      are neither blank nor only a comment. */
  lemma LexOfTypescript(source: string)
    ensures Lex(Typescript(source)) == Some(KeptLines(source))
  {
    var lines := KeptLines(source);
    assert LexStatements(TRAILER) == Some(Lexed([], TRAILER)) by { assert TRAILER[0] == SAVING[0] == 'F'; }
    LexOfStatements(lines, TRAILER, [], TRAILER, Statements(lines) + TRAILER);
    assert lines + [] == lines;
    Assoc(PREAMBLE, Statements(lines), TRAILER);
    Behind(PREAMBLE, Statements(lines) + TRAILER);
  }

  lemma Behind(a: string, b: string)
    ensures a <= a + b && (a + b)[|a|..] == b
  {
  }

  // Typing what was recovered types the same again.

  predicate NoNewline(line: string) { NL !in line }

  /** A line the printer keeps: it has no newline, ends in no white space, and is not dropped. */
  predicate Settled(line: string) {
    NoNewline(line) && line != [] && !IsWhitespace(line[|line| - 1]) && !Dropped(line)
  }

  /** `TrimEnd` drops white space from the end, all of it and nothing else. */
  lemma {:induction false} TrimEndIs(s: string)
    ensures TrimEnd(s) <= s && (TrimEnd(s) == [] || !IsWhitespace(TrimEnd(s)[|TrimEnd(s)| - 1]))
    ensures forall i | |TrimEnd(s)| <= i < |s| :: IsWhitespace(s[i])
    decreases |s|
  {
    if s != [] && IsWhitespace(s[|s| - 1]) { TrimEndIs(s[..|s| - 1]); }
  }

  lemma {:induction false} TrimStartIs(s: string)
    ensures |TrimStart(s)| <= |s| && TrimStart(s) == s[|s| - |TrimStart(s)|..]
    ensures TrimStart(s) == [] || !IsWhitespace(TrimStart(s)[0])
    ensures forall i | 0 <= i < |s| - |TrimStart(s)| :: IsWhitespace(s[i])
    decreases |s|
  {
    if s != [] && IsWhitespace(s[0]) { TrimStartIs(s[1..]); }
  }

  /** Where a line's first two characters that are not white space are slashes, or there are none. */
  predicate CommentAt(line: string, i: nat) {
    && i <= |line| && (forall j | 0 <= j < i :: IsWhitespace(line[j]))
    && (i == |line| || (i + 2 <= |line| && line[i] == '/' && line[i + 1] == '/'))
  }

  /** Exactly blank lines and comment-only lines are dropped. */
  lemma DroppedIff(line: string)
    ensures Dropped(line) <==> exists i: nat :: CommentAt(line, i)
  {
    TrimStartIs(line);
    var k := |line| - |TrimStart(line)|;
    if Dropped(line) { assert CommentAt(line, k); }
    forall i: nat | CommentAt(line, i) ensures Dropped(line) { CommentIsDropped(line, i); }
  }

  lemma CommentIsDropped(line: string, i: nat)
    requires CommentAt(line, i)
    ensures Dropped(line)
  {
    TrimStartIs(line);
    var k := |line| - |TrimStart(line)|;
    assert i < |line| ==> !IsWhitespace(line[i]);
    assert k < |line| ==> !IsWhitespace(line[k]);
    assert i == k;
  }

  /** Lines are kept or dropped one by one, in order. */
  lemma {:induction false} KeptConcat(a: seq<string>, b: seq<string>)
    ensures Kept(a + b) == Kept(a) + Kept(b)
    decreases |b|
  {
    if b == [] {
      assert a + b == a && Kept(a) + [] == Kept(a);
    } else {
      var n := |b| - 1;
      KeptConcat(a, b[..n]);
      assert a + b == a + b[..n] + [b[n]] && b == b[..n] + [b[n]];
      KeptThen(a + b[..n], b[n]);
      KeptThen(b[..n], b[n]);
      Assoc(Kept(a), Kept(b[..n]), [TrimEnd(b[n])]);
    }
  }

  lemma StripHasNoNewline(piece: string)
    requires PieceOk(piece, NL)
    ensures NoNewline(Strip(piece, NL, CR))
  {
  }

  lemma LinesHaveNoNewline(s: string)
    ensures forall i | 0 <= i < |LinesOf(s, NL, CR)| :: NoNewline(LinesOf(s, NL, CR)[i])
  {
    PiecesAre(s, NL);
    var pieces := Pieces(s, NL);
    forall i | 0 <= i < |pieces| { StripHasNoNewline(pieces[i]); }
  }

  predicate AllSettled(lines: seq<string>) { forall i | 0 <= i < |lines| :: Settled(lines[i]) }

  lemma TrimmedIsSettled(line: string)
    requires NoNewline(line) && !Dropped(TrimEnd(line))
    ensures Settled(TrimEnd(line))
  {
    TrimEndIs(line);
    assert forall j | 0 <= j < |TrimEnd(line)| :: TrimEnd(line)[j] == line[j];
  }

  lemma {:induction false} KeptIsSettled(lines: seq<string>)
    requires forall i | 0 <= i < |lines| :: NoNewline(lines[i])
    ensures AllSettled(Kept(lines))
    decreases |lines|
  {
    if lines != [] {
      var n := |lines| - 1;
      KeptIsSettled(lines[..n]);
      if !Dropped(TrimEnd(lines[n])) { TrimmedIsSettled(lines[n]); }
    }
  }

  lemma {:induction false} SettledIsKept(lines: seq<string>)
    requires AllSettled(lines)
    ensures Kept(lines) == lines
    decreases |lines|
  {
    if lines != [] {
      var n := |lines| - 1;
      SettledIsKept(lines[..n]);
      assert TrimEnd(lines[n]) == lines[n];
      assert lines == lines[..n] + [lines[n]];
    }
  }

  /** The source the agent's buffer ends up with: every line and its newline. */
  function Joined(lines: seq<string>): (s: string) {
    if lines == [] then [] else lines[0] + [NL] + Joined(lines[1..])
  }

  lemma {:induction false} OnePiece(line: string)
    requires NoNewline(line)
    ensures Pieces(line + [NL], NL) == [line + [NL]]
    decreases |line|
  {
    var s := line + [NL];
    if line == [] {
      assert s == [NL] && s[1..] == [];
      assert [[s[0]]] + Pieces([], NL) == [[s[0]]];
    } else {
      assert s[1..] == line[1..] + [NL];
      OnePiece(line[1..]);
      assert [s[0]] + (line[1..] + [NL]) == s;
    }
  }

  lemma {:induction false} LinesOfJoined(lines: seq<string>)
    requires AllSettled(lines)
    ensures LinesOf(Joined(lines), NL, CR) == lines
    decreases |lines|
  {
    if lines != [] {
      var line, rest := lines[0], Joined(lines[1..]);
      var s := line + [NL] + rest;
      LinesOfJoined(lines[1..]);
      LinesSplit(s, |line|, NL, CR);
      assert s[..|line| + 1] == line + [NL] && s[|line| + 1..] == rest;
      OnePiece(line);
      assert Strip(line + [NL], NL, CR) == line;
      assert lines == [line] + lines[1..];
    }
  }

  lemma KeptLinesAreSettled(source: string)
    ensures AllSettled(KeptLines(source))
  {
    LinesHaveNoNewline(source);
    KeptIsSettled(LinesOf(source, NL, CR));
  }

  /** Running the printer on the source it lands yields the same typescript. */
  lemma TypescriptOfLanded(source: string)
    ensures Typescript(Joined(KeptLines(source))) == Typescript(source)
  {
    KeptLinesAreSettled(source);
    LinesOfJoined(KeptLines(source));
    SettledIsKept(KeptLines(source));
  }
}
