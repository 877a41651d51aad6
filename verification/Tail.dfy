/** The last lines of a log, read backwards through a growing window. */
module Tail {
  import opened Bytes
  import opened Lines

  const NL: byte := 10
  const CR: byte := 13
  const FIRST_WINDOW := 64 * 1024
  const SCAN_LIMIT := 4 * 1024 * 1024

  function LinesIn(s: seq<byte>): seq<seq<byte>> { LinesOf(s, NL, CR) }

  /** The last `n` bytes, or all of them. */
  function Window(content: seq<byte>, n: nat): seq<byte> { LastN(content, n) }

  /** What is searched for lines: a window that starts inside the file loses its first,
      possibly partial, line. */
  function BodyOf(text: seq<byte>, from: nat): (body: seq<byte>) {
    if from == 0 then text
    else
      var i := NextNewline(text, NL, 0);
      if i == |text| then [] else text[i + 1..]
  }

  /** The answer is that of the whole file exactly when the file fits the budget, or the budget
      holds more newlines than lines are asked for, or just as many with the last line unended. */
  predicate Exact(content: seq<byte>, n: nat) {
    || n == 0 || |content| <= SCAN_LIMIT
    || n < Count(Window(content, SCAN_LIMIT), NL)
    || (n == Count(Window(content, SCAN_LIMIT), NL) && Unended(content, NL))
  }

  lemma HasNewline(s: seq<byte>, p: nat)
    requires p < |s| && s[p] == NL
    ensures Count(s, NL) == Count(s[..p], NL) + 1 + Count(s[p + 1..], NL)
  {
    var rest := s[p + 1..];
    assert s == s[..p] + ([NL] + rest);
    CountConcat(s[..p], [NL] + rest, NL);
    assert ([NL] + rest)[1..] == rest;
  }

  /** The lines behind a newline of the file are its last ones, and never all. */
  lemma LinesBehind(content: seq<byte>, p: nat)
    requires p < |content| && content[p] == NL
    ensures var head := LinesIn(content[..p + 1]);
            head != [] && LinesIn(content) == head + LinesIn(content[p + 1..])
  {
    LinesSplit(content, p, NL, CR);
  }

  lemma LinesInBody(text: seq<byte>, i: nat)
    requires i < |text| && text[i] == NL && forall j | 0 <= j < i :: text[j] != NL
    ensures |LinesIn(text[i + 1..])| == Count(text, NL) - 1 + if Unended(text, NL) then 1 else 0
  {
    HasNewline(text, i);
    CountNone(text[..i], NL);
    PieceCount(text[i + 1..], NL);
  }

  lemma Answers(head: seq<seq<byte>>, back: seq<seq<byte>>, n: nat, newlines: nat, unended: bool)
    requires head != [] && 0 < newlines && |back| == newlines - 1 + if unended then 1 else 0
    ensures IsSuffix(LastN(back, n), LastN(head + back, n))
    ensures LastN(back, n) == LastN(head + back, n) <==> n < newlines || (n == newlines && unended)
  {
    LastNOfSuffix(head, back, n);
  }

  lemma BodyLines(content: seq<byte>, from: nat, i: nat)
    requires from < |content| && from + i < |content| && content[from + i] == NL
    requires forall j | from <= j < from + i :: content[j] != NL
    ensures 0 < Count(content[from..], NL)
    ensures |LinesIn(content[from + i + 1..])|
            == Count(content[from..], NL) - 1 + if Unended(content, NL) then 1 else 0
  {
    var text := content[from..];
    assert content[from + i + 1..] == text[i + 1..];
    LinesInBody(text, i);
    HasNewline(text, i);
  }

  /** What a window with a newline in it yields, and when that is the whole-file answer. */
  lemma WindowWithNewline(content: seq<byte>, from: nat, i: nat, n: nat)
    requires from < |content| && from + i < |content| && content[from + i] == NL
    requires forall j | from <= j < from + i :: content[j] != NL
    ensures var lines := LastN(LinesIn(content[from + i + 1..]), n);
            && IsSuffix(lines, LastN(LinesIn(content), n))
            && (lines == LastN(LinesIn(content), n) <==>
                  || n < Count(content[from..], NL)
                  || (n == Count(content[from..], NL) && Unended(content, NL)))
  {
    var text, p := content[from..], from + i;
    LinesBehind(content, p);
    BodyLines(content, from, i);
    Answers(LinesIn(content[..p + 1]), LinesIn(content[p + 1..]), n, Count(text, NL), Unended(content, NL));
  }

  lemma WindowAnswer(content: seq<byte>, from: nat, n: nat)
    requires 0 < from < |content| && 0 < n
    ensures var lines := LastN(LinesIn(BodyOf(content[from..], from)), n);
            && IsSuffix(lines, LastN(LinesIn(content), n))
            && (lines == LastN(LinesIn(content), n) <==>
                  || n < Count(content[from..], NL)
                  || (n == Count(content[from..], NL) && Unended(content, NL)))
  {
    var text := content[from..];
    var i := NextNewline(text, NL, 0);
    if i == |text| {
      CountNone(text, NL);
    } else {
      assert forall j | from <= j < from + i :: content[j] == text[j - from];
      assert content[from + i + 1..] == text[i + 1..];
      WindowWithNewline(content, from, i, n);
    }
  }

  /** The failing side: past the budget, a last line too long for it is lost whole. */
  lemma LongLineLost(content: seq<byte>, n: nat)
    requires SCAN_LIMIT < |content| && 0 < n && NL !in Window(content, SCAN_LIMIT)
    ensures !Exact(content, n)
    ensures LinesIn(BodyOf(Window(content, SCAN_LIMIT), |content| - SCAN_LIMIT)) == []
    ensures LastN(LinesIn(content), n) != []
  {
    CountNone(Window(content, SCAN_LIMIT), NL);
  }

  /** One byte more than the budget and no newline, asked for one line. */
  lemma InexactExample() returns (content: seq<byte>)
    ensures |content| == 4194305 && !Exact(content, 1)
  {
    content := seq(SCAN_LIMIT + 1, _ => 0x61);
    LongLineLost(content, 1);
  }

  lemma WiderWindow(content: seq<byte>, a: nat, b: nat)
    requires a <= b
    ensures Count(Window(content, a), NL) <= Count(Window(content, b), NL)
  {
    var wide, narrow := Window(content, b), Window(content, a);
    var cut := |wide| - |narrow|;
    assert wide == wide[..cut] + narrow;
    CountConcat(wide[..cut], narrow, NL);
  }

  /** The last `n` lines of a file read from its end: always a suffix of the whole-file answer,
      and equal to it exactly when `Exact` says so. */
  method TailWithLen(content: seq<byte>, n: nat) returns (lines: seq<seq<byte>>, len: nat)
    ensures len == |content|
    ensures IsSuffix(lines, LastN(LinesIn(content), n))
    ensures lines == LastN(LinesIn(content), n) <==> Exact(content, n)
  {
    len := |content|;
    if n == 0 || len == 0 { return [], len; }
    var window := FIRST_WINDOW;
    var start := if len < window then 0 else len - window;
    var text := content[start..];
    while !(n < Count(text, NL) || start == 0 || window >= SCAN_LIMIT)
      invariant 0 < window <= SCAN_LIMIT
      invariant start == if len < window then 0 else len - window
      invariant text == content[start..]
      decreases SCAN_LIMIT - window
    {
      window := if window * 8 < SCAN_LIMIT then window * 8 else SCAN_LIMIT;
      start := if len < window then 0 else len - window;
      text := content[start..];
    }
    var all := LinesIn(BodyOf(text, start));
    lines := LastN(all, n);
    if start != 0 {
      assert text == Window(content, window);
      WindowAnswer(content, start, n);
      WiderWindow(content, window, SCAN_LIMIT);
    }
  }

  /** A line feed, or a carriage return and a line feed, ends a line of a log. */
  lemma LineEndings(line: seq<byte>, rest: seq<byte>)
    requires 10 !in line && (line == [] || line[|line| - 1] != 13)
    ensures LinesIn(line + [10] + rest) == [line] + LinesIn(rest)
    ensures LinesIn(line + [13, 10] + rest) == [line] + LinesIn(rest)
  {
    EndsLine(line, line + [10], rest);
    EndsLine(line, line + [13, 10], rest);
  }

  lemma EndsLine(line: seq<byte>, piece: seq<byte>, rest: seq<byte>)
    requires 10 !in line && (line == [] || line[|line| - 1] != 13)
    requires piece == line + [10] || piece == line + [13, 10]
    ensures LinesIn(piece + rest) == [line] + LinesIn(rest)
  {
    var all, p := piece + rest, |piece| - 1;
    assert all[..p + 1] == piece && all[p + 1..] == rest;
    LinesSplit(all, p, NL, CR);
    OnePiece(piece, NL);
    StripIs(line, NL, CR);
  }
}
