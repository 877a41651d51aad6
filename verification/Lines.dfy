/** Lines of a text as Rust's `str::lines` yields them: ended by a newline, a carriage return
    before it dropped, the last one possibly unended. */
module Lines {
  import opened Bytes

  /** Pieces with their newlines, as `split_inclusive` yields them. */
  function Pieces<T(==)>(s: seq<T>, nl: T): (r: seq<seq<T>>)
    ensures r == [] <==> s == []
  {
    if s == [] then []
    else if s[0] == nl then [[s[0]]] + Pieces(s[1..], nl)
    else Glue(s[0], Pieces(s[1..], nl))
  }

  function Glue<T>(c: T, r: seq<seq<T>>): (g: seq<seq<T>>)
    ensures |g| == if r == [] then 1 else |r|
  {
    if r == [] then [[c]] else [[c] + r[0]] + r[1..]
  }

  function Strip<T(==)>(line: seq<T>, nl: T, cr: T): (r: seq<T>) {
    if line == [] || line[|line| - 1] != nl then line
    else if 2 <= |line| && line[|line| - 2] == cr then line[..|line| - 2]
    else line[..|line| - 1]
  }

  function Stripped<T(==)>(pieces: seq<seq<T>>, nl: T, cr: T): (r: seq<seq<T>>) {
    seq(|pieces|, i requires 0 <= i < |pieces| => Strip(pieces[i], nl, cr))
  }

  function LinesOf<T(==)>(s: seq<T>, nl: T, cr: T): (lines: seq<seq<T>>) {
    Stripped(Pieces(s, nl), nl, cr)
  }

  function Count<T(==)>(s: seq<T>, nl: T): (n: nat) {
    if s == [] then 0 else (if s[0] == nl then 1 else 0) + Count(s[1..], nl)
  }

  predicate Unended<T(==)>(s: seq<T>, nl: T) { s != [] && s[|s| - 1] != nl }

  /** One line per newline, and one more for an unended rest. */
  lemma {:induction false} PieceCount<T>(s: seq<T>, nl: T)
    ensures |Pieces(s, nl)| == Count(s, nl) + if Unended(s, nl) then 1 else 0
    decreases |s|
  {
    if s != [] { PieceCount(s[1..], nl); }
  }

  lemma GlueSplit<T>(c: T, a: seq<seq<T>>, b: seq<seq<T>>)
    requires a != []
    ensures Glue(c, a + b) == Glue(c, a) + b
  {
  }

  /** A text cut behind a newline has the pieces of the two parts. */
  lemma {:induction false} PiecesSplit<T>(s: seq<T>, p: nat, nl: T)
    requires p < |s| && s[p] == nl
    ensures Pieces(s, nl) == Pieces(s[..p + 1], nl) + Pieces(s[p + 1..], nl)
    decreases p
  {
    var head, rest := s[..p + 1], s[1..];
    if p == 0 {
      assert head[1..] == [];
    } else {
      PiecesSplit(rest, p - 1, nl);
      assert head[1..] == rest[..p] && s[p + 1..] == rest[p..];
      if s[0] != nl { GlueSplit(s[0], Pieces(rest[..p], nl), Pieces(rest[p..], nl)); }
    }
  }

  lemma LinesSplit<T>(s: seq<T>, p: nat, nl: T, cr: T)
    requires p < |s| && s[p] == nl
    ensures LinesOf(s, nl, cr) == LinesOf(s[..p + 1], nl, cr) + LinesOf(s[p + 1..], nl, cr)
  {
    PiecesSplit(s, p, nl);
  }

  lemma {:induction false} CountConcat<T>(a: seq<T>, b: seq<T>, nl: T)
    ensures Count(a + b, nl) == Count(a, nl) + Count(b, nl)
    decreases |a|
  {
    if a == [] {
      assert a + b == b;
    } else {
      assert (a + b)[1..] == a[1..] + b;
      CountConcat(a[1..], b, nl);
    }
  }

  /** The first newline at or after `from`, else the length. */
  function NextNewline<T(==)>(s: seq<T>, nl: T, from: nat): (i: nat)
    requires from <= |s|
    ensures from <= i <= |s| && (i < |s| ==> s[i] == nl)
    ensures forall j | from <= j < i :: s[j] != nl
    decreases |s| - from
  {
    if from == |s| || s[from] == nl then from else NextNewline(s, nl, from + 1)
  }

  lemma {:induction false} CountNone<T>(s: seq<T>, nl: T)
    requires forall j | 0 <= j < |s| :: s[j] != nl
    ensures Count(s, nl) == 0
    decreases |s|
  {
    if s != [] { CountNone(s[1..], nl); }
  }

  function LastN<T>(s: seq<T>, n: nat): (r: seq<T>) { if |s| <= n then s else s[|s| - n..] }

  predicate IsSuffix<T(==)>(a: seq<T>, b: seq<T>) { |a| <= |b| && b[|b| - |a|..] == a }

  lemma LastNOfSuffix<T>(a: seq<T>, b: seq<T>, n: nat)
    ensures IsSuffix(LastN(b, n), LastN(a + b, n))
    ensures LastN(b, n) == LastN(a + b, n) <==> n <= |b| || a == []
  {
  }

  /** Only a newline at the end, and one carriage return before it, is stripped. */
  lemma StripIs<T>(body: seq<T>, nl: T, cr: T)
    requires nl != cr
    ensures body == [] || body[|body| - 1] != nl ==> Strip(body, nl, cr) == body
    ensures body == [] || body[|body| - 1] != cr ==> Strip(body + [nl], nl, cr) == body
    ensures Strip(body + [cr, nl], nl, cr) == body
  {
  }

  /** A piece has its newline, if any, at its end. */
  predicate PieceOk<T(==)>(piece: seq<T>, nl: T) {
    piece != [] && forall j | 0 <= j < |piece| - 1 :: piece[j] != nl
  }

  /** The pieces are the text cut behind each newline. */
  lemma {:induction false} PiecesAre<T>(s: seq<T>, nl: T)
    ensures Flatten(Pieces(s, nl)) == s
    ensures forall i | 0 <= i < |Pieces(s, nl)| :: PieceOk(Pieces(s, nl)[i], nl)
    ensures forall i | 0 <= i < |Pieces(s, nl)| - 1 :: var p := Pieces(s, nl)[i]; p != [] && p[|p| - 1] == nl
    decreases |s|
  {
    if s != [] {
      PiecesAre(s[1..], nl);
      var r := Pieces(s[1..], nl);
      if s[0] == nl {
        assert ([[s[0]]] + r)[1..] == r;
      } else if r == [] {
        assert Flatten([[s[0]]]) == [s[0]] + Flatten([[s[0]]][1..]);
        assert PieceOk([s[0]], nl);
      } else {
        GluePiece(s[0], r, nl);
      }
    }
  }

  lemma GluePiece<T>(c: T, r: seq<seq<T>>, nl: T)
    requires r != [] && c != nl && PieceOk(r[0], nl)
    ensures Flatten(Glue(c, r)) == [c] + Flatten(r)
    ensures PieceOk(Glue(c, r)[0], nl) && Glue(c, r)[1..] == r[1..]
    ensures Glue(c, r)[0][|Glue(c, r)[0]| - 1] == r[0][|r[0]| - 1]
  {
    Assoc([c], r[0], Flatten(r[1..]));
  }

  /** The last `n` elements, or all if there are fewer. */
  lemma LastNIs<T>(s: seq<T>, n: nat)
    ensures IsSuffix(LastN(s, n), s) && |LastN(s, n)| == if n < |s| then n else |s|
  {
  }

  lemma {:induction false} OnePiece<T>(s: seq<T>, nl: T)
    requires s != [] && forall j | 0 <= j < |s| - 1 :: s[j] != nl
    ensures Pieces(s, nl) == [s]
    decreases |s|
  {
    if |s| == 1 {
      assert s == [s[0]] && s[1..] == [];
    } else {
      OnePiece(s[1..], nl);
      assert [s[0]] + s[1..] == s;
    }
  }
}
