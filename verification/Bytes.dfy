/** Bytes and the fixed-width words the wire formats are made of. */
module Bytes {

  type byte = b: int | 0 <= b < 0x100
  type u16 = v: int | 0 <= v < 0x1_0000
  type u32 = v: int | 0 <= v < 0x1_0000_0000
  type u64 = v: int | 0 <= v < 0x1_0000_0000_0000_0000

  /** The DRM fourcc of 32-bit pixels, `B G R x` in memory. */
  const XRGB8888: u32 := 0x34325258

  /** Bytes in a word, and in half of one. */
  const WORD: nat := 4
  const HALF_WORD: nat := 2

  const U16_SPAN := 0x1_0000
  const U32_SPAN := 0x1_0000_0000
  const U64_SPAN := 0x1_0000_0000_0000_0000

  datatype Option<+T> = None | Some(value: T) {
    predicate IsFailure() { None? }

    function PropagateFailure<U>(): Option<U>
      requires None?
    {
      None
    }

    function Extract(): T
      requires Some?
    {
      value
    }
  }

  lemma Assoc<T>(a: seq<T>, b: seq<T>, c: seq<T>)
    ensures a + (b + c) == a + b + c
  {
  }

  function Flatten<T>(parts: seq<seq<T>>): (s: seq<T>) {
    if parts == [] then [] else parts[0] + Flatten(parts[1..])
  }

  /** Word `k` of a counter that started at `first`. */
  function CounterWord(first: u32, k: nat): (w: u32) { (first + k) % U32_SPAN }

  lemma NextWord(first: u32, k: nat)
    ensures CounterWord(first, k + 1) == (CounterWord(first, k) + 1) % U32_SPAN
  {
  }

  /** A counter that shows the same word twice within 2^32 steps has not moved. */
  lemma SameWordSameCount(first: u32, j: nat, k: nat)
    requires j <= k < j + U32_SPAN && CounterWord(first, j) == CounterWord(first, k)
    ensures j == k
  {
  }

  /** `s` with `patch` written over it from offset `at`. */
  function Splice(s: seq<byte>, at: nat, patch: seq<byte>): (r: seq<byte>)
    requires at + |patch| <= |s|
    ensures |r| == |s|
  {
    seq(|s|, i requires 0 <= i < |s| => if at <= i < at + |patch| then patch[i - at] else s[i])
  }

  /** `n * size`, by recursion: sizes and offsets of rows are reasoned about one row at a time. */
  function Times(n: nat, size: nat): (t: nat) { if n == 0 then 0 else Times(n - 1, size) + size }

  lemma {:induction false} TimesIsProduct(n: nat, size: nat)
    ensures Times(n, size) == n * size
  {
    if n != 0 { TimesIsProduct(n - 1, size); }
  }

  lemma TimesMonotone(n: nat, n': nat, size: nat, size': nat)
    requires n <= n' && size <= size'
    ensures Times(n, size) <= Times(n', size')
  {
    TimesIsProduct(n, size);
    TimesIsProduct(n', size');
    assert n * size <= n' * size;
    assert n' * size <= n' * size';
  }

  lemma {:induction false} TimesFour(n: nat, size: nat)
    ensures Times(n, size * 4) == Times(n, size) * 4
  {
    if n != 0 { TimesFour(n - 1, size); }
  }

  function Pow2(n: nat): (p: nat)
    ensures p > 0
  {
    if n == 0 then 1 else 2 * Pow2(n - 1)
  }

  lemma EightBits()
    ensures Pow2(8) == 0x100
  {
    assert Pow2(2) == 4;
    assert Pow2(4) == 2 * (2 * Pow2(2));
    assert Pow2(6) == 2 * (2 * Pow2(4));
    assert Pow2(8) == 2 * (2 * Pow2(6));
  }

  lemma SixteenBits()
    ensures Pow2(16) == 0x1_0000
  {
    EightBits();
    assert Pow2(10) == 2 * (2 * Pow2(8));
    assert Pow2(12) == 2 * (2 * Pow2(10));
    assert Pow2(14) == 2 * (2 * Pow2(12));
    assert Pow2(16) == 2 * (2 * Pow2(14));
  }

  function Span(n: nat): (r: nat) { if n == 0 then 1 else 0x100 * Span(n - 1) }

  lemma Spans()
    ensures Span(1) == 0x100 && Span(2) == U16_SPAN && Span(4) == U32_SPAN && Span(8) == U64_SPAN
  {
    assert Span(1) == 0x100 * Span(0);
    assert Span(3) == 0x100 * Span(2);
    assert Span(5) == 0x100 * Span(4);
    assert Span(7) == 0x100 * Span(6);
  }

  /** The low byte of a word, and the one above it. */
  function Low(v: nat): byte { v % 0x100 }

  function High(v: nat): byte { v / 0x100 % 0x100 }

  // Little-endian words, as the shared-memory header and the agent frames use.

  function LeBytes(v: nat, n: nat): (s: seq<byte>)
    ensures |s| == n
  {
    if n == 0 then [] else [v % 0x100] + LeBytes(v / 0x100, n - 1)
  }

  function LeValue(s: seq<byte>): (v: nat)
    ensures v < Span(|s|)
  {
    if s == [] then 0 else s[0] as int + 0x100 * LeValue(s[1..])
  }

  lemma {:induction false} LeRoundTrip(v: nat, n: nat)
    requires v < Span(n)
    ensures LeValue(LeBytes(v, n)) == v
  {
    if n != 0 {
      LeRoundTrip(v / 0x100, n - 1);
      assert LeBytes(v, n)[1..] == LeBytes(v / 0x100, n - 1);
    }
  }

  function Le32(v: u32): (s: seq<byte>)
    ensures |s| == 4
  {
    LeBytes(v, WORD)
  }

  function Le32At(s: seq<byte>, at: nat): (v: u32)
    requires at + 4 <= |s|
  {
    Spans(); LeValue(s[at..at + 4])
  }

  function Le64At(s: seq<byte>, at: nat): (v: u64)
    requires at + 8 <= |s|
  {
    Spans(); LeValue(s[at..at + 8])
  }

  lemma Le32RoundTrip(v: u32)
    ensures LeValue(Le32(v)) == v
  {
    Spans();
    LeRoundTrip(v, WORD);
  }

  /** The byte order, spelled out. */
  lemma Le32Is(s: seq<byte>, at: nat)
    requires at + 4 <= |s|
    ensures Le32At(s, at) as int
            == s[at] as int + 0x100 * (s[at + 1] as int) + 0x1_0000 * (s[at + 2] as int)
               + 0x100_0000 * (s[at + 3] as int)
  {
    LeStep(s, at, at + 4);
    LeStep(s, at + 1, at + 4);
    LeStep(s, at + 2, at + 4);
    LeStep(s, at + 3, at + 4);
  }

  lemma LeStep(s: seq<byte>, at: nat, end: nat)
    requires at < end <= |s|
    ensures LeValue(s[at..end]) == s[at] as int + 0x100 * LeValue(s[at + 1..end])
  {
    assert s[at..end][1..] == s[at + 1..end];
  }

  // Big-endian words, as RFB and the network framing use.

  function BeBytes(v: nat, n: nat): (s: seq<byte>)
    ensures |s| == n
  {
    if n == 0 then [] else BeBytes(v / 0x100, n - 1) + [v % 0x100]
  }

  function BeValue(s: seq<byte>): (v: nat)
    ensures v < Span(|s|)
  {
    if s == [] then 0 else 0x100 * BeValue(s[..|s| - 1]) + s[|s| - 1] as int
  }

  lemma {:induction false} BeRoundTrip(v: nat, n: nat)
    requires v < Span(n)
    ensures BeValue(BeBytes(v, n)) == v
  {
    if n != 0 {
      BeRoundTrip(v / 0x100, n - 1);
      assert BeBytes(v, n)[..n - 1] == BeBytes(v / 0x100, n - 1);
    }
  }

  lemma {:induction false} BeInverse(s: seq<byte>)
    ensures BeBytes(BeValue(s), |s|) == s
  {
    if s != [] {
      BeInverse(s[..|s| - 1]);
    }
  }

  function Be16(v: u16): (s: seq<byte>)
    ensures |s| == 2
  {
    BeBytes(v, HALF_WORD)
  }

  function Be32(v: u32): (s: seq<byte>)
    ensures |s| == 4
  {
    BeBytes(v, WORD)
  }

  lemma Be16RoundTrip(v: u16)
    ensures BeValue(Be16(v)) == v
  {
    Spans();
    BeRoundTrip(v, HALF_WORD);
  }

  lemma Be32RoundTrip(v: u32)
    ensures BeValue(Be32(v)) == v
  {
    Spans();
    BeRoundTrip(v, WORD);
  }

  /** The byte order, spelled out. */
  lemma Be16Is(s: seq<byte>)
    requires |s| == 2
    ensures BeValue(s) == 0x100 * (s[0] as int) + s[1] as int
  {
    assert s[..1][..0] == [];
    assert BeValue(s[..1]) == s[0] as int;
  }

  lemma Be32Is(s: seq<byte>)
    requires |s| == 4
    ensures BeValue(s)
            == 0x100_0000 * (s[0] as int) + 0x1_0000 * (s[1] as int) + 0x100 * (s[2] as int) + s[3] as int
  {
    Be16Is(s[..2]);
    assert s[..3][..2] == s[..2];
    assert BeValue(s[..3]) == 0x100 * BeValue(s[..2]) + s[2] as int;
  }
}
