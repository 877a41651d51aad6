/** `publish` on the mapped bytes, proved to be the uninterrupted publication of the
    frame protocol and to touch nothing else. */
module Publish {
  import opened Bytes
  import opened DisplayLayout
  import opened FrameProtocol
  import opened FrameRuns
  import opened Rows

  const FRAME_WORDS := 0x110

  /** The header words written before the sequence word. */
  const HEADER_WRITES: nat := 9

  function WordOffset(i: nat): nat { FRAME_WORDS + 4 * i }

  /** The ten frame words of the header. */
  function Words(memory: seq<byte>): (w: seq<u32>)
    requires PIXELS_START <= |memory|
  {
    seq(WORDS, i requires 0 <= i < WORDS => Le32At(memory, WordOffset(i)))
  }

  /** Buffers are a stride apart. */
  function BufferAt(layout: Layout, b: nat): nat
    requires b < BUFFERS
  {
    layout.buffersOffset + if b == 0 then 0 else if b == 1 then layout.bufferStride else 2 * layout.bufferStride
  }

  function Buffer(memory: seq<byte>, layout: Layout, b: nat): seq<byte>
    requires layout.BuffersFit(|memory|) && b < BUFFERS
  {
    BufferFits(layout, |memory|, b);
    memory[BufferAt(layout, b)..BufferAt(layout, b) + layout.bufferStride]
  }

  function Buffers(memory: seq<byte>, layout: Layout): seq<seq<byte>>
    requires layout.BuffersFit(|memory|)
  {
    [Buffer(memory, layout, 0), Buffer(memory, layout, 1), Buffer(memory, layout, 2)]
  }

  lemma BufferFits(layout: Layout, mapped: nat, b: nat)
    requires layout.BuffersFit(mapped) && b < BUFFERS
    ensures PIXELS_START <= BufferAt(layout, b)
    ensures BufferAt(layout, b) + layout.bufferStride <= layout.size <= mapped
  {
  }

  lemma BuffersApart(layout: Layout, a: nat, b: nat)
    requires a < b < BUFFERS
    ensures BufferAt(layout, a) + layout.bufferStride <= BufferAt(layout, b)
  {
  }

  lemma WordWrite(m: seq<byte>, i: nat, v: u32)
    requires PIXELS_START <= |m| && i < WORDS
    ensures Words(Splice(m, WordOffset(i), Le32(v))) == Words(m)[i := v]
  {
    var m' := Splice(m, WordOffset(i), Le32(v));
    Le32RoundTrip(v);
    forall j | 0 <= j < WORDS
      ensures Words(m')[j] == Words(m)[i := v][j]
    {
      if j == i {
        SpliceInside(m, WordOffset(i), 4, Le32(v));
        assert m[WordOffset(i)..WordOffset(i) + 4][4..] == [] && Le32(v) + [] == Le32(v);
      } else {
        SpliceOutside(m, WordOffset(i), Le32(v), WordOffset(j), 4);
      }
    }
  }

  lemma WordWriteKeepsBuffer(m: seq<byte>, layout: Layout, i: nat, word: seq<byte>, b: nat)
    requires layout.BuffersFit(|m|) && i < WORDS && b < BUFFERS && |word| == 4
    ensures Buffer(Splice(m, WordOffset(i), word), layout, b) == Buffer(m, layout, b)
  {
    BufferFits(layout, |m|, b);
    SpliceOutside(m, WordOffset(i), word, BufferAt(layout, b), layout.bufferStride);
  }

  lemma SpliceInside(m: seq<byte>, at: nat, n: nat, patch: seq<byte>)
    requires |patch| <= n && at + n <= |m|
    ensures Splice(m, at, patch)[at..at + n] == patch + m[at..at + n][|patch|..]
  {
  }

  lemma SpliceOutside(m: seq<byte>, at: nat, patch: seq<byte>, from: nat, n: nat)
    requires at + |patch| <= |m| && from + n <= |m| && (from + n <= at || at + |patch| <= from)
    ensures Splice(m, at, patch)[from..from + n] == m[from..from + n]
  {
  }

  lemma BufferWriteKeepsWords(m: seq<byte>, at: nat, pixels: seq<byte>)
    requires PIXELS_START <= at && at + |pixels| <= |m|
    ensures Words(Splice(m, at, pixels)) == Words(m)
  {
    var m' := Splice(m, at, pixels);
    forall j | 0 <= j < WORDS
      ensures Words(m')[j] == Words(m)[j]
    {
      var at := WordOffset(j);
      assert m'[at..at + 4] == m[at..at + 4];
    }
  }

  lemma OtherBufferKept(m: seq<byte>, layout: Layout, next: nat, pixels: seq<byte>, b: nat)
    requires layout.BuffersFit(|m|) && next < BUFFERS && b < BUFFERS && b != next
    requires |pixels| <= layout.bufferStride && BufferAt(layout, next) + |pixels| <= |m|
    ensures Buffer(Splice(m, BufferAt(layout, next), pixels), layout, b) == Buffer(m, layout, b)
  {
    BufferFits(layout, |m|, b);
    if b < next { BuffersApart(layout, b, next); } else { BuffersApart(layout, next, b); }
    SpliceOutside(m, BufferAt(layout, next), pixels, BufferAt(layout, b), layout.bufferStride);
  }

  lemma NextBufferFilled(m: seq<byte>, layout: Layout, next: nat, pixels: seq<byte>)
    requires layout.BuffersFit(|m|) && next < BUFFERS && |pixels| <= layout.bufferStride
    requires BufferAt(layout, next) + |pixels| <= |m|
    ensures Buffer(Splice(m, BufferAt(layout, next), pixels), layout, next)
            == pixels + Buffer(m, layout, next)[|pixels|..]
  {
    BufferFits(layout, |m|, next);
    SpliceInside(m, BufferAt(layout, next), layout.bufferStride, pixels);
  }

  method CopyBytes(target: array<byte>, at: nat, source: array<byte>, from: nat, n: nat)
    requires at + n <= target.Length && from + n <= source.Length && target != source
    modifies target
    ensures target[..] == Splice(old(target[..]), at, source[from..from + n])
  {
    for k := 0 to n
      invariant target[..] == Splice(old(target[..]), at, source[from..from + k])
    {
      target[at + k] := source[from + k];
      assert source[from..from + k + 1] == source[from..from + k] + [source[from + k]];
    }
  }

  method Write32(memory: array<byte>, at: nat, v: u32)
    requires at + 4 <= memory.Length
    modifies memory
    ensures memory[..] == Splice(old(memory[..]), at, Le32(v))
  {
    var word := Le32(v);
    memory[at], memory[at + 1], memory[at + 2], memory[at + 3] := word[0], word[1], word[2], word[3];
  }

  predicate FrameBytesAt(layout: Layout, next: nat, size: nat, j: nat)
    requires next < BUFFERS
  {
    || FrameWordAt(j)
    || BufferAt(layout, next) <= j < BufferAt(layout, next) + size
  }

  /** The frame a caller hands over: rows of the source packed to `width * 4` bytes. */
  function Packed(source: seq<byte>, mode: Mode, sourcePitch: u32): Frame
    requires SourceHolds(|source|, mode, sourcePitch)
  {
    Frame(mode.width, mode.height, mode.width * 4, XRGB8888,
          PackedRows(source, mode.width * 4, sourcePitch, mode.height))
  }

  predicate SourceHolds(length: nat, mode: Mode, sourcePitch: u32) {
    RowsIn(length, mode.width * 4, sourcePitch, mode.height)
  }

  /** Copy `rows` rows of the source, packed, to `destination`. */
  method CopyRows(memory: array<byte>, destination: nat, source: array<byte>, row: nat, pitch: nat, rows: nat)
    requires RowsIn(source.Length, row, pitch, rows) && source != memory
    requires destination + Times(rows, row) <= memory.Length
    modifies memory
    ensures memory[..] == Splice(old(memory[..]), destination, PackedRows(source[..], row, pitch, rows))
  {
    ghost var m := memory[..];
    for y := 0 to rows
      invariant destination + Times(y, row) <= memory.Length && RowsIn(source.Length, row, pitch, y)
      invariant memory[..] == Splice(m, destination, PackedRows(source[..], row, pitch, y))
    {
      TimesMonotone(y + 1, rows, row, row);
      TimesMonotone(y, rows - 1, pitch, pitch);
      NextRow(m, destination, source[..], row, pitch, y);
      CopyRow(memory, destination, source, row, pitch, y);
    }
  }

  method CopyRow(memory: array<byte>, destination: nat, source: array<byte>, row: nat, pitch: nat, y: nat)
    requires Times(y, pitch) + row <= source.Length && source != memory
    requires destination + Times(y, row) + row <= memory.Length
    modifies memory
    ensures memory[..] == Splice(old(memory[..]), destination + Times(y, row),
                                 source[Times(y, pitch)..Times(y, pitch) + row])
  {
    TimesIsProduct(y, row);
    TimesIsProduct(y, pitch);
    CopyBytes(memory, destination + y * row, source, y * pitch, row);
  }

  lemma SpliceTwice(s: seq<byte>, at: nat, first: seq<byte>, next: seq<byte>)
    requires at + |first| + |next| <= |s|
    ensures Splice(Splice(s, at, first), at + |first|, next) == Splice(s, at, first + next)
  {
  }

  lemma NextRow(m: seq<byte>, destination: nat, source: seq<byte>, row: nat, pitch: nat, y: nat)
    requires RowsIn(|source|, row, pitch, y) && RowsIn(|source|, row, pitch, y + 1)
    requires destination + Times(y + 1, row) <= |m|
    ensures Splice(Splice(m, destination, PackedRows(source, row, pitch, y)),
                   destination + Times(y, row), source[Times(y, pitch)..Times(y, pitch) + row])
            == Splice(m, destination, PackedRows(source, row, pitch, y + 1))
  {
    SpliceTwice(m, destination, PackedRows(source, row, pitch, y), source[Times(y, pitch)..Times(y, pitch) + row]);
  }

  lemma HeadedStep(words: seq<u32>, f: Frame, next: nat, k: nat)
    requires |words| == WORDS && k < 9
    ensures Headed(words, f, next, k + 1) == Headed(words, f, next, k)[WordAt(k) := FieldOf(f, next, WordAt(k))]
  {
  }

  predicate FrameWordAt(j: nat) { FRAME_WORDS <= j < FRAME_WORDS + 4 * WORDS }

  /** The region after the first `k` header writes of a publication of `f`. */
  function HeaderBytes(m: seq<byte>, f: Frame, next: nat, k: nat): (r: seq<byte>)
    requires PIXELS_START <= |m| && k <= 9 && next < BUFFERS
    requires f.width < U32_SPAN && f.height < U32_SPAN && f.pitch < U32_SPAN
    ensures |r| == |m|
    decreases k
  {
    if k == 0 then m
    else
      var i := WordAt(k - 1);
      Splice(HeaderBytes(m, f, next, k - 1), WordOffset(i), Le32(FieldOf(f, next, i)))
  }

  lemma {:induction false} HeaderBytesEffect(m: seq<byte>, layout: Layout, f: Frame, next: nat, k: nat, b: nat)
    requires layout.BuffersFit(|m|) && k <= 9 && next < BUFFERS && b < BUFFERS
    requires f.width < U32_SPAN && f.height < U32_SPAN && f.pitch < U32_SPAN
    ensures Words(HeaderBytes(m, f, next, k)) == Headed(Words(m), f, next, k)
    ensures Buffer(HeaderBytes(m, f, next, k), layout, b) == Buffer(m, layout, b)
    ensures forall j | 0 <= j < |m| && !FrameWordAt(j) :: HeaderBytes(m, f, next, k)[j] == m[j]
    decreases k
  {
    if k == 0 {
      assert Words(m) == Headed(Words(m), f, next, 0);
    } else {
      HeaderBytesEffect(m, layout, f, next, k - 1, b);
      var i, m' := WordAt(k - 1), HeaderBytes(m, f, next, k - 1);
      WordWrite(m', i, FieldOf(f, next, i));
      HeadedStep(Words(m), f, next, k - 1);
      WordWriteKeepsBuffer(m', layout, i, Le32(FieldOf(f, next, i)), b);
    }
  }

  lemma HeaderBytesStep(m: seq<byte>, f: Frame, next: nat, k: nat, i: nat, v: u32)
    requires PIXELS_START <= |m| && k < 9 && next < BUFFERS
    requires f.width < U32_SPAN && f.height < U32_SPAN && f.pitch < U32_SPAN
    requires i == WordAt(k) && v == FieldOf(f, next, i)
    ensures Splice(HeaderBytes(m, f, next, k), WordOffset(i), Le32(v)) == HeaderBytes(m, f, next, k + 1)
  {
  }

  /** The damage words, zeroed. */
  method WriteDamage(memory: array<byte>, ghost m: seq<byte>, ghost f: Frame, ghost next: nat)
    requires PIXELS_START <= memory.Length == |m| && next < BUFFERS
    requires f.width < U32_SPAN && f.height < U32_SPAN && f.pitch < U32_SPAN
    requires memory[..] == HeaderBytes(m, f, next, 4)
    modifies memory
    ensures memory[..] == HeaderBytes(m, f, next, 8)
  {
    for i := FORMAT + 1 to WORDS
      invariant memory[..] == HeaderBytes(m, f, next, i - 2)
    {
      HeaderBytesStep(m, f, next, i - 2, i, 0);
      Write32(memory, WordOffset(i), 0);
    }
  }

  /** The header writes of one publication, in order, before the sequence word. */
  method WriteHeader(memory: array<byte>, mode: Mode, pitch: u32, next: nat, ghost f: Frame)
    requires PIXELS_START <= memory.Length && next < BUFFERS
    requires f == Frame(mode.width, mode.height, pitch, XRGB8888, f.pixels)
    modifies memory
    ensures memory[..] == HeaderBytes(old(memory[..]), f, next, HEADER_WRITES)
  {
    ghost var m := memory[..];
    HeaderBytesStep(m, f, next, 0, WIDTH, mode.width);
    Write32(memory, WordOffset(WIDTH), mode.width);
    HeaderBytesStep(m, f, next, 1, HEIGHT, mode.height);
    Write32(memory, WordOffset(HEIGHT), mode.height);
    HeaderBytesStep(m, f, next, 2, PITCH, pitch);
    Write32(memory, WordOffset(PITCH), pitch);
    HeaderBytesStep(m, f, next, 3, FORMAT, XRGB8888);
    Write32(memory, WordOffset(FORMAT), XRGB8888);
    WriteDamage(memory, m, f, next);
    HeaderBytesStep(m, f, next, 8, INDEX, next);
    Write32(memory, WordOffset(INDEX), next);
  }

  function NextSeq(m: seq<byte>): u32
    requires PIXELS_START <= |m|
  {
    (Le32At(m, WordOffset(SEQ)) + 1) % U32_SPAN
  }

  /** The region with the sequence word one higher. */
  function Bumped(m: seq<byte>): (r: seq<byte>)
    requires PIXELS_START <= |m|
    ensures |r| == |m|
  {
    Splice(m, WordOffset(SEQ), Le32(NextSeq(m)))
  }

  method BumpSeq(memory: array<byte>)
    requires PIXELS_START <= memory.Length
    modifies memory
    ensures memory[..] == Bumped(old(memory[..]))
  {
    Write32(memory, WordOffset(SEQ), NextSeq(memory[..]));
  }

  /** The region after a whole publication of `f` into the buffer at `destination`. */
  function PublishedBytes(m: seq<byte>, f: Frame, next: nat, destination: nat): (r: seq<byte>)
    requires PIXELS_START <= destination && destination + |f.pixels| <= |m| && next < BUFFERS
    requires f.width < U32_SPAN && f.height < U32_SPAN && f.pitch < U32_SPAN
    ensures |r| == |m|
  {
    Bumped(HeaderBytes(Splice(m, destination, f.pixels), f, next, HEADER_WRITES))
  }

  predicate Publishable(layout: Layout, f: Frame, next: nat, mapped: nat) {
    && layout.BuffersFit(mapped) && |f.pixels| <= layout.bufferStride && next < BUFFERS
    && f.width < U32_SPAN && f.height < U32_SPAN && f.pitch < U32_SPAN
  }

  lemma PublishedBuffer(m: seq<byte>, layout: Layout, f: Frame, next: nat, b: nat, word: seq<byte>)
    requires Publishable(layout, f, next, |m|) && b < BUFFERS && |word| == 4
    requires BufferAt(layout, next) + |f.pixels| <= |m| && PIXELS_START <= BufferAt(layout, next)
    ensures Buffer(Splice(HeaderBytes(Splice(m, BufferAt(layout, next), f.pixels), f, next, HEADER_WRITES),
                          WordOffset(SEQ), word), layout, b)
            == Filled(Buffers(m, layout), next, f.pixels)[b]
  {
    var filled := Splice(m, BufferAt(layout, next), f.pixels);
    FilledBuffer(m, layout, f.pixels, next, b);
    HeaderBytesEffect(filled, layout, f, next, HEADER_WRITES, b);
    WordWriteKeepsBuffer(HeaderBytes(filled, f, next, HEADER_WRITES), layout, SEQ, word, b);
  }

  lemma FilledBuffer(m: seq<byte>, layout: Layout, pixels: seq<byte>, next: nat, b: nat)
    requires layout.BuffersFit(|m|) && next < BUFFERS && b < BUFFERS && |pixels| <= layout.bufferStride
    requires BufferAt(layout, next) + |pixels| <= |m|
    ensures Buffer(Splice(m, BufferAt(layout, next), pixels), layout, b) == Filled(Buffers(m, layout), next, pixels)[b]
  {
    if b == next { NextBufferFilled(m, layout, next, pixels); } else { OtherBufferKept(m, layout, next, pixels, b); }
  }

  lemma PublishedHeader(m: seq<byte>, layout: Layout, f: Frame, next: nat)
    requires Publishable(layout, f, next, |m|) && next == (Words(m)[INDEX] + 1) % BUFFERS
    requires BufferAt(layout, next) + |f.pixels| <= |m| && PIXELS_START <= BufferAt(layout, next)
    ensures Words(PublishedBytes(m, f, next, BufferAt(layout, next))) == PublishedWords(Words(m), f)
  {
    BufferWriteKeepsWords(m, BufferAt(layout, next), f.pixels);
    var filled := Splice(m, BufferAt(layout, next), f.pixels);
    HeaderBytesEffect(filled, layout, f, next, HEADER_WRITES, 0);
    var headed := HeaderBytes(filled, f, next, HEADER_WRITES);
    WordWrite(headed, SEQ, NextSeq(headed));
    assert Words(headed)[SEQ] == Words(m)[SEQ];
  }

  lemma PublishedElsewhere(m: seq<byte>, layout: Layout, f: Frame, next: nat, j: nat)
    requires Publishable(layout, f, next, |m|) && j < |m| && !FrameBytesAt(layout, next, |f.pixels|, j)
    requires BufferAt(layout, next) + |f.pixels| <= |m| && PIXELS_START <= BufferAt(layout, next)
    ensures PublishedBytes(m, f, next, BufferAt(layout, next))[j] == m[j]
  {
    var filled := Splice(m, BufferAt(layout, next), f.pixels);
    assert filled[j] == m[j];
    HeaderBytesEffect(filled, layout, f, next, HEADER_WRITES, 0);
    assert HeaderBytes(filled, f, next, HEADER_WRITES)[j] == filled[j];
  }

  /** What `publish` does to the region is the uninterrupted publication of the protocol, and
      nothing outside the frame words and the next buffer's `|f.pixels|` bytes changes. */
  lemma PublishedBytesEffect(m: seq<byte>, layout: Layout, f: Frame, next: nat)
    requires Publishable(layout, f, next, |m|) && next == (Words(m)[INDEX] + 1) % BUFFERS
    ensures BufferAt(layout, next) + |f.pixels| <= |m| && PIXELS_START <= BufferAt(layout, next)
    ensures Words(PublishedBytes(m, f, next, BufferAt(layout, next))) == PublishedWords(Words(m), f)
    ensures Buffers(PublishedBytes(m, f, next, BufferAt(layout, next)), layout)
            == Filled(Buffers(m, layout), next, f.pixels)
    ensures forall j | 0 <= j < |m| && !FrameBytesAt(layout, next, |f.pixels|, j) ::
              PublishedBytes(m, f, next, BufferAt(layout, next))[j] == m[j]
  {
    BufferFits(layout, |m|, next);
    PublishedHeader(m, layout, f, next);
    var headed := HeaderBytes(Splice(m, BufferAt(layout, next), f.pixels), f, next, HEADER_WRITES);
    var word := Le32(NextSeq(headed));
    PublishedBuffer(m, layout, f, next, 0, word);
    PublishedBuffer(m, layout, f, next, 1, word);
    PublishedBuffer(m, layout, f, next, 2, word);
    forall j | 0 <= j < |m| && !FrameBytesAt(layout, next, |f.pixels|, j)
      ensures PublishedBytes(m, f, next, BufferAt(layout, next))[j] == m[j]
    {
      PublishedElsewhere(m, layout, f, next, j);
    }
  }

  /** The writes of one publication, with the buffer chosen. */
  method PublishInto(memory: array<byte>, source: array<byte>, mode: Mode, sourcePitch: u32, next: nat,
                     destination: nat)
    requires SourceHolds(source.Length, mode, sourcePitch) && source != memory && next < BUFFERS
    requires PIXELS_START <= destination && destination + Times(mode.height, mode.width * 4) <= memory.Length
    requires mode.width * 4 < U32_SPAN
    modifies memory
    ensures memory[..] == PublishedBytes(old(memory[..]), Packed(source[..], mode, sourcePitch), next, destination)
  {
    ghost var m, f := memory[..], Packed(source[..], mode, sourcePitch);
    CopyRows(memory, destination, source, mode.width * 4, sourcePitch, mode.height);
    WriteHeader(memory, mode, mode.width * 4, next, f);
    BumpSeq(memory);
  }

  lemma Fits(layout: Layout, mode: Mode, next: nat, mapped: nat)
    requires layout.Valid(mapped) && layout.Supports(mode) && next < BUFFERS
    ensures Times(mode.height, mode.width * 4) <= layout.bufferStride && mode.width <= MAX_DIMENSION
    ensures PIXELS_START <= BufferAt(layout, next)
    ensures BufferAt(layout, next) + Times(mode.height, mode.width * 4) <= mapped
  {
    SupportsIsTheRectangle(layout, mode, mapped);
    TimesIsProduct(mode.height, mode.width * 4);
    assert mode.height * (mode.width * 4) == mode.width * mode.height * 4;
    BufferFits(layout, mapped, next);
  }

  /** `now` is `was` with the source's frame published into the next buffer, and the header says so. */
  ghost predicate Published(was: seq<byte>, now: seq<byte>, layout: Layout, source: seq<byte>, mode: Mode,
                            sourcePitch: u32)
  {
    && SourceHolds(|source|, mode, sourcePitch) && PIXELS_START <= |was| == |now|
    && var f, next := Packed(source, mode, sourcePitch), (Le32At(was, 0x114) + 1) % 3;
       && Publishable(layout, f, next, |was|)
       && PIXELS_START <= BufferAt(layout, next) && BufferAt(layout, next) + |f.pixels| <= |was|
       && now == PublishedBytes(was, f, next, BufferAt(layout, next))
       && HeaderSays(now, (Le32At(was, 0x110) + 1) % U32_SPAN, next, mode)
  }

  /** Publish into the buffer after the current one. */
  method PublishNext(memory: array<byte>, layout: Layout, source: array<byte>, mode: Mode, sourcePitch: u32, next: nat)
    requires PIXELS_START <= memory.Length && SourceHolds(source.Length, mode, sourcePitch) && source != memory
    requires Publishable(layout, Packed(source[..], mode, sourcePitch), next, memory.Length)
    requires next == (Le32At(memory[..], 0x114) + 1) % 3 && PIXELS_START <= BufferAt(layout, next)
    requires BufferAt(layout, next) + Times(mode.height, mode.width * 4) <= memory.Length
    modifies memory
    ensures Published(old(memory[..]), memory[..], layout, source[..], mode, sourcePitch)
  {
    ghost var m := memory[..];
    WordAddresses(m);
    PublishInto(memory, source, mode, sourcePitch, next, BufferAt(layout, next));
    PublishedSays(m, layout, Packed(source[..], mode, sourcePitch), mode, next);
  }

  /** Publish one frame of the source, or change nothing. */
  method Publish(memory: array<byte>, layout: Layout, source: array<byte>, mode: Mode, sourcePitch: u32)
    returns (ok: bool)
    requires layout.Valid(memory.Length) && source != memory
    requires layout.Supports(mode) && mode.width * 4 <= sourcePitch ==> SourceHolds(source.Length, mode, sourcePitch)
    modifies memory
    ensures ok <==> layout.Supports(mode) && mode.width * 4 <= sourcePitch && Le32At(old(memory[..]), 0x114) < 3
    ensures !ok ==> memory[..] == old(memory[..])
    ensures ok ==> Published(old(memory[..]), memory[..], layout, source[..], mode, sourcePitch)
  {
    if !layout.Supports(mode) || sourcePitch < mode.width * 4 { return false; }
    var current := Le32At(memory[..], 0x114);
    if current >= 3 { return false; }
    var next := (current + 1) % BUFFERS;
    Fits(layout, mode, next, memory.Length);
    PublishNext(memory, layout, source, mode, sourcePitch, next);
    return true;
  }

  /** A frame `publish` accepts is one the protocol can begin to publish. */
  lemma PackedIsFrameOk(c: Config, source: seq<byte>, mode: Mode, sourcePitch: u32)
    requires c.Valid() && c.layout.Supports(mode) && SourceHolds(|source|, mode, sourcePitch)
    ensures c.FrameOk(Packed(source, mode, sourcePitch))
  {
    SupportsIsTheRectangle(c.layout, mode, c.layout.size);
    TimesIsProduct(mode.height, mode.width * 4);
    assert mode.height * (mode.width * 4) == mode.width * mode.height * 4 == mode.width * 4 * mode.height;
  }

  /** Seen through the frame words and the buffers, the bytes `publish` leaves are those of a
      protocol state reached by the publisher's own ordered steps. */
  lemma PublishRefinesProtocol(c: Config, s: State, m: seq<byte>, f: Frame) returns (t: State)
    requires Inv(c, s) && Enabled(c, s, Begin(f)) && c.layout.BuffersFit(|m|) && f.pitch < U32_SPAN
    requires s.words == Words(m) && s.buffers == Buffers(m, c.layout)
    ensures Reaches(c, s, t) && t.publisher == Idle && t.history == s.history + [f] && t.reader == s.reader
    ensures var next := (Words(m)[INDEX] + 1) % BUFFERS;
            && Publishable(c.layout, f, next, |m|)
            && PIXELS_START <= BufferAt(c.layout, next) && BufferAt(c.layout, next) + |f.pixels| <= |m|
            && t.words == Words(PublishedBytes(m, f, next, BufferAt(c.layout, next)))
            && t.buffers == Buffers(PublishedBytes(m, f, next, BufferAt(c.layout, next)), c.layout)
  {
    t := UninterruptedPublication(c, s, f);
    PublishedBytesEffect(m, c.layout, f, (Words(m)[INDEX] + 1) % BUFFERS);
  }

  // The same by address, independently of how the words are numbered.

  /** Where the frame words are in the region (guest and host agree on these addresses). */
  lemma WordAddresses(m: seq<byte>)
    requires PIXELS_START <= |m|
    ensures Words(m)[0] == Le32At(m, 0x110) && Words(m)[1] == Le32At(m, 0x114)
    ensures Words(m)[2] == Le32At(m, 0x118) && Words(m)[3] == Le32At(m, 0x11c)
    ensures Words(m)[4] == Le32At(m, 0x120) && Words(m)[5] == Le32At(m, 0x124)
    ensures Words(m)[6] == Le32At(m, 0x128) && Words(m)[7] == Le32At(m, 0x12c)
    ensures Words(m)[8] == Le32At(m, 0x130) && Words(m)[9] == Le32At(m, 0x134)
  {
  }

  /** The header a publication leaves: sequence, buffer, width, height, pitch, format, no damage. */
  predicate HeaderSays(m: seq<byte>, seqNo: u32, next: nat, mode: Mode)
    requires PIXELS_START <= |m|
  {
    && Le32At(m, 0x110) == seqNo && Le32At(m, 0x114) == next
    && Le32At(m, 0x118) == mode.width && Le32At(m, 0x11c) == mode.height
    && Le32At(m, 0x120) == mode.width * 4 && Le32At(m, 0x124) == 0x34325258
    && Le32At(m, 0x128) == Le32At(m, 0x12c) == Le32At(m, 0x130) == Le32At(m, 0x134) == 0
  }

  lemma PublishedWordsAre(words: seq<u32>, f: Frame)
    requires |words| == WORDS
    ensures var w := PublishedWords(words, f);
            && |w| == 10 && w[0] == (words[0] + 1) % U32_SPAN && w[1] == (words[1] as int + 1) % 3
            && w[2] == f.width && w[3] == f.height && w[4] == f.pitch && w[5] == f.format
            && w[6] == w[7] == w[8] == w[9] == 0
  {
  }

  lemma HeaderFromWords(r: seq<byte>, words: seq<u32>, f: Frame, mode: Mode)
    requires PIXELS_START <= |r| && |words| == WORDS && Words(r) == PublishedWords(words, f)
    requires f.width == mode.width && f.height == mode.height && f.pitch == mode.width * 4 && f.format == XRGB8888
    ensures HeaderSays(r, (words[0] + 1) % U32_SPAN, (words[1] as int + 1) % 3, mode)
  {
    PublishedWordsAre(words, f);
    WordAddresses(r);
  }

  lemma PublishedSays(m: seq<byte>, layout: Layout, f: Frame, mode: Mode, next: nat)
    requires Publishable(layout, f, next, |m|) && next == (Words(m)[INDEX] + 1) % BUFFERS
    requires BufferAt(layout, next) + |f.pixels| <= |m| && PIXELS_START <= BufferAt(layout, next)
    requires f.width == mode.width && f.height == mode.height && f.pitch == mode.width * 4 && f.format == XRGB8888
    ensures HeaderSays(PublishedBytes(m, f, next, BufferAt(layout, next)), (Words(m)[0] + 1) % U32_SPAN, next, mode)
  {
    PublishedHeader(m, layout, f, next);
    HeaderFromWords(PublishedBytes(m, f, next, BufferAt(layout, next)), Words(m), f, mode);
  }

  /** The buffers lie a stride apart from the layout's offset on. */
  lemma BufferPlace(layout: Layout, next: nat)
    requires next < BUFFERS
    ensures layout.buffersOffset + next * layout.bufferStride == BufferAt(layout, next)
  {
  }

  lemma FilledAt(r: seq<byte>, layout: Layout, was: seq<seq<byte>>, next: nat, pixels: seq<byte>, j: nat)
    requires layout.BuffersFit(|r|) && next < BUFFERS == |was| && j < |pixels| <= |was[next]|
    requires Buffers(r, layout) == Filled(was, next, pixels)
    ensures BufferAt(layout, next) + j < |r| && r[BufferAt(layout, next) + j] == pixels[j]
  {
    BufferFits(layout, |r|, next);
    assert Buffers(r, layout)[next] == Buffer(r, layout, next);
    assert Buffer(r, layout, next)[j] == pixels[j];
  }

  lemma PublishedByte(m: seq<byte>, layout: Layout, f: Frame, next: nat, j: nat)
    requires Publishable(layout, f, next, |m|) && next == (Words(m)[INDEX] + 1) % BUFFERS && j < |f.pixels|
    ensures PIXELS_START <= BufferAt(layout, next) && BufferAt(layout, next) + |f.pixels| <= |m|
    ensures PublishedBytes(m, f, next, BufferAt(layout, next))[BufferAt(layout, next) + j] == f.pixels[j]
  {
    PublishedBytesEffect(m, layout, f, next);
    FilledAt(PublishedBytes(m, f, next, BufferAt(layout, next)), layout, Buffers(m, layout), next, f.pixels, j);
  }

  /** The packed rows of the source are in memory from `base` on. */
  predicate RowsHeld(now: seq<byte>, base: nat, source: seq<byte>, row: nat, pitch: nat, rows: nat) {
    && RowsIn(|source|, row, pitch, rows) && base + Times(rows, row) <= |now|
    && now[base..base + Times(rows, row)] == PackedRows(source, row, pitch, rows)
  }

  lemma HeldByte(now: seq<byte>, base: nat, source: seq<byte>, row: nat, pitch: nat, rows: nat,
                 x: nat, y: nat, from: nat, at: nat)
    requires RowsHeld(now, base, source, row, pitch, rows) && x < row && y < rows
    requires from == y * pitch + x && at == base + (y * row + x)
    ensures at < |now| && from < |source| && now[at] == source[from]
  {
    PackedAt(source, row, pitch, rows, y, x);
    assert now[base..base + Times(rows, row)][at - base] == now[at];
  }

  lemma PublishedHolds(was: seq<byte>, now: seq<byte>, layout: Layout, source: seq<byte>, mode: Mode, sourcePitch: u32,
                       next: nat)
    requires Published(was, now, layout, source, mode, sourcePitch) && next == (Le32At(was, 0x114) + 1) % 3
    ensures RowsHeld(now, BufferAt(layout, next), source, mode.width * 4, sourcePitch, mode.height)
  {
    var f, base := Packed(source, mode, sourcePitch), BufferAt(layout, next);
    forall j | 0 <= j < |f.pixels| ensures now[base..base + |f.pixels|][j] == f.pixels[j] {
      PublishedPlace(was, now, layout, f, next, j, base + j);
    }
  }

  /** After a publication, byte `x` of row `y` of the source is at its place, `at`, in the next buffer. */
  lemma PublishedPixel(was: seq<byte>, now: seq<byte>, layout: Layout, source: seq<byte>, mode: Mode, sourcePitch: u32,
                       x: nat, y: nat, next: nat, from: nat, at: nat)
    requires Published(was, now, layout, source, mode, sourcePitch) && x < mode.width * 4 && y < mode.height
    requires next == (Le32At(was, 0x114) + 1) % 3 && from == y * sourcePitch + x
    requires at == layout.buffersOffset + next * layout.bufferStride + (y * (mode.width * 4) + x)
    ensures at < |now| && from < |source| && now[at] == source[from]
  {
    BufferPlace(layout, next);
    PublishedHolds(was, now, layout, source, mode, sourcePitch, next);
    HeldByte(now, BufferAt(layout, next), source, mode.width * 4, sourcePitch, mode.height, x, y, from, at);
  }

  lemma PublishedPlace(was: seq<byte>, now: seq<byte>, layout: Layout, f: Frame, next: nat, j: nat, at: nat)
    requires Publishable(layout, f, next, |was|) && next == (Le32At(was, 0x114) + 1) % 3 && j < |f.pixels|
    requires PIXELS_START <= BufferAt(layout, next) && BufferAt(layout, next) + |f.pixels| <= |was|
    requires now == PublishedBytes(was, f, next, BufferAt(layout, next)) && at == BufferAt(layout, next) + j
    ensures at < |now| && now[at] == f.pixels[j]
  {
    WordAddresses(was);
    PublishedByte(was, layout, f, next, j);
  }
}
