/** A region as the host's tool initializes it: the driver takes its layout from it, and the
    frame protocol starts there. */
module Region {
  import opened Bytes
  import opened DisplayLayout
  import opened FrameProtocol
  import opened Publish

  const LEAST_SIZE := 100 * 1024 * 1024
  const INITIAL_STRIDE: u32 := 3840 * 2160 * 4
  const INITIAL_OFFSET: u64 := PIXELS_START

  function InitialLayout(size: u64): (layout: Layout) {
    Layout(size, INITIAL_OFFSET, INITIAL_STRIDE, Mode(3840, 2160))
  }

  /** The header the tool writes over zeros. */
  function InitialHeader(size: u64): (h: seq<byte>)
    ensures |h| == 48
  {
    MAGIC + Le32(VERSION) + Le32(HEADER_SIZE) + LeBytes(size, 8) + Le32(3840) + Le32(2160)
    + Le32(BUFFERS) + Le32(INITIAL_STRIDE) + LeBytes(INITIAL_OFFSET, 8)
  }

  /** Three buffers of 3840 by 2160 pixels behind the first 266240 bytes; the tool asks for 100 MiB. */
  lemma InitialLayoutIsValid(size: u64)
    ensures InitialLayout(size).Valid(size) <==> 266240 + 3 * 3840 * 2160 * 4 <= size
    ensures size == 104857600 ==> LEAST_SIZE == size && InitialLayout(size).Valid(size)
  {
  }

  lemma Parts(magic: seq<byte>, version: seq<byte>, header: seq<byte>, size: seq<byte>, w: seq<byte>, h: seq<byte>,
              buffers: seq<byte>, stride: seq<byte>, offset: seq<byte>)
    requires |magic| == |size| == |offset| == 8
    requires |version| == |header| == |w| == |h| == |buffers| == |stride| == 4
    ensures var all := magic + version + header + size + w + h + buffers + stride + offset;
            && all[..8] == magic && all[8..12] == version && all[12..16] == header
            && all[0x10..0x18] == size && all[0x18..0x1c] == w && all[0x1c..0x20] == h
            && all[0x20..0x24] == buffers && all[0x24..0x28] == stride && all[0x28..0x30] == offset
  {
  }

  lemma InitialFields(size: u64)
    ensures var h := InitialHeader(size);
            && h[..8] == MAGIC && h[8..12] == Le32(VERSION) && h[12..16] == Le32(HEADER_SIZE)
            && h[0x10..0x18] == LeBytes(size, 8) && h[0x18..0x1c] == Le32(3840) && h[0x1c..0x20] == Le32(2160)
            && h[0x20..0x24] == Le32(BUFFERS) && h[0x24..0x28] == Le32(INITIAL_STRIDE)
            && h[0x28..0x30] == LeBytes(INITIAL_OFFSET, 8)
  {
    Parts(MAGIC, Le32(VERSION), Le32(HEADER_SIZE), LeBytes(size, 8), Le32(3840), Le32(2160),
          Le32(BUFFERS), Le32(INITIAL_STRIDE), LeBytes(INITIAL_OFFSET, 8));
  }

  lemma Field32(memory: seq<byte>, h: seq<byte>, at: nat, v: u32)
    requires h <= memory && at + 4 <= |h| && h[at..at + 4] == Le32(v)
    ensures Le32At(memory, at) == v
  {
    assert memory[at..at + 4] == h[at..at + 4];
    Le32RoundTrip(v);
  }

  lemma Field64(memory: seq<byte>, h: seq<byte>, at: nat, v: u64)
    requires h <= memory && at + 8 <= |h| && h[at..at + 8] == LeBytes(v, 8)
    ensures Le64At(memory, at) == v
  {
    assert memory[at..at + 8] == h[at..at + 8];
    Spans();
    LeRoundTrip(v, 8);
  }

  /** The driver takes exactly the layout the tool meant, for every size the tool accepts. */
  lemma InitialRegionValidates(size: u64, memory: seq<byte>)
    requires LEAST_SIZE <= size == |memory| && InitialHeader(size) <= memory
    ensures Validate(memory) == Some(InitialLayout(size)) && InitialLayout(size).Valid(size)
  {
    var h := InitialHeader(size);
    InitialFields(size);
    assert memory[..8] == h[..8];
    Field32(memory, h, 8, VERSION);
    Field32(memory, h, 12, HEADER_SIZE);
    Field64(memory, h, 0x10, size);
    Field32(memory, h, 0x18, 3840);
    Field32(memory, h, 0x1c, 2160);
    Field32(memory, h, 0x20, BUFFERS);
    Field32(memory, h, 0x24, INITIAL_STRIDE);
    Field64(memory, h, 0x28, INITIAL_OFFSET);
    InitialLayoutIsValid(size);
    ValidateIff(memory);
  }

  const NO_FRAME := Frame(0, 0, 0, 0, [])

  /** The protocol's view of a region nobody has published to. */
  function Unpublished(memory: seq<byte>, layout: Layout): (s: State)
    requires layout.BuffersFit(|memory|)
  {
    State(Words(memory), Buffers(memory, layout), [NO_FRAME], Idle, Start(0))
  }

  predicate FrameWordsZero(memory: seq<byte>)
    requires PIXELS_START <= |memory|
  {
    forall i | 0 <= i < WORDS :: Words(memory)[i] == 0
  }

  /** A region with zero frame words is where runs of the protocol start. */
  lemma UnpublishedIsInit(memory: seq<byte>, layout: Layout)
    requires layout.Valid(layout.size) && layout.size == |memory| && FrameWordsZero(memory)
    ensures Init(Config(layout, 0, 0), Unpublished(memory, layout))
  {
    forall b: nat | b < BUFFERS { BufferFits(layout, |memory|, b); }
  }

  /** What the tool leaves: its header, the first request, and zeros up to the pixels' page. */
  predicate Initialized(size: u64, memory: seq<byte>) {
    && LEAST_SIZE <= size == |memory| && InitialHeader(size) <= memory
    && forall i | 0x40 <= i < HEADER_SIZE :: memory[i] == 0
  }

  lemma {:induction false} ZeroWord(s: seq<byte>)
    requires forall i | 0 <= i < |s| :: s[i] == 0
    ensures LeValue(s) == 0
  {
    if s != [] { ZeroWord(s[1..]); }
  }

  lemma ZeroFrameWords(memory: seq<byte>)
    requires PIXELS_START <= |memory| && forall i | 0x40 <= i < HEADER_SIZE :: memory[i] == 0
    ensures FrameWordsZero(memory)
  {
    forall i: nat | i < WORDS ensures Words(memory)[i] == 0 {
      ZeroWord(memory[WordOffset(i)..WordOffset(i) + 4]);
    }
  }

  /** The driver accepts every region the tool initializes, and the frame protocol starts there. */
  lemma InitializedIsInit(size: u64, memory: seq<byte>)
    requires Initialized(size, memory)
    ensures Validate(memory) == Some(InitialLayout(size)) && InitialLayout(size).Valid(size)
    ensures Init(Config(InitialLayout(size), 0, 0), Unpublished(memory, InitialLayout(size)))
  {
    InitialRegionValidates(size, memory);
    ZeroFrameWords(memory);
    UnpublishedIsInit(memory, InitialLayout(size));
  }

  /** From there the driver can begin to publish any frame of a supported mode. */
  lemma CanPublish(memory: seq<byte>, layout: Layout, source: seq<byte>, mode: Mode, sourcePitch: u32)
    requires layout.Valid(layout.size) && layout.size == |memory| && FrameWordsZero(memory)
    requires layout.Supports(mode) && SourceHolds(|source|, mode, sourcePitch)
    ensures Init(Config(layout, 0, 0), Unpublished(memory, layout))
    ensures Enabled(Config(layout, 0, 0), Unpublished(memory, layout), Begin(Packed(source, mode, sourcePitch)))
  {
    UnpublishedIsInit(memory, layout);
    PackedIsFrameOk(Config(layout, 0, 0), source, mode, sourcePitch);
  }
}
