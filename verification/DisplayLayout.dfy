/** Display modes and the layout of the VMLABDSP shared-memory region. */
module DisplayLayout {
  import opened Bytes

  const VERSION: u32 := 1
  const HEADER_SIZE: u32 := 4096
  const PIXELS_START: u64 := 4096 + 256 * 256 * 4
  const MAX_DIMENSION: u32 := 16384
  const BUFFERS := 3
  const MAGIC: seq<byte> := [0x56, 0x4d, 0x4c, 0x41, 0x42, 0x44, 0x53, 0x50] // "VMLABDSP"

  datatype Mode = Mode(width: u32, height: u32)

  /** The value modulo 2^64. */
  function Wrap64(v: nat): (w: nat)
    ensures w < U64_SPAN
  {
    if v < U64_SPAN then v else Wrap64(v - U64_SPAN)
  }

  datatype Layout = Layout(size: u64, buffersOffset: u64, bufferStride: u32, maximum: Mode) {

    /** The product is 64-bit in the source, so it wraps here. */
    predicate Supports(mode: Mode) {
      && mode.width != 0 && mode.height != 0
      && mode.width <= maximum.width && mode.height <= maximum.height
      && Wrap64(mode.width * mode.height * 4) <= bufferStride
    }

    /** The three buffers lie behind the header and cursor, inside the region. */
    predicate BuffersFit(mappedSize: nat) {
      && PIXELS_START <= buffersOffset <= size <= mappedSize
      && buffersOffset + 3 * bufferStride <= size
    }

    /** What a layout taken from a region of `mappedSize` bytes promises. */
    predicate Valid(mappedSize: nat) {
      && BuffersFit(mappedSize)
      && buffersOffset % 4096 == 0 && bufferStride % 4096 == 0 && 0 < bufferStride
      && 0 < maximum.width <= MAX_DIMENSION && 0 < maximum.height <= MAX_DIMENSION
      && maximum.width * maximum.height * 4 <= bufferStride
    }
  }

  /** The layout words as the header states them. */
  function Candidate(memory: seq<byte>): (c: Layout)
    requires PIXELS_START <= |memory|
  {
    Layout(Le64At(memory, 0x10), Le64At(memory, 0x28), Le32At(memory, 0x24),
           Mode(Le32At(memory, 0x18), Le32At(memory, 0x1c)))
  }

  /** The checks on a candidate, in the source's order. */
  predicate Acceptable(c: Layout, mappedSize: nat) {
    !(c.size > mappedSize || c.size < PIXELS_START
      || c.buffersOffset < PIXELS_START || c.buffersOffset > c.size
      || c.buffersOffset % 4096 != 0 || c.bufferStride % 4096 != 0
      || c.bufferStride == 0
      || c.bufferStride * 3 > c.size - c.buffersOffset
      || c.maximum.width > MAX_DIMENSION || c.maximum.height > MAX_DIMENSION
      || !c.Supports(c.maximum))
  }

  /** A region that calls itself one of this protocol, version and shape. */
  predicate Announced(memory: seq<byte>) {
    && PIXELS_START <= |memory| && memory[..8] == MAGIC && Le32At(memory, 8) == VERSION
    && Le32At(memory, 12) == HEADER_SIZE && Le32At(memory, 0x20) == BUFFERS
  }

  function Validate(memory: seq<byte>): (r: Option<Layout>) {
    if !Announced(memory) || !Acceptable(Candidate(memory), |memory|) then None else Some(Candidate(memory))
  }

  /** The checks amount to `Valid`: nothing the wrapping arithmetic could hide slips
      through, and nothing valid is refused. */
  lemma AcceptableIsValid(c: Layout, mappedSize: nat)
    ensures Acceptable(c, mappedSize) <==> c.Valid(mappedSize)
  {
    if c.maximum.width <= MAX_DIMENSION && c.maximum.height <= MAX_DIMENSION {
      LargestFrame(c.maximum);
    }
  }

  /** A layout is taken exactly from an announced region whose words are valid for its size, and it
      is those words; every supported frame then has a place in each of its buffers. */
  lemma ValidateIff(memory: seq<byte>)
    ensures Validate(memory).Some? <==> Announced(memory) && Candidate(memory).Valid(|memory|)
    ensures Validate(memory).Some? ==>
              var layout := Validate(memory).value;
              && layout == Candidate(memory)
              && forall mode: Mode :: layout.Supports(mode) ==>
                   mode.width * mode.height * 4 <= layout.bufferStride <= |memory|
  {
    if Announced(memory) {
      var c := Candidate(memory);
      AcceptableIsValid(c, |memory|);
      if c.Valid(|memory|) {
        forall mode: Mode | c.Supports(mode) ensures mode.width * mode.height * 4 <= c.bufferStride {
          SupportsIsTheRectangle(c, mode, |memory|);
        }
      }
    }
  }

  /** Which regions are accepted, by address: magic, version, header size and buffer count; whole
      pages of stride and offset behind header and cursor; three buffers inside the region; and a
      maximum mode that fits one buffer. */
  lemma ValidateReads(memory: seq<byte>)
    ensures Validate(memory).Some? <==>
              && 266240 <= |memory| && memory[..8] == [0x56, 0x4d, 0x4c, 0x41, 0x42, 0x44, 0x53, 0x50]
              && Le32At(memory, 0x08) == 1 && Le32At(memory, 0x0c) == 4096 && Le32At(memory, 0x20) == 3
              && var size, offset, stride := Le64At(memory, 0x10), Le64At(memory, 0x28), Le32At(memory, 0x24);
                 var w, h := Le32At(memory, 0x18), Le32At(memory, 0x1c);
                 && 266240 <= offset && offset + 3 * stride <= size <= |memory|
                 && offset % 4096 == 0 && stride % 4096 == 0 && 0 < stride
                 && 0 < w <= 16384 && 0 < h <= 16384 && w * h * 4 <= stride
    ensures Validate(memory).Some? ==>
              Validate(memory).value == Layout(Le64At(memory, 0x10), Le64At(memory, 0x28), Le32At(memory, 0x24),
                                               Mode(Le32At(memory, 0x18), Le32At(memory, 0x1c)))
  {
    ValidateIff(memory);
  }

  lemma MulBound(a: nat, a': nat, b: nat, b': nat)
    requires a <= a' && b <= b'
    ensures a * b <= a' * b'
  {
    assert a * b <= a' * b;
    assert a' * b <= a' * b';
  }

  lemma LargestFrame(mode: Mode)
    requires mode.width <= MAX_DIMENSION && mode.height <= MAX_DIMENSION
    ensures 0 <= mode.width * mode.height * 4 <= 0x4000_0000
    ensures Wrap64(mode.width * mode.height * 4) == mode.width * mode.height * 4
  {
    MulBound(mode.width, MAX_DIMENSION, mode.height, MAX_DIMENSION);
  }

  /** On a valid layout a mode is supported exactly when it is non-empty and no
      larger than the maximum in either dimension: neither the 64-bit product nor
      the stride can refuse it, and one frame of it fits one buffer. */
  lemma SupportsIsTheRectangle(layout: Layout, mode: Mode, mapped: nat)
    requires layout.Valid(mapped)
    ensures layout.Supports(mode) <==>
            0 < mode.width <= layout.maximum.width && 0 < mode.height <= layout.maximum.height
    ensures layout.Supports(mode) ==> mode.width * mode.height * 4 <= layout.bufferStride
  {
    if mode.width <= layout.maximum.width && mode.height <= layout.maximum.height {
      MulBound(mode.width, layout.maximum.width, mode.height, layout.maximum.height);
      LargestFrame(mode);
    }
  }

  function Preferred(layout: Layout, requested: Mode): (m: Mode)
  {
    if layout.Supports(requested) then requested
    else if layout.Supports(Mode(1920, 1080)) then Mode(1920, 1080)
    else layout.maximum
  }

  const COMMON: seq<Mode> := [
    Mode(640, 480), Mode(800, 600), Mode(1024, 768), Mode(1280, 720), Mode(1280, 800), Mode(1600, 900),
    Mode(1920, 1080), Mode(1920, 1200), Mode(2560, 1440), Mode(2560, 1600), Mode(3840, 2160)]

  /** The common modes among the first `n` that the list takes over, in order. */
  function Offered(layout: Layout, best: Mode, n: nat): (s: seq<Mode>)
    requires n <= |COMMON|
    ensures |s| <= n
  {
    if n == 0 then []
    else
      var mode := COMMON[n - 1];
      Offered(layout, best, n - 1) + if layout.Supports(mode) && mode != best then [mode] else []
  }

  function ModeList(layout: Layout, requested: Mode): (s: seq<Mode>)
  {
    var best := Preferred(layout, requested);
    [best] + Offered(layout, best, |COMMON|)
  }

  method Modes(layout: Layout, requested: Mode, output: array<Mode>) returns (count: nat)
    requires output.Length == 12
    modifies output
    ensures count <= 12 && output[..count] == ModeList(layout, requested)
  {
    count := 1;
    output[0] := Preferred(layout, requested);
    ghost var best := output[0];
    for i := 0 to |COMMON|
      invariant 1 <= count <= i + 1 && output[0] == best
      invariant output[..count] == [best] + Offered(layout, best, i)
    {
      var mode := COMMON[i];
      if layout.Supports(mode) && mode != output[0] {
        output[count] := mode;
        count := count + 1;
      }
    }
  }

  lemma {:induction false} OfferedMembers(layout: Layout, best: Mode, n: nat, mode: Mode)
    requires n <= |COMMON|
    ensures mode in Offered(layout, best, n) <==> mode in COMMON[..n] && layout.Supports(mode) && mode != best
  {
    if n != 0 {
      OfferedMembers(layout, best, n - 1, mode);
      assert COMMON[..n] == COMMON[..n - 1] + [COMMON[n - 1]];
    }
  }

  predicate Distinct(s: seq<Mode>) {
    forall i, j | 0 <= i < j < |s| :: s[i] != s[j]
  }

  lemma {:induction false} OfferedDistinct(layout: Layout, best: Mode, n: nat)
    requires n <= |COMMON|
    ensures Distinct(Offered(layout, best, n))
  {
    if n != 0 {
      OfferedDistinct(layout, best, n - 1);
      OfferedMembers(layout, best, n - 1, COMMON[n - 1]);
      assert COMMON[n - 1] !in COMMON[..n - 1];
    }
  }

  /** The mode a monitor prefers: what was asked for if it lies within the maximum, else full HD if
      that does, else the maximum. */
  lemma PreferredIs(layout: Layout, requested: Mode, mapped: nat)
    requires layout.Valid(mapped)
    ensures Preferred(layout, requested) ==
            if 0 < requested.width <= layout.maximum.width && 0 < requested.height <= layout.maximum.height
            then requested
            else if 1920 <= layout.maximum.width && 1080 <= layout.maximum.height then Mode(1920, 1080)
            else layout.maximum
  {
    SupportsIsTheRectangle(layout, requested, mapped);
    SupportsIsTheRectangle(layout, Mode(1920, 1080), mapped);
  }

  /** On a valid layout the list is what a monitor should offer: the preferred mode first, then
      exactly the other common modes that are supported, each once, twelve at most. */
  lemma ModeListIsExact(layout: Layout, requested: Mode, mapped: nat)
    requires layout.Valid(mapped)
    ensures var list := ModeList(layout, requested);
            && 1 <= |list| <= 12 && Distinct(list)
            && list[0] == (if 0 < requested.width <= layout.maximum.width
                              && 0 < requested.height <= layout.maximum.height then requested
                           else if 1920 <= layout.maximum.width && 1080 <= layout.maximum.height then Mode(1920, 1080)
                           else layout.maximum)
            && forall mode :: mode in list <==> layout.Supports(mode) && (mode == list[0] || mode in COMMON)
  {
    PreferredIs(layout, requested, mapped);
    var best := Preferred(layout, requested);
    SupportsIsTheRectangle(layout, layout.maximum, mapped);
    OfferedDistinct(layout, best, |COMMON|);
    forall mode
      ensures mode in Offered(layout, best, |COMMON|) <==> mode in COMMON && layout.Supports(mode) && mode != best
    {
      OfferedMembers(layout, best, |COMMON|, mode);
      assert COMMON[..|COMMON|] == COMMON;
    }
    assert best !in Offered(layout, best, |COMMON|);
    assert ModeList(layout, requested)[1..] == Offered(layout, best, |COMMON|);
  }

  /** The list of a 3840x2160 region nobody asked a mode of, written out. */
  lemma ShippedModes(layout: Layout, mapped: nat)
    requires layout.Valid(mapped) && layout.maximum == Mode(3840, 2160)
    ensures ModeList(layout, Mode(0, 0))
            == [Mode(1920, 1080), Mode(640, 480), Mode(800, 600), Mode(1024, 768), Mode(1280, 720), Mode(1280, 800),
                Mode(1600, 900), Mode(1920, 1200), Mode(2560, 1440), Mode(2560, 1600), Mode(3840, 2160)]
  {
    PreferredIs(layout, Mode(0, 0), mapped);
    var best := Mode(1920, 1080);
    ShippedUpTo(layout, mapped, best, 6);
    OfferedNext(layout, mapped, best, 7);
    OfferedNext(layout, mapped, best, 8);
    OfferedNext(layout, mapped, best, 9);
    OfferedNext(layout, mapped, best, 10);
    OfferedNext(layout, mapped, best, 11);
  }

  lemma OfferedNext(layout: Layout, mapped: nat, best: Mode, n: nat)
    requires layout.Valid(mapped) && layout.maximum == Mode(3840, 2160) && 0 < n <= |COMMON|
    ensures Offered(layout, best, n)
            == Offered(layout, best, n - 1) + if COMMON[n - 1] != best then [COMMON[n - 1]] else []
  {
    SupportsIsTheRectangle(layout, COMMON[n - 1], mapped);
  }

  lemma {:induction false} ShippedUpTo(layout: Layout, mapped: nat, best: Mode, n: nat)
    requires layout.Valid(mapped) && layout.maximum == Mode(3840, 2160) && n <= 6 && best == Mode(1920, 1080)
    ensures Offered(layout, best, n) == COMMON[..n]
  {
    if n != 0 {
      ShippedUpTo(layout, mapped, best, n - 1);
      OfferedNext(layout, mapped, best, n);
      assert COMMON[..n] == COMMON[..n - 1] + [COMMON[n - 1]];
    }
  }

  /** Layouts that support the same modes and share a maximum offer the same list. */
  lemma {:induction false} SameOffer(a: Layout, b: Layout, best: Mode, n: nat)
    requires n <= |COMMON| && forall mode :: a.Supports(mode) == b.Supports(mode)
    ensures Offered(a, best, n) == Offered(b, best, n)
  {
    if n != 0 { SameOffer(a, b, best, n - 1); }
  }
}
