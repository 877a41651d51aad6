/** The monitor description: the 128-byte EDID the driver hands to the system and the parser
    that gets the layout's maximum and the requested mode back out of it. */
module Edid {
  import opened Bytes
  import opened DisplayLayout

  const EDID_SIZE := 128
  const PARSED_STRIDE: u32 := 0xffff_ffff
  const VMLD: seq<byte> := [0x56, 0x4d, 0x4c, 0x44]

  /** The sum of all bytes; the format asks for a multiple of 256. */
  function Sum(s: seq<byte>): (n: nat) { if s == [] then 0 else Sum(s[..|s| - 1]) + s[|s| - 1] as int }

  const SIGNATURE: seq<byte> := [0, 255, 255, 255, 255, 255, 255, 0]
  const NAME: seq<byte> := [0x56, 0x4d, 0x4c, 0x61, 0x62, 0x20, 0x64, 0x69, 0x73, 0x70, 0x6c, 0x61, 0x79]
  const SERIAL: seq<byte> := [48, 48, 48, 48, 48, 48, 48, 48, 48, 48, 48, 49, 10]

  /** Header, vendor and version, display parameters, and the eight unused standard timings. */
  function IdentityAt(i: nat): (b: byte) {
    if i < 8 then SIGNATURE[i]
    else if i == 8 then 0x59 else if i == 9 then 0xac
    else if i == 10 || i == 12 || i == 16 || i == 18 then 1
    else if i == 17 then 36 else if i == 19 then 4
    else if i == 20 then 0x80 else if i == 21 then 60 else if i == 22 then 34
    else if i == 23 then 120 else if i == 24 then 0x06
    else if 38 <= i < 54 then 1
    else 0
  }

  /** The mode in the detailed timing: the preferred one if its dimensions have 12 bits. */
  function Shown(layout: Layout, requested: Mode): (m: Mode) {
    var mode := Preferred(layout, requested);
    if mode.width > 4095 || mode.height > 4095 then Mode(1920, 1080) else mode
  }

  function PixelClock(mode: Mode): nat { (mode.width as int + 160) * (mode.height as int + 30) * 60 / 10000 }

  /** Byte `k` of the detailed timing descriptor. */
  function TimingAt(mode: Mode, clock: nat, k: nat): (b: byte) {
    if k == 0 then Low(clock) else if k == 1 then High(clock)
    else if k == 2 then Low(mode.width) else if k == 3 then 160
    else if k == 4 then Low(mode.width / 0x100 * 16)
    else if k == 5 then Low(mode.height) else if k == 6 then 30
    else if k == 7 then Low(mode.height / 0x100 * 16)
    else if k == 8 then 48 else if k == 9 then 32 else if k == 10 then 0x35
    else if k == 12 then 0x58 else if k == 13 then 0x54 else if k == 14 then 0x21
    else if k == 17 then 0x1a
    else 0
  }

  /** Name, serial number, and the driver's own descriptor with the two modes. */
  function DescriptorAt(maximum: Mode, requested: Mode, i: nat): (b: byte) {
    if i == 75 then 0xfc
    else if 77 <= i < 90 then NAME[i - 77]
    else if i == 93 then 0xff
    else if 95 <= i < 108 then SERIAL[i - 95]
    else if i == 111 then 0x0f
    else if 113 <= i < 117 then VMLD[i - 113]
    else if i == 117 then Low(maximum.width) else if i == 118 then High(maximum.width)
    else if i == 119 then Low(maximum.height) else if i == 120 then High(maximum.height)
    else if i == 121 then Low(requested.width) else if i == 122 then High(requested.width)
    else if i == 123 then Low(requested.height) else if i == 124 then High(requested.height)
    else 0
  }

  /** The block but for its checksum, with `shown` and `clock` in the detailed timing. */
  function BodyAt(maximum: Mode, requested: Mode, shown: Mode, clock: nat, i: nat): (b: byte) {
    if i < 54 then IdentityAt(i)
    else if i < 72 then TimingAt(shown, clock, i - 54)
    else DescriptorAt(maximum, requested, i)
  }

  function Body(maximum: Mode, requested: Mode, shown: Mode, clock: nat): (b: seq<byte>)
    ensures |b| == 127
  {
    seq(127, i requires 0 <= i => BodyAt(maximum, requested, shown, clock, i))
  }

  function Block(maximum: Mode, requested: Mode, shown: Mode, clock: nat): (e: seq<byte>)
    ensures |e| == EDID_SIZE
  {
    var body := Body(maximum, requested, shown, clock);
    body + [(0x100 - Sum(body) % 0x100) % 0x100]
  }

  function EdidBytes(layout: Layout, requested: Mode): (e: seq<byte>)
    ensures |e| == EDID_SIZE
  {
    Block(layout.maximum, requested, Shown(layout, requested), PixelClock(Shown(layout, requested)))
  }

  method Put(output: array<byte>, at: nat, bytes: seq<byte>)
    requires at + |bytes| <= output.Length
    modifies output
    ensures forall i | at <= i < at + |bytes| :: output[i] == bytes[i - at]
    ensures forall i | 0 <= i < output.Length && !(at <= i < at + |bytes|) :: output[i] == old(output[i])
  {
    for k := 0 to |bytes|
      invariant forall i | at <= i < at + k :: output[i] == bytes[i - at]
      invariant forall i | 0 <= i < output.Length && !(at <= i < at + k) :: output[i] == old(output[i])
    {
      output[at + k] := bytes[k];
    }
  }

  method PutIdentity(output: array<byte>)
    requires output.Length == EDID_SIZE
    modifies output
    ensures forall i: nat | i < 54 :: output[i] == IdentityAt(i)
    ensures forall i | 54 <= i < EDID_SIZE :: output[i] == 0
  {
    for i := 0 to EDID_SIZE
      invariant forall k | 0 <= k < i :: output[k] == 0
    {
      output[i] := 0;
    }
    Put(output, 0, SIGNATURE);
    output[8] := 0x59;
    output[9] := 0xac;
    output[10] := 1;
    output[12] := 1;
    output[16] := 1;
    output[17] := 36;
    output[18] := 1;
    output[19] := 4;
    output[20] := 0x80;
    output[21] := 60;
    output[22] := 34;
    output[23] := 120;
    output[24] := 0x06;
    PutUnusedTimings(output);
  }

  method PutUnusedTimings(output: array<byte>)
    requires output.Length == EDID_SIZE
    modifies output
    ensures forall i | 38 <= i < 54 :: output[i] == 1
    ensures forall i | 0 <= i < EDID_SIZE && !(38 <= i < 54) :: output[i] == old(output[i])
  {
    var i := 38;
    while i < 54
      invariant 38 <= i <= 54 && i % 2 == 0
      invariant forall k | 38 <= k < i :: output[k] == 1
      invariant forall k | 0 <= k < EDID_SIZE && !(38 <= k < i) :: output[k] == old(output[k])
    {
      output[i] := 1;
      output[i + 1] := 1;
      i := i + 2;
    }
  }

  method PutActive(output: array<byte>, mode: Mode, clock: nat)
    requires output.Length == EDID_SIZE
    modifies output
    ensures forall i | 54 <= i < 62 :: output[i] == TimingAt(mode, clock, i - 54)
    ensures forall i | 0 <= i < 54 || 62 <= i < EDID_SIZE :: output[i] == old(output[i])
  {
    output[54], output[55] := Low(clock), High(clock);
    output[56] := Low(mode.width);
    output[57] := 160;
    output[58] := Low(mode.width / 0x100 * 16);
    output[59] := Low(mode.height);
    output[60] := 30;
    output[61] := Low(mode.height / 0x100 * 16);
  }

  method PutTiming(output: array<byte>, mode: Mode, clock: nat)
    requires output.Length == EDID_SIZE
    requires forall i | 54 <= i < EDID_SIZE :: output[i] == 0
    modifies output
    ensures forall i | 54 <= i < 72 :: output[i] == TimingAt(mode, clock, i - 54)
    ensures forall i | 0 <= i < 54 || 72 <= i < EDID_SIZE :: output[i] == old(output[i])
  {
    PutActive(output, mode, clock);
    output[62] := 48;
    output[63] := 32;
    output[64] := 0x35;
    output[66] := 0x58;
    output[67] := 0x54;
    output[68] := 0x21;
    output[71] := 0x1a;
  }

  method PutTexts(output: array<byte>)
    requires output.Length == EDID_SIZE
    requires forall i | 72 <= i < EDID_SIZE :: output[i] == 0
    modifies output
    ensures forall maximum, requested, i | 72 <= i < 111 :: output[i] == DescriptorAt(maximum, requested, i)
    ensures forall i | 0 <= i < 72 || 111 <= i < EDID_SIZE :: output[i] == old(output[i])
  {
    output[75] := 0xfc;
    Put(output, 77, NAME);
    output[93] := 0xff;
    Put(output, 95, SERIAL);
  }

  method PutModes(output: array<byte>, maximum: Mode, requested: Mode)
    requires output.Length == EDID_SIZE
    requires forall i | 111 <= i < EDID_SIZE :: output[i] == 0
    modifies output
    ensures forall i | 111 <= i < 127 :: output[i] == DescriptorAt(maximum, requested, i)
    ensures forall i | 0 <= i < 111 :: output[i] == old(output[i])
  {
    output[111] := 0x0f;
    Put(output, 113, VMLD);
    output[117], output[118] := Low(maximum.width), High(maximum.width);
    output[119], output[120] := Low(maximum.height), High(maximum.height);
    output[121], output[122] := Low(requested.width), High(requested.width);
    output[123], output[124] := Low(requested.height), High(requested.height);
  }

  lemma AddByte(a: nat, b: byte)
    ensures (a % 0x100 + b as int) % 0x100 == (a + b as int) % 0x100
  {
  }

  /** The 8-bit running sum of the first `n` bytes. */
  method SumBytes(data: array<byte>, n: nat) returns (sum: byte)
    requires n <= data.Length
    ensures sum == Sum(data[..n]) % 0x100
  {
    sum := 0;
    for i := 0 to n
      invariant sum == Sum(data[..i]) % 0x100
    {
      assert data[..i + 1][..i] == data[..i];
      AddByte(Sum(data[..i]), data[i]);
      sum := (sum as int + data[i] as int) % 0x100;
    }
  }

  method Edid(layout: Layout, requested: Mode, output: array<byte>)
    requires output.Length == EDID_SIZE
    modifies output
    ensures output[..] == EdidBytes(layout, requested)
  {
    var shown := Shown(layout, requested);
    var clock := PixelClock(shown);
    PutBlock(layout.maximum, requested, shown, clock, output);
  }

  method PutBlock(maximum: Mode, requested: Mode, shown: Mode, clock: nat, output: array<byte>)
    requires output.Length == EDID_SIZE
    modifies output
    ensures output[..] == Block(maximum, requested, shown, clock)
  {
    PutIdentity(output);
    PutTiming(output, shown, clock);
    PutTexts(output);
    PutModes(output, maximum, requested);
    assert output[..127] == Body(maximum, requested, shown, clock);
    var sum := SumBytes(output, 127);
    output[127] := (0x100 - sum as int) % 0x100;
    assert output[..127] == Body(maximum, requested, shown, clock);
  }

  // The parser.

  datatype Description = Description(layout: Layout, requested: Mode)

  function Read16(s: seq<byte>, at: nat): (v: u16)
    requires at + 2 <= |s|
  {
    Spans(); LeValue(s[at..at + 2])
  }

  lemma Read16IsSum(s: seq<byte>, at: nat)
    requires at + 2 <= |s|
    ensures Read16(s, at) == s[at] as int + 0x100 * (s[at + 1] as int)
  {
    var pair := s[at..at + 2];
    assert LeValue(pair) == pair[0] as int + 0x100 * LeValue(pair[1..]);
    assert LeValue(pair[1..]) == pair[1] as int + 0x100 * LeValue(pair[1..][1..]);
  }

  function Parsed(s: seq<byte>): (r: Option<Description>) {
    if |s| != EDID_SIZE || s[8] != 0x59 || s[9] != 0xac || s[113..117] != VMLD || Sum(s) % 0x100 != 0 then None
    else Interpreted(Mode(Read16(s, 117), Read16(s, 119)), Mode(Read16(s, 121), Read16(s, 123)))
  }

  /** The two modes, if the maximum is one a layout may have. */
  function Interpreted(maximum: Mode, requested: Mode): (r: Option<Description>) {
    var layout := ParsedLayout(maximum);
    if layout.Supports(maximum) && maximum.width <= MAX_DIMENSION && maximum.height <= MAX_DIMENSION
    then Some(Description(layout, requested))
    else None
  }

  lemma InterpretedIffBounded(maximum: Mode, requested: Mode)
    requires maximum.width < U16_SPAN && maximum.height < U16_SPAN
    ensures Interpreted(maximum, requested) ==
            if 0 < maximum.width <= MAX_DIMENSION && 0 < maximum.height <= MAX_DIMENSION
            then Some(Description(ParsedLayout(maximum), requested)) else None
  {
    if maximum.width <= MAX_DIMENSION && maximum.height <= MAX_DIMENSION { LargestFrame(maximum); }
  }

  method ParseEdid(data: array<byte>) returns (r: Option<Description>)
    ensures r == Parsed(data[..])
  {
    if data.Length != EDID_SIZE || data[8] != 0x59 || data[9] != 0xac || data[113..117] != VMLD { return None; }
    var sum := SumBytes(data, 128);
    assert data[..128] == data[..];
    if sum != 0 { return None; }
    var maximum := Mode(Read16(data[..], 117), Read16(data[..], 119));
    var requested := Mode(Read16(data[..], 121), Read16(data[..], 123));
    return Interpreted(maximum, requested);
  }

  /** Section 3.11 of VESA E-EDID 1.4: the block sums to zero modulo 256. */
  lemma SumsToZero(maximum: Mode, requested: Mode, shown: Mode, clock: nat)
    ensures Sum(Block(maximum, requested, shown, clock)) % 0x100 == 0
  {
    var e := Block(maximum, requested, shown, clock);
    assert e[..127] == Body(maximum, requested, shown, clock);
  }

  /** The layout the parse callback works with. */
  function ParsedLayout(maximum: Mode): Layout { Layout(0, 0, PARSED_STRIDE, maximum) }

  lemma ParsedSupports(layout: Layout, mapped: nat, mode: Mode)
    requires layout.Valid(mapped)
    ensures ParsedLayout(layout.maximum).Supports(mode) == layout.Supports(mode)
  {
    if mode.width <= layout.maximum.width && mode.height <= layout.maximum.height {
      MulBound(mode.width, layout.maximum.width, mode.height, layout.maximum.height);
      LargestFrame(mode);
    }
  }

  /** What the parse callback offers for a maximum of 16-bit dimensions, whatever wrote it. */
  lemma ParsedSupportsIff(maximum: Mode, mode: Mode)
    requires maximum.width < U16_SPAN && maximum.height < U16_SPAN
    ensures ParsedLayout(maximum).Supports(mode) <==>
              && 0 < mode.width <= maximum.width && 0 < mode.height <= maximum.height
              && mode.width * mode.height * 4 <= 0xffff_ffff
  {
    if mode.width <= maximum.width && mode.height <= maximum.height {
      MulBound(mode.width, 0xffff, mode.height, 0xffff);
    }
  }

  lemma Halves(v: nat)
    ensures Low(v) as int + 0x100 * (High(v) as int) == v % U16_SPAN
  {
  }

  /** The fields the parser reads hold what the printer put there. */
  lemma Fields(maximum: Mode, requested: Mode, shown: Mode, clock: nat)
    ensures var e := Block(maximum, requested, shown, clock);
            && e[8] == 0x59 && e[9] == 0xac && e[113..117] == VMLD
            && Read16(e, 117) == maximum.width % U16_SPAN
            && Read16(e, 119) == maximum.height % U16_SPAN
            && Read16(e, 121) == requested.width % U16_SPAN
            && Read16(e, 123) == requested.height % U16_SPAN
  {
    var e := Block(maximum, requested, shown, clock);
    forall i | 0 <= i < 127 ensures e[i] == BodyAt(maximum, requested, shown, clock, i) {}
    assert e[113..117] == VMLD;
    Read16IsSum(e, 117);
    Read16IsSum(e, 119);
    Read16IsSum(e, 121);
    Read16IsSum(e, 123);
    Halves(maximum.width);
    Halves(maximum.height);
    Halves(requested.width);
    Halves(requested.height);
  }

  function Mod16(mode: Mode): (m: Mode) { Mode(mode.width % U16_SPAN, mode.height % U16_SPAN) }

  /** What the parser makes of any block with these fields. */
  lemma ParsedFields(e: seq<byte>, maximum: Mode, requested: Mode)
    requires |e| == EDID_SIZE && Sum(e) % 0x100 == 0
    requires e[8] == 0x59 && e[9] == 0xac && e[113..117] == VMLD
    requires maximum == Mode(Read16(e, 117), Read16(e, 119))
    requires requested == Mode(Read16(e, 121), Read16(e, 123))
    ensures Parsed(e) == if 0 < maximum.width <= MAX_DIMENSION && 0 < maximum.height <= MAX_DIMENSION
                         then Some(Description(ParsedLayout(maximum), requested)) else None
  {
    InterpretedIffBounded(maximum, requested);
  }

  lemma ModesIn(maximum: Mode, requested: Mode, shown: Mode, clock: nat, e: seq<byte>)
    requires maximum.width < U16_SPAN && maximum.height < U16_SPAN
    requires e == Block(maximum, requested, shown, clock)
    ensures e[8] == 0x59 && e[9] == 0xac && e[113..117] == VMLD
    ensures maximum == Mode(Read16(e, 117), Read16(e, 119))
    ensures Mod16(requested) == Mode(Read16(e, 121), Read16(e, 123))
  {
    Fields(maximum, requested, shown, clock);
  }

  /** Whatever the detailed timing holds, the block sums to zero, and the parser accepts it and
      recovers the maximum, with the requested mode modulo 2^16. */
  lemma BlockRoundTrip(maximum: Mode, requested: Mode, shown: Mode, clock: nat, e: seq<byte>)
    requires 0 < maximum.width <= MAX_DIMENSION && 0 < maximum.height <= MAX_DIMENSION
    requires e == Block(maximum, requested, shown, clock)
    ensures Sum(e) % 0x100 == 0
    ensures Parsed(e) == Some(Description(ParsedLayout(maximum), Mod16(requested)))
  {
    SumsToZero(maximum, requested, shown, clock);
    ModesIn(maximum, requested, shown, clock, e);
    ParsedFields(e, maximum, Mod16(requested));
  }

  lemma Mod16Exact(mode: Mode)
    ensures Mod16(mode) == mode <==> mode.width < U16_SPAN && mode.height < U16_SPAN
  {
  }

  /** For every valid layout the parser accepts what the printer made and recovers the maximum;
      it recovers the request exactly when its dimensions fit 16 bits, as the zero request and
      every supported one do. */
  lemma EdidRoundTrip(layout: Layout, requested: Mode, mapped: nat)
    requires layout.Valid(mapped)
    ensures Sum(EdidBytes(layout, requested)) % 0x100 == 0
    ensures var d := Parsed(EdidBytes(layout, requested));
            && d.Some? && d.value.layout == ParsedLayout(layout.maximum)
            && (d.value.requested == requested <==> requested.width < U16_SPAN && requested.height < U16_SPAN)
  {
    var shown := Shown(layout, requested);
    BlockRoundTrip(layout.maximum, requested, shown, PixelClock(shown), EdidBytes(layout, requested));
    Mod16Exact(requested);
  }

  /** The mode list computed from the parsed description is the one computed from the real
      layout, for every request the driver can hold. */
  lemma ModeListsAgree(layout: Layout, requested: Mode, mapped: nat)
    requires layout.Valid(mapped) && (requested == Mode(0, 0) || layout.Supports(requested))
    ensures var d := Parsed(EdidBytes(layout, requested));
            d.Some? && ModeList(d.value.layout, d.value.requested) == ModeList(layout, requested)
  {
    if layout.Supports(requested) { SupportsIsTheRectangle(layout, requested, mapped); }
    EdidRoundTrip(layout, requested, mapped);
    var other := ParsedLayout(layout.maximum);
    forall mode ensures other.Supports(mode) == layout.Supports(mode) { ParsedSupports(layout, mapped, mode); }
    SameOffer(other, layout, Preferred(layout, requested), |COMMON|);
  }

  /** Active dimensions as a reader of the detailed timing decodes them: eight low bits, and
      four high bits in the upper half of a shared byte (section 3.10.2 of E-EDID 1.4). */
  function TimingMode(e: seq<byte>): (m: (nat, nat))
    requires |e| == EDID_SIZE
  {
    (e[56] as int + 0x100 * (e[58] as int / 16), e[59] as int + 0x100 * (e[61] as int / 16))
  }

  /** The active dimensions decode to the mode shown, and the pixel clock to its clock exactly
      when that has 16 bits. */
  lemma TimingShows(maximum: Mode, requested: Mode, shown: Mode, clock: nat)
    requires shown.width <= 4095 && shown.height <= 4095
    ensures TimingMode(Block(maximum, requested, shown, clock)) == (shown.width, shown.height)
    ensures Read16(Block(maximum, requested, shown, clock), 54) == clock <==> clock < U16_SPAN
  {
    var e := Block(maximum, requested, shown, clock);
    forall i | 0 <= i < 127 ensures e[i] == BodyAt(maximum, requested, shown, clock, i) {}
    TwelveBits(shown.width);
    TwelveBits(shown.height);
    Read16IsSum(e, 54);
    Halves(clock);
  }

  lemma TwelveBits(v: u32)
    requires v <= 4095
    ensures Low(v) as int + 0x100 * (Low(v / 0x100 * 16) as int / 16) == v
  {
  }

  /** The detailed timing shows the preferred mode if its dimensions have 12 bits, else full HD. */
  lemma TimingShowsPreferred(layout: Layout, requested: Mode)
    ensures var best := Preferred(layout, requested);
            TimingMode(EdidBytes(layout, requested))
            == if best.width <= 4095 && best.height <= 4095 then (best.width as nat, best.height as nat)
               else (1920, 1080)
  {
    var shown := Shown(layout, requested);
    TimingShows(layout.maximum, requested, shown, PixelClock(shown));
  }

  lemma BlockAt(maximum: Mode, requested: Mode, shown: Mode, clock: nat, i: nat)
    requires i < 127
    ensures Block(maximum, requested, shown, clock)[i] == BodyAt(maximum, requested, shown, clock, i)
  {
  }

  /** Blanking as a reader of the detailed timing decodes it. */
  function TimingBlanking(e: seq<byte>): (b: (nat, nat))
    requires |e| == EDID_SIZE
  {
    (e[57] as int + 0x100 * (e[58] as int % 16), e[60] as int + 0x100 * (e[61] as int % 16))
  }

  lemma HighNibble(v: u32)
    requires v <= 4095
    ensures Low(v / 0x100 * 16) % 16 == 0
  {
  }

  /** The timing is one of 60 frames a second: pixel clock, in units of 10 kHz and rounded down, times
      the unit is the whole frame, blanking included, sixty times over. */
  lemma TimingIsSixty(layout: Layout, requested: Mode)
    ensures var e := EdidBytes(layout, requested);
            var (w, h), (hb, vb), clock := TimingMode(e), TimingBlanking(e), PixelClock(Shown(layout, requested));
            && (hb, vb) == (160, 30) && Read16(e, 54) == clock % U16_SPAN
            && clock * 10000 <= (w + hb) * (h + vb) * 60 < (clock + 1) * 10000
  {
    var shown := Shown(layout, requested);
    var clock, e := PixelClock(shown), EdidBytes(layout, requested);
    TimingShows(layout.maximum, requested, shown, clock);
    forall i: nat | i < 127 ensures e[i] == BodyAt(layout.maximum, requested, shown, clock, i) {
      BlockAt(layout.maximum, requested, shown, clock, i);
    }
    HighNibble(shown.width);
    HighNibble(shown.height);
    Read16IsSum(e, 54);
    Halves(clock);
  }

  /** What every description says about the monitor: header, maker VML, version 1.4, digital, no
      standard timings, 60 by 34 cm in centimetres and in millimetres, its name, and no extensions. */
  lemma IdentityIs(maximum: Mode, requested: Mode, shown: Mode, clock: nat)
    ensures var e := Block(maximum, requested, shown, clock);
            && e[..8] == [0, 255, 255, 255, 255, 255, 255, 0]
            && (var maker := 0x100 * (e[8] as int) + e[9] as int;
                [maker / 1024 % 32, maker / 32 % 32, maker % 32] == [22, 13, 12])
            && e[18] == 1 && e[19] == 4 && 128 <= e[20] && e[126] == 0
            && (forall i | 38 <= i < 54 :: e[i] == 1)
            && (e[66] as int + 0x100 * (e[68] as int / 16), e[67] as int + 0x100 * (e[68] as int % 16))
               == (10 * e[21] as int, 10 * e[22] as int) == (600, 340)
            && e[62] == 48 && e[63] == 32 && e[64] as int / 16 == 3 && e[64] as int % 16 == 5
            && e[72..77] == [0, 0, 0, 0xfc, 0] && e[90..95] == [0, 0, 0, 0xff, 0]
            && e[77..90] == [86, 77, 76, 97, 98, 32, 100, 105, 115, 112, 108, 97, 121]
            && e[95..108] == [48, 48, 48, 48, 48, 48, 48, 48, 48, 48, 48, 49, 10] && e[111] == 0x0f
  {
    var e := Block(maximum, requested, shown, clock);
    forall i: nat | i < 127 ensures e[i] == BodyAt(maximum, requested, shown, clock, i) {
      BlockAt(maximum, requested, shown, clock, i);
    }
    assert e[77..90] == NAME;
    assert e[95..108] == SERIAL;
    assert e[72..77] == [e[72], e[73], e[74], e[75], e[76]];
    assert e[90..95] == [e[90], e[91], e[92], e[93], e[94]];
  }

  /** What an accepted description says, by address. */
  lemma ParsedReads(e: seq<byte>)
    ensures Parsed(e).Some? ==>
              && |e| == 128 && e[8] == 0x59 && e[9] == 0xac && e[113..117] == [0x56, 0x4d, 0x4c, 0x44]
              && Sum(e) % 0x100 == 0
              && var d := Parsed(e).value;
                 && d.layout.maximum == Mode(Read16(e, 117), Read16(e, 119))
                 && d.requested == Mode(Read16(e, 121), Read16(e, 123))
                 && 0 < d.layout.maximum.width <= 16384 && 0 < d.layout.maximum.height <= 16384
  {
    if Parsed(e).Some? {
      InterpretedIffBounded(Mode(Read16(e, 117), Read16(e, 119)), Mode(Read16(e, 121), Read16(e, 123)));
    }
  }

  lemma {:induction false} SumUpdate(e: seq<byte>, i: nat, v: byte)
    requires i < |e|
    ensures Sum(e[i := v]) == Sum(e) - e[i] as int + v as int
    decreases |e|
  {
    var n := |e| - 1;
    if i < n {
      SumUpdate(e[..n], i, v);
      assert e[i := v][..n] == e[..n][i := v];
    } else {
      assert e[i := v][..n] == e[..n];
    }
  }

  /** A description with any one byte changed is refused. */
  lemma CorruptionRefused(e: seq<byte>, i: nat, v: byte)
    requires Parsed(e).Some? && i < |e| && v != e[i]
    ensures Parsed(e[i := v]) == None
  {
    SumUpdate(e, i, v);
    OtherRemainder(Sum(e), e[i], v);
  }

  lemma OtherRemainder(sum: nat, a: byte, b: byte)
    requires sum % 0x100 == 0 && a != b && 0 <= sum - a as int + b as int
    ensures (sum - a as int + b as int) % 0x100 != 0
  {
  }
}
