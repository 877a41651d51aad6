/** The server's side of what the RFB client sends: a reader of the client messages of RFC 6143,
    written from the format alone. */
module VncServer {
  import opened Bytes
  import opened Screen

  /** Section 7.4 of RFC 6143. */
  datatype PixelFormat = PixelFormat(bitsPerPixel: byte, depth: byte, bigEndian: bool, trueColour: bool,
                                     redMax: u16, greenMax: u16, blueMax: u16,
                                     redShift: byte, greenShift: byte, blueShift: byte)

  datatype ClientMessage =
    | SetPixelFormat(format: PixelFormat)
    | SetEncodings(encodings: seq<u32>)
    | UpdateRequest(incremental: bool, x: u16, y: u16, w: u16, h: u16)

  datatype Read = Read(message: ClientMessage, rest: seq<byte>)

  function Word16(s: seq<byte>, i: nat): (v: u16)
    requires i + 2 <= |s|
  {
    0x100 * (s[i] as int) + s[i + 1] as int
  }

  function Word32(s: seq<byte>, i: nat): (v: u32)
    requires i + 4 <= |s|
  {
    0x1_0000 * (Word16(s, i) as int) + Word16(s, i + 2) as int
  }

  function Encodings(s: seq<byte>, n: nat): (e: seq<u32>)
    requires 4 + 4 * n <= |s|
  {
    seq(n, i requires 0 <= i < n => Word32(s, 4 + 4 * i))
  }

  /** Sections 7.5.1 to 7.5.3; `None` for anything else or a message cut short. */
  function ReadMessage(s: seq<byte>): (r: Option<Read>)
    ensures r.Some? ==> |r.value.rest| < |s|
  {
    if s == [] then None
    else if s[0] == 0 then
      if |s| < 20 then None
      else
        Some(Read(SetPixelFormat(PixelFormat(s[4], s[5], s[6] != 0, s[7] != 0, Word16(s, 8), Word16(s, 10),
                                             Word16(s, 12), s[14], s[15], s[16])), s[20..]))
    else if s[0] == 2 then
      if |s| < 4 || |s| < 4 + 4 * Word16(s, 2) as int then None
      else Some(Read(SetEncodings(Encodings(s, Word16(s, 2))), s[4 + 4 * Word16(s, 2) as int..]))
    else if s[0] == 3 then
      if |s| < 10 then None
      else Some(Read(UpdateRequest(s[1] != 0, Word16(s, 2), Word16(s, 4), Word16(s, 6), Word16(s, 8)), s[10..]))
    else None
  }

  /** Everything that was sent, message by message. */
  function ReadAll(s: seq<byte>): (r: Option<seq<ClientMessage>>)
    decreases |s|
  {
    if s == [] then Some([])
    else
      match ReadMessage(s)
      case None => None
      case Some(Read(m, rest)) =>
        match ReadAll(rest)
        case None => None
        case Some(more) => Some([m] + more)
  }

  lemma ReadThen(s: seq<byte>, m: ClientMessage, rest: seq<byte>, more: seq<ClientMessage>)
    requires ReadMessage(s) == Some(Read(m, rest)) && ReadAll(rest) == Some(more)
    ensures ReadAll(s) == Some([m] + more)
  {
  }

  /** What a server puts on the wire for a colour in a little-endian 32-bit true-colour format. */
  function PixelWord(f: PixelFormat, r: byte, g: byte, b: byte): (v: nat) {
    (r as int) * Pow2(f.redShift) + (g as int) * Pow2(f.greenShift) + (b as int) * Pow2(f.blueShift)
  }

  /** 32 bits, 24 of them used, little-endian, eight each with red on top. */
  const BGRX := PixelFormat(32, 24, false, true, 255, 255, 255, 16, 8, 0)

  /** That format puts blue, green and red in this order, which is how pixels are read. */
  lemma BgrxOrder(r: byte, g: byte, b: byte)
    ensures PixelWord(BGRX, r, g, b) < U32_SPAN
    ensures Le32(PixelWord(BGRX, r, g, b)) == [b, g, r, 0]
    ensures PixelOf(Le32(PixelWord(BGRX, r, g, b)), 0) == Pixel(b, g, r, 0)
  {
    EightBits();
    SixteenBits();
    var v := PixelWord(BGRX, r, g, b);
    assert v == r as int * 0x1_0000 + g as int * 0x100 + b as int;
    LeBytesOf(v, b, g, r);
  }

  lemma LeBytesOf(v: u32, b0: byte, b1: byte, b2: byte)
    requires v == b2 as int * 0x1_0000 + b1 as int * 0x100 + b0 as int
    ensures Le32(v) == [b0, b1, b2, 0]
  {
    var v1 := b2 as int * 0x100 + b1 as int;
    assert v % 0x100 == b0 && v / 0x100 == v1;
    assert v1 % 0x100 == b1 && v1 / 0x100 == b2;
    assert LeBytes(b2, 2) == [b2, 0] by { assert LeBytes(0, 1) == [0]; }
    assert LeBytes(v1, 3) == [b1] + LeBytes(b2, 2);
    assert LeBytes(v, 4) == [b0] + LeBytes(v1, 3);
  }
}
