/** What the bytes of a server message mean, by their place in the stream and the numbers the
    protocol registers, without reference to how they are parsed. */
module Wire {
  import opened Bytes
  import opened Screen
  import opened Rfb
  import opened RfbEvents
  import opened Canvas
  import opened VncServer

  /** The rectangle header: four 16-bit words, then the encoding. */
  lemma HeadIs(s: seq<byte>)
    requires 12 <= |s|
    ensures ParseHead(s) == Head(Word16(s, 0), Word16(s, 2), Word16(s, 4), Word16(s, 6))
    ensures ParseEncoding(s) == Word32(s, 8)
  {
    Be16Is(s[..2]);
    Be16Is(s[2..4]);
    Be16Is(s[4..6]);
    Be16Is(s[6..8]);
    Be32Is(s[8..12]);
  }

  /** An encoding number as registered; negative ones are two's complement. */
  function Registered(n: int): (e: int) { if n < 0 then 0x1_0000_0000 + n else n }

  /** How many bytes follow a rectangle header of the given encoding and size; -1 for an encoding
      nobody asked for. */
  function PayloadLength(mode: Mode, e: int, w: nat, h: nat): (n: int) {
    if e == Registered(0) then w * h * 4
    else if e == Registered(-223) then 0
    else if mode.Capturing? then -1
    else if e == Registered(-314) then 4 + w * h * 4
    else if e == Registered(-239) then w * h * 4 + h * ((w + 7) / 8)
    else if e == Registered(-261) then 1
    else if e == Registered(-224) || e == Registered(-258) || e == Registered(-259) then 0
    else -1
  }

  lemma Sizes(head: Head)
    ensures PixelBytes(head) == head.w * head.h * 4
    ensures MaskBytes(head) == head.h * ((head.w + 7) / 8)
  {
    TimesIsProduct(head.h, head.w);
    TimesIsProduct(head.h, MaskStride(head.w));
    assert head.h * head.w == head.w * head.h;
  }

  /** A rectangle is read exactly when its encoding was asked for and all its bytes are there (and
      an alpha cursor says it is raw), and the stream then stands right behind those bytes. */
  lemma RectIs(mode: Mode, s: seq<byte>)
    requires 12 <= |s|
    ensures var n := PayloadLength(mode, Word32(s, 8), Word16(s, 4), Word16(s, 6));
            && (ParseRect(mode, s).Some? <==>
                  && 0 <= n && 12 + n <= |s|
                  && (Word32(s, 8) == Registered(-314) && mode.Streaming? ==> Word32(s, 12) == 0))
            && (ParseRect(mode, s).Some? ==>
                  && ParseRect(mode, s).value.rest == s[12 + n..]
                  && ParseRect(mode, s).value.value.head
                     == Head(Word16(s, 0), Word16(s, 2), Word16(s, 4), Word16(s, 6)))
  {
    HeadIs(s);
    Sizes(ParseHead(s));
    if 16 <= |s| {
      assert s[12..][..4] == s[12..16];
      Be32Is(s[12..16]);
      Be32RoundTrip(RAW);
      BeInverse(s[12..16]);
    }
  }

  /** Where a message ends: colour maps are six bytes a colour, text is counted in bytes, and an
      update has as many rectangles as it says. Other types are refused. */
  lemma MessageIs(mode: Mode, s: seq<byte>)
    requires s != []
    ensures 3 < s[0] ==> Parse(mode, s) == None
    ensures s[0] == 2 ==> Parse(mode, s) == Some(Parsed(Bell, s[1..]))
    ensures s[0] == 1 && 6 <= |s| ==>
              var end := 6 + 6 * Word16(s, 4) as int;
              if end <= |s| then Parse(mode, s).Some? && Parse(mode, s).value.rest == s[end..]
              else Parse(mode, s) == None
    ensures s[0] == 3 && 8 <= |s| ==>
              var end := 8 + Word32(s, 4) as int;
              if end <= |s| then Parse(mode, s).Some? && Parse(mode, s).value.rest == s[end..]
              else Parse(mode, s) == None
    ensures s[0] == 0 && Parse(mode, s).Some? ==>
              4 <= |s| && Parse(mode, s).value.value.Update? && |Parse(mode, s).value.value.rects| == Word16(s, 2)
  {
    if s[0] == 1 && 6 <= |s| { Be16Is(s[4..6]); }
    if s[0] == 3 && 8 <= |s| { Be32Is(s[4..8]); }
    if s[0] == 0 && Parse(mode, s).Some? {
      Be16Is(s[2..4]);
      EncodeRectsOfParse(mode, BeValue(s[2..4]), s[4..], Parse(mode, s).value.value.rects, Parse(mode, s).value.rest);
    }
  }

  /** A raw rectangle covers the pixels its header says. */
  lemma RawCovers(s: seq<byte>, r: Rectangle, rest: seq<byte>, x: nat, y: nat)
    requires ParseRect(Streaming, s) == Some(Parsed(r, rest)) && Word32(s, 8) == 0
    ensures BodyOk(Streaming, r.head, r.body) && EventOf(r).Some? && WellFormed(EventOf(r).value)
    ensures Covers(EventOf(r).value, x, y) <==>
              && Word16(s, 0) <= x < Word16(s, 0) as int + Word16(s, 4) as int
              && Word16(s, 2) <= y < Word16(s, 2) as int + Word16(s, 6) as int
  {
    RawBytes(s, r, rest);
  }

  /** And the pixel at column `col` of its row `row` gets the four bytes at `i`, blue first. */
  lemma RawPaints(s: seq<byte>, r: Rectangle, rest: seq<byte>, row: nat, col: nat, i: nat)
    requires ParseRect(Streaming, s) == Some(Parsed(r, rest)) && Word32(s, 8) == 0
    requires row < Word16(s, 6) && col < Word16(s, 4) && i == 12 + (row * Word16(s, 4) + col) * 4
    ensures BodyOk(Streaming, r.head, r.body) && EventOf(r).Some? && WellFormed(EventOf(r).value)
    ensures var e, x, y := EventOf(r).value, Word16(s, 0) as int + col, Word16(s, 2) as int + row;
            && Covers(e, x, y) && i + 4 <= |s|
            && PixelIn(e, x, y) == Pixel(s[i], s[i + 1], s[i + 2], s[i + 3])
            && RgbOf(PixelIn(e, x, y)) == Rgb(s[i + 2], s[i + 1], s[i])
  {
    RawBytes(s, r, rest);
    RawPixel(s, r.body.px, r.head.w, r.head.h, row, col, i);
  }

  lemma RawPixel(s: seq<byte>, px: seq<byte>, w: nat, h: nat, row: nat, col: nat, i: nat)
    requires |px| == Times(h, w) * 4 && 12 + |px| <= |s| && forall j | 0 <= j < |px| :: px[j] == s[12 + j]
    requires row < h && col < w && i == 12 + (row * w + col) * 4
    ensures Offset(w, row, col) + 4 <= |px| && i + 4 <= |s|
    ensures PixelOf(px, Offset(w, row, col)) == Pixel(s[i], s[i + 1], s[i + 2], s[i + 3])
  {
    TimesIsProduct(row, w);
    OffsetBound(w, h, row, col);
  }

  lemma RawBytes(s: seq<byte>, r: Rectangle, rest: seq<byte>)
    requires ParseRect(Streaming, s) == Some(Parsed(r, rest)) && Word32(s, 8) == 0
    ensures r.body.Raw? && |r.body.px| == PixelBytes(r.head) && 12 + |r.body.px| <= |s|
    ensures forall j | 0 <= j < |r.body.px| :: r.body.px[j] == s[12 + j]
    ensures r.head == Head(Word16(s, 0), Word16(s, 2), Word16(s, 4), Word16(s, 6))
  {
    HeadIs(s);
  }

  /** Cursors come with their hotspot and size; an alpha cursor's pixels are behind its second
      encoding word, with blue and red exchanged. */
  lemma CursorIs(s: seq<byte>, r: Rectangle, rest: seq<byte>)
    requires ParseRect(Streaming, s) == Some(Parsed(r, rest))
    requires Word32(s, 8) == Registered(-314) || Word32(s, 8) == Registered(-239)
    ensures BodyOk(Streaming, r.head, r.body) && EventOf(r).Some? && EventOf(r).value.Cursor?
    ensures var e, n := EventOf(r).value, Word16(s, 4) as int * Word16(s, 6) as int * 4;
            && e.hotX == Word16(s, 0) && e.hotY == Word16(s, 2) && e.w == Word16(s, 4) && e.h == Word16(s, 6)
            && (Word32(s, 8) == Registered(-314) ==>
                  0 <= 16 + n <= |s| && 0 <= n && SwappedPixels(s[16..16 + n], e.rgba))
  {
    HeadIs(s);
    EncodeRectOfParse(Streaming, s, r, rest);
    Sizes(r.head);
    if r.body.AlphaCursor? {
      SwappedIs(r.body.px);
      AlphaPart(s, r, rest);
    }
  }

  lemma Within(s: seq<byte>, a: nat, b: nat, c: nat)
    requires a <= |s| && b <= c && a + c <= |s|
    ensures s[a..][b..c] == s[a + b..a + c]
  {
  }

  lemma AlphaPart(s: seq<byte>, r: Rectangle, rest: seq<byte>)
    requires ParseRect(Streaming, s) == Some(Parsed(r, rest)) && r.body.AlphaCursor?
    ensures 16 + PixelBytes(r.head) <= |s| && r.body.px == s[16..16 + PixelBytes(r.head)]
  {
    Within(s, 12, 4, 4 + PixelBytes(r.head));
  }

  /** A rich cursor's pixel at `row`, `col`: its bytes, from `i` on behind the header, with blue and
      red exchanged, opaque exactly where its bit in byte `m`, of the mask behind the pixels, is set. */
  lemma RichCursorIs(s: seq<byte>, r: Rectangle, rest: seq<byte>, w: nat, h: nat, row: nat, col: nat, i: nat, m: nat)
    requires ParseRect(Streaming, s) == Some(Parsed(r, rest)) && Word32(s, 8) == Registered(-239)
    requires w == Word16(s, 4) && h == Word16(s, 6) && row < h && col < w
    requires i == (row * w + col) * 4 && m == 12 + w * h * 4 + row * ((w + 7) / 8) + col / 8
    ensures BodyOk(Streaming, r.head, r.body) && EventOf(r).Some? && EventOf(r).value.Cursor?
    ensures i + 4 <= |EventOf(r).value.rgba| && 12 + i + 4 <= |s| && m < |s|
    ensures var rgba := EventOf(r).value.rgba;
            && rgba[i] == s[12 + i + 2] && rgba[i + 1] == s[12 + i + 1] && rgba[i + 2] == s[12 + i]
            && rgba[i + 3] == if MaskBit(s[m], col % 8) then 255 else 0
  {
    HeadIs(s);
    RichParts(s, r, rest);
    MaskByte(s, r, w, h, row, col, m);
    RichAt(r.body.px, r.body.mask, w, h, row, col, i);
  }

  lemma MaskByte(s: seq<byte>, r: Rectangle, w: nat, h: nat, row: nat, col: nat, m: nat)
    requires r.body.RichCursor? && r.head.w == w && r.head.h == h && row < h && col < w
    requires RichHolds(r.body.px, r.body.mask, w, h) && 12 + |r.body.px| + |r.body.mask| <= |s|
    requires forall j | 0 <= j < |r.body.mask| :: r.body.mask[j] == s[12 + |r.body.px| + j]
    requires m == 12 + w * h * 4 + row * ((w + 7) / 8) + col / 8
    ensures m < |s| && Times(row, MaskStride(w)) + col / 8 < |r.body.mask|
    ensures MaskAt(r.body.mask, w, row, col) == MaskBit(s[m], col % 8)
  {
    Sizes(r.head);
    RichBound(r.body.px, r.body.mask, w, h, row, col);
    MaskPlace(r.body.mask, w, row, col);
  }

  lemma RichParts(s: seq<byte>, r: Rectangle, rest: seq<byte>)
    requires ParseRect(Streaming, s) == Some(Parsed(r, rest)) && Word32(s, 8) == Registered(-239)
    ensures r.body.RichCursor? && |r.body.px| == PixelBytes(r.head) && |r.body.mask| == MaskBytes(r.head)
    ensures 12 + |r.body.px| + |r.body.mask| <= |s| && BodyOk(Streaming, r.head, r.body)
    ensures forall j | 0 <= j < |r.body.px| :: r.body.px[j] == s[12 + j]
    ensures forall j | 0 <= j < |r.body.mask| :: r.body.mask[j] == s[12 + |r.body.px| + j]
  {
    HeadIs(s);
  }

  /** A resize announces the width and height of its header. */
  lemma ResizeIs(s: seq<byte>, r: Rectangle, rest: seq<byte>)
    requires ParseRect(Streaming, s) == Some(Parsed(r, rest)) && Word32(s, 8) == Registered(-223)
    ensures BodyOk(Streaming, r.head, r.body) && EventOf(r) == Some(DesktopSize(Word16(s, 4), Word16(s, 6)))
  {
    HeadIs(s);
  }
}
