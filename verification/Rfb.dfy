/** The server messages of RFB that vmlab reads (RFC 6143, sections 7.6.1 to 7.6.4, 7.7.1, 7.8.1
    and 7.8.2, and QEMU's alpha cursor, LED and payload-free pseudo-rectangles): their bytes,
    and the parser that takes them apart again. */
module Rfb {
  import opened Bytes

  datatype Head = Head(x: u16, y: u16, w: u16, h: u16)

  datatype Body =
    | Raw(px: seq<byte>)
    | Resize
    | AlphaCursor(px: seq<byte>)
    | RichCursor(px: seq<byte>, mask: seq<byte>)
    | LedState(leds: byte)
    | Empty(pseudo: u32)

  datatype Rectangle = Rectangle(head: Head, body: Body)

  datatype Message =
    | Update(pad: byte, rects: seq<Rectangle>)
    | ColourMap(head: seq<byte>, colours: seq<byte>)
    | Bell
    | CutText(pads: seq<byte>, text: seq<byte>)

  datatype Parsed<+T> = Parsed(value: T, rest: seq<byte>)

  const FB_UPDATE: byte := 0
  const SET_COLOUR_MAP: byte := 1
  const BELL: byte := 2
  const SERVER_CUT_TEXT: byte := 3

  // Encodings are signed; their words are two's complement.
  const RAW: u32 := 0
  const DESKTOP_SIZE: u32 := 0xffff_ff21   // -223
  const RICH_CURSOR: u32 := 0xffff_ff11    // -239
  const ALPHA_CURSOR: u32 := 0xffff_fec6   // -314
  const LED_STATE: u32 := 0xffff_fefb      // -261
  const EMPTY_PSEUDO: set<u32> := {0xffff_ff20, 0xffff_fefe, 0xffff_fefd} // -224, -258, -259

  function PixelBytes(head: Head): nat { Times(head.h, head.w) * 4 }

  /** Bytes in one row of a one-bit mask. */
  function MaskStride(w: nat): nat { (w + 7) / 8 }

  function MaskBytes(head: Head): nat { Times(head.h, MaskStride(head.w)) }

  function EncodingOf(body: Body): u32 {
    match body
    case Raw(_) => RAW
    case Resize => DESKTOP_SIZE
    case AlphaCursor(_) => ALPHA_CURSOR
    case RichCursor(_, _) => RICH_CURSOR
    case LedState(_) => LED_STATE
    case Empty(pseudo) => pseudo
  }

  function Payload(body: Body): seq<byte> {
    match body
    case Raw(px) => px
    case Resize => []
    case AlphaCursor(px) => Be32(RAW) + px
    case RichCursor(px, mask) => px + mask
    case LedState(leds) => [leds]
    case Empty(_) => []
  }

  /** A recorder asks for cursors and resizes; a capture asks for raw pixels only. */
  datatype Mode = Streaming | Capturing

  predicate BodyOk(mode: Mode, head: Head, body: Body) {
    match body
    case Raw(px) => |px| == PixelBytes(head)
    case Resize => true
    case AlphaCursor(px) => mode.Streaming? && |px| == PixelBytes(head)
    case RichCursor(px, mask) => mode.Streaming? && |px| == PixelBytes(head) && |mask| == MaskBytes(head)
    case LedState(_) => mode.Streaming?
    case Empty(pseudo) => mode.Streaming? && pseudo in EMPTY_PSEUDO
  }

  predicate AllOk(mode: Mode, rects: seq<Rectangle>) {
    forall i | 0 <= i < |rects| :: BodyOk(mode, rects[i].head, rects[i].body)
  }

  predicate MessageOk(mode: Mode, m: Message) {
    match m
    case Update(_, rects) => |rects| < U16_SPAN && AllOk(mode, rects)
    case ColourMap(head, colours) => |head| == 3 && |colours| % 6 == 0 && |colours| / 6 < U16_SPAN
    case Bell => true
    case CutText(pad, text) => |pad| == 3 && |text| < U32_SPAN
  }

  function EncodeHead(head: Head, encoding: u32): (s: seq<byte>)
    ensures |s| == 12
  {
    Be16(head.x) + Be16(head.y) + Be16(head.w) + Be16(head.h) + Be32(encoding)
  }

  function EncodeRect(r: Rectangle): seq<byte> {
    EncodeHead(r.head, EncodingOf(r.body)) + Payload(r.body)
  }

  function EncodeRects(rects: seq<Rectangle>): seq<byte> {
    if rects == [] then [] else EncodeRect(rects[0]) + EncodeRects(rects[1..])
  }

  function Encode(m: Message): (s: seq<byte>)
    requires m.Update? ==> |m.rects| < U16_SPAN
    requires m.ColourMap? ==> |m.colours| / 6 < U16_SPAN
    requires m.CutText? ==> |m.text| < U32_SPAN
  {
    match m
    case Update(pad, rects) => [FB_UPDATE, pad] + Be16(|rects|) + EncodeRects(rects)
    case ColourMap(head, colours) => [SET_COLOUR_MAP] + head + Be16(|colours| / 6) + colours
    case Bell => [BELL]
    case CutText(pad, text) => [SERVER_CUT_TEXT] + pad + Be32(|text|) + text
  }

  // The parser. `None` is an error: an unexpected end of the stream, an encoding nobody asked
  // for, or an unknown message.

  function ParseBody(mode: Mode, head: Head, encoding: u32, s: seq<byte>): (r: Option<Parsed<Body>>)
    ensures r.Some? ==> |r.value.rest| <= |s|
  {
    var n := PixelBytes(head);
    if encoding == RAW then
      if n <= |s| then Some(Parsed(Raw(s[..n]), s[n..])) else None
    else if encoding == DESKTOP_SIZE then Some(Parsed(Resize, s))
    else if mode.Capturing? then None
    else if encoding == ALPHA_CURSOR then
      if 4 + n <= |s| && s[..4] == Be32(RAW) then Some(Parsed(AlphaCursor(s[4..4 + n]), s[4 + n..])) else None
    else if encoding == RICH_CURSOR then
      var end := n + MaskBytes(head);
      if end <= |s| then Some(Parsed(RichCursor(s[..n], s[n..end]), s[end..])) else None
    else if encoding == LED_STATE then
      if 1 <= |s| then Some(Parsed(LedState(s[0]), s[1..])) else None
    else if encoding in EMPTY_PSEUDO then Some(Parsed(Empty(encoding), s))
    else None
  }

  function ParseHead(s: seq<byte>): (r: Head)
    requires 12 <= |s|
  {
    Spans();
    Head(BeValue(s[..2]), BeValue(s[2..4]), BeValue(s[4..6]), BeValue(s[6..8]))
  }

  function ParseEncoding(s: seq<byte>): (e: u32)
    requires 12 <= |s|
  {
    Spans();
    BeValue(s[8..12])
  }

  function ParseRect(mode: Mode, s: seq<byte>): (r: Option<Parsed<Rectangle>>)
    ensures r.Some? ==> |r.value.rest| < |s|
  {
    if |s| < 12 then None
    else
      match ParseBody(mode, ParseHead(s), ParseEncoding(s), s[12..])
      case None => None
      case Some(Parsed(body, rest)) => Some(Parsed(Rectangle(ParseHead(s), body), rest))
  }

  function ParseRects(mode: Mode, n: nat, s: seq<byte>): (r: Option<Parsed<seq<Rectangle>>>)
    ensures r.Some? ==> |r.value.rest| <= |s|
  {
    if n == 0 then Some(Parsed([], s))
    else
      match ParseRect(mode, s)
      case None => None
      case Some(Parsed(rect, rest)) =>
        match ParseRects(mode, n - 1, rest)
        case None => None
        case Some(Parsed(rects, end)) => Some(Parsed([rect] + rects, end))
  }

  function Parse(mode: Mode, s: seq<byte>): (r: Option<Parsed<Message>>)
    ensures r.Some? ==> |r.value.rest| < |s|
  {
    if s == [] then None
    else if s[0] == FB_UPDATE then
      if |s| < 4 then None
      else
        match ParseRects(mode, BeValue(s[2..4]), s[4..])
        case None => None
        case Some(Parsed(rects, rest)) => Some(Parsed(Update(s[1], rects), rest))
    else if s[0] == SET_COLOUR_MAP then
      if |s| < 6 then None
      else
        var n := BeValue(s[4..6]) * 6;
        if n <= |s| - 6 then Some(Parsed(ColourMap(s[1..4], s[6..6 + n]), s[6 + n..])) else None
    else if s[0] == BELL then Some(Parsed(Bell, s[1..]))
    else if s[0] == SERVER_CUT_TEXT then
      if |s| < 8 then None
      else
        var n := BeValue(s[4..8]);
        if n <= |s| - 8 then Some(Parsed(CutText(s[1..4], s[8..8 + n]), s[8 + n..])) else None
    else None
  }

  // Parsing undoes encoding.

  lemma ParseHeadOfEncoding(head: Head, encoding: u32, rest: seq<byte>)
    ensures var s := EncodeHead(head, encoding) + rest;
            ParseHead(s) == head && ParseEncoding(s) == encoding && s[12..] == rest
  {
    var s := EncodeHead(head, encoding) + rest;
    assert s[..2] == Be16(head.x) && s[2..4] == Be16(head.y) && s[4..6] == Be16(head.w);
    assert s[6..8] == Be16(head.h) && s[8..12] == Be32(encoding);
    Be16RoundTrip(head.x);
    Be16RoundTrip(head.y);
    Be16RoundTrip(head.w);
    Be16RoundTrip(head.h);
    Be32RoundTrip(encoding);
  }

  lemma ParseBodyOfPayload(mode: Mode, head: Head, body: Body, rest: seq<byte>)
    requires BodyOk(mode, head, body)
    ensures ParseBody(mode, head, EncodingOf(body), Payload(body) + rest) == Some(Parsed(body, rest))
  {
    var s := Payload(body) + rest;
    match body
    case Raw(px) =>
      TwoParts(px, rest);
      ParseRaw(mode, head, px, rest, s);
    case Resize => TwoParts([], rest);
    case AlphaCursor(px) =>
      ThreeParts(Be32(RAW), px, rest);
      ParseAlpha(head, px, rest, s);
    case RichCursor(px, mask) =>
      ThreeParts(px, mask, rest);
      ParseRich(head, px, mask, rest, s);
    case LedState(leds) =>
      TwoParts([leds], rest);
      ParseLed(head, leds, rest, s);
    case Empty(_) => TwoParts([], rest);
  }

  lemma TwoParts(a: seq<byte>, rest: seq<byte>)
    ensures (a + rest)[..|a|] == a && (a + rest)[|a|..] == rest
    ensures a == [] ==> a + rest == rest
  {
  }

  lemma ThreeParts(a: seq<byte>, b: seq<byte>, rest: seq<byte>)
    ensures var s := a + b + rest;
            s[..|a|] == a && s[|a|..|a| + |b|] == b && s[|a| + |b|..] == rest
  {
  }

  lemma ParseRaw(mode: Mode, head: Head, px: seq<byte>, rest: seq<byte>, s: seq<byte>)
    requires |px| == PixelBytes(head) <= |s| && s[..|px|] == px && s[|px|..] == rest
    ensures ParseBody(mode, head, RAW, s) == Some(Parsed(Raw(px), rest))
  {
  }

  lemma ParseAlpha(head: Head, px: seq<byte>, rest: seq<byte>, s: seq<byte>)
    requires |px| == PixelBytes(head) && 4 + |px| <= |s| && s[..4] == Be32(RAW)
    requires s[4..4 + |px|] == px && s[4 + |px|..] == rest
    ensures ParseBody(Streaming, head, ALPHA_CURSOR, s) == Some(Parsed(AlphaCursor(px), rest))
  {
  }

  lemma ParseRich(head: Head, px: seq<byte>, mask: seq<byte>, rest: seq<byte>, s: seq<byte>)
    requires |px| == PixelBytes(head) && |mask| == MaskBytes(head) && |px| + |mask| <= |s|
    requires s[..|px|] == px && s[|px|..|px| + |mask|] == mask && s[|px| + |mask|..] == rest
    ensures ParseBody(Streaming, head, RICH_CURSOR, s) == Some(Parsed(RichCursor(px, mask), rest))
  {
  }

  lemma ParseLed(head: Head, leds: byte, rest: seq<byte>, s: seq<byte>)
    requires 1 <= |s| && s[0] == leds && s[1..] == rest
    ensures ParseBody(Streaming, head, LED_STATE, s) == Some(Parsed(LedState(leds), rest))
  {
  }

  lemma ParseRectOfEncoding(mode: Mode, r: Rectangle, rest: seq<byte>)
    requires BodyOk(mode, r.head, r.body)
    ensures ParseRect(mode, EncodeRect(r) + rest) == Some(Parsed(r, rest))
  {
    var tail := Payload(r.body) + rest;
    assert EncodeRect(r) + rest == EncodeHead(r.head, EncodingOf(r.body)) + tail;
    ParseHeadOfEncoding(r.head, EncodingOf(r.body), tail);
    ParseBodyOfPayload(mode, r.head, r.body, rest);
  }

  lemma ParseRectsCons(mode: Mode, n: nat, s: seq<byte>, r: Rectangle, t: seq<byte>, rs: seq<Rectangle>, end: seq<byte>)
    requires ParseRect(mode, s) == Some(Parsed(r, t)) && ParseRects(mode, n, t) == Some(Parsed(rs, end))
    ensures ParseRects(mode, n + 1, s) == Some(Parsed([r] + rs, end))
  {
  }

  lemma {:induction false} ParseRectsOfEncoding(mode: Mode, rects: seq<Rectangle>, rest: seq<byte>)
    requires AllOk(mode, rects)
    ensures ParseRects(mode, |rects|, EncodeRects(rects) + rest) == Some(Parsed(rects, rest))
  {
    if rects == [] {
      assert EncodeRects(rects) + rest == rest;
    } else {
      var tail := EncodeRects(rects[1..]) + rest;
      assert EncodeRects(rects) + rest == EncodeRect(rects[0]) + tail;
      ParseRectOfEncoding(mode, rects[0], tail);
      ParseRectsOfEncoding(mode, rects[1..], rest);
      ParseRectsCons(mode, |rects| - 1, EncodeRects(rects) + rest, rects[0], tail, rects[1..], rest);
      assert [rects[0]] + rects[1..] == rects;
    }
  }

  lemma ParseUpdateParts(mode: Mode, s: seq<byte>, n: u16, rects: seq<Rectangle>, rest: seq<byte>)
    requires 4 <= |s| && s[0] == FB_UPDATE && BeValue(s[2..4]) == n
    requires ParseRects(mode, n, s[4..]) == Some(Parsed(rects, rest))
    ensures Parse(mode, s) == Some(Parsed(Update(s[1], rects), rest))
  {
  }

  lemma UpdateBytes(m: Message, rest: seq<byte>)
    requires m.Update? && |m.rects| < U16_SPAN
    ensures var s := Encode(m) + rest;
            && 4 <= |s| && s[0] == FB_UPDATE && s[1] == m.pad
            && s[2..4] == Be16(|m.rects|) && s[4..] == EncodeRects(m.rects) + rest
  {
    var head: seq<byte> := [FB_UPDATE, m.pad] + Be16(|m.rects|);
    assert Encode(m) + rest == head + (EncodeRects(m.rects) + rest);
  }

  lemma ParseOfUpdate(mode: Mode, m: Message, rest: seq<byte>)
    requires MessageOk(mode, m) && m.Update?
    ensures Parse(mode, Encode(m) + rest) == Some(Parsed(m, rest))
  {
    UpdateBytes(m, rest);
    Be16RoundTrip(|m.rects|);
    ParseRectsOfEncoding(mode, m.rects, rest);
    ParseUpdateParts(mode, Encode(m) + rest, |m.rects|, m.rects, rest);
  }

  lemma ParseOfColourMap(mode: Mode, m: Message, rest: seq<byte>)
    requires MessageOk(mode, m) && m.ColourMap?
    ensures Parse(mode, Encode(m) + rest) == Some(Parsed(m, rest))
  {
    var s, n := Encode(m) + rest, |m.colours|;
    assert s[1..4] == m.head && s[4..6] == Be16(n / 6) && s[6..6 + n] == m.colours && s[6 + n..] == rest;
    Be16RoundTrip(n / 6);
  }

  lemma ParseOfCutText(mode: Mode, m: Message, rest: seq<byte>)
    requires MessageOk(mode, m) && m.CutText?
    ensures Parse(mode, Encode(m) + rest) == Some(Parsed(m, rest))
  {
    var s, n := Encode(m) + rest, |m.text|;
    assert s[1..4] == m.pads && s[4..8] == Be32(n) && s[8..8 + n] == m.text && s[8 + n..] == rest;
    Be32RoundTrip(n);
  }

  /** Every well-formed message is parsed back, and the parser stops at its last byte. */
  lemma ParseOfEncoding(mode: Mode, m: Message, rest: seq<byte>)
    requires MessageOk(mode, m)
    ensures Parse(mode, Encode(m) + rest) == Some(Parsed(m, rest))
  {
    match m
    case Update(_, _) => ParseOfUpdate(mode, m, rest);
    case ColourMap(_, _) => ParseOfColourMap(mode, m, rest);
    case Bell => assert (Encode(m) + rest)[1..] == rest;
    case CutText(_, _) => ParseOfCutText(mode, m, rest);
  }

  // Encoding undoes parsing: nothing but the encoding of a well-formed message is accepted.

  lemma EncodeHeadOfParse(s: seq<byte>)
    requires 12 <= |s|
    ensures EncodeHead(ParseHead(s), ParseEncoding(s)) == s[..12]
  {
    BeInverse(s[..2]);
    BeInverse(s[2..4]);
    BeInverse(s[4..6]);
    BeInverse(s[6..8]);
    BeInverse(s[8..12]);
    assert s[..12] == s[..2] + s[2..4] + s[4..6] + s[6..8] + s[8..12];
  }

  lemma PayloadOfParse(mode: Mode, head: Head, encoding: u32, s: seq<byte>, body: Body, rest: seq<byte>)
    requires ParseBody(mode, head, encoding, s) == Some(Parsed(body, rest))
    ensures BodyOk(mode, head, body) && EncodingOf(body) == encoding && s == Payload(body) + rest
  {
    var n := PixelBytes(head);
    match body
    case Raw(_) => CutTwice(s, 0, n);
    case Resize =>
    case AlphaCursor(_) => CutTwice(s, 4, n);
    case RichCursor(_, _) => CutTwice(s, n, MaskBytes(head));
    case LedState(_) => CutTwice(s, 0, 1);
    case Empty(_) =>
  }

  lemma CutTwice(s: seq<byte>, a: nat, b: nat)
    requires a + b <= |s|
    ensures s == s[..a] + s[a..a + b] + s[a + b..] && (a == 0 ==> s == s[..b] + s[b..])
  {
  }

  lemma EncodeRectOfParse(mode: Mode, s: seq<byte>, r: Rectangle, rest: seq<byte>)
    requires ParseRect(mode, s) == Some(Parsed(r, rest))
    ensures BodyOk(mode, r.head, r.body) && s == EncodeRect(r) + rest
  {
    EncodeHeadOfParse(s);
    PayloadOfParse(mode, ParseHead(s), ParseEncoding(s), s[12..], r.body, rest);
    Assoc(s[..12], Payload(r.body), rest);
    assert s == s[..12] + s[12..];
  }

  lemma RectsCons(mode: Mode, first: Rectangle, others: seq<Rectangle>, end: seq<byte>)
    requires BodyOk(mode, first.head, first.body) && AllOk(mode, others)
    ensures AllOk(mode, [first] + others)
    ensures EncodeRect(first) + (EncodeRects(others) + end) == EncodeRects([first] + others) + end
  {
    assert ([first] + others)[1..] == others;
    Assoc(EncodeRect(first), EncodeRects(others), end);
  }

  lemma {:induction false} EncodeRectsOfParse(mode: Mode, n: nat, s: seq<byte>, rects: seq<Rectangle>, end: seq<byte>)
    requires ParseRects(mode, n, s) == Some(Parsed(rects, end))
    ensures |rects| == n && s == EncodeRects(rects) + end
    ensures AllOk(mode, rects)
    decreases n
  {
    if n == 0 {
    } else {
      var Parsed(first, tail) := ParseRect(mode, s).value;
      var others := rects[1..];
      EncodeRectOfParse(mode, s, first, tail);
      assert rects == [first] + others;
      EncodeRectsOfParse(mode, n - 1, tail, others, end);
      RectsCons(mode, first, others, end);
    }
  }

  lemma FourthByte(s: seq<byte>)
    requires 4 <= |s|
    ensures s == [s[0], s[1]] + s[2..4] + s[4..]
  {
  }

  lemma UpdateJoined(pad: byte, rects: seq<Rectangle>, rest: seq<byte>)
    requires |rects| < U16_SPAN
    ensures Encode(Update(pad, rects)) + rest == [FB_UPDATE, pad] + Be16(|rects|) + (EncodeRects(rects) + rest)
  {
    Assoc([FB_UPDATE, pad] + Be16(|rects|), EncodeRects(rects), rest);
  }

  lemma EncodeUpdateOfParse(mode: Mode, s: seq<byte>, rects: seq<Rectangle>, rest: seq<byte>)
    requires 4 <= |s| && s[0] == FB_UPDATE && ParseRects(mode, BeValue(s[2..4]), s[4..]) == Some(Parsed(rects, rest))
    ensures MessageOk(mode, Update(s[1], rects)) && s == Encode(Update(s[1], rects)) + rest
  {
    Spans();
    EncodeRectsOfParse(mode, BeValue(s[2..4]), s[4..], rects, rest);
    BeInverse(s[2..4]);
    FourthByte(s);
    UpdateJoined(s[1], rects, rest);
  }

  lemma FiveParts(s: seq<byte>, a: nat, b: nat, c: nat)
    requires 1 <= a <= b <= c <= |s|
    ensures s == [s[0]] + s[1..a] + s[a..b] + s[b..c] + s[c..]
  {
  }

  lemma EncodeColourMapOfParse(mode: Mode, s: seq<byte>)
    requires Parse(mode, s).Some? && s[0] == SET_COLOUR_MAP
    ensures var p := Parse(mode, s).value;
            MessageOk(mode, p.value) && s == Encode(p.value) + p.rest
  {
    Spans();
    var n := BeValue(s[4..6]);
    BeInverse(s[4..6]);
    assert n * 6 / 6 == n;
    FiveParts(s, 4, 6, 6 + n * 6);
  }

  lemma EncodeCutTextOfParse(mode: Mode, s: seq<byte>)
    requires Parse(mode, s).Some? && s[0] == SERVER_CUT_TEXT
    ensures var p := Parse(mode, s).value;
            MessageOk(mode, p.value) && s == Encode(p.value) + p.rest
  {
    Spans();
    var n := BeValue(s[4..8]);
    BeInverse(s[4..8]);
    FiveParts(s, 4, 8, 8 + n);
  }

  lemma EncodeOfParse(mode: Mode, s: seq<byte>)
    requires Parse(mode, s).Some?
    ensures var p := Parse(mode, s).value;
            MessageOk(mode, p.value) && s == Encode(p.value) + p.rest
  {
    if s[0] == FB_UPDATE {
      var p := Parse(mode, s).value;
      EncodeUpdateOfParse(mode, s, p.value.rects, p.rest);
    } else if s[0] == SET_COLOUR_MAP {
      EncodeColourMapOfParse(mode, s);
    } else if s[0] == SERVER_CUT_TEXT {
      EncodeCutTextOfParse(mode, s);
    }
  }
}
