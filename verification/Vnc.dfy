/** The RFB client: a stream cursor, the announced screen size, and the requests it has sent. */
module Vnc {
  import opened Bytes
  import opened Screen
  import opened Rfb
  import opened RfbEvents
  import VncServer

  datatype Request = Request(incremental: bool, w: u16, h: u16)

  /** `FramebufferUpdateRequest`, whole screen (section 7.5.3 of RFC 6143). */
  function EncodeRequest(r: Request): (s: seq<byte>)
    ensures |s| == 10
  {
    [3, if r.incremental then 1 else 0, 0, 0, 0, 0] + Be16(r.w) + Be16(r.h)
  }

  function EncodeRequests(rs: seq<Request>): seq<byte> {
    if rs == [] then [] else EncodeRequests(rs[..|rs| - 1]) + EncodeRequest(rs[|rs| - 1])
  }

  const PIXEL_FORMAT: seq<byte> := [32, 24, 0, 1, 0, 255, 0, 255, 0, 255, 16, 8, 0, 0, 0, 0]
  const SET_PIXEL_FORMAT: seq<byte> := [0, 0, 0, 0] + PIXEL_FORMAT

  function SetEncodings(encodings: seq<u32>): seq<byte>
    requires |encodings| < U16_SPAN
  {
    [2, 0] + Be16(|encodings|) + EncodeWords(encodings)
  }

  function EncodeWords(ws: seq<u32>): seq<byte> {
    if ws == [] then [] else EncodeWords(ws[..|ws| - 1]) + Be32(ws[|ws| - 1])
  }

  const STREAM_ENCODINGS: seq<u32> := [RAW, DESKTOP_SIZE, ALPHA_CURSOR, RICH_CURSOR]

  function Greeting(encodings: seq<u32>): seq<byte>
    requires |encodings| < U16_SPAN
  {
    SET_PIXEL_FORMAT + SetEncodings(encodings)
  }

  class VncClient {
    /** What the server will have sent, as far as it has not been read. */
    var input: seq<byte>
    var sent: seq<byte>
    var width: u16
    var height: u16
    ghost var requests: seq<Request>
    ghost var updates: nat

    constructor (stream: seq<byte>, w: u16, h: u16)
      ensures input == stream && sent == [] && width == w && height == h && requests == [] && updates == 0
    {
      input, sent, width, height := stream, [], w, h;
      requests, updates := [], 0;
    }

    /** Streaming has begun: what was sent is the greeting and the requests, one more of them
        than updates read. */
    ghost predicate Started()
      reads this
    {
      && sent == Greeting(STREAM_ENCODINGS) + EncodeRequests(requests)
      && |requests| == updates + 1
    }

    /** The one outstanding request covers the screen as last announced. */
    ghost predicate Paced()
      reads this
    {
      && Started()
      && requests[updates].w == width && requests[updates].h == height
    }

    method ReadExact(n: nat) returns (r: Option<seq<byte>>)
      modifies `input
      ensures n <= |old(input)| ==> r == Some(old(input)[..n]) && input == old(input)[n..]
      ensures |old(input)| < n ==> r == None
    {
      if |input| < n { return None; }
      r := Some(input[..n]);
      input := input[n..];
    }

    method ReadU8() returns (r: Option<byte>)
      modifies `input
      ensures 1 <= |old(input)| ==> r == Some(old(input)[0]) && input == old(input)[1..]
      ensures |old(input)| < 1 ==> r == None
    {
      var s :- ReadExact(1);
      return Some(s[0]);
    }

    method ReadU16() returns (r: Option<u16>)
      modifies `input
      ensures 2 <= |old(input)| ==> r == Some(BeValue(old(input)[..2])) && input == old(input)[2..]
      ensures |old(input)| < 2 ==> r == None
    {
      var s :- ReadExact(2);
      Spans();
      return Some(BeValue(s));
    }

    method ReadU32() returns (r: Option<u32>)
      modifies `input
      ensures 4 <= |old(input)| ==> r == Some(BeValue(old(input)[..4])) && input == old(input)[4..]
      ensures |old(input)| < 4 ==> r == None
    {
      var s :- ReadExact(4);
      Spans();
      return Some(BeValue(s));
    }

    method ReadHead() returns (r: Option<(Head, u32)>)
      modifies `input
      ensures 12 <= |old(input)| ==>
                r == Some((ParseHead(old(input)), ParseEncoding(old(input)))) && input == old(input)[12..]
      ensures |old(input)| < 12 ==> r == None
    {
      ghost var s := input;
      var x :- ReadU16();
      var y :- ReadU16();
      assert input == s[4..] && y == BeValue(s[2..4]) by { assert s[2..][..2] == s[2..4]; }
      var w :- ReadU16();
      assert input == s[6..] && w == BeValue(s[4..6]) by { assert s[4..][..2] == s[4..6]; }
      var h :- ReadU16();
      assert input == s[8..] && h == BeValue(s[6..8]) by { assert s[6..][..2] == s[6..8]; }
      var encoding :- ReadU32();
      assert input == s[12..] && encoding == BeValue(s[8..12]) by { assert s[8..][..4] == s[8..12]; }
      return Some((Head(x, y, w, h), encoding));
    }

    method ReadAlpha(head: Head) returns (r: Option<Body>)
      modifies `input
      ensures match ParseBody(Streaming, head, ALPHA_CURSOR, old(input))
              case None => r == None
              case Some(Parsed(body, rest)) => r == Some(body) && input == rest
    {
      ghost var s := input;
      var n := PixelBytes(head);
      var sub :- ReadU32();
      Be32RoundTrip(RAW);
      BeInverse(s[..4]);
      if sub != RAW { return None; }
      var px :- ReadExact(n);
      assert px == s[4..4 + n] && input == s[4 + n..];
      return Some(AlphaCursor(px));
    }

    method ReadRich(head: Head) returns (r: Option<Body>)
      modifies `input
      ensures match ParseBody(Streaming, head, RICH_CURSOR, old(input))
              case None => r == None
              case Some(Parsed(body, rest)) => r == Some(body) && input == rest
    {
      ghost var s := input;
      var n := PixelBytes(head);
      var px :- ReadExact(n);
      var mask :- ReadExact(MaskBytes(head));
      assert mask == s[n..n + MaskBytes(head)] && input == s[n + MaskBytes(head)..];
      return Some(RichCursor(px, mask));
    }

    /** The payload a rectangle's encoding announces. */
    method ReadBody(mode: Mode, head: Head, encoding: u32) returns (r: Option<Body>)
      modifies `input
      ensures match ParseBody(mode, head, encoding, old(input))
              case None => r == None
              case Some(Parsed(body, rest)) => r == Some(body) && input == rest
    {
      if encoding == RAW {
        var px :- ReadExact(PixelBytes(head));
        return Some(Raw(px));
      } else if encoding == DESKTOP_SIZE {
        return Some(Resize);
      } else if mode.Capturing? {
        return None;
      } else if encoding == ALPHA_CURSOR {
        r := ReadAlpha(head);
      } else if encoding == RICH_CURSOR {
        r := ReadRich(head);
      } else if encoding == LED_STATE {
        var skipped :- ReadU8();
        return Some(LedState(skipped));
      } else if encoding in EMPTY_PSEUDO {
        return Some(Empty(encoding));
      } else {
        return None;
      }
    }

    /** One rectangle of a streamed update, decoded. */
    method ReadStreamRect() returns (r: Option<Option<StreamEvent>>)
      modifies `input, `width, `height
      ensures match ParseRect(Streaming, old(input))
              case None => r == None
              case Some(Parsed(rect, rest)) =>
                && BodyOk(Streaming, rect.head, rect.body)
                && r == Some(EventOf(rect)) && input == rest
                && width == (if rect.body.Resize? then rect.head.w else old(width))
                && height == (if rect.body.Resize? then rect.head.h else old(height))
    {
      ghost var s := input;
      var both :- ReadHead();
      var (head, encoding) := both;
      var body :- ReadBody(Streaming, head, encoding);
      ghost var rest := input;
      PayloadOfParse(Streaming, head, encoding, s[12..], body, rest);
      var Head(x, y, w, h) := head;
      match body
      case Raw(px) => return Some(Some(Rect(x, y, w, h, px)));
      case Resize =>
        width, height := w, h;
        return Some(Some(DesktopSize(w, h)));
      case AlphaCursor(px) => return Some(Some(Cursor(x, y, w, h, Swapped(px))));
      case RichCursor(px, mask) =>
        var rgba := DecodeRich(px, mask, w, h);
        return Some(Some(Cursor(x, y, w, h, rgba)));
      case LedState(_) => return Some(None);
      case Empty(_) => return Some(None);
    }

    /** The rectangles of an update: its events in order, whether one was a resize, the size after. */
    method ReadUpdateRects(n: nat) returns (r: Option<Summary>)
      modifies `input, `width, `height
      ensures match ParseRects(Streaming, n, old(input))
              case None => r == None
              case Some(Parsed(rects, rest)) =>
                && AllOk(Streaming, rects) && input == rest
                && r == Some(Summarize(rects, old(width), old(height)))
                && r.value.w == width && r.value.h == height
    {
      ghost var whole, w0, h0 := ParseRects(Streaming, n, input), width, height;
      PrependNothing(whole);
      ghost var done: seq<Rectangle> := [];
      var events: seq<StreamEvent>, resized := [], false;
      for k := 0 to n
        invariant AllOk(Streaming, done)
        invariant whole == Prepend(done, ParseRects(Streaming, n - k, input))
        invariant Summary(events, resized, width, height) == Summarize(done, w0, h0)
      {
        PrependStep(Streaming, done, n - k, input);
        ghost var before := ParseRect(Streaming, input);
        var ev :- ReadStreamRect();
        SummarizeNext(done, before.value.value, w0, h0);
        done := done + [before.value.value];
        if ev.Some? {
          if ev.value.DesktopSize? { resized := true; }
          events := events + [ev.value];
        }
      }
      PrependAll(Streaming, done, input);
      return Some(Summary(events, resized, width, height));
    }

    // Messages that are not updates. The type byte `s[0]` has been read.

    method SkipColourMap(mode: Mode, ghost s: seq<byte>) returns (ok: bool)
      requires s != [] && s[0] == SET_COLOUR_MAP && input == s[1..]
      modifies `input
      ensures ok <==> Parse(mode, s).Some?
      ensures ok ==> !Parse(mode, s).value.value.Update? && input == Parse(mode, s).value.rest
    {
      var head := ReadExact(5);
      if head.None? { return false; }
      assert head.value[3..5] == s[4..6] && input == s[6..];
      var count := BeValue(head.value[3..5]);
      var colours := ReadExact(count * 6);
      assert colours.Some? ==> input == s[6 + count * 6..];
      return colours.Some?;
    }

    method SkipCutText(mode: Mode, ghost s: seq<byte>) returns (ok: bool)
      requires s != [] && s[0] == SERVER_CUT_TEXT && input == s[1..]
      modifies `input
      ensures ok <==> Parse(mode, s).Some?
      ensures ok ==> !Parse(mode, s).value.value.Update? && input == Parse(mode, s).value.rest
    {
      var pad := ReadExact(3);
      if pad.None? { return false; }
      assert input == s[4..];
      var len := ReadU32();
      if len.None? { return false; }
      assert len.value == BeValue(s[4..8]) && input == s[8..] by { assert s[4..][..4] == s[4..8]; }
      var text := ReadExact(len.value);
      assert text.Some? ==> input == s[8 + len.value..];
      return text.Some?;
    }

    /** An update behind its type byte. */
    method ReadUpdate(ghost s: seq<byte>) returns (r: Option<Summary>)
      requires s != [] && s[0] == FB_UPDATE && input == s[1..]
      modifies `input, `width, `height
      ensures match Parse(Streaming, s)
              case None => r == None
              case Some(Parsed(m, rest)) =>
                && m.Update? && AllOk(Streaming, m.rects) && input == rest
                && r == Some(Summarize(m.rects, old(width), old(height)))
                && r.value.w == width && r.value.h == height
    {
      var pad :- ReadU8();
      assert input == s[2..];
      var rects :- ReadU16();
      assert rects == BeValue(s[2..4]) && input == s[4..] by { assert s[2..][..2] == s[2..4]; }
      r := ReadUpdateRects(rects);
    }

    method Send(request: Request)
      modifies `sent, `requests
      ensures requests == old(requests) + [request]
      ensures sent == old(sent) + EncodeRequest(request)
    {
      sent := sent + EncodeRequest(request);
      requests := requests + [request];
    }

    /** The pixel format, then the encodings. */
    method SendGreeting(encodings: seq<u32>)
      requires |encodings| < U16_SPAN
      modifies `sent
      ensures sent == old(sent) + Greeting(encodings)
    {
      Assoc(sent, SET_PIXEL_FORMAT, SetEncodings(encodings));
      sent := sent + SET_PIXEL_FORMAT;
      sent := sent + SetEncodings(encodings);
    }

    /** Greet, and request the whole screen once. */
    method Open(encodings: seq<u32>)
      requires |encodings| < U16_SPAN && sent == [] && requests == []
      modifies `sent, `requests
      ensures requests == [Request(false, width, height)]
      ensures sent == Greeting(encodings) + EncodeRequests(requests)
    {
      SendGreeting(encodings);
      assert [] + Greeting(encodings) == Greeting(encodings);
      Send(Request(false, width, height));
      OneRequest(Request(false, width, height));
    }

    /** Ask for raw pixels, resizes and cursors, and request the whole screen once. */
    method StartStream()
      requires sent == [] && requests == [] && updates == 0
      modifies `sent, `requests
      ensures Paced() && requests == [Request(false, width, height)]
    {
      Open(STREAM_ENCODINGS);
    }

    /** Any message but an update, behind its type byte; false for an error. */
    method SkipOther(mode: Mode, kind: byte, ghost s: seq<byte>) returns (ok: bool)
      requires s != [] && s[0] == kind != FB_UPDATE && input == s[1..]
      modifies `input
      ensures ok <==> Parse(mode, s).Some?
      ensures ok ==> !Parse(mode, s).value.value.Update? && input == Parse(mode, s).value.rest
    {
      if kind == SET_COLOUR_MAP {
        ok := SkipColourMap(mode, s);
      } else if kind == BELL {
        ok := true;
      } else if kind == SERVER_CUT_TEXT {
        ok := SkipCutText(mode, s);
      } else {
        ok := false;
      }
    }

    /** The next update in the stream, reading past other messages. */
    method FindUpdate() returns (r: Option<Summary>)
      modifies `input, `width, `height
      ensures match RfbEvents.NextUpdate(old(input))
              case None => r == None
              case Some(Parsed(rects, rest)) =>
                && AllOk(Streaming, rects) && input == rest
                && r == Some(Summarize(rects, old(width), old(height)))
                && r.value.w == width && r.value.h == height
    {
      ghost var next, w0, h0 := RfbEvents.NextUpdate(input), width, height;
      while true
        invariant next == RfbEvents.NextUpdate(input) && width == w0 && height == h0
        decreases |input|
      {
        ghost var s := input;
        var kind :- ReadU8();
        if kind == FB_UPDATE {
          r := ReadUpdate(s);
          return;
        }
        var ok := SkipOther(Streaming, kind, s);
        if !ok { return None; }
      }
    }

    /** Read one update and ask for the next. It is the next update in the stream, decoded, and
        the stream stands right behind it. Exactly one request follows it: for the size announced
        last, and non-incremental if and only if the update resized the screen. After an error
        nothing was sent. */
    method NextUpdate() returns (r: Option<seq<StreamEvent>>)
      requires Paced()
      modifies `input, `width, `height, `sent, `requests, `updates
      ensures Started()
      ensures match RfbEvents.NextUpdate(old(input))
              case None => r == None && requests == old(requests) && updates == old(updates)
              case Some(Parsed(rects, rest)) =>
                && AllOk(Streaming, rects) && r == Some(EventsOf(rects)) && input == rest
                && (width, height) == SizeAfter(rects, old(width), old(height))
                && Paced() && updates == old(updates) + 1
                && requests == old(requests) + [Request(!Resized(rects), width, height)]
    {
      ghost var next, w0, h0 := RfbEvents.NextUpdate(input), width, height;
      var update :- FindUpdate();
      SummaryIs(next.value.value, w0, h0);
      OneMoreRequest(requests, Request(!update.resized, width, height));
      Assoc(Greeting(STREAM_ENCODINGS), EncodeRequests(requests),
            EncodeRequest(Request(!update.resized, width, height)));
      Send(Request(!update.resized, width, height));
      updates := updates + 1;
      return Some(update.events);
    }
  }

  lemma OneRequest(request: Request)
    ensures EncodeRequests([request]) == EncodeRequest(request)
  {
    OneMoreRequest([], request);
    assert [] + [request] == [request];
    assert [] + EncodeRequest(request) == EncodeRequest(request);
  }

  lemma OneMoreRequest(asked: seq<Request>, request: Request)
    ensures EncodeRequests(asked + [request]) == EncodeRequests(asked) + EncodeRequest(request)
  {
    assert (asked + [request])[..|asked|] == asked;
  }

  /** What one update amounts to. */
  datatype Summary = Summary(events: seq<StreamEvent>, resized: bool, w: u16, h: u16)

  function AddRect(s: Summary, rect: Rectangle): Summary
    requires BodyOk(Streaming, rect.head, rect.body)
  {
    match EventOf(rect)
    case None => s
    case Some(e) =>
      if e.DesktopSize? then Summary(s.events + [e], true, e.w, e.h) else s.(events := s.events + [e])
  }

  function Summarize(rects: seq<Rectangle>, w: u16, h: u16): Summary
    requires AllOk(Streaming, rects)
  {
    if rects == [] then Summary([], false, w, h)
    else AddRect(Summarize(rects[..|rects| - 1], w, h), rects[|rects| - 1])
  }

  lemma SummarizeNext(rects: seq<Rectangle>, rect: Rectangle, w: u16, h: u16)
    requires AllOk(Streaming, rects) && BodyOk(Streaming, rect.head, rect.body)
    ensures AllOk(Streaming, rects + [rect])
    ensures Summarize(rects + [rect], w, h) == AddRect(Summarize(rects, w, h), rect)
  {
    assert (rects + [rect])[..|rects|] == rects;
  }

  /** The fold is the update's events, whether any rectangle is a resize, and the last size. */
  lemma {:induction false} SummaryIs(rects: seq<Rectangle>, w: u16, h: u16)
    requires AllOk(Streaming, rects)
    ensures Summarize(rects, w, h).events == EventsOf(rects)
    ensures Summarize(rects, w, h).resized <==> Resized(rects)
    ensures (Summarize(rects, w, h).w, Summarize(rects, w, h).h) == SizeAfter(rects, w, h)
    decreases |rects|
  {
    if rects != [] {
      var most, rect := rects[..|rects| - 1], rects[|rects| - 1];
      SummaryIs(most, w, h);
      assert rects == most + [rect];
      if rect.body.Resize? { assert rect in rects; }
      if Resized(most) {
        var r :| r in most && r.body.Resize?;
        assert r in rects;
      }
    }
  }

  /** `done` in front of what was parsed. */
  function Prepend(done: seq<Rectangle>, r: Option<Parsed<seq<Rectangle>>>): Option<Parsed<seq<Rectangle>>> {
    match r
    case None => None
    case Some(Parsed(rects, rest)) => Some(Parsed(done + rects, rest))
  }

  lemma PrependNothing(r: Option<Parsed<seq<Rectangle>>>)
    ensures Prepend([], r) == r
  {
    if r.Some? { assert [] + r.value.value == r.value.value; }
  }

  lemma PrependAll(mode: Mode, done: seq<Rectangle>, s: seq<byte>)
    ensures Prepend(done, ParseRects(mode, 0, s)) == Some(Parsed(done, s))
  {
    assert done + [] == done;
  }

  lemma PrependStep(mode: Mode, done: seq<Rectangle>, n: nat, s: seq<byte>)
    requires 0 < n
    ensures Prepend(done, ParseRects(mode, n, s)) ==
            match ParseRect(mode, s)
            case None => None
            case Some(Parsed(rect, rest)) => Prepend(done + [rect], ParseRects(mode, n - 1, rest))
  {
    if ParseRect(mode, s).Some? {
      var Parsed(rect, rest) := ParseRect(mode, s).value;
      if ParseRects(mode, n - 1, rest).Some? {
        var more := ParseRects(mode, n - 1, rest).value.value;
        assert done + ([rect] + more) == done + [rect] + more;
      }
    }
  }

  // What the server makes of it.

  function Understood(r: Request): VncServer.ClientMessage {
    VncServer.UpdateRequest(r.incremental, 0, 0, r.w, r.h)
  }

  function AllUnderstood(rs: seq<Request>): (ms: seq<VncServer.ClientMessage>) {
    seq(|rs|, i requires 0 <= i < |rs| => Understood(rs[i]))
  }

  lemma RequestBytes(r: Request, rest: seq<byte>)
    ensures VncServer.ReadMessage(EncodeRequest(r) + rest) == Some(VncServer.Read(Understood(r), rest))
  {
    var s := EncodeRequest(r) + rest;
    assert s[6..8] == Be16(r.w) && s[8..10] == Be16(r.h) && s[10..] == rest;
    Be16RoundTrip(r.w);
    Be16RoundTrip(r.h);
    Be16Is(s[6..8]);
    Be16Is(s[8..10]);
  }

  lemma FormatBytes(rest: seq<byte>)
    ensures VncServer.ReadMessage(SET_PIXEL_FORMAT + rest)
            == Some(VncServer.Read(VncServer.SetPixelFormat(VncServer.BGRX), rest))
  {
    assert (SET_PIXEL_FORMAT + rest)[20..] == rest;
  }

  lemma {:induction false} WordsAt(ws: seq<u32>, i: nat)
    requires i < |ws|
    ensures |EncodeWords(ws)| == 4 * |ws|
    ensures EncodeWords(ws)[4 * i..4 * i + 4] == Be32(ws[i])
    decreases |ws|
  {
    var n := |ws| - 1;
    WordsLength(ws[..n]);
    if i < n {
      WordsAt(ws[..n], i);
      assert EncodeWords(ws)[4 * i..4 * i + 4] == EncodeWords(ws[..n])[4 * i..4 * i + 4];
    } else {
      assert EncodeWords(ws)[4 * n..4 * n + 4] == Be32(ws[n]);
    }
  }

  lemma {:induction false} WordsLength(ws: seq<u32>)
    ensures |EncodeWords(ws)| == 4 * |ws|
    decreases |ws|
  {
    if ws != [] { WordsLength(ws[..|ws| - 1]); }
  }

  lemma WordIs(s: seq<byte>, at: nat, v: u32)
    requires at + 4 <= |s| && s[at..at + 4] == Be32(v)
    ensures VncServer.Word32(s, at) == v
  {
    Be32RoundTrip(v);
    Be32Is(s[at..at + 4]);
  }

  lemma EncodingsBytes(ws: seq<u32>, rest: seq<byte>)
    requires |ws| < U16_SPAN
    ensures VncServer.ReadMessage(SetEncodings(ws) + rest) == Some(VncServer.Read(VncServer.SetEncodings(ws), rest))
  {
    var s := SetEncodings(ws) + rest;
    WordsLength(ws);
    assert s[2..4] == Be16(|ws|);
    Be16RoundTrip(|ws|);
    Be16Is(s[2..4]);
    forall i | 0 <= i < |ws| ensures VncServer.Word32(s, 4 + 4 * i) == ws[i] {
      WordsAt(ws, i);
      assert s[4 + 4 * i..4 + 4 * i + 4] == EncodeWords(ws)[4 * i..4 * i + 4];
      WordIs(s, 4 + 4 * i, ws[i]);
    }
    assert s[4 + 4 * |ws|..] == rest;
    assert VncServer.Encodings(s, |ws|) == ws;
  }

  lemma {:induction false} RequestsFront(rs: seq<Request>)
    requires rs != []
    ensures EncodeRequests(rs) == EncodeRequest(rs[0]) + EncodeRequests(rs[1..])
    decreases |rs|
  {
    var n := |rs| - 1;
    if n == 0 {
      assert rs[..0] == [] && rs[1..] == [];
      assert EncodeRequests(rs) == [] + EncodeRequest(rs[0]);
    } else {
      RequestsFront(rs[..n]);
      assert rs[..n][1..] == rs[1..][..n - 1];
      Assoc(EncodeRequest(rs[0]), EncodeRequests(rs[1..][..n - 1]), EncodeRequest(rs[n]));
    }
  }

  lemma {:induction false} RequestsBytes(rs: seq<Request>, s: seq<byte>)
    requires s == EncodeRequests(rs)
    ensures VncServer.ReadAll(s) == Some(AllUnderstood(rs))
    decreases |rs|
  {
    if rs == [] {
      assert AllUnderstood(rs) == [];
    } else {
      var rest := EncodeRequests(rs[1..]);
      RequestsFront(rs);
      RequestsBytes(rs[1..], rest);
      RequestBytes(rs[0], rest);
      VncServer.ReadThen(s, Understood(rs[0]), rest, AllUnderstood(rs[1..]));
      UnderstoodFront(rs);
    }
  }

  lemma UnderstoodFront(rs: seq<Request>)
    requires rs != []
    ensures [Understood(rs[0])] + AllUnderstood(rs[1..]) == AllUnderstood(rs)
  {
  }

  lemma GreetingBytes(encodings: seq<u32>, rest: seq<byte>, more: seq<VncServer.ClientMessage>)
    requires |encodings| < U16_SPAN && VncServer.ReadAll(rest) == Some(more)
    ensures VncServer.ReadAll(Greeting(encodings) + rest)
            == Some([VncServer.SetPixelFormat(VncServer.BGRX)] + ([VncServer.SetEncodings(encodings)] + more))
  {
    var back := SetEncodings(encodings) + rest;
    EncodingsBytes(encodings, rest);
    VncServer.ReadThen(back, VncServer.SetEncodings(encodings), rest, more);
    Assoc(SET_PIXEL_FORMAT, SetEncodings(encodings), rest);
    FormatThen(back, [VncServer.SetEncodings(encodings)] + more);
  }

  lemma FormatThen(back: seq<byte>, more: seq<VncServer.ClientMessage>)
    requires VncServer.ReadAll(back) == Some(more)
    ensures VncServer.ReadAll(SET_PIXEL_FORMAT + back) == Some([VncServer.SetPixelFormat(VncServer.BGRX)] + more)
  {
    FormatBytes(back);
    VncServer.ReadThen(SET_PIXEL_FORMAT + back, VncServer.SetPixelFormat(VncServer.BGRX), back, more);
  }

  lemma TwoInFront<T>(a: T, b: T, c: seq<T>)
    ensures [a] + ([b] + c) == [a, b] + c
  {
  }

  /** A server reads the pixel format, the encodings, and then exactly the requests, in order, each
      for the whole screen. */
  lemma SentIsUnderstood(encodings: seq<u32>, rs: seq<Request>)
    requires |encodings| < U16_SPAN
    ensures VncServer.ReadAll(Greeting(encodings) + EncodeRequests(rs))
            == Some([VncServer.SetPixelFormat(VncServer.BGRX), VncServer.SetEncodings(encodings)] + AllUnderstood(rs))
  {
    RequestsBytes(rs, EncodeRequests(rs));
    GreetingBytes(encodings, EncodeRequests(rs), AllUnderstood(rs));
    TwoInFront(VncServer.SetPixelFormat(VncServer.BGRX), VncServer.SetEncodings(encodings), AllUnderstood(rs));
  }

  /** All a streaming client ever sends: little-endian BGRx pixels, the four encodings by their
      registered numbers (raw 0, desktop size -223, alpha cursor -314, cursor -239), and its requests. */
  lemma StreamIsUnderstood(client: VncClient)
    requires client.Started()
    ensures VncServer.ReadAll(client.sent)
            == Some([VncServer.SetPixelFormat(VncServer.BGRX),
                     VncServer.SetEncodings([0, 0x1_0000_0000 - 223, 0x1_0000_0000 - 314, 0x1_0000_0000 - 239])]
                    + AllUnderstood(client.requests))
  {
    SentIsUnderstood(STREAM_ENCODINGS, client.requests);
  }
}
