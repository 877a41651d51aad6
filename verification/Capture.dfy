/** A one-shot capture: rectangles painted onto a canvas until no pixel is missing. */
module Capture {
  import opened Bytes
  import opened Screen
  import opened Rfb
  import opened RfbEvents
  import opened Vnc
  import VncServer
  import opened Canvas

  datatype Picture = Picture(w: u16, h: u16, pixels: seq<Rgb>)

  lemma CapturingIsStreaming(r: Rectangle)
    requires BodyOk(Capturing, r.head, r.body)
    ensures BodyOk(Streaming, r.head, r.body) && EventOf(r).Some? && WellFormed(EventOf(r).value)
    ensures r.body.Raw? || r.body.Resize?
  {
  }

  /** The canvas is what replaying the events so far shows. */
  ghost predicate Replays(canvas: Canvas, events: seq<StreamEvent>)
    reads canvas, canvas.image, canvas.covered
  {
    && canvas.Valid() && AllWellFormed(events)
    && LastSize(events) == Some((canvas.width, canvas.height))
    && Shows(canvas.Cells(), canvas.width, canvas.height, events)
  }

  /** A rectangle a capture can take while the screen is `w` by `h`: pixels that lie on it, or a
      size that is not empty. */
  predicate Takes(w: u16, h: u16, rect: Rectangle) {
    if rect.body.Raw? then Fits(w, h, rect.head.x, rect.head.y, Patch(rect.head.w, rect.head.h, rect.body.px))
    else 0 < rect.head.w && 0 < rect.head.h
  }

  /** `n` rectangles in a row, each for the size announced before it. */
  predicate TakesRects(w: u16, h: u16, n: nat, s: seq<byte>)
    decreases n
  {
    n == 0
    || match ParseRect(Capturing, s)
       case None => false
       case Some(Parsed(rect, rest)) =>
         && Takes(w, h, rect)
         && if rect.body.Raw? then TakesRects(w, h, n - 1, rest)
            else TakesRects(rect.head.w, rect.head.h, n - 1, rest)
  }

  /** A whole message a capture can take. */
  predicate TakesMessage(w: u16, h: u16, s: seq<byte>) {
    && s != []
    && if s[0] == FB_UPDATE then 4 <= |s| && TakesRects(w, h, BeValue(s[2..4]), s[4..])
       else Parse(Capturing, s).Some?
  }

  /** A canvas for the size announced. */
  method NewCanvas(w: u16, h: u16, ghost events: seq<StreamEvent>) returns (r: Option<Canvas>)
    requires AllWellFormed(events)
    ensures r.Some? <==> 0 < w && 0 < h
    ensures r.Some? ==> fresh(r.value) && fresh(r.value.image) && fresh(r.value.covered)
    ensures r.Some? ==> r.value.width == w && r.value.height == h && Replays(r.value, events + [DesktopSize(w, h)])
  {
    if w == 0 || h == 0 { return None; }
    var canvas := new Canvas(w, h);
    BlankShows(w, h, events);
    LastSizeThen(events, DesktopSize(w, h));
    return Some(canvas);
  }

  method PaintRect(canvas: Canvas, e: StreamEvent, ghost events: seq<StreamEvent>) returns (ok: bool)
    requires Replays(canvas, events) && e.Rect? && WellFormed(e)
    modifies canvas`remaining, canvas.image, canvas.covered
    ensures ok <==> Fits(canvas.width, canvas.height, e.x, e.y, PatchOf(e))
    ensures ok ==> Replays(canvas, events + [e])
  {
    ghost var before := canvas.Cells();
    LastSizeThen(events, e);
    if Fits(canvas.width, canvas.height, e.x, e.y, PatchOf(e)) {
      PaintShows(before, canvas.width, canvas.height, events, e);
    }
    ok := canvas.Paint(e.x, e.y, PatchOf(e));
  }

  /** Read one rectangle of an update and put it on the canvas; a resize makes a new one. */
  method ReadRect(client: VncClient, canvas: Canvas, ghost events: seq<StreamEvent>)
    returns (r: Option<Canvas>, ghost rect: Rectangle)
    requires Replays(canvas, events)
    modifies client`input, client`width, client`height, canvas`remaining, canvas.image, canvas.covered
    ensures r.Some? <==> ParseRect(Capturing, old(client.input)).Some?
                         && Takes(canvas.width, canvas.height, ParseRect(Capturing, old(client.input)).value.value)
    ensures r.Some? ==>
              && ParseRect(Capturing, old(client.input)) == Some(Parsed(rect, client.input))
              && BodyOk(Streaming, rect.head, rect.body) && EventOf(rect).Some?
              && (r.value == canvas || (fresh(r.value) && fresh(r.value.image) && fresh(r.value.covered)))
              && Replays(r.value, events + [EventOf(rect).value])
              && (if rect.body.Raw? then r.value == canvas
                  else r.value.width == rect.head.w && r.value.height == rect.head.h)
              && (old(client.width) == canvas.width && old(client.height) == canvas.height ==>
                    client.width == r.value.width && client.height == r.value.height)
  {
    ghost var s := client.input;
    rect := Rectangle(Head(0, 0, 0, 0), Resize);
    var both := client.ReadHead();
    if both.None? { return None, rect; }
    var (head, encoding) := both.value;
    var body := client.ReadBody(Capturing, head, encoding);
    if body.None? { return None, rect; }
    rect := Rectangle(head, body.value);
    EncodeRectOfParse(Capturing, s, rect, client.input);
    CapturingIsStreaming(rect);
    if body.value.Raw? {
      var ok := PaintRect(canvas, Rect(head.x, head.y, head.w, head.h, body.value.px), events);
      r := if ok then Some(canvas) else None;
    } else {
      client.width, client.height := head.w, head.h;
      r := NewCanvas(head.w, head.h, events);
    }
  }

  /** Where reading an update stands: `rects` have been read, `n` are to come; `whole` is what all of
      them parse to, and `taken` whether all can be taken. */
  ghost predicate Midway(client: VncClient, canvas: Canvas, events: seq<StreamEvent>, rects: seq<Rectangle>, n: nat,
                         whole: Option<Parsed<seq<Rectangle>>>, taken: bool)
    reads client`input, client`width, client`height, canvas, canvas.image, canvas.covered
  {
    && AllOk(Streaming, rects) && Replays(canvas, events + EventsOf(rects))
    && client.width == canvas.width && client.height == canvas.height
    && whole == Prepend(rects, ParseRects(Capturing, n, client.input))
    && taken == TakesRects(canvas.width, canvas.height, n, client.input)
  }

  method ReadNextRect(client: VncClient, canvas: Canvas, ghost events: seq<StreamEvent>, ghost rects: seq<Rectangle>,
                      ghost n: nat, ghost whole: Option<Parsed<seq<Rectangle>>>, ghost taken: bool)
    returns (r: Option<Canvas>, ghost more: seq<Rectangle>)
    requires 0 < n && Midway(client, canvas, events, rects, n, whole, taken)
    modifies client`input, client`width, client`height, canvas`remaining, canvas.image, canvas.covered
    ensures r.None? ==> !taken
    ensures r.Some? ==> Midway(client, r.value, events, more, n - 1, whole, taken)
    ensures r.Some? ==> r.value == canvas || (fresh(r.value) && fresh(r.value.image) && fresh(r.value.covered))
  {
    more := rects;
    PrependStep(Capturing, rects, n, client.input);
    ghost var rect;
    r, rect := ReadRect(client, canvas, events + EventsOf(rects));
    if r.Some? {
      OneMoreEvent(events, rects, rect);
      more := rects + [rect];
    }
  }

  /** All rectangles of one update. */
  method ReadRects(client: VncClient, n: nat, canvas: Canvas, ghost events: seq<StreamEvent>)
    returns (r: Option<Canvas>, ghost rects: seq<Rectangle>)
    requires Replays(canvas, events) && client.width == canvas.width && client.height == canvas.height
    modifies client`input, client`width, client`height, canvas`remaining, canvas.image, canvas.covered
    ensures r.Some? <==> TakesRects(canvas.width, canvas.height, n, old(client.input))
    ensures r.Some? ==>
              && ParseRects(Capturing, n, old(client.input)) == Some(Parsed(rects, client.input))
              && AllOk(Streaming, rects)
              && (r.value == canvas || (fresh(r.value) && fresh(r.value.image) && fresh(r.value.covered)))
              && Replays(r.value, events + EventsOf(rects))
              && client.width == r.value.width && client.height == r.value.height
  {
    ghost var whole := ParseRects(Capturing, n, client.input);
    ghost var taken := TakesRects(canvas.width, canvas.height, n, client.input);
    PrependNothing(whole);
    rects := [];
    var current := canvas;
    assert events + EventsOf(rects) == events;
    for k := 0 to n
      invariant current == canvas || (fresh(current) && fresh(current.image) && fresh(current.covered))
      invariant Midway(client, current, events, rects, n - k, whole, taken)
    {
      var next, more := ReadNextRect(client, current, events, rects, n - k, whole, taken);
      if next.None? { return None, rects; }
      current, rects := next.value, more;
    }
    PrependAll(Capturing, rects, client.input);
    return Some(current), rects;
  }

  lemma OneMoreEvent(events: seq<StreamEvent>, rects: seq<Rectangle>, rect: Rectangle)
    requires AllOk(Streaming, rects) && BodyOk(Streaming, rect.head, rect.body) && EventOf(rect).Some?
    ensures AllOk(Streaming, rects + [rect])
    ensures events + EventsOf(rects + [rect]) == events + EventsOf(rects) + [EventOf(rect).value]
  {
    assert (rects + [rect])[..|rects|] == rects;
  }

  /** The events of all updates among `ms`. */
  function EventsIn(ms: seq<Message>): (events: seq<StreamEvent>)
    requires AllMessagesOk(ms)
  {
    if ms == [] then []
    else
      var m := ms[|ms| - 1];
      EventsIn(ms[..|ms| - 1]) + if m.Update? then EventsOf(m.rects) else []
  }

  lemma EventsInThen(ms: seq<Message>, m: Message)
    requires AllMessagesOk(ms) && MessageOk(Streaming, m)
    ensures AllMessagesOk(ms + [m])
    ensures EventsIn(ms + [m]) == EventsIn(ms) + if m.Update? then EventsOf(m.rects) else []
  {
    assert (ms + [m])[..|ms|] == ms;
  }

  lemma {:induction false} EncodeAllThen(ms: seq<Message>, m: Message)
    requires AllMessagesOk(ms) && MessageOk(Streaming, m)
    ensures AllMessagesOk(ms + [m])
    ensures EncodeAll(ms + [m]) == EncodeAll(ms) + Encode(m)
    decreases |ms|
  {
    if ms == [] {
      assert ms + [m] == [m];
      assert EncodeAll([m][1..]) == [];
      assert EncodeAll([m]) == Encode(m) + [];
    } else {
      assert (ms + [m])[1..] == ms[1..] + [m];
      EncodeAllThen(ms[1..], m);
      Assoc(Encode(ms[0]), EncodeAll(ms[1..]), Encode(m));
    }
  }

  /** One more message has been read off the stream. */
  lemma ReadOn(start: seq<byte>, ms: seq<Message>, s: seq<byte>)
    requires AllMessagesOk(ms) && start == EncodeAll(ms) + s && Parse(Capturing, s).Some?
    ensures var p := Parse(Capturing, s).value;
            && MessageOk(Streaming, p.value) && AllMessagesOk(ms + [p.value])
            && start == EncodeAll(ms + [p.value]) + p.rest
            && EventsIn(ms + [p.value]) == EventsIn(ms) + if p.value.Update? then EventsOf(p.value.rects) else []
  {
    var p := Parse(Capturing, s).value;
    EncodeOfParse(Capturing, s);
    if p.value.Update? {
      forall i | 0 <= i < |p.value.rects| { CapturingIsStreaming(p.value.rects[i]); }
    }
    EncodeAllThen(ms, p.value);
    EventsInThen(ms, p.value);
    Assoc(EncodeAll(ms), Encode(p.value), p.rest);
  }

  /** Every pixel of the picture is the one painted there last. */
  ghost predicate Pictures(picture: Picture, events: seq<StreamEvent>)
    requires AllWellFormed(events)
  {
    forall x: nat, y: nat | x < picture.w && y < picture.h ::
      At(picture.w, x, y) < |picture.pixels| && ColourAt(events, x, y) == Some(picture.pixels[At(picture.w, x, y)])
  }

  /** Unless a rectangle has more than 2^30 pixels, that is the pixel replaying `events` shows. */
  lemma TrueColours(picture: Picture, events: seq<StreamEvent>, x: nat, y: nat)
    requires AllWellFormed(events) && Pictures(picture, events) && AllSmall(events)
    requires x < picture.w && y < picture.h
    ensures 0 <= y * picture.w + x < |picture.pixels| && PixelAt(events, x, y).Some?
    ensures picture.pixels[y * picture.w + x] == RgbOf(PixelAt(events, x, y).value)
  {
    TimesIsProduct(y, picture.w);
    ColourIsPixels(events, x, y);
  }

  lemma Placed(w: nat, h: nat, j: nat) returns (x: nat, y: nat)
    requires j < Times(h, w)
    ensures x < w && y < h && j == At(w, x, y)
    decreases h
  {
    if j < Times(h - 1, w) {
      x, y := Placed(w, h - 1, j);
    } else {
      x, y := j - Times(h - 1, w), h - 1;
    }
  }

  lemma SomewhereMissing(cells: seq<Cell>, w: nat, h: nat, events: seq<StreamEvent>, j: nat)
    requires AllWellFormed(events) && Shows(cells, w, h, events)
    requires j < |cells| && cells[j].None?
    ensures exists x: nat, y: nat :: x < w && y < h && PixelAt(events, x, y).None?
  {
    var x, y := Placed(w, h, j);
    ColourIsPixels(events, x, y);
    assert PixelAt(events, x, y).None?;
  }

  /** No pixel of the screen as announced last is missing. */
  ghost predicate Shown(events: seq<StreamEvent>) {
    && AllWellFormed(events) && LastSize(events).Some?
    && var (w, h) := LastSize(events).value;
       forall x: nat, y: nat | x < w && y < h :: PixelAt(events, x, y).Some?
  }

  method TakePicture(canvas: Canvas, ghost events: seq<StreamEvent>) returns (r: Option<Picture>)
    requires Replays(canvas, events)
    ensures r.Some? ==> && r.value.w == canvas.width && r.value.h == canvas.height
                        && Pictures(r.value, events)
    ensures r.Some? <==> Shown(events)
    ensures AllWellFormed(events) && LastSize(events) == Some((canvas.width, canvas.height))
  {
    var done := canvas.Complete();
    if !done {
      ghost var w, cells := canvas.width, canvas.Cells();
      ghost var j: nat :| j < |cells| && cells[j].None?;
      SomewhereMissing(cells, w, canvas.height, events, j);
      return None;
    }
    var picture := Picture(canvas.width, canvas.height, canvas.image[..]);
    forall x: nat, y: nat | x < picture.w && y < picture.h
      ensures At(picture.w, x, y) < |picture.pixels| && PixelAt(events, x, y).Some?
      ensures ColourAt(events, x, y) == Some(picture.pixels[At(picture.w, x, y)])
    {
      assert canvas.Cells()[At(picture.w, x, y)].Some?;
      ColourIsPixels(events, x, y);
    }
    return Some(picture);
  }

  /** One update behind its type byte, put on the canvas. */
  method ReadCaptureUpdate(client: VncClient, canvas: Canvas, ghost s: seq<byte>, ghost events: seq<StreamEvent>)
    returns (r: Option<Canvas>)
    requires s != [] && s[0] == FB_UPDATE && client.input == s[1..]
    requires Replays(canvas, events) && client.width == canvas.width && client.height == canvas.height
    modifies client`input, client`width, client`height, canvas`remaining, canvas.image, canvas.covered
    ensures r.Some? <==> TakesMessage(canvas.width, canvas.height, s)
    ensures r.Some? ==>
              && Parse(Capturing, s).Some? && Parse(Capturing, s).value.value.Update?
              && client.input == Parse(Capturing, s).value.rest
              && AllOk(Streaming, Parse(Capturing, s).value.value.rects)
              && (r.value == canvas || (fresh(r.value) && fresh(r.value.image) && fresh(r.value.covered)))
              && Replays(r.value, events + EventsOf(Parse(Capturing, s).value.value.rects))
              && client.width == r.value.width && client.height == r.value.height
  {
    var pad :- client.ReadU8();
    assert client.input == s[2..];
    var n :- client.ReadU16();
    assert n == BeValue(s[2..4]) && client.input == s[4..] by { assert s[2..][..2] == s[2..4]; }
    ghost var rects;
    r, rects := ReadRects(client, n, canvas, events);
  }

  /** What has been read since `start` is `ms`, and the canvas shows it. */
  ghost predicate Reading(client: VncClient, canvas: Canvas, start: seq<byte>, ms: seq<Message>, first: StreamEvent)
    reads client`input, client`width, client`height, canvas, canvas.image, canvas.covered
  {
    && client.width == canvas.width && client.height == canvas.height
    && AllMessagesOk(ms) && start == EncodeAll(ms) + client.input
    && Replays(canvas, [first] + EventsIn(ms))
  }

  method TakeMessage(client: VncClient, canvas: Canvas, ghost start: seq<byte>, ghost ms: seq<Message>,
                     ghost first: StreamEvent)
    returns (r: Option<Canvas>, updated: bool, ghost more: seq<Message>)
    requires Reading(client, canvas, start, ms, first)
    modifies client`input, client`width, client`height, canvas`remaining, canvas.image, canvas.covered
    ensures r.Some? <==> TakesMessage(canvas.width, canvas.height, old(client.input))
    ensures r.Some? ==>
              && (r.value == canvas || (fresh(r.value) && fresh(r.value.image) && fresh(r.value.covered)))
              && Reading(client, r.value, start, more, first)
              && |client.input| < |old(client.input)|
              && |more| == |ms| + 1 && more[..|ms|] == ms && (more[|ms|].Update? <==> updated)
  {
    more := ms;
    updated := false;
    ghost var s := client.input;
    var kind := client.ReadU8();
    if kind.None? { return None, updated, ms; }
    if kind.value == FB_UPDATE {
      updated := true;
      r := ReadCaptureUpdate(client, canvas, s, [first] + EventsIn(ms));
    } else {
      var ok := client.SkipOther(Capturing, kind.value, s);
      r := if ok then Some(canvas) else None;
    }
    if r.Some? { more := NowRead(start, ms, s, first); }
  }

  /** After none of these messages was the picture done. */
  ghost predicate Waiting(ms: seq<Message>, first: StreamEvent)
    requires AllMessagesOk(ms)
  {
    ms == []
    || (&& Waiting(ms[..|ms| - 1], first)
        && (ms[|ms| - 1].Update? ==> !Shown([first] + EventsIn(ms))))
  }

  /** A request for the whole screen as announced last. */
  function FullRequest(events: seq<StreamEvent>): (r: seq<Request>) {
    match LastSize(events)
    case None => []
    case Some((w, h)) => [Request(false, w, h)]
  }

  /** What is asked: the whole screen at first, and again after each update. */
  function Asked(ms: seq<Message>, first: StreamEvent): (r: seq<Request>)
    requires AllMessagesOk(ms)
  {
    if ms == [] then FullRequest([first])
    else Asked(ms[..|ms| - 1], first)
         + if ms[|ms| - 1].Update? then FullRequest([first] + EventsIn(ms)) else []
  }

  /** A capture never asks for changes only, and asks for the size it was told at first. */
  lemma {:induction false} AskedWhole(ms: seq<Message>, w: u16, h: u16)
    requires AllMessagesOk(ms)
    ensures var r := Asked(ms, DesktopSize(w, h));
            r != [] && r[0].w == w && r[0].h == h && forall k | 0 <= k < |r| :: !r[k].incremental
  {
    if ms != [] {
      AskedWhole(ms[..|ms| - 1], w, h);
    } else {
      assert LastSize([DesktopSize(w, h)]) == Some((w, h));
    }
  }

  /** Exactly the requests `asking` were added to those asked before, and sent behind `greeting`. */
  ghost predicate Asking(client: VncClient, greeting: seq<byte>, before: seq<Request>, asking: seq<Request>)
    reads client`requests, client`sent
  {
    client.requests == before + asking && client.sent == greeting + EncodeRequests(asking)
  }

  method AskAgain(client: VncClient, ghost greeting: seq<byte>, ghost before: seq<Request>,
                  ghost asking: seq<Request>)
    requires Asking(client, greeting, before, asking)
    modifies client`sent, client`requests
    ensures Asking(client, greeting, before, asking + [Request(false, client.width, client.height)])
  {
    var request := Request(false, client.width, client.height);
    OneMoreRequest(asking, request);
    Assoc(greeting, EncodeRequests(asking), EncodeRequest(request));
    client.Send(request);
  }

  /** How a capture ends. With a picture: right after the first update that completes it. Without:
      at a message it cannot take, with no picture complete until then. */
  ghost predicate Ends(r: Option<Picture>, ms: seq<Message>, rest: seq<byte>, first: StreamEvent)
    requires AllMessagesOk(ms)
  {
    var events := [first] + EventsIn(ms);
    && AllWellFormed(events)
    && match r
       case Some(picture) =>
         && ms != [] && ms[|ms| - 1].Update? && Waiting(ms[..|ms| - 1], first)
         && LastSize(events) == Some((picture.w, picture.h)) && Shown(events) && Pictures(picture, events)
       case None =>
         && Waiting(ms, first) && LastSize(events).Some?
         && !TakesMessage(LastSize(events).value.0, LastSize(events).value.1, rest)
  }

  lemma Finished(picture: Picture, ms: seq<Message>, rest: seq<byte>, first: StreamEvent)
    requires AllMessagesOk(ms) && ms != [] && ms[|ms| - 1].Update? && Waiting(ms[..|ms| - 1], first)
    requires AllWellFormed([first] + EventsIn(ms)) && LastSize([first] + EventsIn(ms)) == Some((picture.w, picture.h))
    requires Shown([first] + EventsIn(ms)) && Pictures(picture, [first] + EventsIn(ms))
    ensures Ends(Some(picture), ms, rest, first)
  {
  }

  lemma Stuck(ms: seq<Message>, rest: seq<byte>, first: StreamEvent, w: u16, h: u16)
    requires AllMessagesOk(ms) && Waiting(ms, first) && AllWellFormed([first] + EventsIn(ms))
    requires LastSize([first] + EventsIn(ms)) == Some((w, h)) && !TakesMessage(w, h, rest)
    ensures Ends(None, ms, rest, first)
  {
  }

  /** Where a capture began: the bytes to come, the size, what was sent and asked before. */
  datatype Course = Course(start: seq<byte>, first: StreamEvent, greeting: seq<byte>, before: seq<Request>)

  ghost predicate Going(client: VncClient, canvas: Canvas, c: Course, ms: seq<Message>)
    reads client, canvas, canvas.image, canvas.covered
  {
    && Reading(client, canvas, c.start, ms, c.first) && Waiting(ms, c.first)
    && Asking(client, c.greeting, c.before, Asked(ms, c.first))
  }

  /** A message that is no update leaves the capture waiting as before. */
  lemma NothingNew(client: VncClient, canvas: Canvas, c: Course, done: seq<Message>, ms: seq<Message>)
    requires AllMessagesOk(done) && Waiting(done, c.first) && Reading(client, canvas, c.start, ms, c.first)
    requires |ms| == |done| + 1 && ms[..|done|] == done && !ms[|done|].Update?
    requires Asking(client, c.greeting, c.before, Asked(done, c.first))
    ensures Going(client, canvas, c, ms)
  {
    assert Asked(ms, c.first) == Asked(done, c.first);
  }

  lemma StillWaiting(ms: seq<Message>, more: seq<Message>, first: StreamEvent, w: u16, h: u16)
    requires AllMessagesOk(ms) && AllMessagesOk(more) && |more| == |ms| + 1 && more[..|ms|] == ms
    requires more[|ms|].Update? && LastSize([first] + EventsIn(more)) == Some((w, h)) && Waiting(ms, first)
    requires !Shown([first] + EventsIn(more))
    ensures Waiting(more, first) && Asked(more, first) == Asked(ms, first) + [Request(false, w, h)]
  {
  }

  /** After an update: the picture, if it is complete, else what is still to be asked. */
  method Judge(canvas: Canvas, ghost first: StreamEvent, ghost done: seq<Message>, ghost ms: seq<Message>,
               ghost rest: seq<byte>)
    returns (r: Option<Picture>)
    requires AllMessagesOk(ms) && Replays(canvas, [first] + EventsIn(ms))
    requires |ms| == |done| + 1 && ms[..|done|] == done && ms[|done|].Update? && Waiting(done, first)
    ensures r.Some? ==> Ends(r, ms, rest, first) && r.value.w == canvas.width && r.value.h == canvas.height
    ensures r.None? ==> && Waiting(ms, first)
                        && Asked(ms, first) == Asked(done, first) + [Request(false, canvas.width, canvas.height)]
  {
    r := TakePicture(canvas, [first] + EventsIn(ms));
    if r.Some? {
      Finished(r.value, ms, rest, first);
    } else {
      StillWaiting(done, ms, first, canvas.width, canvas.height);
    }
  }

  /** Ask for the screen again and go on. */
  method AskOn(client: VncClient, canvas: Canvas, ghost c: Course, ghost done: seq<Message>, ghost ms: seq<Message>)
    requires Reading(client, canvas, c.start, ms, c.first) && AllMessagesOk(done) && Waiting(ms, c.first)
    requires Asking(client, c.greeting, c.before, Asked(done, c.first))
    requires Asked(ms, c.first) == Asked(done, c.first) + [Request(false, canvas.width, canvas.height)]
    modifies client`sent, client`requests
    ensures Going(client, canvas, c, ms)
  {
    AskAgain(client, c.greeting, c.before, Asked(done, c.first));
  }

  /** A capture has ended with `r`, having read `ms` and asked for all it had to. */
  ghost predicate Finishes(client: VncClient, r: Option<Picture>, c: Course, ms: seq<Message>, rest: seq<byte>)
    reads client
  {
    && AllMessagesOk(ms) && c.start == EncodeAll(ms) + rest && Ends(r, ms, rest, c.first)
    && (r.Some? ==> rest == client.input && r.value.w == client.width && r.value.h == client.height)
    && (r.Some? ==> ms != [])
    && Asking(client, c.greeting, c.before, Asked(if r.Some? then ms[..|ms| - 1] else ms, c.first))
  }

  lemma FinishesStuck(client: VncClient, canvas: Canvas, c: Course, ms: seq<Message>)
    requires Going(client, canvas, c, ms) && !TakesMessage(canvas.width, canvas.height, client.input)
    ensures Finishes(client, None, c, ms, client.input)
  {
    Stuck(ms, client.input, c.first, canvas.width, canvas.height);
  }

  /** An update has been read: stop with the picture, or ask again and go on. */
  method Conclude(client: VncClient, canvas: Canvas, ghost c: Course, ghost done: seq<Message>, ghost ms: seq<Message>)
    returns (r: Option<Picture>)
    requires Reading(client, canvas, c.start, ms, c.first) && AllMessagesOk(done) && Waiting(done, c.first)
    requires |ms| == |done| + 1 && ms[..|done|] == done && ms[|done|].Update?
    requires Asking(client, c.greeting, c.before, Asked(done, c.first))
    modifies client`sent, client`requests
    ensures r.Some? ==> Finishes(client, r, c, ms, client.input)
    ensures r.None? ==> Going(client, canvas, c, ms)
  {
    r := Judge(canvas, c.first, done, ms, client.input);
    if r.None? { AskOn(client, canvas, c, done, ms); }
  }

  /** Read updates onto the canvas, asking again after each, until no pixel is missing. */
  method Assemble(client: VncClient, blank: Canvas, ghost c: Course)
    returns (r: Option<Picture>, ghost ms: seq<Message>, ghost rest: seq<byte>)
    requires Going(client, blank, c, [])
    modifies client, blank, blank.image, blank.covered
    ensures Finishes(client, r, c, ms, rest)
  {
    ms, rest := [], client.input;
    var canvas := blank;
    while true
      invariant canvas == blank || (fresh(canvas) && fresh(canvas.image) && fresh(canvas.covered))
      invariant Going(client, canvas, c, ms)
      decreases |client.input|
    {
      rest := client.input;
      ghost var done := ms;
      if !TakesMessage(canvas.width, canvas.height, rest) { FinishesStuck(client, canvas, c, ms); }
      var next, updated, more := TakeMessage(client, canvas, c.start, ms, c.first);
      if next.None? { return None, ms, rest; }
      canvas, ms := next.value, more;
      if updated {
        r := Conclude(client, canvas, c, done, ms);
        if r.Some? { return r, ms, client.input; }
      } else {
        NothingNew(client, canvas, c, done, ms);
      }
    }
  }

  lemma NowRead(start: seq<byte>, ms: seq<Message>, s: seq<byte>, first: StreamEvent) returns (more: seq<Message>)
    requires AllMessagesOk(ms) && start == EncodeAll(ms) + s && Parse(Capturing, s).Some?
    ensures AllMessagesOk(more) && start == EncodeAll(more) + Parse(Capturing, s).value.rest
    ensures var m := Parse(Capturing, s).value.value;
            && MessageOk(Streaming, m)
            && [first] + EventsIn(more)
               == if m.Update? then [first] + EventsIn(ms) + EventsOf(m.rects) else [first] + EventsIn(ms)
    ensures more == ms + [Parse(Capturing, s).value.value]
  {
    ReadOn(start, ms, s);
    var m := Parse(Capturing, s).value.value;
    EventsAssoc(first, EventsIn(ms), if m.Update? then EventsOf(m.rects) else []);
    more := ms + [m];
  }

  lemma AtFirst(start: seq<byte>, first: StreamEvent)
    requires first.DesktopSize?
    ensures start == EncodeAll([]) + start && [first] == [first] + EventsIn([])
    ensures Waiting([], first) && Asked([], first) == [Request(false, first.w, first.h)]
  {
  }

  /** Ask for raw pixels and, with a canvas for the size announced, for the whole screen. */
  method Open(client: VncClient) returns (r: Option<Canvas>, ghost c: Course)
    modifies client`sent, client`requests
    ensures r.Some? <==> 0 < client.width && 0 < client.height
    ensures r.None? ==> client.requests == old(client.requests)
    ensures c == Course(client.input, DesktopSize(client.width, client.height),
                        old(client.sent) + SET_PIXEL_FORMAT + SetEncodings([RAW]), old(client.requests))
    ensures r.Some? ==> fresh(r.value) && fresh(r.value.image) && fresh(r.value.covered)
    ensures r.Some? ==> Going(client, r.value, c, [])
  {
    client.sent := client.sent + SET_PIXEL_FORMAT + SetEncodings([RAW]);
    ghost var first := DesktopSize(client.width, client.height);
    c := Course(client.input, first, client.sent, client.requests);
    r := NewCanvas(client.width, client.height, []);
    if r.None? { return; }
    AtFirst(client.input, first);
    assert [] + [first] == [first];
    AskAgain(client, c.greeting, c.before, []);
    assert [] + [Request(false, first.w, first.h)] == Asked([], first);
  }

  /** Read the whole framebuffer once. A picture has the size announced last, and each of its
      pixels is the one painted there last since that announcement, whatever the server chose to
      send as updates, resizes and other messages. It is taken at the first update that completes
      it; without one, the stream goes on with a message that cannot be taken. One request for the
      whole screen is sent at first and after each update but the last, for the size then current. */
  method CaptureInner(client: VncClient) returns (r: Option<Picture>, ghost ms: seq<Message>, ghost rest: seq<byte>)
    modifies client
    ensures old(client.width) == 0 || old(client.height) == 0 ==> r == None && client.requests == old(client.requests)
    ensures 0 < old(client.width) && 0 < old(client.height) ==>
              Finishes(client, r, Course(old(client.input), DesktopSize(old(client.width), old(client.height)),
                                         old(client.sent) + SET_PIXEL_FORMAT + SetEncodings([RAW]),
                                         old(client.requests)), ms, rest)
  {
    var made, c := Open(client);
    if made.None? { return None, [], client.input; }
    r, ms, rest := Assemble(client, made.value, c);
  }

  lemma EventsAssoc(first: StreamEvent, a: seq<StreamEvent>, b: seq<StreamEvent>)
    ensures [first] + (a + b) == [first] + a + b && [first] + a + [] == [first] + a
  {
  }

  /** All a capture on a fresh connection sends: BGRx pixels, raw rectangles only, and the requests. */
  lemma CaptureIsUnderstood(client: VncClient, asking: seq<Request>)
    requires Asking(client, [] + SET_PIXEL_FORMAT + SetEncodings([RAW]), [], asking)
    ensures client.requests == asking
    ensures VncServer.ReadAll(client.sent)
            == Some([VncServer.SetPixelFormat(VncServer.BGRX), VncServer.SetEncodings([0])] + AllUnderstood(asking))
  {
    assert [] + SET_PIXEL_FORMAT + SetEncodings([RAW]) == Greeting([RAW]);
    SentIsUnderstood([RAW], asking);
  }
}
