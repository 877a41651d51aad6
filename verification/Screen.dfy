/** Screen events, as the RFB stream and the native frame stream both yield them, and what
    replaying them paints. */
module Screen {
  import opened Bytes

  datatype Pixel = Pixel(b: byte, g: byte, r: byte, x: byte)

  datatype StreamEvent =
    | Rect(x: u16, y: u16, w: u16, h: u16, bgrx: seq<byte>)
    | DesktopSize(w: u16, h: u16)
    | Cursor(hotX: u16, hotY: u16, w: u16, h: u16, rgba: seq<byte>)
    | Pointer(px: int, py: int, visible: bool)

  /** `B G R A` pixels as `R G B A`; an incomplete last pixel is dropped. */
  function Swapped(px: seq<byte>): (rgba: seq<byte>) {
    seq(|px| / 4 * 4, i requires 0 <= i < |px| / 4 * 4 =>
      if i % 4 == 0 then px[i + 2] else if i % 4 == 2 then px[i - 2] else px[i])
  }

  /** Where the pixel at `row`, `col` of a rectangle `w` wide starts in its bytes. */
  function Offset(w: nat, row: nat, col: nat): (at: nat) { (Times(row, w) + col) * 4 }

  lemma OffsetBound(w: nat, h: nat, row: nat, col: nat)
    requires row < h && col < w
    ensures Offset(w, row, col) + 4 <= Times(h, w) * 4
  {
    TimesMonotone(row + 1, h, w, w);
  }

  predicate WellFormed(e: StreamEvent) {
    e.Rect? ==> |e.bgrx| == Times(e.h, e.w) * 4
  }

  predicate AllWellFormed(events: seq<StreamEvent>) {
    forall e | e in events :: WellFormed(e)
  }

  predicate Covers(e: StreamEvent, x: nat, y: nat) {
    e.Rect? && e.x <= x < e.x + e.w && e.y <= y < e.y + e.h
  }

  /** The four bytes of a pixel. */
  function PixelOf(bytes: seq<byte>, i: nat): (p: Pixel)
    requires i + 4 <= |bytes|
  {
    Pixel(bytes[i], bytes[i + 1], bytes[i + 2], bytes[i + 3])
  }

  function PixelIn(e: StreamEvent, x: nat, y: nat): (p: Pixel)
    requires WellFormed(e) && Covers(e, x, y)
  {
    OffsetBound(e.w, e.h, y - e.y, x - e.x);
    PixelOf(e.bgrx, Offset(e.w, y - e.y, x - e.x))
  }

  /** What is on screen at (x, y) after `events`: the pixel of the last rectangle painted there
      since the last resize, if any. */
  function PixelAt(events: seq<StreamEvent>, x: nat, y: nat): (p: Option<Pixel>)
    requires AllWellFormed(events)
  {
    if events == [] then None
    else
      var before, e := events[..|events| - 1], events[|events| - 1];
      if e.DesktopSize? then None
      else if Covers(e, x, y) then Some(PixelIn(e, x, y))
      else PixelAt(before, x, y)
  }

  lemma PixelAtThen(events: seq<StreamEvent>, e: StreamEvent, x: nat, y: nat)
    requires AllWellFormed(events) && WellFormed(e)
    ensures AllWellFormed(events + [e])
    ensures PixelAt(events + [e], x, y) ==
            if e.DesktopSize? then None
            else if Covers(e, x, y) then Some(PixelIn(e, x, y))
            else PixelAt(events, x, y)
  {
    assert (events + [e])[..|events|] == events;
  }

  /** The size announced last. */
  function LastSize(events: seq<StreamEvent>): (size: Option<(u16, u16)>) {
    if events == [] then None
    else
      var e := events[|events| - 1];
      if e.DesktopSize? then Some((e.w, e.h)) else LastSize(events[..|events| - 1])
  }

  lemma LastSizeThen(events: seq<StreamEvent>, e: StreamEvent)
    ensures LastSize(events + [e]) == if e.DesktopSize? then Some((e.w, e.h)) else LastSize(events)
  {
    var both := events + [e];
    assert both[..|events|] == events;
  }

  /** The pixels of `px`, whole ones only, with blue and red exchanged. */
  predicate SwappedPixels(px: seq<byte>, rgba: seq<byte>) {
    && |rgba| == |px| / 4 * 4
    && forall k | 0 <= k < |px| / 4 :: SwappedAt(px, rgba, k)
  }

  predicate SwappedAt(px: seq<byte>, rgba: seq<byte>, k: nat)
    requires 4 * k + 4 <= |px| && 4 * k + 4 <= |rgba|
  {
    rgba[4 * k..4 * k + 4] == [px[4 * k + 2], px[4 * k + 1], px[4 * k], px[4 * k + 3]]
  }

  lemma SwappedIs(px: seq<byte>)
    ensures SwappedPixels(px, Swapped(px))
  {
    var rgba := Swapped(px);
    forall k | 0 <= k < |px| / 4 ensures SwappedAt(px, rgba, k) {
      assert rgba[4 * k] == px[4 * k + 2] && rgba[4 * k + 1] == px[4 * k + 1];
      assert rgba[4 * k + 2] == px[4 * k] && rgba[4 * k + 3] == px[4 * k + 3];
    }
  }
}
