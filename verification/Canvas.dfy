/** A framebuffer assembled from raw rectangles, with a count of the pixels still missing. */
module Canvas {
  import opened Bytes
  import opened Screen

  datatype Rgb = Rgb(r: byte, g: byte, b: byte)

  /** A pixel, once one was painted. */
  type Cell = Option<Rgb>

  function RgbOf(p: Pixel): Rgb { Rgb(p.r, p.g, p.b) }

  /** Where pixel (x, y) of a canvas `w` wide lives. */
  function At(w: nat, x: nat, y: nat): (i: nat) { Times(y, w) + x }

  lemma AtBound(w: nat, h: nat, x: nat, y: nat)
    requires x < w && y < h
    ensures At(w, x, y) < Times(h, w)
  {
    TimesMonotone(y + 1, h, w, w);
  }

  /** A cell lies in a stretch of row `y` exactly when it is in that row and those columns. */
  lemma InStretch(w: nat, cx: nat, cy: nat, x: nat, y: nat, n: nat)
    requires cx < w && x + n <= w
    ensures At(w, x, y) <= At(w, cx, cy) < At(w, x, y) + n <==> cy == y && x <= cx < x + n
  {
    if cy < y { TimesMonotone(cy + 1, y, w, w); }
    if y < cy { TimesMonotone(y + 1, cy, w, w); }
  }

  /** The index arithmetic of a rectangle's bytes is 32-bit. */
  function ByteIndex(w: nat, row: nat, col: nat): (i: nat) { Offset(w, row, col) % U32_SPAN }

  /** It is exact throughout a rectangle if and only if the rectangle has at most 2^30 pixels. */
  lemma ByteIndexExact(w: u16, h: u16)
    ensures (forall row: nat, col: nat | row < h && col < w :: ByteIndex(w, row, col) == Offset(w, row, col))
            <==> Times(h, w) <= 0x4000_0000
  {
    if Times(h, w) <= 0x4000_0000 {
      forall row: nat, col: nat | row < h && col < w
        ensures ByteIndex(w, row, col) == Offset(w, row, col)
      {
        OffsetBound(w, h, row, col);
      }
    } else {
      var row, col := WrappedPixel(w, h);
      assert ByteIndex(w, row, col) == 0 && Offset(w, row, col) == U32_SPAN;
    }
  }

  /** The pixel whose offset is 2^32. */
  lemma WrappedPixel(w: u16, h: u16) returns (row: nat, col: nat)
    requires Times(h, w) > 0x4000_0000
    ensures row < h && col < w && Offset(w, row, col) == U32_SPAN
  {
    TimesIsProduct(h, w);
    assert w != 0 by { assert h * 0 == 0; }
    row, col := 0x4000_0000 / w, 0x4000_0000 % w;
    TimesIsProduct(row, w);
    assert row * w + col == 0x4000_0000;
    if h <= row { TimesMonotone(h, row, w, w); }
  }

  function Uncovered(cells: seq<Cell>): (n: nat) {
    if cells == [] then 0
    else Uncovered(cells[..|cells| - 1]) + if cells[|cells| - 1].None? then 1 else 0
  }

  lemma {:induction false} UncoveredUpdate(cells: seq<Cell>, i: nat, colour: Rgb)
    requires i < |cells|
    ensures Uncovered(cells[i := Some(colour)]) == Uncovered(cells) - (if cells[i].None? then 1 else 0)
    decreases |cells|
  {
    var n := |cells| - 1;
    if i < n {
      UncoveredUpdate(cells[..n], i, colour);
      assert cells[i := Some(colour)][..n] == cells[..n][i := Some(colour)];
    } else {
      assert cells[i := Some(colour)][..n] == cells[..n];
    }
  }

  /** None are missing exactly when every pixel was painted. */
  lemma {:induction false} CompleteIff(cells: seq<Cell>)
    ensures Uncovered(cells) == 0 <==> forall i | 0 <= i < |cells| :: cells[i].Some?
    decreases |cells|
  {
    if cells != [] {
      var n := |cells| - 1;
      CompleteIff(cells[..n]);
      assert forall i | 0 <= i < n :: cells[..n][i] == cells[i];
    }
  }

  lemma {:induction false} AllUncovered(n: nat)
    ensures Uncovered(seq(n, _ => None)) == n
  {
    if n != 0 {
      var cells: seq<Cell> := seq(n, _ => None);
      assert cells[..n - 1] == seq(n - 1, _ => None);
      AllUncovered(n - 1);
    }
  }

  /** A rectangle of `w` by `h` pixels in `B G R x` bytes. */
  datatype Patch = Patch(w: nat, h: nat, px: seq<byte>) {
    predicate Valid() { |px| == Times(h, w) * 4 }

    function Colour(row: nat, col: nat): (c: Rgb)
      requires Valid() && row < h && col < w
    {
      OffsetBound(w, h, row, col);
      var i := ByteIndex(w, row, col);
      Rgb(px[i + 2], px[i + 1], px[i])
    }
  }

  /** The first `cols` pixels of one row of the patch, painted from cell `base` on. */
  function PaintedCols(cells: seq<Cell>, base: nat, p: Patch, row: nat, cols: nat): (r: seq<Cell>)
    requires p.Valid() && row < p.h && cols <= p.w && base + p.w <= |cells|
    ensures |r| == |cells|
    decreases cols
  {
    if cols == 0 then cells
    else PaintedCols(cells, base, p, row, cols - 1)[base + cols - 1 := Some(p.Colour(row, cols - 1))]
  }

  predicate Fits(fw: nat, fh: nat, x: nat, y: nat, p: Patch) { x + p.w <= fw && y + p.h <= fh }

  lemma RowFits(fw: nat, fh: nat, x: nat, y: nat, p: Patch, row: nat)
    requires Fits(fw, fh, x, y, p) && row < p.h
    ensures At(fw, x, y + row) + p.w <= Times(fh, fw)
  {
    TimesMonotone(y + row + 1, fh, fw, fw);
  }

  /** The first `rows` rows of the patch painted at (x, y). */
  function PaintedRows(cells: seq<Cell>, fw: nat, fh: nat, x: nat, y: nat, p: Patch, rows: nat): (r: seq<Cell>)
    requires p.Valid() && Fits(fw, fh, x, y, p) && rows <= p.h && |cells| == Times(fh, fw)
    ensures |r| == |cells|
    decreases rows
  {
    if rows == 0 then cells
    else
      RowFits(fw, fh, x, y, p, rows - 1);
      PaintedCols(PaintedRows(cells, fw, fh, x, y, p, rows - 1), At(fw, x, y + rows - 1), p, rows - 1, p.w)
  }

  lemma {:induction false} PaintedColsAt(cells: seq<Cell>, base: nat, p: Patch, row: nat, cols: nat, i: nat)
    requires p.Valid() && row < p.h && cols <= p.w && base + p.w <= |cells| && i < |cells|
    ensures PaintedCols(cells, base, p, row, cols)[i]
            == if base <= i < base + cols then Some(p.Colour(row, i - base)) else cells[i]
    decreases cols
  {
    if cols != 0 { PaintedColsAt(cells, base, p, row, cols - 1, i); }
  }

  lemma PaintedRowAt(cells: seq<Cell>, fw: nat, x: nat, y: nat, p: Patch, row: nat, cx: nat, cy: nat)
    requires p.Valid() && row < p.h && x + p.w <= fw && At(fw, x, y + row) + p.w <= |cells|
    requires cx < fw && At(fw, cx, cy) < |cells|
    ensures PaintedCols(cells, At(fw, x, y + row), p, row, p.w)[At(fw, cx, cy)]
            == if cy == y + row && x <= cx < x + p.w then Some(p.Colour(row, cx - x)) else cells[At(fw, cx, cy)]
  {
    PaintedColsAt(cells, At(fw, x, y + row), p, row, p.w, At(fw, cx, cy));
    InStretch(fw, cx, cy, x, y + row, p.w);
  }

  /** Painting changes the pixels of the rectangle, to its colours, and no others. */
  lemma {:induction false} PaintedRowsAt(cells: seq<Cell>, fw: nat, fh: nat, x: nat, y: nat, p: Patch, rows: nat,
                                         cx: nat, cy: nat)
    requires p.Valid() && Fits(fw, fh, x, y, p) && rows <= p.h && |cells| == Times(fh, fw)
    requires cx < fw && cy < fh
    ensures At(fw, cx, cy) < |cells|
    ensures PaintedRows(cells, fw, fh, x, y, p, rows)[At(fw, cx, cy)]
            == if x <= cx < x + p.w && y <= cy < y + rows then Some(p.Colour(cy - y, cx - x))
               else cells[At(fw, cx, cy)]
    decreases rows
  {
    AtBound(fw, fh, cx, cy);
    if rows != 0 {
      PaintedRowsAt(cells, fw, fh, x, y, p, rows - 1, cx, cy);
      RowFits(fw, fh, x, y, p, rows - 1);
      PaintedRowAt(PaintedRows(cells, fw, fh, x, y, p, rows - 1), fw, x, y, p, rows - 1, cx, cy);
    }
  }

  class Canvas {
    const width: u16
    const height: u16
    const image: array<Rgb>
    const covered: array<bool>
    var remaining: nat

    ghost function Cells(): (c: seq<Cell>)
      requires image.Length == covered.Length
      reads this, image, covered
    {
      seq(covered.Length, i requires 0 <= i < covered.Length reads this, image, covered =>
        if covered[i] then Some(image[i]) else None)
    }

    /** The counter is the number of pixels never painted. */
    ghost predicate Valid()
      reads this, image, covered
    {
      && 0 < width && 0 < height
      && image.Length == covered.Length == Times(height, width)
      && remaining == Uncovered(Cells())
    }

    constructor (w: u16, h: u16)
      requires 0 < w && 0 < h
      ensures Valid() && width == w && height == h && fresh(image) && fresh(covered)
      ensures Cells() == seq(Times(h, w), _ => None)
    {
      width, height := w, h;
      var n := Times(h, w);
      image := new Rgb[n](_ => Rgb(0, 0, 0));
      covered := new bool[n](_ => false);
      remaining := n;
      AllUncovered(n);
      new;
      assert Cells() == seq(n, _ => None);
    }

    /** Put one pixel and count it if it is the first there. */
    method Put(i: nat, colour: Rgb)
      requires Valid() && i < image.Length
      modifies `remaining, image, covered
      ensures Valid() && Cells() == old(Cells())[i := Some(colour)]
    {
      UncoveredUpdate(Cells(), i, colour);
      ghost var before := Cells();
      image[i] := colour;
      if !covered[i] {
        covered[i] := true;
        assert before[i].None?;
        SomeUncovered(before, i);
        remaining := remaining - 1;
      }
      assert Cells() == before[i := Some(colour)];
    }

    method PaintRow(x: nat, y: nat, p: Patch, row: nat)
      requires Valid() && p.Valid() && Fits(width, height, x, y, p) && row < p.h
      modifies `remaining, image, covered
      ensures Valid() && At(width, x, y + row) + p.w <= |old(Cells())|
      ensures Cells() == PaintedCols(old(Cells()), At(width, x, y + row), p, row, p.w)
    {
      RowFits(width, height, x, y, p, row);
      ghost var before := Cells();
      for col := 0 to p.w
        invariant Valid()
        invariant Cells() == PaintedCols(before, At(width, x, y + row), p, row, col)
      {
        TimesIsProduct(y + row, width);
        Put((y + row) * width + (x + col), p.Colour(row, col));
      }
    }

    /** Paint a raw rectangle, or refuse one that does not lie on the screen. */
    method Paint(x: u16, y: u16, p: Patch) returns (ok: bool)
      requires Valid() && p.Valid()
      modifies `remaining, image, covered
      ensures Valid() && (ok <==> Fits(width, height, x, y, p))
      ensures Cells() == if ok then PaintedRows(old(Cells()), width, height, x, y, p, p.h) else old(Cells())
    {
      if x + p.w > width || y + p.h > height { return false; }
      ghost var before := Cells();
      for row := 0 to p.h
        invariant Valid()
        invariant Cells() == PaintedRows(before, width, height, x, y, p, row)
      {
        PaintRow(x, y, p, row);
      }
      return true;
    }

    method Complete() returns (done: bool)
      requires Valid()
      ensures done <==> forall i | 0 <= i < |Cells()| :: Cells()[i].Some?
    {
      CompleteIff(Cells());
      return remaining == 0;
    }
  }

  lemma {:induction false} SomeUncovered(cells: seq<Cell>, i: nat)
    requires i < |cells| && cells[i].None?
    ensures 0 < Uncovered(cells)
    decreases |cells|
  {
    if i < |cells| - 1 { SomeUncovered(cells[..|cells| - 1], i); }
  }

  // Whole runs of paints and resizes.

  function PatchOf(e: StreamEvent): Patch
    requires e.Rect?
  {
    Patch(e.w, e.h, e.bgrx)
  }

  /** The colour on screen at (x, y) after `events`, as painted: that of the last rectangle there
      since the last resize, its bytes found with 32-bit index arithmetic. */
  function ColourAt(events: seq<StreamEvent>, x: nat, y: nat): (c: Cell)
    requires AllWellFormed(events)
  {
    if events == [] then None
    else
      var before, e := events[..|events| - 1], events[|events| - 1];
      assert WellFormed(e);
      if e.DesktopSize? then None
      else if Covers(e, x, y) then Some(PatchOf(e).Colour(y - e.y, x - e.x))
      else ColourAt(before, x, y)
  }

  lemma ColourAtThen(events: seq<StreamEvent>, e: StreamEvent, x: nat, y: nat)
    requires AllWellFormed(events) && WellFormed(e)
    ensures AllWellFormed(events + [e])
    ensures ColourAt(events + [e], x, y) ==
            if e.DesktopSize? then None
            else if Covers(e, x, y) then Some(PatchOf(e).Colour(y - e.y, x - e.x))
            else ColourAt(events, x, y)
  {
    assert (events + [e])[..|events|] == events;
  }

  /** No rectangle is so large that its index arithmetic wraps. */
  predicate AllSmall(events: seq<StreamEvent>) {
    forall i | 0 <= i < |events| && events[i].Rect? :: Times(events[i].h, events[i].w) <= 0x4000_0000
  }

  /** Something is painted exactly where replay shows a pixel, and in its colour unless a rectangle
      is so large that its index arithmetic wraps. */
  lemma {:induction false} ColourIsPixels(events: seq<StreamEvent>, x: nat, y: nat)
    requires AllWellFormed(events)
    ensures ColourAt(events, x, y).Some? <==> PixelAt(events, x, y).Some?
    ensures AllSmall(events) && PixelAt(events, x, y).Some? ==>
              ColourAt(events, x, y).value == RgbOf(PixelAt(events, x, y).value)
    decreases |events|
  {
    if events != [] {
      var before, e := events[..|events| - 1], events[|events| - 1];
      ColourIsPixels(before, x, y);
      if AllSmall(events) && Covers(e, x, y) { ColourOfEvent(e, x, y); }
    }
  }

  lemma ColourOfEvent(e: StreamEvent, x: nat, y: nat)
    requires WellFormed(e) && Covers(e, x, y) && Times(e.h, e.w) <= 0x4000_0000
    ensures PatchOf(e).Colour(y - e.y, x - e.x) == RgbOf(PixelIn(e, x, y))
  {
    ByteIndexExact(e.w, e.h);
    OffsetBound(e.w, e.h, y - e.y, x - e.x);
    assert ByteIndex(e.w, y - e.y, x - e.x) == Offset(e.w, y - e.y, x - e.x);
  }

  /** Every cell is what `events` paint there. */
  ghost predicate Shows(cells: seq<Cell>, w: nat, h: nat, events: seq<StreamEvent>)
    requires AllWellFormed(events)
  {
    && |cells| == Times(h, w)
    && forall x: nat, y: nat | x < w && y < h ::
         At(w, x, y) < |cells| && cells[At(w, x, y)] == ColourAt(events, x, y)
  }

  lemma BlankShows(w: nat, h: nat, events: seq<StreamEvent>)
    requires AllWellFormed(events) && w < U16_SPAN && h < U16_SPAN
    ensures AllWellFormed(events + [DesktopSize(w, h)])
    ensures Shows(seq(Times(h, w), _ => None), w, h, events + [DesktopSize(w, h)])
  {
    var cells: seq<Cell> := seq(Times(h, w), _ => None);
    ColourAtThen(events, DesktopSize(w, h), 0, 0);
    forall x: nat, y: nat | x < w && y < h
      ensures At(w, x, y) < |cells| && ColourAt(events + [DesktopSize(w, h)], x, y).None?
    {
      AtBound(w, h, x, y);
      ColourAtThen(events, DesktopSize(w, h), x, y);
    }
  }

  /** Painting a rectangle is replaying it. */
  lemma PaintShows(cells: seq<Cell>, w: nat, h: nat, events: seq<StreamEvent>, e: StreamEvent)
    requires AllWellFormed(events) && WellFormed(e) && e.Rect?
    requires Shows(cells, w, h, events) && Fits(w, h, e.x, e.y, PatchOf(e))
    ensures AllWellFormed(events + [e])
    ensures Shows(PaintedRows(cells, w, h, e.x, e.y, PatchOf(e), e.h), w, h, events + [e])
  {
    var after := PaintedRows(cells, w, h, e.x, e.y, PatchOf(e), e.h);
    ColourAtThen(events, e, 0, 0);
    forall x: nat, y: nat | x < w && y < h
      ensures At(w, x, y) < |after| && after[At(w, x, y)] == ColourAt(events + [e], x, y)
    {
      PaintedRowsAt(cells, w, h, e.x, e.y, PatchOf(e), e.h, x, y);
      ColourAtThen(events, e, x, y);
    }
  }
}
