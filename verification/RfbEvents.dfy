/** What a recorder makes of an update's rectangles: pixels as they are, cursors as RGBA. */
module RfbEvents {
  import opened Bytes
  import opened Screen
  import opened Rfb

  // Cursors.

  /** Bit `k` of a mask byte, the most significant first. */
  predicate MaskBit(b: byte, k: nat)
    requires k < 8
  {
    b / Pow2(7 - k) % 2 == 1
  }

  function MaskAt(mask: seq<byte>, w: nat, row: nat, col: nat): bool
    requires Times(row, MaskStride(w)) + col / 8 < |mask|
  {
    MaskBit(mask[Times(row, MaskStride(w)) + col / 8], col % 8)
  }

  /** The pixel at `row`, `col` of a rich cursor: opaque where its mask bit is set. */
  function RichPixel(px: seq<byte>, mask: seq<byte>, w: nat, row: nat, col: nat): (p: seq<byte>)
    requires Offset(w, row, col) + 4 <= |px| && Times(row, MaskStride(w)) + col / 8 < |mask|
    ensures |p| == 4
  {
    var i := Offset(w, row, col);
    [px[i + 2], px[i + 1], px[i], if MaskAt(mask, w, row, col) then 255 else 0]
  }

  predicate RichHolds(px: seq<byte>, mask: seq<byte>, w: nat, h: nat) {
    |px| == Times(h, w) * 4 && |mask| == Times(h, MaskStride(w))
  }

  lemma RichBound(px: seq<byte>, mask: seq<byte>, w: nat, h: nat, row: nat, col: nat)
    requires RichHolds(px, mask, w, h) && row < h && col < w
    ensures Offset(w, row, col) + 4 <= |px|
    ensures Times(row, MaskStride(w)) + col / 8 < |mask|
  {
    OffsetBound(w, h, row, col);
    TimesMonotone(row + 1, h, MaskStride(w), MaskStride(w));
  }

  /** The first `cols` pixels of one row. */
  function RichRow(px: seq<byte>, mask: seq<byte>, w: nat, h: nat, row: nat, cols: nat): (s: seq<byte>)
    requires RichHolds(px, mask, w, h) && row < h && cols <= w
    ensures |s| == cols * 4
  {
    if cols == 0 then []
    else
      RichBound(px, mask, w, h, row, cols - 1);
      RichRow(px, mask, w, h, row, cols - 1) + RichPixel(px, mask, w, row, cols - 1)
  }

  function RichRows(px: seq<byte>, mask: seq<byte>, w: nat, h: nat, rows: nat): (s: seq<byte>)
    requires RichHolds(px, mask, w, h) && rows <= h
    ensures |s| == Times(rows, w) * 4
  {
    if rows == 0 then []
    else RichRows(px, mask, w, h, rows - 1) + RichRow(px, mask, w, h, rows - 1, w)
  }

  method DecodePixel(px: seq<byte>, mask: seq<byte>, w: nat, h: nat, row: nat, col: nat) returns (p: seq<byte>)
    requires RichHolds(px, mask, w, h) && row < h && col < w
    ensures Offset(w, row, col) + 4 <= |px| && Times(row, MaskStride(w)) + col / 8 < |mask|
    ensures p == RichPixel(px, mask, w, row, col)
  {
    RichBound(px, mask, w, h, row, col);
    TimesIsProduct(row, w);
    TimesIsProduct(row, MaskStride(w));
    var i := (row * w + col) * 4;
    var bit := MaskBit(mask[row * MaskStride(w) + col / 8], col % 8);
    p := [px[i + 2], px[i + 1], px[i], if bit then 255 else 0];
  }

  method DecodeRow(above: seq<byte>, px: seq<byte>, mask: seq<byte>, w: nat, h: nat, row: nat)
    returns (rgba: seq<byte>)
    requires RichHolds(px, mask, w, h) && row < h
    ensures rgba == above + RichRow(px, mask, w, h, row, w)
  {
    rgba := above;
    for col := 0 to w
      invariant rgba == above + RichRow(px, mask, w, h, row, col)
    {
      var p := DecodePixel(px, mask, w, h, row, col);
      Assoc(above, RichRow(px, mask, w, h, row, col), p);
      rgba := rgba + p;
    }
  }

  method DecodeRich(px: seq<byte>, mask: seq<byte>, w: nat, h: nat) returns (rgba: seq<byte>)
    requires RichHolds(px, mask, w, h)
    ensures rgba == RichRows(px, mask, w, h, h)
  {
    rgba := [];
    for row := 0 to h
      invariant rgba == RichRows(px, mask, w, h, row)
    {
      rgba := DecodeRow(rgba, px, mask, w, h, row);
    }
  }

  lemma {:induction false} RichRowAt(px: seq<byte>, mask: seq<byte>, w: nat, h: nat, row: nat, cols: nat,
                                     col: nat, k: nat)
    requires RichHolds(px, mask, w, h) && row < h && col < cols <= w && k < 4
    ensures Offset(w, row, col) + 4 <= |px| && Times(row, MaskStride(w)) + col / 8 < |mask|
    ensures RichRow(px, mask, w, h, row, cols)[col * 4 + k] == RichPixel(px, mask, w, row, col)[k]
    decreases cols
  {
    RichBound(px, mask, w, h, row, col);
    if col < cols - 1 { RichRowAt(px, mask, w, h, row, cols - 1, col, k); }
  }

  lemma {:induction false} RowInRows(px: seq<byte>, mask: seq<byte>, w: nat, h: nat, rows: nat, row: nat, j: nat)
    requires RichHolds(px, mask, w, h) && row < rows <= h && j < w * 4
    ensures Times(row, w) * 4 + j < Times(rows, w) * 4
    ensures RichRows(px, mask, w, h, rows)[Times(row, w) * 4 + j] == RichRow(px, mask, w, h, row, w)[j]
    decreases rows
  {
    var above := RichRows(px, mask, w, h, rows - 1);
    if row < rows - 1 {
      RowInRows(px, mask, w, h, rows - 1, row, j);
    } else {
      assert (above + RichRow(px, mask, w, h, row, w))[|above| + j] == RichRow(px, mask, w, h, row, w)[j];
    }
  }

  lemma RowInRowsAt(px: seq<byte>, mask: seq<byte>, w: nat, h: nat, row: nat, j: nat, i: nat)
    requires RichHolds(px, mask, w, h) && row < h && j < w * 4 && i == Times(row, w) * 4 + j
    ensures i < Times(h, w) * 4 && RichRows(px, mask, w, h, h)[i] == RichRow(px, mask, w, h, row, w)[j]
  {
    RowInRows(px, mask, w, h, h, row, j);
  }

  /** Byte `k` of the pixel at `row`, `col`. */
  lemma RichByte(px: seq<byte>, mask: seq<byte>, w: nat, h: nat, row: nat, col: nat, k: nat)
    requires RichHolds(px, mask, w, h) && row < h && col < w && k < 4
    ensures Offset(w, row, col) + 4 <= |px| && Times(row, MaskStride(w)) + col / 8 < |mask|
    ensures RichRows(px, mask, w, h, h)[Offset(w, row, col) + k] == RichPixel(px, mask, w, row, col)[k]
  {
    RichRowAt(px, mask, w, h, row, w, col, k);
    RowInRowsAt(px, mask, w, h, row, col * 4 + k, Offset(w, row, col) + k);
  }

  /** The pixel at `row`, `col` of a decoded cursor: red and blue of the pixel sent exchanged, and
      opaque exactly where its mask bit is set. */
  lemma RichAt(px: seq<byte>, mask: seq<byte>, w: nat, h: nat, row: nat, col: nat, i: nat)
    requires RichHolds(px, mask, w, h) && row < h && col < w && i == (row * w + col) * 4
    ensures i + 4 <= |px| == |RichRows(px, mask, w, h, h)| && Times(row, MaskStride(w)) + col / 8 < |mask|
    ensures var rgba := RichRows(px, mask, w, h, h);
            && rgba[i] == px[i + 2] && rgba[i + 1] == px[i + 1] && rgba[i + 2] == px[i]
            && rgba[i + 3] == if MaskAt(mask, w, row, col) then 255 else 0
  {
    TimesIsProduct(row, w);
    RichByte(px, mask, w, h, row, col, 0);
    RichByte(px, mask, w, h, row, col, 1);
    RichByte(px, mask, w, h, row, col, 2);
    RichByte(px, mask, w, h, row, col, 3);
  }

  /** The bits of a mask byte from the first, worth 128, to the last. */
  lemma MaskBits(b: byte, k: nat)
    requires k < 8
    ensures MaskBit(b, k) <==> b as int / [128, 64, 32, 16, 8, 4, 2, 1][k] % 2 == 1
    ensures MaskBit(b, 0) <==> 128 <= b
    ensures MaskBit(b, 7) <==> b % 2 == 1
  {
    assert Pow2(1) == 2 && Pow2(2) == 4;
    assert Pow2(3) == 2 * Pow2(2) && Pow2(4) == 2 * Pow2(3);
    assert Pow2(5) == 2 * Pow2(4) && Pow2(6) == 2 * Pow2(5);
    assert Pow2(7) == 2 * Pow2(6);
  }

  /** A mask row takes the least number of whole bytes, and a pixel's bit is found in its row. */
  lemma MaskPlace(mask: seq<byte>, w: nat, row: nat, col: nat)
    requires col < w && Times(row, MaskStride(w)) + col / 8 < |mask|
    ensures 8 * MaskStride(w) - 8 < w <= 8 * MaskStride(w) && col / 8 < MaskStride(w)
    ensures 0 <= row * MaskStride(w) + col / 8 < |mask|
    ensures MaskAt(mask, w, row, col) <==> MaskBit(mask[row * MaskStride(w) + col / 8], col % 8)
  {
    TimesIsProduct(row, MaskStride(w));
  }

  // The server's side of the mask: rows of bits, padded to whole bytes.

  function Bit(b: bool): nat { if b then 1 else 0 }

  /** The number whose binary digits, most significant first, are `b`. */
  function PackBits(b: seq<bool>): (v: nat)
    ensures v < Pow2(|b|)
  {
    if b == [] then 0 else 2 * PackBits(b[..|b| - 1]) + Bit(b[|b| - 1])
  }

  function PackByte(b: seq<bool>): (v: byte)
    requires |b| == 8
  {
    EightBits();
    PackBits(b)
  }

  function PackRow(bits: seq<bool>, n: nat): (s: seq<byte>)
    requires |bits| == n * 8
    ensures |s| == n
  {
    if n == 0 then [] else PackRow(bits[..(n - 1) * 8], n - 1) + [PackByte(bits[(n - 1) * 8..])]
  }

  function PackRows(bits: seq<seq<bool>>, stride: nat): (s: seq<byte>)
    requires forall row | row in bits :: |row| == stride * 8
    ensures |s| == Times(|bits|, stride)
  {
    if bits == [] then []
    else PackRows(bits[..|bits| - 1], stride) + PackRow(bits[|bits| - 1], stride)
  }

  /** A last digit does not change the quotients above it. */
  lemma HalveBoth(m: nat, bit: nat, p: nat)
    requires bit < 2 && 0 < p
    ensures (2 * m + bit) / (2 * p) == m / p
  {
    var q, r := m / p, m % p;
    assert m == p * q + r;
    assert 2 * m + bit == 2 * p * q + (2 * r + bit);
    Quotient(2 * m + bit, 2 * p, q, 2 * r + bit);
  }

  lemma Cancel(d: nat, a: int)
    requires d * a < d
    ensures a <= 0
  {
  }

  lemma Distribute(d: int, a: int, b: int)
    ensures d * (a - b) == d * a - d * b
  {
  }

  lemma Quotient(n: nat, d: nat, q: nat, r: nat)
    requires 0 < d && n == d * q + r && r < d
    ensures n / d == q
  {
    var z := n / d;
    assert n == d * z + n % d;
    Distribute(d, z, q);
    Distribute(d, q, z);
    Cancel(d, z - q);
    Cancel(d, q - z);
  }

  lemma DigitKept(v: nat, m: nat, bit: nat, p: nat, half: nat)
    requires bit < 2 && 0 < half && v == 2 * m + bit && p == 2 * half
    ensures v / p % 2 == m / half % 2
  {
    HalveBoth(m, bit, half);
  }

  lemma {:induction false} UnpackBits(b: seq<bool>, k: nat)
    requires k < |b|
    ensures PackBits(b) / Pow2(|b| - 1 - k) % 2 == Bit(b[k])
    decreases |b|
  {
    var most, last := b[..|b| - 1], Bit(b[|b| - 1]);
    if k < |b| - 1 {
      UnpackBits(most, k);
      DigitKept(PackBits(b), PackBits(most), last, Pow2(|b| - 1 - k), Pow2(|b| - 2 - k));
    }
  }

  lemma UnpackByte(b: seq<bool>, k: nat)
    requires |b| == 8 && k < 8
    ensures MaskBit(PackByte(b), k) == b[k]
  {
    UnpackBits(b, k);
  }

  lemma {:induction false} UnpackRow(bits: seq<bool>, n: nat, col: nat)
    requires |bits| == n * 8 && col < n * 8
    ensures MaskBit(PackRow(bits, n)[col / 8], col % 8) == bits[col]
    decreases n
  {
    if col < (n - 1) * 8 {
      UnpackRow(bits[..(n - 1) * 8], n - 1, col);
    } else {
      UnpackByte(bits[(n - 1) * 8..], col % 8);
    }
  }

  /** Whatever bits the server packed, padding included, the client reads back. */
  lemma {:induction false} UnpackMask(bits: seq<seq<bool>>, w: nat, row: nat, col: nat)
    requires forall r | r in bits :: |r| == MaskStride(w) * 8
    requires row < |bits| && col < w
    ensures Times(row, MaskStride(w)) + col / 8 < |PackRows(bits, MaskStride(w))|
    ensures |bits[row]| == MaskStride(w) * 8
    ensures MaskAt(PackRows(bits, MaskStride(w)), w, row, col) == bits[row][col]
    decreases |bits|
  {
    var stride, n := MaskStride(w), |bits|;
    assert bits[row] in bits;
    TimesMonotone(row + 1, n, stride, stride);
    if row < n - 1 {
      UnpackMask(bits[..n - 1], w, row, col);
    } else {
      UnpackRow(bits[row], stride, col);
    }
  }

  /** The alpha a recorder gets is the bit the server packed. */
  lemma RichAlpha(px: seq<byte>, bits: seq<seq<bool>>, w: nat, h: nat, row: nat, col: nat, i: nat)
    requires |bits| == h && forall r | r in bits :: |r| == MaskStride(w) * 8
    requires |px| == Times(h, w) * 4 && row < h && col < w && i == (row * w + col) * 4
    ensures i + 4 <= |RichRows(px, PackRows(bits, MaskStride(w)), w, h, h)| && |bits[row]| == MaskStride(w) * 8
    ensures RichRows(px, PackRows(bits, MaskStride(w)), w, h, h)[i + 3] == if bits[row][col] then 255 else 0
  {
    RichAt(px, PackRows(bits, MaskStride(w)), w, h, row, col, i);
    UnpackMask(bits, w, row, col);
  }

  // Rectangles as events.

  /** `None` for a pseudo-rectangle that carries nothing a recorder uses. */
  function EventOf(r: Rectangle): (e: Option<StreamEvent>)
    requires BodyOk(Streaming, r.head, r.body)
  {
    var Head(x, y, w, h) := r.head;
    match r.body
    case Raw(px) => Some(Rect(x, y, w, h, px))
    case Resize => Some(DesktopSize(w, h))
    case AlphaCursor(px) => Some(Cursor(x, y, w, h, Swapped(px)))
    case RichCursor(px, mask) => Some(Cursor(x, y, w, h, RichRows(px, mask, w, h, h)))
    case LedState(_) => None
    case Empty(_) => None
  }

  function EventsOf(rects: seq<Rectangle>): (events: seq<StreamEvent>)
    requires AllOk(Streaming, rects)
  {
    if rects == [] then []
    else
      EventsOf(rects[..|rects| - 1])
      + match EventOf(rects[|rects| - 1]) case None => [] case Some(e) => [e]
  }

  predicate Resized(rects: seq<Rectangle>) {
    exists r :: r in rects && r.body.Resize?
  }

  /** The screen size after an update: that of its last resize, else what it was. */
  function SizeAfter(rects: seq<Rectangle>, w: u16, h: u16): (size: (u16, u16)) {
    if rects == [] then (w, h)
    else if rects[|rects| - 1].body.Resize? then (rects[|rects| - 1].head.w, rects[|rects| - 1].head.h)
    else SizeAfter(rects[..|rects| - 1], w, h)
  }

  /** The next update in the stream, reading past other messages. */
  function NextUpdate(s: seq<byte>): (r: Option<Parsed<seq<Rectangle>>>)
    ensures r.Some? ==> |r.value.rest| < |s|
    decreases |s|
  {
    match Parse(Streaming, s)
    case None => None
    case Some(Parsed(m, rest)) => if m.Update? then Some(Parsed(m.rects, rest)) else NextUpdate(rest)
  }

  /** The next `n` updates. */
  function Updates(s: seq<byte>, n: nat): (r: Option<Parsed<seq<seq<Rectangle>>>>)
    decreases n
  {
    if n == 0 then Some(Parsed([], s))
    else
      match NextUpdate(s)
      case None => None
      case Some(Parsed(rects, rest)) =>
        match Updates(rest, n - 1)
        case None => None
        case Some(Parsed(more, end)) => Some(Parsed([rects] + more, end))
  }

  // What a server sent.

  predicate AllMessagesOk(ms: seq<Message>) {
    forall i | 0 <= i < |ms| :: MessageOk(Streaming, ms[i])
  }

  function EncodeAll(ms: seq<Message>): (s: seq<byte>)
    requires AllMessagesOk(ms)
  {
    if ms == [] then [] else Encode(ms[0]) + EncodeAll(ms[1..])
  }

  /** The rectangle lists of the updates among `ms`. */
  function UpdatesIn(ms: seq<Message>): (u: seq<seq<Rectangle>>) {
    if ms == [] then []
    else if ms[0].Update? then [ms[0].rects] + UpdatesIn(ms[1..])
    else UpdatesIn(ms[1..])
  }

  lemma NextUpdateOfMessage(m: Message, rest: seq<byte>)
    requires MessageOk(Streaming, m)
    ensures NextUpdate(Encode(m) + rest) == if m.Update? then Some(Parsed(m.rects, rest)) else NextUpdate(rest)
  {
    ParseOfEncoding(Streaming, m, rest);
  }

  lemma UpdatesPastMessage(m: Message, rest: seq<byte>, n: nat)
    requires MessageOk(Streaming, m) && !m.Update? && 0 < n
    ensures Updates(Encode(m) + rest, n) == Updates(rest, n)
  {
    NextUpdateOfMessage(m, rest);
  }

  /** For every sequence of well-formed messages that ends with an update, asking as often as
      there are updates yields each update's rectangles in order and stops right behind the
      last byte of the last one. */
  lemma {:induction false} UpdatesOfMessages(ms: seq<Message>, rest: seq<byte>)
    requires AllMessagesOk(ms) && (ms != [] ==> ms[|ms| - 1].Update?)
    ensures Updates(EncodeAll(ms) + rest, |UpdatesIn(ms)|) == Some(Parsed(UpdatesIn(ms), rest))
    decreases |ms|
  {
    if ms == [] {
      assert EncodeAll(ms) + rest == rest;
    } else {
      var tail := EncodeAll(ms[1..]) + rest;
      Assoc(Encode(ms[0]), EncodeAll(ms[1..]), rest);
      UpdatesOfMessages(ms[1..], rest);
      if ms[0].Update? {
        NextUpdateOfMessage(ms[0], tail);
      } else {
        SomeUpdate(ms[1..]);
        UpdatesPastMessage(ms[0], tail, |UpdatesIn(ms)|);
      }
    }
  }

  lemma {:induction false} SomeUpdate(ms: seq<Message>)
    requires ms != [] && ms[|ms| - 1].Update?
    ensures 0 < |UpdatesIn(ms)|
    decreases |ms|
  {
    if !ms[0].Update? { SomeUpdate(ms[1..]); }
  }
}
