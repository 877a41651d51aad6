/** vmlab-hv's native frame stream as vmlab consumes it: a surface of shared-memory buffers, and
    packets that say which buffer holds a frame and which rectangles of it changed. */
module NativeFrames {
  import opened Bytes
  import opened Screen

  const ARGB8888: u32 := 0x34325241

  datatype Kind = Shm | DmaBuf

  datatype Damage = Damage(x: u32, y: u32, width: u32, height: u32)

  datatype Message =
    | SurfaceConfigure(id: u64, width: u32, height: u32, fourcc: u32, stride: u32, kind: Kind)
    | FrameReady(surface: u64, buffer: u32, seqNo: u64, damage: seq<Damage>, placeholder: bool)
    | CursorShape(w: u32, h: u32, hotX: u32, hotY: u32, argb: seq<byte>)
    | CursorState(x: int, y: int, visible: bool)
    | OtherMessage

  /** A message, the number of buffers that came with it, and what the current surface's
      buffers hold while it is dealt with. */
  datatype Packet = Packet(message: Message, fds: nat, memory: seq<seq<byte>>)

  datatype Surface = Surface(id: u64, width: u32, height: u32, stride: u32, buffers: nat)

  /** What the reader does to the server: read part of a buffer, or give a frame back. */
  datatype Effect =
    | ReadAt(buffer: u32, offset: nat, length: nat)
    | Release(surface: u64, released: u32, seqNo: u64)

  /** `v`, or the largest 16-bit number if it is larger. */
  function Clamp16(v: nat): (c: u16)
    ensures c <= v && (v <= 0xffff ==> c == v) && (c < 0xffff ==> c == v)
  {
    if v < U16_SPAN then v else 0xffff
  }

  function Min(a: nat, b: nat): (m: nat) { if a < b then a else b }

  function Mul4(v: nat): (r: u32) { v * 4 % U32_SPAN }

  function Configure(m: Message, fds: nat): (r: Option<Surface>)
    ensures r.Some? ==> m.SurfaceConfigure? && 0 < r.value.buffers && Mul4(r.value.width) <= r.value.stride
  {
    if !m.SurfaceConfigure? || m.kind != Shm || (m.fourcc != XRGB8888 && m.fourcc != ARGB8888)
       || m.stride < Mul4(m.width) || fds == 0
    then None
    else Some(Surface(m.id, m.width, m.height, m.stride, fds))
  }

  /** `read_exact_at`: nothing, or all of it. */
  function ReadExactAt(file: seq<byte>, offset: nat, length: nat): (r: Option<seq<byte>>) {
    if length == 0 then Some([])
    else if offset + length <= |file| then Some(file[offset..offset + length])
    else None
  }

  /** `rows` rows of `row` bytes, a stride apart from `from` on, back to back. */
  function Region(file: seq<byte>, from: nat, row: nat, stride: nat, rows: nat): (r: Option<seq<byte>>)
    ensures r.Some? ==> |r.value| == Times(rows, row)
    decreases rows
  {
    if rows == 0 then Some([])
    else
      var above :- Region(file, from, row, stride, rows - 1);
      var next :- ReadExactAt(file, from + Times(rows - 1, stride), row);
      Some(above + next)
  }

  /** Where pixel (x, y) of a buffer is. */
  function PixelOffset(stride: nat, x: nat, y: nat): nat { Times(y, stride) + x * 4 }

  lemma JoinReads(file: seq<byte>, from: nat, a: nat, b: nat)
    ensures ReadExactAt(file, from, a + b) ==
            var first, second := ReadExactAt(file, from, a), ReadExactAt(file, from + a, b);
            if first.Some? && second.Some? then Some(first.value + second.value) else None
  {
    if 0 < a && 0 < b && from + a + b <= |file| {
      assert file[from..from + (a + b)] == file[from..from + a] + file[from + a..from + a + b];
    } else if 0 < a && b == 0 && from + a <= |file| {
      assert file[from..from + a] + [] == file[from..from + a];
    } else if a == 0 && 0 < b && from + b <= |file| {
      assert [] + file[from..from + b] == file[from..from + b];
    } else if a == 0 && b == 0 {
      var none: seq<byte> := [];
      assert none + none == none;
    }
  }

  /** Rows that follow each other directly can be read at once. */
  lemma {:induction false} TightRegion(file: seq<byte>, from: nat, row: nat, rows: nat)
    ensures Region(file, from, row, row, rows) == ReadExactAt(file, from, Times(rows, row))
    decreases rows
  {
    if rows != 0 {
      TightRegion(file, from, row, rows - 1);
      JoinReads(file, from, Times(rows - 1, row), row);
    }
  }

  lemma {:induction false} TimesSum(a: nat, b: nat, size: nat)
    ensures Times(a + b, size) == Times(a, size) + Times(b, size)
    decreases b
  {
    if b != 0 { TimesSum(a, b - 1, size); }
  }

  /** A region that cannot be read up to some row cannot be read at all. */
  lemma {:induction false} RegionFails(file: seq<byte>, from: nat, row: nat, stride: nat, r: nat, rows: nat)
    requires r <= rows && Region(file, from, row, stride, r).None?
    ensures Region(file, from, row, stride, rows).None?
    decreases rows
  {
    if r < rows { RegionFails(file, from, row, stride, r, rows - 1); }
  }

  /** Byte `j` of row `y` of a region is byte `j` of that row of the file. */
  lemma {:induction false} RegionAt(file: seq<byte>, from: nat, row: nat, stride: nat, rows: nat, y: nat, j: nat)
    requires y < rows && j < row && Region(file, from, row, stride, rows).Some?
    ensures Times(y, row) + j < Times(rows, row) && from + Times(y, stride) + j < |file|
    ensures Region(file, from, row, stride, rows).value[Times(y, row) + j] == file[from + Times(y, stride) + j]
    decreases rows
  {
    if y < rows - 1 { RegionAt(file, from, row, stride, rows - 1, y, j); }
  }

  method Fill(out: array<byte>, at: nat, bytes: seq<byte>)
    requires at + |bytes| <= out.Length
    modifies out
    ensures out[..at] == old(out[..at]) && out[at..at + |bytes|] == bytes
    ensures out[..at + |bytes|] == old(out[..at]) + bytes
  {
    for k := 0 to |bytes|
      invariant out[..at + k] == old(out[..at]) + bytes[..k]
    {
      out[at + k] := bytes[k];
    }
    assert bytes[..|bytes|] == bytes;
  }

  /** Read a region of a buffer: one read when its rows are contiguous, else a read a row. The
      two ways agree, in the bytes and in when they fail, also where the 32-bit row length wraps. */
  method Read(s: Surface, memory: seq<seq<byte>>, index: u32, x: u32, y: u32, w: u32, h: u32)
    returns (r: Option<seq<byte>>, ghost accesses: seq<Effect>)
    requires |memory| == s.buffers && y + h <= U32_SPAN
    ensures r == if index < s.buffers then Region(memory[index], PixelOffset(s.stride, x, y), Mul4(w), s.stride, h)
                 else None
    ensures forall e | e in accesses :: e.ReadAt? && e.buffer == index
  {
    accesses := [];
    if index >= s.buffers { return None, accesses; }
    var file, row := memory[index], Mul4(w);
    var out := new byte[Times(h, row)](_ => 0);
    if w == s.width && x == 0 && s.stride == Mul4(s.width) {
      r, accesses := ReadAll(file, index, y, row, h, out);
    } else {
      r, accesses := ReadRows(s.stride, file, index, x, y, row, h, out);
    }
  }

  method ReadAll(file: seq<byte>, index: u32, y: nat, row: nat, h: nat, out: array<byte>)
    returns (r: Option<seq<byte>>, ghost accesses: seq<Effect>)
    requires out.Length == Times(h, row)
    modifies out
    ensures r == Region(file, PixelOffset(row, 0, y), row, row, h)
    ensures forall e | e in accesses :: e.ReadAt? && e.buffer == index
  {
    var offset := y * row;
    TimesIsProduct(y, row);
    accesses := [ReadAt(index, offset, out.Length)];
    TightRegion(file, offset, row, h);
    var all := ReadExactAt(file, offset, out.Length);
    if all.None? { return None, accesses; }
    Fill(out, 0, all.value);
    assert out[..] == out[..out.Length];
    return Some(out[..]), accesses;
  }

  /** One row into its place. */
  method ReadRow(file: seq<byte>, offset: nat, row: nat, k: nat, out: array<byte>) returns (ok: bool)
    requires Times(k, row) + row <= out.Length
    modifies out
    ensures ok <==> ReadExactAt(file, offset, row).Some?
    ensures ok ==> out[..Times(k, row) + row] == old(out[..Times(k, row)]) + ReadExactAt(file, offset, row).value
  {
    var bytes := ReadExactAt(file, offset, row);
    ok := bytes.Some?;
    TimesIsProduct(k, row);
    if ok { Fill(out, k * row, bytes.value); }
  }

  lemma RowOffset(stride: nat, x: nat, y: nat, k: nat)
    ensures (y + k) * stride + x * 4 == PixelOffset(stride, x, y) + Times(k, stride)
  {
    TimesIsProduct(y + k, stride);
    TimesSum(y, k, stride);
  }

  method ReadRows(stride: u32, file: seq<byte>, index: u32, x: nat, y: nat, row: nat, h: nat, out: array<byte>)
    returns (r: Option<seq<byte>>, ghost accesses: seq<Effect>)
    requires out.Length == Times(h, row)
    modifies out
    ensures r == Region(file, PixelOffset(stride, x, y), row, stride, h)
    ensures forall e | e in accesses :: e.ReadAt? && e.buffer == index
  {
    accesses := [];
    ghost var from := PixelOffset(stride, x, y);
    for k := 0 to h
      invariant forall e | e in accesses :: e.ReadAt? && e.buffer == index
      invariant Times(k, row) <= out.Length
      invariant Region(file, from, row, stride, k) == Some(out[..Times(k, row)])
    {
      RowOffset(stride, x, y, k);
      TimesMonotone(k + 1, h, row, row);
      var offset := (y + k) * stride + x * 4;
      accesses := accesses + [ReadAt(index, offset, row)];
      var ok := ReadRow(file, offset, row, k, out);
      if !ok {
        RegionFails(file, from, row, stride, k + 1, h);
        return None, accesses;
      }
    }
    assert out[..] == out[..Times(h, row)];
    return Some(out[..]), accesses;
  }

  // Decoding one packet.

  /** A damage rectangle cut to the surface. */
  function Clip(s: Surface, d: Damage): (r: Damage)
    ensures r.x + r.width <= s.width && r.y + r.height <= s.height
  {
    var x, y := Min(d.x, s.width), Min(d.y, s.height);
    Damage(x, y, Min(d.width, s.width - x), Min(d.height, s.height - y))
  }

  /** The events of the first `n` damage rectangles of a frame in `file`; `None` if a read fails. */
  function DamageEvents(s: Surface, file: Option<seq<byte>>, damage: seq<Damage>, n: nat): (r: Option<seq<StreamEvent>>)
    requires n <= |damage|
    decreases n
  {
    if n == 0 then Some([])
    else
      var before := DamageEvents(s, file, damage, n - 1);
      var c := Clip(s, damage[n - 1]);
      if before.None? then None
      else if c.width == 0 || c.height == 0 then before
      else if file.None? then None
      else
        match Region(file.value, PixelOffset(s.stride, c.x, c.y), Mul4(c.width), s.stride, c.height)
        case None => None
        case Some(bgrx) =>
          Some(before.value + [Rect(Clamp16(c.x), Clamp16(c.y), Clamp16(c.width), Clamp16(c.height), bgrx)])
  }

  function BufferOf(s: Surface, p: Packet, index: u32): Option<seq<byte>> {
    if index < s.buffers && |p.memory| == s.buffers then Some(p.memory[index]) else None
  }

  /** A frame of the current surface that shows guest output. */
  predicate IsReal(s: Surface, m: Message) { m.FrameReady? && m.surface == s.id && !m.placeholder }

  /** What a packet decodes to: the events, or an error, and the surface afterwards. */
  function Decoded(s: Surface, p: Packet): (r: Option<(Surface, seq<StreamEvent>)>) {
    match p.message
    case SurfaceConfigure(_, _, _, _, _, _) =>
      var next := Configure(p.message, p.fds);
      if next.None? then None
      else Some((next.value, [DesktopSize(Clamp16(next.value.width), Clamp16(next.value.height))]))
    case FrameReady(_, buffer, _, damage, _) =>
      if IsReal(s, p.message) then
        var events := DamageEvents(s, BufferOf(s, p, buffer), damage, |damage|);
        if events.None? then None else Some((s, events.value))
      else Some((s, []))
    case CursorShape(w, h, hotX, hotY, argb) =>
      Some((s, [Cursor(Clamp16(hotX), Clamp16(hotY), Clamp16(w), Clamp16(h), Swapped(argb))]))
    case CursorState(x, y, visible) => Some((s, [Pointer(x, y, visible)]))
    case OtherMessage => Some((s, []))
  }

  class FrameReader {
    var surface: Surface
    ghost var trace: seq<Effect>

    constructor (first: Surface)
      ensures surface == first && trace == []
    {
      surface, trace := first, [];
    }

    /** The events of a frame's damage, clipped, in order. */
    method ReadDamage(p: Packet) returns (r: Option<seq<StreamEvent>>)
      requires p.message.FrameReady? && |p.memory| == surface.buffers
      modifies `trace
      ensures r == DamageEvents(surface, BufferOf(surface, p, p.message.buffer), p.message.damage, |p.message.damage|)
      ensures old(trace) <= trace
      ensures forall i | |old(trace)| <= i < |trace| :: trace[i].ReadAt? && trace[i].buffer == p.message.buffer
    {
      var damage, buffer := p.message.damage, p.message.buffer;
      ghost var file, before := BufferOf(surface, p, buffer), trace;
      var events: seq<StreamEvent> := [];
      for k := 0 to |damage|
        invariant before <= trace
        invariant forall i | |before| <= i < |trace| :: trace[i].ReadAt? && trace[i].buffer == buffer
        invariant DamageEvents(surface, file, damage, k) == Some(events)
      {
        var c := Clip(surface, damage[k]);
        if c.width == 0 || c.height == 0 { continue; }
        var bgrx, accesses := Read(surface, p.memory, buffer, c.x, c.y, c.width, c.height);
        trace := trace + accesses;
        if bgrx.None? {
          DamageFails(surface, file, damage, k + 1, |damage|);
          return None;
        }
        events := events + [Rect(Clamp16(c.x), Clamp16(c.y), Clamp16(c.width), Clamp16(c.height), bgrx.value)];
      }
      return Some(events);
    }

    /** One packet as events. A frame decoded without error is given back exactly once, after
        everything read for it; nothing is read for a placeholder or for a frame of a superseded
        surface. */
    method Decode(p: Packet) returns (r: Option<seq<StreamEvent>>)
      requires |p.memory| == surface.buffers
      modifies `surface, `trace
      ensures match Decoded(old(surface), p)
              case None => r == None
              case Some((s, events)) => r == Some(events) && surface == s
      ensures r.Some? && p.message.FrameReady? ==>
                && |old(trace)| < |trace| && old(trace) <= trace
                && trace[|trace| - 1] == Release(p.message.surface, p.message.buffer, p.message.seqNo)
                && (!IsReal(old(surface), p.message) ==> |trace| == |old(trace)| + 1)
                && forall i | |old(trace)| <= i < |trace| - 1 :: trace[i].ReadAt? && trace[i].buffer == p.message.buffer
      ensures r.Some? && !p.message.FrameReady? ==> trace == old(trace)
      ensures r.None? ==> old(trace) <= trace && forall i | |old(trace)| <= i < |trace| :: trace[i].ReadAt?
    {
      match p.message
      case SurfaceConfigure(_, _, _, _, _, _) =>
        var next := Configure(p.message, p.fds);
        if next.None? { return None; }
        surface := next.value;
        return Some([DesktopSize(Clamp16(surface.width), Clamp16(surface.height))]);
      case FrameReady(id, buffer, seqNo, _, _) =>
        var events: seq<StreamEvent> := [];
        if IsReal(surface, p.message) {
          events :- ReadDamage(p);
        }
        trace := trace + [Release(id, buffer, seqNo)];
        return Some(events);
      case CursorShape(w, h, hotX, hotY, argb) =>
        return Some([Cursor(Clamp16(hotX), Clamp16(hotY), Clamp16(w), Clamp16(h), Swapped(argb))]);
      case CursorState(x, y, visible) => return Some([Pointer(x, y, visible)]);
      case OtherMessage => return Some([]);
    }
  }

  lemma {:induction false} DamageFails(s: Surface, file: Option<seq<byte>>, damage: seq<Damage>, k: nat, n: nat)
    requires k <= n <= |damage| && DamageEvents(s, file, damage, k).None?
    ensures DamageEvents(s, file, damage, n).None?
    decreases n
  {
    if k < n { DamageFails(s, file, damage, k, n - 1); }
  }

  // Whole runs: replaying the events mirrors the server's surface.

  /** The buffer holds every row of the surface. */
  predicate Holds(s: Surface, file: seq<byte>) {
    0 < s.height ==> Times(s.height - 1, s.stride) + s.width * 4 <= |file|
  }

  lemma PixelInside(s: Surface, file: seq<byte>, x: nat, y: nat)
    requires Holds(s, file) && x < s.width && y < s.height
    ensures PixelOffset(s.stride, x, y) + 4 <= |file|
  {
    TimesMonotone(y, s.height - 1, s.stride, s.stride);
  }

  function FramePixel(s: Surface, file: seq<byte>, x: nat, y: nat): (p: Pixel)
    requires Holds(s, file) && x < s.width && y < s.height
  {
    PixelInside(s, file, x, y);
    PixelOf(file, PixelOffset(s.stride, x, y))
  }

  predicate InDamage(d: Damage, x: nat, y: nat) {
    d.x <= x < d.x + d.width && d.y <= y < d.y + d.height
  }

  /** A clipped rectangle covers the same pixels of the surface. */
  lemma ClipCovers(s: Surface, d: Damage, x: nat, y: nat)
    requires x < s.width && y < s.height
    ensures InDamage(Clip(s, d), x, y) <==> InDamage(d, x, y)
  {
  }

  predicate AnyDamage(damage: seq<Damage>, n: nat, x: nat, y: nat)
    requires n <= |damage|
  {
    exists i :: 0 <= i < n && InDamage(damage[i], x, y)
  }

  /** The events can say how large the surface is. */
  predicate Screenful(s: Surface) { s.width < U16_SPAN && s.height < U16_SPAN }

  lemma RegionShape(file: seq<byte>, from: nat, w: nat, stride: nat, h: nat, bgrx: seq<byte>)
    requires Region(file, from, w * 4, stride, h) == Some(bgrx)
    ensures |bgrx| == Times(h, w) * 4
  {
    TimesFour(h, w);
  }

  /** Where a pixel is in a rectangle's bytes, and in the buffer they come from. */
  lemma Places(w: nat, stride: nat, cx: nat, cy: nat, dx: nat, dy: nat)
    ensures Offset(w, dy, dx) == Times(dy, w * 4) + dx * 4
    ensures PixelOffset(stride, cx + dx, cy + dy) == PixelOffset(stride, cx, cy) + Times(dy, stride) + dx * 4
  {
    TimesFour(dy, w);
    TimesSum(cy, dy, stride);
  }

  lemma PixelByte(file: seq<byte>, bgrx: seq<byte>, from: nat, w: nat, stride: nat, h: nat, dx: nat, dy: nat,
                  i: nat, at: nat, k: nat)
    requires Region(file, from, w * 4, stride, h) == Some(bgrx) && dx < w && dy < h && k < 4
    requires i == Times(dy, w * 4) + dx * 4 && at == from + Times(dy, stride) + dx * 4
    ensures i + k < |bgrx| && at + k < |file| && bgrx[i + k] == file[at + k]
  {
    RegionAt(file, from, w * 4, stride, h, dy, dx * 4 + k);
  }

  lemma SamePixel(file: seq<byte>, bgrx: seq<byte>, from: nat, w: nat, stride: nat, h: nat, dx: nat, dy: nat,
                  i: nat, at: nat)
    requires Region(file, from, w * 4, stride, h) == Some(bgrx) && dx < w && dy < h
    requires i == Times(dy, w * 4) + dx * 4 && at == from + Times(dy, stride) + dx * 4
    ensures i + 4 <= |bgrx| && at + 4 <= |file| && PixelOf(bgrx, i) == PixelOf(file, at)
  {
    PixelByte(file, bgrx, from, w, stride, h, dx, dy, i, at, 0);
    PixelByte(file, bgrx, from, w, stride, h, dx, dy, i, at, 1);
    PixelByte(file, bgrx, from, w, stride, h, dx, dy, i, at, 2);
    PixelByte(file, bgrx, from, w, stride, h, dx, dy, i, at, 3);
  }

  /** The bytes of a region, pixel by pixel, are those of the frame. */
  lemma RegionPixel(s: Surface, file: seq<byte>, c: Damage, bgrx: seq<byte>, x: nat, y: nat)
    requires Screenful(s) && Holds(s, file) && c.x + c.width <= s.width && c.y + c.height <= s.height
    requires Region(file, PixelOffset(s.stride, c.x, c.y), c.width * 4, s.stride, c.height) == Some(bgrx)
    requires InDamage(c, x, y)
    ensures var e := Rect(c.x, c.y, c.width, c.height, bgrx);
            WellFormed(e) && PixelIn(e, x, y) == FramePixel(s, file, x, y)
  {
    RegionShape(file, PixelOffset(s.stride, c.x, c.y), c.width, s.stride, c.height, bgrx);
    var dx, dy := x - c.x, y - c.y;
    Places(c.width, s.stride, c.x, c.y, dx, dy);
    SamePixel(file, bgrx, PixelOffset(s.stride, c.x, c.y), c.width, s.stride, c.height, dx, dy,
              Offset(c.width, dy, dx), PixelOffset(s.stride, x, y));
  }

  lemma RectShows(s: Surface, file: seq<byte>, c: Damage, bgrx: seq<byte>, before: seq<StreamEvent>, x: nat, y: nat)
    requires Screenful(s) && Holds(s, file) && c.x + c.width <= s.width && c.y + c.height <= s.height
    requires x < s.width && y < s.height && AllWellFormed(before)
    requires Region(file, PixelOffset(s.stride, c.x, c.y), c.width * 4, s.stride, c.height) == Some(bgrx)
    ensures var e := Rect(c.x, c.y, c.width, c.height, bgrx);
            && AllWellFormed(before + [e])
            && PixelAt(before + [e], x, y)
               == if InDamage(c, x, y) then Some(FramePixel(s, file, x, y)) else PixelAt(before, x, y)
  {
    RegionShape(file, PixelOffset(s.stride, c.x, c.y), c.width, s.stride, c.height, bgrx);
    PixelAtThen(before, Rect(c.x, c.y, c.width, c.height, bgrx), x, y);
    if InDamage(c, x, y) { RegionPixel(s, file, c, bgrx, x, y); }
  }

  /** Replaying a frame's damage leaves the frame's pixels where there was damage, and the
      screen as it was elsewhere. */
  lemma {:induction false} DamageShows(s: Surface, file: seq<byte>, damage: seq<Damage>, n: nat,
                                       events: seq<StreamEvent>, x: nat, y: nat)
    requires Screenful(s) && Holds(s, file) && x < s.width && y < s.height && n <= |damage|
    requires AllWellFormed(events) && DamageEvents(s, Some(file), damage, n).Some?
    ensures var all := events + DamageEvents(s, Some(file), damage, n).value;
            && AllWellFormed(all)
            && PixelAt(all, x, y) == if AnyDamage(damage, n, x, y) then Some(FramePixel(s, file, x, y))
                                     else PixelAt(events, x, y)
    decreases n
  {
    if n == 0 {
      assert events + [] == events;
    } else {
      DamageShows(s, file, damage, n - 1, events, x, y);
      var c := Clip(s, damage[n - 1]);
      ClipCovers(s, damage[n - 1], x, y);
      var before := events + DamageEvents(s, Some(file), damage, n - 1).value;
      AnyDamageStep(damage, n, x, y);
      if c.width != 0 && c.height != 0 {
        assert Mul4(c.width) == c.width * 4;
        var bgrx := Region(file, PixelOffset(s.stride, c.x, c.y), c.width * 4, s.stride, c.height).value;
        var e := Rect(c.x, c.y, c.width, c.height, bgrx);
        RectShows(s, file, c, bgrx, before, x, y);
        assert events + DamageEvents(s, Some(file), damage, n).value == before + [e];
      }
    }
  }

  lemma AnyDamageStep(damage: seq<Damage>, n: nat, x: nat, y: nat)
    requires 0 < n <= |damage|
    ensures AnyDamage(damage, n, x, y) <==> AnyDamage(damage, n - 1, x, y) || InDamage(damage[n - 1], x, y)
  {
  }

  /** The surface, all events so far, and the latest real frame of the surface, if any. */
  datatype View = View(surface: Surface, events: seq<StreamEvent>, last: Option<seq<byte>>)

  function Next(v: View, p: Packet): (r: Option<View>) {
    match Decoded(v.surface, p)
    case None => None
    case Some((s, events)) =>
      Some(View(s, v.events + events,
                if p.message.SurfaceConfigure? then None
                else if IsReal(v.surface, p.message) then BufferOf(v.surface, p, p.message.buffer)
                else v.last))
  }

  /** What the server promises: screens of 16-bit dimensions, and real frames that hold the whole
      surface and whose damage covers all that differs from the frame before, hence everything in
      the first frame after a configure. */
  ghost predicate Promised(v: View, p: Packet) {
    && (p.message.SurfaceConfigure? ==> p.message.width < U16_SPAN && p.message.height < U16_SPAN)
    && (IsReal(v.surface, p.message) ==>
          var file := BufferOf(v.surface, p, p.message.buffer);
          && file.Some? && Holds(v.surface, file.value)
          && (v.last.Some? ==> Holds(v.surface, v.last.value))
          && forall x: nat, y: nat | x < v.surface.width && y < v.surface.height ::
               || AnyDamage(p.message.damage, |p.message.damage|, x, y)
               || (&& v.last.Some?
                   && FramePixel(v.surface, v.last.value, x, y) == FramePixel(v.surface, file.value, x, y)))
  }

  /** Replaying the events shows a screen of the surface's size with the latest real frame on it, and
      nothing before the first. */
  ghost predicate Mirrors(v: View) {
    && Screenful(v.surface) && AllWellFormed(v.events)
    && LastSize(v.events) == Some((v.surface.width, v.surface.height))
    && (v.last.None? ==> forall x: nat, y: nat :: PixelAt(v.events, x, y) == None)
    && (v.last.Some? ==>
          && Holds(v.surface, v.last.value)
          && forall x: nat, y: nat | x < v.surface.width && y < v.surface.height ::
               PixelAt(v.events, x, y) == Some(FramePixel(v.surface, v.last.value, x, y)))
  }

  lemma FrameMirrors(v: View, p: Packet)
    requires Mirrors(v) && Promised(v, p) && IsReal(v.surface, p.message) && Next(v, p).Some?
    ensures Mirrors(Next(v, p).value)
  {
    var s, damage := v.surface, p.message.damage;
    var file := BufferOf(s, p, p.message.buffer).value;
    var t := Next(v, p).value;
    forall x: nat, y: nat | x < s.width && y < s.height
      ensures AllWellFormed(t.events) && PixelAt(t.events, x, y) == Some(FramePixel(s, file, x, y))
    {
      DamageShows(s, file, damage, |damage|, v.events, x, y);
    }
    DamageWellFormed(s, Some(file), damage, |damage|);
    DamageKeepsSize(s, Some(file), damage, |damage|, v.events);
  }

  lemma {:induction false} DamageKeepsSize(s: Surface, file: Option<seq<byte>>, damage: seq<Damage>, n: nat,
                                           before: seq<StreamEvent>)
    requires n <= |damage| && DamageEvents(s, file, damage, n).Some?
    ensures LastSize(before + DamageEvents(s, file, damage, n).value) == LastSize(before)
    decreases n
  {
    if n == 0 {
      assert before + [] == before;
    } else {
      DamageKeepsSize(s, file, damage, n - 1, before);
      var most, all := DamageEvents(s, file, damage, n - 1).value, DamageEvents(s, file, damage, n).value;
      if all != most {
        var e := all[|all| - 1];
        assert all == most + [e];
        assert before + all == before + most + [e];
        LastSizeThen(before + most, e);
      }
    }
  }

  lemma {:induction false} DamageWellFormed(s: Surface, file: Option<seq<byte>>, damage: seq<Damage>, n: nat)
    requires Screenful(s) && n <= |damage| && DamageEvents(s, file, damage, n).Some?
    ensures AllWellFormed(DamageEvents(s, file, damage, n).value)
    decreases n
  {
    if n != 0 {
      DamageWellFormed(s, file, damage, n - 1);
      var c := Clip(s, damage[n - 1]);
      if c.width != 0 && c.height != 0 {
        var from := PixelOffset(s.stride, c.x, c.y);
        assert Mul4(c.width) == c.width * 4;
        RegionShape(file.value, from, c.width, s.stride, c.height,
                    Region(file.value, from, c.width * 4, s.stride, c.height).value);
      }
    }
  }

  lemma OtherMirrors(v: View, p: Packet)
    requires Mirrors(v) && Promised(v, p) && !IsReal(v.surface, p.message) && Next(v, p).Some?
    ensures Mirrors(Next(v, p).value)
  {
    var t := Next(v, p).value;
    var (s, events) := Decoded(v.surface, p).value;
    if events == [] {
      assert v.events + [] == v.events;
    } else {
      var e := events[0];
      assert t.events == v.events + [e];
      LastSizeThen(v.events, e);
      forall x: nat, y: nat
        ensures AllWellFormed(v.events + [e])
        ensures PixelAt(v.events + [e], x, y) == if e.DesktopSize? then None else PixelAt(v.events, x, y)
      {
        PixelAtThen(v.events, e, x, y);
      }
      PixelAtThen(v.events, e, 0, 0);
    }
  }

  /** The promise about damage is exactly what the mirror needs: after a frame that holds the
      surface, the canvas equals it if and only if every pixel was damaged or had not changed. */
  lemma MirrorsIffPromised(v: View, p: Packet)
    requires Mirrors(v) && IsReal(v.surface, p.message) && Next(v, p).Some?
    requires BufferOf(v.surface, p, p.message.buffer).Some?
    requires Holds(v.surface, BufferOf(v.surface, p, p.message.buffer).value)
    ensures Mirrors(Next(v, p).value) <==> Promised(v, p)
  {
    var s, damage := v.surface, p.message.damage;
    var file := BufferOf(s, p, p.message.buffer).value;
    if Promised(v, p) {
      FrameMirrors(v, p);
    } else {
      var x: nat, y: nat :| x < s.width && y < s.height && !AnyDamage(damage, |damage|, x, y)
        && !(v.last.Some? && FramePixel(s, v.last.value, x, y) == FramePixel(s, file, x, y));
      DamageShows(s, file, damage, |damage|, v.events, x, y);
    }
  }

  /** A run the server keeps its promises in and no packet of which fails to decode. */
  ghost predicate Serves(v: View, packets: seq<Packet>)
    decreases |packets|
  {
    packets == []
    || (Promised(v, packets[0]) && Next(v, packets[0]).Some? && Serves(Next(v, packets[0]).value, packets[1..]))
  }

  function Run(v: View, packets: seq<Packet>): (t: View)
    requires Serves(v, packets)
    decreases |packets|
  {
    if packets == [] then v else Run(Next(v, packets[0]).value, packets[1..])
  }

  /** Over every run of configures, frames, placeholders, frames of superseded surfaces and cursor
      packets, replaying the events keeps a canvas equal to the latest real frame. */
  lemma {:induction false} RunMirrors(v: View, packets: seq<Packet>)
    requires Mirrors(v) && Serves(v, packets)
    ensures Mirrors(Run(v, packets))
    decreases |packets|
  {
    if packets != [] {
      if IsReal(v.surface, packets[0].message) { FrameMirrors(v, packets[0]); } else { OtherMirrors(v, packets[0]); }
      RunMirrors(Next(v, packets[0]).value, packets[1..]);
    }
  }

  /** The batches sent on: one per packet, up to the first that fails. */
  function Batches(s: Surface, packets: seq<Packet>): (b: seq<seq<StreamEvent>>)
    decreases |packets|
  {
    if packets == [] then []
    else
      match Decoded(s, packets[0])
      case None => []
      case Some((next, events)) => [events] + Batches(next, packets[1..])
  }

  /** The events of a run are those of the batches sent on, one batch per packet. */
  lemma {:induction false} RunSends(v: View, packets: seq<Packet>)
    requires Serves(v, packets)
    ensures |Batches(v.surface, packets)| == |packets|
    ensures Run(v, packets).events == v.events + Flatten(Batches(v.surface, packets))
    decreases |packets|
  {
    if packets == [] {
      assert v.events + [] == v.events;
    } else {
      var next := Next(v, packets[0]).value;
      RunSends(next, packets[1..]);
      var events, others := Decoded(v.surface, packets[0]).value.1, Batches(next.surface, packets[1..]);
      assert ([events] + others)[1..] == others;
      Assoc(v.events, events, Flatten(others));
    }
  }

  /** What a caller of `connect` knows: the first surface's size. */
  function Connected(first: Surface): (v: View) {
    View(first, [DesktopSize(Clamp16(first.width), Clamp16(first.height))], None)
  }

  /** From the size `connect` tells, what the reader thread sends mirrors the server. */
  lemma StreamMirrors(first: Surface, packets: seq<Packet>)
    requires Screenful(first) && Serves(Connected(first), packets)
    ensures var v := Run(Connected(first), packets);
            && Mirrors(v) && |Batches(first, packets)| == |packets|
            && v.events == [DesktopSize(first.width, first.height)] + Flatten(Batches(first, packets))
  {
    RunMirrors(Connected(first), packets);
    RunSends(Connected(first), packets);
  }

  /** The first configure among the packets, if any. */
  function FirstConfigure(packets: seq<Packet>): (k: nat)
    ensures k <= |packets| && (k < |packets| ==> packets[k].message.SurfaceConfigure?)
    ensures forall i | 0 <= i < k :: !packets[i].message.SurfaceConfigure?
  {
    if packets == [] || packets[0].message.SurfaceConfigure? then 0 else 1 + FirstConfigure(packets[1..])
  }

  /** Wait for the first configure: the surface and size it announces, or an error if it is
      malformed or the connection ends before one. */
  method Connect(packets: seq<Packet>) returns (r: Option<(Surface, u16, u16)>, used: nat)
    ensures var k := FirstConfigure(packets);
            && (r.Some? <==> k < |packets| && Configure(packets[k].message, packets[k].fds).Some?)
            && (r.Some? ==> used == k + 1 && Configure(packets[k].message, packets[k].fds) == Some(r.value.0)
                            && [DesktopSize(r.value.1, r.value.2)] == Connected(r.value.0).events)
  {
    used := 0;
    while used < |packets|
      invariant used <= FirstConfigure(packets) && used <= |packets|
    {
      var p := packets[used];
      used := used + 1;
      if p.message.SurfaceConfigure? {
        var surface := Configure(p.message, p.fds);
        if surface.None? { return None, used; }
        return Some((surface.value, Clamp16(surface.value.width), Clamp16(surface.value.height))), used;
      }
    }
    return None, used;
  }

  /** What each kind of packet but a frame decodes to, while its numbers have 16 bits. */
  lemma DecodedExactly(s: Surface, p: Packet)
    requires match p.message
             case SurfaceConfigure(_, w, h, _, _, _) => w < U16_SPAN && h < U16_SPAN
             case CursorShape(w, h, x, y, _) => w < U16_SPAN && h < U16_SPAN && x < U16_SPAN && y < U16_SPAN
             case _ => true
    ensures match p.message
            case SurfaceConfigure(id, w, h, fourcc, stride, kind) =>
              (if kind == Shm && fourcc in {0x34325258, 0x34325241} && w * 4 <= stride && 0 < p.fds
               then Decoded(s, p) == Some((Surface(id, w, h, stride, p.fds), [DesktopSize(w, h)]))
               else Decoded(s, p) == None)
            case CursorShape(w, h, x, y, argb) =>
              exists rgba :: Decoded(s, p) == Some((s, [Cursor(x, y, w, h, rgba)])) && SwappedPixels(argb, rgba)
            case CursorState(x, y, visible) => Decoded(s, p) == Some((s, [Pointer(x, y, visible)]))
            case OtherMessage => Decoded(s, p) == Some((s, []))
            case FrameReady(id, _, _, _, placeholder) => placeholder || id != s.id ==> Decoded(s, p) == Some((s, []))
  {
    match p.message
    case SurfaceConfigure(_, w, _, _, _, _) => assert Mul4(w) == w * 4;
    case CursorShape(w, h, x, y, argb) =>
      SwappedIs(argb);
      assert Decoded(s, p) == Some((s, [Cursor(x, y, w, h, Swapped(argb))]));
    case _ =>
  }

  lemma {:induction false} RegionReads(file: seq<byte>, from: nat, row: nat, stride: nat, rows: nat)
    requires 0 < rows ==> from + Times(rows - 1, stride) + row <= |file|
    ensures Region(file, from, row, stride, rows).Some?
    decreases rows
  {
    if rows != 0 { RegionReads(file, from, row, stride, rows - 1); }
  }

  lemma ClippedReads(s: Surface, file: seq<byte>, c: Damage)
    requires Holds(s, file) && c.x + c.width <= s.width && c.y + c.height <= s.height && 0 < c.height
    ensures Region(file, PixelOffset(s.stride, c.x, c.y), c.width * 4, s.stride, c.height).Some?
  {
    TimesSum(c.y, c.height - 1, s.stride);
    TimesMonotone(c.y + (c.height - 1), s.height - 1, s.stride, s.stride);
    RegionReads(file, PixelOffset(s.stride, c.x, c.y), c.width * 4, s.stride, c.height);
  }

  lemma {:induction false} DamageReads(s: Surface, file: seq<byte>, damage: seq<Damage>, n: nat)
    requires Screenful(s) && Holds(s, file) && n <= |damage|
    ensures DamageEvents(s, Some(file), damage, n).Some?
    decreases n
  {
    if n != 0 {
      DamageReads(s, file, damage, n - 1);
      var c := Clip(s, damage[n - 1]);
      assert Mul4(c.width) == c.width * 4;
      if c.height != 0 { ClippedReads(s, file, c); }
    }
  }

  /** A frame of the surface that is no placeholder always decodes if its buffer holds the surface,
      and replaying it shows the buffer's pixel, found at `at`, wherever one of its rectangles is. */
  lemma FrameShows(s: Surface, p: Packet, before: seq<StreamEvent>, i: nat, x: nat, y: nat, at: nat)
    requires p.message.FrameReady? && !p.message.placeholder && p.message.surface == s.id && Screenful(s)
    requires p.message.buffer < s.buffers == |p.memory| && Holds(s, p.memory[p.message.buffer])
    requires AllWellFormed(before) && x < s.width && y < s.height && at == y * s.stride + x * 4
    requires i < |p.message.damage|
    requires var d := p.message.damage[i]; d.x <= x < d.x + d.width && d.y <= y < d.y + d.height
    ensures Decoded(s, p).Some? && at + 4 <= |p.memory[p.message.buffer]|
    ensures var all := before + Decoded(s, p).value.1;
            AllWellFormed(all) && PixelAt(all, x, y) == Some(PixelOf(p.memory[p.message.buffer], at))
  {
    var file, damage := p.memory[p.message.buffer], p.message.damage;
    TimesIsProduct(y, s.stride);
    PixelInside(s, file, x, y);
    DamageReads(s, file, damage, |damage|);
    assert InDamage(damage[i], x, y);
    DamageShows(s, file, damage, |damage|, before, x, y);
  }

  // Releases over whole runs.

  function Releases(trace: seq<Effect>): (r: seq<Effect>) {
    if trace == [] then []
    else Releases(trace[..|trace| - 1]) + if trace[|trace| - 1].Release? then [trace[|trace| - 1]] else []
  }

  /** A frame, of whatever kind, is to be given back once. */
  function Due(p: Packet): (r: seq<Effect>) {
    if p.message.FrameReady? then [Release(p.message.surface, p.message.buffer, p.message.seqNo)] else []
  }

  function Owed(packets: seq<Packet>): (r: seq<Effect>) {
    if packets == [] then [] else Owed(packets[..|packets| - 1]) + Due(packets[|packets| - 1])
  }

  lemma {:induction false} ReleasesAfterReads(before: seq<Effect>, after: seq<Effect>)
    requires before <= after && forall i | |before| <= i < |after| :: after[i].ReadAt?
    ensures Releases(after) == Releases(before)
    decreases |after|
  {
    if |before| == |after| {
      assert before == after;
    } else {
      ReleasesAfterReads(before, after[..|after| - 1]);
    }
  }

  /** Whether every packet comes with the memory of the surface current when it is decoded. */
  predicate Fitting(s: Surface, packets: seq<Packet>)
    decreases |packets|
  {
    packets == []
    || (&& |packets[0].memory| == s.buffers
        && (Decoded(s, packets[0]).Some? ==> Fitting(Decoded(s, packets[0]).value.0, packets[1..])))
  }

  /** One packet decoded, and what it owes given back. */
  method ReadFrame(reader: FrameReader, p: Packet) returns (batch: Option<seq<StreamEvent>>)
    requires |p.memory| == reader.surface.buffers
    modifies reader
    ensures match Decoded(old(reader.surface), p)
            case None => batch == None && Releases(reader.trace) == Releases(old(reader.trace))
            case Some((s, events)) =>
              && batch == Some(events) && reader.surface == s
              && Releases(reader.trace) == Releases(old(reader.trace)) + Due(p)
  {
    ghost var before := reader.trace;
    batch := reader.Decode(p);
    if batch.None? { ReleasesAfterReads(before, reader.trace); } else { ReleasedOnce(before, reader.trace, p); }
  }

  method ReadFrames(reader: FrameReader, packets: seq<Packet>) returns (batches: seq<seq<StreamEvent>>)
    requires Fitting(reader.surface, packets)
    modifies reader
    ensures batches == Batches(old(reader.surface), packets) && |batches| <= |packets|
    ensures Releases(reader.trace) == Releases(old(reader.trace)) + Owed(packets[..|batches|])
  {
    batches := [];
    ghost var whole, given := Batches(reader.surface, packets), Releases(reader.trace);
    assert packets[0..] == packets && packets[..0] == [];
    for k := 0 to |packets|
      invariant |batches| == k && Fitting(reader.surface, packets[k..])
      invariant whole == batches + Batches(reader.surface, packets[k..])
      invariant Releases(reader.trace) == given + Owed(packets[..k])
    {
      BatchesStep(reader.surface, packets, k, batches);
      OwedStep(packets, k);
      Assoc(given, Owed(packets[..k]), Due(packets[k]));
      var batch := ReadFrame(reader, packets[k]);
      if batch.None? { return; }
      batches := batches + [batch.value];
    }
  }

  lemma OwedStep(packets: seq<Packet>, k: nat)
    requires k < |packets|
    ensures Owed(packets[..k + 1]) == Owed(packets[..k]) + Due(packets[k])
  {
    assert packets[..k + 1][..k] == packets[..k];
  }

  lemma BatchesStep(s: Surface, packets: seq<Packet>, k: nat, done: seq<seq<StreamEvent>>)
    requires k < |packets|
    ensures done + Batches(s, packets[k..]) ==
            match Decoded(s, packets[k])
            case None => done
            case Some((next, events)) => done + [events] + Batches(next, packets[k + 1..])
    ensures Fitting(s, packets[k..]) ==> |packets[k].memory| == s.buffers
    ensures Fitting(s, packets[k..]) && Decoded(s, packets[k]).Some? ==>
              Fitting(Decoded(s, packets[k]).value.0, packets[k + 1..])
  {
    assert packets[k..][1..] == packets[k + 1..];
    if Decoded(s, packets[k]).Some? {
      var (next, events) := Decoded(s, packets[k]).value;
      assert done + ([events] + Batches(next, packets[k + 1..])) == done + [events] + Batches(next, packets[k + 1..]);
    }
  }

  lemma ReleasedOnce(before: seq<Effect>, after: seq<Effect>, p: Packet)
    requires if p.message.FrameReady? then
               && |before| < |after| && before <= after
               && after[|after| - 1] == Release(p.message.surface, p.message.buffer, p.message.seqNo)
               && forall i | |before| <= i < |after| - 1 :: after[i].ReadAt?
             else after == before
    ensures Releases(after) == Releases(before) + Due(p)
  {
    if p.message.FrameReady? { ReleasesAfterReads(before, after[..|after| - 1]); }
  }
}
