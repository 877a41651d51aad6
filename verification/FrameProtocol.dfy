/** The frame half of the VMLABDSP protocol as interleaved atomic steps.

    The guest publishes a frame by copying its pixels into the next of three buffers,
    writing the header words in a fixed order, and bumping the sequence word last. The
    host reads the sequence word, copies the header, copies the pixels the header names,
    and reads the sequence word again. Aligned words are read and written whole, steps
    are sequentially consistent, and bytes and header words may be copied in any order. */
module FrameProtocol {
  import opened Bytes
  import opened DisplayLayout

  datatype Frame = Frame(width: nat, height: nat, pitch: nat, format: u32, pixels: seq<byte>)

  /** Indices of the header words, counted from offset 0x110. */
  const SEQ := 0
  const INDEX := 1
  const WIDTH := 2
  const HEIGHT := 3
  const PITCH := 4
  const FORMAT := 5
  const WORDS := 10

  datatype Publisher =
    | Idle
    | Copying(frame: Frame, next: nat, done: set<nat>)
    | Heading(frame: Frame, next: nat, written: nat)

  /** `live` is whether the state word read says that the driver is up. `since` is the number of
      publications complete when the attempt's first sequence read happened, `until` the number
      complete when the snapshot was accepted. */
  datatype Reader =
    | Start(attempt: nat)
    | Header(attempt: nat, before: u32, seen: map<nat, u32>, since: nat)
    | Pixels(attempt: nat, before: u32, live: bool, seen: map<nat, u32>, size: nat, got: map<nat, byte>, since: nat)
    | Accepted(live: bool, seen: map<nat, u32>, bytes: seq<byte>, since: nat, until: nat)
    | Raised
    | GaveUp

  const ATTEMPTS := 20

  /** `history[k]` is the frame of publication k; publication 0 is whatever the region
      held when the driver opened it. */
  datatype State = State(words: seq<u32>, buffers: seq<seq<byte>>, history: seq<Frame>,
                         publisher: Publisher, reader: Reader)
  {
    function Completed(): int { |history| - 1 }

    predicate HasFrame(k: nat) { k < |history| || (k == |history| && !publisher.Idle?) }

    function FrameNo(k: nat): Frame
      requires HasFrame(k)
    {
      if k < |history| then history[k] else publisher.frame
    }
  }

  /** The layout, and the sequence and index words the region started with. */
  datatype Config = Config(layout: Layout, seq0: u32, index0: nat) {
    predicate Valid() { index0 < BUFFERS && layout.Valid(layout.size) }

    function SeqWord(k: nat): u32 { CounterWord(seq0, k) }

    /** The buffer of publication `k`: 0, 1, 2, 0, ... from the first. */
    function Slot(k: nat): nat { if k == 0 then index0 else (Slot(k - 1) + 1) % BUFFERS }

    /** A frame the driver can publish: no larger than the maximum, rows packed. The empty
        frame of a fresh region passes too. */
    predicate FrameOk(f: Frame) {
      && f.width <= layout.maximum.width && f.height <= layout.maximum.height
      && f.pitch == f.width * 4
      && |f.pixels| == f.pitch * f.height <= layout.bufferStride
    }
  }

  /** Header word `i` as publication of frame `f` into buffer `slot` leaves it. */
  function FieldOf(f: Frame, slot: nat, i: nat): nat {
    if i == INDEX then slot
    else if i == WIDTH then f.width
    else if i == HEIGHT then f.height
    else if i == PITCH then f.pitch
    else if i == FORMAT then f.format
    else 0
  }

  /** The word written at position `k` of the header sequence: the dimensions, pitch and
      format, the four damage words, and the buffer index last. */
  function WordAt(k: nat): (i: nat)
    requires k < 9
  {
    if k < 8 then k + 2 else INDEX
  }

  predicate Written(p: Publisher, i: nat) {
    p.Heading? && (if i == INDEX then p.written == 9 else 2 <= i && i - 2 < p.written)
  }

  ghost predicate Init(c: Config, s: State) {
    && c.Valid()
    && |s.words| == WORDS && |s.buffers| == BUFFERS
    && (forall b | 0 <= b < BUFFERS :: |s.buffers[b]| == c.layout.bufferStride)
    && |s.history| == 1 && c.FrameOk(s.history[0])
    && s.words[SEQ] == c.seq0
    && (forall i | INDEX <= i <= FORMAT :: s.words[i] == FieldOf(s.history[0], c.index0, i))
    && s.history[0].pixels <= s.buffers[c.index0]
    && s.publisher == Idle && s.reader == Start(0)
  }

  datatype Action =
    | Begin(frame: Frame) | CopyByte(at: nat) | CopyDone | WriteWord | Bump
    | ReadSeq | ReadWord(i: nat) | Check(live: bool) | ReadByte(at: nat) | Recheck

  /** The reader looks for pixels only when the words it read describe a frame. */
  predicate Describes(seen: map<nat, u32>)
    requires forall i | 0 <= i < WORDS :: i in seen
  {
    && seen[INDEX] < 3
    && 0 < seen[WIDTH] <= 3840 && 0 < seen[HEIGHT] <= 2160
    && seen[PITCH] >= seen[WIDTH] * 4
  }

  function FrameBytes(seen: map<nat, u32>): nat
    requires PITCH in seen && HEIGHT in seen
  {
    (seen[PITCH] as int) * (seen[HEIGHT] as int)
  }

  /** How many bytes of pixels the reader takes: a whole frame exactly when the driver is up and the
      words describe one. */
  function Wanted(live: bool, seen: map<nat, u32>): nat
    requires forall i | 0 <= i < WORDS :: i in seen
  {
    if live && Describes(seen) then FrameBytes(seen) else 0
  }

  /** The reader's own check of where a frame's bytes would lie. */
  predicate Outside(layout: Layout, index: u32, size: nat) {
    size > layout.bufferStride || layout.buffersOffset + index * layout.bufferStride + size > layout.size
  }

  /** Where it looks there is a buffer: the frame only has to fit a stride. */
  lemma OutsideIffTooLong(layout: Layout, index: u32, size: nat)
    requires layout.BuffersFit(layout.size) && index < BUFFERS
    ensures Outside(layout, index, size) <==> size > layout.bufferStride
  {
    MulBound(index, BUFFERS - 1, layout.bufferStride, layout.bufferStride);
  }

  predicate Enabled(c: Config, s: State, a: Action) {
    match a
    // Publisher. `publish` refuses a mode the layout does not support, and a bad index word.
    case Begin(f) =>
      && s.publisher.Idle? && |s.words| == WORDS && s.words[INDEX] < BUFFERS
      && f.width < U32_SPAN && f.height < U32_SPAN
      && c.layout.Supports(Mode(f.width, f.height)) && c.FrameOk(f) && f.format == XRGB8888
    case CopyByte(at) =>
      && s.publisher.Copying? && at < |s.publisher.frame.pixels|
      && s.publisher.next < |s.buffers| && at < |s.buffers[s.publisher.next]|
    case CopyDone =>
      s.publisher.Copying? && forall i | 0 <= i < |s.publisher.frame.pixels| :: i in s.publisher.done
    case WriteWord =>
      && s.publisher.Heading? && s.publisher.written < 9 && |s.words| == WORDS
      && FieldOf(s.publisher.frame, s.publisher.next, WordAt(s.publisher.written)) < U32_SPAN
    case Bump => s.publisher.Heading? && s.publisher.written == 9 && |s.words| == WORDS
    // Reader.
    case ReadSeq => s.reader.Start? && |s.words| == WORDS && 0 < |s.history|
    case ReadWord(i) => s.reader.Header? && i < WORDS && |s.words| == WORDS && i !in s.reader.seen
    case Check(_) => s.reader.Header? && forall i | 0 <= i < WORDS :: i in s.reader.seen
    case ReadByte(at) =>
      && s.reader.Pixels? && at < s.reader.size && at !in s.reader.got && INDEX in s.reader.seen
      && s.reader.seen[INDEX] < |s.buffers| && at < |s.buffers[s.reader.seen[INDEX]]|
    case Recheck =>
      && s.reader.Pixels? && |s.words| == WORDS && 0 < |s.history|
      && forall i | 0 <= i < s.reader.size :: i in s.reader.got
  }

  function Apply(c: Config, s: State, a: Action): (s': State)
    requires Enabled(c, s, a)
  {
    match a
    case Begin(f) => s.(publisher := Copying(f, (s.words[INDEX] + 1) % BUFFERS, {}))
    case CopyByte(at) =>
      var p := s.publisher;
      s.(buffers := s.buffers[p.next := s.buffers[p.next][at := p.frame.pixels[at]]],
         publisher := p.(done := p.done + {at}))
    case CopyDone => s.(publisher := Heading(s.publisher.frame, s.publisher.next, 0))
    case WriteWord =>
      var p := s.publisher;
      var i := WordAt(p.written);
      s.(words := s.words[i := FieldOf(p.frame, p.next, i)], publisher := p.(written := p.written + 1))
    case Bump =>
      s.(words := s.words[SEQ := (s.words[SEQ] + 1) % U32_SPAN],
         history := s.history + [s.publisher.frame], publisher := Idle)
    case ReadSeq => s.(reader := Header(s.reader.attempt, s.words[SEQ], map[], s.Completed()))
    case ReadWord(i) =>
      var r := s.reader;
      s.(reader := Header(r.attempt, r.before, r.seen[i := s.words[i]], r.since))
    case Check(live) =>
      var r := s.reader;
      if live && Describes(r.seen) && Outside(c.layout, r.seen[INDEX], FrameBytes(r.seen)) then
        s.(reader := Raised)
      else
        s.(reader := Pixels(r.attempt, r.before, live, r.seen, Wanted(live, r.seen), map[], r.since))
    case ReadByte(at) =>
      var r := s.reader;
      s.(reader := Pixels(r.attempt, r.before, r.live, r.seen, r.size,
                          r.got[at := s.buffers[r.seen[INDEX]][at]], r.since))
    case Recheck =>
      var r := s.reader;
      if r.before == s.words[SEQ] then
        s.(reader := Accepted(r.live, r.seen, seq(r.size, i requires 0 <= i < r.size && i in r.got => r.got[i]),
                              r.since, s.Completed()))
      else if r.attempt + 1 < ATTEMPTS then s.(reader := Start(r.attempt + 1))
      else s.(reader := GaveUp)
  }

  /** A run: every action is enabled when its turn comes. */
  predicate Legal(c: Config, s: State, actions: seq<Action>)
    decreases |actions|
  {
    actions == [] || (Enabled(c, s, actions[0]) && Legal(c, Apply(c, s, actions[0]), actions[1..]))
  }

  function Exec(c: Config, s: State, actions: seq<Action>): (s': State)
    requires Legal(c, s, actions)
    decreases |actions|
  {
    if actions == [] then s else Exec(c, Apply(c, s, actions[0]), actions[1..])
  }

  // What every step keeps.

  ghost predicate MemoryInv(c: Config, s: State) {
    && c.Valid()
    && |s.words| == WORDS && |s.buffers| == BUFFERS && 0 < |s.history|
    && (forall b | 0 <= b < BUFFERS :: |s.buffers[b]| == c.layout.bufferStride)
    && (forall k | 0 <= k < |s.history| :: c.FrameOk(s.history[k]))
    && (!s.publisher.Idle? ==> c.FrameOk(s.publisher.frame) && s.publisher.next == c.Slot(|s.history|))
    && (s.publisher.Heading? ==> s.publisher.written <= 9)
    && s.words[SEQ] == c.SeqWord(s.Completed())
    && (forall i | INDEX <= i <= FORMAT :: s.words[i] == CurrentField(c, s, i))
  }

  /** The frame whose value header word `i` holds: the pending one once it is written. */
  function CurrentField(c: Config, s: State, i: nat): nat
    requires 0 < |s.history|
  {
    if Written(s.publisher, i) then FieldOf(s.publisher.frame, c.Slot(|s.history|), i)
    else FieldOf(s.history[s.Completed()], c.Slot(s.Completed()), i)
  }

  /** The last two complete publications are intact, the third last as well until the next one
      begins, and so is what has been copied of the pending one. */
  ghost predicate BuffersInv(c: Config, s: State)
    requires MemoryInv(c, s)
  {
    && (forall k | 0 <= k < |s.history| && |s.history| - (if s.publisher.Idle? then 3 else 2) <= k ::
          s.history[k].pixels <= s.buffers[c.Slot(k)])
    && (s.publisher.Copying? ==>
          forall i | i in s.publisher.done ::
            i < |s.publisher.frame.pixels| && s.buffers[s.publisher.next][i] == s.publisher.frame.pixels[i])
    && (s.publisher.Heading? ==> s.publisher.frame.pixels <= s.buffers[s.publisher.next])
  }

  /** Each word seen is that of publication `k` or of its successor, the latter only if the
      index word (written last) can vouch for the pixels. */
  ghost predicate SeenFrom(c: Config, s: State, seen: map<nat, u32>, k: nat)
    requires k < |s.history|
  {
    && (SEQ in seen ==> seen[SEQ] == c.SeqWord(k))
    && forall i | INDEX <= i <= FORMAT && i in seen ::
         || seen[i] == FieldOf(s.history[k], c.Slot(k), i)
         || (s.HasFrame(k + 1) && seen[i] == FieldOf(s.FrameNo(k + 1), c.Slot(k + 1), i))
  }

  /** The frame the index word read points at. */
  function Chosen(c: Config, s: State, seen: map<nat, u32>, k: nat): Frame
    requires k < |s.history| && INDEX in seen
  {
    if seen[INDEX] == c.Slot(k) || !s.HasFrame(k + 1) then s.history[k] else s.FrameNo(k + 1)
  }

  predicate BytesFrom(got: map<nat, byte>, pixels: seq<byte>) {
    forall j | j in got && j < |pixels| :: got[j] == pixels[j]
  }

  predicate IndexPublished(s: State) { s.publisher.Heading? && s.publisher.written == 9 }

  ghost predicate ReaderInv(c: Config, s: State)
    requires MemoryInv(c, s)
  {
    match s.reader
    case Start(attempt) => attempt < ATTEMPTS
    case Header(attempt, before, seen, since) =>
      && attempt < ATTEMPTS && since <= s.Completed() && before == c.SeqWord(since)
      && (PITCH in seen ==> seen[PITCH] <= c.layout.maximum.width * 4)
      && (HEIGHT in seen ==> seen[HEIGHT] <= c.layout.maximum.height)
      && (since == s.Completed() ==>
            && SeenFrom(c, s, seen, since)
            && (INDEX in seen && seen[INDEX] != c.Slot(since) ==> IndexPublished(s)))
    case Pixels(attempt, before, live, seen, size, got, since) =>
      && attempt < ATTEMPTS && since <= s.Completed() && before == c.SeqWord(since)
      && (forall i | 0 <= i < WORDS :: i in seen)
      && size == Wanted(live, seen) && size <= c.layout.bufferStride
      && (forall j | j in got :: j < size)
      && (since == s.Completed() ==>
            && SeenFrom(c, s, seen, since)
            && (seen[INDEX] != c.Slot(since) ==> IndexPublished(s))
            && BytesFrom(got, Chosen(c, s, seen, since).pixels))
    case Accepted(live, seen, bytes, since, until) =>
      && since <= until <= s.Completed()
      && (forall i | 0 <= i < WORDS :: i in seen)
      && |bytes| == Wanted(live, seen)
      && (until - since < U32_SPAN ==>
            && since == until
            && SeenFrom(c, s, seen, since)
            && forall j | 0 <= j < |bytes| && j < |Chosen(c, s, seen, since).pixels| ::
                 bytes[j] == Chosen(c, s, seen, since).pixels[j])
    case Raised => false
    case GaveUp => true
  }

  ghost predicate Inv(c: Config, s: State) {
    MemoryInv(c, s) && BuffersInv(c, s) && ReaderInv(c, s)
  }

  lemma InitEstablishesInv(c: Config, s: State)
    requires Init(c, s)
    ensures Inv(c, s)
  {
  }

  lemma {:induction false} SlotBelow(c: Config, k: nat)
    requires c.index0 < BUFFERS
    ensures c.Slot(k) < BUFFERS
  {
    if k != 0 { SlotBelow(c, k - 1); }
  }

  lemma Rotation(c: Config, k: nat)
    requires c.index0 < BUFFERS
    ensures c.Slot(k) < BUFFERS && c.Slot(k + 1) < BUFFERS
    ensures c.Slot(k + 1) == (c.Slot(k) + 1) % BUFFERS
    ensures c.Slot(k) != c.Slot(k + 1) && c.Slot(k) != c.Slot(k + 2) && c.Slot(k + 1) != c.Slot(k + 2)
    ensures c.SeqWord(k + 1) == (c.SeqWord(k) + 1) % U32_SPAN
  {
    SlotBelow(c, k);
    assert c.Slot(k + 2) == (c.Slot(k + 1) + 1) % BUFFERS;
  }

  lemma BeginKeepsMemory(c: Config, s: State, f: Frame)
    requires Inv(c, s) && Enabled(c, s, Begin(f))
    ensures MemoryInv(c, Apply(c, s, Begin(f))) && BuffersInv(c, Apply(c, s, Begin(f)))
  {
    Rotation(c, s.Completed());
  }

  lemma BeginKeepsInv(c: Config, s: State, f: Frame)
    requires Inv(c, s) && Enabled(c, s, Begin(f))
    ensures Inv(c, Apply(c, s, Begin(f)))
  {
    BeginKeepsMemory(c, s, f);
  }

  lemma CopyByteKeepsMemory(c: Config, s: State, at: nat)
    requires Inv(c, s) && Enabled(c, s, CopyByte(at))
    ensures MemoryInv(c, Apply(c, s, CopyByte(at)))
  {
    var s' := Apply(c, s, CopyByte(at));
    assert forall i | INDEX <= i <= FORMAT :: CurrentField(c, s', i) == CurrentField(c, s, i);
  }

  lemma CopyByteKeepsBuffers(c: Config, s: State, at: nat)
    requires MemoryInv(c, s) && BuffersInv(c, s) && Enabled(c, s, CopyByte(at))
    requires MemoryInv(c, Apply(c, s, CopyByte(at)))
    ensures BuffersInv(c, Apply(c, s, CopyByte(at)))
  {
    var n := s.Completed();
    Rotation(c, n);
    if 0 < n { Rotation(c, n - 1); }
    var s' := Apply(c, s, CopyByte(at));
    assert forall k | 0 <= k < |s.history| && n - 1 <= k :: s'.buffers[c.Slot(k)] == s.buffers[c.Slot(k)];
  }

  /** The reader's part looks at the frames, not at how far the pixels of the next one are. */
  lemma CopyingKeepsReader(c: Config, s: State, s': State)
    requires MemoryInv(c, s) && MemoryInv(c, s') && ReaderInv(c, s)
    requires s'.reader == s.reader && s'.history == s.history
    requires s.publisher.Copying? && (s'.publisher.Copying? || (s'.publisher.Heading? && s'.publisher.written == 0))
    requires s'.publisher.frame == s.publisher.frame
    ensures ReaderInv(c, s')
  {
  }

  lemma CopyByteKeepsInv(c: Config, s: State, at: nat)
    requires Inv(c, s) && Enabled(c, s, CopyByte(at))
    ensures Inv(c, Apply(c, s, CopyByte(at)))
  {
    CopyByteKeepsMemory(c, s, at);
    CopyByteKeepsBuffers(c, s, at);
    CopyingKeepsReader(c, s, Apply(c, s, CopyByte(at)));
  }

  lemma CopyDoneKeepsMemory(c: Config, s: State)
    requires Inv(c, s) && Enabled(c, s, CopyDone)
    ensures MemoryInv(c, Apply(c, s, CopyDone)) && BuffersInv(c, Apply(c, s, CopyDone))
  {
  }

  lemma CopyDoneKeepsInv(c: Config, s: State)
    requires Inv(c, s) && Enabled(c, s, CopyDone)
    ensures Inv(c, Apply(c, s, CopyDone))
  {
    CopyDoneKeepsMemory(c, s);
    CopyingKeepsReader(c, s, Apply(c, s, CopyDone));
  }

  lemma WriteWordKeepsMemory(c: Config, s: State)
    requires Inv(c, s) && Enabled(c, s, WriteWord)
    ensures MemoryInv(c, Apply(c, s, WriteWord)) && BuffersInv(c, Apply(c, s, WriteWord))
  {
  }

  lemma WriteWordKeepsInv(c: Config, s: State)
    requires Inv(c, s) && Enabled(c, s, WriteWord)
    ensures Inv(c, Apply(c, s, WriteWord))
  {
    WriteWordKeepsMemory(c, s);
  }

  lemma BumpKeepsMemory(c: Config, s: State)
    requires Inv(c, s) && Enabled(c, s, Bump)
    ensures MemoryInv(c, Apply(c, s, Bump)) && BuffersInv(c, Apply(c, s, Bump))
  {
    Rotation(c, s.Completed());
  }

  lemma BumpKeepsInv(c: Config, s: State)
    requires Inv(c, s) && Enabled(c, s, Bump)
    ensures Inv(c, Apply(c, s, Bump))
  {
    BumpKeepsMemory(c, s);
  }

  lemma ReadSeqKeepsInv(c: Config, s: State)
    requires Inv(c, s) && Enabled(c, s, ReadSeq)
    ensures Inv(c, Apply(c, s, ReadSeq))
  {
    ReaderMoves(c, s, Apply(c, s, ReadSeq).reader);
  }

  lemma WordsInBounds(c: Config, s: State)
    requires MemoryInv(c, s)
    ensures s.words[PITCH] <= c.layout.maximum.width * 4 && s.words[HEIGHT] <= c.layout.maximum.height
  {
    assert s.words[PITCH] == CurrentField(c, s, PITCH) && s.words[HEIGHT] == CurrentField(c, s, HEIGHT);
  }

  lemma WordSeen(c: Config, s: State, i: nat)
    requires MemoryInv(c, s) && i < WORDS && s.reader.Header? && SeenFrom(c, s, s.reader.seen, s.Completed())
    ensures SeenFrom(c, s, s.reader.seen[i := s.words[i]], s.Completed())
  {
    if INDEX <= i <= FORMAT { assert s.words[i] == CurrentField(c, s, i); }
  }

  lemma ReadWordKeepsInv(c: Config, s: State, i: nat)
    requires Inv(c, s) && Enabled(c, s, ReadWord(i))
    ensures Inv(c, Apply(c, s, ReadWord(i)))
  {
    Rotation(c, s.Completed());
    ReaderMoves(c, s, Apply(c, s, ReadWord(i)).reader);
    WordsInBounds(c, s);
    if s.reader.since == s.Completed() { WordSeen(c, s, i); }
  }

  lemma TornFrameFits(c: Config, seen: map<nat, u32>)
    requires c.Valid() && PITCH in seen && HEIGHT in seen
    requires seen[PITCH] <= c.layout.maximum.width * 4 && seen[HEIGHT] <= c.layout.maximum.height
    ensures FrameBytes(seen) <= c.layout.bufferStride
  {
    var most := c.layout.maximum;
    MulBound(seen[PITCH], most.width * 4, seen[HEIGHT], most.height);
    assert most.width * 4 * most.height == most.width * most.height * 4;
  }

  /** Even words torn between two frames never point outside a buffer. */
  lemma CheckKeepsInv(c: Config, s: State, live: bool)
    requires Inv(c, s) && Enabled(c, s, Check(live))
    ensures Inv(c, Apply(c, s, Check(live)))
  {
    var seen := s.reader.seen;
    TornFrameFits(c, seen);
    if Describes(seen) { OutsideIffTooLong(c.layout, seen[INDEX], FrameBytes(seen)); }
    ReaderMoves(c, s, Apply(c, s, Check(live)).reader);
  }

  lemma ReadByteKeepsInv(c: Config, s: State, at: nat)
    requires Inv(c, s) && Enabled(c, s, ReadByte(at))
    ensures Inv(c, Apply(c, s, ReadByte(at)))
  {
    Rotation(c, s.Completed());
    ReaderMoves(c, s, Apply(c, s, ReadByte(at)).reader);
  }

  /** A step of the reader leaves the rest alone. */
  lemma ReaderMoves(c: Config, s: State, reader: Reader)
    requires MemoryInv(c, s) && BuffersInv(c, s)
    ensures MemoryInv(c, s.(reader := reader)) && BuffersInv(c, s.(reader := reader))
  {
  }

  lemma RecheckKeepsInv(c: Config, s: State)
    requires Inv(c, s) && Enabled(c, s, Recheck)
    ensures Inv(c, Apply(c, s, Recheck))
  {
    var r := s.reader;
    ReaderMoves(c, s, Apply(c, s, Recheck).reader);
    if r.before == s.words[SEQ] && s.Completed() - r.since < U32_SPAN {
      SameWordSameCount(c.seq0, r.since, s.Completed());
    }
  }

  lemma StepKeepsInv(c: Config, s: State, a: Action)
    requires Inv(c, s) && Enabled(c, s, a)
    ensures Inv(c, Apply(c, s, a))
  {
    match a
    case Begin(f) => BeginKeepsInv(c, s, f);
    case CopyByte(at) => CopyByteKeepsInv(c, s, at);
    case CopyDone => CopyDoneKeepsInv(c, s);
    case WriteWord => WriteWordKeepsInv(c, s);
    case Bump => BumpKeepsInv(c, s);
    case ReadSeq => ReadSeqKeepsInv(c, s);
    case ReadWord(i) => ReadWordKeepsInv(c, s, i);
    case Check(live) => CheckKeepsInv(c, s, live);
    case ReadByte(at) => ReadByteKeepsInv(c, s, at);
    case Recheck => RecheckKeepsInv(c, s);
  }

  lemma {:induction false} RunKeepsInv(c: Config, s: State, actions: seq<Action>)
    requires Inv(c, s) && Legal(c, s, actions)
    ensures Inv(c, Exec(c, s, actions))
    decreases |actions|
  {
    if actions == [] {
    } else {
      StepKeepsInv(c, s, actions[0]);
      RunKeepsInv(c, Apply(c, s, actions[0]), actions[1..]);
    }
  }

  // Every interleaving.

  predicate SameMode(f: Frame, g: Frame) { f.width == g.width && f.height == g.height }

  /** The header tuple read is the whole header of the frame its index word names. */
  ghost predicate Coherent(c: Config, s: State)
    requires s.reader.Accepted? && s.reader.since < |s.history|
    requires forall i | 0 <= i < WORDS :: i in s.reader.seen
  {
    var k := s.reader.since;
    var seen := s.reader.seen;
    var f := Chosen(c, s, seen, k);
    forall i | WIDTH <= i <= PITCH :: seen[i] == FieldOf(f, seen[INDEX], i)
  }

  /** What an accepted snapshot is: the sequence word in its header copy is the one it
      started from; each header word is that of frame `since` or of its successor; it has a
      frame's bytes exactly when the driver is up and the words describe a frame; its bytes are
      those of the one frame its index word names, as far as that frame goes; and if the two
      frames share a mode, the tuple is coherent and the bytes are exactly that frame's packed
      pixels. */
  ghost predicate Faithful(c: Config, s: State)
    requires s.reader.Accepted?
  {
    var k, live, seen, bytes := s.reader.since, s.reader.live, s.reader.seen, s.reader.bytes;
    && k == s.reader.until < |s.history|
    && (forall i | 0 <= i < WORDS :: i in seen)
    && seen[SEQ] == c.SeqWord(k)
    && (forall i | INDEX <= i <= FORMAT ::
          || seen[i] == FieldOf(s.history[k], c.Slot(k), i)
          || (s.HasFrame(k + 1) && seen[i] == FieldOf(s.FrameNo(k + 1), c.Slot(k + 1), i)))
    && |bytes| == Wanted(live, seen)
    && (forall j | 0 <= j < |bytes| && j < |Chosen(c, s, seen, k).pixels| ::
          bytes[j] == Chosen(c, s, seen, k).pixels[j])
    && (!s.HasFrame(k + 1) || SameMode(s.history[k], s.FrameNo(k + 1)) ==>
          Coherent(c, s) && bytes == if live && Describes(seen) then Chosen(c, s, seen, k).pixels else [])
  }

  lemma SharedModeIsExact(c: Config, s: State)
    requires Inv(c, s) && s.reader.Accepted? && s.reader.until - s.reader.since < U32_SPAN
    requires !s.HasFrame(s.reader.since + 1) || SameMode(s.history[s.reader.since], s.FrameNo(s.reader.since + 1))
    ensures Coherent(c, s)
    ensures s.reader.bytes == if s.reader.live && Describes(s.reader.seen)
                              then Chosen(c, s, s.reader.seen, s.reader.since).pixels else []
  {
    var f := Chosen(c, s, s.reader.seen, s.reader.since);
    assert Coherent(c, s);
    assert |f.pixels| == FrameBytes(s.reader.seen);
  }

  lemma AcceptedIsFaithful(c: Config, s: State)
    requires Inv(c, s) && s.reader.Accepted? && s.reader.until - s.reader.since < U32_SPAN
    ensures Faithful(c, s)
  {
    var k := s.reader.since;
    if !s.HasFrame(k + 1) || SameMode(s.history[k], s.FrameNo(k + 1)) {
      SharedModeIsExact(c, s);
    }
  }

  /** The snapshot theorem: in every run the reader never finds a frame outside the mapped
      region, and a snapshot accepted with fewer than 2^32 publications between its two
      sequence reads is faithful (and had none in between). */
  lemma Snapshot(c: Config, s0: State, actions: seq<Action>)
    requires Init(c, s0) && Legal(c, s0, actions)
    ensures var s := Exec(c, s0, actions);
            && !s.reader.Raised?
            && (s.reader.Accepted? && s.reader.until - s.reader.since < U32_SPAN ==> Faithful(c, s))
  {
    InitEstablishesInv(c, s0);
    RunKeepsInv(c, s0, actions);
    var s := Exec(c, s0, actions);
    if s.reader.Accepted? && s.reader.until - s.reader.since < U32_SPAN {
      AcceptedIsFaithful(c, s);
    }
  }

  /** Over every run a published frame survives the next two publications byte for byte: while
      they are under way, and after the second until a third one begins. */
  lemma FrameSurvivesTwoPublications(c: Config, s0: State, actions: seq<Action>, k: nat)
    requires Init(c, s0) && Legal(c, s0, actions) && k < |Exec(c, s0, actions).history|
    ensures var s := Exec(c, s0, actions);
            |s.history| <= k + 2 || (|s.history| == k + 3 && s.publisher.Idle?) ==>
              c.Slot(k) < |s.buffers| && s.history[k].pixels <= s.buffers[c.Slot(k)]
  {
    InitEstablishesInv(c, s0);
    RunKeepsInv(c, s0, actions);
    SlotBelow(c, k);
  }

  /** The reader has begun no more attempts than publications were completed for it to lose them to. */
  ghost predicate Outrun(s: State) {
    match s.reader
    case Start(attempt) => attempt <= s.Completed()
    case Header(attempt, _, _, since) => attempt <= since
    case Pixels(attempt, _, _, _, _, _, since) => attempt <= since
    case GaveUp => 20 <= s.Completed()
    case _ => true
  }

  lemma StepKeepsOutrun(c: Config, s: State, a: Action)
    requires Inv(c, s) && Outrun(s) && Enabled(c, s, a)
    ensures Outrun(Apply(c, s, a))
  {
    if a.Recheck? && s.reader.before != s.words[SEQ] {
      assert s.reader.since != s.Completed();
    }
  }

  lemma {:induction false} RunKeepsOutrun(c: Config, s: State, actions: seq<Action>)
    requires Inv(c, s) && Outrun(s) && Legal(c, s, actions)
    ensures Outrun(Exec(c, s, actions))
    decreases |actions|
  {
    if actions == [] {
    } else {
      StepKeepsInv(c, s, actions[0]);
      StepKeepsOutrun(c, s, actions[0]);
      RunKeepsOutrun(c, Apply(c, s, actions[0]), actions[1..]);
    }
  }

  /** In every run, a reader that gives up was outrun twenty times: each of its attempts lost to a
      publication of its own. */
  lemma GivesUpOnlyWhenOutrun(c: Config, s0: State, actions: seq<Action>)
    requires Init(c, s0) && Legal(c, s0, actions) && Exec(c, s0, actions).reader.GaveUp?
    ensures 20 <= |Exec(c, s0, actions).history| - |s0.history|
  {
    InitEstablishesInv(c, s0);
    RunKeepsOutrun(c, s0, actions);
  }
}
