/** The agent channel's frames, and the client that finds them in a byte stream handed to it in
    arbitrary chunks. */
module AgentFrames {
  import opened Bytes

  const MAGIC: seq<byte> := [0x56, 0x4d, 0x4c, 0x42] // "VMLB"
  const HEADER := 13

  datatype Frame = Frame(kind: byte, channel: u32, payload: seq<byte>)

  function Encode(f: Frame): (s: seq<byte>)
    requires |f.payload| < U32_SPAN
  {
    MAGIC + Le32(|f.payload|) + [f.kind] + Le32(f.channel) + f.payload
  }

  predicate MagicAt(s: seq<byte>, i: nat) { i + 4 <= |s| && s[i..i + 4] == MAGIC }

  predicate NoMagicBefore(s: seq<byte>, i: nat) { forall j: nat | j < i :: !MagicAt(s, j) }

  /** The first magic at or after `from`, else -1. */
  function FindFrom(s: seq<byte>, from: nat): (i: int)
    requires from <= |s| && NoMagicBefore(s, from)
    ensures 0 <= i ==> MagicAt(s, i) && NoMagicBefore(s, i)
    ensures i < 0 ==> i == -1 && NoMagicBefore(s, |s|)
    decreases |s| - from
  {
    if MagicAt(s, from) then from
    else if from == |s| then -1
    else FindFrom(s, from + 1)
  }

  function Find(s: seq<byte>): (i: int)
    ensures 0 <= i ==> MagicAt(s, i) && NoMagicBefore(s, i)
    ensures i < 0 ==> i == -1 && NoMagicBefore(s, |s|)
  {
    FindFrom(s, 0)
  }

  lemma FindIs(s: seq<byte>, i: nat)
    requires MagicAt(s, i) && NoMagicBefore(s, i)
    ensures Find(s) == i
  {
  }

  function Length(s: seq<byte>): (n: u32)
    requires HEADER <= |s|
  {
    Le32At(s, 4)
  }

  /** A whole frame at the very start. */
  predicate Complete(s: seq<byte>) { MagicAt(s, 0) && HEADER <= |s| && HEADER + Length(s) <= |s| }

  function Front(s: seq<byte>): (f: Frame)
    requires Complete(s)
  {
    Frame(s[8], Le32At(s, 9), s[HEADER..HEADER + Length(s)])
  }

  function Behind(s: seq<byte>): (rest: seq<byte>)
    requires Complete(s)
    ensures |rest| < |s|
  {
    s[HEADER + Length(s)..]
  }

  /** The decode of a whole stream: skip to the next magic, then go by the length. */
  function Decode(s: seq<byte>): (fs: seq<Frame>)
    decreases |s|
  {
    var i := Find(s);
    if i < 0 || !Complete(s[i..]) then [] else [Front(s[i..])] + Decode(Behind(s[i..]))
  }

  /** What a round of the loop keeps of a buffer it cannot take a frame from. */
  function Trimmed(buf: seq<byte>): (r: seq<byte>) {
    var i := Find(buf);
    if 0 < i then buf[i..]
    else if i < 0 && 3 < |buf| then buf[|buf| - 3..]
    else buf
  }

  datatype Received = Received(frame: Option<Frame>, buf: seq<byte>, chunks: seq<seq<byte>>)

  /** One call: what it returns, and the buffer and the chunks it leaves. */
  function Recv(buf: seq<byte>, chunks: seq<seq<byte>>): (r: Received)
    decreases |chunks|
  {
    if Complete(buf) then Received(Some(Front(buf)), Behind(buf), chunks)
    else if chunks == [] then Received(None, Trimmed(buf), [])
    else Recv(Trimmed(buf) + chunks[0], chunks[1..])
  }

  class AgentClient {
    var buf: seq<byte>
    /** What the socket will hand over, `recv` by `recv`; then it is closed. */
    var incoming: seq<seq<byte>>

    constructor (chunks: seq<seq<byte>>)
      ensures buf == [] && incoming == chunks
    {
      buf, incoming := [], chunks;
    }

    method RecvFrame() returns (r: Option<Frame>)
      modifies this
      ensures Received(r, buf, incoming) == Recv(old(buf), old(incoming))
    {
      ghost var all := Recv(buf, incoming);
      while true
        invariant all == Recv(buf, incoming)
        decreases |incoming|
      {
        var i := Find(buf);
        if i < 0 {
          if 3 < |buf| { buf := buf[|buf| - 3..]; }
        } else if 0 < i {
          buf := buf[i..];
        } else if HEADER <= |buf| {
          var n := Length(buf);
          if HEADER + n <= |buf| {
            var frame := Frame(buf[8], Le32At(buf, 9), buf[HEADER..HEADER + n]);
            buf := buf[HEADER + n..];
            return Some(frame);
          }
        }
        if incoming == [] { return None; }
        buf, incoming := buf + incoming[0], incoming[1..];
      }
    }
  }

  // Decoding after dropping bytes that cannot start a frame.

  lemma MagicShift(s: seq<byte>, k: nat, j: nat)
    requires k <= |s|
    ensures MagicAt(s[k..], j) <==> MagicAt(s, k + j)
  {
    if k + j + 4 <= |s| { assert s[k..][j..j + 4] == s[k + j..k + j + 4]; }
  }

  lemma FindDrop(s: seq<byte>, k: nat)
    requires k <= |s| && NoMagicBefore(s, k)
    ensures Find(s[k..]) == if Find(s) < 0 then -1 else Find(s) - k
  {
    forall j: nat { MagicShift(s, k, j); }
    if 0 <= Find(s) {
      assert MagicAt(s[k..], Find(s) - k);
      FindIs(s[k..], Find(s) - k);
    }
  }

  lemma DropNoMagic(s: seq<byte>, k: nat)
    requires k <= |s| && NoMagicBefore(s, k)
    ensures Find(s[k..]) == if Find(s) < 0 then -1 else Find(s) - k
    ensures Decode(s[k..]) == Decode(s)
  {
    FindDrop(s, k);
    if 0 <= Find(s) {
      assert k <= Find(s);
      assert s[k..][Find(s) - k..] == s[Find(s)..];
    }
  }

  lemma MagicExtends(s: seq<byte>, rest: seq<byte>, j: nat)
    requires j + 4 <= |s|
    ensures MagicAt(s, j) <==> MagicAt(s + rest, j)
  {
    assert (s + rest)[j..j + 4] == s[j..j + 4];
  }

  /** How many bytes a round drops. */
  function Dropped(buf: seq<byte>): (k: nat) { |buf| - |Trimmed(buf)| }

  /** Only bytes that start no frame, whatever follows, are dropped. */
  lemma TrimmedIsTail(buf: seq<byte>, rest: seq<byte>)
    ensures Trimmed(buf) + rest == (buf + rest)[Dropped(buf)..]
    ensures NoMagicBefore(buf + rest, Dropped(buf))
    ensures Dropped(buf) == 0 || Dropped(buf) <= |buf| - 3
  {
    forall j: nat | j + 4 <= |buf| { MagicExtends(buf, rest, j); }
  }

  /** One round of the loop leaves the decode of the whole stream alone. */
  lemma TrimmedKeepsDecode(buf: seq<byte>, rest: seq<byte>)
    ensures Decode(Trimmed(buf) + rest) == Decode(buf + rest)
  {
    TrimmedIsTail(buf, rest);
    DropNoMagic(buf + rest, Dropped(buf));
  }

  lemma CompleteExtends(s: seq<byte>, rest: seq<byte>)
    requires Complete(s)
    ensures Complete(s + rest) && Front(s + rest) == Front(s) && Behind(s + rest) == Behind(s) + rest
  {
    MagicExtends(s, rest, 0);
    assert (s + rest)[4..8] == s[4..8] && (s + rest)[9..13] == s[9..13];
    var end := HEADER + Length(s);
    assert (s + rest)[HEADER..end] == s[HEADER..end];
  }

  lemma DecodeFront(s: seq<byte>)
    requires Complete(s)
    ensures Find(s) == 0 && Decode(s) == [Front(s)] + Decode(Behind(s))
  {
    FindIs(s, 0);
    assert s[0..] == s;
  }

  lemma ConcatStep(buf: seq<byte>, chunks: seq<seq<byte>>)
    requires chunks != []
    ensures buf + Flatten(chunks) == buf + chunks[0] + Flatten(chunks[1..])
  {
  }

  /** Safety, for every stream and every chunking: a call that returns a frame returns the next
      one of the whole-stream decode, and one that fails takes none away. */
  lemma {:induction false} RecvIsNext(buf: seq<byte>, chunks: seq<seq<byte>>)
    ensures var r := Recv(buf, chunks);
            var left := Decode(r.buf + Flatten(r.chunks));
            Decode(buf + Flatten(chunks)) == if r.frame.Some? then [r.frame.value] + left else left
    decreases |chunks|
  {
    var rest := Flatten(chunks);
    if Complete(buf) {
      CompleteExtends(buf, rest);
      DecodeFront(buf + rest);
    } else {
      TrimmedKeepsDecode(buf, rest);
      if chunks != [] {
        ConcatStep(Trimmed(buf), chunks);
        RecvIsNext(Trimmed(buf) + chunks[0], chunks[1..]);
      }
    }
  }

  // When a call succeeds.

  /** The bytes that arrive before the last chunk does. */
  function BeforeLast(buf: seq<byte>, chunks: seq<seq<byte>>): (n: nat) {
    if chunks == [] then 0 else |buf| + |Flatten(chunks[..|chunks| - 1])|
  }

  /** Where the first magic must start at the latest for the call to get to its frame: a magic
      found behind garbage is only looked at again after one more chunk. */
  function Latest(buf: seq<byte>, chunks: seq<seq<byte>>): (n: nat) {
    if BeforeLast(buf, chunks) < 3 then 0 else BeforeLast(buf, chunks) - 3
  }

  lemma LatestStep(buf: seq<byte>, chunks: seq<seq<byte>>)
    requires 1 < |chunks|
    ensures BeforeLast(Trimmed(buf) + chunks[0], chunks[1..]) == BeforeLast(buf, chunks) - Dropped(buf)
  {
    var n := |chunks| - 1;
    assert chunks[..n][0] == chunks[0] && chunks[..n][1..] == chunks[1..][..n - 1];
  }

  lemma FindInBuffer(buf: seq<byte>, rest: seq<byte>)
    ensures 0 <= Find(buf) ==> Find(buf + rest) == Find(buf)
  {
    if 0 <= Find(buf) {
      forall j: nat | j + 4 <= |buf| { MagicExtends(buf, rest, j); }
      FindIs(buf + rest, Find(buf));
    }
  }

  /** Nothing decodes from a buffer without a magic or with an unfinished frame up front. */
  lemma FailsAtEnd(buf: seq<byte>)
    requires !Complete(buf)
    ensures Decode(buf) == [] || 0 < Find(buf)
  {
    if Find(buf) == 0 { assert buf[0..] == buf; }
  }

  /** A call on whatever is buffered and still arrives returns a frame if and only if the whole
      stream holds one and the first magic does not start behind garbage in the last chunk. */
  lemma {:induction false} RecvSucceedsIff(buf: seq<byte>, chunks: seq<seq<byte>>)
    ensures Recv(buf, chunks).frame.Some? <==>
            Decode(buf + Flatten(chunks)) != [] && Find(buf + Flatten(chunks)) <= Latest(buf, chunks)
    decreases |chunks|
  {
    var all := buf + Flatten(chunks);
    if Complete(buf) {
      CompleteExtends(buf, Flatten(chunks));
      DecodeFront(all);
    } else if chunks == [] {
      assert all == buf;
      FailsAtEnd(buf);
    } else {
      TrimmedIsTail(buf, Flatten(chunks));
      DropNoMagic(all, Dropped(buf));
      ConcatStep(Trimmed(buf), chunks);
      RecvSucceedsIff(Trimmed(buf) + chunks[0], chunks[1..]);
      FindInBuffer(buf, Flatten(chunks));
      if 1 < |chunks| { LatestStep(buf, chunks); } else { assert Flatten(chunks[..0]) == []; }
    }
  }

  /** The failing family is not empty: one byte of garbage and a whole frame in the last chunk, and
      the call reports a closed socket with the frame left in the buffer. */
  lemma GarbageHidesFrame(g: byte, f: Frame)
    requires |f.payload| < U32_SPAN && g != MAGIC[0]
    ensures Decode([g] + Encode(f)) == [f]
    ensures Recv([], [[g] + Encode(f)]) == Received(None, Encode(f), [])
  {
    var s := [g] + Encode(f);
    EncodeIsComplete(f, []);
    assert Encode(f) + [] == Encode(f);
    MagicShift(s, 1, 0);
    assert s[1..] == Encode(f);
    assert !MagicAt(s, 0) by { assert s[0..4][0] == g; }
    FindIs(s, 1);
    DecodeFront(Encode(f));
    assert Decode([]) == [];
    DropNoMagic(s, 1);
    assert !Complete([]) && Trimmed([]) == [] && [] + s == s;
    assert Recv([], [s]) == Recv(s, []);
  }

  // Frames back to back.

  lemma EncodeIsComplete(f: Frame, rest: seq<byte>)
    requires |f.payload| < U32_SPAN
    ensures var s := Encode(f) + rest; Complete(s) && Front(s) == f && Behind(s) == rest
  {
    var s := Encode(f) + rest;
    assert s[0..4] == MAGIC && s[4..8] == Le32(|f.payload|) && s[9..13] == Le32(f.channel);
    Le32RoundTrip(|f.payload|);
    Le32RoundTrip(f.channel);
    assert s[8] == f.kind;
    assert s[HEADER..HEADER + |f.payload|] == f.payload;
    assert s[HEADER + |f.payload|..] == rest;
  }

  predicate AllEncodable(fs: seq<Frame>) { forall i | 0 <= i < |fs| :: |fs[i].payload| < U32_SPAN }

  function EncodeAll(fs: seq<Frame>): (s: seq<byte>)
    requires AllEncodable(fs)
  {
    if fs == [] then [] else Encode(fs[0]) + EncodeAll(fs[1..])
  }

  lemma {:induction false} DecodeOfEncodeAll(fs: seq<Frame>)
    requires AllEncodable(fs)
    ensures Decode(EncodeAll(fs)) == fs && Find(EncodeAll(fs)) <= 0
    decreases |fs|
  {
    if fs != [] {
      EncodeIsComplete(fs[0], EncodeAll(fs[1..]));
      DecodeFront(EncodeAll(fs));
      DecodeOfEncodeAll(fs[1..]);
    }
  }

  datatype ManyReceived = ManyReceived(frames: seq<Frame>, buf: seq<byte>, chunks: seq<seq<byte>>)

  /** `n` calls, stopping at the first that fails. */
  function RecvMany(buf: seq<byte>, chunks: seq<seq<byte>>, n: nat): (r: ManyReceived)
    decreases n
  {
    if n == 0 then ManyReceived([], buf, chunks)
    else
      var first := Recv(buf, chunks);
      if first.frame.None? then ManyReceived([], first.buf, first.chunks)
      else
        var others := RecvMany(first.buf, first.chunks, n - 1);
        ManyReceived([first.frame.value] + others.frames, others.buf, others.chunks)
  }

  /** The decode of what is buffered and still arrives. */
  function Left(buf: seq<byte>, chunks: seq<seq<byte>>): (fs: seq<Frame>)
    decreases |chunks|
  {
    if chunks == [] then Decode(buf) else Left(buf + chunks[0], chunks[1..])
  }

  lemma {:induction false} LeftIsDecode(buf: seq<byte>, chunks: seq<seq<byte>>)
    ensures Left(buf, chunks) == Decode(buf + Flatten(chunks))
    decreases |chunks|
  {
    if chunks == [] {
      assert buf + [] == buf;
    } else {
      LeftIsDecode(buf + chunks[0], chunks[1..]);
      ConcatStep(buf, chunks);
    }
  }

  lemma NextLeft(buf: seq<byte>, chunks: seq<seq<byte>>, first: Received)
    requires first == Recv(buf, chunks)
    ensures Left(buf, chunks)
            == if first.frame.Some? then [first.frame.value] + Left(first.buf, first.chunks)
               else Left(first.buf, first.chunks)
  {
    RecvIsNext(buf, chunks);
    LeftIsDecode(buf, chunks);
    LeftIsDecode(first.buf, first.chunks);
  }

  lemma RecvManyFirst(buf: seq<byte>, chunks: seq<seq<byte>>, n: nat) returns (first: Received, others: ManyReceived)
    requires 0 < n
    ensures first.frame.None? ==>
              && RecvMany(buf, chunks, n) == ManyReceived([], first.buf, first.chunks)
              && Left(buf, chunks) == Left(first.buf, first.chunks)
    ensures first.frame.Some? ==>
              && others == RecvMany(first.buf, first.chunks, n - 1)
              && RecvMany(buf, chunks, n)
                 == ManyReceived([first.frame.value] + others.frames, others.buf, others.chunks)
              && Left(buf, chunks) == [first.frame.value] + Left(first.buf, first.chunks)
  {
    first := Recv(buf, chunks);
    NextLeft(buf, chunks, first);
    others := RecvMany(first.buf, first.chunks, n - 1);
  }

  lemma {:induction false} RecvManyLeft(buf: seq<byte>, chunks: seq<seq<byte>>, n: nat, r: ManyReceived)
    requires r == RecvMany(buf, chunks, n)
    ensures Left(buf, chunks) == r.frames + Left(r.buf, r.chunks)
    decreases n
  {
    if n != 0 {
      var first, others := RecvManyFirst(buf, chunks, n);
      if first.frame.Some? {
        RecvManyLeft(first.buf, first.chunks, n - 1, others);
        Assoc([first.frame.value], others.frames, Left(others.buf, others.chunks));
      }
    }
  }

  /** Over any number of calls the frames returned are an in-order prefix of the decode. */
  lemma RecvManyIsPrefix(buf: seq<byte>, chunks: seq<seq<byte>>, n: nat, r: ManyReceived)
    requires r == RecvMany(buf, chunks, n)
    ensures Decode(buf + Flatten(chunks)) == r.frames + Decode(r.buf + Flatten(r.chunks))
  {
    RecvManyLeft(buf, chunks, n, r);
    LeftIsDecode(buf, chunks);
    LeftIsDecode(r.buf, r.chunks);
  }

  /** What a call leaves is the rest of a stream of frames back to back. */
  lemma {:induction false} RecvOfFrames(buf: seq<byte>, chunks: seq<seq<byte>>, fs: seq<Frame>)
    requires AllEncodable(fs) && fs != [] && buf + Flatten(chunks) == EncodeAll(fs)
    ensures var r := Recv(buf, chunks);
            r.frame == Some(fs[0]) && r.buf + Flatten(r.chunks) == EncodeAll(fs[1..])
    decreases |chunks|
  {
    var all := EncodeAll(fs);
    EncodeIsComplete(fs[0], EncodeAll(fs[1..]));
    if Complete(buf) {
      CompleteExtends(buf, Flatten(chunks));
    } else {
      assert buf + [] == buf;
      NothingDropped(buf, Flatten(chunks));
      ConcatStep(buf, chunks);
      RecvOfFrames(buf + chunks[0], chunks[1..], fs);
    }
  }

  /** No byte of a stream that starts with a magic is dropped. */
  lemma NothingDropped(buf: seq<byte>, rest: seq<byte>)
    requires MagicAt(buf + rest, 0)
    ensures Trimmed(buf) == buf
  {
    TrimmedIsTail(buf, rest);
  }

  /** A stream of frames back to back is recovered exactly, however it is cut into chunks, with
      nothing left over. */
  lemma {:induction false} FramesRecovered(buf: seq<byte>, chunks: seq<seq<byte>>, fs: seq<Frame>)
    requires AllEncodable(fs) && buf + Flatten(chunks) == EncodeAll(fs)
    ensures var r := RecvMany(buf, chunks, |fs|);
            r.frames == fs && r.buf + Flatten(r.chunks) == []
    decreases |fs|
  {
    if fs != [] {
      RecvOfFrames(buf, chunks, fs);
      var first := Recv(buf, chunks);
      FramesRecovered(first.buf, first.chunks, fs[1..]);
      assert [fs[0]] + fs[1..] == fs;
    }
  }

  /** A frame by its bytes: "VMLB", the payload's length, the kind, the channel, the payload. */
  lemma EncodeIs(f: Frame)
    requires |f.payload| < U32_SPAN
    ensures var s := Encode(f);
            && |s| == 13 + |f.payload| && s[..4] == [0x56, 0x4d, 0x4c, 0x42]
            && Le32At(s, 4) == |f.payload| && s[8] == f.kind && Le32At(s, 9) == f.channel && s[13..] == f.payload
  {
    var s := Encode(f);
    assert s[4..8] == Le32(|f.payload|) && s[9..13] == Le32(f.channel);
    Le32RoundTrip(|f.payload|);
    Le32RoundTrip(f.channel);
  }
}
