/** The network peer's frames: the Internet checksum, the UDP frame builder and its reader, and
    the length-prefixed stream they travel in. */
module Netpeer {
  import opened Bytes

  const ETH := 14
  const IP := 20
  const UDP := 8
  const HEADERS := 42
  const MAX_FRAME := 65536 + 14 + 4

  // The checksum (section 1 of RFC 1071).

  function WordAt(s: seq<byte>, k: nat): (w: nat)
    requires 2 * k + 2 <= |s|
  {
    0x100 * (s[2 * k] as int) + s[2 * k + 1] as int
  }

  /** The sum of the first `n` 16-bit words. */
  function SumWords(s: seq<byte>, n: nat): (sum: nat)
    requires 2 * n <= |s|
  {
    if n == 0 then 0 else SumWords(s, n - 1) + WordAt(s, n - 1)
  }

  /** All words, an odd last byte padded with zero. */
  function WordSum(s: seq<byte>): (sum: nat) {
    SumWords(s, |s| / 2) + if |s| % 2 == 1 then 0x100 * (s[|s| - 1] as int) else 0
  }

  /** Carries folded back in until 16 bits remain. */
  function Fold(n: nat): (f: nat)
    ensures f < U16_SPAN
  {
    if n < U16_SPAN then n else Fold(n % U16_SPAN + n / U16_SPAN)
  }

  /** The accumulator has 32 bits. */
  function ChecksumOf(s: seq<byte>): (c: u16) { 0xffff - Fold(WordSum(s) % U32_SPAN) }

  method SumUp(data: array<byte>, from: nat, len: nat) returns (sum: nat)
    requires from + len <= data.Length
    ensures sum == WordSum(data[from..from + len]) % U32_SPAN
  {
    ghost var s := data[from..from + len];
    sum := 0;
    var k := 0;
    while 2 * k + 1 < len
      invariant 0 <= 2 * k <= len
      invariant sum == SumWords(s, k) % U32_SPAN
    {
      var word := 0x100 * (data[from + 2 * k] as int) + data[from + 2 * k + 1] as int;
      assert word == WordAt(s, k);
      AddWrapped(SumWords(s, k), word);
      sum := (sum + word) % U32_SPAN;
      k := k + 1;
    }
    assert k == len / 2;
    if len % 2 == 1 {
      var last := 0x100 * (data[from + len - 1] as int);
      AddWrapped(SumWords(s, k), last);
      sum := (sum + last) % U32_SPAN;
    }
  }

  lemma AddWrapped(a: nat, b: nat)
    ensures (a % U32_SPAN + b) % U32_SPAN == (a + b) % U32_SPAN
  {
  }

  method FoldDown(n: nat) returns (sum: nat)
    ensures sum == Fold(n)
  {
    sum := n;
    while sum / U16_SPAN != 0
      invariant Fold(sum) == Fold(n)
      decreases sum
    {
      sum := sum % U16_SPAN + sum / U16_SPAN;
    }
  }

  method Checksum(data: array<byte>, from: nat, len: nat) returns (c: u16)
    requires from + len <= data.Length
    ensures c == ChecksumOf(data[from..from + len])
  {
    var sum := SumUp(data, from, len);
    sum := FoldDown(sum);
    c := 0xffff - sum;
  }

  /** Folding keeps the value in ones-complement arithmetic, and gives zero only for zero. */
  lemma {:induction false} FoldIsModular(n: nat)
    ensures Fold(n) % 0xffff == n % 0xffff
    ensures Fold(n) == 0 <==> n == 0
    decreases n
  {
    if U16_SPAN <= n {
      var m := n % U16_SPAN + n / U16_SPAN;
      FoldIsModular(m);
      assert n == m + 0xffff * (n / U16_SPAN);
      ModShift(m, n / U16_SPAN);
    }
  }

  lemma ModShift(m: nat, k: nat)
    ensures (m + 0xffff * k) % 0xffff == m % 0xffff
  {
  }

  /** The same bytes with a word stored at word position `k`. */
  function WithWord(s: seq<byte>, k: nat, v: u16): (r: seq<byte>)
    requires 2 * k + 2 <= |s|
    ensures |r| == |s|
  {
    s[2 * k := v / 0x100][2 * k + 1 := v % 0x100]
  }

  lemma {:induction false} SumWithWord(s: seq<byte>, k: nat, v: u16, n: nat)
    requires 2 * k + 2 <= |s| && 2 * n <= |s| && s[2 * k] == 0 && s[2 * k + 1] == 0
    ensures SumWords(WithWord(s, k, v), n) == SumWords(s, n) + if k < n then v else 0
    decreases n
  {
    if n != 0 {
      SumWithWord(s, k, v, n - 1);
      var t := WithWord(s, k, v);
      if n - 1 == k {
        assert WordAt(t, k) == v && WordAt(s, k) == 0;
      } else {
        assert t[2 * (n - 1)] == s[2 * (n - 1)] && t[2 * (n - 1) + 1] == s[2 * (n - 1) + 1];
      }
    }
  }

  lemma Complement(n: nat, f: nat)
    requires f <= 0xffff && f % 0xffff == n % 0xffff
    ensures (n + (0xffff - f)) % 0xffff == 0
  {
  }

  /** Adding the complement of the folded sum folds to all ones. */
  lemma FoldComplement(n: nat)
    ensures Fold(n + (0xffff - Fold(n))) == 0xffff
  {
    FoldIsModular(n);
    Complement(n, Fold(n));
    var m := n + (0xffff - Fold(n));
    FoldIsModular(m);
    AllOnes(Fold(m));
  }

  lemma AllOnes(f: nat)
    requires f % 0xffff == 0 && 0 < f <= 0xffff
    ensures f == 0xffff
  {
  }

  /** Storing the checksum in a field that was zero adds it to the sum, odd lengths included. */
  lemma WordSumWithWord(s: seq<byte>, k: nat, v: u16)
    requires 2 * k + 2 <= |s| && s[2 * k] == 0 && s[2 * k + 1] == 0
    ensures WordSum(WithWord(s, k, v)) == WordSum(s) + v
  {
    SumWithWord(s, k, v, |s| / 2);
  }

  /** The accumulator's largest value is a multiple of 65535, so the next multiple after a sum that
      fits it fits it too: storing the checksum never carries out. */
  lemma ComplementFits(n: nat, f: nat)
    requires n < U32_SPAN && f == Fold(n)
    ensures n + (0xffff - f) < U32_SPAN
  {
    FoldIsModular(n);
    Complement(n, f);
    NextMultiple(n + (0xffff - f));
  }

  lemma NextMultiple(m: nat)
    requires m % 0xffff == 0 && m < U32_SPAN - 1 + 0xffff
    ensures m < U32_SPAN
  {
    assert U32_SPAN - 1 == 0xffff * 0x1_0001;
    var q := m / 0xffff;
    assert m == 0xffff * q;
  }

  lemma WrappedComplement(sum: nat, n: nat, c: nat)
    requires n == sum % U32_SPAN && c == 0xffff - Fold(n)
    ensures Fold((sum + c) % U32_SPAN) == 0xffff
  {
    AddWrapped(sum, c);
    ComplementFits(n, Fold(n));
    Unwrapped(n + c);
    FoldComplement(n);
  }

  lemma Unwrapped(m: nat)
    requires m < U32_SPAN
    ensures m % U32_SPAN == m
  {
  }

  /** Bytes of any length that carry their own checksum, computed with that field zero, check to
      zero, also where the accumulator has wrapped around. */
  lemma ChecksumVerifies(s: seq<byte>, k: nat)
    requires 2 * k + 2 <= |s| && s[2 * k] == 0 && s[2 * k + 1] == 0
    ensures ChecksumOf(WithWord(s, k, ChecksumOf(s))) == 0
  {
    WordSumWithWord(s, k, ChecksumOf(s));
    WrappedComplement(WordSum(s), WordSum(s) % U32_SPAN, ChecksumOf(s));
  }

  // The UDP frame.

  datatype Udp = Udp(dst: seq<byte>, src: seq<byte>, srcIp: u32, dstIp: u32, port: u16, id: u16,
                     payload: nat, fill: byte)
  {
    predicate Valid() { |dst| == 6 && |src| == 6 }

    function Total(): nat { IP + UDP + payload }
  }

  /** Byte `i` of the IPv4 header (section 3.1 of RFC 791) with checksum `c`. */
  function IpAt(p: Udp, c: u16, i: nat): (b: byte) {
    if i == 0 then 0x45
    else if i == 2 then High(p.Total()) else if i == 3 then Low(p.Total())
    else if i == 4 then High(p.id) else if i == 5 then Low(p.id)
    else if i == 6 then 0x40 else if i == 8 then 64 else if i == 9 then 17
    else if i == 10 then High(c) else if i == 11 then Low(c)
    else if i == 12 then p.srcIp / 0x100_0000 else if i == 13 then p.srcIp / 0x1_0000 % 0x100
    else if i == 14 then High(p.srcIp) else if i == 15 then Low(p.srcIp)
    else if i == 16 then p.dstIp / 0x100_0000 else if i == 17 then p.dstIp / 0x1_0000 % 0x100
    else if i == 18 then High(p.dstIp) else if i == 19 then Low(p.dstIp)
    else 0
  }

  function IpHeader(p: Udp, c: u16): (s: seq<byte>)
    ensures |s| == IP
  {
    seq(IP, i requires 0 <= i => IpAt(p, c, i))
  }

  function UdpAt(p: Udp, i: nat): (b: byte) {
    if i == 0 || i == 2 then High(p.port) else if i == 1 || i == 3 then Low(p.port)
    else if i == 4 then High(UDP + p.payload) else if i == 5 then Low(UDP + p.payload)
    else 0
  }

  function EthAt(p: Udp, i: nat): (b: byte)
    requires p.Valid()
  {
    if i < 6 then p.dst[i] else if i < 12 then p.src[i - 6] else if i == 12 then 0x08 else 0
  }

  function FrameAt(p: Udp, c: u16, i: nat): (b: byte)
    requires p.Valid()
  {
    if i < ETH then EthAt(p, i)
    else if i < ETH + IP then IpAt(p, c, i - ETH)
    else if i < HEADERS then UdpAt(p, i - ETH - IP)
    else p.fill
  }

  /** The frame, its IP header carrying its own checksum. */
  function FrameOf(p: Udp): (s: seq<byte>)
    requires p.Valid()
    ensures |s| == HEADERS + p.payload
  {
    var c := ChecksumOf(IpHeader(p, 0));
    seq(HEADERS + p.payload, i requires 0 <= i => FrameAt(p, c, i))
  }

  method PutAddresses(frame: array<byte>, p: Udp)
    requires frame.Length == HEADERS + p.payload
    modifies frame
    ensures forall i | ETH + 12 <= i < ETH + IP :: frame[i] == IpAt(p, 0, i - ETH)
    ensures forall i | 0 <= i < ETH + 12 || ETH + IP <= i < frame.Length :: frame[i] == old(frame[i])
  {
    frame[ETH + 12], frame[ETH + 13] := p.srcIp / 0x100_0000, p.srcIp / 0x1_0000 % 0x100;
    frame[ETH + 14], frame[ETH + 15] := High(p.srcIp), Low(p.srcIp);
    frame[ETH + 16], frame[ETH + 17] := p.dstIp / 0x100_0000, p.dstIp / 0x1_0000 % 0x100;
    frame[ETH + 18], frame[ETH + 19] := High(p.dstIp), Low(p.dstIp);
  }

  method PutIp(frame: array<byte>, p: Udp)
    requires frame.Length == HEADERS + p.payload
    requires forall i | ETH <= i < ETH + IP :: frame[i] == 0
    modifies frame
    ensures forall i | ETH <= i < ETH + IP :: frame[i] == IpAt(p, 0, i - ETH)
    ensures forall i | 0 <= i < ETH || ETH + IP <= i < frame.Length :: frame[i] == old(frame[i])
  {
    var total := p.Total();
    frame[ETH] := 0x45;
    frame[ETH + 2], frame[ETH + 3] := High(total), Low(total);
    frame[ETH + 4], frame[ETH + 5] := High(p.id), Low(p.id);
    frame[ETH + 6] := 0x40;
    frame[ETH + 8] := 64;
    frame[ETH + 9] := 17;
    assert forall i | ETH <= i < ETH + 12 :: frame[i] == IpAt(p, 0, i - ETH);
    PutAddresses(frame, p);
  }

  method PutEth(frame: array<byte>, p: Udp)
    requires frame.Length == HEADERS + p.payload && p.Valid()
    modifies frame
    ensures forall i | 0 <= i < ETH :: frame[i] == EthAt(p, i)
    ensures forall i | ETH <= i < HEADERS :: frame[i] == 0
  {
    for i := 0 to HEADERS
      invariant forall k | 0 <= k < i :: frame[k] == 0
    {
      frame[i] := 0;
    }
    for i := 0 to 6
      invariant forall k | 0 <= k < i :: frame[k] == p.dst[k]
      invariant forall k | 6 <= k < 6 + i :: frame[k] == p.src[k - 6]
      invariant forall k | 12 <= k < HEADERS :: frame[k] == 0
    {
      frame[i], frame[6 + i] := p.dst[i], p.src[i];
    }
    frame[12] := 0x08;
    frame[13] := 0x00;
  }

  method BuildUdpFrame(frame: array<byte>, p: Udp)
    requires frame.Length == HEADERS + p.payload && p.Valid()
    modifies frame
    ensures frame[..] == FrameOf(p)
  {
    PutEth(frame, p);
    PutIp(frame, p);
    var c := Checksum(frame, ETH, IP);
    assert frame[ETH..ETH + IP] == IpHeader(p, 0);
    frame[ETH + 10], frame[ETH + 11] := High(c), Low(c);
    PutUdp(frame, p);
  }

  method PutUdp(frame: array<byte>, p: Udp)
    requires frame.Length == HEADERS + p.payload
    requires forall i | ETH + IP <= i < HEADERS :: frame[i] == 0
    modifies frame
    ensures forall i | ETH + IP <= i < HEADERS :: frame[i] == UdpAt(p, i - ETH - IP)
    ensures forall i | HEADERS <= i < frame.Length :: frame[i] == p.fill
    ensures forall i | 0 <= i < ETH + IP :: frame[i] == old(frame[i])
  {
    frame[34], frame[35] := High(p.port), Low(p.port);
    frame[36], frame[37] := High(p.port), Low(p.port);
    frame[38], frame[39] := High(UDP + p.payload), Low(UDP + p.payload);
    for i := HEADERS to frame.Length
      invariant forall k | HEADERS <= k < i :: frame[k] == p.fill
      invariant forall k | ETH + IP <= k < HEADERS :: frame[k] == UdpAt(p, k - ETH - IP)
      invariant forall k | 0 <= k < ETH + IP :: frame[k] == old(frame[k])
    {
      frame[i] := p.fill;
    }
  }

  /** The payload length of an IPv4 UDP frame, or -1. */
  function UdpPayloadLen(s: seq<byte>): (n: int) {
    if |s| < HEADERS || s[12] != 0x08 || s[13] != 0x00 || s[ETH + 9] != 17 then -1
    else
      var total := 0x100 * (s[ETH + 2] as int) + s[ETH + 3] as int;
      if total < IP + UDP || ETH + total > |s| then -1 else total - IP - UDP
  }

  /** Every built frame's IP header checks to zero. */
  lemma HeaderVerifies(p: Udp)
    requires p.Valid()
    ensures ChecksumOf(FrameOf(p)[ETH..ETH + IP]) == 0
  {
    var c, blank := ChecksumOf(IpHeader(p, 0)), IpHeader(p, 0);
    assert blank[10] == 0 && blank[11] == 0;
    assert FrameOf(p)[ETH..ETH + IP] == WithWord(blank, 5, c);
    ChecksumVerifies(blank, 5);
  }

  /** The reader recovers the payload length exactly when it is at most 65507. */
  lemma PayloadRecoveredIff(p: Udp)
    requires p.Valid()
    ensures UdpPayloadLen(FrameOf(p)) == p.payload <==> p.payload <= 65507
  {
    var s := FrameOf(p);
    assert s[12] == 0x08 && s[13] == 0 && s[ETH + 9] == 17;
    assert s[ETH + 2] == High(p.Total()) && s[ETH + 3] == Low(p.Total());
  }

  // The framed stream.

  function SendFrame(frame: seq<byte>): (s: seq<byte>)
    requires |frame| < U32_SPAN
  {
    Be32(|frame|) + frame
  }

  /** The frames the reader takes off the stream until it ends or a length exceeds the cap. */
  function ReceiveFrames(s: seq<byte>): (frames: seq<seq<byte>>)
    decreases |s|
  {
    if |s| < 4 then []
    else
      var n := BeValue(s[..4]);
      if MAX_FRAME < n || |s| - 4 < n then [] else [s[4..4 + n]] + ReceiveFrames(s[4 + n..])
  }

  function SendAll(frames: seq<seq<byte>>): (s: seq<byte>)
    requires forall i | 0 <= i < |frames| :: |frames[i]| < U32_SPAN
  {
    if frames == [] then [] else SendFrame(frames[0]) + SendAll(frames[1..])
  }

  /** What was sent arrives up to the first frame longer than the cap, which ends the stream. */
  function Accepted(frames: seq<seq<byte>>): (a: seq<seq<byte>>) {
    if frames == [] || MAX_FRAME < |frames[0]| then [] else [frames[0]] + Accepted(frames[1..])
  }

  lemma {:induction false} FramesArrive(frames: seq<seq<byte>>)
    requires forall i | 0 <= i < |frames| :: |frames[i]| < U32_SPAN
    ensures ReceiveFrames(SendAll(frames)) == Accepted(frames)
    decreases |frames|
  {
    if frames != [] {
      var s, n := SendAll(frames), |frames[0]|;
      Be32RoundTrip(n);
      assert s[..4] == Be32(n) && s[4..4 + n] == frames[0] && s[4 + n..] == SendAll(frames[1..]);
      FramesArrive(frames[1..]);
    }
  }

  /** A built frame field by field, as a reader of Ethernet, IPv4 and UDP finds them. */
  lemma FrameFields(p: Udp)
    requires p.Valid()
    ensures var s := FrameOf(p);
            && s[0..6] == p.dst && s[6..12] == p.src && BeValue(s[12..14]) == 0x0800
            && s[14] == 0x45 && s[15] == 0 && BeValue(s[16..18]) == (28 + p.payload) % U16_SPAN
            && BeValue(s[18..20]) == p.id && BeValue(s[20..22]) == 0x4000 && s[22] == 64 && s[23] == 17
            && BeValue(s[26..30]) == p.srcIp && BeValue(s[30..34]) == p.dstIp
            && BeValue(s[34..36]) == p.port && BeValue(s[36..38]) == p.port
            && BeValue(s[38..40]) == (8 + p.payload) % U16_SPAN && BeValue(s[40..42]) == 0
            && forall i | 42 <= i < |s| :: s[i] == p.fill
  {
    EthFields(p);
    IpFields(p, FrameOf(p));
    UdpFields(p, FrameOf(p));
  }

  lemma Word(s: seq<byte>, at: nat, v: nat)
    requires at + 2 <= |s| && s[at] == High(v) && s[at + 1] == Low(v)
    ensures BeValue(s[at..at + 2]) == v % U16_SPAN
  {
    Be16Is(s[at..at + 2]);
  }

  lemma TwoShifts(v: u32)
    ensures v / 0x1_0000 / 0x100 == v / 0x100_0000 && v / 0x1_0000 < U16_SPAN
    ensures v == 0x1_0000 * (v / 0x1_0000) + v % 0x1_0000
  {
  }

  lemma Address(s: seq<byte>, at: nat, v: u32)
    requires at + 4 <= |s| && s[at] == v / 0x100_0000 && s[at + 1] == v / 0x1_0000 % 0x100
    requires s[at + 2] == High(v) && s[at + 3] == Low(v)
    ensures BeValue(s[at..at + 4]) == v
  {
    TwoShifts(v);
    TwoWords(s, at);
    Word(s, at, v / 0x1_0000);
    Word(s, at + 2, v);
  }

  lemma TwoWords(s: seq<byte>, at: nat)
    requires at + 4 <= |s|
    ensures BeValue(s[at..at + 4]) == 0x1_0000 * BeValue(s[at..at + 2]) + BeValue(s[at + 2..at + 4])
  {
    Be32Is(s[at..at + 4]);
    Be16Is(s[at..at + 2]);
    Be16Is(s[at + 2..at + 4]);
  }

  lemma EthFields(p: Udp)
    requires p.Valid()
    ensures FrameOf(p)[0..6] == p.dst && FrameOf(p)[6..12] == p.src && BeValue(FrameOf(p)[12..14]) == 0x0800
  {
    Word(FrameOf(p), 12, 0x0800);
  }

  lemma IpFields(p: Udp, s: seq<byte>)
    requires HEADERS <= |s| && forall i: nat | i < 10 || 12 <= i < IP :: s[14 + i] == IpAt(p, 0, i)
    ensures s[14] == 0x45 && s[15] == 0 && BeValue(s[16..18]) == (28 + p.payload) % U16_SPAN
    ensures BeValue(s[18..20]) == p.id && BeValue(s[20..22]) == 0x4000 && s[22] == 64 && s[23] == 17
    ensures BeValue(s[26..30]) == p.srcIp && BeValue(s[30..34]) == p.dstIp
  {
    assert s[14] == IpAt(p, 0, 0) && s[15] == IpAt(p, 0, 1) && s[22] == IpAt(p, 0, 8) && s[23] == IpAt(p, 0, 9);
    IpWord(p, s, 2, 28 + p.payload);
    IpWord(p, s, 4, p.id);
    IpWord(p, s, 6, 0x4000);
    IpAddress(p, s, 12, p.srcIp);
    IpAddress(p, s, 16, p.dstIp);
  }

  lemma IpWord(p: Udp, s: seq<byte>, i: nat, v: nat)
    requires i < 9 && HEADERS <= |s| && s[14 + i] == IpAt(p, 0, i) && s[14 + i + 1] == IpAt(p, 0, i + 1)
    requires IpAt(p, 0, i) == High(v) && IpAt(p, 0, i + 1) == Low(v)
    ensures BeValue(s[14 + i..14 + i + 2]) == v % U16_SPAN
  {
    Word(s, 14 + i, v);
  }

  lemma IpAddress(p: Udp, s: seq<byte>, i: nat, v: u32)
    requires (i == 12 && v == p.srcIp) || (i == 16 && v == p.dstIp)
    requires HEADERS <= |s| && forall k: nat | i <= k < i + 4 :: s[14 + k] == IpAt(p, 0, k)
    ensures BeValue(s[14 + i..14 + i + 4]) == v
  {
    assert s[14 + i] == IpAt(p, 0, i) && s[14 + (i + 1)] == IpAt(p, 0, i + 1);
    assert s[14 + (i + 2)] == IpAt(p, 0, i + 2) && s[14 + (i + 3)] == IpAt(p, 0, i + 3);
    Address(s, 14 + i, v);
  }

  lemma UdpFields(p: Udp, s: seq<byte>)
    requires HEADERS <= |s| && forall i: nat | i < UDP :: s[34 + i] == UdpAt(p, i)
    ensures BeValue(s[34..36]) == p.port && BeValue(s[36..38]) == p.port
    ensures BeValue(s[38..40]) == (8 + p.payload) % U16_SPAN && BeValue(s[40..42]) == 0
  {
    UdpWord(p, s, 0, p.port);
    UdpWord(p, s, 2, p.port);
    UdpWord(p, s, 4, 8 + p.payload);
    UdpWord(p, s, 6, 0);
  }

  lemma UdpWord(p: Udp, s: seq<byte>, i: nat, v: nat)
    requires i < 7 && HEADERS <= |s| && forall k: nat | k < UDP :: s[34 + k] == UdpAt(p, k)
    requires UdpAt(p, i) == High(v) && UdpAt(p, i + 1) == Low(v)
    ensures BeValue(s[34 + i..34 + i + 2]) == v % U16_SPAN
  {
    assert s[34 + i] == UdpAt(p, i) && s[34 + (i + 1)] == UdpAt(p, i + 1);
    Word(s, 34 + i, v);
  }

  /** All frames arrive exactly when none is longer than 65554 bytes. */
  lemma {:induction false} ShortFramesArrive(frames: seq<seq<byte>>)
    requires forall i | 0 <= i < |frames| :: |frames[i]| < U32_SPAN
    ensures ReceiveFrames(SendAll(frames)) == frames <==> forall i | 0 <= i < |frames| :: |frames[i]| <= 65554
  {
    FramesArrive(frames);
    AllAccepted(frames);
  }

  lemma {:induction false} AllAccepted(frames: seq<seq<byte>>)
    ensures Accepted(frames) == frames <==> forall i | 0 <= i < |frames| :: |frames[i]| <= 65554
    decreases |frames|
  {
    if frames != [] {
      var rest := frames[1..];
      AllAccepted(rest);
      assert frames == [frames[0]] + rest;
      assert ([frames[0]] + Accepted(rest))[1..] == Accepted(rest);
      assert forall i | 0 <= i < |rest| :: rest[i] == frames[i + 1];
      assert forall i | 0 < i < |frames| :: frames[i] == rest[i - 1];
    }
  }
}
