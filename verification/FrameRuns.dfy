/** Particular runs of the frame protocol: the one `publish` makes when nobody interferes,
    and one that shows a snapshot may mix two frames of different modes. */
module FrameRuns {
  import opened Bytes
  import opened DisplayLayout
  import opened FrameProtocol

  ghost predicate Reaches(c: Config, s: State, t: State) {
    exists actions: seq<Action> :: Legal(c, s, actions) && Exec(c, s, actions) == t
  }

  lemma StepReaches(c: Config, s: State, a: Action)
    requires Enabled(c, s, a)
    ensures Reaches(c, s, Apply(c, s, a))
  {
    var t := Apply(c, s, a);
    assert [a][1..] == [];
    assert Legal(c, t, []) && Exec(c, t, []) == t;
    assert Legal(c, s, [a]);
    assert Exec(c, s, [a]) == Exec(c, t, [a][1..]);
  }

  lemma {:induction false} ExecThen(c: Config, s: State, first: seq<Action>, then_: seq<Action>)
    requires Legal(c, s, first) && Legal(c, Exec(c, s, first), then_)
    ensures Legal(c, s, first + then_)
    ensures Exec(c, s, first + then_) == Exec(c, Exec(c, s, first), then_)
    decreases |first|
  {
    if first == [] {
      assert first + then_ == then_;
    } else {
      ExecThen(c, Apply(c, s, first[0]), first[1..], then_);
      assert (first + then_)[1..] == first[1..] + then_;
    }
  }

  lemma ReachesThen(c: Config, s: State, t: State, u: State)
    requires Reaches(c, s, t) && Reaches(c, t, u)
    ensures Reaches(c, s, u)
  {
    var first: seq<Action> :| Legal(c, s, first) && Exec(c, s, first) == t;
    var then_: seq<Action> :| Legal(c, t, then_) && Exec(c, t, then_) == u;
    ExecThen(c, s, first, then_);
  }

  lemma StepThen(c: Config, s: State, t: State, a: Action)
    requires Reaches(c, s, t) && Enabled(c, t, a)
    ensures Reaches(c, s, Apply(c, t, a))
  {
    StepReaches(c, t, a);
    ReachesThen(c, s, t, Apply(c, t, a));
  }

  /** The buffers once the frame's pixels are copied into buffer `next`. */
  function Filled(buffers: seq<seq<byte>>, next: nat, pixels: seq<byte>): seq<seq<byte>>
    requires next < |buffers| && |pixels| <= |buffers[next]|
  {
    buffers[next := pixels + buffers[next][|pixels|..]]
  }

  lemma {:induction false} CopyRest(c: Config, s: State, k: nat) returns (t: State)
    requires s.publisher.Copying? && s.publisher.next < |s.buffers|
    requires k <= |s.publisher.frame.pixels| <= |s.buffers[s.publisher.next]|
    requires s.buffers[s.publisher.next][..k] == s.publisher.frame.pixels[..k]
    requires forall i | 0 <= i < k :: i in s.publisher.done
    ensures Reaches(c, s, t) && Enabled(c, t, CopyDone)
    ensures t == s.(buffers := Filled(s.buffers, s.publisher.next, s.publisher.frame.pixels), publisher := t.publisher)
    ensures t.publisher == s.publisher.(done := t.publisher.done)
    decreases |s.publisher.frame.pixels| - k
  {
    var p := s.publisher;
    if k == |p.frame.pixels| {
      assert Legal(c, s, []) && Exec(c, s, []) == s;
      assert s.buffers[p.next] == p.frame.pixels + s.buffers[p.next][k..];
      assert s.buffers == Filled(s.buffers, p.next, p.frame.pixels);
      t := s;
    } else {
      var s1 := Apply(c, s, CopyByte(k));
      StepReaches(c, s, CopyByte(k));
      assert s1.buffers[p.next][..k + 1] == p.frame.pixels[..k + 1];
      t := CopyRest(c, s1, k + 1);
      ReachesThen(c, s, s1, t);
      assert Filled(s1.buffers, p.next, p.frame.pixels) == Filled(s.buffers, p.next, p.frame.pixels);
    }
  }

  /** The words after the first `k` of the header sequence are written. */
  function Headed(words: seq<u32>, f: Frame, next: nat, k: nat): seq<nat>
    requires |words| == WORDS && k <= 9
  {
    seq(WORDS, i requires 0 <= i < WORDS =>
      if Written(Heading(f, next, k), i) then FieldOf(f, next, i) else words[i])
  }

  lemma {:induction false} WriteWords(c: Config, s: State, k: nat) returns (t: State)
    requires s.publisher.Heading? && s.publisher.written == 0 && |s.words| == WORDS && k <= 9
    requires s.publisher.frame.pitch < U32_SPAN && s.publisher.frame.width < U32_SPAN
    requires s.publisher.frame.height < U32_SPAN && s.publisher.next < BUFFERS
    ensures Reaches(c, s, t) && t.publisher == s.publisher.(written := k)
    ensures t == s.(words := t.words, publisher := t.publisher) && |t.words| == WORDS
    ensures t.words == Headed(s.words, s.publisher.frame, s.publisher.next, k)
    decreases k
  {
    var p := s.publisher;
    if k == 0 {
      assert Legal(c, s, []) && Exec(c, s, []) == s;
      t := s;
    } else {
      var t0 := WriteWords(c, s, k - 1);
      StepThen(c, s, t0, WriteWord);
      t := Apply(c, t0, WriteWord);
      assert t.words == Headed(s.words, p.frame, p.next, k);
    }
  }

  /** What a whole publication does to the header words and the buffers: the next buffer gets
      the pixels, every frame word its new value, and the sequence word goes up by one. */
  function PublishedWords(words: seq<u32>, f: Frame): (w: seq<nat>)
    requires |words| == WORDS
  {
    Headed(words, f, (words[INDEX] + 1) % BUFFERS, 9)[SEQ := (words[SEQ] + 1) % U32_SPAN]
  }

  /** A publication nobody interrupts, run step by step, is the one-shot update. */
  lemma UninterruptedPublication(c: Config, s: State, f: Frame) returns (t: State)
    requires Inv(c, s) && Enabled(c, s, Begin(f))
    ensures Reaches(c, s, t) && t.publisher == Idle && t.reader == s.reader
    ensures |t.words| == WORDS && t.words == PublishedWords(s.words, f)
    ensures t.buffers == Filled(s.buffers, (s.words[INDEX] + 1) % BUFFERS, f.pixels)
    ensures t.history == s.history + [f]
  {
    var s1 := Apply(c, s, Begin(f));
    StepReaches(c, s, Begin(f));
    var s2 := CopyRest(c, s1, 0);
    ReachesThen(c, s, s1, s2);
    StepThen(c, s, s2, CopyDone);
    var s3 := Apply(c, s2, CopyDone);
    var s4 := WriteWords(c, s3, 9);
    ReachesThen(c, s, s3, s4);
    StepThen(c, s, s4, Bump);
    t := Apply(c, s4, Bump);
  }

  // A snapshot across a mode change.

  lemma {:induction false} ReadWords(c: Config, s: State, k: nat) returns (t: State)
    requires s.reader.Header? && |s.words| == WORDS && k <= WORDS && s.reader.seen == map[]
    ensures Reaches(c, s, t) && t.reader.Header? && t == s.(reader := t.reader)
    ensures t.reader.attempt == s.reader.attempt && t.reader.before == s.reader.before
    ensures t.reader.since == s.reader.since
    ensures forall i: nat :: i in t.reader.seen <==> i < k
    ensures forall i | 0 <= i < k :: t.reader.seen[i] == s.words[i]
    decreases k
  {
    if k == 0 {
      assert Legal(c, s, []) && Exec(c, s, []) == s;
      t := s;
    } else {
      var t0 := ReadWords(c, s, k - 1);
      StepThen(c, s, t0, ReadWord(k - 1));
      t := Apply(c, t0, ReadWord(k - 1));
    }
  }

  lemma {:induction false} ReadBytes(c: Config, s: State, k: nat) returns (t: State)
    requires s.reader.Pixels? && k <= s.reader.size && s.reader.got == map[] && INDEX in s.reader.seen
    requires s.reader.seen[INDEX] < |s.buffers| && s.reader.size <= |s.buffers[s.reader.seen[INDEX]]|
    ensures Reaches(c, s, t) && t.reader.Pixels? && t == s.(reader := t.reader)
    ensures t.reader == Pixels(s.reader.attempt, s.reader.before, s.reader.live, s.reader.seen, s.reader.size,
                               t.reader.got, s.reader.since)
    ensures forall i: nat :: i in t.reader.got <==> i < k
    decreases k
  {
    if k == 0 {
      assert Legal(c, s, []) && Exec(c, s, []) == s;
      t := s;
    } else {
      var t0 := ReadBytes(c, s, k - 1);
      StepThen(c, s, t0, ReadByte(k - 1));
      t := Apply(c, t0, ReadByte(k - 1));
    }
  }

  /** The publisher has copied `g` and written its dimensions but not its index. */
  lemma HalfHeaded(c: Config, s: State, g: Frame) returns (t: State)
    requires Init(c, s) && Enabled(c, s, Begin(g))
    ensures Reaches(c, s, t) && t.publisher == Heading(g, (c.index0 + 1) % BUFFERS, 3)
    ensures t.reader == Start(0) && t.history == s.history
    ensures |t.words| == WORDS && t.words == Headed(s.words, g, (c.index0 + 1) % BUFFERS, 3)
    ensures t.buffers == Filled(s.buffers, (c.index0 + 1) % BUFFERS, g.pixels)
  {
    var s1 := Apply(c, s, Begin(g));
    StepReaches(c, s, Begin(g));
    var s2 := CopyRest(c, s1, 0);
    ReachesThen(c, s, s1, s2);
    StepThen(c, s, s2, CopyDone);
    var s3 := Apply(c, s2, CopyDone);
    t := WriteWords(c, s3, 3);
    ReachesThen(c, s, s3, t);
  }

  /** The words point at a buffer, and pixels of their pitch and height fit it. */
  predicate Fitting(c: Config, words: seq<u32>) {
    && |words| == WORDS && c.layout.BuffersFit(c.layout.size)
    && words[INDEX] < BUFFERS && (words[PITCH] as int) * (words[HEIGHT] as int) <= c.layout.bufferStride
  }

  lemma CheckPasses(c: Config, s: State, words: seq<u32>)
    requires s.reader.Header? && Fitting(c, words)
    requires forall i | 0 <= i < WORDS :: i in s.reader.seen && s.reader.seen[i] == words[i]
    ensures Enabled(c, s, Check(true)) && Wanted(true, s.reader.seen) <= c.layout.bufferStride
    ensures var r := s.reader;
            Apply(c, s, Check(true))
            == s.(reader := Pixels(r.attempt, r.before, true, r.seen, Wanted(true, r.seen), map[], r.since))
  {
    OutsideIffTooLong(c.layout, words[INDEX], FrameBytes(s.reader.seen));
  }

  /** A reader that starts in a half-headed state is done before the index word changes. */
  lemma ReadThrough(c: Config, s: State) returns (t: State)
    requires s.reader == Start(0) && |s.words| == WORDS && |s.buffers| == BUFFERS && 0 < |s.history|
    requires forall b | 0 <= b < BUFFERS :: |s.buffers[b]| == c.layout.bufferStride
    requires Fitting(c, s.words)
    ensures Reaches(c, s, t) && t.reader.Accepted? && t == s.(reader := t.reader)
    ensures t.reader.since == t.reader.until == s.Completed()
    ensures forall i | 0 <= i < WORDS :: i in t.reader.seen && t.reader.seen[i] == s.words[i]
    ensures t.reader.live && |t.reader.bytes| == Wanted(true, t.reader.seen)
  {
    var s1 := Apply(c, s, ReadSeq);
    StepReaches(c, s, ReadSeq);
    var s2 := ReadWords(c, s1, WORDS);
    ReachesThen(c, s, s1, s2);
    CheckPasses(c, s2, s.words);
    StepThen(c, s, s2, Check(true));
    var s3 := Apply(c, s2, Check(true));
    var s4 := ReadBytes(c, s3, s3.reader.size);
    ReachesThen(c, s, s3, s4);
    StepThen(c, s, s4, Recheck);
    t := Apply(c, s4, Recheck);
  }

  /** Whatever the modes of two frames, if they differ there is a run that accepts a snapshot, of a
      driver that is up, whose header tuple mixes them. */
  lemma MixedSnapshot(c: Config, s: State, g: Frame) returns (t: State)
    requires Init(c, s) && Enabled(c, s, Begin(g)) && !SameMode(s.history[0], g)
    ensures Reaches(c, s, t) && t.reader.Accepted? && t.reader.live && t.reader.since == t.reader.until == 0
    ensures t.history == s.history && t.HasFrame(1) && t.FrameNo(1) == g
    ensures forall i | 0 <= i < WORDS :: i in t.reader.seen
    ensures !Coherent(c, t)
  {
    var h := HalfHeaded(c, s, g);
    t := ReadThrough(c, h);
    ReachesThen(c, s, h, t);
    assert t.reader.seen[INDEX] == c.Slot(0);
    assert t.reader.seen[WIDTH] == g.width && t.reader.seen[HEIGHT] == g.height;
  }

  ghost predicate AlwaysCoherent(c: Config, s0: State, g: Frame) {
    forall t ::
      Reaches(c, s0, t) && t.reader.Accepted? && t.reader.since == t.reader.until == 0
      && (t.HasFrame(1) ==> t.FrameNo(1) == g) && 0 < |t.history|
      && (forall i | 0 <= i < WORDS :: i in t.reader.seen)
      ==> Coherent(c, t)
  }

  /** Snapshots taken around the publication of `g` are coherent in every interleaving
      exactly when `g` has the mode of the frame before it. */
  lemma CoherentIffSameMode(c: Config, s0: State, g: Frame)
    requires Init(c, s0) && Enabled(c, s0, Begin(g))
    ensures AlwaysCoherent(c, s0, g) <==> SameMode(s0.history[0], g)
  {
    if SameMode(s0.history[0], g) {
      forall t | Reaches(c, s0, t) && t.reader.Accepted? && t.reader.since == t.reader.until == 0
                 && (t.HasFrame(1) ==> t.FrameNo(1) == g) && 0 < |t.history|
                 && (forall i | 0 <= i < WORDS :: i in t.reader.seen)
        ensures Coherent(c, t)
      {
        var actions: seq<Action> :| Legal(c, s0, actions) && Exec(c, s0, actions) == t;
        Snapshot(c, s0, actions);
        HistoryGrows(c, s0, actions);
      }
    } else {
      var t := MixedSnapshot(c, s0, g);
    }
  }

  lemma InvReached(c: Config, s: State, t: State)
    requires Inv(c, s) && Reaches(c, s, t)
    ensures Inv(c, t)
  {
    var actions: seq<Action> :| Legal(c, s, actions) && Exec(c, s, actions) == t;
    RunKeepsInv(c, s, actions);
  }

  /** The header words of the last frame, while none is being published, and what they make of it. */
  lemma IdleHeader(c: Config, s: State)
    requires Inv(c, s) && s.publisher.Idle?
    ensures var f := s.history[s.Completed()];
            && s.words[1] == c.Slot(s.Completed()) < 3 && s.words[2] == f.width && s.words[3] == f.height
            && s.words[4] == f.width * 4 && Fitting(c, s.words)
  {
    SlotBelow(c, s.Completed());
    assert forall i | INDEX <= i <= FORMAT :: s.words[i] == CurrentField(c, s, i);
  }

  /** A reader nobody disturbs gets the header and exactly the pixels of the frame published last, if
      the driver is up and the frame has at most 3840 by 2160 pixels, and no pixels beyond that. */
  lemma UndisturbedSnapshot(c: Config, s: State) returns (t: State)
    requires Inv(c, s) && s.publisher.Idle? && s.reader == Start(0)
    ensures Reaches(c, s, t) && t.reader.Accepted? && t.reader.live && t == s.(reader := t.reader)
    ensures forall i | 0 <= i < WORDS :: i in t.reader.seen && t.reader.seen[i] == s.words[i]
    ensures var f := s.history[s.Completed()];
            t.reader.bytes == if 0 < f.width <= 3840 && 0 < f.height <= 2160 then f.pixels else []
  {
    IdleHeader(c, s);
    t := ReadThrough(c, s);
    InvReached(c, s, t);
    AcceptedIsFaithful(c, t);
  }

  lemma {:induction false} HistoryGrows(c: Config, s: State, actions: seq<Action>)
    requires Legal(c, s, actions)
    ensures s.history <= Exec(c, s, actions).history
    decreases |actions|
  {
    if actions == [] {
    } else {
      HistoryGrows(c, Apply(c, s, actions[0]), actions[1..]);
    }
  }

  // A reader that is outrun.

  /** An attempt up to its second look at the sequence, of a driver that is not up. */
  lemma ReadOnce(c: Config, s: State, a: nat) returns (t: State)
    requires Inv(c, s) && s.reader == Start(a)
    ensures Reaches(c, s, t) && Inv(c, t) && t == s.(reader := t.reader)
    ensures t.reader.Pixels? && t.reader.attempt == a && t.reader.before == s.words[SEQ] && t.reader.size == 0
  {
    var s1 := Apply(c, s, ReadSeq);
    StepReaches(c, s, ReadSeq);
    var s2 := ReadWords(c, s1, WORDS);
    ReachesThen(c, s, s1, s2);
    StepThen(c, s, s2, Check(false));
    t := Apply(c, s2, Check(false));
    InvReached(c, s, t);
  }

  lemma SequenceMoves(c: Config, s: State, f: Frame) returns (t: State)
    requires Inv(c, s) && Enabled(c, s, Begin(f))
    ensures Reaches(c, s, t) && t.publisher == Idle && t.reader == s.reader && t.history == s.history + [f]
    ensures |t.words| == WORDS && t.words[SEQ] != s.words[SEQ]
  {
    t := UninterruptedPublication(c, s, f);
  }

  /** A publication between the two looks costs the attempt. */
  lemma LostAttempt(c: Config, s: State, f: Frame, a: nat) returns (t: State)
    requires Inv(c, s) && Enabled(c, s, Begin(f)) && s.reader == Start(a)
    ensures Reaches(c, s, t) && Inv(c, t) && t.publisher == Idle && t.history == s.history + [f]
    ensures t.reader == if a < 19 then Start(a + 1) else GaveUp
  {
    var r := ReadOnce(c, s, a);
    var u := SequenceMoves(c, r, f);
    ReachesThen(c, s, r, u);
    StepThen(c, s, u, Recheck);
    t := Apply(c, u, Recheck);
    InvReached(c, s, t);
  }

  lemma BeginAgain(c: Config, s: State, t: State, f: Frame)
    requires Enabled(c, s, Begin(f)) && Inv(c, t) && t.publisher.Idle?
    ensures Enabled(c, t, Begin(f))
  {
    IdleHeader(c, t);
  }

  lemma {:induction false} LostAttempts(c: Config, s: State, f: Frame, n: nat) returns (t: State)
    requires Init(c, s) && Enabled(c, s, Begin(f)) && n <= 20
    ensures Reaches(c, s, t) && Inv(c, t) && t.publisher == Idle && |t.history| == |s.history| + n
    ensures t.reader == if n < 20 then Start(n) else GaveUp
    decreases n
  {
    if n == 0 {
      InitEstablishesInv(c, s);
      assert Legal(c, s, []) && Exec(c, s, []) == s;
      t := s;
    } else {
      var t0 := LostAttempts(c, s, f, n - 1);
      BeginAgain(c, s, t0, f);
      t := LostAttempt(c, t0, f, n - 1);
      ReachesThen(c, s, t0, t);
    }
  }

  /** Twenty publications are enough to make a reader give up (and none fewer are). */
  lemma TwentyOutrun(c: Config, s: State, f: Frame) returns (t: State)
    requires Init(c, s) && Enabled(c, s, Begin(f))
    ensures Reaches(c, s, t) && t.reader.GaveUp? && |t.history| == |s.history| + 20
  {
    t := LostAttempts(c, s, f, 20);
  }
}
