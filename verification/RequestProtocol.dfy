/** The mode-request half of the VMLABDSP protocol: the host writes a width, a height and then
    a sequence word one higher; the guest's timer reads the sequence word, the dimensions and
    the sequence word again, and adopts a request whose sequence it does not hold yet. One host
    writes at a time; words are read and written whole. */
module RequestProtocol {
  import opened Bytes
  import opened DisplayLayout

  datatype Request = Request(seqNo: u32, mode: Mode)

  datatype Host =
    | Quiet
    | Requesting(mode: Mode, written: nat)

  /** `first` marks the read made when the region is opened, which is kept whatever its
      sequence. `since` counts the requests complete at the first sequence read. */
  datatype Guest =
    | Resting
    | ReadSeq(first: bool, before: u32, since: nat)
    | ReadWidth(first: bool, before: u32, since: nat, width: u32)
    | ReadBoth(first: bool, before: u32, since: nat, width: u32, height: u32)

  /** The counts of complete requests at the two sequence reads of the adopted request. */
  datatype Adoption = Never | Adopted(since: nat, until: nat)

  /** `history[k]` is request k; request 0 is what the region held at the start. */
  datatype State = State(seqNo: u32, width: u32, height: u32, history: seq<Mode>, host: Host,
                         guest: Guest, device: Request, adoption: Adoption)
  {
    function Completed(): int { |history| - 1 }

    predicate HasRequest(k: nat) { k < |history| || (k == |history| && host.Requesting?) }

    function RequestNo(k: nat): Mode
      requires HasRequest(k)
    {
      if k < |history| then history[k] else host.mode
    }
  }

  datatype Config = Config(layout: Layout, seq0: u32) {
    predicate Valid() { layout.Valid(layout.size) }

    function SeqWord(k: nat): u32 { CounterWord(seq0, k) }
  }

  /** The guest takes a request only if it is all zero or supported. */
  predicate Acceptable(layout: Layout, mode: Mode) {
    !(((mode.width == 0 || mode.height == 0) && (mode.width != 0 || mode.height != 0))
      || (mode.width != 0 && !layout.Supports(mode)))
  }

  /** The host's own check before it writes: each dimension against the maximum. */
  predicate HostSends(layout: Layout, mode: Mode) {
    0 < mode.width <= layout.maximum.width && 0 < mode.height <= layout.maximum.height
  }

  predicate Init(c: Config, s: State) {
    && c.Valid() && |s.history| == 1
    && s.seqNo == c.seq0 && s.width == s.history[0].width && s.height == s.history[0].height
    && s.host == Quiet && s.guest == Resting
    && s.device == Request(0, Mode(0, 0)) && s.adoption == Never
  }

  datatype Action =
    | Ask(mode: Mode) | WriteWidth | WriteHeight | WriteSeq
    | Tick(first: bool) | TakeWidth | TakeHeight | Finish

  predicate Enabled(c: Config, s: State, a: Action) {
    match a
    case Ask(mode) => s.host.Quiet? && HostSends(c.layout, mode)
    case WriteWidth => s.host.Requesting? && s.host.written == 0
    case WriteHeight => s.host.Requesting? && s.host.written == 1
    case WriteSeq => s.host.Requesting? && s.host.written == 2
    case Tick(_) => s.guest.Resting? && 0 < |s.history|
    case TakeWidth => s.guest.ReadSeq?
    case TakeHeight => s.guest.ReadWidth?
    case Finish => s.guest.ReadBoth? && 0 < |s.history|
  }

  function Apply(c: Config, s: State, a: Action): (s': State)
    requires Enabled(c, s, a)
  {
    match a
    case Ask(mode) => s.(host := Requesting(mode, 0))
    case WriteWidth => s.(width := s.host.mode.width, host := Requesting(s.host.mode, 1))
    case WriteHeight => s.(height := s.host.mode.height, host := Requesting(s.host.mode, 2))
    case WriteSeq =>
      s.(seqNo := (s.seqNo + 1) % U32_SPAN, history := s.history + [s.host.mode], host := Quiet)
    case Tick(first) => s.(guest := ReadSeq(first, s.seqNo, s.Completed()))
    case TakeWidth => s.(guest := ReadWidth(s.guest.first, s.guest.before, s.guest.since, s.width))
    case TakeHeight =>
      s.(guest := ReadBoth(s.guest.first, s.guest.before, s.guest.since, s.guest.width, s.height))
    case Finish =>
      var g := s.guest;
      var mode := Mode(g.width, g.height);
      if s.seqNo == g.before && Acceptable(c.layout, mode) && (g.first || g.before != s.device.seqNo)
      then s.(guest := Resting, device := Request(g.before, mode), adoption := Adopted(g.since, s.Completed()))
      else s.(guest := Resting)
  }

  predicate Legal(c: Config, s: State, actions: seq<Action>)
    decreases |actions|
  {
    actions == [] || (Enabled(c, s, actions[0]) && Legal(c, Apply(c, s, actions[0]), actions[1..]))
  }

  function Exec(c: Config, s: State, actions: seq<Action>): (s': State)
    requires Legal(c, s, actions)
    decreases |actions|
  {
    if actions == [] then s else Exec(c, Apply(c, s, actions[0]), actions[1..])
  }

  /** A width (height) of request `k` or, if there is one by now, of its successor. */
  predicate WidthFrom(s: State, k: nat, width: u32)
    requires k < |s.history|
  {
    width == s.history[k].width || (s.HasRequest(k + 1) && width == s.RequestNo(k + 1).width)
  }

  predicate HeightFrom(s: State, k: nat, height: u32)
    requires k < |s.history|
  {
    height == s.history[k].height || (s.HasRequest(k + 1) && height == s.RequestNo(k + 1).height)
  }

  predicate MemoryInv(c: Config, s: State) {
    && c.Valid() && 0 < |s.history| && s.seqNo == c.SeqWord(s.Completed())
    && (forall k | 1 <= k < |s.history| :: HostSends(c.layout, s.history[k]))
    && (s.host.Requesting? ==> HostSends(c.layout, s.host.mode) && s.host.written <= 2)
    && s.width == (if s.host.Requesting? && 1 <= s.host.written then s.host.mode.width
                   else s.history[s.Completed()].width)
    && s.height == (if s.host.Requesting? && 2 <= s.host.written then s.host.mode.height
                    else s.history[s.Completed()].height)
  }

  predicate GuestInv(c: Config, s: State)
    requires 0 < |s.history|
  {
    match s.guest
    case Resting => true
    case ReadSeq(_, before, since) => since < |s.history| && before == c.SeqWord(since)
    case ReadWidth(_, before, since, width) =>
      && since < |s.history| && before == c.SeqWord(since)
      && (since == s.Completed() ==> WidthFrom(s, since, width))
    case ReadBoth(_, before, since, width, height) =>
      && since < |s.history| && before == c.SeqWord(since)
      && (since == s.Completed() ==> WidthFrom(s, since, width) && HeightFrom(s, since, height))
  }

  predicate DeviceInv(c: Config, s: State)
    requires 0 < |s.history|
  {
    match s.adoption
    case Never => s.device == Request(0, Mode(0, 0))
    case Adopted(since, until) =>
      && since <= until < |s.history| && s.device.seqNo == c.SeqWord(since)
      && Acceptable(c.layout, s.device.mode)
      && (until - since < U32_SPAN ==>
            && since == until
            && WidthFrom(s, since, s.device.mode.width) && HeightFrom(s, since, s.device.mode.height))
  }

  predicate Inv(c: Config, s: State) {
    MemoryInv(c, s) && GuestInv(c, s) && DeviceInv(c, s)
  }

  predicate ByHost(a: Action) { a.Ask? || a.WriteWidth? || a.WriteHeight? || a.WriteSeq? }

  lemma HostKeepsMemory(c: Config, s: State, a: Action)
    requires MemoryInv(c, s) && Enabled(c, s, a) && ByHost(a)
    ensures MemoryInv(c, Apply(c, s, a))
  {
    NextWord(c.seq0, s.Completed());
  }

  lemma HostKeepsGuest(c: Config, s: State, a: Action)
    requires Inv(c, s) && Enabled(c, s, a) && ByHost(a)
    ensures GuestInv(c, Apply(c, s, a)) && DeviceInv(c, Apply(c, s, a))
  {
  }

  lemma GuestKeepsInv(c: Config, s: State, a: Action)
    requires Inv(c, s) && Enabled(c, s, a) && !ByHost(a)
    ensures Inv(c, Apply(c, s, a))
  {
    if a.Finish? { FinishKeepsInv(c, s); }
  }

  lemma FinishKeepsInv(c: Config, s: State)
    requires Inv(c, s) && Enabled(c, s, Finish)
    ensures Inv(c, Apply(c, s, Finish))
  {
    if s.seqNo == s.guest.before && s.Completed() - s.guest.since < U32_SPAN {
      SameWordSameCount(c.seq0, s.guest.since, s.Completed());
    }
  }

  lemma StepKeepsInv(c: Config, s: State, a: Action)
    requires Inv(c, s) && Enabled(c, s, a)
    ensures Inv(c, Apply(c, s, a))
  {
    if ByHost(a) {
      HostKeepsMemory(c, s, a);
      HostKeepsGuest(c, s, a);
    } else {
      GuestKeepsInv(c, s, a);
    }
  }

  lemma {:induction false} RunKeepsInv(c: Config, s: State, actions: seq<Action>)
    requires Inv(c, s) && Legal(c, s, actions)
    ensures Inv(c, Exec(c, s, actions))
    decreases |actions|
  {
    if actions == [] {
    } else {
      StepKeepsInv(c, s, actions[0]);
      RunKeepsInv(c, Apply(c, s, actions[0]), actions[1..]);
    }
  }

  /** In every interleaving, the request the device holds was read with no request completing
      in between (fewer than 2^32 did, so none did), carries that request's sequence, and takes
      each dimension from it or from its successor. */
  lemma HeldRequest(c: Config, s0: State, actions: seq<Action>)
    requires Init(c, s0) && Legal(c, s0, actions)
    ensures var s := Exec(c, s0, actions);
            s.adoption.Adopted? && s.adoption.until - s.adoption.since < U32_SPAN ==>
              var k := s.adoption.since;
              && k == s.adoption.until < |s.history|
              && s.device.seqNo == c.SeqWord(k)
              && WidthFrom(s, k, s.device.mode.width) && HeightFrom(s, k, s.device.mode.height)
  {
    RunKeepsInv(c, s0, actions);
  }

  /** Whatever the host sends the guest supports, also a width and a height torn from two
      different requests: the guest never refuses a mode for its size. */
  lemma TornModesAreSupported(layout: Layout, a: Mode, b: Mode)
    requires layout.Valid(layout.size) && HostSends(layout, a) && HostSends(layout, b)
    ensures layout.Supports(Mode(a.width, b.height)) && Acceptable(layout, Mode(a.width, b.height))
  {
    SupportsIsTheRectangle(layout, Mode(a.width, b.height), layout.size);
  }

  /** One timer tick while the host is quiet. */
  function QuietTick(c: Config, s: State): (t: State)
    requires s.host.Quiet? && s.guest.Resting? && 0 < |s.history|
  {
    var s1 := Apply(c, s, Tick(false));
    var s2 := Apply(c, s1, TakeWidth);
    var s3 := Apply(c, s2, TakeHeight);
    Apply(c, s3, Finish)
  }

  /** Once the host is quiet, one tick settles the device on exactly the last request, torn
      reads before it notwithstanding; it replaces what it holds exactly when the last request
      is acceptable and carries a new sequence. A device that never adopted one misses a request whose
      sequence word is zero, and only that. */
  lemma QuietTickSettles(c: Config, s0: State, actions: seq<Action>)
    requires Init(c, s0) && Legal(c, s0, actions)
    requires Exec(c, s0, actions).host.Quiet? && Exec(c, s0, actions).guest.Resting?
    ensures var s := Exec(c, s0, actions);
            var n := s.Completed();
            && 0 <= n
            && (1 <= n ==> Acceptable(c.layout, s.history[n]))
            && (QuietTick(c, s).device != s.device <==>
                  Acceptable(c.layout, s.history[n]) && c.SeqWord(n) != s.device.seqNo)
            && (Acceptable(c.layout, s.history[n]) ==>
                  var settled := QuietTick(c, s).device == Request(c.SeqWord(n), s.history[n]);
                  && (s.adoption.Adopted? && n - s.adoption.since < U32_SPAN ==> settled)
                  && (s.adoption.Never? ==> (settled <==> c.SeqWord(n) != 0 || s.history[n] == Mode(0, 0))))
  {
    RunKeepsInv(c, s0, actions);
    var s := Exec(c, s0, actions);
    var n := s.Completed();
    if 1 <= n { TornModesAreSupported(c.layout, s.history[n], s.history[n]); }
    if s.adoption.Adopted? && n - s.adoption.since < U32_SPAN && c.SeqWord(n) == s.device.seqNo {
      SameWordSameCount(c.seq0, s.adoption.since, n);
    }
  }

  /** The guest takes the zero request and every mode within the maximum, and nothing else; the host
      sends exactly the latter. */
  lemma AcceptableIff(layout: Layout, mode: Mode)
    requires layout.Valid(layout.size)
    ensures Acceptable(layout, mode) <==>
              || mode == Mode(0, 0)
              || (0 < mode.width <= layout.maximum.width && 0 < mode.height <= layout.maximum.height)
    ensures HostSends(layout, mode) <==> Acceptable(layout, mode) && mode != Mode(0, 0)
  {
    SupportsIsTheRectangle(layout, mode, layout.size);
  }
}
