/** A log file that rolls over at a size cap, keeping one previous generation. Whether an open, a
    stat, a rename or a write works is decided outside; every combination is covered. */
module AppendLog {
  import opened Bytes
  import opened Lines

  const U64_MAX: u64 := 0xffff_ffff_ffff_ffff

  /** How the system answers one attempt to open: not at all, or with or without a size. */
  datatype OpenAnswer = Refused | Opened(statOk: bool)

  /** How it answers a write: all of it, or an error after the first bytes. */
  datatype WriteAnswer = AllWritten | Failed(reached: nat)

  /** The answers one `write` may need. */
  datatype Answers = Answers(renameOk: bool, reopen: OpenAnswer, write: WriteAnswer)

  datatype State = State(live: Option<seq<byte>>, previous: Option<seq<byte>>, open: bool, size: nat, max: nat)

  function Content(file: Option<seq<byte>>): (s: seq<byte>) { if file.Some? then file.value else [] }

  function Open(live: Option<seq<byte>>, previous: Option<seq<byte>>, max: nat, a: OpenAnswer): (s: State) {
    match a
    case Refused => State(live, previous, false, 0, max)
    case Opened(statOk) =>
      State(Some(Content(live)), previous, true, if statOk then |Content(live)| else 0, max)
  }

  /** A rename also fails if there is no live file. */
  function Rotate(s: State, renameOk: bool, a: OpenAnswer): (t: State) {
    if renameOk && s.live.Some? then Open(None, s.live, s.max, a)
    else Open(s.live, s.previous, s.max, a).(max := U64_MAX)
  }

  /** The part of the text that gets into an open log. */
  function Added(s: State, text: seq<byte>, w: WriteAnswer): (added: seq<byte>) {
    if !s.open then []
    else if w.AllWritten? || |text| <= w.reached then text
    else text[..w.reached]
  }

  function Append(s: State, text: seq<byte>, w: WriteAnswer): (t: State) {
    if !s.open then s
    else State(Some(Content(s.live) + Added(s, text, w)), s.previous, true,
               if w.AllWritten? then s.size + |text| else s.size, s.max)
  }

  /** The log as a write finds it once it has rotated, if it had to. */
  function Ready(s: State, a: Answers): (t: State) {
    if s.max <= s.size then Rotate(s, a.renameOk, a.reopen) else s
  }

  function Write(s: State, text: seq<byte>, a: Answers): (t: State) {
    Append(Ready(s, a), text, a.write)
  }

  /** What a write adds to the files. */
  function Reached(s: State, text: seq<byte>, a: Answers): (added: seq<byte>) {
    Added(Ready(s, a), text, a.write)
  }

  class AppendLog {
    var live: Option<seq<byte>>
    var previous: Option<seq<byte>>
    var open: bool
    var size: nat
    var max: nat

    ghost function Now(): State
      reads this
    {
      State(live, previous, open, size, max)
    }

    constructor OpenWithMax(found: Option<seq<byte>>, older: Option<seq<byte>>, cap: nat, a: OpenAnswer)
      ensures Now() == Open(found, older, cap, a)
    {
      live, previous, open, size, max := found, older, false, 0, cap;
      new;
      Reopen(a);
    }

    method Reopen(a: OpenAnswer)
      modifies this
      ensures Now() == Open(old(live), old(previous), old(max), a)
    {
      open, size := false, 0;
      if a.Opened? {
        if live.None? { live := Some([]); }
        open := true;
        if a.statOk { size := |live.value|; }
      }
    }

    method RotateNow(renameOk: bool, a: OpenAnswer)
      modifies this
      ensures Now() == Rotate(old(Now()), renameOk, a)
    {
      open := false;
      if !(renameOk && live.Some?) {
        Reopen(a);
        max := U64_MAX;
        return;
      }
      previous, live := live, None;
      Reopen(a);
    }

    method WriteText(text: seq<byte>, a: Answers)
      modifies this
      ensures Now() == Write(old(Now()), text, a)
    {
      if size >= max {
        RotateNow(a.renameOk, a.reopen);
      }
      if open {
        match a.write
        case AllWritten =>
          live := Some(Content(live) + text);
          size := size + |text|;
        case Failed(reached) =>
          live := Some(Content(live) + if |text| <= reached then text else text[..reached]);
      }
    }
  }

  // Whole runs.

  datatype Request = Request(text: seq<byte>, answers: Answers)

  function Run(s: State, requests: seq<Request>): (t: State)
    decreases |requests|
  {
    if requests == [] then s else Run(Write(s, requests[0].text, requests[0].answers), requests[1..])
  }

  /** Everything that reached the files after `s`. */
  function RunReached(s: State, requests: seq<Request>): (added: seq<byte>)
    decreases |requests|
  {
    if requests == [] then []
    else
      var r := requests[0];
      Reached(s, r.text, r.answers) + RunReached(Write(s, r.text, r.answers), requests[1..])
  }

  function Kept(s: State): (bytes: seq<byte>) { Content(s.previous) + Content(s.live) }

  /** `all` is every byte the two files ever held, `cap` the cap the log was opened with. What is
      kept is the end of it: all of it, or at least a cap's worth in the previous file alone. */
  predicate Retains(s: State, all: seq<byte>, cap: nat) {
    && (s.open ==> s.live.Some? && s.size <= |s.live.value|) && (!s.open ==> s.size == 0)
    && (s.max == cap || s.max == U64_MAX)
    && IsSuffix(Kept(s), all)
    && (Kept(s) == all || cap <= |Content(s.previous)|)
  }

  lemma SuffixDrop(a: seq<byte>, b: seq<byte>, all: seq<byte>)
    requires IsSuffix(a + b, all)
    ensures IsSuffix(b, all)
  {
    assert all[|all| - |a + b|..][|a|..] == all[|all| - |b|..];
    assert (a + b)[|a|..] == b;
  }

  lemma SuffixGrow(kept: seq<byte>, all: seq<byte>, added: seq<byte>)
    requires IsSuffix(kept, all)
    ensures IsSuffix(kept + added, all + added)
  {
    var n := |all| - |kept|;
    assert (all + added)[n..] == all[n..] + added;
  }

  lemma RotateRetains(s: State, renameOk: bool, a: OpenAnswer, all: seq<byte>, cap: nat)
    requires Retains(s, all, cap) && s.max <= s.size && cap <= U64_MAX
    ensures Retains(Rotate(s, renameOk, a), all, cap)
  {
    SuffixDrop(Content(s.previous), Content(s.live), all);
    if renameOk && s.live.Some? {
      assert Content(s.live) + [] == Content(s.live);
      if !s.open { Closed(s, all, cap); }
    }
  }

  /** A log without a handle has nothing counted, so it only rotates at cap zero. */
  lemma Closed(s: State, all: seq<byte>, cap: nat)
    requires Retains(s, all, cap) && s.max <= s.size && !s.open
    ensures cap == 0 || s.max == U64_MAX
  {
  }

  lemma AppendRetains(s: State, text: seq<byte>, w: WriteAnswer, all: seq<byte>, cap: nat)
    requires Retains(s, all, cap)
    ensures Retains(Append(s, text, w), all + Added(s, text, w), cap)
  {
    var t, added := Append(s, text, w), Added(s, text, w);
    if s.open {
      Assoc(Content(s.previous), Content(s.live), added);
      assert Kept(t) == Kept(s) + added;
      SuffixGrow(Kept(s), all, added);
    } else {
      assert all + [] == all;
    }
  }

  lemma WriteRetains(s: State, text: seq<byte>, a: Answers, all: seq<byte>, cap: nat)
    requires Retains(s, all, cap) && cap <= U64_MAX
    ensures Retains(Write(s, text, a), all + Reached(s, text, a), cap)
  {
    if s.max <= s.size { RotateRetains(s, a.renameOk, a.reopen, all, cap); }
    AppendRetains(Ready(s, a), text, a.write, all, cap);
  }

  /** For every run, whatever fails: the previous generation followed by the live file is the end
      of all that ever reached the files, and it is all of it or more than the cap. */
  lemma {:induction false} RunRetains(s: State, requests: seq<Request>, all: seq<byte>, cap: nat)
    requires Retains(s, all, cap) && cap <= U64_MAX
    ensures Retains(Run(s, requests), all + RunReached(s, requests), cap)
    decreases |requests|
  {
    if requests == [] {
      assert all + [] == all;
    } else {
      var r := requests[0];
      WriteRetains(s, r.text, r.answers, all, cap);
      var now, added := Write(s, r.text, r.answers), Reached(s, r.text, r.answers);
      RunRetains(now, requests[1..], all + added, cap);
      Assoc(all, added, RunReached(now, requests[1..]));
    }
  }

  lemma OpenRetains(live: Option<seq<byte>>, previous: Option<seq<byte>>, cap: nat, a: OpenAnswer)
    requires cap <= U64_MAX
    ensures Retains(Open(live, previous, cap, a), Content(previous) + Content(live), cap)
  {
  }

  /** The log is open and its counter is the live file's length. */
  predicate Counted(s: State) { s.open && s.live.Some? && s.size == |s.live.value| }

  /** The file system takes every byte; a rename may still fail. */
  predicate Stored(a: Answers) { a.reopen == Opened(true) && a.write == AllWritten }

  predicate AllStored(requests: seq<Request>) {
    forall i | 0 <= i < |requests| :: Stored(requests[i].answers)
  }

  function Texts(requests: seq<Request>): (all: seq<byte>) {
    if requests == [] then [] else requests[0].text + Texts(requests[1..])
  }

  /** Whether renames fail or not, as long as reopening and writing work every byte written arrives,
      the last text is at the end of the live file, and the counter is that file's length. */
  lemma {:induction false} EveryByteArrives(s: State, requests: seq<Request>)
    requires Counted(s) && AllStored(requests)
    ensures Counted(Run(s, requests)) && RunReached(s, requests) == Texts(requests)
    ensures requests != [] ==> IsSuffix(requests[|requests| - 1].text, Content(Run(s, requests).live))
    decreases |requests|
  {
    if requests != [] {
      var r := requests[0];
      EveryByteArrives(Write(s, r.text, r.answers), requests[1..]);
    }
  }

  /** While no rename fails either, the cap stays, and for a positive cap the live file stays below
      the cap plus its last write. */
  lemma {:induction false} CapHolds(s: State, requests: seq<Request>, cap: nat)
    requires Counted(s) && s.max == cap && AllStored(requests)
    requires forall i | 0 <= i < |requests| :: requests[i].answers.renameOk
    ensures Run(s, requests).max == cap
    ensures requests != [] && 0 < cap ==> Run(s, requests).size < cap + |requests[|requests| - 1].text|
    decreases |requests|
  {
    if requests != [] {
      var r := requests[0];
      CapHolds(Write(s, r.text, r.answers), requests[1..], cap);
    }
  }

  /** What one write does when the file system stores every byte: below the cap it appends; at the
      cap it moves the live file to the previous one and starts over, or, if the rename fails,
      appends all the same and lifts the cap. */
  lemma WriteIs(s: State, text: seq<byte>, a: Answers)
    requires Counted(s) && Stored(a)
    ensures var t := Write(s, text, a);
            && (s.size < s.max ==>
                  t.live == Some(s.live.value + text) && t.previous == s.previous && t.max == s.max)
            && (s.max <= s.size && a.renameOk ==>
                  t.live == Some(text) && t.previous == s.live && t.max == s.max)
            && (s.max <= s.size && !a.renameOk ==>
                  t.live == Some(s.live.value + text) && t.previous == s.previous && t.max == 0xffff_ffff_ffff_ffff)
  {
    assert [] + text == text;
  }

  /** Once a rename has failed the file only grows, whatever later renames would say, until it has
      2^64 - 1 bytes. */
  lemma {:induction false} LiftedCapAppends(s: State, requests: seq<Request>)
    requires Counted(s) && AllStored(requests) && s.max == U64_MAX && s.size + |Texts(requests)| < U64_MAX
    ensures Run(s, requests).previous == s.previous && Run(s, requests).live == Some(s.live.value + Texts(requests))
    decreases |requests|
  {
    if requests == [] {
      assert s.live.value + [] == s.live.value;
    } else {
      var r := requests[0];
      WriteIs(s, r.text, r.answers);
      LiftedCapAppends(Write(s, r.text, r.answers), requests[1..]);
      Assoc(s.live.value, r.text, Texts(requests[1..]));
    }
  }
}
