/** From the line to the user: the hardware receive FIFO, the receive ring and the user's reads, one
    atomic step at a time. The ring's steps are the functions that the RxRing class is proved against. */
module Receiver {
  import opened Words
  import opened Card
  import opened Descriptors
  import opened RxQueue
  import opened RxFrames
  import R = RxReading

  datatype Rx = Rx(
    arrived: seq<seq<byte>>,     // frames the card has received completely, status bytes included, less
                                 // those a purge has dropped
    line: Line,                  // those the ring has still to finish, and the frame on the line
    hw: Hw,                      // the hardware FIFO
    ring: RxAbs,                 // the receive ring
    delivered: seq<seq<byte>>)   // frames handed to the user, without status bytes

  function Strip(frame: seq<byte>): seq<byte> {
    if |frame| < 2 then [] else frame[..|frame| - 2]
  }

  function Stripped(frames: seq<Frame>): (bs: seq<seq<byte>>)
    ensures |bs| == |frames|
  {
    seq(|frames|, i requires 0 <= i < |frames| => Strip(frames[i].bytes))
  }

  function HearStep(r: Rx, e: HwEvent): Rx {
    var heard := r.(line := Hear(r.line, e), hw := Absorb(r.hw, e));
    match e
    case Bytes(_, _) => heard
    case FrameEnd(status, _, _) => heard.(arrived := r.arrived + [r.line.cur + status])
  }

  // One iteration of fscc_fifo_read_data.
  function ReceiveStep(r: Rx, count: nat, now: Stamp, size: nat, idle: Word): Rx
    requires size > 0
  {
    var f := FrameStep(r.ring, r.hw, count, now, size, idle);
    r.(ring := f.0, hw := f.1, line := LineAfter(r.line, r.ring, f.0))
  }

  // fscc_user_read_frame with append_status and append_timestamp off.
  function ReadStep(r: Rx, k: nat): Rx
    requires k <= |r.ring.frames|
  {
    r.(ring := r.ring.(frames := r.ring.frames[k..]), delivered := r.delivered + Stripped(r.ring.frames[..k]))
  }

  // fscc_io_purge_rx between two frames on the line: what the user has not been given is dropped.
  function PurgeRx(r: Rx): Rx
    requires |r.delivered| <= |r.arrived|
  {
    START.(arrived := r.arrived[..|r.delivered|], delivered := r.delivered)
  }

  /** What the user has been given, what waits in the ring, what is in the hardware and what is on the
      line are the frames that arrived: nothing lost, nothing twice, nothing out of order. */
  ghost predicate RxOk(r: Rx) {
    && |r.delivered| <= |r.arrived|
    && r.arrived[|r.delivered|..] == History(r.ring, r.line)
    && (forall i :: 0 <= i < |r.delivered| ==> r.delivered[i] == Strip(r.arrived[i]))
    && (forall i :: 0 <= i < |r.arrived| ==> |r.arrived[i]| >= 2)
    && Feeds(r.hw, r.ring, r.line)
  }

  const START := Rx([], Line([], []), Hw([], []), RxAbs([], [], 0), [])

  lemma StartOk()
    ensures RxOk(START)
  {
    CarriesOne([], []);
    assert Unread(START.ring, START.line) == [[]];
  }

  lemma PurgeRxOk(r: Rx)
    requires RxOk(r)
    ensures RxOk(PurgeRx(r))
  {
    StartOk();
  }

  lemma HearOk(r: Rx, e: HwEvent)
    requires RxOk(r) && Plausible(r.line, e)
    ensures RxOk(HearStep(r, e))
  {
    hide Feeds;
    HearKeepsFeeding(r.hw, r.ring, r.line, e);
    match e
    case Bytes(_, _) =>
    case FrameEnd(status, _, _) =>
      var frame := r.line.cur + status;
      assert (r.arrived + [frame])[|r.delivered|..] == r.arrived[|r.delivered|..] + [frame];
  }

  lemma ReceiveOk(r: Rx, count: nat, now: Stamp, size: nat, idle: Word)
    requires size > 0 && size % 4 == 0 && RxOk(r) && CountOk(r.ring, r.line, count)
    ensures RxOk(ReceiveStep(r, count, now, size, idle))
  {
    hide Feeds, FrameStep, CountOk;
    var r' := ReceiveStep(r, count, now, size, idle);
    StepKeepsFeeding(r.hw, r.ring, r.line, count, now, size, idle);
    if |r'.ring.frames| > |r.ring.frames| {
      assert Bare(r'.ring.frames) == Bare(r.ring.frames) + [r.line.todo[0]];
      assert r.line.todo == [r.line.todo[0]] + r.line.todo[1..];
    }
  }

  // The ring's complete frames are the oldest undelivered ones.
  lemma RingFrames(r: Rx)
    requires RxOk(r)
    ensures |r.delivered| + |r.ring.frames| <= |r.arrived|
    ensures forall i :: 0 <= i < |r.ring.frames| ==> r.ring.frames[i].bytes == r.arrived[|r.delivered| + i]
    ensures R.HaveStatus(r.ring.frames)
  {
    hide Feeds;
    var h := r.arrived[|r.delivered|..];
    assert forall i :: 0 <= i < |r.ring.frames| ==> h[i] == Bare(r.ring.frames)[i];
  }

  // Frames already complete are of no concern to the hardware.
  lemma ReadFeeds(h: Hw, a: RxAbs, line: Line, frames: seq<Frame>)
    requires Feeds(h, a, line)
    ensures Feeds(h, a.(frames := frames), line)
  {
    hide CarriesAll, From, Whole;
  }

  lemma ReadOk(r: Rx, k: nat)
    requires RxOk(r) && k <= |r.ring.frames|
    ensures RxOk(ReadStep(r, k))
  {
    hide Feeds;
    RingFrames(r);
    var r' := ReadStep(r, k);
    ReadFeeds(r.hw, r.ring, r.line, r.ring.frames[k..]);
    assert Bare(r'.ring.frames) == Bare(r.ring.frames)[k..];
    assert r.arrived[|r'.delivered|..] == r.arrived[|r.delivered|..][k..];
    assert History(r.ring, r.line)[k..] == History(r'.ring, r'.line);
  }

  /** The bytes a read puts in the user's buffer are the delivered frames, one after the other. */
  lemma {:induction false} BatchIsStripped(frames: seq<Frame>, o: R.Options, now: Stamp)
    requires R.HaveStatus(frames) && !o.appendStatus && !o.appendTimestamp
    ensures R.Batch(frames, o, now) == Concat(Stripped(frames))
  {
    if frames != [] {
      BatchIsStripped(frames[1..], o, now);
      assert Stripped(frames)[1..] == Stripped(frames[1..]);
      assert R.Payload(frames[0], o, now) == Strip(frames[0].bytes);
    }
  }

  // ---------- a whole FIFO pass is a run of these steps ----------

  datatype RxEvent = Heard(e: HwEvent) | Iterate(count: nat, now: Stamp)

  function Step(r: Rx, e: RxEvent, size: nat, idle: Word): Rx
    requires size > 0
  {
    match e
    case Heard(h) => HearStep(r, h)
    case Iterate(count, now) => ReceiveStep(r, count, now, size, idle)
  }

  function Run(r: Rx, es: seq<RxEvent>, size: nat, idle: Word): Rx
    requires size > 0
    decreases |es|
  {
    if es == [] then r else Run(Step(r, es[0], size, idle), es[1..], size, idle)
  }

  function HeardAll(es: seq<HwEvent>): (hs: seq<RxEvent>)
    ensures |hs| == |es|
  {
    seq(|es|, i requires 0 <= i < |es| => Heard(es[i]))
  }

  function HearEach(r: Rx, es: seq<HwEvent>): (r': Rx)
    ensures r'.line == HearAll(r.line, es) && r'.hw == AbsorbAll(r.hw, es) && r'.ring == r.ring
    decreases |es|
  {
    if es == [] then r else HearEach(HearStep(r, es[0]), es[1..])
  }

  lemma {:induction false} RunHeard(r: Rx, es: seq<HwEvent>, more: seq<RxEvent>, size: nat, idle: Word)
    requires size > 0
    ensures Run(r, HeardAll(es) + more, size, idle) == Run(HearEach(r, es), more, size, idle)
    decreases |es|
  {
    hide HearStep, ReceiveStep, Run;
    if es == [] {
      assert HeardAll(es) + more == more;
    } else {
      RunHeard(HearStep(r, es[0]), es[1..], more, size, idle);
      assert HeardAll(es) + more == [Heard(es[0])] + (HeardAll(es[1..]) + more);
      RunFirst(r, Heard(es[0]), HeardAll(es[1..]) + more, size, idle);
    }
  }

  lemma RunFirst(r: Rx, e: RxEvent, more: seq<RxEvent>, size: nat, idle: Word)
    requires size > 0
    ensures Run(r, [e] + more, size, idle) == Run(Step(r, e, size, idle), more, size, idle)
  {
    hide Step;
    assert ([e] + more)[1..] == more;
  }

  /** An arrival is allowed if a card can show it, and an iteration if it finds a free descriptor and a byte
      count that is no more than what is there. */
  ghost predicate AllowedStep(r: Rx, e: RxEvent, size: nat, num: nat)
    requires size > 0
  {
    match e
    case Heard(h) => Plausible(r.line, h)
    case Iterate(count, now) => CanReceive(r, count, size, num)
  }

  ghost predicate Allowed(r: Rx, es: seq<RxEvent>, size: nat, num: nat, idle: Word)
    requires size > 0
    decreases |es|
  {
    es != [] ==> AllowedStep(r, es[0], size, num) && Allowed(Step(r, es[0], size, idle), es[1..], size, num, idle)
  }

  ghost predicate CanReceive(r: Rx, count: nat, size: nat, num: nat)
    requires size > 0
  {
    CountOk(r.ring, r.line, count) && |Layout(r.ring.frames, r.ring.tail, size)| < num
  }

  lemma StepOk(r: Rx, e: RxEvent, size: nat, num: nat, idle: Word)
    requires size > 0 && size % 4 == 0 && RxOk(r) && AllowedStep(r, e, size, num)
    ensures RxOk(Step(r, e, size, idle))
  {
    hide RxOk, Plausible, HearStep, ReceiveStep, CountOk;
    match e
    case Heard(h) => HearOk(r, h);
    case Iterate(count, now) => ReceiveOk(r, count, now, size, idle);
  }

  lemma {:induction false} RunOk(r: Rx, es: seq<RxEvent>, size: nat, num: nat, idle: Word)
    requires size > 0 && size % 4 == 0 && RxOk(r) && Allowed(r, es, size, num, idle)
    ensures RxOk(Run(r, es, size, idle))
    decreases |es|
  {
    hide RxOk, AllowedStep, Step;
    if es != [] {
      StepOk(r, es[0], size, num, idle);
      RunOk(Step(r, es[0], size, idle), es[1..], size, num, idle);
    }
  }

  // Everything that arrives before an iteration may arrive, one after the other.
  lemma {:induction false} AllowedHeard(r: Rx, es: seq<HwEvent>, more: seq<RxEvent>, size: nat, num: nat, idle: Word)
    requires size > 0 && RxOk(r) && PlausibleAll(r.line, es) && Allowed(HearEach(r, es), more, size, num, idle)
    ensures RxOk(HearEach(r, es)) && Allowed(r, HeardAll(es) + more, size, num, idle)
    decreases |es|
  {
    hide RxOk, Plausible, Allowed;
    if es == [] {
      assert HeardAll(es) + more == more;
    } else {
      HearOk(r, es[0]);
      AllowedHeard(HearStep(r, es[0]), es[1..], more, size, num, idle);
      assert HeardAll(es) + more == [Heard(es[0])] + (HeardAll(es[1..]) + more);
      AllowedFirst(r, Heard(es[0]), HeardAll(es[1..]) + more, size, num, idle);
    }
  }

  lemma AllowedFirst(r: Rx, e: RxEvent, more: seq<RxEvent>, size: nat, num: nat, idle: Word)
    requires size > 0
    ensures Allowed(r, [e] + more, size, num, idle)
      <==> AllowedStep(r, e, size, num) && Allowed(Step(r, e, size, idle), more, size, num, idle)
  {
    hide AllowedStep, Step;
    assert ([e] + more)[1..] == more;
  }

  /** The arrivals and iterations that a pass of RxRing.FifoReadData makes, one after the other. */
  function EventsOf(r: Rx, snaps: seq<Snapshot>, size: nat, num: nat, idle: Word): seq<RxEvent>
    requires size > 0
    decreases |snaps|
  {
    if snaps == [] || Used(r, size) == num then []
    else
      var r1 := AfterSnapshot(r, snaps[0], size, idle);
      HeardAll(snaps[0].events)
      + ([Iterate(snaps[0].bc, snaps[0].now)]
         + if Used(r1, size) == Used(r, size) then [] else EventsOf(r1, snaps[1..], size, num, idle))
  }

  // Finished descriptors in the ring.
  function Used(r: Rx, size: nat): nat
    requires size > 0
  {
    |Layout(r.ring.frames, r.ring.tail, size)|
  }

  function AfterSnapshot(r: Rx, snap: Snapshot, size: nat, idle: Word): Rx
    requires size > 0
  {
    ReceiveStep(HearEach(r, snap.events), snap.bc, snap.now, size, idle)
  }

  /** These are each allowed where they stand, and end where the pass ends: what holds of every such run holds
      of the pass. */
  lemma {:induction false} PassIsRun(r: Rx, snaps: seq<Snapshot>, size: nat, num: nat, idle: Word)
    requires size > 0 && size % 4 == 0 && RxOk(r) && Used(r, size) <= num
    requires Consistent(r.ring, r.hw, r.line, snaps, size, idle)
    ensures var es := EventsOf(r, snaps, size, num, idle);
      var r' := Run(r, es, size, idle);
      && Allowed(r, es, size, num, idle) && RxOk(r')
      && (r'.ring, r'.hw, r'.line) == FramePass(r.ring, r.hw, r.line, snaps, size, num, idle)
    decreases |snaps|
  {
    hide FrameStep, Layout, Feeds, RxOk, CountOk, PlausibleAll, Plausible, Allowed, Run;
    NothingToDo(r, size, num, idle);
    if snaps != [] && Used(r, size) != num {
      var events, count, now := snaps[0].events, snaps[0].bc, snaps[0].now;
      var heard := HearEach(r, events);
      NothingToDo(heard, size, num, idle);
      AllowedHeard(r, events, [], size, num, idle);
      FeedsOf(heard);
      var r1 := ReceiveStep(heard, count, now, size, idle);
      ReceiveOk(heard, count, now, size, idle);
      OneMoreDescriptor(heard.ring, heard.hw, heard.line, count, now, size, idle);
      NothingToDo(r1, size, num, idle);
      var rest := if Used(r1, size) == Used(r, size) then [] else EventsOf(r1, snaps[1..], size, num, idle);
      if Used(r1, size) != Used(r, size) {
        PassIsRun(r1, snaps[1..], size, num, idle);
      }
      AllowedFirst(heard, Iterate(count, now), rest, size, num, idle);
      RunFirst(heard, Iterate(count, now), rest, size, idle);
      var more := [Iterate(count, now)] + rest;
      AllowedHeard(r, events, more, size, num, idle);
      RunHeard(r, events, more, size, idle);
      RunOk(r, HeardAll(events) + more, size, num, idle);
    }
  }

  lemma FeedsOf(r: Rx)
    requires RxOk(r)
    ensures Feeds(r.hw, r.ring, r.line)
  {
  }

  lemma NothingToDo(r: Rx, size: nat, num: nat, idle: Word)
    requires size > 0
    ensures Allowed(r, [], size, num, idle) && Run(r, [], size, idle) == r
  {
  }
}
