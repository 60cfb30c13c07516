/** A port whose line is looped back: every interleaving of user writes, FIFO passes, the transmitter,
    the line, the receive loop, user reads and purges. */
module Loopback {
  import opened Words
  import opened Descriptors
  import opened RxQueue
  import opened RxFrames
  import opened TxQueue
  import opened Transmitter
  import opened Receiver
  import R = RxReading
  import T = Transmitter
  import V = Receiver

  datatype Config = Config(txNum: nat, txSize: nat, rxNum: nat, rxSize: nat, idle: Word) {
    predicate Ok() {
      0 < txSize && txSize % 4 == 0 && 0 < rxSize <= DMA_MAX_LENGTH && rxSize % 4 == 0
    }
  }

  datatype State = State(tx: Tx, rx: Rx)

  datatype Action =
    | DoCheck(frame: seq<byte>)
    | DoWrite
    | DoPass(fc: nat, bc: nat, ws: seq<Word>)
    | DoSend
    | DoHear(e: HwEvent)
    | DoReceive(count: nat, now: Stamp)
    | DoRead(room: nat, o: R.Options)
    | DoPurge     // both directions
    | DoPurgeTx   // one direction, between frames
    | DoPurgeRx

  // The bytes the line can have carried of the frame now being received.
  function Source(s: State): seq<byte> {
    if |s.rx.arrived| < |s.tx.sent| then s.tx.sent[|s.rx.arrived|] else Flatten(s.tx.shift)
  }

  // The line carries the transmitter's frames, in order, and the card adds two status bytes of its own.
  ghost predicate CanHear(s: State, e: HwEvent) {
    && Plausible(s.rx.line, e)
    && match e
       case Bytes(bs, _) => s.rx.line.cur + bs <= Source(s)
       case FrameEnd(_, _, _) => |s.rx.arrived| < |s.tx.sent| && s.rx.line.cur == s.tx.sent[|s.rx.arrived|]
  }

  ghost predicate CanRead(r: Rx, o: R.Options) {
    !o.appendStatus && !o.appendTimestamp && R.HaveStatus(r.ring.frames)
  }

  predicate CanPurgeRx(s: State) {
    && s.rx.line.cur == []
    && |s.rx.delivered| <= |s.rx.arrived| <= |s.tx.sent| <= |s.tx.accepted|
  }

  // The frames that arrived and are dropped no longer count as accepted.
  function AfterPurgeRx(s: State): State
    requires CanPurgeRx(s)
  {
    State(Forget(s.tx, |s.rx.delivered|, |s.rx.arrived|), PurgeRx(s.rx))
  }

  /** One step of the port. */
  ghost predicate Next(c: Config, s: State, a: Action, s': State)
    requires c.Ok()
  {
    match a
    case DoCheck(frame) => CanCheck(s.tx, c.txNum, c.txSize, frame) && s' == s.(tx := Check(s.tx, frame))
    case DoWrite => CanWrite(s.tx, c.txNum) && s' == s.(tx := Write(s.tx, c.txNum, c.txSize))
    case DoPass(fc, bc, ws) => CanPass(s.tx, fc, bc, ws) && s' == s.(tx := Pass(s.tx, fc, bc, ws))
    case DoSend => CanSend(s.tx) && s' == s.(tx := Send(s.tx))
    case DoHear(e) => CanHear(s, e) && s' == s.(rx := HearStep(s.rx, e))
    case DoReceive(count, now) =>
      CanReceive(s.rx, count, c.rxSize, c.rxNum) && s' == s.(rx := ReceiveStep(s.rx, count, now, c.rxSize, c.idle))
    case DoRead(room, o) =>
      CanRead(s.rx, o) && s' == s.(rx := V.ReadStep(s.rx, R.BatchCount(s.rx.ring.frames, room, o)))
    case DoPurge => s' == State(T.START, V.START)
    case DoPurgeTx => s.tx.shift == [] && s' == s.(tx := PurgeTx(s.tx))
    case DoPurgeRx => CanPurgeRx(s) && s' == AfterPurgeRx(s)
  }

  /** The receiver has only what the transmitter sent. */
  ghost predicate LineOk(s: State) {
    && |s.rx.arrived| <= |s.tx.sent|
    && (forall i :: 0 <= i < |s.rx.arrived| ==> Strip(s.rx.arrived[i]) == s.tx.sent[i])
    && s.rx.line.cur <= Source(s)
  }

  ghost predicate Inv(c: Config, s: State)
    requires c.Ok()
  {
    TxOk(s.tx, c.txNum, c.txSize) && RxOk(s.rx) && LineOk(s)
  }

  lemma StartInv(c: Config)
    requires c.Ok()
    ensures Inv(c, State(T.START, V.START))
  {
    T.StartOk(c.txNum, c.txSize);
    V.StartOk();
  }

  // Sending another word only extends what the line carries.
  lemma SendKeepsLine(s: State, num: nat, size: nat)
    requires LineOk(s) && TxOk(s.tx, num, size) && CanSend(s.tx)
    ensures LineOk(s.(tx := Send(s.tx)))
  {
    hide SendOk, RoomOk;
    var t := s.tx;
    var w := t.words[0];
    FlattenAppend(t.shift, [w]);
    assert Flatten(t.shift) <= Flatten(t.shift + [w]);
    assert |t.shift| < WordCount(t.lengths[0]) by { SendingFrame(t, size); }
    assert 4 * |t.shift| <= t.lengths[0];
    if |t.shift + [w]| == WordCount(t.lengths[0]) {
      assert Flatten(t.shift) <= Flatten(t.shift + [w])[..t.lengths[0]];
    }
  }

  lemma SendingFrame(t: Tx, size: nat)
    requires SendOk(t, size) && t.lengths != []
    ensures |t.shift| < WordCount(t.lengths[0])
  {
  }

  lemma HearKeepsLine(s: State, e: HwEvent)
    requires LineOk(s) && CanHear(s, e)
    ensures LineOk(s.(rx := HearStep(s.rx, e)))
  {
    hide Plausible, Flatten, Absorb;
    match e
    case Bytes(_, _) =>
    case FrameEnd(status, _, _) =>
      TwoStatusBytes(s.rx.line, e);
      assert Strip(s.rx.line.cur + status) == s.rx.line.cur;
  }

  lemma TwoStatusBytes(line: Line, e: HwEvent)
    requires Plausible(line, e) && e.FrameEnd?
    ensures |e.status| == 2
  {
  }

  lemma PurgeTxKeepsLine(s: State)
    requires LineOk(s) && s.tx.shift == []
    ensures LineOk(s.(tx := PurgeTx(s.tx)))
  {
  }

  lemma PurgeRxKeepsLine(s: State)
    requires LineOk(s) && CanPurgeRx(s)
    ensures LineOk(AfterPurgeRx(s))
  {
  }

  /** Every step keeps the invariant. */
  lemma StepInv(c: Config, s: State, a: Action, s': State)
    requires c.Ok() && Inv(c, s) && Next(c, s, a, s')
    ensures Inv(c, s')
  {
    hide SendOk, RoomOk, RxOk, Plausible, CountOk;
    match a
    case DoCheck(frame) => CheckOk(s.tx, c.txNum, c.txSize, frame);
    case DoWrite => WriteOk(s.tx, c.txNum, c.txSize);
    case DoPass(fc, bc, ws) => PassOk(s.tx, c.txNum, c.txSize, fc, bc, ws);
    case DoSend =>
      SendOkStep(s.tx, c.txNum, c.txSize);
      SendKeepsLine(s, c.txNum, c.txSize);
    case DoHear(e) =>
      HearOk(s.rx, e);
      HearKeepsLine(s, e);
    case DoReceive(count, now) =>
      ReceiveOk(s.rx, count, now, c.rxSize, c.idle);
      assert s'.rx.line.cur == s.rx.line.cur;
    case DoRead(room, o) => V.ReadOk(s.rx, R.BatchCount(s.rx.ring.frames, room, o));
    case DoPurge => StartInv(c);
    case DoPurgeTx =>
      PurgeTxOk(s.tx, c.txNum, c.txSize);
      PurgeTxKeepsLine(s);
    case DoPurgeRx =>
      ForgetOk(s.tx, c.txNum, c.txSize, |s.rx.delivered|, |s.rx.arrived|);
      PurgeRxOk(s.rx);
      PurgeRxKeepsLine(s);
  }

  // Every arrival is something that the line can carry then.
  ghost predicate FromLine(c: Config, s: State, es: seq<RxEvent>)
    requires c.Ok()
    decreases |es|
  {
    es != [] ==>
      && (es[0].Heard? ==> CanHear(s, es[0].e))
      && FromLine(c, s.(rx := V.Step(s.rx, es[0], c.rxSize, c.idle)), es[1..])
  }

  /** Allowed arrivals from the line, and iterations, are steps of the port, and so keep the invariant. */
  lemma {:induction false} RunKeepsInv(c: Config, s: State, es: seq<RxEvent>)
    requires c.Ok() && Inv(c, s) && Allowed(s.rx, es, c.rxSize, c.rxNum, c.idle) && FromLine(c, s, es)
    ensures Inv(c, s.(rx := Run(s.rx, es, c.rxSize, c.idle)))
    decreases |es|
  {
    hide Inv, CanHear, CanReceive, HearStep, ReceiveStep;
    if es == [] {
      assert s.(rx := s.rx) == s;
    } else {
      var s' := s.(rx := V.Step(s.rx, es[0], c.rxSize, c.idle));
      var a := match es[0] case Heard(e) => DoHear(e) case Iterate(count, now) => DoReceive(count, now);
      assert Next(c, s, a, s');
      StepInv(c, s, a, s');
      RunKeepsInv(c, s', es[1..]);
      assert s'.(rx := Run(s'.rx, es[1..], c.rxSize, c.idle)) == s.(rx := Run(s.rx, es, c.rxSize, c.idle));
    }
  }

  ghost predicate EventsFromLine(c: Config, s: State, es: seq<HwEvent>)
    requires c.Ok()
    decreases |es|
  {
    es != [] ==> CanHear(s, es[0]) && EventsFromLine(c, s.(rx := HearStep(s.rx, es[0])), es[1..])
  }

  // What arrives during a pass is, each time, something that the line can carry then.
  ghost predicate SnapsFromLine(c: Config, s: State, snaps: seq<Snapshot>)
    requires c.Ok()
    decreases |snaps|
  {
    snaps != [] && Used(s.rx, c.rxSize) != c.rxNum ==>
      && EventsFromLine(c, s, snaps[0].events)
      && var r1 := AfterSnapshot(s.rx, snaps[0], c.rxSize, c.idle);
      Used(r1, c.rxSize) != Used(s.rx, c.rxSize) ==> SnapsFromLine(c, s.(rx := r1), snaps[1..])
  }

  lemma {:induction false} HeardFromLine(c: Config, s: State, es: seq<HwEvent>, more: seq<RxEvent>)
    requires c.Ok() && EventsFromLine(c, s, es) && FromLine(c, s.(rx := HearEach(s.rx, es)), more)
    ensures FromLine(c, s, HeardAll(es) + more)
    decreases |es|
  {
    hide CanHear, HearStep, ReceiveStep;
    if es == [] {
      assert HeardAll(es) + more == more && s.(rx := s.rx) == s;
    } else {
      var s' := s.(rx := HearStep(s.rx, es[0]));
      assert s'.(rx := HearEach(s'.rx, es[1..])) == s.(rx := HearEach(s.rx, es));
      HeardFromLine(c, s', es[1..], more);
      assert (HeardAll(es) + more)[1..] == HeardAll(es[1..]) + more;
    }
  }

  lemma {:induction false} PassFromLine(c: Config, s: State, snaps: seq<Snapshot>)
    requires c.Ok() && SnapsFromLine(c, s, snaps)
    ensures FromLine(c, s, EventsOf(s.rx, snaps, c.rxSize, c.rxNum, c.idle))
    decreases |snaps|
  {
    hide CanHear, HearStep, ReceiveStep, Used, EventsFromLine, FromLine;
    NothingFromLine(c, s);
    if snaps != [] && Used(s.rx, c.rxSize) != c.rxNum {
      var heard := s.(rx := HearEach(s.rx, snaps[0].events));
      var r1 := AfterSnapshot(s.rx, snaps[0], c.rxSize, c.idle);
      var s1 := s.(rx := r1);
      NothingFromLine(c, s1);
      var rest: seq<RxEvent> := [];
      if Used(r1, c.rxSize) != Used(s.rx, c.rxSize) {
        PassFromLine(c, s1, snaps[1..]);
        rest := EventsOf(r1, snaps[1..], c.rxSize, c.rxNum, c.idle);
      }
      FirstFromLine(c, heard, snaps[0].bc, snaps[0].now, rest);
      assert heard.(rx := ReceiveStep(heard.rx, snaps[0].bc, snaps[0].now, c.rxSize, c.idle)) == s1;
      HeardFromLine(c, s, snaps[0].events, [Iterate(snaps[0].bc, snaps[0].now)] + rest);
    }
  }

  lemma NothingFromLine(c: Config, s: State)
    requires c.Ok()
    ensures FromLine(c, s, [])
  {
  }

  lemma FirstFromLine(c: Config, s: State, count: nat, now: Stamp, rest: seq<RxEvent>)
    requires c.Ok()
    ensures FromLine(c, s.(rx := ReceiveStep(s.rx, count, now, c.rxSize, c.idle)), rest)
      ==> FromLine(c, s, [Iterate(count, now)] + rest)
  {
    hide ReceiveStep, CanHear;
    assert ([Iterate(count, now)] + rest)[1..] == rest;
  }

  /** A whole receive pass keeps the port's invariant. `ring` is what the receive ring holds; afterwards it
      holds, and the hardware does, what the port's state says. */
  lemma PassKeepsInv(c: Config, s: State, ring: RxState, snaps: seq<Snapshot>)
    requires c.Ok() && Inv(c, s) && Framed(ring, s.rx.ring, c.rxSize)
    requires |ring.partial| < c.rxSize && |ring.ready| <= c.rxNum
    requires Consistent(s.rx.ring, s.rx.hw, s.rx.line, snaps, c.rxSize, c.idle) && SnapsFromLine(c, s, snaps)
    ensures var pass := ReadData(ring, s.rx.hw, snaps, c.rxSize, c.rxNum, c.idle);
      var rx' := Run(s.rx, EventsOf(s.rx, snaps, c.rxSize, c.rxNum, c.idle), c.rxSize, c.idle);
      && Inv(c, s.(rx := rx'))
      && Framed(pass.0, rx'.ring, c.rxSize) && pass.1 == rx'.hw
  {
    hide TxOk, RxOk, LineOk, Feeds, Consistent, SnapsFromLine, FromLine, Layout, Run, EventsOf, ReadData, FramePass;
    FeedsOf(s.rx);
    PassReassembles(ring, s.rx.ring, s.rx.hw, s.rx.line, snaps, c.rxSize, c.rxNum, c.idle);
    PassIsRun(s.rx, snaps, c.rxSize, c.rxNum, c.idle);
    PassFromLine(c, s, snaps);
    RunKeepsInv(c, s, EventsOf(s.rx, snaps, c.rxSize, c.rxNum, c.idle));
  }

  // ---------- runs ----------

  ghost predicate IsRun(c: Config, states: seq<State>, actions: seq<Action>)
    requires c.Ok()
  {
    && |states| == |actions| + 1
    && states[0] == State(T.START, V.START)
    && forall i :: 0 <= i < |actions| ==> Next(c, states[i], actions[i], states[i + 1])
  }

  lemma {:induction false} RunInv(c: Config, states: seq<State>, actions: seq<Action>, n: nat)
    requires c.Ok() && IsRun(c, states, actions) && n < |states|
    ensures Inv(c, states[n])
  {
    hide Next, Inv;
    if n == 0 {
      StartInv(c);
    } else {
      RunInv(c, states, actions, n - 1);
      assert Next(c, states[n - 1], actions[n - 1], states[n]);
      StepInv(c, states[n - 1], actions[n - 1], states[n]);
    }
  }

  // Nothing is waiting anywhere between the two users.
  predicate Quiet(s: State) {
    && s.tx.queue == [] && s.tx.words == [] && s.tx.shift == []
    && s.rx.line == Line([], []) && s.rx.ring.frames == []
    && |s.rx.arrived| == |s.tx.sent|
  }

  /** Loopback: at every moment of every run the frames delivered are the first of the frames accepted since
      the port was last purged, less those dropped by purging one direction, byte for byte and in order.
      When nothing is waiting any more, they are all of them. */
  lemma LoopbackTheorem(c: Config, states: seq<State>, actions: seq<Action>, n: nat)
    requires c.Ok() && IsRun(c, states, actions) && n < |states|
    ensures states[n].rx.delivered <= states[n].tx.accepted
    ensures Quiet(states[n]) ==> states[n].rx.delivered == states[n].tx.accepted
  {
    RunInv(c, states, actions, n);
    var s := states[n];
    hide Feeds;
    assert s.rx.delivered == s.tx.accepted[..|s.rx.delivered|];
    if Quiet(s) {
      QuietSent(s.tx, c.txSize);
    }
  }

  // With ring and FIFO empty, everything accepted has been sent.
  lemma QuietSent(t: Tx, size: nat)
    requires size > 0 && SendOk(t, size) && t.queue == [] && t.words == [] && t.shift == []
    ensures t.sent == t.accepted
  {
    var pushed :| PushedIs(t, size, pushed);
    QueueFits(t, size, pushed, 0);
    CarriesAllLength([], Datas(pushed));
    NeedsWords(pushed, size);
    NeedsPieces(Outstanding(t), size);
  }

  lemma NeedsWords(q: seq<TxPiece>, size: nat)
    requires AllFit(q, size)
    ensures TotalWords(Datas(q)) == 0 ==> q == []
  {
    if q != [] {
      assert q[0] in q && Datas(q)[0] == q[0].data;
    }
  }

  lemma NeedsPieces(frames: seq<seq<byte>>, size: nat)
    requires size > 0 && NonEmpty(frames)
    ensures SplitAll(frames, size) == [] ==> frames == []
  {
  }

  /** And at every moment the hardware transmit FIFO is within its limits, a checked frame has its room,
      and the reader's precondition holds. */
  lemma RunLimits(c: Config, states: seq<State>, actions: seq<Action>, n: nat)
    requires c.Ok() && IsRun(c, states, actions) && n < |states|
    ensures 4 * |states[n].tx.words| <= 4095 && |states[n].tx.lengths| <= 255
    ensures |states[n].tx.queue| <= c.txNum
    ensures |states[n].tx.pending| <= (c.txNum - |states[n].tx.queue|) * c.txSize
    ensures R.HaveStatus(states[n].rx.ring.frames)
    ensures AllCountable(states[n].tx.accepted) && states[n].rx.ring.frameSize <= DMA_MAX_LENGTH
    ensures forall i :: 0 <= i < |states[n].rx.hw.lengths| ==> states[n].rx.hw.lengths[i] <= DMA_MAX_LENGTH
  {
    RunInv(c, states, actions, n);
    hide *;
    var s := states[n];
    InvParts(c, s);
    FeedsOf(s.rx);
    RingFrames(s.rx);
    LengthsCounted(s.rx.hw, s.rx.ring, s.rx.line);
    TxLimits(s.tx, c.txNum, c.txSize);
  }

  lemma InvParts(c: Config, s: State)
    requires c.Ok() && Inv(c, s)
    ensures TxOk(s.tx, c.txNum, c.txSize) && RxOk(s.rx) && LineOk(s)
  {
  }

  lemma TxLimits(t: Tx, num: nat, size: nat)
    requires TxOk(t, num, size)
    ensures 4 * |t.words| <= 4095 && |t.lengths| <= 255
    ensures |t.queue| <= num && |t.pending| <= (num - |t.queue|) * size
    ensures AllCountable(t.accepted)
  {
  }

  lemma LengthsCounted(h: Hw, a: RxAbs, line: Line)
    requires Feeds(h, a, line)
    ensures a.frameSize <= DMA_MAX_LENGTH
    ensures forall i :: 0 <= i < |h.lengths| ==> h.lengths[i] <= DMA_MAX_LENGTH
  {
    hide CarriesAll, Unread;
  }
}
