/** From any state of a looped-back port: when can everything accepted still be delivered, without a purge? */
module Progress {
  import opened Words
  import D = Descriptors
  import opened RxQueue
  import opened RxFrames
  import opened TxQueue
  import opened Transmitter
  import opened Receiver
  import opened Loopback
  import R = RxReading
  import T = Transmitter
  import V = Receiver

  // ---------- reaching states ----------

  predicate IsPurge(a: Action) {
    a.DoPurge? || a.DoPurgeTx? || a.DoPurgeRx?
  }

  ghost predicate Path(c: Config, states: seq<State>, actions: seq<Action>)
    requires c.Ok()
  {
    && |states| == |actions| + 1
    && forall i :: 0 <= i < |actions| ==> !IsPurge(actions[i]) && Next(c, states[i], actions[i], states[i + 1])
  }

  // From s to t without a purge.
  ghost predicate Reaches(c: Config, s: State, t: State)
    requires c.Ok()
  {
    exists states, actions :: Path(c, states, actions) && states[0] == s && states[|actions|] == t
  }

  lemma ReachesItself(c: Config, s: State)
    requires c.Ok()
    ensures Reaches(c, s, s)
  {
    assert Path(c, [s], []);
  }

  lemma ReachesOn(c: Config, s: State, a: Action, s': State, t: State)
    requires c.Ok() && Next(c, s, a, s') && !IsPurge(a) && Reaches(c, s', t)
    ensures Reaches(c, s, t)
  {
    hide Next;
    var states, actions :| Path(c, states, actions) && states[0] == s' && states[|actions|] == t;
    var ss, aa := [s] + states, [a] + actions;
    forall i | 0 <= i < |aa| ensures !IsPurge(aa[i]) && Next(c, ss[i], aa[i], ss[i + 1]) {
      if i > 0 {
        assert aa[i] == actions[i - 1] && ss[i] == states[i - 1] && ss[i + 1] == states[i];
      }
    }
    assert Path(c, ss, aa) && ss[0] == s && ss[|aa|] == t;
  }

  lemma {:induction false} ReachesFurther(c: Config, states: seq<State>, actions: seq<Action>, n: nat, u: State)
    requires c.Ok() && Path(c, states, actions) && n <= |actions| && Reaches(c, states[|actions|], u)
    ensures Reaches(c, states[n], u)
    decreases |actions| - n
  {
    hide Next, Reaches;
    if n < |actions| {
      ReachesFurther(c, states, actions, n + 1, u);
      ReachesOn(c, states[n], actions[n], states[n + 1], u);
    }
  }

  lemma ReachesTransitive(c: Config, s: State, t: State, u: State)
    requires c.Ok() && Reaches(c, s, t) && Reaches(c, t, u)
    ensures Reaches(c, s, u)
  {
    hide Next;
    var states, actions :| Path(c, states, actions) && states[0] == s && states[|actions|] == t;
    ReachesFurther(c, states, actions, 0, u);
  }

  // ---------- sending everything ----------

  // Words in the hardware FIFO always belong to an announced frame.
  lemma WordsAnnounced(t: Tx, num: nat, size: nat)
    requires TxOk(t, num, size) && t.words != []
    ensures CanSend(t)
  {
    hide SplitAll, Datas, Lengths;
    var pushed :| PushedIs(t, size, pushed);
    if t.lengths == [] {
      LengthsOfHead(pushed);
      if pushed == [] {
        NoDatas();
        CarriesAllLength(t.shift + t.words, Datas(pushed));
      } else {
        HeadFrame(t, size, pushed);
      }
    }
  }

  lemma NoDatas()
    ensures TotalWords(Datas([])) == 0 && Lengths([]) == []
  {
  }

  /** With the hardware FIFO empty, at most one frame is announced; with the ring empty too, none is. */
  lemma OneAnnounced(t: Tx, num: nat, size: nat)
    requires TxOk(t, num, size) && t.words == []
    ensures |t.lengths| <= 1
    ensures t.queue == [] ==> t.shift == [] && t.sent == t.accepted
  {
    hide SplitAll, Datas, Lengths, CarriesAll, Carries, Split, WordCount, AllSmall, AllSendable, RoomOk;
    var pushed :| PushedIs(t, size, pushed);
    if pushed == [] {
      NoDatas();
      assert t.lengths == [];
      if t.queue == [] {
        QuietSent(t, size);
      }
    } else {
      HeadFrame(t, size, pushed);
      LengthsOfHead(pushed);
      var head := Split(Outstanding(t)[0], size);
      if |pushed| < |head| {
        CutHead(t, size, pushed);
      } else {
        FirstFrame(t.shift + t.words, Outstanding(t)[0], pushed[|head|..], size);
      }
    }
  }

  lemma CutHead(t: Tx, size: nat, pushed: seq<TxPiece>)
    requires PushedIs(t, size, pushed) && pushed != [] && Outstanding(t) != []
    requires |pushed| < |Split(Outstanding(t)[0], size)|
    ensures |t.lengths| == 1 && t.queue != []
  {
    hide Split, CarriesAll, AllSmall;
    var g := Outstanding(t);
    var head := Split(g[0], size);
    assert pushed == SplitAll(g, size)[..|pushed|] == head[..|pushed|];
    assert pushed == [head[0]] + pushed[1..];
    LengthsAppend([head[0]], pushed[1..]);
    NoLengths(pushed[1..]);
    LengthsDef([head[0]]);
    assert |SplitAll(g, size)| >= |head|;
  }

  /** No frame accepted has a descriptor too long for the FIFO: then neither has the ring. */
  lemma QueueSmall(t: Tx, num: nat, size: nat)
    requires TxOk(t, num, size) && AllSendable(t.accepted, size)
    ensures AllSmall(t.queue)
  {
    hide CarriesAll, Datas, Lengths, SplitAll;
    var pushed :| PushedIs(t, size, pushed);
    SplitAllSmall(Outstanding(t), size);
    assert forall p :: p in t.queue ==> p in pushed + t.queue;
  }

  lemma {:induction false} SplitAllSmall(frames: seq<seq<byte>>, size: nat)
    requires size > 0 && NonEmpty(frames) && AllSendable(frames, size)
    ensures AllSmall(SplitAll(frames, size))
  {
    hide Split;
    if frames != [] {
      SplitSmall(frames[0], size);
      SplitAllSmall(frames[1..], size);
    }
  }

  // One step towards an empty transmit side.
  lemma TxStep(c: Config, s: State) returns (a: Action, t: Tx)
    requires c.Ok() && Inv(c, s) && AllSendable(s.tx.accepted, c.txSize) && (s.tx.words != [] || s.tx.queue != [])
    ensures !IsPurge(a) && Next(c, s, a, s.(tx := t)) && t.accepted == s.tx.accepted
    ensures |t.queue| < |s.tx.queue| || (t.queue == s.tx.queue && |t.words| < |s.tx.words|)
  {
    hide TxOk, RxOk, LineOk, FillCount, AllSendable, ShowsFrames, ShowsBytes;
    if s.tx.words != [] {
      WordsAnnounced(s.tx, c.txNum, c.txSize);
      a, t := DoSend, Send(s.tx);
    } else {
      OneAnnounced(s.tx, c.txNum, c.txSize);
      QueueSmall(s.tx, c.txNum, c.txSize);
      var fc := FcWord(|s.tx.lengths|, 0, 0);
      PassesOne(s.tx.queue, |s.tx.lengths|);
      var ws := SomeWords(Datas(s.tx.queue[..FillCount(s.tx.queue, fc, 0)]));
      assert FramesShown(s.tx, fc) && BytesShown(s.tx, 0);
      a, t := DoPass(fc, 0, ws), Pass(s.tx, fc, 0, ws);
    }
  }

  lemma PassesOne(q: seq<TxPiece>, frames: nat)
    requires q != [] && AllSmall(q) && frames <= 1
    ensures FillCount(q, FcWord(frames, 0, 0), 0) > 0
    ensures ShowsFrames(FcWord(frames, 0, 0), frames) && ShowsBytes(0, 0)
  {
    hide FillCount, SizeInFifo, FcWord, BcWord, ShowsFrames, ShowsBytes;
    EmptyShown(frames);
    assert q[0] in q;
    ChargeWithinFifo(|q[0].data|);
    PassMoves(q, FcWord(frames, 0, 0), 0, frames, 0);
  }

  lemma EmptyShown(frames: nat)
    requires frames < 0x200
    ensures ShowsFrames(FcWord(frames, 0, 0), frames) && ShowsBytes(0, 0)
  {
    hide FcWord, BcWord;
    EmptyWord();
  }

  lemma EmptyWord()
    ensures BcWord(0, 0, 0) == 0
  {
  }

  lemma {:induction false} SendAll(c: Config, s: State) returns (t: State)
    requires c.Ok() && Inv(c, s) && AllSendable(s.tx.accepted, c.txSize)
    ensures Reaches(c, s, t) && Inv(c, t) && t.rx == s.rx
    ensures t.tx.queue == [] && t.tx.words == [] && t.tx.shift == []
    ensures t.tx.sent == t.tx.accepted == s.tx.accepted
    decreases |s.tx.queue|, |s.tx.words|
  {
    hide Next, Reaches, TxOk, RxOk, LineOk, AllSendable;
    if s.tx.words == [] && s.tx.queue == [] {
      t := s;
      ReachesItself(c, s);
      OneAnnounced(s.tx, c.txNum, c.txSize);
    } else {
      var a, tx := TxStep(c, s);
      var s' := s.(tx := tx);
      StepInv(c, s, a, s');
      t := SendAll(c, s');
      ReachesOn(c, s, a, s', t);
    }
  }

  // ---------- hearing everything ----------

  // What a card shows when `more` has come after `cur`.
  lemma Shown(cur: seq<byte>, more: seq<byte>) returns (ws: seq<Word>)
    ensures |Whole(cur)| <= |Whole(cur + more)| && Carries(ws, Whole(cur + more)[|Whole(cur)|..])
  {
    hide CarriesAll, Carries, Whole;
    WholeGrows(cur, more);
    ws := WordsFor(Whole(cur + more)[|Whole(cur)|..]);
  }

  /** The rest of the next frame comes over the line, and the card completes it. */
  lemma HearNext(c: Config, s: State) returns (t: State)
    requires c.Ok() && Inv(c, s) && |s.rx.arrived| < |s.tx.sent|
    ensures Reaches(c, s, t) && Inv(c, t)
    ensures t.tx == s.tx && |t.rx.arrived| == |s.rx.arrived| + 1
  {
    hide Reaches, TxOk, RxOk, Carries, Whole, Absorb;
    var frame, cur := s.tx.sent[|s.rx.arrived|], s.rx.line.cur;
    SentCountable(s.tx, c.txNum, c.txSize, |s.rx.arrived|);
    var more := frame[|cur|..];
    assert cur + more == frame;
    var ws := Shown(cur, more);
    var a := DoHear(Bytes(more, ws));
    var s' := s.(rx := HearStep(s.rx, Bytes(more, ws)));
    StepInv(c, s, a, s');
    var status: seq<byte> := [0, 0];
    WholeIsPrefix(frame);
    var vs := WordsFor((frame + status)[|Whole(frame)|..]);
    var e := FrameEnd(status, vs, |frame| + 2);
    t := s'.(rx := HearStep(s'.rx, e));
    StepInv(c, s', DoHear(e), t);
    ReachesItself(c, t);
    ReachesOn(c, s', DoHear(e), t, t);
    ReachesOn(c, s, a, s', t);
  }

  lemma SentCountable(t: Tx, num: nat, size: nat, i: nat)
    requires TxOk(t, num, size) && i < |t.sent|
    ensures D.Countable(t.sent[i])
  {
    assert t.sent[i] == t.accepted[i];
  }

  lemma WholeIsPrefix(cur: seq<byte>)
    ensures |Whole(cur)| <= |cur|
  {
  }

  lemma {:induction false} HearEverything(c: Config, s: State) returns (t: State)
    requires c.Ok() && Inv(c, s) && s.tx.shift == []
    ensures Reaches(c, s, t) && Inv(c, t) && t.tx == s.tx
    ensures |t.rx.arrived| == |t.tx.sent| && t.rx.line.cur == []
    decreases |s.tx.sent| - |s.rx.arrived|
  {
    hide Next, Reaches, TxOk, RxOk;
    if |s.rx.arrived| < |s.tx.sent| {
      var s' := HearNext(c, s);
      t := HearEverything(c, s');
      ReachesTransitive(c, s, s', t);
    } else {
      t := s;
      ReachesItself(c, s);
    }
  }

  // ---------- receiving and reading everything ----------

  /** A frame that can go all the way: no descriptor too long for the transmit FIFO, and with its two status
      bytes no more than the receive ring holds. */
  predicate Finishable(c: Config, frame: seq<byte>) {
    Sendable(frame, c.txSize) && |frame| + 2 <= c.rxNum * c.rxSize
  }

  predicate AllFinishable(c: Config, frames: seq<seq<byte>>) {
    forall i :: 0 <= i < |frames| ==> Finishable(c, frames[i])
  }

  function Total(frames: seq<seq<byte>>): nat {
    if frames == [] then 0 else |frames[0]| + Total(frames[1..])
  }

  // Bytes that have arrived in complete frames and are not in the ring yet.
  function Left(r: Rx): nat {
    var all := Total(r.line.todo);
    if r.line.todo == [] || all < |r.ring.tail| then 0 else all - |r.ring.tail|
  }

  lemma FirstTodo(c: Config, s: State)
    requires c.Ok() && Inv(c, s) && AllFinishable(c, s.tx.accepted) && s.rx.line.todo != []
    ensures |s.rx.line.todo[0]| <= c.rxNum * c.rxSize
    ensures |s.rx.ring.tail| < |s.rx.line.todo[0]| && Feeds(s.rx.hw, s.rx.ring, s.rx.line)
  {
    hide CarriesAll;
    var r := s.rx;
    var i := |r.delivered| + |r.ring.frames|;
    assert r.line.todo[0] == History(r.ring, r.line)[|r.ring.frames|] == r.arrived[i];
    SentAccepted(c, s, i);
  }

  lemma SentAccepted(c: Config, s: State, i: nat)
    requires c.Ok() && Inv(c, s) && AllFinishable(c, s.tx.accepted) && i < |s.rx.arrived|
    ensures i < |s.tx.sent| && |s.tx.sent[i]| + 2 <= c.rxNum * c.rxSize && Strip(s.rx.arrived[i]) == s.tx.sent[i]
  {
    hide RxOk;
    assert s.tx.sent[i] == s.tx.accepted[i];
    assert Finishable(c, s.tx.accepted[i]);
  }

  lemma RoomForTail(tail: seq<byte>, num: nat, size: nat)
    requires size > 0 && |tail| < num * size
    ensures |Layout([], tail, size)| < num
  {
    hide FullChunks, Remainder;
    FullBytes(tail, size);
    FewerTimes(|FullChunks(tail, size)|, num, size);
  }

  lemma FewerTimes(a: nat, b: nat, size: nat)
    requires a * size < b * size
    ensures a < b
  {
    if a >= b {
      MoreRoom(b, a, size);
    }
  }

  // An iteration that knows the frame's length takes something.
  lemma Advances(h: Hw, a: RxAbs, line: Line, size: nat, idle: Word)
    requires size > 0 && size % 4 == 0 && Feeds(h, a, line) && line.todo != []
    ensures var f := FrameStep(a, h, 0, D.NO_STAMP, size, idle).0;
      || (|f.frames| == |a.frames| + 1 && f.tail == [])
      || (f.frames == a.frames && |f.tail| > |a.tail|)
  {
    hide Feeds, Remainder, Got;
    assert CountOk(a, line, 0);
    TakenPrefix(h, a, line, 0, size, idle);
    StepKeepsFeeding(h, a, line, 0, D.NO_STAMP, size, idle);
    FeedsTodo(h, a, line);
  }

  lemma FeedsTodo(h: Hw, a: RxAbs, line: Line)
    requires Feeds(h, a, line) && line.todo != []
    ensures |a.tail| < |line.todo[0]|
  {
  }

  // One step towards an empty receive ring.
  lemma RxStep(c: Config, s: State) returns (a: Action, r: Rx)
    requires c.Ok() && Inv(c, s) && AllFinishable(c, s.tx.accepted)
    requires s.rx.line.todo != [] || s.rx.ring.frames != []
    ensures !IsPurge(a) && Next(c, s, a, s.(rx := r)) && Inv(c, s.(rx := r))
    ensures r.arrived == s.rx.arrived && r.line.cur == s.rx.line.cur
    ensures Left(r) < Left(s.rx) || (Left(r) == Left(s.rx) && |r.ring.frames| < |s.rx.ring.frames|)
  {
    hide TxOk, RxOk, LineOk, FrameStep, Layout, Feeds, AllFinishable;
    if s.rx.ring.frames != [] {
      RingFrames(s.rx);
      var o := R.Options(false, false, false);
      var room := |s.rx.ring.frames[0].bytes|;
      OneFits(s.rx.ring.frames, o);
      a, r := DoRead(room, o), V.ReadStep(s.rx, R.BatchCount(s.rx.ring.frames, room, o));
      StepInv(c, s, a, s.(rx := r));
    } else {
      FirstTodo(c, s);
      RoomForTail(s.rx.ring.tail, c.rxNum, c.rxSize);
      Advances(s.rx.hw, s.rx.ring, s.rx.line, c.rxSize, c.idle);
      a, r := DoReceive(0, D.NO_STAMP), ReceiveStep(s.rx, 0, D.NO_STAMP, c.rxSize, c.idle);
      StepInv(c, s, a, s.(rx := r));
      if r.line.todo != [] {
        FeedsOf(r);
        FeedsTodo(r.hw, r.ring, r.line);
      }
    }
  }

  lemma OneFits(frames: seq<Frame>, o: R.Options)
    requires R.HaveStatus(frames) && frames != [] && !o.appendTimestamp && !o.rxMultiple
    ensures R.BatchCount(frames, |frames[0].bytes|, o) == 1
  {
  }

  lemma {:induction false} ReadEverything(c: Config, s: State) returns (t: State)
    requires c.Ok() && Inv(c, s) && AllFinishable(c, s.tx.accepted)
    ensures Reaches(c, s, t) && Inv(c, t) && t.tx == s.tx
    ensures t.rx.arrived == s.rx.arrived && t.rx.line == Line([], s.rx.line.cur) && t.rx.ring.frames == []
    decreases Left(s.rx), |s.rx.ring.frames|
  {
    hide Next, Reaches, TxOk, RxOk, LineOk, AllFinishable, Left;
    if s.rx.line.todo == [] && s.rx.ring.frames == [] {
      t := s;
      ReachesItself(c, s);
    } else {
      var a, r := RxStep(c, s);
      t := ReadEverything(c, s.(rx := r));
      ReachesOn(c, s, a, s.(rx := r), t);
    }
  }

  /** If every frame accepted is finishable, then from any state some continuation without a purge delivers
      them all and leaves nothing waiting. */
  lemma CanFinish(c: Config, s: State) returns (t: State)
    requires c.Ok() && Inv(c, s) && AllFinishable(c, s.tx.accepted)
    ensures Reaches(c, s, t) && Quiet(t) && t.tx.accepted == s.tx.accepted
  {
    hide Next, Reaches, Inv;
    assert AllSendable(s.tx.accepted, c.txSize) by { Both(c, s.tx.accepted); }
    hide AllSendable, AllFinishable;
    var s1 := SendAll(c, s);
    var s2 := HearEverything(c, s1);
    t := ReadEverything(c, s2);
    ReachesTransitive(c, s, s1, s2);
    ReachesTransitive(c, s, s2, t);
  }

  lemma Both(c: Config, frames: seq<seq<byte>>)
    ensures AllFinishable(c, frames) ==> AllSendable(frames, c.txSize)
  {
  }

  // ---------- what stands in the way ----------

  /** The ring never holds more than its descriptors, so nothing longer has ever been delivered. */
  ghost predicate Fitting(c: Config, s: State)
    requires c.Ok()
  {
    && |Layout(s.rx.ring.frames, s.rx.ring.tail, c.rxSize)| <= c.rxNum
    && forall i :: 0 <= i < |s.rx.delivered| ==> |s.rx.delivered[i]| + 2 <= c.rxNum * c.rxSize
  }

  lemma {:induction false} ChunksHold(rest: seq<byte>, total: nat, stamp: D.Stamp, size: nat)
    requires size > 0
    ensures |rest| <= |Chunks(rest, total, stamp, size)| * size
  {
    if |rest| > size {
      ChunksHold(rest[size..], total, stamp, size);
      OneMore(|Chunks(rest[size..], total, stamp, size)|, size);
    }
  }

  lemma LayoutFirst(frames: seq<Frame>, tail: seq<byte>, size: nat)
    requires size > 0 && frames != []
    ensures Layout(frames, tail, size) == FrameChunks(frames[0], size) + Layout(frames[1..], tail, size)
  {
  }

  // A ring has fewer descriptors in use without its first k frames,
  lemma {:induction false} LayoutShrinks(frames: seq<Frame>, tail: seq<byte>, size: nat, k: nat)
    requires size > 0 && k <= |frames|
    ensures |Layout(frames[k..], tail, size)| <= |Layout(frames, tail, size)|
  {
    hide Layout, FrameChunks;
    if k == 0 {
      assert frames[k..] == frames;
    } else {
      LayoutFirst(frames, tail, size);
      LayoutShrinks(frames[1..], tail, size, k - 1);
      assert frames[1..][k - 1..] == frames[k..];
    }
  }

  // and holds each of its frames.
  lemma {:induction false} FrameFits(frames: seq<Frame>, tail: seq<byte>, size: nat, i: nat)
    requires size > 0 && i < |frames|
    ensures |frames[i].bytes| <= |Layout(frames, tail, size)| * size
  {
    hide Layout, Chunks;
    LayoutFirst(frames, tail, size);
    var all := |Layout(frames, tail, size)|;
    if i == 0 {
      ChunksHold(frames[0].bytes, |frames[0].bytes|, frames[0].stamp, size);
      MoreRoom(|FrameChunks(frames[0], size)|, all, size);
    } else {
      FrameFits(frames[1..], tail, size, i - 1);
      MoreRoom(|Layout(frames[1..], tail, size)|, all, size);
    }
  }

  lemma ReadFitting(c: Config, s: State, k: nat)
    requires c.Ok() && Fitting(c, s) && k <= |s.rx.ring.frames| && R.HaveStatus(s.rx.ring.frames)
    ensures Fitting(c, s.(rx := V.ReadStep(s.rx, k)))
  {
    hide Layout;
    var frames, tail := s.rx.ring.frames, s.rx.ring.tail;
    LayoutShrinks(frames, tail, c.rxSize, k);
    MoreRoom(|Layout(frames, tail, c.rxSize)|, c.rxNum, c.rxSize);
    forall i | 0 <= i < |frames| ensures |frames[i].bytes| <= c.rxNum * c.rxSize {
      FrameFits(frames, tail, c.rxSize, i);
    }
  }

  lemma StepFitting(c: Config, s: State, a: Action, s': State)
    requires c.Ok() && Inv(c, s) && Fitting(c, s) && Next(c, s, a, s')
    ensures Fitting(c, s')
    ensures IsPurge(a) || s.tx.accepted <= s'.tx.accepted
  {
    hide TxOk, RxOk, LineOk, FrameStep, Layout, Plausible, CountOk;
    match a
    case DoReceive(count, now) =>
      FeedsOf(s.rx);
      OneMoreDescriptor(s.rx.ring, s.rx.hw, s.rx.line, count, now, c.rxSize, c.idle);
    case DoRead(room, o) => ReadFitting(c, s, R.BatchCount(s.rx.ring.frames, room, o));
    case DoPurge => NothingFits(c);
    case DoPurgeRx => NothingFits(c);
    case _ =>
  }

  lemma NothingFits(c: Config)
    requires c.Ok()
    ensures Layout([], [], c.rxSize) == []
  {
  }

  lemma {:induction false} RunFitting(c: Config, states: seq<State>, actions: seq<Action>, n: nat)
    requires c.Ok() && IsRun(c, states, actions) && n < |states|
    ensures Fitting(c, states[n])
  {
    hide Next, Inv;
    if n == 0 {
      NothingFits(c);
    } else {
      RunFitting(c, states, actions, n - 1);
      RunInv(c, states, actions, n - 1);
      StepFitting(c, states[n - 1], actions[n - 1], states[n]);
    }
  }

  lemma {:induction false} PathKeeps(c: Config, states: seq<State>, actions: seq<Action>, n: nat)
    requires c.Ok() && Path(c, states, actions) && n < |states| && Inv(c, states[0]) && Fitting(c, states[0])
    ensures Inv(c, states[n]) && Fitting(c, states[n]) && states[0].tx.accepted <= states[n].tx.accepted
  {
    hide Next, Inv, Fitting;
    if n > 0 {
      PathKeeps(c, states, actions, n - 1);
      StepInv(c, states[n - 1], actions[n - 1], states[n]);
      StepFitting(c, states[n - 1], actions[n - 1], states[n]);
    }
  }

  lemma QuietDelivered(c: Config, s: State)
    requires c.Ok() && Inv(c, s) && Quiet(s)
    ensures s.rx.delivered == s.tx.sent == s.tx.accepted && AllSendable(s.tx.accepted, c.txSize)
  {
    hide Feeds;
    QuietSent(s.tx, c.txSize);
    assert s.rx.delivered == s.tx.accepted[..|s.rx.delivered|];
  }

  // When nothing is waiting any more, everything accepted was finishable.
  lemma FinishedFits(c: Config, s: State, t: State)
    requires c.Ok() && Inv(c, s) && Fitting(c, s) && Reaches(c, s, t) && Quiet(t)
    ensures s.tx.accepted <= t.rx.delivered && AllFinishable(c, s.tx.accepted)
  {
    hide Inv, Next, Quiet;
    var states, actions :| Path(c, states, actions) && states[0] == s && states[|actions|] == t;
    PathKeeps(c, states, actions, |actions|);
    QuietDelivered(c, t);
    forall i | 0 <= i < |s.tx.accepted| ensures Finishable(c, s.tx.accepted[i]) {
      assert s.tx.accepted[i] == t.tx.accepted[i];
    }
  }

  /** Progress: in every reachable state, it is still possible without a purge that everything accepted is
      delivered and nothing waits any more, if and only if every frame accepted is finishable. A writer can
      check that before writing: one other frame among them, and only a purge helps. */
  lemma CanFinishIff(c: Config, states: seq<State>, actions: seq<Action>, n: nat)
    requires c.Ok() && IsRun(c, states, actions) && n < |states|
    ensures (exists t :: Reaches(c, states[n], t) && Quiet(t)) <==> AllFinishable(c, states[n].tx.accepted)
    ensures forall t :: Reaches(c, states[n], t) && Quiet(t) ==> states[n].tx.accepted <= t.rx.delivered
  {
    hide *;
    var s := states[n];
    RunInv(c, states, actions, n);
    RunFitting(c, states, actions, n);
    if AllFinishable(c, s.tx.accepted) {
      var t := CanFinish(c, s);
    }
    forall t | Reaches(c, s, t) && Quiet(t)
      ensures s.tx.accepted <= t.rx.delivered && AllFinishable(c, s.tx.accepted)
    {
      FinishedFits(c, s, t);
    }
  }

  /** It does happen: seven bytes, for a receive ring of two buffers of four. */
  lemma Blocked(idle: Word) returns (c: Config, states: seq<State>, actions: seq<Action>)
    ensures c == Config(2, 8, 2, 4, idle) && IsRun(c, states, actions) && |actions| == 2
    ensures states[2].tx.accepted == [[1, 2, 3, 4, 5, 6, 7]]
    ensures forall t :: Reaches(c, states[2], t) ==> !Quiet(t)
  {
    c := Config(2, 8, 2, 4, idle);
    var frame: seq<byte> := [1, 2, 3, 4, 5, 6, 7];
    var s0 := State(T.START, V.START);
    var s1 := s0.(tx := Check(s0.tx, frame));
    var s2 := s1.(tx := Write(s1.tx, c.txNum, c.txSize));
    states, actions := [s0, s1, s2], [DoCheck(frame), DoWrite];
    hide Write, Reaches, Quiet;
    assert s2.tx.accepted == [frame] by { Accepts(s1.tx, c.txNum, c.txSize); }
    assert IsRun(c, states, actions);
    CanFinishIff(c, states, actions, 2);
    assert !Finishable(c, states[2].tx.accepted[0]);
  }

  lemma Accepts(t: Tx, num: nat, size: nat)
    requires size > 0 && CanWrite(t, num)
    ensures Write(t, num, size).accepted == t.accepted + [t.pending]
  {
  }
}
