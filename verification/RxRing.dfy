/** The receive descriptor ring in FIFO mode, filled in place by the FIFO passes and emptied by the user's reads. */
module RxRing {
  import opened Words
  import opened Card
  import opened Descriptors
  import opened RxQueue
  import opened RxFrames
  import R = RxReading

  ghost function HwOf(fifo: HardwareFifo): Hw
    reads fifo
  {
    Hw(fifo.words, fifo.lengths)
  }

  class RxRing {
    const num: nat
    const size: nat
    const descs: array<DmaFrame>
    var userDesc: nat      // where the next read starts
    var fifoDesc: nat      // the descriptor being filled
    var bytesInFrame: nat  // bytes of the current frame taken from the hardware so far
    var frameSize: nat     // its length, 0 while not known
    ghost var ready: seq<RxPiece>

    ghost predicate Shape()
      reads this`userDesc, this`fifoDesc, descs
    {
      && 2 <= num == descs.Length
      && size % 4 == 0
      && userDesc < num && fifoDesc < num
      && forall j :: 0 <= j < num ==> |descs[j].buffer| == size && descs[j].control.Fits()
    }

    // Buffers hold something, and no more than a control word can count.
    ghost predicate Usable() {
      0 < size <= DMA_MAX_LENGTH
    }

    static ghost predicate Holds(d: DmaFrame, p: RxPiece) {
      && d.control.cstop
      && match p
         case Full(data) => !d.control.fe && d.dataCount == |data| && data <= d.buffer
         case Last(data, total, stamp) =>
           d.control.fe && d.control.cnt == total && data <= d.buffer && d.timestamp == stamp
    }

    static ghost predicate Free(d: DmaFrame) {
      !d.control.cstop && !d.control.fe && d.timestamp == NO_STAMP
    }

    // The finished descriptors are exactly the circular run from userDesc up to fifoDesc, and only the
    // one at fifoDesc may be partly filled.
    ghost predicate Valid()
      reads this`userDesc, this`fifoDesc, this`ready, descs
    {
      && Shape() && Usable()
      && |ready| <= num
      && fifoDesc == At(userDesc, |ready|, num)
      && (forall j :: 0 <= j < |ready| ==> Holds(descs[At(userDesc, j, num)], ready[j]))
      && (forall j :: |ready| <= j < num ==> Free(descs[At(userDesc, j, num)]))
      && (forall j :: |ready| < j < num ==> descs[At(userDesc, j, num)].control.cnt == 0)
      && (|ready| < num ==> descs[fifoDesc].control.cnt < size)
    }

    ghost function Partial(): (bs: seq<byte>)
      requires Valid()
      reads this`userDesc, this`fifoDesc, this`ready, descs
      ensures |bs| < size
    {
      if |ready| < num then descs[fifoDesc].buffer[..descs[fifoDesc].control.cnt] else []
    }

    ghost function State(): (s: RxState)
      requires Valid()
      reads this, descs
      ensures |s.partial| < size && |s.ready| <= num
      ensures s.ready == ready && s.partial == Partial() && s.inFrame == bytesInFrame && s.frameSize == frameSize
    {
      RxState(ready, Partial(), bytesInFrame, frameSize)
    }

    constructor (numberOfBuffers: nat, sizeOfBuffers: nat)
      requires sizeOfBuffers < 0x1_0000_0000
      ensures Shape() && fresh(descs)
      ensures Usable() ==> Valid() && State() == RxState([], [], 0, 0)
      ensures num == (if numberOfBuffers < 2 then 2 else numberOfBuffers)
      ensures size == RoundedSize(sizeOfBuffers)
    {
      var n := if numberOfBuffers < 2 then 2 else numberOfBuffers;
      var bytes := RoundedSize(sizeOfBuffers);
      num, size := n, bytes;
      descs := new DmaFrame[n](i =>
        DmaFrame(if i % 2 != 0 then IDLE else Control(false, false, false, 0), bytes, seq(bytes, _ => 0), NO_STAMP));
      userDesc, fifoDesc, bytesInFrame, frameSize := 0, 0, 0, 0;
      ready := [];
      new;
      assert forall j :: 0 <= j < num ==> At(0, j, num) == j;
    }

    /** fscc_io_reset_rx, less the register writes: empty, whatever state the ring was in. */
    method Reset()
      requires Shape()
      modifies this, descs
      ensures Shape() && (Valid() <==> Usable())
      ensures Usable() ==> State() == RxState([], [], 0, 0)
    {
      var i := 0;
      while i < num
        invariant 0 <= i <= num
        invariant Shape()
        invariant forall j :: 0 <= j < i ==> descs[j].control == IDLE && descs[j].timestamp == NO_STAMP
      {
        descs[i] := descs[i].(control := IDLE, dataCount := |descs[i].buffer|, timestamp := NO_STAMP);
        i := i + 1;
      }
      userDesc, fifoDesc, bytesInFrame, frameSize := 0, 0, 0, 0;
      ready := [];
      assert forall j :: 0 <= j < num ==> At(0, j, num) == j;
    }

    lemma FifoDescFree()
      requires Valid()
      ensures fifoDesc < descs.Length && |ready| <= num == descs.Length && 0 < size
      ensures descs[fifoDesc].control.cstop <==> |ready| == num
      ensures |ready| < num ==> descs[fifoDesc].control.cnt < size == |descs[fifoDesc].buffer|
      ensures |ready| < num ==> Partial() == descs[fifoDesc].buffer[..descs[fifoDesc].control.cnt]
      ensures |ready| < num ==> Free(descs[fifoDesc])
    {
      if |ready| < num {
        assert Free(descs[At(userDesc, |ready|, num)]);
      } else {
        assert Holds(descs[At(userDesc, 0, num)], ready[0]);
      }
    }

    // Stores an unfinished descriptor back.
    method KeepFilling(d: DmaFrame)
      requires Valid() && |ready| < num
      requires Free(d) && d.control.cnt < size == |d.buffer|
      modifies descs
      ensures Valid() && Partial() == d.buffer[..d.control.cnt]
    {
      descs[fifoDesc] := d;
    }

    // Stores a finished descriptor and moves on to the next.
    method Finish(d: DmaFrame, ghost p: RxPiece)
      requires Valid() && |ready| < num
      requires Holds(d, p) && |d.buffer| == size && d.control.Fits()
      modifies this`fifoDesc, this`ready, descs
      ensures Valid() && ready == old(ready) + [p] && Partial() == []
    {
      descs[fifoDesc] := d;
      fifoDesc := Next(fifoDesc, num);
      ready := ready + [p];
    }

    // Pulls n bytes from the hardware, if any are wanted at all.
    method Fetch(fifo: HardwareFifo, n: nat) returns (bs: seq<byte>)
      modifies fifo`words
      ensures bs == Got(old(fifo.words), n, fifo.idle)
      ensures fifo.words == DropWords(old(fifo.words), WordCount(n))
    {
      bs := [];
      if n != 0 {
        bs := fifo.GetRep(n);
      } else {
        assert fifo.words[0..] == fifo.words;
      }
    }

    /** The body of the read loop for a descriptor that is not finished yet. */
    method ReadIteration(fifo: HardwareFifo, bc: nat, now: Stamp) returns (finished: bool)
      requires Valid() && |ready| < num
      modifies this`fifoDesc, this`bytesInFrame, this`frameSize, this`ready, descs, fifo
      ensures Valid()
      ensures (State(), HwOf(fifo)) == ReadStep(old(State()), old(HwOf(fifo)), bc, now, size, fifo.idle)
      ensures finished <==> |ready| > |old(ready)|
    {
      hide Valid, Got, DropWords, At, Next, WordCount, Partial;
      FifoDescFree();
      ghost var s := State();
      ghost var h := HwOf(fifo);
      var d := descs[fifoDesc];
      var receiveLength := ReceiveLength(fifo, bc, |d.buffer| - d.control.cnt);
      var incoming := Fetch(fifo, receiveLength);
      var buffer := Splice(d.buffer, d.control.cnt, incoming);
      ghost var data := buffer[..d.control.cnt + receiveLength];
      assert data == s.partial + Got(h.words, receiveLength, fifo.idle);
      finished := Finalize(d, buffer, receiveLength, now);
    }

    // Picks up the frame's length if it has been posted, and decides how much to read.
    method ReceiveLength(fifo: HardwareFifo, bc: nat, room: nat) returns (receiveLength: nat)
      modifies this`frameSize, fifo`lengths
      ensures frameSize == Noted(old(frameSize), old(HwOf(fifo)))
      ensures fifo.lengths == LengthsLeft(old(frameSize), old(HwOf(fifo)))
      ensures receiveLength == Wanted(frameSize, bytesInFrame, bc, room)
    {
      if frameSize == 0 {
        if fifo.lengths != [] {
          frameSize := fifo.lengths[0];
          fifo.lengths := fifo.lengths[1..];
        }
      }
      receiveLength := 0;
      if frameSize != 0 {
        if frameSize > bytesInFrame {
          receiveLength := frameSize - bytesInFrame;
        }
      } else {
        var rxcnt := Rxcnt(bc);
        receiveLength := rxcnt - rxcnt % 4;
      }
      receiveLength := Min(receiveLength, room);
    }

    // Accounts for n new bytes, now in `buffer`, in the descriptor being filled.
    method Finalize(d: DmaFrame, buffer: seq<byte>, n: nat, now: Stamp) returns (finished: bool)
      requires Valid() && |ready| < num && d == descs[fifoDesc]
      requires |buffer| == size && d.control.cnt + n <= size
      modifies this`fifoDesc, this`bytesInFrame, this`frameSize, this`ready, descs
      ensures Valid()
      ensures var data := buffer[..d.control.cnt + n];
        State() ==
          if old(frameSize) > 0 && old(bytesInFrame) + n >= old(frameSize) then
            RxState(old(ready) + [Last(data, Counted(old(frameSize)), now)], [], 0, 0)
          else if |data| >= size then RxState(old(ready) + [Full(data)], [], old(bytesInFrame) + n, old(frameSize))
          else RxState(old(ready), data, old(bytesInFrame) + n, old(frameSize))
      ensures finished <==> |ready| > |old(ready)|
    {
      hide Valid, At, Next;
      FifoDescFree();
      ghost var data := buffer[..d.control.cnt + n];
      ghost var piece := Full(data);
      var control := d.control.(cnt := d.control.cnt + n);
      bytesInFrame := bytesInFrame + n;
      if control.cnt >= |d.buffer| {
        control := control.(cnt := 0, cstop := true);
      }
      if frameSize > 0 {
        if bytesInFrame >= frameSize {
          control := EndControl(frameSize);
          piece := Last(data, Counted(frameSize), now);
          frameSize := 0;
          bytesInFrame := 0;
        }
      }
      finished := control.cstop;
      if finished {
        var stamp := if d.timestamp == NO_STAMP then now else d.timestamp;
        Finish(DmaFrame(control, |d.buffer|, buffer, stamp), piece);
      } else {
        KeepFilling(d.(control := control, buffer := buffer));
      }
    }

    // A buffer with part of it overwritten from `at` on.
    static function Splice(buffer: seq<byte>, at: nat, bs: seq<byte>): (r: seq<byte>)
      requires at + |bs| <= |buffer|
      ensures |r| == |buffer| && r[..at + |bs|] == buffer[..at] + bs
    {
      buffer[..at] + bs + buffer[at + |bs|..]
    }

    /** Fills descriptors until one stays unfinished or the ring is full. `snaps` says what arrives at
        the card before each iteration and what its byte count register then shows. */
    method FifoReadData(fifo: HardwareFifo, snaps: seq<Snapshot>)
      requires Valid() && |snaps| == num
      modifies this`fifoDesc, this`bytesInFrame, this`frameSize, this`ready, descs, fifo
      ensures Valid()
      ensures (State(), HwOf(fifo)) == ReadData(old(State()), old(HwOf(fifo)), snaps, size, num, fifo.idle)
    {
      hide *;
      FifoDescFree();
      ghost var goal := ReadData(State(), HwOf(fifo), snaps, size, num, fifo.idle);
      assert snaps[0..] == snaps;
      var i := 0;
      while i < num
        invariant 0 <= i <= num
        invariant Valid() && |ready| <= num
        invariant goal == ReadData(State(), HwOf(fifo), snaps[i..], size, num, fifo.idle)
      {
        FifoDescFree();
        ReadDataDef(State(), HwOf(fifo), snaps, i, size, num, fifo.idle);
        if descs[fifoDesc].control.cstop {
          break;
        }
        Arrive(fifo, snaps[i].events);
        var finished := ReadIteration(fifo, snaps[i].bc, snaps[i].now);
        i := i + 1;
        if !finished {
          return;
        }
      }
      FifoDescFree();
      ReadDataDef(State(), HwOf(fifo), snaps, i, size, num, fifo.idle);
    }

    // The line delivers to the card.
    method Arrive(fifo: HardwareFifo, events: seq<HwEvent>)
      modifies fifo
      ensures HwOf(fifo) == AbsorbAll(old(HwOf(fifo)), events)
    {
      var h := AbsorbAll(Hw(fifo.words, fifo.lengths), events);
      fifo.words, fifo.lengths := h.words, h.lengths;
    }

    /** fscc_user_next_read_size. */
    method NextReadSize() returns (frameReady: bool, bytes: nat)
      requires Valid()
      ensures (frameReady, bytes) == NextSize(ready)
    {
      frameReady, bytes := false, 0;
      var curDesc := userDesc;
      var i := 0;
      assert ready[0..] == ready;
      while i < num
        invariant 0 <= i <= |ready|
        invariant curDesc == At(userDesc, i, num)
        invariant var rest := NextSize(ready[i..]); NextSize(ready) == if rest.0 then rest else (false, bytes + rest.1)
      {
        if i < |ready| {
          assert ready[i..][0] == ready[i] && ready[i..][1..] == ready[i + 1..];
          assert Holds(descs[curDesc], ready[i]);
        } else {
          assert Free(descs[At(userDesc, i, num)]);
        }
        var control := descs[curDesc].control;
        if !control.fe && !control.cstop {
          break;
        }
        if control.fe && control.cstop {
          bytes := control.cnt;
          return true, bytes;
        }
        bytes := bytes + descs[curDesc].dataCount;
        curDesc := Next(curDesc, num);
        i := i + 1;
      }
      frameReady := false;
    }

    lemma UserDescHead()
      requires Valid() && ready != []
      ensures userDesc < descs.Length && |ready| <= num && 0 < size == |descs[userDesc].buffer|
      ensures Holds(descs[userDesc], ready[0])
    {
      assert At(userDesc, 0, num) == userDesc;
    }

    lemma Bounds()
      requires Valid()
      ensures 0 < num && 0 < size && |ready| <= num
    {
    }

    // The descriptor that holds the next part of frame f.
    lemma HeadFields(f: Frame, rest: seq<byte>, others: seq<RxPiece>)
      requires Valid() && 0 < size && |f.bytes| >= 2
      requires ready == Chunks(rest, |f.bytes|, f.stamp, size) + others
      ensures ready != [] && userDesc < descs.Length && |ready| <= num
      ensures ready[1..] == if R.After(rest, size) == [] then others
                            else Chunks(R.After(rest, size), |f.bytes|, f.stamp, size) + others
      ensures var d := descs[userDesc];
        && |d.buffer| == size && d.control.cstop
        && (d.control.fe <==> |rest| <= size)
        && (d.control.fe ==> d.control.cnt == |f.bytes| && d.timestamp == f.stamp)
        && (!d.control.fe ==> d.dataCount == size)
        && rest[..Min(|rest|, size)] == d.buffer[..Min(|rest|, size)]
    {
      hide Valid, Chunks;
      R.ChunksHead(rest, f, others, size);
      UserDescHead();
      var d := descs[userDesc];
      assert d.buffer[..|ready[0].data|] == ready[0].data;
      assert rest[..|rest|] == rest;
    }

    // Gives the descriptor at userDesc back to the FIFO side.
    method Release(d: DmaFrame)
      requires Valid() && ready != []
      requires Free(d) && d.control.cnt == 0 && |d.buffer| == size
      modifies this`userDesc, this`ready, descs
      ensures Valid() && ready == old(ready)[1..] && Partial() == old(Partial())
    {
      hide At, Next;
      Turn(userDesc, num);
      descs[userDesc] := d;
      assert d.buffer[..0] == [];
      userDesc := Next(userDesc, num);
      ready := ready[1..];
    }

    /** The body of the frame read loop: hands out what the descriptor at userDesc still owes the user,
        the time stamp too when the frame ends there, and releases it. */
    method MoveDescriptor(buf: array<byte>, out: nat, totalValid: nat, bytesInDescs: nat, filled: nat,
                          o: R.Options, now: Stamp, ghost f: Frame, ghost rest: seq<byte>, ghost others: seq<RxPiece>)
      returns (out': nat, totalValid': nat, bytesInDescs': nat, filled': nat)
      requires Valid() && |f.bytes| >= 2 && R.Ends(f, rest) && rest != []
      requires ready == Chunks(rest, |f.bytes|, f.stamp, size) + others
      requires filled == R.Filled(f, rest, o) && totalValid == R.Owed(f, o) - filled && bytesInDescs == |rest|
      requires out + totalValid + |R.Trailer(f, o, now)| <= buf.Length
      requires buf as object != descs
      modifies this`userDesc, this`ready, descs, buf
      ensures Valid() && Partial() == old(Partial()) && |ready| + 1 == |old(ready)|
      ensures var left := R.After(rest, size);
        && ready == (if left == [] then others else Chunks(left, |f.bytes|, f.stamp, size) + others)
        && filled' == R.Filled(f, left, o) && totalValid' == R.Owed(f, o) - filled' && bytesInDescs' == |left|
        && R.Ends(f, left) && |left| <= |f.bytes| && filled <= filled' <= |f.bytes|
        && out' == out + (filled' - filled) + (if left == [] then |R.Trailer(f, o, now)| else 0) <= buf.Length
        && buf[..out'] == old(buf[..out]) + f.bytes[filled..filled'] + (if left == [] then R.Trailer(f, o, now) else [])
        && (forall j :: out' <= j < buf.Length ==> buf[j] == old(buf[j]))
    {
      hide *;
      Bounds();
      HeadFields(f, rest, others);
      var d := descs[userDesc];
      var plannedMoveSize := d.dataCount;
      if d.control.fe && d.control.cstop {
        plannedMoveSize := d.control.cnt - filled;
      }
      var realMoveSize := if plannedMoveSize > totalValid then totalValid else plannedMoveSize;
      R.MoveCounts(f, rest, o, size, plannedMoveSize);
      MoveEnds(f, rest, o, now, plannedMoveSize, realMoveSize, d.buffer);
      bytesInDescs' := if plannedMoveSize > bytesInDescs then 0 else bytesInDescs - plannedMoveSize;
      totalValid' := totalValid - realMoveSize;
      filled' := filled + realMoveSize;
      var stamp := if d.timestamp == NO_STAMP then now else d.timestamp;
      out' := HandOut(buf, out, d.buffer[..realMoveSize], bytesInDescs' == 0 && o.appendTimestamp, stamp);
      ReleaseIdle();
    }

    // The arithmetic of one move, in the terms MoveDescriptor uses.
    lemma MoveEnds(f: Frame, rest: seq<byte>, o: R.Options, now: Stamp, planned: nat, moved: nat, buffer: seq<byte>)
      requires 0 < size == |buffer| && |f.bytes| >= 2 && R.Ends(f, rest) && rest != []
      requires planned == if |rest| <= size then |f.bytes| - R.Filled(f, rest, o) else size
      requires var due := R.Owed(f, o) - R.Filled(f, rest, o);
        moved == if planned > due then due else planned
      requires rest[..Min(|rest|, size)] == buffer[..Min(|rest|, size)]
      ensures var filled, left := R.Filled(f, rest, o), R.After(rest, size);
        && R.Ends(f, left) && |left| <= |f.bytes|
        && |left| == (if planned > |rest| then 0 else |rest| - planned)
        && filled + moved == R.Filled(f, left, o) <= |f.bytes|
        && moved <= |buffer|
        && buffer[..moved] == f.bytes[filled..filled + moved]
        && (left == [] <==> |rest| <= size)
        && R.Trailer(f, o, now) == if o.appendTimestamp then (if f.stamp == NO_STAMP then now else f.stamp) else []
    {
      R.MoveCounts(f, rest, o, size, planned);
      assert buffer[..moved] == buffer[..Min(|rest|, size)][..moved] == rest[..moved];
    }

    method ReleaseIdle()
      requires Valid() && ready != []
      modifies this`userDesc, this`ready, descs
      ensures Valid() && ready == old(ready)[1..] && Partial() == old(Partial())
    {
      UserDescHead();
      Release(descs[userDesc].(control := IDLE, timestamp := NO_STAMP));
    }

    /** Between frames: is another frame ready, and does it fit in what is left of the buffer? */
    method FindFrame(room: nat, o: R.Options, now: Stamp,
                     ghost a: RxAbs, ghost k: nat, ghost out: seq<byte>, ghost length: nat, ghost total: nat)
      returns (found: bool, bytesInDescs: nat, totalValid: nat)
      requires Valid() && R.Boundary(a.frames, k, out, length, total, o, now) && |out| + room == length
      requires k <= |a.frames| && ready == Layout(a.frames[k..], a.tail, size)
      requires k == 0 || o.rxMultiple
      ensures !found ==> total == k
      ensures found ==>
        && k < |a.frames|
        && var f := a.frames[k];
        && 2 <= |f.bytes| == bytesInDescs
        && R.Inside(a.frames, k, f.bytes, out, length, total, o, now)
        && ready == Chunks(f.bytes, |f.bytes|, f.stamp, size) + Layout(a.frames[k + 1..], a.tail, size)
        && R.Filled(f, f.bytes, o) == 0 && totalValid == R.Owed(f, o)
    {
      hide *;
      Bounds();
      R.AtBoundary(a.frames, k, a.tail, size, out, length, total, o, now);
      totalValid := 0;
      found, bytesInDescs := NextReadSize();
      if found {
        totalValid := bytesInDescs - (if o.appendStatus then 0 else 2);
        var bufferRequirement := totalValid + (if o.appendTimestamp then 8 else 0);
        found := bufferRequirement <= room;
      }
    }

    /** fscc_user_read_frame: hands out as many of the ready frames as the options and the buffer allow,
        whole and in order, or nothing at all. */
    method UserReadFrame(buf: array<byte>, o: R.Options, now: Stamp, ghost a: RxAbs)
      returns (status: Status, outLength: nat)
      requires Valid() && Framed(State(), a, size) && R.HaveStatus(a.frames)
      requires buf as object != descs
      modifies this`userDesc, this`ready, descs, buf
      ensures Valid()
      ensures var k := R.BatchCount(a.frames, buf.Length, o);
        && Framed(State(), RxAbs(a.frames[k..], a.tail, a.frameSize), size)
        && status == (if k > 0 then Success else BufferTooSmall)
        && outLength <= buf.Length
        && buf[..outLength] == R.Batch(a.frames[..k], o, now)
        && (forall j :: outLength <= j < buf.Length ==> buf[j] == old(buf[j]))
    {
      hide *;
      Bounds();
      ghost var frames, tail, k := a.frames, a.tail, 0;
      ghost var total := R.BatchCount(frames, buf.Length, o);
      ReadStart(a);
      assert frames[0..] == frames;
      R.StartReading(frames, buf.Length, o, now);
      status, outLength := Success, 0;
      assert buf[..outLength] == [];
      var found, bytesInDescs, totalValid := FindFrame(buf.Length, o, now, a, 0, [], buf.Length, total);
      if !found {
        BoundaryEnd(a, 0, [], buf.Length, total, o, now);
        return BufferTooSmall, 0;
      }
      ghost var rest := frames[0].bytes;
      var filled := 0;
      var i := 0;
      while i < num
        invariant 0 <= i && i + |ready| <= num
        invariant Valid() && Partial() == old(Partial())
        invariant outLength <= buf.Length && (forall j :: outLength <= j < buf.Length ==> buf[j] == old(buf[j]))
        invariant R.Inside(frames, k, rest, buf[..outLength], buf.Length, total, o, now)
        invariant k < |frames| && 2 <= |frames[k].bytes| && |rest| <= |frames[k].bytes| && rest != []
        invariant ready == Chunks(rest, |frames[k].bytes|, frames[k].stamp, size) + Layout(frames[k + 1..], tail, size)
        invariant filled == R.Filled(frames[k], rest, o) && totalValid == R.Owed(frames[k], o) - filled
        invariant bytesInDescs == |rest|
        invariant !o.rxMultiple ==> k == 0
      {
        ghost var f, done := frames[k], buf[..outLength];
        R.InsideFacts(frames, k, rest, done, buf.Length, total, o, now);
        R.InsideStep(frames, k, rest, done, buf.Length, total, o, now, size);
        ghost var moved := done + f.bytes[filled..R.Filled(f, R.After(rest, size), o)];
        assert moved + [] == moved;
        outLength, totalValid, bytesInDescs, filled :=
          MoveDescriptor(buf, outLength, totalValid, bytesInDescs, filled, o, now, f, rest,
                         Layout(frames[k + 1..], tail, size));
        i := i + 1;
        rest := R.After(rest, size);
        if bytesInDescs == 0 {
          k := k + 1;
          if !o.rxMultiple {
            R.AtBoundary(frames, k, tail, size, buf[..outLength], buf.Length, total, o, now);
            break;
          }
          found, bytesInDescs, totalValid :=
            FindFrame(buf.Length - outLength, o, now, a, k, buf[..outLength], buf.Length, total);
          if !found {
            break;
          }
          filled := 0;
          rest := frames[k].bytes;
        }
      }
      BoundaryEnd(a, k, buf[..outLength], buf.Length, total, o, now);
    }

    // What the reader starts from.
    lemma ReadStart(a: RxAbs)
      requires Valid() && 0 < size && Framed(State(), a, size)
      ensures ready == Layout(a.frames, a.tail, size) && |ready| <= num
      ensures Partial() == Remainder(a.tail, size) && bytesInFrame == |a.tail| && frameSize == a.frameSize
    {
    }

    // Where the reader stops.
    lemma BoundaryEnd(a: RxAbs, k: nat, out: seq<byte>, room: nat, total: nat, o: R.Options, now: Stamp)
      requires Valid() && R.Boundary(a.frames, k, out, room, total, o, now) && total == k
      requires Partial() == Remainder(a.tail, size) && bytesInFrame == |a.tail| && frameSize == a.frameSize
      requires ready == Layout(a.frames[k..], a.tail, size)
      ensures k <= |a.frames| && R.HaveStatus(a.frames[..k]) && out == R.Batch(a.frames[..k], o, now)
      ensures Framed(State(), RxAbs(a.frames[k..], a.tail, a.frameSize), size)
    {
    }

    // Moves the unread end of the first descriptor to its front.
    method ShiftHead(n: nat)
      requires Valid() && ready != [] && ready[0].Full? && n < |ready[0].data|
      modifies this`ready, descs
      ensures Valid() && ready == [Full(old(ready)[0].data[n..])] + old(ready)[1..]
      ensures Partial() == old(Partial())
    {
      UserDescHead();
      var d := descs[userDesc];
      ghost var data := ready[0].data;
      var remaining := d.dataCount - n;
      var buffer := d.buffer[n..n + remaining] + d.buffer[remaining..];
      assert data[n..] == d.buffer[n..n + remaining] <= buffer by { assert data == d.buffer[..|data|]; }
      assert forall j :: 0 < j < num ==> At(userDesc, j, num) != userDesc;
      descs[userDesc] := d.(dataCount := remaining, buffer := buffer);
      ready := [Full(data[n..])] + ready[1..];
    }

    // The first descriptor as the stream reader sees it, whole or cut at n.
    lemma StreamHead(n: nat)
      requires Valid() && R.AllFull(ready)
      ensures userDesc < descs.Length && |ready| <= num
      ensures var d := descs[userDesc];
        && (d.control.fe || d.control.cstop <==> ready != [])
        && (ready == [] ==> R.StreamBytes(ready) == [])
        && (ready != [] ==>
              var data := ready[0].data;
              && ready[0].Full? && d.dataCount == |data| <= |d.buffer| && data == d.buffer[..|data|]
              && R.AllFull(ready[1..])
              && R.StreamBytes(ready) == data + R.StreamBytes(ready[1..])
              && (n < |data| ==>
                    var shifted := [Full(data[n..])] + ready[1..];
                    R.AllFull(shifted) && R.StreamBytes(shifted) == data[n..] + R.StreamBytes(ready[1..])))
    {
      assert At(userDesc, 0, num) == userDesc;
      if ready != [] {
        UserDescHead();
      } else {
        assert Free(descs[At(userDesc, 0, num)]);
      }
    }

    method ReleaseStreamed(i: nat)
      requires Valid() && ready != []
      modifies this`userDesc, this`ready, descs
      ensures Valid() && ready == old(ready)[1..] && Partial() == old(Partial())
    {
      UserDescHead();
      var d := descs[userDesc];
      var control := if i % 2 != 0 then IDLE else Control(false, false, false, 0);
      Release(DmaFrame(control, |d.buffer|, d.buffer, NO_STAMP));
    }

    /** fscc_user_read_stream: hands out bytes in the order they were received, as many as fit; what is
        left of a descriptor stays at its front. */
    method UserReadStream(buf: array<byte>) returns (outLength: nat)
      requires Valid() && R.AllFull(ready)
      requires buf as object != descs
      modifies this`userDesc, this`ready, descs, buf
      ensures Valid() && R.AllFull(ready) && Partial() == old(Partial())
      ensures var bytes := R.StreamBytes(old(ready));
        && outLength == Min(buf.Length, |bytes|)
        && buf[..outLength] == bytes[..outLength]
        && R.StreamBytes(ready) == bytes[outLength..]
        && (forall j :: outLength <= j < buf.Length ==> buf[j] == old(buf[j]))
    {
      hide *;
      Bounds();
      outLength := 0;
      ghost var bytes := R.StreamBytes(ready);
      assert bytes[0..] == bytes;
      var i := 0;
      while i < num
        invariant 0 <= i && i + |ready| <= num
        invariant Valid() && R.AllFull(ready) && Partial() == old(Partial())
        invariant outLength <= buf.Length && outLength <= |bytes|
        invariant buf[..outLength] == bytes[..outLength]
        invariant R.StreamBytes(ready) == bytes[outLength..]
        invariant (forall j :: outLength <= j < buf.Length ==> buf[j] == old(buf[j]))
      {
        StreamHead(buf.Length - outLength);
        var d := descs[userDesc];
        var control := d.control;
        if !control.fe && !control.cstop {
          break;
        }
        var receiveLength := if d.dataCount < buf.Length - outLength then d.dataCount else buf.Length - outLength;
        assert bytes[outLength..][..receiveLength] == d.buffer[..receiveLength];
        CopyOut(buf, outLength, d.buffer[..receiveLength]);
        outLength := outLength + receiveLength;
        if receiveLength == d.dataCount {
          ReleaseStreamed(i);
        } else {
          ShiftHead(receiveLength);
          break;
        }
        i := i + 1;
      }
      StreamHead(0);
      StreamEnd(outLength, buf.Length, |bytes|);
    }

    lemma StreamEnd(out: nat, room: nat, all: nat)
      requires out <= room && out <= all && (out == room || out == all)
      ensures out == Min(room, all)
    {
    }

    // Data, and then possibly a time stamp.
    static method HandOut(buf: array<byte>, out: nat, data: seq<byte>, stamped: bool, stamp: Stamp) returns (out': nat)
      requires out + |data| + (if stamped then 8 else 0) <= buf.Length
      modifies buf
      ensures out' == out + |data| + (if stamped then 8 else 0)
      ensures buf[..out'] == old(buf[..out]) + data + (if stamped then stamp else [])
      ensures (forall j :: out' <= j < buf.Length ==> buf[j] == old(buf[j]))
    {
      CopyOut(buf, out, data);
      out' := out + |data|;
      if stamped {
        CopyOut(buf, out', stamp);
        out' := out' + 8;
      }
    }

    // RtlCopyMemory to a place in the user's buffer.
    static method CopyOut(buf: array<byte>, at: nat, data: seq<byte>)
      requires at + |data| <= buf.Length
      modifies buf
      ensures buf[..at + |data|] == old(buf[..at]) + data
      ensures (forall j :: at + |data| <= j < buf.Length ==> buf[j] == old(buf[j]))
    {
      forall i | 0 <= i < |data| {
        buf[at + i] := data[i];
      }
    }
  }
}
