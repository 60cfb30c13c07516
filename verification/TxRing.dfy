/** The transmit descriptor ring in FIFO mode, updated in place by the user's writes and the FIFO passes. */
module TxRing {
  import opened Words
  import opened Card
  import opened Descriptors
  import opened TxQueue

  class TxRing {
    const num: nat
    const size: nat
    const descs: array<DmaFrame>
    var userDesc: nat  // where the next frame is written
    var fifoDesc: nat  // where the next FIFO pass starts
    ghost var queue: seq<TxPiece>
    var waiting: seq<seq<byte>>  // blocking writes, oldest first

    // What creation alone establishes: the memory is there, the queue is not.
    ghost predicate Shape()
      reads this`userDesc, this`fifoDesc, descs
    {
      && 2 <= num == descs.Length
      && size % 4 == 0
      && userDesc < num && fifoDesc < num
      && forall j :: 0 <= j < num ==> |descs[j].buffer| == size && descs[j].control.Fits()
    }

    static ghost predicate Occupied(d: DmaFrame, p: TxPiece) {
      && d.control == Control(p.first, false, true, p.cnt)
      && d.dataCount == |p.data| && p.data <= d.buffer
    }

    static ghost predicate Empty(d: DmaFrame) {
      d.control == STOPPED && d.dataCount == 0
    }

    // The descriptors without CSTOP are exactly the circular run from fifoDesc up to userDesc.
    ghost predicate Valid()
      reads this`userDesc, this`fifoDesc, this`queue, descs
    {
      && Shape() && size > 0
      && |queue| <= num
      && AllFit(queue, size)
      && userDesc == At(fifoDesc, |queue|, num)
      && (forall j :: 0 <= j < |queue| ==> Occupied(descs[At(fifoDesc, j, num)], queue[j]))
      && (forall j :: |queue| <= j < num ==> Empty(descs[At(fifoDesc, j, num)]))
    }

    /** Creation rounds the request up to two buffers of whole words. No descriptor is free yet: the
        ring is unusable until it has been reset. */
    constructor (numberOfBuffers: nat, sizeOfBuffers: nat)
      requires sizeOfBuffers < 0x1_0000_0000
      ensures Shape() && fresh(descs) && waiting == []
      ensures num == (if numberOfBuffers < 2 then 2 else numberOfBuffers)
      ensures size == RoundedSize(sizeOfBuffers)
    {
      var n := if numberOfBuffers < 2 then 2 else numberOfBuffers;
      var bytes := RoundedSize(sizeOfBuffers);
      num, size := n, bytes;
      descs := new DmaFrame[n](i =>
        DmaFrame(if i % 2 != 0 then IDLE else Control(false, false, false, 0), 0, seq(bytes, _ => 0), NO_STAMP));
      userDesc, fifoDesc := 0, 0;
      queue, waiting := [], [];
    }

    /** fscc_io_reset_tx, less the register writes. Only buffers of no bytes at all leave it unusable. */
    method Reset()
      requires Shape()
      modifies this`userDesc, this`fifoDesc, this`queue, descs
      ensures Shape() && queue == []
      ensures Valid() <==> size > 0
    {
      var i := 0;
      while i < num
        invariant 0 <= i <= num
        invariant Shape()
        invariant forall j :: 0 <= j < i ==> Empty(descs[j])
      {
        descs[i] := descs[i].(control := STOPPED, dataCount := 0, timestamp := NO_STAMP);
        i := i + 1;
      }
      userDesc, fifoDesc := 0, 0;
      queue := [];
    }

    /** Counts free descriptors from userDesc; the answer is their number times the buffer size. */
    method GetTxSpace() returns (space: nat)
      requires Valid()
      ensures space == (num - |queue|) * size
    {
      space := 0;
      var curDesc := userDesc;
      var i := 0;
      while i < num
        invariant 0 <= i <= num - |queue|
        invariant curDesc == At(userDesc, i, num)
        invariant space == i * size
      {
        assert |queue| + i < num ==> At(fifoDesc, |queue| + i, num) == curDesc;
        assert |queue| + i == num ==> At(fifoDesc, 0, num) == curDesc;
        if !descs[curDesc].control.cstop {
          break;
        }
        space := space + |descs[curDesc].buffer|;
        curDesc := Next(curDesc, num);
        i := i + 1;
        assert i * size == (i - 1) * size + size;
      }
    }

    // Fills the descriptor at userDesc with the next part of a frame, and moves on.
    method FillDescriptor(buf: seq<byte>, i: nat, sent: nat) returns (transmit: nat)
      requires Shape() && |buf| < 0x1_0000_0000 && sent <= |buf|
      requires Regular(buf) ==> Valid() && |queue| < num && PiecesFrom(buf, i, sent) && sent < |buf|
      modifies this`userDesc, this`queue, descs
      ensures Shape() && userDesc == Next(old(userDesc), num)
      ensures forall k :: 0 <= k < num && k != old(userDesc) ==> descs[k] == old(descs[k])
      ensures i == 0 ==> descs[old(userDesc)].control == WithLength(Control(true, false, true, 0), |buf|)
      ensures transmit == (if |buf| - sent < size then |buf| - sent else size)
      ensures Regular(buf) ==>
        && Valid() && i < |Split(buf, size)| && queue == old(queue) + [Split(buf, size)[i]]
        && PiecesFrom(buf, i + 1, sent + transmit)
        && (sent + transmit == |buf| <==> i + 1 == |Split(buf, size)|)
    {
      hide Valid, Shape, Split, PiecesFrom, WithLength, At, Next;
      UserDescShape();
      var d := descs[userDesc];
      transmit := if |buf| - sent < |d.buffer| then |buf| - sent else |d.buffer|;
      var control := if i == 0 then WithLength(Control(true, false, true, 0), |buf|)
                     else WithLength(Control(false, false, true, 0), transmit);
      var data := buf[sent..sent + transmit];
      ghost var piece := TxPiece(false, 0, []);
      if Regular(buf) {
        UserDescFree();
        NextPiece(buf, i, sent);
        LengthFits(Control(true, false, true, 0), |buf|);
        LengthFits(Control(false, false, true, 0), transmit);
        piece := Split(buf, size)[i];
      }
      Enqueue(DmaFrame(control, transmit, data + d.buffer[transmit..], d.timestamp), piece, Regular(buf));
    }

    // Frames that a ring in use can be given: with some bytes, and no more than a control word can count.
    ghost predicate Regular(buf: seq<byte>) {
      0 < |buf| <= DMA_MAX_LENGTH
    }

    lemma UserDescShape()
      requires Shape()
      ensures userDesc < num == descs.Length && |descs[userDesc].buffer| == size
    {
    }

    // Hands the descriptor at userDesc, filled, to the FIFO side.
    method Enqueue(d: DmaFrame, ghost p: TxPiece, ghost regular: bool)
      requires Shape() && |d.buffer| == size && d.control.Fits()
      requires regular ==> Valid() && |queue| < num && Occupied(d, p) && PieceFits(p, size)
      modifies this`userDesc, this`queue, descs
      ensures Shape() && userDesc == Next(old(userDesc), num)
      ensures descs[old(userDesc)] == d && forall k :: 0 <= k < num && k != old(userDesc) ==> descs[k] == old(descs[k])
      ensures if regular then Valid() && queue == old(queue) + [p] else queue == old(queue)
    {
      descs[userDesc] := d;
      userDesc := Next(userDesc, num);
      if regular {
        queue := queue + [p];
      }
    }

    // Whether the writer finds a free descriptor depends only on how many are queued.
    lemma UserDescFree()
      requires Valid()
      ensures Shape() && userDesc < descs.Length && 0 < size == |descs[userDesc].buffer| && |queue| <= num
      ensures descs[userDesc].control.cstop <==> |queue| < num
    {
      if |queue| < num {
        assert Empty(descs[At(fifoDesc, |queue|, num)]);
      } else {
        assert Occupied(descs[At(fifoDesc, 0, num)], queue[0]);
      }
    }

    // From userDesc on, the free descriptors come first.
    lemma FreeRun()
      requires Valid()
      ensures Shape() && |queue| <= num && userDesc < num
      ensures At(userDesc, 0, num) == userDesc
      ensures forall j :: 0 <= j < num ==> (descs[At(userDesc, j, num)].control.cstop <==> j < num - |queue|)
    {
      forall j | 0 <= j < num ensures descs[At(userDesc, j, num)].control.cstop <==> j < num - |queue| {
        if j < num - |queue| {
          assert At(userDesc, j, num) == At(fifoDesc, |queue| + j, num);
          assert Empty(descs[At(fifoDesc, |queue| + j, num)]);
        } else {
          var k := j - (num - |queue|);
          assert At(userDesc, j, num) == At(fifoDesc, k, num);
          assert Occupied(descs[At(fifoDesc, k, num)], queue[k]);
        }
      }
    }

    // One descriptor taken from the run.
    lemma RunOn(base: nat, i: nat)
      requires base < num && i < num
      ensures At(base, i + 1, num) == Next(At(base, i, num), num)
      ensures forall j :: i < j < num ==> At(base, j, num) != At(base, i, num)
      ensures i > 0 ==> At(base, i, num) != base
    {
    }

    /** Copies a frame into free descriptors until it is all there or the ring is full. Running out of
        descriptors part-way is reported only if the ring was not empty to begin with: a frame larger than the
        whole ring leaves the loop with STATUS_SUCCESS and a short count. The ring invariant is kept for every
        length that the first descriptor's control word can count, and only the callers see to that. */
    method UserWriteFrame(buf: seq<byte>) returns (status: Status, outLength: nat)
      requires Valid() && |buf| < 0x1_0000_0000
      modifies this`userDesc, this`queue, descs
      ensures Shape()
      ensures var room := num - |old(queue)|;
        && room <= num && (status, outLength) == WriteOutcome(|buf|, room, num, size)
        && (Regular(buf) ==> Valid() && queue == old(queue) + Queued(buf, size, room))
        && (room > 0 ==> descs[old(userDesc)].control == WithLength(Control(true, false, true, 0), |buf|))
    {
      hide Valid, Shape, Occupied, Empty, PiecesFrom, Split, Queued, At, Next, WithLength;
      status, outLength := Success, 0;
      ghost var room, base := num - |queue|, userDesc;
      FreeRun();
      StartWrite(buf);
      ghost var pieces := if Regular(buf) then Split(buf, size) else [];
      ghost var head := WithLength(Control(true, false, true, 0), |buf|);
      var i := 0;
      while i < num
        invariant 0 <= i <= room <= num
        invariant Shape() && userDesc == At(base, i, num)
        invariant forall j :: i <= j < num ==> descs[At(base, j, num)] == old(descs[At(base, j, num)])
        invariant i > 0 ==> descs[base].control == head && outLength < |buf|
        invariant outLength == i * size <= |buf|
        invariant Regular(buf) ==>
          && i < |pieces| && Valid() && queue == old(queue) + pieces[..i]
          && outLength < |buf| && PiecesFrom(buf, i, outLength)
      {
        assert descs[At(base, i, num)] == old(descs[At(base, i, num)]);
        if !descs[userDesc].control.cstop {
          status := BufferTooSmall;
          break;
        }
        if Regular(buf) {
          UserDescFree();
        }
        RunOn(base, i);
        var transmit := FillDescriptor(buf, i, outLength);
        assert Regular(buf) ==> pieces[..i + 1] == pieces[..i] + [pieces[i]];
        OneMoreFilled(i, |buf|, room);
        outLength := outLength + transmit;
        i := i + 1;
        if outLength == |buf| {
          if Regular(buf) {
            assert pieces[..i] == pieces;
            FinishWhole(buf, room);
          }
          return;
        }
      }
      if Regular(buf) {
        FinishCut(buf, room, outLength);
      }
    }

    // The count after filling descriptor i.
    lemma OneMoreFilled(i: nat, length: nat, room: nat)
      requires i < room && i * size <= length
      ensures var transmit := if length - i * size < size then length - i * size else size;
        && (i * size + transmit == length ==> length <= room * size)
        && (i * size + transmit < length ==> i * size + transmit == (i + 1) * size)
    {
      Product(i + 1, size);
      MoreTimes(i + 1, room);
      NextCount(i * size, (i + 1) * size, room * size, length);
    }

    lemma MoreTimes(a: nat, b: nat)
      requires a <= b
      ensures a * size <= b * size
    {
    }

    lemma NextCount(sent: nat, next: nat, all: nat, length: nat)
      requires sent <= length && next == sent + size && next <= all
      ensures var transmit := if length - sent < size then length - sent else size;
        && (sent + transmit == length ==> length <= all)
        && (sent + transmit < length ==> sent + transmit == next)
    {
    }

    lemma StartWrite(buf: seq<byte>)
      requires Valid()
      ensures 0 < size && |queue| <= num
      ensures buf != [] ==> |Split(buf, size)| > 0 && PiecesFrom(buf, 0, 0) && queue + Split(buf, size)[..0] == queue
    {
    }

    lemma FinishWhole(buf: seq<byte>, room: nat)
      requires 0 < size && buf != [] && |Split(buf, size)| <= room
      ensures Queued(buf, size, room) == Split(buf, size) && |buf| <= room * size
    {
      SplitCount(buf, size, room);
    }

    lemma FinishCut(buf: seq<byte>, room: nat, sent: nat)
      requires 0 < size && buf != [] && room < |Split(buf, size)| && sent < |buf| && PiecesFrom(buf, room, sent)
      ensures Queued(buf, size, room) == Split(buf, size)[..room] && sent == room * size < |buf|
    {
    }

    lemma WholeWrite(buf: seq<byte>, room: nat)
      requires 0 < size && buf != [] && |buf| <= room * size
      ensures Queued(buf, size, room) == Split(buf, size)
    {
      QueuedWhole(buf, size, room);
    }

    // Blocking writes wait only if there is something to write and the ring has the capacity.
    ghost predicate MayWait(q: seq<seq<byte>>) {
      forall i :: 0 <= i < |q| ==> 0 < |q[i]| <= Capacity(num, size)
    }

    /** FsccEvtIoWrite: all of the frame is queued, or none of it, or it waits. `stalled` says that the port has
        timed out and timeouts are not ignored. The ring invariant can be lost only by accepting more bytes than
        a control word can count. */
    method EvtIoWrite(buf: seq<byte>, blocking: bool, stalled: bool) returns (status: Status, written: nat)
      requires Valid() && MayWait(waiting) && |buf| < 0x1_0000_0000
      modifies this`userDesc, this`queue, this`waiting, descs
      ensures Shape() && MayWait(waiting)
      ensures buf == [] ==> status == Success
      ensures buf != [] ==>
        && (status == Pending <==> blocking && |buf| <= Capacity(num, size))
        && (status == Success <==>
              !blocking && |buf| <= Capacity(num, size) && |buf| <= (num - |old(queue)|) * size && !stalled)
        && (status == IoTimeout <==>
              !blocking && |buf| <= Capacity(num, size) && |buf| <= (num - |old(queue)|) * size && stalled)
      ensures waiting == old(waiting) + if status == Pending then [buf] else []
      ensures status == Success ==> written == |buf|
      ensures status == Success && Regular(buf) ==> queue == old(queue) + Split(buf, size)
      ensures status != Success || buf == [] ==> written == 0 && queue == old(queue)
      ensures |buf| <= DMA_MAX_LENGTH || status != Success ==> Valid()
    {
      hide Valid, Shape, Split, Queued, MayWait, WithLength;
      UserDescFree();
      assert waiting + [] == waiting;
      written := 0;
      if |buf| == 0 {
        return Success, 0;
      }
      if |buf| > (size * num) % 0x1_0000_0000 {
        return BufferTooSmall, 0;
      }
      if blocking {
        OneMoreWaits(buf);
        waiting := waiting + [buf];
        return Pending, 0;
      }
      var space := GetTxSpace();
      if space < |buf| {
        return BufferTooSmall, 0;
      }
      if stalled {
        return IoTimeout, 0;
      }
      WholeWrite(buf, num - |queue|);
      status, written := UserWriteFrame(buf);
    }

    lemma OneMoreWaits(buf: seq<byte>)
      requires MayWait(waiting) && 0 < |buf| <= Capacity(num, size)
      ensures MayWait(waiting + [buf])
    {
    }

    /** request_worker, for blocking writes: the oldest waiting request is completed whole as soon as it
        fits, and otherwise keeps waiting; the others keep their places. */
    method RequestWorker() returns (done: bool)
      requires Valid() && MayWait(waiting)
      modifies this`userDesc, this`queue, this`waiting, descs
      ensures Shape() && MayWait(waiting)
      ensures done <==> old(waiting) != [] && |old(waiting)[0]| <= (num - |old(queue)|) * size
      ensures done ==> waiting == old(waiting)[1..]
      ensures done && Regular(old(waiting)[0]) ==> queue == old(queue) + Split(old(waiting)[0], size)
      ensures !done ==> queue == old(queue) && waiting == old(waiting)
      ensures !done || Regular(old(waiting)[0]) ==> Valid()
    {
      hide Valid, Shape, Split, Queued, MayWait, WithLength;
      UserDescFree();
      done := false;
      if waiting == [] {
        return;
      }
      var space := GetTxSpace();
      FirstWaiting();
      if space < |waiting[0]| {
        return;
      }
      WholeWrite(waiting[0], num - |queue|);
      var status, written := UserWriteFrame(waiting[0]);
      waiting := waiting[1..];
      done := true;
    }

    lemma FirstWaiting()
      requires MayWait(waiting) && waiting != []
      ensures 0 < |waiting[0]| < 0x1_0000_0000 && MayWait(waiting[1..])
    {
    }

    // i descriptors hold the first `sent` bytes, and the rest of the frame is still to be split.
    ghost predicate PiecesFrom(buf: seq<byte>, i: nat, sent: nat)
      requires 0 < size && buf != []
    {
      var pieces := Split(buf, size);
      && i <= |pieces| && sent <= |buf|
      && (i == 0 ==> sent == 0)
      && (sent < |buf| ==> sent == i * size)
      && (i > 0 ==> pieces[i..] == SplitRest(buf[sent..], size))
    }

    lemma NextPiece(buf: seq<byte>, i: nat, sent: nat)
      requires 0 < size && buf != [] && PiecesFrom(buf, i, sent) && sent < |buf|
      ensures var n := if |buf| - sent < size then |buf| - sent else size;
        && i < |Split(buf, size)|
        && Split(buf, size)[i] == TxPiece(i == 0, if i == 0 then |buf| else n, buf[sent..sent + n])
        && PiecesFrom(buf, i + 1, sent + n)
        && (sent + n == |buf| <==> i + 1 == |Split(buf, size)|)
    {
      var pieces := Split(buf, size);
      var n := if |buf| - sent < size then |buf| - sent else size;
      if i == 0 {
        assert buf[0..n] == buf[..n];
      } else {
        assert (i + 1) * size == i * size + size;
        assert pieces[i..][0] == pieces[i];
        assert pieces[i + 1..] == pieces[i..][1..];
        assert buf[sent..][n..] == buf[sent + n..];
        assert buf[sent..][..n] == buf[sent..sent + n];
      }
    }

    // Empties the descriptor at fifoDesc into the hardware FIFO, and moves on.
    method PushDescriptor(fifo: HardwareFifo) returns (ghost ws: seq<Word>)
      requires Valid() && queue != []
      modifies this`fifoDesc, this`queue, descs, fifo`words
      ensures Valid() && queue == old(queue)[1..]
      ensures fifo.words == old(fifo.words) + ws && Carries(ws, old(queue)[0].data)
    {
      hide Valid, Shape, Occupied, Flatten, WordsOf, Carries;
      FifoDescHead();
      var d := descs[fifoDesc];
      PaddedCarries(d.buffer[..4 * WordCount(d.dataCount)], d.dataCount);
      assert d.buffer[..4 * WordCount(d.dataCount)][..d.dataCount] == queue[0].data;
      ws := WordsOf(d.buffer[..4 * WordCount(d.dataCount)]);
      fifo.SetRep(d.buffer, d.dataCount);
      Stop();
    }

    // Gives the descriptor at fifoDesc back to the user's side.
    method Stop()
      requires Valid() && queue != []
      modifies this`fifoDesc, this`queue, descs
      ensures Valid() && queue == old(queue)[1..]
    {
      hide At, Next;
      Turn(fifoDesc, num);
      descs[fifoDesc] := descs[fifoDesc].(dataCount := 0, control := STOPPED);
      fifoDesc := Next(fifoDesc, num);
      queue := queue[1..];
    }

    lemma FifoDescHead()
      requires Valid()
      ensures fifoDesc < descs.Length && |queue| <= num
      ensures var d := descs[fifoDesc];
        && (d.control.cstop <==> queue == [])
        && (queue != [] ==> d.control.fe == queue[0].first && d.control.cnt == queue[0].cnt > 0
                            && d.dataCount == |queue[0].data|
                            && queue[0].data <= d.buffer && 4 * WordCount(d.dataCount) <= |d.buffer|)
    {
      assert At(fifoDesc, 0, num) == fifoDesc;
      if queue != [] {
        assert queue[0] in queue;
      }
    }

    // One more descriptor of q pushed: how the pass's bookkeeping moves along.
    lemma PassStep(q: seq<TxPiece>, i: nat, ws: seq<Word>, more: seq<Word>)
      requires i < |q| && CarriesAll(ws, Datas(q[..i])) && Carries(more, q[i].data)
      ensures CarriesAll(ws + more, Datas(q[..i + 1]))
      ensures Lengths(q[..i + 1]) == Lengths(q[..i]) + (if q[i].first then [q[i].cnt] else [])
    {
      LengthsAppend(q[..i], [q[i]]);
      assert q[..i + 1] == q[..i] + [q[i]];
      CarriesOne(more, q[i].data);
      CarriesAllAppend(ws, Datas(q[..i]), more, [q[i].data]);
      assert Datas(q[..i + 1]) == Datas(q[..i]) + [q[i].data];
    }

    lemma PassCount(q: seq<TxPiece>, i: nat, space: nat, frameSize: nat)
      requires i <= |q|
      ensures i < |q| ==> q[i..] != [] && q[i..][0] == q[i] && q[i..][1..] == q[i + 1..]
      ensures i == |q| ==> q[i..] == []
      ensures PushCount(q[i..], space, frameSize) ==
        if i == |q| || space < SizeInFifo(|q[i].data|) || (q[i].first && frameSize != 0) then 0
        else 1 + PushCount(q[i + 1..], space - SizeInFifo(|q[i].data|), if q[i].first then q[i].cnt else frameSize)
    {
      if i < |q| {
        assert q[i..][1..] == q[i + 1..];
      }
    }

    lemma PassStart(q: seq<TxPiece>, fc: nat, bc: nat)
      ensures FillCount(q, fc, bc) == if Tfcnt(fc) > 254 || FifoSpace(Txcnt(bc)) > TX_FIFO_SIZE then 0
                                      else PushCount(q, FifoSpace(Txcnt(bc)), 0)
      ensures q[0..] == q && Datas(q[..0]) == [] && Lengths(q[..0]) == [] && CarriesAll([], [])
    {
    }

    /** One FIFO pass: moves descriptors while they fit, at most one frame start among them, and then
        announces that frame's length. */
    method FifoWriteData(fifo: HardwareFifo, fc: nat, bc: nat) returns (dataWritten: bool)
      requires Valid()
      modifies this`fifoDesc, this`queue, descs, fifo
      ensures Valid()
      ensures var k := FillCount(old(queue), fc, bc);
        && queue == old(queue)[k..]
        && dataWritten == (k > 0)
        && fifo.lengths == old(fifo.lengths) + Lengths(old(queue)[..k])
        && exists ws :: fifo.words == old(fifo.words) + ws && CarriesAll(ws, Datas(old(queue)[..k]))
    {
      hide *;
      ghost var q, words, ws := queue, fifo.words, [];
      PassStart(q, fc, bc);
      assert words + ws == words;
      ghost var k := FillCount(q, fc, bc);
      dataWritten := false;
      var tfcnt := Tfcnt(fc);
      if tfcnt > 254 {
        return;
      }
      var txcnt := Txcnt(bc);
      var fifoSpace: nat := FifoSpace(txcnt);
      if fifoSpace > TX_FIFO_SIZE {
        return;
      }
      var frameSize := 0;
      FifoDescHead();
      var i := 0;
      while i < num
        invariant 0 <= i <= |q| && |q| <= num
        invariant Valid() && queue == q[i..]
        invariant fifo.words == words + ws && CarriesAll(ws, Datas(q[..i]))
        invariant fifo.lengths == old(fifo.lengths)
        invariant k == i + PushCount(q[i..], fifoSpace, frameSize)
        invariant Lengths(q[..i]) == (if frameSize == 0 then [] else [frameSize])
        invariant dataWritten == (i > 0)
      {
        FifoDescHead();
        PassCount(q, i, fifoSpace, frameSize);
        var d := descs[fifoDesc];
        if d.control.cstop {
          break;
        }
        var writeLength := d.dataCount;
        var sizeInFifo := SizeInFifo(writeLength);
        if fifoSpace < sizeInFifo {
          break;
        }
        if d.control.fe {
          if tfcnt > 255 {
            break;
          }
          if frameSize != 0 {
            break;
          }
          frameSize := d.control.cnt;
        }
        ghost var more := PushDescriptor(fifo);
        PassStep(q, i, ws, more);
        assert words + ws + more == words + (ws + more);
        ws := ws + more;
        dataWritten := true;
        fifoSpace := fifoSpace - sizeInFifo;
        i := i + 1;
      }
      PassCount(q, i, fifoSpace, frameSize);
      assert i == k;
      if frameSize != 0 {
        fifo.lengths := fifo.lengths + [frameSize];
      }
    }
  }
}
