/** What one user read returns: which frames, and which bytes of them. */
module RxReading {
  import opened Words
  import opened Descriptors
  import opened RxQueue
  import opened RxFrames

  datatype Options = Options(appendStatus: bool, appendTimestamp: bool, rxMultiple: bool)

  ghost predicate HaveStatus(frames: seq<Frame>) {
    forall i :: 0 <= i < |frames| ==> |frames[i].bytes| >= 2
  }

  // How many of a frame's bytes are handed out: all, or all but the two status bytes.
  function Owed(f: Frame, o: Options): (n: nat)
    requires |f.bytes| >= 2
    ensures n <= |f.bytes|
  {
    if o.appendStatus then |f.bytes| else |f.bytes| - 2
  }

  // A frame completed while the clock read zero is stamped when it is read.
  function StampOf(f: Frame, now: Stamp): Stamp {
    if f.stamp == NO_STAMP then now else f.stamp
  }

  function Trailer(f: Frame, o: Options, now: Stamp): (bs: seq<byte>)
    ensures |bs| == if o.appendTimestamp then 8 else 0
  {
    if o.appendTimestamp then StampOf(f, now) else []
  }

  /** What the user gets for a frame. */
  function Payload(f: Frame, o: Options, now: Stamp): (bs: seq<byte>)
    requires |f.bytes| >= 2
    ensures |bs| == Owed(f, o) + (if o.appendTimestamp then 8 else 0)
  {
    f.bytes[..Owed(f, o)] + Trailer(f, o, now)
  }

  /** With status, all of the frame's bytes; without, all but the last two; and the time stamp behind either. */
  lemma PayloadIs(f: Frame, o: Options, now: Stamp)
    requires |f.bytes| >= 2
    ensures var data := Payload(f, o.(appendTimestamp := false), now);
      && (if o.appendStatus then data == f.bytes else data + f.bytes[|f.bytes| - 2..] == f.bytes)
      && Payload(f, o, now) == data + if !o.appendTimestamp then [] else if f.stamp == NO_STAMP then now else f.stamp
  {
  }

  function Batch(frames: seq<Frame>, o: Options, now: Stamp): (bs: seq<byte>)
    requires HaveStatus(frames)
  {
    if frames == [] then [] else Payload(frames[0], o, now) + Batch(frames[1..], o, now)
  }

  // How many frames a read into `room` bytes returns.
  function BatchCount(frames: seq<Frame>, room: nat, o: Options): (k: nat)
    requires HaveStatus(frames)
    ensures k <= |frames|
  {
    if frames == [] || Needs(frames[0], o) > room then 0
    else if !o.rxMultiple then 1
    else 1 + BatchCount(frames[1..], room - Needs(frames[0], o), o)
  }

  function Needs(f: Frame, o: Options): (n: nat)
    requires |f.bytes| >= 2
  {
    Owed(f, o) + if o.appendTimestamp then 8 else 0
  }

  lemma {:induction false} BatchAppend(a: seq<Frame>, b: seq<Frame>, o: Options, now: Stamp)
    requires HaveStatus(a) && HaveStatus(b)
    ensures HaveStatus(a + b) && Batch(a + b, o, now) == Batch(a, o, now) + Batch(b, o, now)
  {
    hide Payload, Trailer, Owed;
    if a == [] {
      assert a + b == b;
    } else {
      BatchAppend(a[1..], b, o, now);
      assert a + b == [a[0]] + (a[1..] + b);
      BatchFirst(a[0], a[1..] + b, o, now);
      BatchFirst(a[0], a[1..], o, now);
      assert a == [a[0]] + a[1..];
    }
  }

  lemma BatchFirst(f: Frame, rest: seq<Frame>, o: Options, now: Stamp)
    requires |f.bytes| >= 2 && HaveStatus(rest)
    ensures HaveStatus([f] + rest) && Batch([f] + rest, o, now) == Payload(f, o, now) + Batch(rest, o, now)
  {
    hide Payload, Trailer, Owed;
    assert ([f] + rest)[1..] == rest;
  }

  /** With rx_multiple on, a read returns the longest prefix of the ready frames that fits the buffer:
      it returns m frames or more exactly when the first m fit together. */
  lemma {:induction false} LongestBatch(frames: seq<Frame>, room: nat, o: Options, now: Stamp, m: nat)
    requires HaveStatus(frames) && o.rxMultiple && m <= |frames|
    ensures m <= BatchCount(frames, room, o) <==> |Batch(frames[..m], o, now)| <= room
  {
    if m > 0 {
      assert frames[..m][1..] == frames[1..][..m - 1];
      if Needs(frames[0], o) <= room {
        LongestBatch(frames[1..], room - Needs(frames[0], o), o, now, m - 1);
      }
    }
  }

  /** With it off, a read returns the first frame if that fits, and else nothing. */
  lemma SingleBatch(frames: seq<Frame>, room: nat, o: Options, now: Stamp)
    requires HaveStatus(frames) && !o.rxMultiple && frames != []
    ensures BatchCount(frames, room, o) == (if |Payload(frames[0], o, now)| <= room then 1 else 0)
  {
  }

  // One more frame of a batch.
  lemma BatchStep(frames: seq<Frame>, k: nat, room: nat, o: Options, now: Stamp)
    requires HaveStatus(frames) && k <= |frames|
    ensures HaveStatus(frames[..k]) && HaveStatus(frames[k..])
    ensures k == 0 ==> Batch(frames[..k], o, now) == []
    ensures k < |frames| ==> HaveStatus(frames[..k + 1]) && HaveStatus(frames[k + 1..])
    ensures k < |frames| ==> Batch(frames[..k + 1], o, now) == Batch(frames[..k], o, now) + Payload(frames[k], o, now)
    ensures BatchCount(frames[k..], room, o) ==
      if k == |frames| || Needs(frames[k], o) > room then 0
      else if !o.rxMultiple then 1
      else 1 + BatchCount(frames[k + 1..], room - Needs(frames[k], o), o)
  {
    if k < |frames| {
      assert frames[k..][1..] == frames[k + 1..];
      assert frames[..k + 1] == frames[..k] + [frames[k]];
      BatchAppend(frames[..k], [frames[k]], o, now);
      assert Batch([frames[k]], o, now) == Payload(frames[k], o, now);
    }
  }

  // ---------- how the driver keeps count while it moves one frame ----------

  /** With `rest` of frame f still in descriptors: bytes handed out, and bytes still to hand out. */
  function Filled(f: Frame, rest: seq<byte>, o: Options): (n: nat)
    requires |f.bytes| >= 2 && |rest| <= |f.bytes|
    ensures n <= Owed(f, o)
  {
    Min(|f.bytes| - |rest|, Owed(f, o))
  }

  // What remains after one more descriptor.
  function After(rest: seq<byte>, size: nat): seq<byte> {
    if |rest| <= size then [] else rest[size..]
  }

  ghost predicate Ends(f: Frame, rest: seq<byte>) {
    |rest| <= |f.bytes| && rest == f.bytes[|f.bytes| - |rest|..]
  }

  /** Moving one descriptor: planning from its count or the frame's length, clipped to what is still to
      hand out, moves exactly the bytes the user is owed from it; status bytes are never among them. */
  lemma MoveCounts(f: Frame, rest: seq<byte>, o: Options, size: nat, planned: nat)
    requires size > 0 && |f.bytes| >= 2 && Ends(f, rest) && rest != []
    requires planned == if |rest| <= size then |f.bytes| - Filled(f, rest, o) else size
    ensures var filled, left := Filled(f, rest, o), After(rest, size);
      var move := Min(planned, Owed(f, o) - filled);
      && Ends(f, left)
      && |left| == (if planned > |rest| then 0 else |rest| - planned)
      && filled + move == Filled(f, left, o)
      && move <= |rest| && move <= size
      && rest[..move] == f.bytes[filled..filled + move]
  {
  }

  lemma ChunksHead(rest: seq<byte>, f: Frame, others: seq<RxPiece>, size: nat)
    requires size > 0 && |f.bytes| >= 2
    ensures var q := Chunks(rest, |f.bytes|, f.stamp, size) + others;
      && q != []
      && q[0] == (if |rest| <= size then Last(rest, |f.bytes|, f.stamp) else Full(rest[..size]))
      && q[1..] == (if |rest| <= size then others else Chunks(After(rest, size), |f.bytes|, f.stamp, size) + others)
  {
    hide Chunks;
    ChunksDef(rest, |f.bytes|, f.stamp, size);
    if |rest| <= size {
      HeadAndTail(Last(rest, |f.bytes|, f.stamp), [], others);
    } else {
      HeadAndTail(Full(rest[..size]), Chunks(rest[size..], |f.bytes|, f.stamp, size), others);
    }
  }

  lemma HeadAndTail(p: RxPiece, q: seq<RxPiece>, others: seq<RxPiece>)
    ensures ([p] + q + others)[0] == p && ([p] + q + others)[1..] == q + others
    ensures q == [] ==> [p] + q == [p] && q + others == others
  {
  }

  lemma ChunksDef(rest: seq<byte>, total: nat, stamp: Stamp, size: nat)
    requires size > 0
    ensures Chunks(rest, total, stamp, size) ==
      if |rest| <= size then [Last(rest, total, stamp)]
      else [Full(rest[..size])] + Chunks(rest[size..], total, stamp, size)
  {
  }

  // The reader finds a ready frame exactly when the ring holds a complete one, and learns its length.
  lemma {:induction false} NextSizeOfChunks(rest: seq<byte>, total: nat, stamp: Stamp, others: seq<RxPiece>, size: nat)
    requires size > 0
    ensures NextSize(Chunks(rest, total, stamp, size) + others) == (true, total)
  {
    if |rest| > size {
      NextSizeOfChunks(rest[size..], total, stamp, others, size);
      assert (Chunks(rest, total, stamp, size) + others)[1..] == Chunks(rest[size..], total, stamp, size) + others;
    }
  }

  lemma {:induction false} NextSizeOfTail(tail: seq<byte>, size: nat)
    requires size > 0
    ensures NextSize(FullChunks(tail, size)) == (false, |tail| - |Remainder(tail, size)|)
  {
    if |tail| >= size {
      NextSizeOfTail(tail[size..], size);
    }
  }

  lemma NextSizeOfFrames(frames: seq<Frame>, tail: seq<byte>, size: nat)
    requires size > 0
    ensures NextSize(Layout(frames, tail, size)) ==
      if frames != [] then (true, |frames[0].bytes|) else (false, |tail| - |Remainder(tail, size)|)
  {
    if frames == [] {
      NextSizeOfTail(tail, size);
    } else {
      NextSizeOfChunks(frames[0].bytes, |frames[0].bytes|, frames[0].stamp, Layout(frames[1..], tail, size), size);
    }
  }

  /** The reader between frames: `out` holds the first k frames, and `total` frames will fit in all. */
  ghost predicate Boundary(frames: seq<Frame>, k: nat, out: seq<byte>, room: nat, total: nat, o: Options, now: Stamp)
  {
    && HaveStatus(frames) && k <= |frames| && HaveStatus(frames[..k]) && HaveStatus(frames[k..])
    && out == Batch(frames[..k], o, now) && |out| <= room
    && total == k + if !o.rxMultiple && k > 0 then 0 else BatchCount(frames[k..], room - |out|, o)
  }

  /** The reader inside frame k, of which `rest` is still in descriptors. */
  ghost predicate Inside(frames: seq<Frame>, k: nat, rest: seq<byte>, out: seq<byte>, room: nat, total: nat,
                         o: Options, now: Stamp)
  {
    && HaveStatus(frames) && k < |frames| && HaveStatus(frames[..k])
    && Ends(frames[k], rest)
    && out == Batch(frames[..k], o, now) + frames[k].bytes[..Filled(frames[k], rest, o)]
    && |Batch(frames[..k], o, now)| + Needs(frames[k], o) <= room
    && total == k + 1 + if !o.rxMultiple then 0
                        else BatchCount(frames[k + 1..], room - |Batch(frames[..k], o, now)| - Needs(frames[k], o), o)
  }

  lemma StartReading(frames: seq<Frame>, room: nat, o: Options, now: Stamp)
    requires HaveStatus(frames)
    ensures Boundary(frames, 0, [], room, BatchCount(frames, room, o), o, now)
  {
    assert frames[0..] == frames;
  }

  // At a boundary the reader finds out whether another frame is ready and fits.
  lemma AtBoundary(frames: seq<Frame>, k: nat, tail: seq<byte>, size: nat, out: seq<byte>, room: nat, total: nat,
                   o: Options, now: Stamp)
    requires Boundary(frames, k, out, room, total, o, now) && size > 0
    ensures |out| <= room && k <= |frames|
    ensures NextSize(Layout(frames[k..], tail, size)).0 <==> k < |frames|
    ensures k < |frames| ==>
      var f := frames[k];
      var need := NextSize(Layout(frames[k..], tail, size)).1 - (if o.appendStatus then 0 else 2)
                  + (if o.appendTimestamp then 8 else 0);
      && |f.bytes| >= 2
      && NextSize(Layout(frames[k..], tail, size)).1 == |f.bytes|
      && Layout(frames[k..], tail, size)
         == Chunks(f.bytes, |f.bytes|, f.stamp, size) + Layout(frames[k + 1..], tail, size)
      && Filled(f, f.bytes, o) == 0 && Owed(f, o) == |f.bytes| - (if o.appendStatus then 0 else 2) && f.bytes != []
      && (need <= room - |out| && (k == 0 || o.rxMultiple) ==> Inside(frames, k, f.bytes, out, room, total, o, now))
      && (need > room - |out| ==> total == k)
    ensures k == |frames| || (k > 0 && !o.rxMultiple) ==> total == k
  {
    NextSizeOfFrames(frames[k..], tail, size);
    BatchStep(frames, k, room - |out|, o, now);
    if k < |frames| {
      assert frames[k..][1..] == frames[k + 1..];
      assert frames[k].bytes[..0] == [] && out + [] == out;
    }
  }

  // Where the user's bytes go inside a frame, and what moving one descriptor leaves.
  lemma InsideFacts(frames: seq<Frame>, k: nat, rest: seq<byte>, out: seq<byte>, room: nat, total: nat,
                    o: Options, now: Stamp)
    requires Inside(frames, k, rest, out, room, total, o, now)
    ensures k < |frames| && |frames[k].bytes| >= 2 && |rest| <= |frames[k].bytes| && Ends(frames[k], rest)
    ensures |out| + Owed(frames[k], o) - Filled(frames[k], rest, o) + |Trailer(frames[k], o, now)| <= room
  {
  }

  lemma InsideStep(frames: seq<Frame>, k: nat, rest: seq<byte>, out: seq<byte>, room: nat, total: nat,
                   o: Options, now: Stamp, size: nat)
    requires Inside(frames, k, rest, out, room, total, o, now) && size > 0 && rest != []
    requires |frames[k].bytes| >= 2 && |rest| <= |frames[k].bytes|
    ensures var f, left := frames[k], After(rest, size);
      && |left| <= |f.bytes| && Filled(f, rest, o) <= Filled(f, left, o) <= |f.bytes|
      && var moved := out + f.bytes[Filled(f, rest, o)..Filled(f, left, o)];
      if left == [] then Boundary(frames, k + 1, moved + Trailer(f, o, now), room, total, o, now)
      else Inside(frames, k, left, moved, room, total, o, now)
  {
    hide Batch, BatchCount;
    var f, left := frames[k], After(rest, size);
    var from, to := Filled(f, rest, o), Filled(f, left, o);
    assert f.bytes[..from] + f.bytes[from..to] == f.bytes[..to];
    BatchStep(frames, k, room - |Batch(frames[..k], o, now)|, o, now);
    var moved := out + f.bytes[from..to];
    assert moved == Batch(frames[..k], o, now) + f.bytes[..to];
    if left == [] {
      assert moved + Trailer(f, o, now) == Batch(frames[..k], o, now) + (f.bytes[..to] + Trailer(f, o, now));
    }
  }

  // ---------- streaming ----------

  /** Without frames every finished descriptor is plain bytes, in the order they were received. */
  ghost predicate AllFull(ready: seq<RxPiece>) {
    forall i :: 0 <= i < |ready| ==> ready[i].Full?
  }

  function StreamBytes(ready: seq<RxPiece>): (bs: seq<byte>) {
    if ready == [] then [] else ready[0].data + StreamBytes(ready[1..])
  }
}
