/** The receive side as values: one iteration of the FIFO read loop, and the loop itself.
    The RxRing class is proved against these functions. */
module RxQueue {
  import opened Words
  import opened Card
  import opened Descriptors

  /** A finished receive descriptor: filled to the brim, or ending a frame of which it
      counts `total` bytes. */
  datatype RxPiece =
    | Full(data: seq<byte>)
    | Last(data: seq<byte>, total: nat, stamp: Stamp)

  /** The ring from the reader's descriptor on, the unfinished descriptor's bytes, and the two
      counters the driver keeps about the frame being received (frameSize 0: length not known yet). */
  datatype RxState = RxState(ready: seq<RxPiece>, partial: seq<byte>, inFrame: nat, frameSize: nat)

  datatype Hw = Hw(words: seq<Word>, lengths: seq<nat>)

  /** What reaches the card from the line: bytes of the current frame, or its two status bytes, with
      which the card completes the frame's words and posts its length. */
  datatype HwEvent =
    | Bytes(bs: seq<byte>, words: seq<Word>)
    | FrameEnd(status: seq<byte>, words: seq<Word>, length: nat)

  /** What one loop iteration finds: everything that arrived since the last one, then the byte count
      register and the clock. */
  datatype Snapshot = Snapshot(events: seq<HwEvent>, bc: nat, now: Stamp)

  function Absorb(h: Hw, e: HwEvent): Hw {
    match e
    case Bytes(_, ws) => Hw(h.words + ws, h.lengths)
    case FrameEnd(_, ws, length) => Hw(h.words + ws, h.lengths + [length])
  }

  function AbsorbAll(h: Hw, es: seq<HwEvent>): Hw
    decreases |es|
  {
    if es == [] then h else AbsorbAll(Absorb(h, es[0]), es[1..])
  }

  // The received byte count as the driver reads it: 14 bits, with implausible values taken as zero.
  function Rxcnt(bc: nat): (n: nat)
    ensures n <= 8192
  {
    if bc % 0x4000 > 8192 then 0 else bc % 0x4000
  }

  // The byte count register, bit by bit: the lowest fourteen, with anything above them.
  function CountWord(n: nat, high: nat): nat {
    high * 0x4000 + n
  }

  ghost predicate ShowsCount(bc: nat, n: nat) {
    n < 0x4000 && exists high :: bc == CountWord(n, high)
  }

  /** What the driver reads is what the register shows, up to the size of the hardware FIFO. */
  lemma RxcntReads(bc: nat, n: nat)
    requires ShowsCount(bc, n)
    ensures Rxcnt(bc) == if n <= 8192 then n else 0
  {
    var high :| bc == CountWord(n, high);
    assert bc % 0x4000 == n;
  }

  lemma SomethingShown(bc: nat) returns (n: nat)
    ensures ShowsCount(bc, n) && Rxcnt(bc) == if n <= 8192 then n else 0
  {
    n := bc % 0x4000;
    assert bc == CountWord(n, bc / 0x4000);
  }

  lemma CountShown(n: nat)
    requires n < 0x4000
    ensures ShowsCount(n, n)
  {
    assert n == CountWord(n, 0);
  }

  // While no length is known, an iteration wants the whole words of what is shown, as far as there is room.
  lemma WantedShown(inFrame: nat, bc: nat, room: nat, n: nat)
    requires ShowsCount(bc, n)
    ensures Wanted(0, inFrame, bc, room) == Min(if n <= 8192 then n - n % 4 else 0, room)
  {
    hide ShowsCount, Rxcnt;
    RxcntReads(bc, n);
  }

  function Min(a: nat, b: nat): nat {
    if a < b then a else b
  }

  // How many bytes an iteration reads, given the frame length it works with and the room left.
  function Wanted(frameSize: nat, inFrame: nat, bc: nat, room: nat): (n: nat)
    ensures n <= room
  {
    var want :=
      if frameSize != 0 then (if frameSize > inFrame then frameSize - inFrame else 0)
      else Rxcnt(bc) - Rxcnt(bc) % 4;
    Min(want, room)
  }

  // The frame length after looking at the length FIFO, which is only popped when none is known.
  function Noted(frameSize: nat, h: Hw): nat {
    if frameSize == 0 && h.lengths != [] then h.lengths[0] else frameSize
  }

  function LengthsLeft(frameSize: nat, h: Hw): seq<nat> {
    if frameSize == 0 && h.lengths != [] then h.lengths[1..] else h.lengths
  }

  function Got(words: seq<Word>, n: nat, idle: Word): (bs: seq<byte>)
    ensures |bs| == n
  {
    Flatten(TakeWords(words, WordCount(n), idle))[..n]
  }

  /** One iteration on an unfinished descriptor of `size` bytes. */
  function ReadStep(s: RxState, h: Hw, bc: nat, now: Stamp, size: nat, idle: Word): (r: (RxState, Hw))
    requires |s.partial| < size
    ensures |r.0.partial| < size
    ensures |s.ready| <= |r.0.ready| <= |s.ready| + 1
    ensures |r.0.ready| == |s.ready| + 1 ==> r.0.partial == []
  {
    var fs := Noted(s.frameSize, h);
    var n := Wanted(fs, s.inFrame, bc, size - |s.partial|);
    var data := s.partial + Got(h.words, n, idle);
    var h' := Hw(DropWords(h.words, WordCount(n)), LengthsLeft(s.frameSize, h));
    if fs > 0 && s.inFrame + n >= fs then
      (RxState(s.ready + [Last(data, Counted(fs), now)], [], 0, 0), h')
    else if |data| >= size then
      (RxState(s.ready + [Full(data)], [], s.inFrame + n, fs), h')
    else
      (RxState(s.ready, data, s.inFrame + n, fs), h')
  }

  /** The whole loop: goes on as long as each iteration finishes a descriptor and another is free. */
  function ReadData(s: RxState, h: Hw, snaps: seq<Snapshot>, size: nat, num: nat, idle: Word): (r: (RxState, Hw))
    requires |s.partial| < size && |s.ready| <= num
    ensures |r.0.partial| < size && |r.0.ready| <= num
    decreases |snaps|
  {
    if snaps == [] || |s.ready| == num then (s, h)
    else
      var r := ReadStep(s, AbsorbAll(h, snaps[0].events), snaps[0].bc, snaps[0].now, size, idle);
      if |r.0.ready| == |s.ready| then r else ReadData(r.0, r.1, snaps[1..], size, num, idle)
  }

  /** What the reader finds: whether a whole frame is ready and its size, or else how many bytes are. */
  function NextSize(ready: seq<RxPiece>): (r: (bool, nat)) {
    if ready == [] then (false, 0)
    else
      match ready[0]
      case Last(_, total, _) => (true, total)
      case Full(data) =>
        var next := NextSize(ready[1..]);
        if next.0 then next else (false, |data| + next.1)
  }

  // ReadData from the i-th snapshot on.
  lemma ReadDataDef(s: RxState, h: Hw, snaps: seq<Snapshot>, i: nat, size: nat, num: nat, idle: Word)
    requires |s.partial| < size && |s.ready| <= num && i <= |snaps|
    ensures ReadData(s, h, snaps[i..], size, num, idle) ==
      if i == |snaps| || |s.ready| == num then (s, h)
      else
        var r := ReadStep(s, AbsorbAll(h, snaps[i].events), snaps[i].bc, snaps[i].now, size, idle);
        if |r.0.ready| == |s.ready| then r else ReadData(r.0, r.1, snaps[i + 1..], size, num, idle)
  {
    if i < |snaps| {
      assert snaps[i..][0] == snaps[i] && snaps[i..][1..] == snaps[i + 1..];
    }
  }
}
