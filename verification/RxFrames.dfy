/** Framed reception: what the receive ring holds, frame by frame, and why it is always the frames
    the card received, however their arrival is cut up. */
module RxFrames {
  import opened Words
  import opened Card
  import opened Descriptors
  import opened RxQueue

  /** A complete received frame, its two status bytes included, with the time it was completed. */
  datatype Frame = Frame(bytes: seq<byte>, stamp: Stamp)

  // ---------- frames as descriptors ----------

  // The descriptors of a complete frame; the last one carries its whole length.
  function Chunks(rest: seq<byte>, total: nat, stamp: Stamp, size: nat): (q: seq<RxPiece>)
    requires size > 0
    ensures q != []
  {
    if |rest| <= size then [Last(rest, total, stamp)]
    else [Full(rest[..size])] + Chunks(rest[size..], total, stamp, size)
  }

  function FrameChunks(f: Frame, size: nat): (q: seq<RxPiece>)
    requires size > 0
  {
    Chunks(f.bytes, |f.bytes|, f.stamp, size)
  }

  // The descriptors that an unfinished frame has filled so far, and the bytes beyond them.
  function FullChunks(tail: seq<byte>, size: nat): seq<RxPiece>
    requires size > 0
  {
    if |tail| < size then [] else [Full(tail[..size])] + FullChunks(tail[size..], size)
  }

  function Remainder(tail: seq<byte>, size: nat): (r: seq<byte>)
    requires size > 0
    ensures |r| < size
    ensures size % 4 == 0 ==> |r| % 4 == |tail| % 4
  {
    if |tail| < size then tail
    else
      LessWhole(|tail|, size);
      Remainder(tail[size..], size)
  }

  lemma LessWhole(n: nat, size: nat)
    requires size <= n
    ensures size % 4 == 0 ==> (n - size) % 4 == n % 4
  {
  }

  function Layout(frames: seq<Frame>, tail: seq<byte>, size: nat): seq<RxPiece>
    requires size > 0
  {
    if frames == [] then FullChunks(tail, size)
    else FrameChunks(frames[0], size) + Layout(frames[1..], tail, size)
  }

  lemma {:induction false} GrowTail(tail: seq<byte>, got: seq<byte>, size: nat)
    requires size > 0 && |Remainder(tail, size)| + |got| < size
    ensures FullChunks(tail + got, size) == FullChunks(tail, size)
    ensures Remainder(tail + got, size) == Remainder(tail, size) + got
  {
    if |tail| >= size {
      assert (tail + got)[..size] == tail[..size] && (tail + got)[size..] == tail[size..] + got;
      GrowTail(tail[size..], got, size);
    }
  }

  lemma {:induction false} FillTail(tail: seq<byte>, got: seq<byte>, size: nat)
    requires size > 0 && |Remainder(tail, size)| + |got| == size
    ensures FullChunks(tail + got, size) == FullChunks(tail, size) + [Full(Remainder(tail, size) + got)]
    ensures Remainder(tail + got, size) == []
  {
    if |tail| >= size {
      assert (tail + got)[..size] == tail[..size] && (tail + got)[size..] == tail[size..] + got;
      FillTail(tail[size..], got, size);
    } else {
      assert (tail + got)[..size] == tail + got && (tail + got)[size..] == [];
    }
  }

  lemma {:induction false} EndTail(tail: seq<byte>, got: seq<byte>, total: nat, stamp: Stamp, size: nat)
    requires size > 0 && got != [] && |Remainder(tail, size)| + |got| <= size
    ensures Chunks(tail + got, total, stamp, size)
         == FullChunks(tail, size) + [Last(Remainder(tail, size) + got, total, stamp)]
  {
    if |tail| >= size {
      assert (tail + got)[..size] == tail[..size] && (tail + got)[size..] == tail[size..] + got;
      EndTail(tail[size..], got, total, stamp, size);
    }
  }

  lemma {:induction false} LayoutTail(frames: seq<Frame>, tail: seq<byte>, size: nat)
    requires size > 0
    ensures Layout(frames, tail, size) == Layout(frames, [], size) + FullChunks(tail, size)
  {
    if frames == [] {
      assert FullChunks([], size) == [];
    } else {
      LayoutTail(frames[1..], tail, size);
    }
  }

  lemma {:induction false} LayoutFrame(frames: seq<Frame>, f: Frame, size: nat)
    requires size > 0
    ensures Layout(frames + [f], [], size) == Layout(frames, [], size) + FrameChunks(f, size)
  {
    if frames == [] {
      assert (frames + [f])[1..] == [];
    } else {
      assert (frames + [f])[1..] == frames[1..] + [f];
      LayoutFrame(frames[1..], f, size);
    }
  }

  lemma EmptyTail(size: nat)
    requires size > 0
    ensures FullChunks([], size) == [] && Remainder([], size) == []
  {
  }

  // ---------- the read loop on frames ----------

  /** The ring as frames: those complete and unread, and the bytes of the one being received. */
  datatype RxAbs = RxAbs(frames: seq<Frame>, tail: seq<byte>, frameSize: nat)

  ghost predicate Framed(s: RxState, a: RxAbs, size: nat)
    requires size > 0
  {
    && s.ready == Layout(a.frames, a.tail, size)
    && s.partial == Remainder(a.tail, size)
    && s.inFrame == |a.tail|
    && s.frameSize == a.frameSize
  }

  // The bytes one iteration takes from the hardware.
  function Taken(a: RxAbs, h: Hw, bc: nat, size: nat, idle: Word): (got: seq<byte>)
    requires size > 0
  {
    Got(h.words, Wanted(Noted(a.frameSize, h), |a.tail|, bc, size - |Remainder(a.tail, size)|), idle)
  }

  /** One iteration, seen as frames: the tail grows, and becomes a frame when its length is reached. */
  function FrameStep(a: RxAbs, h: Hw, bc: nat, now: Stamp, size: nat, idle: Word): (r: (RxAbs, Hw))
    requires size > 0
  {
    var got := Taken(a, h, bc, size, idle);
    var fs := Noted(a.frameSize, h);
    var h' := Hw(DropWords(h.words, WordCount(|got|)), LengthsLeft(a.frameSize, h));
    if fs > 0 && |a.tail + got| >= fs then
      (RxAbs(a.frames + [Frame(a.tail + got, now)], [], 0), h')
    else
      (RxAbs(a.frames, a.tail + got, fs), h')
  }

  /** Descriptors are invisible in frames: an iteration on the ring is an iteration on the frames,
      provided that a length is only ever posted for a frame with bytes still to come, and that a control
      word can count it. */
  lemma StepKeepsFrames(s: RxState, a: RxAbs, h: Hw, bc: nat, now: Stamp, size: nat, idle: Word)
    requires size > 0 && Framed(s, a, size)
    requires Noted(a.frameSize, h) > 0 ==> |a.tail| < Noted(a.frameSize, h) <= DMA_MAX_LENGTH
    ensures var r := ReadStep(s, h, bc, now, size, idle);
      var f := FrameStep(a, h, bc, now, size, idle);
      Framed(r.0, f.0, size) && r.1 == f.1
  {
    hide Got, Remainder, FullChunks, Layout, Chunks, DropWords;
    var got := Taken(a, h, bc, size, idle);
    var fs := Noted(a.frameSize, h);
    LayoutTail(a.frames, a.tail, size);
    LayoutTail(a.frames, a.tail + got, size);
    EmptyTail(size);
    if fs > 0 && |a.tail + got| >= fs {
      EndTail(a.tail, got, fs, now, size);
      LayoutFrame(a.frames, Frame(a.tail + got, now), size);
      assert |a.tail + got| == fs;
    } else if |Remainder(a.tail, size)| + |got| == size {
      FillTail(a.tail, got, size);
    } else {
      GrowTail(a.tail, got, size);
    }
  }

  // ---------- the line ----------

  /** What the card has received and the ring has not finished with: complete frames (the first may be
      partly read), and the bytes of the frame on the line. */
  datatype Line = Line(todo: seq<seq<byte>>, cur: seq<byte>)

  // The part of an incoming frame that is visible as whole words.
  function Whole(cur: seq<byte>): (bs: seq<byte>)
    ensures bs <= cur && |bs| % 4 == 0 && |cur| < |bs| + 4
  {
    cur[..|cur| - |cur| % 4]
  }

  // Incoming bytes become visible a word at a time; the frame end flushes the last, padded word and posts a
  // length that a control word can count.
  ghost predicate Plausible(line: Line, e: HwEvent) {
    match e
    case Bytes(bs, ws) => Carries(ws, Whole(line.cur + bs)[|Whole(line.cur)|..])
    case FrameEnd(status, ws, length) =>
      && |status| == 2
      && length == |line.cur| + 2 <= DMA_MAX_LENGTH
      && Carries(ws, (line.cur + status)[|Whole(line.cur)|..])
  }

  function Hear(line: Line, e: HwEvent): Line {
    match e
    case Bytes(bs, _) => Line(line.todo, line.cur + bs)
    case FrameEnd(status, _, _) => Line(line.todo + [line.cur + status], [])
  }

  function Sizes(frames: seq<seq<byte>>): seq<nat> {
    seq(|frames|, i requires 0 <= i < |frames| => |frames[i]|)
  }

  // What the hardware FIFO still has to deliver, in order.
  function Unread(a: RxAbs, line: Line): (parts: seq<seq<byte>>)
    requires |a.tail| <= |(line.todo + [Whole(line.cur)])[0]|
  {
    From(line.todo + [Whole(line.cur)], |a.tail|)
  }

  // The parts of a transfer without the first n bytes.
  function From(all: seq<seq<byte>>, n: nat): (parts: seq<seq<byte>>)
    requires all != [] && n <= |all[0]|
  {
    [all[0][n..]] + all[1..]
  }

  /** The hardware FIFO and the ring's unfinished frame together hold exactly what came over the line. */
  ghost predicate Feeds(h: Hw, a: RxAbs, line: Line) {
    var all := line.todo + [Whole(line.cur)];
    && a.tail <= all[0] && |a.tail| % 4 == 0
    && CarriesAll(h.words, Unread(a, line))
    && (forall i :: 0 <= i < |line.todo| ==> 2 <= |line.todo[i]| <= DMA_MAX_LENGTH)
    && (line.todo == [] ==> a.frameSize == 0 && h.lengths == [])
    && (line.todo != [] ==>
          && |a.tail| < |line.todo[0]|
          && (a.frameSize == 0 || a.frameSize == |line.todo[0]|)
          && h.lengths == Sizes(if a.frameSize == 0 then line.todo else line.todo[1..]))
  }

  // Joining two parts at the end of a transfer, the first a whole number of words.
  lemma CarriesJoin(ws: seq<Word>, parts: seq<seq<byte>>, a: seq<byte>, more: seq<Word>, b: seq<byte>)
    requires CarriesAll(ws, parts + [a]) && Carries(more, b) && |a| % 4 == 0
    ensures CarriesAll(ws + more, parts + [a + b])
  {
    hide *;
    CarriesOne(more, b);
    CarriesAllAppend(ws, parts + [a], more, [b]);
    assert parts + [a] + [b] == parts + ([a, b] + []);
    CarriesAllSplit(ws + more, parts, [a, b] + []);
    var n := TotalWords(parts);
    CarriesMerge((ws + more)[n..], a, b, []);
    CarriesAllAppend((ws + more)[..n], parts, (ws + more)[n..], [a + b] + []);
    assert (ws + more)[..n] + (ws + more)[n..] == ws + more;
    assert parts + ([a + b] + []) == parts + [a + b];
  }

  // Appending to the last unread part.
  lemma FromGrows(todo: seq<seq<byte>>, n: nat, prev: seq<byte>, b: seq<byte>)
    returns (init: seq<seq<byte>>, last: seq<byte>)
    requires n <= |(todo + [prev])[0]|
    ensures From(todo + [prev], n) == init + [last] && From(todo + [prev + b], n) == init + [last + b]
    ensures |last| == if todo == [] then |prev| - n else |prev|
  {
    var all, next := todo + [prev], todo + [prev + b];
    if todo == [] {
      init, last := [], prev[n..];
      assert (prev + b)[n..] == last + b;
    } else {
      init, last := [todo[0][n..]] + todo[1..], prev;
      assert all[1..] == todo[1..] + [prev] && next[1..] == todo[1..] + [prev + b];
    }
  }

  lemma FromMore(all: seq<seq<byte>>, n: nat, part: seq<byte>)
    requires all != [] && n <= |all[0]|
    ensures From(all + [part], n) == From(all, n) + [part]
  {
  }

  // Words that arrive complete the last part of the transfer by b.
  lemma MoreCarries(before: seq<Word>, todo: seq<seq<byte>>, n: nat, prev: seq<byte>, b: seq<byte>, ws: seq<Word>)
    requires n <= |(todo + [prev])[0]| && n % 4 == 0 && |prev| % 4 == 0
    requires CarriesAll(before, From(todo + [prev], n)) && Carries(ws, b)
    ensures CarriesAll(before + ws, From(todo + [prev + b], n))
  {
    hide *;
    var init, last := FromGrows(todo, n, prev, b);
    CarriesJoin(before, init, last, ws, b);
  }

  lemma HearBytes(h: Hw, a: RxAbs, line: Line, bs: seq<byte>, ws: seq<Word>)
    requires Feeds(h, a, line) && Plausible(line, Bytes(bs, ws))
    ensures Feeds(Absorb(h, Bytes(bs, ws)), a, Hear(line, Bytes(bs, ws)))
  {
    hide CarriesAll, Carries, From, Whole;
    var prev := Whole(line.cur);
    WholeGrows(line.cur, bs);
    MoreCarries(h.words, line.todo, |a.tail|, prev, Whole(line.cur + bs)[|prev|..], ws);
  }

  lemma WholeGrows(cur: seq<byte>, bs: seq<byte>)
    ensures Whole(cur) <= Whole(cur + bs)
    ensures Whole(cur + bs) == Whole(cur) + Whole(cur + bs)[|Whole(cur)|..]
  {
    assert cur <= cur + bs;
  }

  // The words of a frame's end complete its part of the transfer, and open an empty one.
  lemma EndCarries(before: seq<Word>, todo: seq<seq<byte>>, n: nat, prev: seq<byte>, b: seq<byte>, ws: seq<Word>)
    requires n <= |(todo + [prev])[0]| && n % 4 == 0 && |prev| % 4 == 0
    requires CarriesAll(before, From(todo + [prev], n)) && Carries(ws, b)
    ensures CarriesAll(before + ws, From(todo + [prev + b] + [[]], n))
  {
    hide *;
    MoreCarries(before, todo, n, prev, b, ws);
    NothingMore(before + ws, From(todo + [prev + b], n));
    FromMore(todo + [prev + b], n, []);
  }

  lemma HearFrameEnd(h: Hw, a: RxAbs, line: Line, status: seq<byte>, ws: seq<Word>, length: nat)
    requires Feeds(h, a, line) && Plausible(line, FrameEnd(status, ws, length))
    ensures Feeds(Absorb(h, FrameEnd(status, ws, length)), a, Hear(line, FrameEnd(status, ws, length)))
  {
    hide CarriesAll, Carries, From;
    var prev := Whole(line.cur);
    var next := line.cur + status;
    assert next == prev + next[|prev|..];
    EndCarries(h.words, line.todo, |a.tail|, prev, next[|prev|..], ws);
    var all := line.todo + [next];
    assert Sizes(all) == Sizes(line.todo) + [length];
    if line.todo != [] {
      assert Sizes(all[1..]) == Sizes(line.todo[1..]) + [length];
    }
  }

  /** Whatever comes over the line, the hardware keeps feeding the ring what came. */
  lemma HearKeepsFeeding(h: Hw, a: RxAbs, line: Line, e: HwEvent)
    requires Feeds(h, a, line) && Plausible(line, e)
    ensures Feeds(Absorb(h, e), a, Hear(line, e))
  {
    hide Feeds, Plausible, Absorb, Hear;
    match e
    case Bytes(bs, ws) => HearBytes(h, a, line, bs, ws);
    case FrameEnd(status, ws, length) => HearFrameEnd(h, a, line, status, ws, length);
  }

  lemma NothingMore(ws: seq<Word>, parts: seq<seq<byte>>)
    requires CarriesAll(ws, parts)
    ensures CarriesAll(ws, parts + [[]])
  {
    CarriesOne([], []);
    CarriesAllAppend(ws, parts, [], [[]]);
    assert ws + [] == ws;
  }

  // A byte count register that shows no more than what is there.
  ghost predicate CountOk(a: RxAbs, line: Line, bc: nat) {
    line.todo == [] ==> exists n :: ShowsCount(bc, n) && (n <= 8192 ==> |a.tail| + n <= |line.cur|)
  }

  lemma CountRead(a: RxAbs, line: Line, bc: nat)
    requires CountOk(a, line, bc) && line.todo == [] && |a.tail| <= |line.cur|
    ensures |a.tail| + Rxcnt(bc) <= |line.cur|
  {
    hide ShowsCount, Rxcnt;
    var n :| ShowsCount(bc, n) && (n <= 8192 ==> |a.tail| + n <= |line.cur|);
    RxcntReads(bc, n);
  }

  /** While a frame's length is not posted, an iteration appends exactly the whole words that the register shows,
      as far as the descriptor has room. */
  lemma UnknownTakes(a: RxAbs, h: Hw, bc: nat, now: Stamp, size: nat, idle: Word, n: nat)
    requires size > 0 && Noted(a.frameSize, h) == 0 && ShowsCount(bc, n)
    ensures var f := FrameStep(a, h, bc, now, size, idle).0;
      var k := Min(if n <= 8192 then n - n % 4 else 0, size - |Remainder(a.tail, size)|);
      && f.frames == a.frames && f.frameSize == 0
      && f.tail == a.tail + Flatten(TakeWords(h.words, WordCount(k), idle))[..k]
  {
    hide ShowsCount, Wanted, Flatten, TakeWords, WordCount, Remainder, DropWords, Rxcnt;
    WantedShown(|a.tail|, bc, size - |Remainder(a.tail, size)|, n);
  }

  // With a complete frame in the hardware, an iteration ends the frame or fills the descriptor.
  lemma IterationFinishes(h: Hw, a: RxAbs, line: Line, bc: nat, now: Stamp, size: nat, idle: Word)
    requires size > 0 && size % 4 == 0 && Feeds(h, a, line) && line.todo != []
    ensures CountOk(a, line, bc)
    ensures var f := FrameStep(a, h, bc, now, size, idle).0;
      |Layout(f.frames, f.tail, size)| == |Layout(a.frames, a.tail, size)| + 1
  {
    hide Feeds, FrameStep, Layout, Remainder, Got;
    var s := RxState(Layout(a.frames, a.tail, size), Remainder(a.tail, size), |a.tail|, a.frameSize);
    StepKeepsFeeding(h, a, line, bc, now, size, idle);
    StepKeepsFrames(s, a, h, bc, now, size, idle);
    FeedsFirst(h, a, line);
  }

  lemma FeedsFirst(h: Hw, a: RxAbs, line: Line)
    requires Feeds(h, a, line) && line.todo != []
    ensures Noted(a.frameSize, h) == |line.todo[0]| > |a.tail|
  {
  }

  lemma GotPart(ws: seq<Word>, bs: seq<byte>, idle: Word)
    requires WordCount(|bs|) <= |ws| && Carries(ws[..WordCount(|bs|)], bs)
    ensures Got(ws, |bs|, idle) == bs
    ensures DropWords(ws, WordCount(|bs|)) == ws[WordCount(|bs|)..]
  {
  }

  // A transfer's first part, on its own.
  lemma FirstPart(ws: seq<Word>, part: seq<byte>, rest: seq<seq<byte>>, idle: Word)
    requires CarriesAll(ws, [part] + rest)
    ensures Got(ws, |part|, idle) == part
    ensures CarriesAll(DropWords(ws, WordCount(|part|)), rest)
  {
    assert ([part] + rest)[1..] == rest;
    GotPart(ws, part, idle);
  }

  // Nothing more of a part is as good as no part.
  lemma EmptyPart(ws: seq<Word>, rest: seq<seq<byte>>)
    requires CarriesAll(ws, rest)
    ensures CarriesAll(ws, [[]] + rest)
  {
    CarriesOne([], []);
    CarriesAllAppend([], [[]], ws, rest);
    assert [] + ws == ws;
  }

  // Taking the first n bytes of a transfer, where n is whole words or ends the first part.
  lemma TakePart(ws: seq<Word>, part: seq<byte>, rest: seq<seq<byte>>, n: nat, idle: Word)
    requires CarriesAll(ws, [part] + rest) && n <= |part| && (n == |part| || n % 4 == 0)
    ensures Got(ws, n, idle) == part[..n]
    ensures CarriesAll(DropWords(ws, WordCount(n)), [part[n..]] + rest)
    ensures n == |part| ==> CarriesAll(DropWords(ws, WordCount(n)), rest)
  {
    hide CarriesAll, Got, DropWords, WordCount;
    if n == |part| {
      assert part[..n] == part && part[n..] == [];
      FirstPart(ws, part, rest, idle);
      EmptyPart(DropWords(ws, WordCount(n)), rest);
    } else {
      assert part == part[..n] + part[n..];
      CarriesMerge(ws, part[..n], part[n..], rest);
      assert [part[..n], part[n..]] + rest == [part[..n]] + ([part[n..]] + rest);
      FirstPart(ws, part[..n], [part[n..]] + rest, idle);
    }
  }

  lemma WantedFits(fs: nat, inFrame: nat, bc: nat, room: nat)
    requires room % 4 == 0 && (fs > 0 ==> inFrame < fs)
    ensures var n := Wanted(fs, inFrame, bc, room);
      && (fs == 0 ==> n % 4 == 0 && n <= Rxcnt(bc))
      && (fs > 0 ==> inFrame + n <= fs && (inFrame + n == fs || n % 4 == 0))
  {
  }

  // Whole words among the visible bytes are among the visible words.
  lemma WholeFits(cur: seq<byte>, read: nat, n: nat)
    requires read % 4 == 0
    ensures n % 4 == 0 && read + n <= |cur| ==> read + n <= |Whole(cur)|
  {
    hide *;
    WholeLength(cur);
    if n % 4 == 0 && read + n <= |cur| {
      RoundDown(read / 4 + n / 4, |cur|);
    }
  }

  lemma WholeLength(cur: seq<byte>)
    ensures |Whole(cur)| == |cur| - |cur| % 4
  {
  }

  lemma RoundDown(k: nat, c: nat)
    requires 4 * k <= c
    ensures 4 * k <= c - c % 4
  {
    hide *;
    assert k <= c / 4;
  }

  // An iteration takes a prefix of the first unread part: whole words of it, or all of it.
  lemma TakenPrefix(h: Hw, a: RxAbs, line: Line, bc: nat, size: nat, idle: Word)
    requires size > 0 && size % 4 == 0 && Feeds(h, a, line) && CountOk(a, line, bc)
    ensures Noted(a.frameSize, h) == (if line.todo == [] then 0 else |line.todo[0]|)
    ensures var n := |Taken(a, h, bc, size, idle)|;
      var part := Unread(a, line)[0];
      && n <= |part| && (n % 4 == 0 || (n == |part| && line.todo != []))
      && Taken(a, h, bc, size, idle) == part[..n]
      && (line.todo != [] && |a.tail| + n < |line.todo[0]| ==> n % 4 == 0)
  {
    hide CarriesAll, Got, Wanted, Rxcnt, Remainder, Whole;
    var unread := Unread(a, line);
    var n := |Taken(a, h, bc, size, idle)|;
    var fs := Noted(a.frameSize, h);
    assert fs == if line.todo == [] then 0 else |line.todo[0]|;
    WantedFits(fs, |a.tail|, bc, size - |Remainder(a.tail, size)|);
    if line.todo == [] {
      CountRead(a, line, bc);
    }
    WholeFits(line.cur, |a.tail|, n);
    assert unread == [unread[0]] + unread[1..];
    TakePart(h.words, unread[0], unread[1..], n, idle);
  }

  /** Every completed frame is the next one from the line, and the rest stays in order. */
  lemma StepKeepsFeeding(h: Hw, a: RxAbs, line: Line, bc: nat, now: Stamp, size: nat, idle: Word)
    requires size > 0 && size % 4 == 0 && Feeds(h, a, line) && CountOk(a, line, bc)
    ensures Noted(a.frameSize, h) > 0 ==> |a.tail| < Noted(a.frameSize, h) <= DMA_MAX_LENGTH
    ensures var r := FrameStep(a, h, bc, now, size, idle);
      if |r.0.frames| == |a.frames| then r.0.frames == a.frames && Feeds(r.1, r.0, line)
      else
        && line.todo != []
        && r.0.frames == a.frames + [Frame(line.todo[0], now)]
        && Feeds(r.1, r.0, Line(line.todo[1..], line.cur))
  {
    hide CarriesAll, Got, Wanted, Remainder;
    TakenPrefix(h, a, line, bc, size, idle);
    var all := line.todo + [Whole(line.cur)];
    var unread := Unread(a, line);
    var part, others := unread[0], unread[1..];
    var n := |Taken(a, h, bc, size, idle)|;
    TakePart(h.words, part, others, n, idle);
    assert unread == [part] + others;
    var tail := a.tail + part[..n];
    assert tail == all[0][..|tail|];
    var r := FrameStep(a, h, bc, now, size, idle);
    if line.todo != [] && |tail| == |line.todo[0]| {
      assert tail == line.todo[0];
      var rest := Line(line.todo[1..], line.cur);
      assert rest.todo + [Whole(rest.cur)] == all[1..];
      assert Unread(r.0, rest) == others;
      assert Sizes(line.todo)[1..] == Sizes(line.todo[1..]);
    } else {
      assert all[0][|tail|..] == part[n..];
      assert Unread(r.0, line) == [part[n..]] + others;
      if line.todo != [] && a.frameSize == 0 {
        assert Sizes(line.todo)[1..] == Sizes(line.todo[1..]);
      }
    }
  }

  // ---------- the driver's own byte counter ----------

  // How many descriptors have been filled since the last frame end.
  function FullSinceEnd(q: seq<RxPiece>): (k: nat) {
    if q == [] || q[|q| - 1].Last? then 0 else 1 + FullSinceEnd(q[..|q| - 1])
  }

  lemma {:induction false} FullAtEnd(q: seq<RxPiece>, tail: seq<byte>, size: nat)
    requires size > 0
    ensures FullSinceEnd(q + FullChunks(tail, size)) == FullSinceEnd(q) + |FullChunks(tail, size)|
    decreases |tail|
  {
    hide FullSinceEnd;
    if |tail| < size {
      assert q + FullChunks(tail, size) == q;
    } else {
      var first := Full(tail[..size]);
      FullAtEnd(q + [first], tail[size..], size);
      assert q + FullChunks(tail, size) == (q + [first]) + FullChunks(tail[size..], size);
      OneMoreFull(q, first);
    }
  }

  lemma OneMoreFull(q: seq<RxPiece>, p: RxPiece)
    requires p.Full?
    ensures FullSinceEnd(q + [p]) == FullSinceEnd(q) + 1
  {
    assert (q + [p])[..|q|] == q;
  }

  lemma {:induction false} FullBytes(tail: seq<byte>, size: nat)
    requires size > 0
    ensures |tail| == |FullChunks(tail, size)| * size + |Remainder(tail, size)|
    decreases |tail|
  {
    hide Remainder;
    RemainderDef(tail, size);
    if |tail| >= size {
      FullBytes(tail[size..], size);
      OneMore(|FullChunks(tail[size..], size)|, size);
    }
  }

  lemma OneMore(k: nat, size: nat)
    ensures (k + 1) * size == k * size + size
  {
  }

  lemma RemainderDef(tail: seq<byte>, size: nat)
    requires size > 0
    ensures Remainder(tail, size) == if |tail| < size then tail else Remainder(tail[size..], size)
  {
  }

  lemma {:induction false} EndsInLast(rest: seq<byte>, total: nat, stamp: Stamp, size: nat)
    requires size > 0
    ensures var q := Chunks(rest, total, stamp, size); q[|q| - 1].Last?
  {
    if |rest| > size {
      EndsInLast(rest[size..], total, stamp, size);
    }
  }

  lemma {:induction false} FramesEndInLast(frames: seq<Frame>, size: nat)
    requires size > 0
    ensures FullSinceEnd(Layout(frames, [], size)) == 0
  {
    EmptyTail(size);
    if frames != [] {
      var rest, f := frames[..|frames| - 1], frames[|frames| - 1];
      LayoutFrame(rest, f, size);
      assert rest + [f] == frames;
      EndsInLast(f.bytes, |f.bytes|, f.stamp, size);
    }
  }

  /** In framed mode the driver's byte counter is what the filled descriptors since the last frame end
      and the partial one hold; it is whole words while a frame is unfinished, and below a known length. */
  lemma CounterIs(s: RxState, a: RxAbs, h: Hw, line: Line, size: nat)
    requires size > 0 && Framed(s, a, size) && Feeds(h, a, line)
    ensures s.inFrame == FullSinceEnd(s.ready) * size + |s.partial|
    ensures s.inFrame % 4 == 0
    ensures s.frameSize > 0 ==> s.inFrame < s.frameSize
  {
    hide FullSinceEnd, Layout, FullChunks, Remainder, Unread;
    LayoutTail(a.frames, a.tail, size);
    FullAtEnd(Layout(a.frames, [], size), a.tail, size);
    FullBytes(a.tail, size);
    FramesEndInLast(a.frames, size);
  }

  // ---------- a whole FIFO pass ----------

  function HearAll(line: Line, es: seq<HwEvent>): Line
    decreases |es|
  {
    if es == [] then line else HearAll(Hear(line, es[0]), es[1..])
  }

  ghost predicate PlausibleAll(line: Line, es: seq<HwEvent>)
    decreases |es|
  {
    es != [] ==> Plausible(line, es[0]) && PlausibleAll(Hear(line, es[0]), es[1..])
  }

  function Bare(frames: seq<Frame>): (bs: seq<seq<byte>>)
    ensures |bs| == |frames|
  {
    seq(|frames|, i requires 0 <= i < |frames| => frames[i].bytes)
  }

  // Every frame that has come over the line and has not been read by the user, oldest first.
  function History(a: RxAbs, line: Line): seq<seq<byte>> {
    Bare(a.frames) + line.todo
  }

  lemma {:induction false} HearAllKeepsFeeding(h: Hw, a: RxAbs, line: Line, es: seq<HwEvent>)
    requires Feeds(h, a, line) && PlausibleAll(line, es)
    ensures Feeds(AbsorbAll(h, es), a, HearAll(line, es))
    ensures line.todo <= HearAll(line, es).todo
    decreases |es|
  {
    hide Feeds, Plausible, Absorb;
    if es != [] {
      HearKeepsFeeding(h, a, line, es[0]);
      HearAllKeepsFeeding(Absorb(h, es[0]), a, Hear(line, es[0]), es[1..]);
    }
  }

  // An iteration finishes at most one descriptor.
  lemma OneMoreDescriptor(a: RxAbs, h: Hw, line: Line, bc: nat, now: Stamp, size: nat, idle: Word)
    requires size > 0 && size % 4 == 0 && Feeds(h, a, line) && CountOk(a, line, bc)
    ensures var f := FrameStep(a, h, bc, now, size, idle);
      |Layout(a.frames, a.tail, size)| <= |Layout(f.0.frames, f.0.tail, size)| <= |Layout(a.frames, a.tail, size)| + 1
  {
    hide Feeds, FrameStep, ReadStep, CountOk, Layout, Remainder;
    var s := RxState(Layout(a.frames, a.tail, size), Remainder(a.tail, size), |a.tail|, a.frameSize);
    StepKeepsFeeding(h, a, line, bc, now, size, idle);
    StepKeepsFrames(s, a, h, bc, now, size, idle);
  }

  // The line once an iteration has turned its first frame into a ready one, or not.
  function LineAfter(line: Line, before: RxAbs, after: RxAbs): Line {
    if |after.frames| > |before.frames| && line.todo != [] then Line(line.todo[1..], line.cur) else line
  }

  /** The read loop on frames; descriptors only decide when it stops. */
  function FramePass(a: RxAbs, h: Hw, line: Line, snaps: seq<Snapshot>,
                     size: nat, num: nat, idle: Word): (RxAbs, Hw, Line)
    requires size > 0
    decreases |snaps|
  {
    if snaps == [] || |Layout(a.frames, a.tail, size)| == num then (a, h, line)
    else
      var heard := HearAll(line, snaps[0].events);
      var r := FrameStep(a, AbsorbAll(h, snaps[0].events), snaps[0].bc, snaps[0].now, size, idle);
      var left := LineAfter(heard, a, r.0);
      if |Layout(r.0.frames, r.0.tail, size)| == |Layout(a.frames, a.tail, size)| then (r.0, r.1, left)
      else FramePass(r.0, r.1, left, snaps[1..], size, num, idle)
  }

  // Nothing arrives, and the byte count register shows no more than what is there.
  ghost predicate Still(a: RxAbs, h: Hw, line: Line, snaps: seq<Snapshot>, size: nat, idle: Word)
    requires size > 0
    decreases |snaps|
  {
    snaps != [] ==>
      var r := FrameStep(a, h, snaps[0].bc, snaps[0].now, size, idle);
      && snaps[0].events == [] && CountOk(a, line, snaps[0].bc)
      && Still(r.0, r.1, LineAfter(line, a, r.0), snaps[1..], size, idle)
  }

  /** A whole pass takes every complete frame out of the hardware, or fills the ring. */
  lemma {:induction false} PassCompletes(a: RxAbs, h: Hw, line: Line, snaps: seq<Snapshot>,
                                         size: nat, num: nat, idle: Word)
    requires size > 0 && size % 4 == 0 && Feeds(h, a, line) && Still(a, h, line, snaps, size, idle)
    requires var used := |Layout(a.frames, a.tail, size)|; used <= num && num - used <= |snaps|
    ensures var r := FramePass(a, h, line, snaps, size, num, idle);
      r.2.todo == [] || |Layout(r.0.frames, r.0.tail, size)| == num
    decreases |snaps|
  {
    hide Feeds, FrameStep, Layout, CountOk;
    if snaps != [] && |Layout(a.frames, a.tail, size)| < num {
      assert AbsorbAll(h, snaps[0].events) == h && HearAll(line, snaps[0].events) == line;
      var r := FrameStep(a, h, snaps[0].bc, snaps[0].now, size, idle);
      StepKeepsFeeding(h, a, line, snaps[0].bc, snaps[0].now, size, idle);
      OneMoreDescriptor(a, h, line, snaps[0].bc, snaps[0].now, size, idle);
      if line.todo != [] {
        IterationFinishes(h, a, line, snaps[0].bc, snaps[0].now, size, idle);
      }
      if |Layout(r.0.frames, r.0.tail, size)| != |Layout(a.frames, a.tail, size)| {
        PassCompletes(r.0, r.1, LineAfter(line, a, r.0), snaps[1..], size, num, idle);
      }
    }
  }

  // What the card shows at each iteration is consistent with what came over the line.
  ghost predicate Consistent(a: RxAbs, h: Hw, line: Line, snaps: seq<Snapshot>, size: nat, idle: Word)
    requires size > 0
    decreases |snaps|
  {
    snaps != [] ==>
      var heard := HearAll(line, snaps[0].events);
      var r := FrameStep(a, AbsorbAll(h, snaps[0].events), snaps[0].bc, snaps[0].now, size, idle);
      && PlausibleAll(line, snaps[0].events)
      && CountOk(a, heard, snaps[0].bc)
      && Consistent(r.0, r.1, LineAfter(heard, a, r.0), snaps[1..], size, idle)
  }

  /** Reassembly: however a pass is cut into descriptors, partial reads and arrivals, afterwards the ring
      holds exactly a prefix of the frames that came over the line, complete and in order, and the
      hardware feeds exactly the rest. */
  lemma {:induction false} PassReassembles(s: RxState, a: RxAbs, h: Hw, line: Line, snaps: seq<Snapshot>,
                                           size: nat, num: nat, idle: Word)
    requires size > 0 && size % 4 == 0 && |s.partial| < size && |s.ready| <= num
    requires Framed(s, a, size) && Feeds(h, a, line) && Consistent(a, h, line, snaps, size, idle)
    ensures var r := ReadData(s, h, snaps, size, num, idle);
      var f := FramePass(a, h, line, snaps, size, num, idle);
      && Framed(r.0, f.0, size) && r.1 == f.1
      && Feeds(f.1, f.0, f.2)
      && a.frames <= f.0.frames
      && History(a, line) <= History(f.0, f.2)
    decreases |snaps|
  {
    hide Feeds, FrameStep, ReadStep, CountOk, Plausible, Layout, Remainder;
    if snaps != [] && |s.ready| < num {
      var h1 := AbsorbAll(h, snaps[0].events);
      var heard := HearAll(line, snaps[0].events);
      HearAllKeepsFeeding(h, a, line, snaps[0].events);
      StepKeepsFeeding(h1, a, heard, snaps[0].bc, snaps[0].now, size, idle);
      StepKeepsFrames(s, a, h1, snaps[0].bc, snaps[0].now, size, idle);
      var r := ReadStep(s, h1, snaps[0].bc, snaps[0].now, size, idle);
      var f := FrameStep(a, h1, snaps[0].bc, snaps[0].now, size, idle);
      var left := LineAfter(heard, a, f.0);
      assert History(f.0, left) == History(a, heard) by {
        if |f.0.frames| > |a.frames| {
          assert heard.todo == [heard.todo[0]] + heard.todo[1..];
          assert Bare(f.0.frames) == Bare(a.frames) + [heard.todo[0]];
        }
      }
      if |r.0.ready| > |s.ready| {
        PassReassembles(r.0, f.0, r.1, left, snaps[1..], size, num, idle);
      }
    }
  }
}
