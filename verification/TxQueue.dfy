/** The transmit side as values: how frames split into descriptors, what one FIFO fill takes, and
    what that means for the hardware FIFO. The TxRing class is proved against these functions. */
module TxQueue {
  import opened Words
  import opened Descriptors

  const TX_FIFO_SIZE := 4096
  const TOO_LONG := 4092  // a descriptor this long is charged more than the FIFO has

  /** One occupied transmit descriptor. The first of a frame carries the whole frame's length. */
  datatype TxPiece = TxPiece(first: bool, cnt: nat, data: seq<byte>)

  predicate PieceFits(p: TxPiece, size: nat) {
    0 < p.cnt && 0 < |p.data| <= size
  }

  predicate AllFit(q: seq<TxPiece>, size: nat) {
    forall p :: p in q ==> PieceFits(p, size)
  }

  // ---------- splitting a frame over descriptors ----------

  function SplitRest(rest: seq<byte>, size: nat): (q: seq<TxPiece>)
    requires size > 0
    ensures AllFit(q, size) && (rest == [] <==> q == [])
    ensures forall p :: p in q ==> !p.first
  {
    if rest == [] then []
    else
      var n := if |rest| < size then |rest| else size;
      [TxPiece(false, n, rest[..n])] + SplitRest(rest[n..], size)
  }

  function Split(frame: seq<byte>, size: nat): (q: seq<TxPiece>)
    requires size > 0 && frame != []
    ensures AllFit(q, size) && q != [] && q[0].first && q[0].cnt == |frame|
    ensures forall i :: 0 < i < |q| ==> !q[i].first
  {
    var n := if |frame| < size then |frame| else size;
    [TxPiece(true, |frame|, frame[..n])] + SplitRest(frame[n..], size)
  }

  predicate NonEmpty(frames: seq<seq<byte>>) {
    forall i :: 0 <= i < |frames| ==> |frames[i]| > 0
  }

  function SplitAll(frames: seq<seq<byte>>, size: nat): (q: seq<TxPiece>)
    requires size > 0 && NonEmpty(frames)
    ensures AllFit(q, size)
  {
    if frames == [] then [] else Split(frames[0], size) + SplitAll(frames[1..], size)
  }

  function Datas(q: seq<TxPiece>): (parts: seq<seq<byte>>)
    ensures |parts| == |q|
  {
    seq(|q|, i requires 0 <= i < |q| => q[i].data)
  }

  // The frame lengths announced by a run of descriptors.
  function Lengths(q: seq<TxPiece>): seq<nat> {
    if q == [] then [] else (if q[0].first then [q[0].cnt] else []) + Lengths(q[1..])
  }

  lemma {:induction false} LengthsAppend(a: seq<TxPiece>, b: seq<TxPiece>)
    ensures Lengths(a + b) == Lengths(a) + Lengths(b)
  {
    hide Lengths;
    LengthsDef(a);
    LengthsDef(a + b);
    if a == [] {
      assert a + b == b;
    } else {
      assert (a + b)[1..] == a[1..] + b;
      LengthsAppend(a[1..], b);
    }
  }

  lemma LengthsDef(q: seq<TxPiece>)
    ensures Lengths(q) == if q == [] then [] else (if q[0].first then [q[0].cnt] else []) + Lengths(q[1..])
  {
  }

  lemma {:induction false} NoLengths(q: seq<TxPiece>)
    requires forall p :: p in q ==> !p.first
    ensures Lengths(q) == []
  {
    if q != [] {
      NoLengths(q[1..]);
    }
  }

  lemma SplitLengths(frame: seq<byte>, size: nat)
    requires size > 0 && frame != []
    ensures Lengths(Split(frame, size)) == [|frame|]
  {
    var q := Split(frame, size);
    NoLengths(q[1..]);
  }

  lemma DatasAppend(a: seq<TxPiece>, b: seq<TxPiece>)
    ensures Datas(a + b) == Datas(a) + Datas(b)
  {
  }

  lemma {:induction false} SplitAllAppend(a: seq<seq<byte>>, b: seq<seq<byte>>, size: nat)
    requires size > 0 && NonEmpty(a) && NonEmpty(b)
    ensures SplitAll(a + b, size) == SplitAll(a, size) + SplitAll(b, size)
  {
    if a == [] {
      assert a + b == b;
    } else {
      assert (a + b)[1..] == a[1..] + b;
      SplitAllAppend(a[1..], b, size);
    }
  }

  // k descriptors hold the frame exactly when k * size bytes do.
  lemma {:induction false} SplitRestCount(rest: seq<byte>, size: nat, k: nat)
    requires size > 0
    ensures |SplitRest(rest, size)| <= k <==> |rest| <= k * size
  {
    Product(k, size);
    if rest != [] && k > 0 {
      var n := if |rest| < size then |rest| else size;
      SplitRestCount(rest[n..], size, k - 1);
    }
  }

  lemma Product(k: nat, size: nat)
    ensures 0 <= k * size
    ensures k > 0 ==> k * size == (k - 1) * size + size && 0 <= (k - 1) * size
  {
  }

  lemma SplitCount(frame: seq<byte>, size: nat, k: nat)
    requires size > 0 && frame != []
    ensures |Split(frame, size)| <= k <==> |frame| <= k * size
  {
    var n := if |frame| < size then |frame| else size;
    if k > 0 {
      SplitRestCount(frame[n..], size, k - 1);
      Product(k, size);
    }
  }

  lemma {:induction false} SplitTailCarries(ws: seq<Word>, head: seq<byte>, tail: seq<byte>, size: nat)
    requires size > 0 && size % 4 == 0 && |head| % 4 == 0 && tail != []
    ensures CarriesAll(ws, [head] + Datas(SplitRest(tail, size))) <==> Carries(ws, head + tail)
    decreases |tail|, 1
  {
    var parts := Datas(SplitRest(tail, size));
    var n := WordCount(|head|);
    assert ([head] + parts)[1..] == parts;
    CarriesPair(ws, head, tail);
    assert [head, tail][1..] == [tail];
    if n <= |ws| {
      CarriesOne(ws[n..], tail);
      SplitRestCarries(ws[n..], tail, size);
    }
  }

  lemma {:induction false} SplitRestCarries(ws: seq<Word>, rest: seq<byte>, size: nat)
    requires size > 0 && size % 4 == 0 && rest != []
    ensures CarriesAll(ws, Datas(SplitRest(rest, size))) <==> Carries(ws, rest)
    decreases |rest|, 0
  {
    if |rest| <= size {
      assert rest[|rest|..] == [] && rest[..|rest|] == rest;
      assert Datas(SplitRest(rest, size)) == [rest];
      CarriesOne(ws, rest);
    } else {
      SplitTailCarries(ws, rest[..size], rest[size..], size);
      assert rest[..size] + rest[size..] == rest;
      assert Datas(SplitRest(rest, size)) == [rest[..size]] + Datas(SplitRest(rest[size..], size));
    }
  }

  /** Descriptor boundaries are invisible on the FIFO: because every descriptor but the last holds
      a whole number of words, the words for the pieces are the words for the frame, padded once. */
  lemma SplitCarries(ws: seq<Word>, frame: seq<byte>, size: nat)
    requires size > 0 && size % 4 == 0 && frame != []
    ensures CarriesAll(ws, Datas(Split(frame, size))) <==> Carries(ws, frame)
  {
    if |frame| <= size {
      assert frame[|frame|..] == [] && frame[..|frame|] == frame;
      assert Datas(Split(frame, size)) == [frame];
      CarriesOne(ws, frame);
    } else {
      SplitTailCarries(ws, frame[..size], frame[size..], size);
      assert frame[..size] + frame[size..] == frame;
      assert Datas(Split(frame, size)) == [frame[..size]] + Datas(SplitRest(frame[size..], size));
    }
  }

  // ---------- accepting a frame ----------

  // The descriptors written when a frame meets a ring with `room` free descriptors.
  function Queued(frame: seq<byte>, size: nat, room: nat): (q: seq<TxPiece>)
    requires size > 0 && frame != []
  {
    var pieces := Split(frame, size);
    if room < |pieces| then pieces[..room] else pieces
  }

  /** A frame is taken whole exactly when the free descriptors have room for all its bytes. */
  lemma QueuedWhole(frame: seq<byte>, size: nat, room: nat)
    requires size > 0 && frame != []
    ensures Queued(frame, size, room) == Split(frame, size) <==> |frame| <= room * size
  {
    SplitCount(frame, size, room);
  }

  // What a write of `length` bytes reports with `room` of `num` descriptors free, and how many it took.
  function WriteOutcome(length: nat, room: nat, num: nat, size: nat): (r: (Status, nat))
    requires room <= num
  {
    (if room == num || (room > 0 && length <= room * size) then Success else BufferTooSmall,
     if length <= room * size then length else room * size)
  }

  /** Success can hide a short count, exactly when the ring was empty and still too small. */
  lemma ShortSuccessIff(length: nat, room: nat, num: nat, size: nat)
    requires 2 <= num && room <= num
    ensures var r := WriteOutcome(length, room, num, size);
      r.0 == Success && r.1 < length <==> room == num && length > num * size
  {
  }

  // Nine bytes for two buffers of four.
  lemma ShortSuccess()
    ensures WriteOutcome(9, 2, 2, 4) == (Success, 8)
  {
  }

  // The ring's capacity, as the write path computes it in 32 bits.
  function Capacity(num: nat, size: nat): (c: nat)
    ensures c < 0x1_0000_0000
  {
    (size * num) % 0x1_0000_0000
  }

  /** The capacity test refuses a frame that would just fill the ring exactly when the product needs more
      bits. */
  lemma CapacityRefusesIff(num: nat, size: nat)
    ensures Capacity(num, size) < size * num <==> size * num >= 0x1_0000_0000
  {
    LowBits(size * num);
  }

  lemma LowBits(n: nat)
    ensures n % 0x1_0000_0000 < n <==> n >= 0x1_0000_0000
  {
  }

  // It can refuse every frame.
  lemma CapacityRefusesAll()
    ensures Capacity(0x1_0000, 0x1_0000) == 0
  {
  }

  // ---------- filling the hardware FIFO ----------

  // Register fields: frames and bytes waiting in the hardware transmit FIFO.
  function Tfcnt(fc: nat): (n: nat)
    ensures n < 512
  {
    (fc / 0x1_0000) % 0x200
  }

  function Txcnt(bc: nat): (n: nat)
    ensures n < 8192
  {
    (bc / 0x1_0000) % 0x2000
  }

  // The registers a pass reads, bit by bit: nine bits of frames and thirteen of bytes, from bit 16 on, with
  // anything around them.
  function FcWord(frames: nat, low: nat, top: nat): nat {
    top * 0x200_0000 + frames * 0x1_0000 + low
  }

  function BcWord(bytes: nat, low: nat, top: nat): nat {
    top * 0x2000_0000 + bytes * 0x1_0000 + low
  }

  ghost predicate ShowsFrames(fc: nat, frames: nat) {
    frames < 0x200 && exists low, top :: low < 0x1_0000 && fc == FcWord(frames, low, top)
  }

  ghost predicate ShowsBytes(bc: nat, bytes: nat) {
    bytes < 0x2000 && exists low, top :: low < 0x1_0000 && bc == BcWord(bytes, low, top)
  }

  /** What the pass reads is what the registers show. */
  lemma TfcntReads(fc: nat, frames: nat)
    ensures ShowsFrames(fc, frames) <==> frames == Tfcnt(fc)
  {
    if ShowsFrames(fc, frames) {
      var low: nat, top: nat :| low < 0x1_0000 && fc == FcWord(frames, low, top);
      FieldIs(top, frames, low, 0x200);
    }
    assert fc == FcWord(Tfcnt(fc), fc % 0x1_0000, fc / 0x200_0000) by { Parts(fc, 0x200); }
  }

  lemma TxcntReads(bc: nat, bytes: nat)
    ensures ShowsBytes(bc, bytes) <==> bytes == Txcnt(bc)
  {
    if ShowsBytes(bc, bytes) {
      var low: nat, top: nat :| low < 0x1_0000 && bc == BcWord(bytes, low, top);
      FieldIs(top, bytes, low, 0x2000);
    }
    assert bc == BcWord(Txcnt(bc), bc % 0x1_0000, bc / 0x2000_0000) by { Parts(bc, 0x2000); }
  }

  lemma FieldIs(top: nat, n: nat, low: nat, field: nat)
    requires field == 0x200 || field == 0x2000
    requires n < field && low < 0x1_0000
    ensures ((top * field + n) * 0x1_0000 + low) / 0x1_0000 == top * field + n
    ensures (top * field + n) % field == n
  {
  }

  lemma Parts(w: nat, field: nat)
    requires field == 0x200 || field == 0x2000
    ensures w / 0x1_0000 / field == w / (0x1_0000 * field)
    ensures w == (w / 0x1_0000 / field * field + w / 0x1_0000 % field) * 0x1_0000 + w % 0x1_0000
  {
  }

  // The free space the driver computes, in 32-bit unsigned arithmetic, rounded down to whole words.
  function FifoSpace(txcnt: nat): (space: nat)
    requires txcnt < 8192
  {
    var raw := (TX_FIFO_SIZE - txcnt - 1) % 0x1_0000_0000;
    raw - raw % 4
  }

  // The room a descriptor of n bytes is charged; a whole number of words is charged one word extra.
  function SizeInFifo(n: nat): (m: nat)
    ensures 4 * WordCount(n) <= m && m % 4 == 0
  {
    n + (4 - n % 4)
  }

  // How many descriptors one pass moves, given the space left and the frame length already noted.
  function PushCount(q: seq<TxPiece>, space: nat, frameSize: nat): (k: nat)
    ensures k <= |q|
  {
    if q == [] || space < SizeInFifo(|q[0].data|) || (q[0].first && frameSize != 0) then 0
    else 1 + PushCount(q[1..], space - SizeInFifo(|q[0].data|), if q[0].first then q[0].cnt else frameSize)
  }

  function FillCount(q: seq<TxPiece>, fc: nat, bc: nat): (k: nat)
    ensures k <= |q|
  {
    if Tfcnt(fc) > 254 || FifoSpace(Txcnt(bc)) > TX_FIFO_SIZE then 0
    else PushCount(q, FifoSpace(Txcnt(bc)), 0)
  }

  lemma SpaceWithinFifo(txcnt: nat)
    requires txcnt < 8192
    ensures FifoSpace(txcnt) <= TX_FIFO_SIZE <==> txcnt < TX_FIFO_SIZE
    ensures txcnt < TX_FIFO_SIZE ==> txcnt + FifoSpace(txcnt) <= TX_FIFO_SIZE - 1
  {
    if txcnt >= TX_FIFO_SIZE {
      assert (TX_FIFO_SIZE - txcnt - 1) % 0x1_0000_0000 == TX_FIFO_SIZE - txcnt - 1 + 0x1_0000_0000;
    }
  }

  lemma {:induction false} PushWords(q: seq<TxPiece>, space: nat, frameSize: nat)
    ensures 4 * TotalWords(Datas(q[..PushCount(q, space, frameSize)])) <= space
  {
    var k := PushCount(q, space, frameSize);
    if k > 0 {
      var fs := if q[0].first then q[0].cnt else frameSize;
      PushWords(q[1..], space - SizeInFifo(|q[0].data|), fs);
      assert Datas(q[..k])[1..] == Datas(q[1..][..k - 1]);
    }
  }

  lemma {:induction false} PushLengths(q: seq<TxPiece>, space: nat, frameSize: nat)
    requires forall p :: p in q && p.first ==> p.cnt > 0
    ensures var ls := Lengths(q[..PushCount(q, space, frameSize)]);
      |ls| <= (if frameSize == 0 then 1 else 0)
  {
    var k := PushCount(q, space, frameSize);
    if k > 0 {
      var fs := if q[0].first then q[0].cnt else frameSize;
      assert q[0] in q;
      PushLengths(q[1..], space - SizeInFifo(|q[0].data|), fs);
      assert q[..k][1..] == q[1..][..k - 1];
    }
  }

  /** One pass never overfills the hardware, whatever its registers show, wrap-around of the space included:
      not the 4096-byte data FIFO, and not the 256-entry length FIFO. */
  lemma FillBound(q: seq<TxPiece>, size: nat, fc: nat, bc: nat, frames: nat, bytes: nat)
    requires AllFit(q, size) && ShowsFrames(fc, frames) && ShowsBytes(bc, bytes)
    ensures var k := FillCount(q, fc, bc);
      && (k > 0 ==> bytes + 4 * TotalWords(Datas(q[..k])) <= 4095)
      && |Lengths(q[..k])| <= 1
      && (k > 0 ==> frames + |Lengths(q[..k])| <= 255)
  {
    hide ShowsFrames, ShowsBytes;
    TfcntReads(fc, frames);
    TxcntReads(bc, bytes);
    var space := FifoSpace(Txcnt(bc));
    SpaceWithinFifo(Txcnt(bc));
    PushWords(q, space, 0);
    PushLengths(q, space, 0);
  }

  // What a pass charges its descriptors: whole words, and one more.
  function Charge(q: seq<TxPiece>): (n: nat) {
    if q == [] then 0 else 4 * (|q[0].data| / 4) + 4 + Charge(q[1..])
  }

  lemma ChargeOne(n: nat)
    ensures SizeInFifo(n) == 4 * (n / 4) + 4
  {
  }

  /** And it takes all it can: m descriptors or more move exactly if their charges fit below the top of the data
      FIFO, at most one of them starts a frame, and the length FIFO has a place. */
  lemma FillCountIs(q: seq<TxPiece>, size: nat, fc: nat, bc: nat, frames: nat, bytes: nat, m: nat)
    requires AllFit(q, size) && ShowsFrames(fc, frames) && ShowsBytes(bc, bytes) && 0 < m <= |q|
    ensures m <= FillCount(q, fc, bc)
      <==> frames <= 254 && bytes + Charge(q[..m]) <= 4095 && |Lengths(q[..m])| <= 1
  {
    hide ShowsFrames, ShowsBytes, Lengths, Charge;
    TfcntReads(fc, frames);
    TxcntReads(bc, bytes);
    SpaceWithinFifo(bytes);
    ChargeInWords(q[..m]);
    if bytes < TX_FIFO_SIZE {
      RoomInWords(bytes, Charge(q[..m]));
      PushCountIs(q, size, FifoSpace(bytes), 0, m);
    }
  }

  lemma {:induction false} ChargeInWords(q: seq<TxPiece>)
    ensures Charge(q) % 4 == 0 && (q != [] ==> Charge(q) > 0)
  {
    if q != [] {
      ChargeInWords(q[1..]);
      MoreWords(|q[0].data| / 4, Charge(q[1..]));
    }
  }

  lemma MoreWords(k: nat, c: nat)
    requires c % 4 == 0
    ensures (4 * k + 4 + c) % 4 == 0
  {
    assert 4 * k + 4 + c == 4 * (k + 1 + c / 4);
  }

  lemma {:induction false} PushCountIs(q: seq<TxPiece>, size: nat, space: nat, frameSize: nat, m: nat)
    requires AllFit(q, size) && m <= |q|
    ensures m <= PushCount(q, space, frameSize)
      <==> Charge(q[..m]) <= space && |Lengths(q[..m])| <= (if frameSize == 0 then 1 else 0)
  {
    hide SizeInFifo, PushCount, Charge, Lengths;
    if m == 0 {
      NothingCharged();
      assert q[..m] == [];
    } else {
      assert q[0] in q && PieceFits(q[0], size);
      ChargeOne(|q[0].data|);
      FirstCharged(q, space, frameSize, m);
      var fs := if q[0].first then q[0].cnt else frameSize;
      if SizeInFifo(|q[0].data|) <= space {
        PushCountIs(q[1..], size, space - SizeInFifo(|q[0].data|), fs, m - 1);
      }
    }
  }

  lemma NothingCharged()
    ensures Charge([]) == 0 && Lengths([]) == []
  {
  }

  lemma FirstCharged(q: seq<TxPiece>, space: nat, frameSize: nat, m: nat)
    requires 0 < m <= |q|
    ensures Charge(q[..m]) == 4 * (|q[0].data| / 4) + 4 + Charge(q[1..][..m - 1])
    ensures Lengths(q[..m]) == (if q[0].first then [q[0].cnt] else []) + Lengths(q[1..][..m - 1])
    ensures PushCount(q, space, frameSize) ==
      if space < SizeInFifo(|q[0].data|) || (q[0].first && frameSize != 0) then 0
      else 1 + PushCount(q[1..], space - SizeInFifo(|q[0].data|), if q[0].first then q[0].cnt else frameSize)
  {
    hide SizeInFifo;
    LengthsDef(q[..m]);
    assert q[..m][1..] == q[1..][..m - 1] && q[..m][0] == q[0];
  }

  // ---------- draining ----------

  /** A pass moves something exactly when the oldest descriptor, charged up to a whole word more than it
      needs, fits below the top of the hardware FIFO, and the length FIFO has a place. */
  lemma PassMoves(q: seq<TxPiece>, fc: nat, bc: nat, frames: nat, bytes: nat)
    requires ShowsFrames(fc, frames) && ShowsBytes(bc, bytes)
    ensures FillCount(q, fc, bc) > 0 <==>
      q != [] && frames <= 254 && bytes + 4 * (|q[0].data| / 4) + 4 <= 4095
  {
    hide ShowsFrames, ShowsBytes;
    TfcntReads(fc, frames);
    TxcntReads(bc, bytes);
    SpaceWithinFifo(bytes);
    if bytes < TX_FIFO_SIZE && q != [] {
      ChargeOne(|q[0].data|);
      RoomInWords(bytes, SizeInFifo(|q[0].data|));
    }
  }

  lemma RoomInWords(txcnt: nat, m: nat)
    requires txcnt < TX_FIFO_SIZE && m % 4 == 0
    ensures m <= FifoSpace(txcnt) <==> txcnt + m <= TX_FIFO_SIZE - 1
  {
  }

  lemma ChargeWithinFifo(n: nat)
    ensures n < TOO_LONG <==> SizeInFifo(n) <= TX_FIFO_SIZE - 1
    ensures n < TOO_LONG <==> 4 * (n / 4) + 4 <= 4095
  {
  }

  /** What one pass reads from the card: the FIFO frame count and byte count registers. */
  datatype Registers = Registers(fc: nat, bc: nat)

  // The hardware has sent everything before each pass looks, up to some lengths.
  ghost predicate Idle(regs: seq<Registers>) {
    forall i :: 0 <= i < |regs| ==> HasPlace(regs[i].fc) && ShowsBytes(regs[i].bc, 0)
  }

  ghost predicate HasPlace(fc: nat) {
    exists frames :: frames <= 254 && ShowsFrames(fc, frames)
  }

  function AfterPasses(q: seq<TxPiece>, regs: seq<Registers>): seq<TxPiece>
    decreases |regs|
  {
    if regs == [] then q else AfterPasses(q[FillCount(q, regs[0].fc, regs[0].bc)..], regs[1..])
  }

  // No piece is as long as the longest that fits an empty FIFO.
  predicate AllSmall(q: seq<TxPiece>) {
    forall p :: p in q ==> |p.data| < TOO_LONG
  }

  // What passes move is never too long.
  lemma {:induction false} PushSmall(q: seq<TxPiece>, space: nat, frameSize: nat)
    requires space <= TX_FIFO_SIZE - 1
    ensures AllSmall(q[..PushCount(q, space, frameSize)])
  {
    hide SizeInFifo;
    var k := PushCount(q, space, frameSize);
    if k > 0 {
      ChargeWithinFifo(|q[0].data|);
      PushSmall(q[1..], space - SizeInFifo(|q[0].data|), if q[0].first then q[0].cnt else frameSize);
      assert q[..k] == [q[0]] + q[1..][..k - 1];
    }
  }

  lemma FillSmall(q: seq<TxPiece>, fc: nat, bc: nat)
    ensures AllSmall(q[..FillCount(q, fc, bc)])
  {
    SpaceWithinFifo(Txcnt(bc));
    if FifoSpace(Txcnt(bc)) <= TX_FIFO_SIZE {
      PushSmall(q, FifoSpace(Txcnt(bc)), 0);
    }
  }

  lemma {:induction false} DrainsWithin(q: seq<TxPiece>, regs: seq<Registers>)
    requires AllSmall(q) && |q| <= |regs| && Idle(regs)
    ensures AfterPasses(q, regs) == []
    decreases |regs|
  {
    hide FillCount, ShowsFrames, ShowsBytes;
    if regs != [] {
      assert HasPlace(regs[0].fc);
      var frames :| frames <= 254 && ShowsFrames(regs[0].fc, frames);
      PassMoves(q, regs[0].fc, regs[0].bc, frames, 0);
      if q != [] {
        assert q[0] in q;
        ChargeWithinFifo(|q[0].data|);
      }
      DrainsWithin(q[FillCount(q, regs[0].fc, regs[0].bc)..], regs[1..]);
    }
  }

  lemma {:induction false} StuckAt(q: seq<TxPiece>, regs: seq<Registers>)
    requires q != [] && |q[0].data| >= TOO_LONG
    ensures AfterPasses(q, regs) == q
    decreases |regs|
  {
    hide FillCount, ShowsFrames, ShowsBytes;
    if regs != [] {
      TfcntReads(regs[0].fc, Tfcnt(regs[0].fc));
      TxcntReads(regs[0].bc, Txcnt(regs[0].bc));
      PassMoves(q, regs[0].fc, regs[0].bc, Tfcnt(regs[0].fc), Txcnt(regs[0].bc));
      ChargeWithinFifo(|q[0].data|);
      assert q[0..] == q;
      StuckAt(q, regs[1..]);
    }
  }

  ghost predicate Drains(frame: seq<byte>, size: nat)
    requires size > 0 && frame != []
  {
    forall regs :: Idle(regs) && |Split(frame, size)| <= |regs| ==> AfterPasses(Split(frame, size), regs) == []
  }

  // No descriptor of the frame is too long to be sent: a writer can tell beforehand.
  predicate Sendable(frame: seq<byte>, size: nat) {
    |frame| < TOO_LONG || size < TOO_LONG
  }

  lemma {:induction false} RestPieces(rest: seq<byte>, size: nat)
    requires size > 0
    ensures forall p :: p in SplitRest(rest, size) ==> |p.data| <= |rest|
  {
    if rest != [] {
      var n := if |rest| < size then |rest| else size;
      RestPieces(rest[n..], size);
    }
  }

  lemma SplitSmall(frame: seq<byte>, size: nat)
    requires size > 0 && frame != []
    ensures AllSmall(Split(frame, size)) <==> Sendable(frame, size)
  {
    var n := if |frame| < size then |frame| else size;
    RestPieces(frame[n..], size);
    assert Split(frame, size)[0] in Split(frame, size);
    assert forall p :: p in Split(frame, size) ==> PieceFits(p, size);
  }

  /** A frame drains through an idle FIFO exactly when none of its descriptors holds 4092 bytes or more. */
  lemma DrainsIffSendable(frame: seq<byte>, size: nat)
    requires size > 0 && frame != []
    ensures Drains(frame, size) <==> Sendable(frame, size)
  {
    hide AfterPasses, ShowsFrames, ShowsBytes, Split;
    SplitSmall(frame, size);
    var q := Split(frame, size);
    if Sendable(frame, size) {
      forall regs | Idle(regs) && |q| <= |regs| ensures AfterPasses(q, regs) == [] {
        DrainsWithin(q, regs);
      }
    } else {
      FirstPieceLong(frame, size);
      var regs := seq(|q|, _ => Registers(0, 0));
      IdleAtZero(regs);
      StuckAt(q, regs);
    }
  }

  lemma FirstPieceLong(frame: seq<byte>, size: nat)
    requires size > 0 && frame != [] && !Sendable(frame, size)
    ensures |Split(frame, size)[0].data| >= TOO_LONG
  {
  }

  /** So a buffer size drains every frame exactly when it is below 4092. Larger ones are accepted when the
      ring is created, and a full descriptor then never leaves. */
  lemma DrainsIffSizeFits(size: nat)
    requires size > 0
    ensures size < TOO_LONG <==> forall frame: seq<byte> :: frame != [] ==> Drains(frame, size)
  {
    hide Drains, Split;
    forall frame: seq<byte> | frame != [] ensures Drains(frame, size) <==> Sendable(frame, size) {
      DrainsIffSendable(frame, size);
    }
    var frame := seq(TOO_LONG, _ => 0 as byte);
    assert frame != [] && (Drains(frame, size) <==> size < TOO_LONG);
  }

  lemma IdleAtZero(regs: seq<Registers>)
    requires forall i :: 0 <= i < |regs| ==> regs[i] == Registers(0, 0)
    ensures Idle(regs)
  {
    hide ShowsFrames, ShowsBytes;
    TfcntReads(0, 0);
    TxcntReads(0, 0);
    assert HasPlace(0);
  }

  // ---------- checking for space, then writing ----------

  /** Between the space check and the write, anything but another writer may run: FIFO passes and purges. */
  datatype TxEvent = Fill(fc: nat, bc: nat) | Purge

  function AfterEvents(q: seq<TxPiece>, events: seq<TxEvent>): (r: seq<TxPiece>)
    decreases |events|
  {
    if events == [] then q
    else
      match events[0]
      case Fill(fc, bc) => AfterEvents(q[FillCount(q, fc, bc)..], events[1..])
      case Purge => AfterEvents([], events[1..])
  }

  /** A frame that passed the space check is later queued whole, however many passes come between. */
  lemma {:induction false} CheckedWriteIsWhole(q: seq<TxPiece>, num: nat, size: nat, frame: seq<byte>,
                                               events: seq<TxEvent>)
    requires size > 0 && frame != [] && |q| <= num
    requires |frame| <= (num - |q|) * size
    ensures var later := AfterEvents(q, events);
      && |later| <= |q|
      && Queued(frame, size, num - |later|) == Split(frame, size)
    decreases |events|
  {
    if events == [] {
      QueuedWhole(frame, size, num - |q|);
    } else {
      var next := match events[0] case Fill(fc, bc) => q[FillCount(q, fc, bc)..] case Purge => [];
      assert (num - |next|) * size >= (num - |q|) * size;
      CheckedWriteIsWhole(next, num, size, frame, events[1..]);
    }
  }
}
