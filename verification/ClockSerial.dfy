/** Shifting the 160 clock bits into the chip through the FCR register. */
module ClockSerial {
  import K = ClockCodec
  import S = ClockSearch
  import C = Clock

  // The strobe, data and clock lines of a channel, in the low nibble of byte 0 or byte 1 of FCR.
  datatype Lines = Lines(strobe: bv32, data: bv32, clock: bv32)

  function LinesOf(channel: nat): Lines {
    if channel == 1 then Lines(0x800, 0x100, 0x200) else Lines(0x8, 0x1, 0x2)
  }

  function Meet(w: bv32, mask: bv32): bv32 {
    w & mask
  }

  const KEPT: bv32 := 0xfffff0f0  // everything but both channels' lines

  function Base(fcr: bv32): bv32 {
    Meet(fcr, KEPT)
  }

  /** The XTAL bit is forced according to the card: off on green FSCC cards up to revision 6 and on 232 cards. */
  function Adjusted(bits: seq<bv8>, pdev: nat, prev: nat): (r: seq<bv8>)
    requires |bits| == 20
    ensures |r| == 20
  {
    bits[15 := if (pdev == 0x0f && prev <= 6) || pdev == 0x16 then bits[15] & 0xfb else bits[15] | 0x04]
  }

  // ---------- what the chip sees ----------

  predicate Up(w: bv32, line: bv32) {
    Meet(w, line) != 0
  }

  // The chip's wiring: data on bit 0 of the channel's byte in FCR, clock on bit 1, strobe on bit 3.
  function ByteOfFcr(w: bv32, channel: nat): (b: bv32) {
    if channel == 1 then w >> 8 else w
  }

  predicate DataPin(w: bv32, channel: nat) {
    ByteOfFcr(w, channel) & 1 == 1
  }

  predicate ClockPin(w: bv32, channel: nat) {
    (ByteOfFcr(w, channel) >> 1) & 1 == 1
  }

  predicate StrobePin(w: bv32, channel: nat) {
    (ByteOfFcr(w, channel) >> 3) & 1 == 1
  }

  /** The driver's lines are the chip's pins. */
  lemma LinesArePins(w: bv32, channel: nat)
    ensures Up(w, LinesOf(channel).data) <==> DataPin(w, channel)
    ensures Up(w, LinesOf(channel).clock) <==> ClockPin(w, channel)
    ensures Up(w, LinesOf(channel).strobe) <==> StrobePin(w, channel)
  {
  }

  /** The data pin sampled at each rising edge of the clock pin. */
  function Sample(words: seq<bv32>, channel: nat): (s: seq<bool>)
  {
    if |words| < 2 then []
    else
      Sample(words[..|words| - 1], channel)
      + if !ClockPin(words[|words| - 2], channel) && ClockPin(words[|words| - 1], channel)
        then [DataPin(words[|words| - 1], channel)] else []
  }

  // The n-th bit to be sent: byte 19 first, most significant bit first.
  function BitAt(bits: seq<bv8>, n: nat): bool
    requires |bits| == 20 && n < 160
  {
    TestBit(bits[19 - n / 8], 7 - n % 8)
  }

  function TestBit(b: bv8, j: nat): bool
    requires j < 8
  {
    (b >> (j as bv4)) & 1 != 0
  }

  function BitList(bits: seq<bv8>, count: nat): (s: seq<bool>)
    requires |bits| == 20 && count <= 160
    ensures |s| == count
  {
    seq(count, n requires 0 <= n < count => BitAt(bits, n))
  }

  function Bit(b: bool, weight: bv8): bv8 {
    if b then weight else 0
  }

  function ByteFrom(s: seq<bool>): bv8
    requires |s| == 8
  {
    Join(s[0], s[1], s[2], s[3], s[4], s[5], s[6], s[7])
  }

  function Join(b7: bool, b6: bool, b5: bool, b4: bool, b3: bool, b2: bool, b1: bool, b0: bool): bv8 {
    Bit(b7, 128) | Bit(b6, 64) | Bit(b5, 32) | Bit(b4, 16) | Bit(b3, 8) | Bit(b2, 4) | Bit(b1, 2) | Bit(b0, 1)
  }

  /** The chip's register after 160 bits have been shifted in. */
  function Register(s: seq<bool>): (bits: seq<bv8>)
    requires |s| == 160
    ensures |bits| == 20
  {
    seq(20, k requires 0 <= k < 20 => ByteFrom(s[8 * (19 - k)..8 * (19 - k) + 8]))
  }

  lemma ByteFromBits(b: bv8)
    ensures Join(TestBit(b, 7), TestBit(b, 6), TestBit(b, 5), TestBit(b, 4),
                 TestBit(b, 3), TestBit(b, 2), TestBit(b, 1), TestBit(b, 0)) == b
  {
  }

  lemma RegisterHolds(bits: seq<bv8>)
    requires |bits| == 20
    ensures Register(BitList(bits, 160)) == bits
  {
    hide ByteFrom, BitAt;
    forall k | 0 <= k < 20 ensures Register(BitList(bits, 160))[k] == bits[k] {
      RegisterByte(bits, k);
    }
  }

  lemma RegisterByte(bits: seq<bv8>, k: nat)
    requires |bits| == 20 && k < 20
    ensures ByteFrom(BitList(bits, 160)[8 * (19 - k)..8 * (19 - k) + 8]) == bits[k]
  {
    hide TestBit, Bit, BitAt, ByteFrom;
    var part := BitList(bits, 160)[8 * (19 - k)..8 * (19 - k) + 8];
    forall i | 0 <= i < 8 ensures part[i] == TestBit(bits[k], 7 - i) {
      BitIs(bits, 8 * (19 - k) + i, k, 7 - i);
    }
    assert part == Bits(bits[k]);
    ByteOf(bits[k]);
  }

  function Bits(b: bv8): (s: seq<bool>)
    ensures |s| == 8
  {
    [TestBit(b, 7), TestBit(b, 6), TestBit(b, 5), TestBit(b, 4),
     TestBit(b, 3), TestBit(b, 2), TestBit(b, 1), TestBit(b, 0)]
  }

  lemma ByteOf(b: bv8)
    ensures ByteFrom(Bits(b)) == b
  {
    hide TestBit, Join;
    ByteFromBits(b);
  }

  // ---------- what the driver writes ----------

  // The driver's |= and &= ~ on a register value.
  function Raise(w: bv32, line: bv32): bv32 {
    w | line
  }

  function Drop(w: bv32, line: bv32): bv32 {
    w & !line
  }

  function Low(fcr: bv32, lines: Lines, bit: bool): bv32 {
    if bit then Raise(Base(fcr), lines.data) else Base(fcr)
  }

  function High(fcr: bv32, lines: Lines, bit: bool): bv32 {
    Raise(Low(fcr, lines, bit), lines.clock)
  }

  function Strobe(fcr: bv32, lines: Lines): bv32 {
    Drop(Raise(Base(fcr), lines.strobe), lines.clock)
  }

  predicate Apart(base: bv32, line: bv32) {
    Meet(base, line) == 0
  }

  lemma LinesApart(fcr: bv32, channel: nat)
    ensures var l := LinesOf(channel);
      Apart(Base(fcr), l.data) && Apart(Base(fcr), l.clock) && Apart(l.data, l.clock)
  {
  }

  lemma DropAbsent(w: bv32, m: bv32)
    requires Apart(w, m)
    ensures Drop(w, m) == w
  {
  }

  lemma DropRaised(w: bv32, m: bv32)
    requires Apart(w, m)
    ensures Drop(Raise(w, m), m) == w
  {
  }

  lemma RaiseTwice(w: bv32, m: bv32)
    ensures Raise(Raise(w, m), m) == Raise(w, m)
  {
  }

  lemma RaiseApart(w: bv32, m: bv32, k: bv32)
    requires Apart(w, k) && Apart(m, k)
    ensures Apart(Raise(w, m), k)
  {
  }

  lemma RaiseDrop(base: bv32, data: bv32, clock: bv32)
    requires Apart(base, data) && Apart(base, clock) && Apart(data, clock)
    ensures Drop(base, data) == base && Raise(Raise(base, data), data) == Raise(base, data)
    ensures Drop(Raise(base, data), data) == base
    ensures Drop(Raise(base, clock), clock) == base
    ensures Drop(Raise(Raise(base, data), clock), clock) == Raise(base, data)
  {
    hide *;
    DropAbsent(base, data);
    RaiseTwice(base, data);
    DropRaised(base, data);
    DropRaised(base, clock);
    RaiseApart(base, data, clock);
    DropRaised(Raise(base, data), clock);
  }

  // One bit: set or clear the data line, raise the clock, lower it.
  lemma OneBit(fcr: bv32, channel: nat, was: bool, bit: bool)
    ensures var l := LinesOf(channel);
      var w := Low(fcr, l, was);
      && (if bit then Raise(w, l.data) else Drop(w, l.data)) == Low(fcr, l, bit)
      && Raise(Low(fcr, l, bit), l.clock) == High(fcr, l, bit)
      && Drop(High(fcr, l, bit), l.clock) == Low(fcr, l, bit)
  {
    hide Base, LinesOf, Raise, Drop, Apart;
    LinesApart(fcr, channel);
    var l := LinesOf(channel);
    RaiseDrop(Base(fcr), l.data, l.clock);
  }

  // The words written so far: the base, then two for every bit.
  ghost predicate Written(data: seq<bv32>, count: nat, fcr: bv32, lines: Lines, bits: seq<bv8>)
    requires |bits| == 20 && count <= 160 && 1 + 2 * count <= |data|
  {
    && data[0] == Base(fcr)
    && forall n :: 0 <= n < count ==>
         data[1 + 2 * n] == High(fcr, lines, BitAt(bits, n)) && data[2 + 2 * n] == Low(fcr, lines, BitAt(bits, n))
  }

  lemma WriteBit(data: seq<bv32>, data': seq<bv32>, count: nat, fcr: bv32, lines: Lines, bits: seq<bv8>)
    requires |bits| == 20 && count < 160 && |data| == |data'| == 323
    requires Written(data, count, fcr, lines, bits)
    requires forall k :: 0 <= k < 1 + 2 * count ==> data'[k] == data[k]
    requires data'[1 + 2 * count] == High(fcr, lines, BitAt(bits, count))
    requires data'[2 + 2 * count] == Low(fcr, lines, BitAt(bits, count))
    ensures Written(data', count + 1, fcr, lines, bits)
  {
    hide High, Low, Base, BitAt;
  }

  /** fscc_port_set_clock_bits: builds the register writes. They are exactly 323, filling the allocation. */
  method SetClockBits(fcr: bv32, channel: nat, clockBits: seq<bv8>, pdev: nat, prev: nat) returns (data: array<bv32>)
    requires |clockBits| == 20
    ensures fresh(data) && data.Length == 323
    ensures Written(data[..], 160, fcr, LinesOf(channel), Adjusted(clockBits, pdev, prev))
    ensures data[321] == Strobe(fcr, LinesOf(channel)) && data[322] == fcr
  {
    hide *;
    var bits := Adjusted(clockBits, pdev, prev);
    var lines := LinesOf(channel);
    data := new bv32[323](i => 0);
    var dataIndex := 0;
    var newFcr := Base(fcr);
    data[dataIndex] := newFcr;
    dataIndex := dataIndex + 1;
    ghost var was := false;
    ghost var n := 0;
    StartWriting(data[..], fcr, lines, bits);
    var i := 19;
    while i >= 0
      invariant -1 <= i <= 19 && n == (19 - i) * 8 && dataIndex == 1 + 2 * n
      invariant newFcr == Low(fcr, lines, was)
      invariant Written(data[..], n, fcr, lines, bits)
    {
      var j := 7;
      while j >= 0
        invariant -1 <= j <= 7 && n == (19 - i) * 8 + (7 - j) && dataIndex == 1 + 2 * n
        invariant newFcr == Low(fcr, lines, was)
        invariant Written(data[..], n, fcr, lines, bits)
      {
        ghost var before := data[..];
        var bit := TestBit(bits[i], j);
        BitIs(bits, n, i, j);
        OneBit(fcr, channel, was, bit);
        newFcr := if bit then Raise(newFcr, lines.data) else Drop(newFcr, lines.data);
        newFcr := Raise(newFcr, lines.clock);
        data[dataIndex] := newFcr;
        dataIndex := dataIndex + 1;
        newFcr := Drop(newFcr, lines.clock);
        data[dataIndex] := newFcr;
        dataIndex := dataIndex + 1;
        WriteBit(before, data[..], n, fcr, lines, bits);
        was := bit;
        n := n + 1;
        j := j - 1;
      }
      i := i - 1;
    }
    StrobeIs(fcr, lines);
    ghost var before := data[..];
    newFcr := Base(fcr);
    newFcr := Raise(newFcr, lines.strobe);
    newFcr := Drop(newFcr, lines.clock);
    data[dataIndex] := newFcr;
    dataIndex := dataIndex + 1;
    data[dataIndex] := fcr;
    dataIndex := dataIndex + 1;
    Unchanged(before, data[..], fcr, lines, bits);
  }

  lemma StartWriting(data: seq<bv32>, fcr: bv32, lines: Lines, bits: seq<bv8>)
    requires |bits| == 20 && |data| == 323 && data[0] == Base(fcr)
    ensures Written(data, 0, fcr, lines, bits) && Base(fcr) == Low(fcr, lines, false)
  {
  }

  lemma BitIs(bits: seq<bv8>, n: nat, i: nat, j: nat)
    requires |bits| == 20 && i < 20 && j < 8 && n == (19 - i) * 8 + (7 - j)
    ensures BitAt(bits, n) == TestBit(bits[i], j)
  {
  }

  lemma StrobeIs(fcr: bv32, lines: Lines)
    ensures Drop(Raise(Base(fcr), lines.strobe), lines.clock) == Strobe(fcr, lines)
  {
  }

  lemma Unchanged(a: seq<bv32>, b: seq<bv32>, fcr: bv32, lines: Lines, bits: seq<bv8>)
    requires |bits| == 20 && |a| == |b| == 323 && Written(a, 160, fcr, lines, bits)
    requires forall k :: 0 <= k < 321 ==> a[k] == b[k]
    ensures Written(b, 160, fcr, lines, bits)
  {
    hide High, Low, Base, BitAt;
  }

  // ---------- what comes out at the chip ----------

  lemma LineLevels(fcr: bv32, channel: nat, bit: bool)
    ensures var l := LinesOf(channel);
      && !ClockPin(Low(fcr, l, bit), channel)
      && ClockPin(High(fcr, l, bit), channel)
      && (DataPin(High(fcr, l, bit), channel) <==> bit)
      && !ClockPin(Base(fcr), channel)
  {
    hide DataPin, ClockPin, StrobePin;
    var l := LinesOf(channel);
    LinesArePins(Low(fcr, l, bit), channel);
    LinesArePins(High(fcr, l, bit), channel);
    LinesArePins(Base(fcr), channel);
  }

  lemma SampleMore(ws: seq<bv32>, w: bv32, channel: nat)
    requires ws != []
    ensures Sample(ws + [w], channel) == Sample(ws, channel)
      + if !ClockPin(ws[|ws| - 1], channel) && ClockPin(w, channel) then [DataPin(w, channel)] else []
  {
    hide ClockPin, DataPin;
    assert (ws + [w])[..|ws|] == ws;
  }

  // A clock pulse after a low clock samples one bit.
  lemma SamplePulse(ws: seq<bv32>, up: bv32, down: bv32, channel: nat, bit: bool)
    requires ws != [] && !ClockPin(ws[|ws| - 1], channel)
    requires ClockPin(up, channel) && (DataPin(up, channel) <==> bit) && !ClockPin(down, channel)
    ensures Sample(ws + [up, down], channel) == Sample(ws, channel) + [bit]
  {
    hide *;
    SampleMore(ws, up, channel);
    SampleMore(ws + [up], down, channel);
    assert ws + [up] + [down] == ws + [up, down];
  }

  // The clock is low between the bits.
  lemma LowBetween(data: seq<bv32>, n: nat, fcr: bv32, channel: nat, bits: seq<bv8>)
    requires |bits| == 20 && |data| == 323 && n < 160
    requires Written(data, 160, fcr, LinesOf(channel), bits)
    ensures !ClockPin(data[2 * n], channel)
    ensures data[1 + 2 * n] == High(fcr, LinesOf(channel), BitAt(bits, n))
    ensures data[2 + 2 * n] == Low(fcr, LinesOf(channel), BitAt(bits, n))
  {
    hide LinesOf, High, Low, Base, BitAt, ClockPin, DataPin;
    LineLevels(fcr, channel, false);
    if n > 0 {
      LineLevels(fcr, channel, BitAt(bits, n - 1));
      assert data[2 * n] == data[2 + 2 * (n - 1)];
    }
  }

  lemma OneMoreBit(bits: seq<bv8>, n: nat)
    requires |bits| == 20 && n < 160
    ensures BitList(bits, n + 1) == BitList(bits, n) + [BitAt(bits, n)]
  {
    hide BitAt;
  }

  /** Sampled at its rising edges, the waveform is the adjusted bits from byte 19 down, most significant
      bit first. */
  lemma {:induction false} SampleGivesBits(data: seq<bv32>, count: nat, fcr: bv32, channel: nat, bits: seq<bv8>)
    requires |bits| == 20 && |data| == 323 && count <= 160
    requires Written(data, 160, fcr, LinesOf(channel), bits)
    ensures Sample(data[..1 + 2 * count], channel) == BitList(bits, count)
  {
    hide LinesOf, High, Low, Base, BitAt, ClockPin, DataPin, Written;
    if count > 0 {
      var n := count - 1;
      SampleGivesBits(data, n, fcr, channel, bits);
      LowBetween(data, n, fcr, channel, bits);
      LineLevels(fcr, channel, BitAt(bits, n));
      SamplePulse(data[..1 + 2 * n], data[1 + 2 * n], data[2 + 2 * n], channel, BitAt(bits, n));
      assert data[..1 + 2 * n] + [data[1 + 2 * n], data[2 + 2 * n]] == data[..1 + 2 * count];
      OneMoreBit(bits, n);
    }
  }

  /** The strobe word itself clocks nothing in. */
  lemma StrobeClocksNothing(data: seq<bv32>, fcr: bv32, channel: nat, bits: seq<bv8>)
    requires |bits| == 20 && |data| == 323
    requires Written(data, 160, fcr, LinesOf(channel), bits) && data[321] == Strobe(fcr, LinesOf(channel))
    ensures Sample(data[..322], channel) == BitList(bits, 160)
  {
    hide *;
    SampleGivesBits(data, 160, fcr, channel, bits);
    StrobeIsLow(fcr, channel);
    SampleMore(data[..321], data[321], channel);
    assert data[..321] + [data[321]] == data[..322];
  }

  lemma StrobeIsLow(fcr: bv32, channel: nat)
    ensures !ClockPin(Strobe(fcr, LinesOf(channel)), channel)
  {
    hide ClockPin, DataPin, StrobePin;
    LinesArePins(Strobe(fcr, LinesOf(channel)), channel);
  }

  // The other channel's nibble.
  function OtherNibble(channel: nat): bv32 {
    if channel == 1 then 0x00f else 0xf00
  }

  // A word leaves everything but this channel's lines alone.
  predicate Contained(w: bv32, fcr: bv32, channel: nat) {
    Meet(w, KEPT) == Meet(fcr, KEPT) && Meet(w, OtherNibble(channel)) == 0
  }

  function LowNibble(w: bv32): (b: bv32) {
    w & 15
  }

  // Bits 4 to 7, and bits 8 to 11.
  function Nibble4(w: bv32): (b: bv32) {
    (w >> 4) & 15
  }

  function Nibble8(w: bv32): (b: bv32) {
    (w >> 8) & 15
  }

  // Bits 12 and up.
  function Top(w: bv32): (t: bv32) {
    w >> 12
  }

  /** Bits 12 and up and bits 4 to 7 as they were, and the other channel's four bits at 0. */
  lemma ContainedIs(w: bv32, fcr: bv32, channel: nat)
    ensures Contained(w, fcr, channel) <==>
      Top(w) == Top(fcr) && Nibble4(w) == Nibble4(fcr) && (if channel == 1 then LowNibble(w) else Nibble8(w)) == 0
  {
    hide Meet, Top, Nibble4, LowNibble, Nibble8;
    KeptIs(w, fcr);
    OtherIs(w);
  }

  lemma KeptIs(w: bv32, fcr: bv32)
    ensures Meet(w, KEPT) == Meet(fcr, KEPT) <==> Top(w) == Top(fcr) && Nibble4(w) == Nibble4(fcr)
  {
    hide *;
    KeptParts(w);
    KeptParts(fcr);
  }

  function Joined(top: bv32, nibble: bv32): (w: bv32) {
    (top << 12) | (nibble << 4)
  }

  lemma KeptParts(w: bv32)
    ensures Meet(w, KEPT) == Joined(Top(w), Nibble4(w))
    ensures Top(Meet(w, KEPT)) == Top(w) && Nibble4(Meet(w, KEPT)) == Nibble4(w)
  {
  }

  lemma OtherIs(w: bv32)
    ensures Meet(w, 0x00f) == 0 <==> LowNibble(w) == 0
    ensures Meet(w, 0xf00) == 0 <==> Nibble8(w) == 0
  {
  }

  predicate Inside(line: bv32, channel: nat) {
    Apart(line, KEPT) && Apart(line, OtherNibble(channel))
  }

  lemma MaskRaise(w: bv32, line: bv32, mask: bv32)
    requires Apart(line, mask)
    ensures Meet(Raise(w, line), mask) == Meet(w, mask)
  {
  }

  lemma MaskDrop(w: bv32, line: bv32, mask: bv32)
    requires Apart(line, mask)
    ensures Meet(Drop(w, line), mask) == Meet(w, mask)
  {
  }

  lemma MeetTwice(w: bv32, m: bv32, k: bv32)
    ensures Meet(Meet(w, m), m) == Meet(w, m)
    ensures Apart(m, k) ==> Meet(Meet(w, m), k) == 0
  {
  }

  lemma RaiseContained(w: bv32, line: bv32, fcr: bv32, channel: nat)
    requires Contained(w, fcr, channel) && Inside(line, channel)
    ensures Contained(Raise(w, line), fcr, channel)
  {
    hide Meet, Raise, OtherNibble, Apart;
    MaskRaise(w, line, KEPT);
    MaskRaise(w, line, OtherNibble(channel));
  }

  lemma DropContained(w: bv32, line: bv32, fcr: bv32, channel: nat)
    requires Contained(w, fcr, channel) && Inside(line, channel)
    ensures Contained(Drop(w, line), fcr, channel)
  {
    hide Meet, Drop, OtherNibble, Apart;
    MaskDrop(w, line, KEPT);
    MaskDrop(w, line, OtherNibble(channel));
  }

  lemma RaiseOther(w: bv32, line: bv32, strobe: bv32)
    requires Apart(line, strobe)
    ensures Up(Raise(w, line), strobe) <==> Up(w, strobe)
  {
    hide Meet, Raise, Apart;
    MaskRaise(w, line, strobe);
  }

  lemma DropOther(w: bv32, line: bv32, strobe: bv32)
    requires Apart(line, strobe)
    ensures Up(Drop(w, line), strobe) <==> Up(w, strobe)
  {
    hide Meet, Drop, Apart;
    MaskDrop(w, line, strobe);
  }

  lemma RaiseUp(w: bv32, line: bv32)
    requires line != 0
    ensures Up(Raise(w, line), line)
  {
    assert Meet(Raise(w, line), line) == line;
  }

  lemma LinesInside(channel: nat)
    ensures var l := LinesOf(channel);
      && Inside(l.strobe, channel) && Inside(l.data, channel) && Inside(l.clock, channel)
      && Apart(l.data, l.strobe) && Apart(l.clock, l.strobe) && l.strobe != 0
      && Apart(KEPT, OtherNibble(channel)) && Apart(KEPT, l.strobe)
  {
  }

  lemma BaseContained(fcr: bv32, channel: nat)
    ensures Contained(Base(fcr), fcr, channel) && !Up(Base(fcr), LinesOf(channel).strobe)
  {
    hide LinesOf, Meet, OtherNibble, Apart, Inside;
    LinesInside(channel);
    MeetTwice(fcr, KEPT, OtherNibble(channel));
    MeetTwice(fcr, KEPT, LinesOf(channel).strobe);
  }

  lemma BitContained(fcr: bv32, channel: nat, bit: bool)
    ensures var l := LinesOf(channel);
      && Contained(Low(fcr, l, bit), fcr, channel) && !Up(Low(fcr, l, bit), l.strobe)
      && Contained(High(fcr, l, bit), fcr, channel) && !Up(High(fcr, l, bit), l.strobe)
  {
    hide LinesOf, Raise, Contained, Up, Base, Inside, Apart;
    var l := LinesOf(channel);
    LinesInside(channel);
    BaseContained(fcr, channel);
    RaiseContained(Base(fcr), l.data, fcr, channel);
    RaiseOther(Base(fcr), l.data, l.strobe);
    RaiseContained(Low(fcr, l, bit), l.clock, fcr, channel);
    RaiseOther(Low(fcr, l, bit), l.clock, l.strobe);
  }

  lemma StrobeContained(fcr: bv32, channel: nat)
    ensures Contained(Strobe(fcr, LinesOf(channel)), fcr, channel)
    ensures Up(Strobe(fcr, LinesOf(channel)), LinesOf(channel).strobe)
  {
    hide LinesOf, Raise, Drop, Contained, Up, Base, Inside, Apart;
    var l := LinesOf(channel);
    LinesInside(channel);
    BaseContained(fcr, channel);
    RaiseContained(Base(fcr), l.strobe, fcr, channel);
    RaiseUp(Base(fcr), l.strobe);
    DropContained(Raise(Base(fcr), l.strobe), l.clock, fcr, channel);
    DropOther(Raise(Base(fcr), l.strobe), l.clock, l.strobe);
  }

  /** The strobe rises only after all 160 bits, nothing outside the channel's own lines ever changes, and
      the other channel's lines stay low, until the last word restores the register. */
  lemma WaveformContained(data: seq<bv32>, fcr: bv32, channel: nat, bits: seq<bv8>)
    requires |bits| == 20 && |data| == 323
    requires Written(data, 160, fcr, LinesOf(channel), bits) && data[321] == Strobe(fcr, LinesOf(channel))
    ensures forall k :: 0 <= k < 322 ==> Contained(data[k], fcr, channel)
    ensures forall k :: 0 <= k < 322 ==> (StrobePin(data[k], channel) <==> k == 321)
  {
    hide LinesOf, High, Low, Base, BitAt, Strobe, Contained, Up;
    forall k | 0 <= k < 322
      ensures Contained(data[k], fcr, channel) && (StrobePin(data[k], channel) <==> k == 321)
    {
      LinesArePins(data[k], channel);
      if k == 0 {
        BaseContained(fcr, channel);
      } else if k == 321 {
        StrobeContained(fcr, channel);
      } else {
        var n := (k - 1) / 2;
        BitContained(fcr, channel, BitAt(bits, n));
        assert k == 1 + 2 * n || k == 2 + 2 * n;
      }
    }
  }

  predicate XtalOff(b15: bv8) {
    (b15 >> 2) & 1 == 0
  }

  // Which cards have no crystal enabled: green FSCC cards up to revision 6, and 232 cards.
  predicate NoXtal(pdev: nat, prev: nat) {
    (pdev == 15 && prev <= 6) || pdev == 22
  }

  /** The adjustment sets bit 2 of byte 15 as the card demands, and touches nothing else. */
  lemma AdjustedIs(bits: seq<bv8>, pdev: nat, prev: nat)
    requires |bits| == 20
    ensures var r := Adjusted(bits, pdev, prev);
      && (XtalOff(r[15]) <==> NoXtal(pdev, prev))
      && r[15] & 3 == bits[15] & 3 && r[15] >> 3 == bits[15] >> 3
      && forall k :: 0 <= k < 20 && k != 15 ==> r[k] == bits[k]
  {
  }

  lemma AdjustKeepsDividers(bits: seq<bv8>, pdev: nat, prev: nat)
    requires |bits| == 20
    ensures K.Unpack(Adjusted(bits, pdev, prev)) == K.Unpack(bits)
  {
    hide K.ReadInput, K.ReadVco, K.ReadOutput, K.ReadResistor, K.Current;
    assert (bits[15] & 0xfb) & 0x80 == bits[15] & 0x80;
    assert (bits[15] | 0x04) & 0x80 == bits[15] & 0x80;
  }

  /** End to end: what the chip has shifted in when the strobe comes reads as the dividers that were packed. */
  lemma ChipDecodes(data: seq<bv32>, fcr: bv32, channel: nat, clockBits: seq<bv8>, pdev: nat, prev: nat)
    requires |clockBits| == 20 && |data| == 323
    requires Written(data, 160, fcr, LinesOf(channel), Adjusted(clockBits, pdev, prev))
    requires data[321] == Strobe(fcr, LinesOf(channel))
    ensures var s := Sample(data[..322], channel);
      && |s| == 160
      && Register(s) == Adjusted(clockBits, pdev, prev)
      && (XtalOff(Register(s)[15]) <==> NoXtal(pdev, prev))
      && K.Unpack(Register(s)) == K.Unpack(clockBits)
  {
    hide *;
    var bits := Adjusted(clockBits, pdev, prev);
    StrobeClocksNothing(data, fcr, channel, bits);
    RegisterHolds(bits);
    AdjustedIs(clockBits, pdev, prev);
    AdjustKeepsDividers(clockBits, pdev, prev);
  }

  /** From a requested frequency to the chip: if there is a solution at all, the chip ends up with the
      first one. */
  method Program(desired: nat, ppm: nat, fcr: bv32, channel: nat, pdev: nat, prev: nat)
    returns (code: nat, data: array<bv32>, ghost c: S.Choice)
    requires desired < 0x1_0000_0000 && ppm <= S.MAX_PPM && S.Ends(desired, ppm)
    ensures fresh(data)
    ensures code == 0 || (code == 2 && forall p :: 0 <= p <= ppm ==> S.NoneAtPpm(desired, p))
    ensures code == 0 ==>
      && data.Length == 323 && data[322] == fcr
      && S.First(desired, c) && c.ppm <= ppm && C.InRange(c)
      && var s := Sample(data[..322], channel);
      && |s| == 160 && K.Unpack(Register(s)) == C.DividersOf(c)
      && (XtalOff(Register(s)[15]) <==> NoXtal(pdev, prev))
  {
    hide *;
    var frequency, bits;
    code, frequency, bits, c := C.GetICS30703Data(desired, ppm);
    if code == 0 {
      data := SetClockBits(fcr, channel, bits, pdev, prev);
      ChipDecodes(data[..], fcr, channel, bits, pdev, prev);
      assert data[..][..322] == data[..322];
    } else {
      data := new bv32[0];
    }
  }
}
