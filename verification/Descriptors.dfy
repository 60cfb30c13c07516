/** Descriptors shared by both rings: the control word, the buffer record and ring positions. */
module Descriptors {
  import opened Words

  const FE_BIT := 0x8000_0000
  const CSTOP_BIT := 0x4000_0000
  const HI_BIT := 0x2000_0000
  const DMA_MAX_LENGTH := 0x1fff_ffff

  /** The fields of a descriptor's control word: frame end, stop, host interrupt and byte count. */
  datatype Control = Control(fe: bool, cstop: bool, hi: bool, cnt: nat) {
    predicate Fits() {
      cnt <= DMA_MAX_LENGTH
    }
  }

  const IDLE := Control(false, false, true, 0)     // DESC_HI_BIT
  const STOPPED := Control(false, true, false, 0)  // DESC_CSTOP_BIT

  function Encode(c: Control): (w: nat)
    requires c.Fits()
    ensures w < 0x1_0000_0000
  {
    (if c.fe then FE_BIT else 0) + (if c.cstop then CSTOP_BIT else 0) + (if c.hi then HI_BIT else 0) + c.cnt
  }

  function Decode(w: nat): (c: Control)
    requires w < 0x1_0000_0000
    ensures c.Fits()
  {
    Control(TestBit(w, FE_BIT), TestBit(w, CSTOP_BIT), TestBit(w, HI_BIT), w % 0x2000_0000)
  }

  // w & bit, for a power of two
  predicate TestBit(w: nat, bit: nat)
    requires bit > 0
  {
    (w / bit) % 2 == 1
  }

  /** Frame end on bit 31, stop on bit 30, interrupt on bit 29, and the count below. */
  lemma FieldsAre(fe: bool, cstop: bool, hi: bool, cnt: nat)
    requires cnt < 536_870_912
    ensures Encode(Control(fe, cstop, hi, cnt)) ==
      (if fe then 2_147_483_648 else 0) + (if cstop then 1_073_741_824 else 0)
      + (if hi then 536_870_912 else 0) + cnt
  {
  }

  lemma ControlRoundTrip(c: Control)
    requires c.Fits()
    ensures Decode(Encode(c)) == c
  {
  }

  lemma WordRoundTrip(w: nat)
    requires w < 0x1_0000_0000
    ensures Encode(Decode(w)) == w
  {
    var low := w % 0x2000_0000;
    assert w == low + 0x2000_0000 * (w / 0x2000_0000);
    var top := w / 0x2000_0000;
    assert top < 8;
    assert w / FE_BIT == top / 4 && w / CSTOP_BIT == top / 2;
    assert top == 4 * (top / 4) + 2 * ((top / 2) % 2) + top % 2;
  }

  /** Adding a byte count to the whole word changes only the count field, as long as it fits. */
  lemma AddCount(c: Control, n: nat)
    requires c.Fits() && c.cnt + n <= DMA_MAX_LENGTH
    ensures Encode(c) + n == Encode(c.(cnt := c.cnt + n))
    ensures Decode(Encode(c) + n) == c.(cnt := c.cnt + n)
  {
    ControlRoundTrip(c.(cnt := c.cnt + n));
  }

  /** What or-ing a length into a whole word without one makes of its fields. */
  function WithLength(c: Control, n: nat): (r: Control)
    requires n < 0x1_0000_0000
    ensures r.Fits()
  {
    Control(c.fe || TestBit(n, FE_BIT), c.cstop || TestBit(n, CSTOP_BIT), c.hi || TestBit(n, HI_BIT), n % 0x2000_0000)
  }

  /** It only means the length, and leaves the flags alone, if the length fits the field. */
  lemma LengthFits(c: Control, n: nat)
    requires n < 0x1_0000_0000
    ensures WithLength(c, n) == c.(cnt := n) <==> n <= DMA_MAX_LENGTH
  {
  }

  // A length of 1 GiB stops the descriptor that should start the frame.
  lemma LengthStops()
    ensures WithLength(Control(true, false, true, 0), 0x4000_0000) == Control(true, true, true, 0)
  {
  }

  // The part of a length that a control word keeps.
  function Counted(n: nat): (c: nat)
    ensures c <= DMA_MAX_LENGTH
    ensures c == n <==> n <= DMA_MAX_LENGTH
  {
    n % 0x2000_0000
  }

  // The control word of a descriptor that ends a received frame of n bytes.
  function EndControl(n: nat): (c: Control)
    ensures c.Fits() && c.cnt == Counted(n)
  {
    Control(true, true, TestBit(n, HI_BIT), Counted(n))
  }

  /** A frame that both control words can count: the one it is written with, and the one it is received with,
      two status bytes longer. */
  predicate Countable(frame: seq<byte>) {
    |frame| + 2 <= DMA_MAX_LENGTH
  }

  lemma CountableIff(frame: seq<byte>)
    requires |frame| < 0x1_0000_0000
    ensures Countable(frame) <==>
      && WithLength(Control(true, false, true, 0), |frame|) == Control(true, false, true, |frame|)
      && EndControl(|frame| + 2).cnt == |frame| + 2
  {
    LengthFits(Control(true, false, true, 0), |frame|);
  }

  // Lengths just above count as nothing: what is written then announces no length, and what is received
  // shows fewer bytes than its status.
  lemma LengthsLost()
    ensures WithLength(Control(true, false, true, 0), 0x2000_0000) == Control(true, false, true, 0)
    ensures EndControl(0x1fff_fffe + 2).cnt == 0
  {
  }

  type Stamp = s: seq<byte> | |s| == 8 witness [0, 0, 0, 0, 0, 0, 0, 0]

  const NO_STAMP: Stamp := [0, 0, 0, 0, 0, 0, 0, 0]

  /** A descriptor together with its data buffer (struct dma_frame). The buffer's length is data_size. */
  datatype DmaFrame = DmaFrame(control: Control, dataCount: nat, buffer: seq<byte>, timestamp: Stamp)

  /** What a ring operation reports to its caller. */
  datatype Status = Success | Pending | BufferTooSmall | IoTimeout

  // The position `j` places after `base` in a ring of `num`.
  function At(base: nat, j: nat, num: nat): (p: nat)
    requires base < num && j <= num
    ensures p < num
  {
    if base + j < num then base + j else base + j - num
  }

  // The successor the driver computes by incrementing and wrapping at `num`.
  function Next(p: nat, num: nat): (q: nat)
    requires p < num
    ensures q < num && q == At(p, 1, num)
  {
    if p + 1 == num then 0 else p + 1
  }

  // Advancing the base of a ring turns it by one: its first position becomes its last.
  lemma Turn(base: nat, num: nat)
    requires base < num
    ensures forall j :: 0 <= j < num ==> At(Next(base, num), j, num) == At(base, j + 1, num)
    ensures forall j :: 0 < j < num ==> At(base, j, num) != base
    ensures At(base, 0, num) == base == At(base, num, num)
  {
  }

  // Buffer sizes are rounded up to whole words when a ring is created, in 32 bits.
  function RoundedSize(size: nat): (r: nat)
    requires size < 0x1_0000_0000
    ensures r % 4 == 0 && r < 0x1_0000_0000
    ensures size <= 0xFFFF_FFFC ==> size <= r < size + 4
    ensures size > 0xFFFF_FFFC ==> r == 0
  {
    if size % 4 != 0 then (size + (4 - size % 4)) % 0x1_0000_0000 else size
  }
}
