/** The 160 bits that program the ICS307-03: how the driver packs the dividers, and how they read back. */
module ClockCodec {
  import opened Wrappers

  // ---------- reading the bits ----------

  function Wide(b: bv8): bv32 {
    b as bv32
  }

  // Input divider: a two-bit code, with an inverted nibble or eleven bits behind it.
  function ReadInput(b0: bv8, b1: bv8): bv32 {
    var code := Wide(b0) & 3;
    if code == 0 then 1
    else if code == 1 then 2
    else if code == 2 then 2 + (!(Wide(b0) >> 2) & 0xf)
    else 8 + ((Wide(b0) >> 2) | ((Wide(b1) & 0x1f) << 6))
  }

  // VCO divider: eleven bits, offset by 8.
  function ReadVco(b1: bv8, b2: bv8): bv32 {
    8 + ((Wide(b1) >> 5) | (Wide(b2) << 3))
  }

  // Loop filter resistor: bits 89 and 90.
  function ReadResistor(b11: bv8): nat {
    var code := (b11 >> 1) & 3;
    if code == 0 then 64000 else if code == 2 then 52000 else if code == 1 then 16000 else 4000
  }

  // Charge pump current: a base in three bits, times one to four in two others.
  function CurrentBase(b11: bv8): nat {
    var code := (b11 >> 3) & 7;
    if code == 7 then 125 else if code == 5 then 375 else if code == 3 then 625
    else if code == 2 then 750 else if code == 1 then 875 else if code == 0 then 1000 else 0
  }

  function ReadCurrent(b11: bv8, b15: bv8, b16: bv8): nat {
    Current(b11, b15 & 0x80 != 0, b16 & 1 != 0)
  }

  function Current(b11: bv8, high15: bool, low16: bool): nat {
    CurrentBase(b11) * (1 + (if high15 then 1 else 0) + (if low16 then 2 else 0))
  }

  // ((x + 3) * 2 + y) * 2^z
  function Ratio(x: bv32, y: bv32, z: bv8): bv32 {
    var base := (x + 3) * 2 + y;
    if z == 0 then base else if z == 1 then base * 2 else if z == 2 then base * 4 else base * 8
  }

  // Output divider: a dozen special codes, an inverted five-bit field, or ((x + 3) * 2 + y) * 2^z.
  function ReadOutput(b11: bv8, b12: bv8, b13: bv8): bv32 {
    var high := b11 & 0x80 != 0;
    if b12 & 3 == 2 then
      if high then
        var x := (Wide(b12) >> 5) | ((Wide(b13) & 0x3f) << 3);
        Ratio(x, if b12 & 4 != 0 then 0 else 1, (b12 >> 3) & 3)
      else 6 + (!(Wide(b12) >> 2) & 0x1f)
    else if b12 == 0 then (if high then 3 else 2)
    else if b12 == 4 then (if high then 6 else 4)
    else if b12 == 1 then (if high then 7 else 5)
    else 7 + ((Wide(b12) >> 2) << 1)
  }

  predicate LadderBits(od: bv32) {
    && 2 <= od <= 8232
    && (od > 1030 ==> od & 1 == 0)
    && (od > 2060 ==> od & 3 == 0)
    && (od > 4120 ==> od & 7 == 0)
  }

  const RESISTORS: set<nat> := {64000, 52000, 16000, 4000}
  const CURRENTS: set<nat> := {125, 250, 375, 500, 625, 750, 875, 1000, 1125, 1250,
                               1500, 1750, 1875, 2000, 2250, 2500, 2625, 3000, 3500, 4000}

  // ---------- packing ----------

  predicate InputFits(r: bv32) {
    1 <= r <= 2055
  }

  predicate VcoFits(v: bv32) {
    12 <= v <= 2055
  }

  predicate OutputFits(od: bv32) {
    2 <= od <= 8232
  }

  // The driver's &= and |= on a byte.
  function Masked(b: bv8, mask: bv8): bv8 {
    b & mask
  }

  function Ored(b: bv8, bits: bv8): bv8 {
    b | bits
  }

  /** Table 1. */
  method PackInput(d: array<bv8>, r: bv32) returns (ok: bool)
    requires d.Length == 20 && d[0] == 0 && d[1] == 0
    modifies d
    ensures ok <==> InputFits(r)
    ensures ok ==> ReadInput(d[0], d[1]) == r && Masked(d[1], 0xe0) == 0
    ensures forall k :: 2 <= k < 20 ==> d[k] == old(d[k])
  {
    if r == 1 || r == 2 {
      if r == 1 {
        d[0] := d[0] & 0xfc;
        d[1] := d[1] & 0xf0;
      } else {
        d[0] := d[0] & 0xfc;
        d[0] := d[0] | 0x01;
        d[1] := d[1] & 0xf0;
      }
    } else if 3 <= r <= 17 {
      var temp: bv32 := !(r - 2);
      temp := temp << 2;
      d[0] := (temp & 0xff) as bv8;
      d[0] := d[0] & 0x3e;
      d[0] := d[0] | 0x02;
    } else if 18 <= r <= 2055 {
      var temp: bv32 := r - 8;
      temp := temp << 2;
      d[0] := (temp & 0xff) as bv8;
      d[1] := ((temp >> 8) & 0xff) as bv8;
      d[0] := d[0] | 0x03;
    } else {
      return false;
    }
    return true;
  }

  /** Table 2. */
  method PackVco(d: array<bv8>, v: bv32) returns (ok: bool)
    requires d.Length == 20 && Masked(d[1], 0xe0) == 0 && d[2] == 0
    modifies d
    ensures ok <==> VcoFits(v)
    ensures ok ==> ReadVco(d[1], d[2]) == v
    ensures Masked(d[1], 0x1f) == Masked(old(d[1]), 0x1f)
    ensures forall k :: 0 <= k < 20 && k != 1 && k != 2 ==> d[k] == old(d[k])
  {
    if !(12 <= v <= 2055) {
      return false;
    }
    var temp: bv32 := v - 8;
    temp := temp << 5;
    d[1] := d[1] | ((temp & 0xff) as bv8);
    d[2] := d[2] | (((temp >> 8) & 0xff) as bv8);
    return true;
  }

  /** Table 4. */
  method PackResistor(d: array<bv8>, rs: nat) returns (ok: bool)
    requires d.Length == 20
    modifies d
    ensures ok <==> rs in RESISTORS
    ensures ok ==> ReadResistor(d[11]) == rs
    ensures Masked(d[11], 0xf9) == Masked(old(d[11]), 0xf9)
    ensures forall k :: 0 <= k < 20 && k != 11 ==> d[k] == old(d[k])
  {
    match rs {
      case 64000 =>
        d[11] := d[11] & 0xf9;
      case 52000 =>
        d[11] := d[11] & 0xf9;
        d[11] := d[11] | 0x04;
      case 16000 =>
        d[11] := d[11] & 0xf9;
        d[11] := d[11] | 0x02;
      case 4000 =>
        d[11] := d[11] | 0x06;
      case _ =>
        return false;
    }
    return true;
  }

  // What a current sets: bits or-ed into byte 11, then masked; bit 7 of byte 15; bit 0 of byte 16.
  datatype Settings = Settings(set11: bv8, mask11: bv8, high15: bool, low16: bool)

  function SettingsFor(icp: nat): Option<Settings> {
    match icp
    case 125 => Some(Settings(0x38, 0xff, false, false))
    case 250 => Some(Settings(0x38, 0xff, true, false))
    case 375 => Some(Settings(0x38, 0xff, false, true))
    case 500 => Some(Settings(0x38, 0xff, true, true))
    case 625 => Some(Settings(0x18, 0xdf, false, false))
    case 750 => Some(Settings(0x10, 0xd7, false, false))
    case 875 => Some(Settings(0x08, 0xcf, false, false))
    case 1000 => Some(Settings(0x00, 0xc7, false, false))
    case 1125 => Some(Settings(0x28, 0xef, false, true))
    case 1250 => Some(Settings(0x18, 0xdf, true, false))
    case 1500 => Some(Settings(0x28, 0xef, true, true))
    case 1750 => Some(Settings(0x08, 0xcf, true, false))
    case 1875 => Some(Settings(0x18, 0xdf, false, true))
    case 2000 => Some(Settings(0x00, 0xc7, true, false))
    case 2250 => Some(Settings(0x10, 0xff, false, true))
    case 2500 => Some(Settings(0x18, 0xdf, true, true))
    case 2625 => Some(Settings(0x08, 0xcf, false, true))
    case 3000 => Some(Settings(0x00, 0xc7, false, true))
    case 3500 => Some(Settings(0x08, 0xcf, true, true))
    case 4000 => Some(Settings(0x00, 0xc7, true, true))
    case _ => None
  }

  function SetBits(b11: bv8, s: Settings): bv8 {
    (b11 | s.set11) & s.mask11
  }

  function SetHigh(b15: bv8, s: Settings): bv8 {
    if s.high15 then b15 | 0x80 else b15 & 0x7f
  }

  function SetLow(b16: bv8, s: Settings): bv8 {
    if s.low16 then b16 | 0x01 else b16 & 0xfe
  }

  lemma SettingsMean(icp: nat)
    ensures SettingsFor(icp).Some? <==> icp in CURRENTS
    ensures SettingsFor(icp).Some? ==>
      var s := SettingsFor(icp).value;
      && s.set11 & 0x38 == s.set11 && s.mask11 | 0x38 == 0xff
      && Current(s.set11 & s.mask11, s.high15, s.low16) == icp
  {
  }

  lemma SettingsRead(b11: bv8, b15: bv8, b16: bv8, s: Settings)
    requires Masked(b11, 0x38) == 0 && s.set11 & 0x38 == s.set11 && s.mask11 | 0x38 == 0xff
    ensures var c11, c15, c16 := SetBits(b11, s), SetHigh(b15, s), SetLow(b16, s);
      && ReadCurrent(c11, c15, c16) == Current(s.set11 & s.mask11, s.high15, s.low16)
      && Masked(c11, 0xc7) == Masked(b11, 0xc7) && Masked(c15, 0x7f) == Masked(b15, 0x7f)
      && Masked(c16, 0xfe) == Masked(b16, 0xfe)
  {
    SameBase(b11, s.set11, s.mask11);
    SameCurrent(SetBits(b11, s), s.set11 & s.mask11, s.high15, s.low16);
    hide Current, CurrentBase;
    assert SetHigh(b15, s) & 0x80 != 0 <==> s.high15;
    assert SetLow(b16, s) & 1 != 0 <==> s.low16;
  }

  // The factor bits apart, a current depends only on the three bits of its base.
  lemma SameCurrent(a: bv8, b: bv8, high15: bool, low16: bool)
    requires (a >> 3) & 7 == (b >> 3) & 7
    ensures Current(a, high15, low16) == Current(b, high15, low16)
  {
    assert CurrentBase(a) == CurrentBase(b);
  }

  lemma SameBase(b: bv8, set11: bv8, mask11: bv8)
    requires b & 0x38 == 0 && set11 & 0x38 == set11 && mask11 | 0x38 == 0xff
    ensures (((b | set11) & mask11) >> 3) & 7 == ((set11 & mask11) >> 3) & 7
    ensures ((b | set11) & mask11) & 0xc7 == b & 0xc7
  {
  }

  /** Table 3. */
  method PackCurrent(d: array<bv8>, icp: nat) returns (ok: bool)
    requires d.Length == 20 && Masked(d[11], 0x38) == 0
    modifies d
    ensures ok <==> icp in CURRENTS
    ensures ok ==> ReadCurrent(d[11], d[15], d[16]) == icp
    ensures Masked(d[11], 0xc7) == Masked(old(d[11]), 0xc7)
    ensures Masked(d[15], 0x7f) == Masked(old(d[15]), 0x7f)
    ensures Masked(d[16], 0xfe) == Masked(old(d[16]), 0xfe)
    ensures forall k :: 0 <= k < 20 && k != 11 && k != 15 && k != 16 ==> d[k] == old(d[k])
  {
    hide *;
    SettingsMean(icp);
    var s := SettingsFor(icp);
    ok := s.Some?;
    if ok {
      SettingsRead(d[11], d[15], d[16], s.value);
      d[11], d[15], d[16] := SetBits(d[11], s.value), SetHigh(d[15], s.value), SetLow(d[16], s.value);
    }
  }

  // The output dividers with codes of their own: bit 7 of byte 11, and byte 12.
  function SpecialCode(od: bv32): Option<(bool, bv8)> {
    if od == 2 then Some((false, 0x00)) else if od == 3 then Some((true, 0x00))
    else if od == 4 then Some((false, 0x04)) else if od == 5 then Some((false, 0x01))
    else if od == 6 then Some((true, 0x04)) else if od == 7 then Some((true, 0x01))
    else if od == 11 then Some((true, 0x09)) else if od == 9 then Some((true, 0x05))
    else if od == 13 then Some((true, 0x0d)) else None
  }

  // For an index x that fits, what is masked out of byte 12 and or-ed into it: the y and z fields.
  function RatioCode(od: bv32, x: bv32): Option<(bv8, bv8)> {
    if od == Ratio(x, 0, 0) then Some((0xe7, 0x04))
    else if od == Ratio(x, 0, 1) then Some((0xef, 0x0c))
    else if od == Ratio(x, 0, 2) then Some((0xf7, 0x14))
    else if od == Ratio(x, 0, 3) then Some((0xff, 0x1c))
    else if od == Ratio(x, 1, 0) then Some((0xe3, 0x00))
    else if od == Ratio(x, 1, 1) then Some((0xeb, 0x08))
    else if od == Ratio(x, 1, 2) then Some((0xf7, 0x10))
    else if od == Ratio(x, 1, 3) then Some((0xfb, 0x18))
    else None
  }

  // An index that encodes a divider of the ladder.
  function IndexFor(od: bv32): bv32 {
    if od <= 1029 then (od >> 1) - 3
    else if od <= 2058 then (od >> 2) - 3
    else if od <= 4116 then (od >> 3) - 3
    else (od >> 4) - 3
  }

  lemma LadderHasIndex(od: bv32)
    requires LadderBits(od) && 38 <= od
    ensures IndexFor(od) < 512 && RatioCode(od, IndexFor(od)).Some?
  {
    hide Ratio, RatioCode, LadderBits;
    var x := IndexFor(od);
    if od <= 1029 {
      Rung0(od);
      CodeExists(od, x, od & 1, 0);
    } else if od <= 2058 {
      Rung1(od);
      CodeExists(od, x, (od >> 1) & 1, 1);
    } else if od <= 4116 {
      Rung2(od);
      CodeExists(od, x, (od >> 2) & 1, 2);
    } else {
      Rung3(od);
      CodeExists(od, x, (od >> 3) & 1, 3);
    }
  }

  lemma Rung0(od: bv32)
    requires 38 <= od <= 1029
    ensures (od >> 1) - 3 < 512 && od == Ratio((od >> 1) - 3, od & 1, 0)
  {
  }

  lemma Rung1(od: bv32)
    requires 1029 < od <= 2058 && LadderBits(od)
    ensures (od >> 2) - 3 < 512 && od == Ratio((od >> 2) - 3, (od >> 1) & 1, 1)
  {
  }

  lemma Rung2(od: bv32)
    requires 2058 < od <= 4116 && LadderBits(od)
    ensures (od >> 3) - 3 < 512 && od == Ratio((od >> 3) - 3, (od >> 2) & 1, 2)
  {
  }

  lemma Rung3(od: bv32)
    requires 4116 < od && LadderBits(od)
    ensures (od >> 4) - 3 < 512 && od == Ratio((od >> 4) - 3, (od >> 3) & 1, 3)
  {
  }

  lemma CodeExists(od: bv32, x: bv32, y: bv32, z: bv8)
    requires od == Ratio(x, y, z) && (y == 0 || y == 1) && (z == 0 || z == 1 || z == 2 || z == 3)
    ensures RatioCode(od, x).Some?
  {
    hide Ratio;
  }

  // No index at all encodes a divider off the ladder.
  lemma IndexNeedsLadder(od: bv32, x: bv32)
    requires 38 <= od <= 8232 && x < 512 && RatioCode(od, x).Some?
    ensures LadderBits(od)
  {
  }

  function IndexLow(x: bv32): bv8 {
    ((x << 5) & 0xff) as bv8
  }

  function IndexHigh(x: bv32): bv8 {
    (((x << 5) >> 8) & 0xff) as bv8
  }

  function WithCode(b12: bv8, code: (bv8, bv8)): bv8 {
    (b12 & code.0) | code.1
  }

  function SetTop(b11: bv8): bv8 {
    Ored(b11, 0x80)
  }

  function ClearTop(b11: bv8): bv8 {
    Masked(b11, 0x7f)
  }

  function Closed(b12: bv8): bv8 {
    (b12 & 0xfe) | 0x02
  }

  // The fields of bytes 12 and 13 come back from any code: x, y in bit 2, z in bits 3 and 4.
  lemma FieldsRead(x: bv32, mask: bv8, bits: bv8, b11: bv8)
    requires x < 512 && ValidCode(mask, bits)
    ensures var b12, b13 := Closed(WithCode(IndexLow(x), (mask, bits))), Ored(0x40, IndexHigh(x));
      && IsRatio(SetTop(b11), b12)
      && FieldX(b12, b13) == x && FieldY(b12) == FieldY(bits) && FieldZ(b12) == FieldZ(bits)
      && Masked(b13, 0xc0) == 0x40
  {
  }

  predicate ValidCode(mask: bv8, bits: bv8) {
    bits & 0x1c == bits && mask | 0x1c == 0xff
  }

  lemma CodesValid(od: bv32, x: bv32)
    requires RatioCode(od, x).Some?
    ensures var c := RatioCode(od, x).value;
      ValidCode(c.0, c.1) && od == Ratio(x, FieldY(c.1), FieldZ(c.1))
  {
    hide Ratio;
  }

  function FieldY(bits: bv8): bv32 {
    if bits & 4 != 0 then 0 else 1
  }

  function FieldZ(bits: bv8): bv8 {
    (bits >> 3) & 3
  }

  function FieldX(b12: bv8, b13: bv8): bv32 {
    (Wide(b12) >> 5) | ((Wide(b13) & 0x3f) << 3)
  }

  predicate IsRatio(b11: bv8, b12: bv8) {
    b11 & 0x80 != 0 && b12 & 3 == 2
  }

  lemma RatioReads(od: bv32, x: bv32, b11: bv8)
    requires x < 512 && RatioCode(od, x).Some?
    ensures var b12 := Closed(WithCode(IndexLow(x), RatioCode(od, x).value));
      && ReadOutput(SetTop(b11), b12, Ored(0x40, IndexHigh(x))) == od
      && Masked(Ored(0x40, IndexHigh(x)), 0xc0) == 0x40
  {
    hide *;
    CodesValid(od, x);
    var code := RatioCode(od, x).value;
    FieldsRead(x, code.0, code.1, b11);
    ReadsRatio(SetTop(b11), Closed(WithCode(IndexLow(x), code)), Ored(0x40, IndexHigh(x)));
  }

  lemma ReadsRatio(b11: bv8, b12: bv8, b13: bv8)
    requires IsRatio(b11, b12)
    ensures ReadOutput(b11, b12, b13) == Ratio(FieldX(b12, b13), FieldY(b12), FieldZ(b12))
  {
    hide Ratio;
  }

  lemma NoIndexReads(od: bv32, b11: bv8)
    requires 38 <= od
    ensures ReadOutput(SetTop(b11), Closed(0), 0x40) != od
  {
  }

  lemma SpecialReads(od: bv32, b11: bv8)
    requires SpecialCode(od).Some?
    ensures LadderBits(od)
    ensures var c := SpecialCode(od).value;
      ReadOutput(if c.0 then SetTop(b11) else ClearTop(b11), c.1, 0x40) == od
  {
  }

  function InvertedCode(od: bv32): bv8 {
    var temp: bv32 := (!(od - 6)) << 2;
    ((((temp & 0xff) as bv8) & 0x7f) & 0xfe) | 0x02
  }

  lemma InvertedReads(od: bv32, b11: bv8)
    requires 8 <= od <= 37
    ensures LadderBits(od)
    ensures ReadOutput(ClearTop(b11), InvertedCode(od), 0x40) == od
  {
  }

  lemma HighBitApart(b11: bv8)
    ensures Masked(SetTop(b11), 0x7f) == Masked(b11, 0x7f) == Masked(ClearTop(b11), 0x7f)
    ensures Masked(0x40, 0xc0) == 0x40
  {
  }

  /** The loop of Table 5: the smallest index with a code, if there is one. */
  method FindIndex(od: bv32) returns (x: bv32, found: bool)
    requires 38 <= od <= 8232
    ensures found ==> x < 512 && RatioCode(od, x).Some?
    ensures found <==> LadderBits(od)
  {
    hide *;
    x, found := 0, false;
    while x < 512
      invariant x <= 512 && !found
      invariant forall y: bv32 :: y < x ==> RatioCode(od, y).None?
      decreases 512 - x
    {
      if RatioCode(od, x).Some? {
        IndexNeedsLadder(od, x);
        found := true;
        return;
      }
      x := x + 1;
    }
    if LadderBits(od) {
      LadderHasIndex(od);
      assert false;
    }
  }

  method PackSpecial(d: array<bv8>, od: bv32, code: (bool, bv8))
    requires d.Length == 20 && d[12] == 0 && d[13] == 0x40 && SpecialCode(od) == Some(code)
    modifies d
    ensures ReadOutput(d[11], d[12], d[13]) == od && LadderBits(od) && d[13] == 0x40
    ensures Masked(d[11], 0x7f) == Masked(old(d[11]), 0x7f)
    ensures forall k :: 0 <= k < 20 && k != 11 && k != 12 && k != 13 ==> d[k] == old(d[k])
  {
    hide *;
    HighBitApart(d[11]);
    SpecialReads(od, d[11]);
    OrZero(code.1);
    d[11] := if code.0 then SetTop(d[11]) else ClearTop(d[11]);
    d[12] := Ored(d[12], code.1);
    d[13] := Masked(d[13], 0xc0);
  }

  method PackInverted(d: array<bv8>, od: bv32)
    requires d.Length == 20 && d[13] == 0x40 && 8 <= od <= 37
    modifies d
    ensures ReadOutput(d[11], d[12], d[13]) == od && LadderBits(od) && d[13] == 0x40
    ensures Masked(d[11], 0x7f) == Masked(old(d[11]), 0x7f)
    ensures forall k :: 0 <= k < 20 && k != 11 && k != 12 && k != 13 ==> d[k] == old(d[k])
  {
    hide *;
    HighBitApart(d[11]);
    InvertedReads(od, d[11]);
    d[12] := InvertedCode(od);
    d[11] := ClearTop(d[11]);
    d[13] := Masked(d[13], 0xc0);
  }

  method PackRatio(d: array<bv8>, od: bv32)
    requires d.Length == 20 && d[12] == 0 && d[13] == 0x40 && 38 <= od <= 8232
    modifies d
    ensures ReadOutput(d[11], d[12], d[13]) == od <==> LadderBits(od)
    ensures Masked(d[13], 0xc0) == 0x40
    ensures Masked(d[11], 0x7f) == Masked(old(d[11]), 0x7f)
    ensures forall k :: 0 <= k < 20 && k != 11 && k != 12 && k != 13 ==> d[k] == old(d[k])
  {
    hide *;
    HighBitApart(d[11]);
    NoIndexReads(od, d[11]);
    var x, found := FindIndex(od);
    if found {
      RatioReads(od, x, d[11]);
      OrZero(IndexLow(x));
      d[12] := Ored(d[12], IndexLow(x));
      d[13] := Ored(d[13], IndexHigh(x));
      d[12] := WithCode(d[12], RatioCode(od, x).value);
    }
    d[11] := SetTop(d[11]);
    d[12] := Closed(d[12]);
  }

  lemma OrZero(b: bv8)
    ensures Ored(0, b) == b
  {
  }

  /** Table 5. A divider on the ladder reads back; any other in range is packed into bits that do not. */
  method PackOutput(d: array<bv8>, od: bv32) returns (ok: bool)
    requires d.Length == 20 && d[12] == 0 && d[13] == 0x40
    modifies d
    ensures ok <==> OutputFits(od)
    ensures ok ==> (ReadOutput(d[11], d[12], d[13]) == od <==> LadderBits(od))
    ensures Masked(d[11], 0x7f) == Masked(old(d[11]), 0x7f)
    ensures ok ==> Masked(d[13], 0xc0) == 0x40
    ensures forall k :: 0 <= k < 20 && k != 11 && k != 12 && k != 13 ==> d[k] == old(d[k])
  {
    hide *;
    NotSpecial(od);
    HighBitApart(d[11]);
    ok := OutputFits(od);
    if ok {
      var special := SpecialCode(od);
      if special.Some? {
        PackSpecial(d, od, special.value);
      } else if 8 <= od <= 37 {
        PackInverted(d, od);
      } else {
        PackRatio(d, od);
      }
    }
  }

  lemma NotSpecial(od: bv32)
    ensures OutputFits(od) ==> od <= 8232
    ensures OutputFits(od) && SpecialCode(od).None? && !(8 <= od <= 37) ==> 38 <= od
  {
  }

  // ---------- the whole configuration word ----------

  datatype Dividers = Dividers(input: bv32, vco: bv32, output: bv32, resistor: nat, current: nat)

  /** What the chip makes of its 20 bytes. */
  function Unpack(b: seq<bv8>): Dividers
    requires |b| == 20
  {
    Dividers(ReadInput(b[0], b[1]), ReadVco(b[1], b[2]), ReadOutput(b[11], b[12], b[13]),
             ReadResistor(b[11]), ReadCurrent(b[11], b[15], b[16]))
  }

  // The bits that do not belong to any divider: always the same.
  predicate Frame(b: seq<bv8>)
    requires |b| == 20
  {
    && b[17] == 0xff && b[18] == 0xff && b[19] == 0xff
    && (forall k :: 3 <= k < 11 ==> b[k] == 0)
    && b[14] == 0x01
    && Masked(b[13], 0xc0) == 0x40
    && Masked(b[11], 0x41) == 0
    && Masked(b[15], 0x7f) == 0x04
    && Masked(b[16], 0xfe) == 0
  }

  // The driver's error codes: the first table that refuses its divider.
  function Refusal(v: Dividers): nat {
    if !InputFits(v.input) then 3
    else if !VcoFits(v.vco) then 4
    else if v.resistor !in RESISTORS then 5
    else if v.current !in CURRENTS then 6
    else if !OutputFits(v.output) then 7
    else 0
  }

  // Not every output divider that Table 5 accepts can be encoded.
  lemma AcceptsTooMuch()
    ensures OutputFits(1031) && !LadderBits(1031)
  {
  }

  // Byte 11 is shared by three tables, which come one after the other.
  lemma Byte11(b0: bv8, b1: bv8, b2: bv8)
    requires b0 == 0 && Masked(b1, 0xf9) == Masked(b0, 0xf9)
    ensures Masked(b1, 0x38) == 0
    ensures Masked(b2, 0xc7) == Masked(b1, 0xc7) ==> Masked(b2, 0x41) == 0 && ReadResistor(b2) == ReadResistor(b1)
  {
  }

  // Byte 1 is shared by two.
  lemma Byte1(b0: bv8, b: bv8, c: bv8)
    requires Masked(b, 0x1f) == Masked(c, 0x1f)
    ensures ReadInput(b0, b) == ReadInput(b0, c)
  {
  }

  lemma Constants()
    ensures Masked(0x04, 0x7f) == 0x04 && Masked(0, 0xfe) == 0
  {
  }

  // Everything but the output divider.
  method PackMost(d: array<bv8>, v: Dividers) returns (code: nat)
    requires d.Length == 20 && d[0] == 0 && d[1] == 0 && d[2] == 0 && d[11] == 0
    modifies d
    ensures code == 0 ==> Refusal(v) == if OutputFits(v.output) then 0 else 7
    ensures code != 0 ==> code == Refusal(v)
    ensures code == 0 ==>
      && ReadInput(d[0], d[1]) == v.input && ReadVco(d[1], d[2]) == v.vco
      && ReadResistor(d[11]) == v.resistor && ReadCurrent(d[11], d[15], d[16]) == v.current
      && Masked(d[11], 0x41) == 0
      && Masked(d[15], 0x7f) == Masked(old(d[15]), 0x7f) && Masked(d[16], 0xfe) == Masked(old(d[16]), 0xfe)
      && (forall k :: 3 <= k < 20 && k != 11 && k != 15 && k != 16 ==> d[k] == old(d[k]))
  {
    hide ReadInput, ReadVco, ReadResistor, ReadCurrent, InputFits, VcoFits, OutputFits, Masked, RESISTORS, CURRENTS;
    var ok := PackInput(d, v.input);
    if !ok { return 3; }
    ghost var b1 := d[1];
    ok := PackVco(d, v.vco);
    if !ok { return 4; }
    Byte1(d[0], b1, d[1]);
    ok := PackResistor(d, v.resistor);
    if !ok { return 5; }
    ghost var b11 := d[11];
    Byte11(0, b11, d[11]);
    ok := PackCurrent(d, v.current);
    if !ok { return 6; }
    Byte11(0, b11, d[11]);
    code := 0;
  }

  /** The packing half of GetICS30703Data. Whatever it accepts reads back exactly, the five tables leaving
      each other's bits alone, if and only if the output divider is on the ladder. */
  method Pack(v: Dividers) returns (code: nat, bits: seq<bv8>)
    ensures code == Refusal(v)
    ensures |bits| == 20
    ensures code == 0 ==> Frame(bits)
    ensures code == 0 ==> (Unpack(bits) == v <==> LadderBits(v.output))
  {
    hide *;
    var d := new bv8[20](i => 0);
    d[19], d[18], d[17], d[15] := 0xff, 0xff, 0xff, 0x04;
    d[14], d[13] := 0x01, 0x40;
    Constants();
    code := PackMost(d, v);
    if code == 0 {
      ghost var b11 := d[11];
      var ok := PackOutput(d, v.output);
      if ok {
        TopBitApart(b11, d[11], d[15], d[16]);
        Finish(d[..], v);
      } else {
        code := 7;
      }
    }
    bits := d[..];
  }

  lemma TopBitApart(b: bv8, c: bv8, b15: bv8, b16: bv8)
    requires Masked(b, 0x7f) == Masked(c, 0x7f)
    ensures Masked(b, 0x41) == 0 ==> Masked(c, 0x41) == 0
    ensures ReadResistor(b) == ReadResistor(c)
    ensures ReadCurrent(b, b15, b16) == ReadCurrent(c, b15, b16)
  {
    assert CurrentBase(b) == CurrentBase(c);
    hide CurrentBase;
  }

  lemma Finish(b: seq<bv8>, v: Dividers)
    requires |b| == 20
    requires ReadInput(b[0], b[1]) == v.input && ReadVco(b[1], b[2]) == v.vco
    requires ReadResistor(b[11]) == v.resistor && ReadCurrent(b[11], b[15], b[16]) == v.current
    requires ReadOutput(b[11], b[12], b[13]) == v.output <==> LadderBits(v.output)
    requires b[17] == 0xff && b[18] == 0xff && b[19] == 0xff && (forall k :: 3 <= k < 11 ==> b[k] == 0)
    requires b[14] == 0x01 && Masked(b[13], 0xc0) == 0x40 && Masked(b[11], 0x41) == 0
    requires Masked(b[15], 0x7f) == 0x04 && Masked(b[16], 0xfe) == 0
    ensures Frame(b) && (Unpack(b) == v <==> LadderBits(v.output))
  {
    hide ReadInput, ReadVco, ReadResistor, ReadCurrent, ReadOutput, LadderBits, Masked;
  }

  // ---------- the fields by arithmetic ----------

  /** Thirteen bits in bytes 0 and 1: below 3, and inverted up to 17, with a code; else offset by 8, and code 3. */
  lemma InputIs(b0: bv8, b1: bv8)
    ensures var n := Wide(b0) + 256 * (Wide(b1) % 32);
      ReadInput(b0, b1) ==
        if n % 4 == 0 then 1
        else if n % 4 == 1 then 2
        else if n % 4 == 2 then 17 - (n / 4) % 16
        else 8 + n / 4
  {
  }

  /** The eleven bits from bit 5 of byte 1 on. */
  lemma VcoIs(b1: bv8, b2: bv8)
    ensures ReadVco(b1, b2) == 8 + Wide(b1) / 32 + 8 * Wide(b2)
  {
  }

  lemma ResistorIs(b11: bv8)
    ensures ReadResistor(b11) ==
      if b11 / 2 % 4 == 0 then 64000 else if b11 / 2 % 4 == 1 then 16000
      else if b11 / 2 % 4 == 2 then 52000 else 4000
  {
  }

  /** 1.25 uA times what three bits lack of 8, times one to four. */
  lemma CurrentIs(b11: bv8, b15: bv8, b16: bv8)
    requires b11 / 8 % 8 != 4 && b11 / 8 % 8 != 6
    ensures ReadCurrent(b11, b15, b16) ==
      125 * Lack(b11) * (1 + (if b15 >= 128 then 1 else 0) + (if b16 % 2 == 1 then 2 else 0))
  {
  }

  function Lack(b11: bv8): (n: nat) {
    match b11 / 8 % 8
    case 0 => 8 case 1 => 7 case 2 => 6 case 3 => 5 case 4 => 4 case 5 => 3 case 6 => 2 case _ => 1
  }

  /** A ratio ((x + 3) * 2 + y) * 2^z, five inverted bits, or one of the special codes. */
  lemma OutputIs(b11: bv8, b12: bv8, b13: bv8)
    requires b12 % 4 == 2
    ensures b11 >= 128 ==>
      var x, y, z := Wide(b12) / 32 + 8 * (Wide(b13) % 64), 1 - Wide(b12) / 4 % 2, b12 / 8 % 4;
      ReadOutput(b11, b12, b13) ==
        (2 * (x + 3) + y) * if z == 0 then 1 else if z == 1 then 2 else if z == 2 then 4 else 8
    ensures b11 < 128 ==> ReadOutput(b11, b12, b13) == 37 - Wide(b12) / 4 % 32
  {
  }

  lemma SpecialsAre(b13: bv8)
    ensures ReadOutput(0, 0, b13) == 2 && ReadOutput(0x80, 0, b13) == 3
    ensures ReadOutput(0, 4, b13) == 4 && ReadOutput(0x80, 4, b13) == 6
    ensures ReadOutput(0, 1, b13) == 5 && ReadOutput(0x80, 1, b13) == 7
    ensures ReadOutput(0x80, 5, b13) == 9 && ReadOutput(0x80, 9, b13) == 11 && ReadOutput(0x80, 13, b13) == 13
  {
  }

  /** The bytes documented for 10 MHz decode to 24 MHz * 45 / (2 * 54), with 16 kOhm and 25 uA. */
  lemma DocumentedBytes()
    ensures Unpack([0x01, 0xa0, 0x04, 0x00, 0x00, 0x00, 0x00, 0x00, 0x00, 0x00,
                    0x00, 0x9a, 0x4a, 0x41, 0x01, 0x84, 0x01, 0xff, 0xff, 0xff]) == Dividers(2, 45, 54, 16000, 2500)
  {
  }

  /** Those a port starts with decode to 24 MHz * 1843 / (75 * 32), 18.43 MHz, with 64 kOhm and 6.25 uA. */
  lemma DefaultBytes()
    ensures Unpack([0x0f, 0x61, 0xe5, 0x00, 0x00, 0x00, 0x00, 0x00, 0x00, 0x00,
                    0x00, 0x18, 0x16, 0x40, 0x01, 0x04, 0x00, 0xff, 0xff, 0xff]) == Dividers(75, 1843, 32, 64000, 625)
  {
  }
}
