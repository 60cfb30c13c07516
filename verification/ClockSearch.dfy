/** The search for the dividers of the ICS307-03 clock chip. All comparisons are on exact fractions,
    cross-multiplied; the driver makes them on doubles. Unsigned 32-bit wrap-around is kept. */
module ClockSearch {
  import opened Wrappers
  import F = ClockFormulas

  const INPUT := 24_000_000  // Hz
  const MAX_R := 1200
  const MIN_V := 12
  const MAX_V := 2055
  const TOP_OD := 8232
  const MILLION := 1_000_000

  // Loop filter resistors, in the order tried, and charge pump currents in units of 10 nA.
  const RS: seq<nat> := [64000, 52000, 16000, 4000]
  const ICP: seq<nat> := [125, 250, 375, 500, 625, 750, 875, 1000, 1125, 1250,
                          1500, 1750, 1875, 2000, 2250, 2500, 2625, 3000, 3500, 4000]

  // ---------- what counts as a solution ----------

  // The output dividers tried: every one up to 1030, then every 2nd, 4th and 8th.
  predicate OnLadder(od: nat) {
    && 2 <= od <= TOP_OD
    && (od > 1030 ==> od % 2 == 0)
    && (od > 2060 ==> od % 4 == 0)
    && (od > 4120 ==> od % 8 == 0)
  }

  // What the chip can divide by, apart from small numbers: 6 to 1029, times 1, 2, 4 or 8.
  predicate Ratio(od: nat, base: nat, power: nat) {
    6 <= base <= 1029 && (power == 1 || power == 2 || power == 4 || power == 8) && od == base * power
  }

  /** The ladder is exactly what the chip can divide by. */
  lemma OnLadderIff(od: nat)
    ensures OnLadder(od) <==> 2 <= od <= 5 || exists base, power :: Ratio(od, base, power)
  {
    if OnLadder(od) && od > 5 {
      var power := if od <= 1029 then 1 else if od <= 2058 then 2 else if od <= 4116 then 4 else 8;
      Rungs(od, power);
      assert Ratio(od, od / power, power);
    }
    if base, power :| Ratio(od, base, power) {
      RatioOnLadder(od, base, power);
    }
  }

  lemma Rungs(od: nat, power: nat)
    requires OnLadder(od) && od > 5
    requires power == if od <= 1029 then 1 else if od <= 2058 then 2 else if od <= 4116 then 4 else 8
    ensures od / power * power == od && 6 <= od / power <= 1029
  {
    Divisible(od);
    assert od == 1030 ==> od == 2 * 515;
    assert od == 2060 ==> od == 4 * 515;
    assert od == 4120 ==> od == 8 * 515;
  }

  lemma RatioOnLadder(od: nat, base: nat, power: nat)
    requires Ratio(od, base, power)
    ensures OnLadder(od)
  {
    if power == 8 { assert od == 2 * (4 * base) == 4 * (2 * base) == 8 * base; }
    else if power == 4 { assert od == 2 * (2 * base) == 4 * base; }
    else if power == 2 { assert od == 2 * base; }
  }

  // 20 kHz <= input / r <= 100 MHz
  predicate PfdOk(r: nat) {
    20_000 * r <= INPUT <= 100_000_000 * r
  }

  function VcoLimit(od: nat): nat {
    if od == 2 then 540_000_000
    else if od == 3 then 720_000_000
    else if 38 <= od <= 1029 then 570_000_000
    else 730_000_000
  }

  // 90 MHz <= input * v / r <= the limit for this output divider
  predicate VcoOk(r: nat, od: nat, v: nat) {
    90_000_000 * r <= INPUT * v <= VcoLimit(od) * r
  }

  // The allowed error in millionths of a Hz: a 32-bit product.
  function Allowed(desired: nat, ppm: nat): (e: nat)
    ensures e < 0x1_0000_0000
  {
    (ppm * desired) % 0x1_0000_0000
  }

  function Abs(x: int): nat {
    if x < 0 then -x else x
  }

  // |input * v / (r * od) - desired| <= allowed
  predicate Close(desired: nat, allowed: nat, m: nat, v: nat) {
    Abs(INPUT * v - desired * m) * MILLION <= allowed * m
  }

  // Ten times PFD frequency over loop bandwidth, rounded down and incremented.
  function Ratio10(r: nat, v: nat, rs: nat, icp: nat): int
    requires r > 0 && rs > 0 && icp > 0
  {
    (INPUT * 628318 * v) / (31000 * (r * (rs * icp))) + 1
  }

  // 7 <= ratio <= 30 and 0.2 <= damping factor <= 2, the latter squared
  predicate FilterOk(r: nat, v: nat, i: nat, j: nat)
    requires r > 0 && i < |RS| && j < |ICP|
  {
    var rs, icp := RS[i], ICP[j];
    && 70 <= Ratio10(r, v, rs, icp) <= 300
    && 16_000_000_000 * v <= rs * rs * icp * 93 <= 1_600_000_000_000 * v
  }

  predicate DividersOk(desired: nat, allowed: nat, r: nat, od: nat, v: nat) {
    && 1 <= r <= MAX_R && PfdOk(r)
    && OnLadder(od)
    && MIN_V <= v <= MAX_V && VcoOk(r, od, v)
    && Close(desired, allowed, r * od, v)
  }

  /** A setting within the driver's bounds. */
  ghost predicate Solution(desired: nat, allowed: nat, r: nat, od: nat, v: nat, i: nat, j: nat) {
    && 1 <= r <= 1200 && OnLadder(od) && 12 <= v <= 2055 && i < |RS| && j < |ICP|
    && F.PfdWithin(r) && F.VcoWithin(r, od, v) && F.ErrorWithin(desired, allowed, r, od, v)
    && FilterWithin(r, v, i, j)
  }

  ghost predicate FilterWithin(r: nat, v: nat, i: nat, j: nat)
    requires r > 0 && v > 0 && i < |RS| && j < |ICP|
  {
    F.RatioWithin(r, RS[i], ICP[j], v) && F.DampingWithin(RS[i], ICP[j], v)
  }

  /** The cross-multiplied comparisons of the search are those bounds. */
  lemma SolutionIff(desired: nat, allowed: nat, r: nat, od: nat, v: nat, i: nat, j: nat)
    ensures Solution(desired, allowed, r, od, v, i, j) <==>
      DividersOk(desired, allowed, r, od, v) && i < |RS| && j < |ICP| && FilterOk(r, v, i, j)
  {
    hide F.PfdWithin, F.VcoWithin, F.ErrorWithin, FilterWithin, PfdOk, VcoOk, Close, FilterOk;
    if 1 <= r <= MAX_R && OnLadder(od) && MIN_V <= v <= MAX_V && i < |RS| && j < |ICP| {
      DividersIff(desired, allowed, r, od, v);
      FilterIff(r, v, i, j);
    }
  }

  lemma DividersIff(desired: nat, allowed: nat, r: nat, od: nat, v: nat)
    requires r > 0 && od > 0
    ensures F.PfdWithin(r) <==> PfdOk(r)
    ensures F.VcoWithin(r, od, v) <==> VcoOk(r, od, v)
    ensures F.ErrorWithin(desired, allowed, r, od, v) <==> Close(desired, allowed, r * od, v)
  {
    hide F.PfdWithin, F.VcoWithin, F.ErrorWithin;
    F.PfdIff(r);
    F.VcoIff(r, od, v);
    F.ErrorIff(desired, allowed, r, od, v);
  }

  lemma FilterIff(r: nat, v: nat, i: nat, j: nat)
    requires r > 0 && v > 0 && i < |RS| && j < |ICP|
    ensures FilterWithin(r, v, i, j) <==> FilterOk(r, v, i, j)
  {
    hide F.RatioWithin, F.DampingWithin;
    F.RatioIff(r, RS[i], ICP[j], v);
    F.DampingIff(RS[i], ICP[j], v);
  }

  // ---------- the starting VCO divider ----------

  // Division of a possibly negative number, towards zero, as a conversion to int does it.
  function Truncate(n: int, d: nat): int
    requires d > 0
  {
    if n < 0 then -((-n) / d) else n / d
  }

  /** Where the scan over v starts: the divider just below the lowest frequency allowed, stored unsigned
      and clamped. A negative value becomes huge and is clamped to the top. */
  function VStart(desired: nat, allowed: nat, m: nat): (v: nat)
    ensures MIN_V <= v <= MAX_V
  {
    var raw := Truncate((desired * MILLION - allowed) * m, MILLION * INPUT);
    var start := if raw < 0 then raw + 0x1_0000_0000 else raw;
    if start < MIN_V then MIN_V else if start > MAX_V then MAX_V else start
  }

  // Below the start the frequency is too low by more than the error allowed.
  lemma TooLow(desired: nat, allowed: nat, m: nat, v: nat)
    requires desired * MILLION >= allowed
    requires v < (desired * MILLION - allowed) * m / (MILLION * INPUT)
    ensures !Close(desired, allowed, m, v)
  {
    var n := (desired * MILLION - allowed) * m;
    assert n == desired * m * MILLION - allowed * m;
    assert (v + 1) * (MILLION * INPUT) <= n;
  }

  // An error allowance above the frequency itself stays far below any frequency the VCO can give.
  lemma NothingSoLow(desired: nat, allowed: nat, r: nat, od: nat, v: nat)
    requires allowed < 0x1_0000_0000 && desired * MILLION < allowed
    requires 1 <= r && 1 <= od <= TOP_OD && 90_000_000 * r <= INPUT * v
    ensures !Close(desired, allowed, r * od, v)
  {
    var m := r * od;
    Times(r, od, TOP_OD);
    Times(m, desired, 4294);
    Times(m, allowed, 0xFFFF_FFFF);
    Positive(r, od);
    FarAbove(desired * m, allowed * m, m, v);
  }

  lemma Times(m: nat, a: nat, b: nat)
    requires a <= b
    ensures m * a <= m * b
  {
  }

  lemma Positive(a: nat, b: nat)
    requires a > 0 && b > 0
    ensures a * b > 0
  {
  }

  // The comparison in NothingSoLow, with the products named.
  lemma FarAbove(dm: nat, am: nat, m: nat, v: nat)
    requires m > 0 && dm <= 4294 * m && am <= 0xFFFF_FFFF * m && 90_000_000 * m <= TOP_OD * (INPUT * v)
    ensures Abs(INPUT * v - dm) * MILLION > am
  {
  }

  lemma StartBound(desired: nat, allowed: nat, m: nat, v: nat)
    requires desired * MILLION >= allowed && MIN_V <= v < VStart(desired, allowed, m)
    ensures v < (desired * MILLION - allowed) * m / (MILLION * INPUT)
  {
    var n := (desired * MILLION - allowed) * m;
    assert n >= 0;
    hide Close, VcoOk, FilterOk;
  }

  /** The jump skips no solution, for every frequency and every ppm, however the products wrap. */
  lemma JumpSkipsNothing(desired: nat, allowed: nat, r: nat, od: nat, v: nat)
    requires allowed < 0x1_0000_0000 && v < VStart(desired, allowed, r * od)
    ensures !DividersOk(desired, allowed, r, od, v)
  {
    hide VStart, Close, PfdOk, VcoLimit;
    if DividersOk(desired, allowed, r, od, v) {
      if desired * MILLION < allowed {
        NothingSoLow(desired, allowed, r, od, v);
      } else {
        StartBound(desired, allowed, r * od, v);
        TooLow(desired, allowed, r * od, v);
      }
    }
  }

  // ---------- the search ----------

  datatype Choice = Choice(ppm: nat, r: nat, od: nat, v: nat, i: nat, j: nat)

  // No solution with these outer choices.
  ghost predicate NoneAtI(desired: nat, allowed: nat, r: nat, od: nat, v: nat, i: nat) {
    forall j :: !Solution(desired, allowed, r, od, v, i, j)
  }

  ghost predicate NoneAtV(desired: nat, allowed: nat, r: nat, od: nat, v: nat) {
    forall i :: NoneAtI(desired, allowed, r, od, v, i)
  }

  ghost predicate NoneAtOd(desired: nat, allowed: nat, r: nat, od: nat) {
    forall v :: NoneAtV(desired, allowed, r, od, v)
  }

  ghost predicate NoneAtR(desired: nat, allowed: nat, r: nat) {
    forall od :: NoneAtOd(desired, allowed, r, od)
  }

  ghost predicate NoneAtPpm(desired: nat, ppm: nat) {
    forall r :: NoneAtR(desired, Allowed(desired, ppm), r)
  }

  /** A solution, and none before it in the order: ppm, r upwards, od downwards, v, resistor, current. */
  ghost predicate First(desired: nat, c: Choice) {
    var allowed := Allowed(desired, c.ppm);
    && Solution(desired, allowed, c.r, c.od, c.v, c.i, c.j)
    && (forall ppm :: 0 <= ppm < c.ppm ==> NoneAtPpm(desired, ppm))
    && FirstAtR(desired, allowed, c.r, c.od, c.v, c.i, c.j)
    && (forall r :: 0 <= r < c.r ==> NoneAtR(desired, allowed, r))
  }

  ghost predicate FirstAtR(desired: nat, allowed: nat, r: nat, od: nat, v: nat, i: nat, j: nat) {
    && (forall o: nat :: o > od ==> NoneAtOd(desired, allowed, r, o))
    && (forall w :: 0 <= w < v ==> NoneAtV(desired, allowed, r, od, w))
    && FirstAtV(desired, allowed, r, od, v, i, j)
  }

  ghost predicate FirstAtV(desired: nat, allowed: nat, r: nat, od: nat, v: nat, i: nat, j: nat) {
    && Solution(desired, allowed, r, od, v, i, j)
    && (forall k :: 0 <= k < i ==> NoneAtI(desired, allowed, r, od, v, k))
    && (forall k :: 0 <= k < j ==> !Solution(desired, allowed, r, od, v, i, k))
  }

  // The two innermost loops: the first resistor and current that make a stable loop filter.
  method SearchFilter(desired: nat, allowed: nat, r: nat, od: nat, v: nat) returns (c: Option<(nat, nat)>)
    requires DividersOk(desired, allowed, r, od, v)
    ensures c.None? ==> NoneAtV(desired, allowed, r, od, v)
    ensures c.Some? ==> FirstAtV(desired, allowed, r, od, v, c.value.0, c.value.1)
  {
    hide Solution, DividersOk, FilterOk;
    var i := 0;
    while i < |RS|
      invariant i <= |RS|
      invariant forall k :: 0 <= k < i ==> NoneAtI(desired, allowed, r, od, v, k)
    {
      var j := 0;
      while j < |ICP|
        invariant j <= |ICP|
        invariant forall k :: 0 <= k < j ==> !Solution(desired, allowed, r, od, v, i, k)
      {
        PositiveR(desired, allowed, r, od, v);
        SolutionIff(desired, allowed, r, od, v, i, j);
        if FilterOk(r, v, i, j) {
          return Some((i, j));
        }
        j := j + 1;
      }
      OnlyIndices(desired, allowed, r, od, v, i);
      i := i + 1;
    }
    forall k: nat | k >= |RS| ensures NoneAtI(desired, allowed, r, od, v, k) {
      OnlyIndices(desired, allowed, r, od, v, k);
    }
    return None;
  }

  // There are no other resistors and currents than those in the tables.
  lemma OnlyIndices(desired: nat, allowed: nat, r: nat, od: nat, v: nat, i: nat)
    ensures forall j: nat :: i >= |RS| || j >= |ICP| ==> !Solution(desired, allowed, r, od, v, i, j)
  {
    hide F.PfdWithin, F.VcoWithin, F.ErrorWithin, FilterWithin, OnLadder;
  }

  lemma PositiveR(desired: nat, allowed: nat, r: nat, od: nat, v: nat)
    requires DividersOk(desired, allowed, r, od, v)
    ensures r > 0
  {
  }

  lemma NeedsDividers(desired: nat, allowed: nat, r: nat, od: nat, v: nat)
    requires !DividersOk(desired, allowed, r, od, v)
    ensures NoneAtV(desired, allowed, r, od, v)
  {
    hide Solution, DividersOk, FilterOk;
    forall i: nat, j: nat ensures !Solution(desired, allowed, r, od, v, i, j) {
      SolutionIff(desired, allowed, r, od, v, i, j);
    }
  }

  // The scan over the VCO divider.
  method SearchV(desired: nat, allowed: nat, r: nat, od: nat) returns (c: Option<(nat, nat, nat)>)
    requires allowed < 0x1_0000_0000 && 1 <= r <= MAX_R && PfdOk(r) && OnLadder(od)
    ensures c.None? ==> NoneAtOd(desired, allowed, r, od)
    ensures c.Some? ==>
      && (forall w :: 0 <= w < c.value.0 ==> NoneAtV(desired, allowed, r, od, w))
      && FirstAtV(desired, allowed, r, od, c.value.0, c.value.1, c.value.2)
  {
    hide NoneAtV, FirstAtV, VcoOk, VStart, Close, OnLadder, PfdOk;
    var v := VStart(desired, allowed, r * od);
    forall w: nat | w < v ensures NoneAtV(desired, allowed, r, od, w) {
      JumpSkipsNothing(desired, allowed, r, od, w);
      NeedsDividers(desired, allowed, r, od, w);
    }
    while v <= MAX_V
      invariant MIN_V <= v <= MAX_V + 1
      invariant forall w :: 0 <= w < v ==> NoneAtV(desired, allowed, r, od, w)
    {
      if VcoOk(r, od, v) && Close(desired, allowed, r * od, v) {
        var f := SearchFilter(desired, allowed, r, od, v);
        if f.Some? {
          return Some((v, f.value.0, f.value.1));
        }
      } else {
        NeedsDividers(desired, allowed, r, od, v);
      }
      v := v + 1;
    }
    forall w: nat ensures NoneAtV(desired, allowed, r, od, w) {
      if w > MAX_V {
        NeedsDividers(desired, allowed, r, od, w);
      }
    }
    return None;
  }

  // The step down the ladder.
  function NextOd(od: nat): (o: nat)
    requires 1 < od
    ensures o < od
  {
    if od <= 1030 then od - 1 else if od <= 2060 then od - 2 else if od <= 4120 then od - 4 else od - 8
  }

  // Each step lands on the next rung.
  lemma LadderStep(od: nat, o: nat)
    requires OnLadder(od) && OnLadder(o)
    ensures o < od ==> o <= NextOd(od)
    ensures NextOd(od) > 1 ==> OnLadder(NextOd(od))
  {
    Divisible(od);
    Divisible(o);
    RungsApart(od, o);
    if NextOd(od) > 1 {
      OnLadderIf(NextOd(od));
    }
  }

  // The ladder without remainders: by quotients.
  predicate Rung(od: nat, half: nat, quarter: nat, eighth: nat) {
    && 2 <= od <= TOP_OD
    && (od > 1030 ==> od == 2 * half)
    && (od > 2060 ==> od == 4 * quarter)
    && (od > 4120 ==> od == 8 * eighth)
  }

  lemma Divisible(od: nat)
    requires OnLadder(od)
    ensures Rung(od, od / 2, od / 4, od / 8)
  {
  }

  lemma OnLadderIf(od: nat)
    requires Rung(od, od / 2, od / 4, od / 8)
    ensures OnLadder(od)
  {
  }

  lemma RungsApart(od: nat, o: nat)
    requires Rung(od, od / 2, od / 4, od / 8) && Rung(o, o / 2, o / 4, o / 8)
    ensures o < od ==> o <= NextOd(od)
    ensures var next := NextOd(od); next > 1 ==> Rung(next, next / 2, next / 4, next / 8)
  {
    QuotientsApart(od, od / 2, od / 4, od / 8, o, o / 2, o / 4, o / 8);
    var next := NextOd(od);
    if od > 4120 {
      assert next == 8 * (od / 8 - 1);
    } else if od > 2060 {
      assert next == 4 * (od / 4 - 1);
    } else if od > 1030 {
      assert next == 2 * (od / 2 - 1);
    }
  }

  lemma QuotientsApart(od: nat, h: nat, q: nat, e: nat, o: nat, h': nat, q': nat, e': nat)
    requires Rung(od, h, q, e) && Rung(o, h', q', e')
    ensures o < od ==> o <= NextOd(od)
  {
  }

  lemma OffLadder(desired: nat, allowed: nat, r: nat, od: nat)
    requires !OnLadder(od)
    ensures NoneAtOd(desired, allowed, r, od)
  {
  }

  // The scan over the output divider, from the top.
  method SearchOd(desired: nat, allowed: nat, r: nat) returns (c: Option<(nat, nat, nat, nat)>)
    requires allowed < 0x1_0000_0000 && 1 <= r <= MAX_R && PfdOk(r)
    ensures c.None? ==> NoneAtR(desired, allowed, r)
    ensures c.Some? ==> FirstAtR(desired, allowed, r, c.value.0, c.value.1, c.value.2, c.value.3)
  {
    hide NoneAtOd, NoneAtV, FirstAtV, OnLadder, PfdOk, NextOd;
    var od := TOP_OD;
    TopOfLadder(desired, allowed, r);
    while od > 1
      invariant od > 1 ==> OnLadder(od)
      invariant forall o: nat :: (if od > 1 then o > od else true) ==> NoneAtOd(desired, allowed, r, o)
      decreases od
    {
      var f := SearchV(desired, allowed, r, od);
      if f.Some? {
        return Some((od, f.value.0, f.value.1, f.value.2));
      }
      RungDone(desired, allowed, r, od);
      od := NextOd(od);
    }
    return None;
  }

  lemma TopOfLadder(desired: nat, allowed: nat, r: nat)
    ensures OnLadder(TOP_OD)
    ensures forall o: nat :: o > TOP_OD ==> NoneAtOd(desired, allowed, r, o)
  {
    forall o: nat | o > TOP_OD ensures NoneAtOd(desired, allowed, r, o) {
      OffLadder(desired, allowed, r, o);
    }
  }

  // With a rung and everything above it excluded, so is everything above the next rung.
  lemma RungDone(desired: nat, allowed: nat, r: nat, od: nat)
    requires od > 1 && OnLadder(od) && NoneAtOd(desired, allowed, r, od)
    requires forall o: nat :: o > od ==> NoneAtOd(desired, allowed, r, o)
    ensures var next := NextOd(od);
      && next < od
      && (next > 1 ==> OnLadder(next))
      && (forall o: nat :: (if next > 1 then o > next else true) ==> NoneAtOd(desired, allowed, r, o))
  {
    hide NoneAtOd;
    var next := NextOd(od);
    LadderStep(od, od);
    forall o: nat | (if next > 1 then o > next else true) ensures NoneAtOd(desired, allowed, r, o) {
      if OnLadder(o) {
        LadderStep(od, o);
      } else {
        OffLadder(desired, allowed, r, o);
      }
    }
  }

  // The scan over the input divider.
  method SearchR(desired: nat, allowed: nat) returns (c: Option<(nat, nat, nat, nat, nat)>)
    requires allowed < 0x1_0000_0000
    ensures c.None? ==> forall r :: NoneAtR(desired, allowed, r)
    ensures c.Some? ==>
      && (forall r :: 0 <= r < c.value.0 ==> NoneAtR(desired, allowed, r))
      && FirstAtR(desired, allowed, c.value.0, c.value.1, c.value.2, c.value.3, c.value.4)
  {
    hide NoneAtR, FirstAtR, PfdOk;
    var r := 1;
    BadR(desired, allowed, 0);
    while r <= MAX_R
      invariant 1 <= r <= MAX_R + 1
      invariant forall q :: 0 <= q < r ==> NoneAtR(desired, allowed, q)
    {
      if PfdOk(r) {
        var f := SearchOd(desired, allowed, r);
        if f.Some? {
          return Some((r, f.value.0, f.value.1, f.value.2, f.value.3));
        }
      } else {
        BadR(desired, allowed, r);
      }
      r := r + 1;
    }
    forall q: nat ensures NoneAtR(desired, allowed, q) {
      if q > MAX_R {
        BadR(desired, allowed, q);
      }
    }
    return None;
  }

  lemma BadR(desired: nat, allowed: nat, r: nat)
    requires r == 0 || r > MAX_R || !PfdOk(r)
    ensures NoneAtR(desired, allowed, r)
  {
  }

  const MAX_PPM := 0xFFFF_FFFF

  /** When the search ends: the ppm counter is a 32-bit word, so it can only pass the ppm requested if that
      is not the largest word, and otherwise a solution has to turn up. */
  ghost predicate Ends(desired: nat, requestedPpm: nat) {
    requestedPpm == MAX_PPM ==> exists ppm :: 0 <= ppm <= MAX_PPM && !NoneAtPpm(desired, ppm)
  }

  /** The outer loop between two rounds: about to search at some ppm, or done, with or without a solution. */
  datatype Search = Searching(ppm: nat) | Solved(ppm: nat) | GivenUp

  ghost function Round(desired: nat, requestedPpm: nat, s: Search): Search {
    match s
    case Searching(ppm) =>
      if !NoneAtPpm(desired, ppm) then Solved(ppm)
      else
        var next := (ppm + 1) % 0x1_0000_0000;
        if next > requestedPpm then GivenUp else Searching(next)
    case _ => s
  }

  ghost function AfterRounds(desired: nat, requestedPpm: nat, rounds: nat): Search {
    if rounds == 0 then Searching(0) else Round(desired, requestedPpm, AfterRounds(desired, requestedPpm, rounds - 1))
  }

  lemma {:induction false} StillSearching(desired: nat, requestedPpm: nat, rounds: nat)
    requires rounds <= requestedPpm <= MAX_PPM && forall p :: 0 <= p < rounds ==> NoneAtPpm(desired, p)
    ensures AfterRounds(desired, requestedPpm, rounds) == Searching(rounds)
  {
    hide NoneAtPpm;
    if rounds > 0 {
      StillSearching(desired, requestedPpm, rounds - 1);
    }
  }

  lemma {:induction false} NeverThrough(desired: nat, rounds: nat)
    requires forall p :: 0 <= p <= MAX_PPM ==> NoneAtPpm(desired, p)
    ensures AfterRounds(desired, MAX_PPM, rounds) == Searching(rounds % 0x1_0000_0000)
  {
    hide NoneAtPpm;
    if rounds > 0 {
      NeverThrough(desired, rounds - 1);
      WrapsAround(rounds - 1);
    }
  }

  lemma WrapsAround(n: nat)
    ensures (n % 0x1_0000_0000 + 1) % 0x1_0000_0000 == (n + 1) % 0x1_0000_0000
  {
  }

  /** The driver's loop comes to an end exactly then. */
  lemma EndsIff(desired: nat, requestedPpm: nat)
    requires requestedPpm <= MAX_PPM
    ensures Ends(desired, requestedPpm) <==> exists n :: !AfterRounds(desired, requestedPpm, n).Searching?
  {
    hide NoneAtPpm, AfterRounds;
    if p :| 0 <= p <= requestedPpm && !NoneAtPpm(desired, p) {
      SolvedThen(desired, requestedPpm, p);
    } else if requestedPpm < MAX_PPM {
      GivesUp(desired, requestedPpm);
    } else {
      forall n ensures AfterRounds(desired, requestedPpm, n).Searching? {
        NeverThrough(desired, n);
      }
    }
  }

  lemma {:induction false} SolvedThen(desired: nat, requestedPpm: nat, p: nat)
    requires p <= requestedPpm <= MAX_PPM && !NoneAtPpm(desired, p)
    ensures exists n :: !AfterRounds(desired, requestedPpm, n).Searching?
  {
    hide NoneAtPpm;
    if q :| 0 <= q < p && !NoneAtPpm(desired, q) {
      SolvedThen(desired, requestedPpm, q);
    } else {
      StillSearching(desired, requestedPpm, p);
      assert AfterRounds(desired, requestedPpm, p + 1) == Solved(p);
    }
  }

  lemma GivesUp(desired: nat, requestedPpm: nat)
    requires requestedPpm < MAX_PPM && forall p :: 0 <= p <= requestedPpm ==> NoneAtPpm(desired, p)
    ensures AfterRounds(desired, requestedPpm, requestedPpm + 1) == GivenUp
  {
    hide NoneAtPpm;
    StillSearching(desired, requestedPpm, requestedPpm);
  }

  // It does happen: 0 Hz has no solution at all.
  lemma EndlessAtZero()
    ensures !Ends(0, MAX_PPM)
  {
    hide Solution, DividersOk, Allowed;
    forall ppm | 0 <= ppm <= MAX_PPM ensures NoneAtPpm(0, ppm) {
      NoErrorAtZero(ppm);
      forall r: nat, od: nat, v: nat ensures NoneAtV(0, Allowed(0, ppm), r, od, v) {
        NothingAtZero(r, od, v);
        NeedsDividers(0, 0, r, od, v);
      }
    }
  }

  lemma NothingAtZero(r: nat, od: nat, v: nat)
    ensures !DividersOk(0, 0, r, od, v)
  {
    hide PfdOk, OnLadder;
  }

  lemma NoErrorAtZero(ppm: nat)
    ensures Allowed(0, ppm) == 0
  {
  }

  lemma StillAWord(desired: nat, requestedPpm: nat, ppm: nat)
    requires ppm <= requestedPpm <= MAX_PPM && Ends(desired, requestedPpm)
    requires forall p :: 0 <= p <= ppm ==> NoneAtPpm(desired, p)
    ensures ppm + 1 <= MAX_PPM
  {
    hide NoneAtPpm;
  }

  /** The whole search, raising the error allowed from 0 ppm up to the one requested. */
  method FindDividers(desired: nat, requestedPpm: nat) returns (c: Option<Choice>)
    requires desired < 0x1_0000_0000 && requestedPpm <= MAX_PPM && Ends(desired, requestedPpm)
    ensures c.None? ==> forall ppm :: 0 <= ppm <= requestedPpm ==> NoneAtPpm(desired, ppm)
    ensures c.Some? ==> c.value.ppm <= requestedPpm && First(desired, c.value)
  {
    hide NoneAtR, FirstAtR, Allowed, Ends;
    var ppm := 0;
    while true
      invariant 0 <= ppm <= requestedPpm
      invariant forall p :: 0 <= p < ppm ==> NoneAtPpm(desired, p)
      decreases requestedPpm - ppm
    {
      var f := SearchR(desired, Allowed(desired, ppm));
      if f.Some? {
        FirstSolves(desired, Allowed(desired, ppm), f.value.0, f.value.1, f.value.2, f.value.3, f.value.4);
        return Some(Choice(ppm, f.value.0, f.value.1, f.value.2, f.value.3, f.value.4));
      }
      StillAWord(desired, requestedPpm, ppm);
      ppm := (ppm + 1) % 0x1_0000_0000;
      if ppm > requestedPpm {
        return None;
      }
    }
  }

  lemma FirstSolves(desired: nat, allowed: nat, r: nat, od: nat, v: nat, i: nat, j: nat)
    requires FirstAtR(desired, allowed, r, od, v, i, j)
    ensures Solution(desired, allowed, r, od, v, i, j)
  {
  }

  /** Sound, complete and least: the search fails only if there is no solution at any ppm up to the one
      requested, and what it finds is the only first solution. */
  lemma FirstIsUnique(desired: nat, c: Choice, d: Choice)
    requires First(desired, c) && First(desired, d)
    ensures c == d
  {
    hide Solution, NoneAtI, Allowed;
    NotExcluded(desired, c);
    NotExcluded(desired, d);
  }

  lemma NotExcluded(desired: nat, c: Choice)
    requires Solution(desired, Allowed(desired, c.ppm), c.r, c.od, c.v, c.i, c.j)
    ensures var a := Allowed(desired, c.ppm);
      && !NoneAtPpm(desired, c.ppm) && !NoneAtR(desired, a, c.r) && !NoneAtOd(desired, a, c.r, c.od)
      && !NoneAtV(desired, a, c.r, c.od, c.v) && !NoneAtI(desired, a, c.r, c.od, c.v, c.i)
  {
    hide Solution, Allowed;
    var a := Allowed(desired, c.ppm);
    assert !NoneAtI(desired, a, c.r, c.od, c.v, c.i);
    assert !NoneAtV(desired, a, c.r, c.od, c.v);
    assert !NoneAtOd(desired, a, c.r, c.od);
    assert !NoneAtR(desired, a, c.r);
  }

  /** Whenever there is a solution there is a first one: the search has something to find. */
  lemma FirstExists(desired: nat, requestedPpm: nat) returns (c: Choice)
    requires !NoneAtPpm(desired, requestedPpm)
    ensures First(desired, c) && c.ppm <= requestedPpm
  {
    hide Solution, Allowed, NoneAtR, NoneAtOd, NoneAtV, NoneAtI;
    var solved := (x: nat) => !NoneAtPpm(desired, x);
    var ppm := Least(solved, requestedPpm);
    forall x: nat | x < ppm ensures NoneAtPpm(desired, x) { assert !solved(x); }
    var a := Allowed(desired, ppm);
    var r0: nat :| !NoneAtR(desired, a, r0);
    var inR := (x: nat) => !NoneAtR(desired, a, x);
    var r := Least(inR, r0);
    forall x: nat | x < r ensures NoneAtR(desired, a, x) { assert !inR(x); }
    var od, v, i, j := FirstInR(desired, a, r);
    c := Choice(ppm, r, od, v, i, j);
    FirstSolves(desired, a, r, od, v, i, j);
  }

  lemma FirstInR(desired: nat, allowed: nat, r: nat) returns (od: nat, v: nat, i: nat, j: nat)
    requires !NoneAtR(desired, allowed, r)
    ensures FirstAtR(desired, allowed, r, od, v, i, j)
  {
    hide Solution, OnLadder;
    var o: nat :| !NoneAtOd(desired, allowed, r, o);
    TopOfLadder(desired, allowed, r);
    var inOd := (k: nat) => k <= TOP_OD && !NoneAtOd(desired, allowed, r, TOP_OD - k);
    assert inOd(TOP_OD - o);
    var down := Least(inOd, TOP_OD - o);
    od := TOP_OD - down;
    forall x: nat | x > od ensures NoneAtOd(desired, allowed, r, x) {
      if x <= TOP_OD {
        assert !inOd(TOP_OD - x) && TOP_OD - (TOP_OD - x) == x;
      }
    }
    v, i, j := FirstInOd(desired, allowed, r, od);
  }

  lemma FirstInOd(desired: nat, allowed: nat, r: nat, od: nat) returns (v: nat, i: nat, j: nat)
    requires !NoneAtOd(desired, allowed, r, od)
    ensures FirstAtV(desired, allowed, r, od, v, i, j)
    ensures forall w: nat :: w < v ==> NoneAtV(desired, allowed, r, od, w)
  {
    hide Solution;
    var v0: nat :| !NoneAtV(desired, allowed, r, od, v0);
    var inV := (x: nat) => !NoneAtV(desired, allowed, r, od, x);
    v := Least(inV, v0);
    forall x: nat | x < v ensures NoneAtV(desired, allowed, r, od, x) { assert !inV(x); }
    var i0: nat :| !NoneAtI(desired, allowed, r, od, v, i0);
    var inI := (x: nat) => !NoneAtI(desired, allowed, r, od, v, x);
    i := Least(inI, i0);
    forall x: nat | x < i ensures NoneAtI(desired, allowed, r, od, v, x) { assert !inI(x); }
    var j0: nat :| Solution(desired, allowed, r, od, v, i, j0);
    var inJ := (x: nat) => Solution(desired, allowed, r, od, v, i, x);
    j := Least(inJ, j0);
    forall x: nat | x < j ensures !Solution(desired, allowed, r, od, v, i, x) { assert !inJ(x); }
  }

  // 1 MHz exactly: 24 MHz * 47 / (2 * 564), with 16 kOhm and 25 uA.
  lemma OneMegahertz()
    ensures Solution(1_000_000, Allowed(1_000_000, 0), 2, 564, 47, 2, 15)
    ensures !NoneAtPpm(1_000_000, 0)
  {
    var a := Allowed(1_000_000, 0);
    assert a == 0;
    assert RS[2] == 16000 && ICP[15] == 2500;
    SolutionIff(1_000_000, a, 2, 564, 47, 2, 15);
    hide Solution, Allowed;
    assert !NoneAtI(1_000_000, a, 2, 564, 47, 2);
    assert !NoneAtV(1_000_000, a, 2, 564, 47);
    assert !NoneAtOd(1_000_000, a, 2, 564);
    assert !NoneAtR(1_000_000, a, 2);
  }

  // 10 MHz exactly, as documented: 24 MHz * 45 / (2 * 54), with 16 kOhm and 25 uA.
  lemma TenMegahertz()
    ensures Solution(10_000_000, Allowed(10_000_000, 0), 2, 54, 45, 2, 15)
  {
    assert RS[2] == 16000 && ICP[15] == 2500;
    SolutionIff(10_000_000, 0, 2, 54, 45, 2, 15);
  }

  /** Resistors are tried downwards, and currents upwards. */
  lemma TablesOrdered()
    ensures forall i, k :: 0 <= i < k < |RS| ==> RS[i] > RS[k]
    ensures forall j, k :: 0 <= j < k < |ICP| ==> ICP[j] < ICP[k]
  {
  }
}
