/** The divider search for the ICS307-02: it closes a bracket around the requested rate. Arithmetic is the
    driver's 32-bit unsigned arithmetic. */
module NearestClock {
  import opened Wrappers

  const WORD := 0x1_0000_0000
  const INPUT := 18_432_000

  /** VCO divider word, reference divider word and output divider. */
  datatype Triple = Triple(v: nat, r: nat, od: nat)

  const NOTHING := Triple(1, 1, 1)

  function Clock(t: Triple): (c: nat)
    requires t.od > 0
  {
    ((INPUT * 2) / ((t.r + 2) * t.od) * (t.v + 8)) % WORD
  }

  // The VCO frequency as the driver computes it: the product wraps before the division.
  function Range1(t: Triple): nat {
    (INPUT * 2 * (t.v + 8)) % WORD / (t.r + 2)
  }

  function Range2(t: Triple): nat {
    INPUT / (t.r + 2)
  }

  // The highest rate each output divider is tried for.
  function RateLimit(od: nat): nat {
    match od
    case 2 => 180_000_000
    case 3 => 120_000_000
    case 4 => 90_000_000
    case 5 => 72_000_000
    case 6 => 60_000_000
    case 7 => 50_000_000
    case 8 => 45_000_000
    case 10 => 36_000_000
    case _ => 0
  }

  /** The limit is on the VCO side of the output divider: 360 MHz, or 350 MHz for a divider of 7. */
  lemma RateLimitIs(rate: nat, od: nat)
    requires ValidOd(od)
    ensures rate <= RateLimit(od) <==> od * rate <= if od == 7 then 350_000_000 else 360_000_000
  {
  }

  predicate ValidOd(od: nat) {
    2 <= od <= 10 && od != 9
  }

  predicate InOperatingRange(t: Triple) {
    60_000_000 < Range1(t) < 360_000_000 && Range2(t) > 200_000
  }

  /** The VCO at 36.864 MHz * (v + 8) / (r + 2) between 60 and 360 MHz and the reference at 18.432 MHz / (r + 2)
      above 200 kHz, in whole Hz, as long as the product does not wrap. */
  lemma OperatingRangeIs(t: Triple)
    requires t.v <= 108
    ensures InOperatingRange(t) <==>
      && 60_000_001 * (t.r + 2) <= 36_864_000 * (t.v + 8) < 360_000_000 * (t.r + 2)
      && 200_001 * (t.r + 2) <= 18_432_000
  {
    hide Range1, Range2;
    RangesAre(t);
    Over(36_864_000 * (t.v + 8), t.r + 2, 60_000_001);
    Over(36_864_000 * (t.v + 8), t.r + 2, 360_000_000);
    Over(18_432_000, t.r + 2, 200_001);
  }

  lemma RangesAre(t: Triple)
    requires t.v <= 108
    ensures Range1(t) == 36_864_000 * (t.v + 8) / (t.r + 2) && Range2(t) == 18_432_000 / (t.r + 2)
  {
  }

  lemma Over(n: nat, d: nat, k: nat)
    requires d > 0
    ensures k <= n / d <==> k * d <= n
  {
    assert n / d * d <= n < (n / d + 1) * d;
    if k <= n / d {
      assert k * d <= n / d * d;
    } else {
      assert (n / d + 1) * d <= k * d;
    }
  }

  /** The clock of a setting, with the two divisions and the product it is made of. */
  lemma ClockIs(t: Triple, step: nat)
    requires t.od > 0 && t.v <= 511
    requires step * ((t.r + 2) * t.od) <= 36_864_000 < (step + 1) * ((t.r + 2) * t.od)
    ensures step * (t.v + 8) < WORD ==> Clock(t) == step * (t.v + 8)
  {
    var d := (t.r + 2) * t.od;
    Over(36_864_000, d, step);
    Over(36_864_000, d, step + 1);
  }

  /** What the driver considers a possible setting for a rate. */
  predicate Admissible(rate: nat, t: Triple) {
    && ValidOd(t.od) && rate <= RateLimit(t.od)
    && 1 <= t.r <= 127 && 4 <= t.v <= 511
    && InOperatingRange(t)
  }

  function Low0(rate: nat): (n: nat)
    ensures n <= rate
  {
    rate - rate / 10
  }

  function Hi0(rate: nat): nat {
    (rate + rate / 10) % WORD
  }

  /** The bracket: the closest clocks found below and above, and the settings that give them. */
  datatype Bracket = Bracket(low: nat, hi: nat, l: Triple, h: Triple)

  /** One setting in the operating range: ties go to the lower reference divider, then the higher VCO
      divider; a clock strictly inside the bracket replaces one end. */
  function Visit(rate: nat, b: Bracket, t: Triple): Bracket
    requires t.od > 0
  {
    var check := Clock(t);
    var tied :=
      if check == b.low then
        (if b.l.r > t.r || (b.l.r == t.r && b.l.v < t.v) then b.(l := t) else b)
      else if check == b.hi then
        (if b.h.r > t.r || (b.h.r == t.r && b.h.v < t.v) then b.(h := t) else b)
      else b;
    if tied.low < check < tied.hi then
      (if check > rate then tied.(hi := check, h := t) else tied.(low := check, l := t))
    else tied
  }

  // ---------- the invariant ----------

  /** The ends of the bracket enclose the rate; each is the starting bound or an admissible clock. */
  ghost predicate Good(rate: nat, b: Bracket) {
    && Low0(rate) <= b.low <= rate
    && (b.hi == Hi0(rate) || rate < b.hi < Hi0(rate))
    && (if b.l.od == 1 then b.low == Low0(rate) && b.l == NOTHING
        else Admissible(rate, b.l) && Clock(b.l) == b.low)
    && (if b.h.od == 1 then b.hi == Hi0(rate)
        else Admissible(rate, b.h) && Clock(b.h) == b.hi)
    && (b.low == Low0(rate) ==> b.l.r == 1)
  }

  function Distance(a: nat, b: nat): nat {
    if a < b then b - a else a - b
  }

  // An admissible setting strictly within a tenth of the rate.
  predicate Hit(rate: nat, t: Triple) {
    Admissible(rate, t) && Distance(rate, Clock(t)) < rate / 10
  }

  predicate Found(rate: nat, b: Bracket) {
    b.l.od != 1 || b.hi < Hi0(rate)
  }

  // Nothing visited lies inside the bracket, and without a find nothing visited was a hit.
  predicate Excluded(rate: nat, b: Bracket, t: Triple) {
    Admissible(rate, t) ==>
      && (Clock(t) <= b.low || Clock(t) >= b.hi)
      && (Hit(rate, t) ==> Found(rate, b))
  }

  predicate Visited(t: Triple, od: nat, r: nat, v: nat) {
    t.od < od || (t.od == od && (t.r < r || (t.r == r && t.v < v)))
  }

  ghost predicate AllExcluded(rate: nat, b: Bracket, od: nat, r: nat, v: nat) {
    forall t :: Visited(t, od, r, v) ==> Excluded(rate, b, t)
  }

  // Only rates up to 180 MHz have admissible settings, so the upper bound never wraps where it matters.
  lemma SmallRate(rate: nat, t: Triple)
    requires Admissible(rate, t)
    ensures rate <= 180_000_000 && Hi0(rate) == rate + rate / 10
  {
  }

  lemma VisitGood(rate: nat, b: Bracket, t: Triple)
    requires Good(rate, b) && Admissible(rate, t)
    ensures var b' := Visit(rate, b, t);
      && Good(rate, b')
      && Excluded(rate, b', t)
      && b.low <= b'.low && b'.hi <= b.hi
      && (Found(rate, b) ==> Found(rate, b'))
  {
    hide Clock, InOperatingRange, RateLimit;
    SmallRate(rate, t);
  }

  lemma ExcludedStays(rate: nat, b: Bracket, b': Bracket, t: Triple)
    requires Excluded(rate, b, t) && b.low <= b'.low && b'.hi <= b.hi
    requires Found(rate, b) ==> Found(rate, b')
    ensures Excluded(rate, b', t)
  {
    hide Admissible, Clock, Hit, Found;
  }

  lemma NextV(rate: nat, b: Bracket, b': Bracket, od: nat, r: nat, v: nat)
    requires AllExcluded(rate, b, od, r, v) && Excluded(rate, b', Triple(v, r, od))
    requires b.low <= b'.low && b'.hi <= b.hi && (Found(rate, b) ==> Found(rate, b'))
    ensures AllExcluded(rate, b', od, r, v + 1)
  {
    hide Excluded, Found;
    forall t | Visited(t, od, r, v + 1) ensures Excluded(rate, b', t) {
      if Visited(t, od, r, v) {
        ExcludedStays(rate, b, b', t);
      } else {
        assert t == Triple(v, r, od);
      }
    }
  }

  lemma NotAdmissible(rate: nat, b: Bracket, t: Triple)
    requires !Admissible(rate, t)
    ensures Excluded(rate, b, t)
  {
  }

  lemma NextR(rate: nat, b: Bracket, od: nat, r: nat)
    requires AllExcluded(rate, b, od, r, 512)
    ensures AllExcluded(rate, b, od, r + 1, 4)
  {
    hide Excluded, InOperatingRange, RateLimit;
    forall t | Visited(t, od, r + 1, 4) ensures Excluded(rate, b, t) {
      if !Visited(t, od, r, 512) {
        NotAdmissible(rate, b, t);
      }
    }
  }

  lemma NextOd(rate: nat, b: Bracket, od: nat)
    requires ValidOd(od)
    requires AllExcluded(rate, b, od, 128, 4) || (AllExcluded(rate, b, od, 1, 4) && rate > RateLimit(od))
    ensures AllExcluded(rate, b, if od == 8 then 10 else od + 1, 1, 4)
  {
    hide Excluded, InOperatingRange, RateLimit;
    var next := if od == 8 then 10 else od + 1;
    forall t | Visited(t, next, 1, 4) ensures Excluded(rate, b, t) {
      if !Visited(t, od, 128, 4) || (rate > RateLimit(od) && !Visited(t, od, 1, 4)) {
        NotAdmissible(rate, b, t);
      }
    }
  }

  lemma StartGood(rate: nat)
    requires rate < WORD
    ensures var b := Bracket(Low0(rate), Hi0(rate), NOTHING, NOTHING);
      Good(rate, b) && AllExcluded(rate, b, 2, 1, 4)
  {
    var b := Bracket(Low0(rate), Hi0(rate), NOTHING, NOTHING);
    hide Excluded, InOperatingRange, RateLimit;
    forall t | Visited(t, 2, 1, 4) ensures Excluded(rate, b, t) {
      NotAdmissible(rate, b, t);
    }
  }

  /** The three loops. */
  method CloseBracket(rate: nat) returns (b: Bracket)
    requires rate < WORD
    ensures Good(rate, b)
    ensures forall t :: Excluded(rate, b, t)
  {
    hide Good, AllExcluded, Excluded, Visit, InOperatingRange, RateLimit, Found;
    b := Bracket(Low0(rate), Hi0(rate), NOTHING, NOTHING);
    StartGood(rate);
    var od := 2;
    while od <= 10
      invariant ValidOd(od) || od == 11
      invariant Good(rate, b) && AllExcluded(rate, b, od, 1, 4)
    {
      var odSkip := rate > RateLimit(od);
      var r := 1;
      while r <= 127 && !odSkip
        invariant 1 <= r <= 128
        invariant odSkip ==> r == 1
        invariant Good(rate, b) && AllExcluded(rate, b, od, r, 4)
      {
        var v := 4;
        while v <= 511
          invariant 4 <= v <= 512
          invariant Good(rate, b) && AllExcluded(rate, b, od, r, v)
        {
          var t := Triple(v, r, od);
          var b' := b;
          if InOperatingRange(t) {
            VisitGood(rate, b, t);
            b' := Visit(rate, b, t);
          } else {
            NotAdmissible(rate, b, t);
          }
          NextV(rate, b, b', od, r, v);
          b := b';
          v := v + 1;
        }
        NextR(rate, b, od, r);
        r := r + 1;
      }
      NextOd(rate, b, od);
      od := od + 1;
      if od == 9 {
        od := od + 1;
      }
    }
    Everything(rate, b);
  }

  lemma Everything(rate: nat, b: Bracket)
    requires AllExcluded(rate, b, 11, 1, 4)
    ensures forall t :: Excluded(rate, b, t)
  {
    hide Excluded, InOperatingRange, RateLimit;
    forall t ensures Excluded(rate, b, t) {
      if !Visited(t, 11, 1, 4) {
        NotAdmissible(rate, b, t);
      }
    }
  }

  // ---------- the result ----------

  // At least as close to the rate as every admissible setting.
  ghost predicate Nearest(rate: nat, t: Triple) {
    && Admissible(rate, t)
    && forall u :: Admissible(rate, u) ==> Distance(rate, Clock(t)) <= Distance(rate, Clock(u))
  }

  function OdCode(od: nat): nat {
    match od
    case 2 => 0x11
    case 3 => 0x16
    case 4 => 0x13
    case 5 => 0x14
    case 6 => 0x17
    case 7 => 0x15
    case 8 => 0x12
    case 10 => 0x10
    case _ => 0
  }

  // The control word: output divider code, then 9 bits of v, then 7 bits of r.
  function Pack(t: Triple): nat {
    (OdCode(t.od) * 512 + t.v) * 128 + t.r
  }

  function OdFrom(code: nat): nat {
    match code
    case 0x11 => 2
    case 0x16 => 3
    case 0x13 => 4
    case 0x14 => 5
    case 0x17 => 6
    case 0x15 => 7
    case 0x12 => 8
    case 0x10 => 10
    case _ => 1
  }

  function Unpack(w: nat): Triple {
    Triple((w / 128) % 512, w % 128, OdFrom(w / 65536))
  }

  // The dividers that the chip's eight codes stand for.
  const DIVIDERS: seq<nat> := [10, 2, 8, 4, 5, 7, 3, 6]

  /** The control word, from the top: a fixed 1 and 0, three bits of divider code, v and r. */
  lemma PackIs(t: Triple)
    requires ValidOd(t.od) && t.v < 512 && t.r < 128
    ensures exists k :: 0 <= k < 8 && DIVIDERS[k] == t.od && Pack(t) == (16 + k) * 65536 + t.v * 128 + t.r
  {
    var k := OdCode(t.od) - 16;
    assert 0 <= k < 8 && DIVIDERS[k] == t.od;
  }

  lemma PackRoundTrip(t: Triple)
    requires ValidOd(t.od) && t.v < 512 && t.r < 128
    ensures Unpack(Pack(t)) == t
  {
    var w := Pack(t);
    assert w / 128 == OdCode(t.od) * 512 + t.v;
    assert w / 65536 == (w / 128) / 512;
  }

  // The end of the bracket the driver prefers, compared in unsigned arithmetic.
  function Best(rate: nat, b: Bracket): Triple
    requires b.low <= rate
  {
    if (b.hi - rate) % WORD < rate - b.low then b.h else b.l
  }

  // A rate no admissible setting can serve: the lower end is never moved, and is preferred.
  lemma BestIsFound(rate: nat, b: Bracket)
    requires rate < WORD && Good(rate, b)
    ensures ValidOd(Best(rate, b).od) <==> Found(rate, b)
    ensures Found(rate, b) ==> Admissible(rate, Best(rate, b))
  {
    hide InOperatingRange, Clock, RateLimit;
    if b.l.od != 1 {
      SmallRate(rate, b.l);
    }
    if b.h.od != 1 {
      SmallRate(rate, b.h);
    }
    WrapDistance(rate, b.hi);
  }

  // At the starting bound the unsigned distance is a tenth of the rate even if the bound has wrapped.
  lemma WrapDistance(rate: nat, hi: nat)
    requires rate < WORD
    ensures hi == Hi0(rate) ==> (hi - rate) % WORD == rate / 10
    ensures rate <= hi < WORD ==> (hi - rate) % WORD == hi - rate
  {
    if rate + rate / 10 >= WORD {
      assert Hi0(rate) == rate + rate / 10 - WORD;
    }
  }

  /** The lower end can also be claimed by a setting exactly a tenth below the rate, which takes reference
      divider word 1. Then the next VCO divider word is admissible as well, and strictly within the tenth. */
  lemma TenthHasBetter(rate: nat, t: Triple)
    requires Admissible(rate, t) && t.r == 1 && Clock(t) == Low0(rate)
    ensures Hit(rate, Triple(t.v + 1, 1, t.od))
  {
    hide InOperatingRange;
    SmallRate(rate, t);
    var k := t.v + 8;
    var step := INPUT * 2 / (3 * t.od);
    StepsOf(t);
    FewSteps(rate, t.od, k);
    var u := Triple(t.v + 1, 1, t.od);
    StepsOf(u);
    FewInRange(u);
  }

  // With reference divider word 1 the clock is a whole number of steps, and no product wraps.
  lemma StepsOf(t: Triple)
    requires ValidOd(t.od) && t.r == 1 && t.v <= 511
    ensures INPUT * 2 / (3 * t.od) <= 6_144_000
    ensures Clock(t) == INPUT * 2 / (3 * t.od) * (t.v + 8)
  {
    var step := INPUT * 2 / (3 * t.od);
    StepValues(t.od);
    assert step * (t.v + 8) <= 6_144_000 * 519;
  }

  lemma StepValues(od: nat)
    requires ValidOd(od)
    ensures INPUT * 2 / (3 * od) == match od
      case 2 => 6_144_000 case 3 => 4_096_000 case 4 => 3_072_000 case 5 => 2_457_600
      case 6 => 2_048_000 case 7 => 1_755_428 case 8 => 1_536_000 case _ => 1_228_800
  {
  }

  // Such a clock, a tenth below a rate its output divider is tried for, takes few steps.
  lemma FewSteps(rate: nat, od: nat, k: nat)
    requires ValidOd(od) && rate <= RateLimit(od) && 12 <= k <= 519
    requires INPUT * 2 / (3 * od) * k == Low0(rate)
    ensures k <= 27
    ensures Low0(rate) < INPUT * 2 / (3 * od) * (k + 1) < rate + rate / 10
  {
    StepValues(od);
  }

  lemma FewInRange(t: Triple)
    requires t.r == 1 && 4 <= t.v <= 20
    ensures InOperatingRange(t)
  {
  }

  // Something was found exactly if there was a hit.
  lemma FoundIsHit(rate: nat, b: Bracket)
    requires rate < WORD && Good(rate, b) && forall t :: Excluded(rate, b, t)
    ensures Found(rate, b) <==> exists t :: Hit(rate, t)
  {
    hide InOperatingRange, Clock, RateLimit;
    if b.l.od != 1 {
      SmallRate(rate, b.l);
      if b.low == Low0(rate) {
        TenthHasBetter(rate, b.l);
      } else {
        assert Hit(rate, b.l);
      }
    } else if b.hi < Hi0(rate) {
      SmallRate(rate, b.h);
      assert Hit(rate, b.h);
    }
    forall t | Hit(rate, t) ensures Found(rate, b) {
      assert Excluded(rate, b, t);
    }
  }

  lemma BestIsNearest(rate: nat, b: Bracket)
    requires rate < WORD && Good(rate, b) && Found(rate, b) && forall t :: Excluded(rate, b, t)
    ensures Nearest(rate, Best(rate, b))
  {
    hide InOperatingRange, Clock, RateLimit, Hit;
    BestIsFound(rate, b);
    var best := Best(rate, b);
    SmallRate(rate, best);
    WrapDistance(rate, b.hi);
    forall u | Admissible(rate, u) ensures Distance(rate, Clock(best)) <= Distance(rate, Clock(u)) {
      assert Excluded(rate, b, u);
    }
  }

  /** It succeeds exactly if some admissible setting is strictly within a tenth of the rate; then the control
      word reads back as a setting at least as close as every admissible one, within the tenth as well. */
  method GetICS30702Data(rate: nat) returns (code: nat, frequency: nat, bits: nat)
    requires rate < WORD
    ensures code == 0 || code == 1
    ensures code == 0 <==> exists t :: Hit(rate, t)
    ensures code == 0 ==> Nearest(rate, Unpack(bits)) && frequency == Clock(Unpack(bits))
    ensures code == 0 ==> Distance(rate, frequency) < rate / 10
    ensures code == 1 ==> frequency == 0
    ensures code == 1 ==> forall t :: Admissible(rate, t) ==> Distance(rate, Clock(t)) >= rate / 10
  {
    hide Good, Excluded, Admissible, InOperatingRange, RateLimit, Hit, Nearest, Clock, Found, Pack, Unpack;
    var b := CloseBracket(rate);
    BestIsFound(rate, b);
    FoundIsHit(rate, b);
    BracketLow(rate, b);
    var best := if (b.hi - rate) % WORD < rate - b.low then b.h else b.l;
    if !ValidOd(best.od) {
      NoneWithinTenth(rate);
      return 1, 0, 0;
    }
    BestIsNearest(rate, b);
    NearestIsHit(rate, best);
    WordSized(rate, best);
    PackRoundTrip(best);
    return 0, Clock(best), Pack(best);
  }

  lemma NearestIsHit(rate: nat, t: Triple)
    requires Nearest(rate, t) && exists u :: Hit(rate, u)
    ensures Distance(rate, Clock(t)) < rate / 10
  {
    hide InOperatingRange, Clock, RateLimit;
    var u :| Hit(rate, u);
    assert Distance(rate, Clock(t)) <= Distance(rate, Clock(u));
  }

  lemma BracketLow(rate: nat, b: Bracket)
    requires Good(rate, b)
    ensures b.low <= rate
  {
  }

  lemma WordSized(rate: nat, t: Triple)
    requires Admissible(rate, t)
    ensures ValidOd(t.od) && t.v < 512 && t.r < 128
  {
  }

  lemma NoneWithinTenth(rate: nat)
    requires forall t :: !Hit(rate, t)
    ensures forall t :: Admissible(rate, t) ==> Distance(rate, Clock(t)) >= rate / 10
  {
    hide InOperatingRange, Clock, RateLimit;
    forall t | Admissible(rate, t) ensures Distance(rate, Clock(t)) >= rate / 10 {
      SmallRate(rate, t);
      assert !Hit(rate, t);
    }
  }

  // 14.7456 MHz exactly: 2 * 18.432 MHz / 30 * 12.
  lemma ExactHit()
    ensures Clock(Triple(4, 1, 10)) == 14_745_600 && Hit(14_745_600, Triple(4, 1, 10))
  {
  }

  // A clock from just below the rate, and from how far.
  ghost predicate Below(rate: nat, k: nat, t: Triple) {
    k <= rate && Admissible(rate, t) && Low0(rate) < Clock(t) && Clock(t) == rate - k
  }

  ghost predicate Above(rate: nat, k: nat, t: Triple) {
    k > 0 && Admissible(rate, t) && Clock(t) < Hi0(rate) && Clock(t) == rate + k
  }

  /** Every rate has a closed bracket. */
  lemma ClosedBracket(rate: nat) returns (b: Bracket)
    requires rate < WORD
    ensures Good(rate, b) && forall t :: Excluded(rate, b, t)
  {
    hide Admissible, Clock;
    b := Bracket(Low0(rate), Hi0(rate), NOTHING, NOTHING);
    var below := (k: nat) => exists t :: Below(rate, k, t);
    var above := (k: nat) => exists t :: Above(rate, k, t);
    if k0: nat :| below(k0) {
      var k := Least(below, k0);
      var t :| Below(rate, k, t);
      b := b.(low := rate - k, l := t);
      AdmissibleOd(rate, t);
    }
    if k0: nat :| above(k0) {
      var k := Least(above, k0);
      var t :| Above(rate, k, t);
      b := b.(hi := rate + k, h := t);
      AdmissibleOd(rate, t);
    }
    forall t ensures Excluded(rate, b, t) {
      if Admissible(rate, t) {
        SmallRate(rate, t);
        AdmissibleOd(rate, t);
        if Low0(rate) < Clock(t) <= rate {
          assert Below(rate, rate - Clock(t), t) && below(rate - Clock(t));
        } else if rate < Clock(t) < Hi0(rate) {
          assert Above(rate, Clock(t) - rate, t) && above(Clock(t) - rate);
        }
      }
    }
  }

  lemma AdmissibleOd(rate: nat, t: Triple)
    requires Admissible(rate, t)
    ensures t.od > 1
  {
  }
}
