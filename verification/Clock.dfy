/** GetICS30703Data: search, then pack. */
module Clock {
  import opened ClockSearch
  import K = ClockCodec

  predicate InRange(c: Choice) {
    1 <= c.r <= MAX_R && MIN_V <= c.v <= MAX_V && 2 <= c.od <= TOP_OD && c.i < |RS| && c.j < |ICP|
  }

  function DividersOf(c: Choice): K.Dividers
    requires InRange(c)
  {
    K.Dividers(c.r as bv32, c.v as bv32, c.od as bv32, RS[c.i], ICP[c.j])
  }

  // ---------- dividers as numbers and as words ----------

  // Dividers fit 14 bits, where numbers and words are easily compared.
  lemma Narrow(n: nat) returns (b: bv14)
    requires n < 16384
    ensures b as nat == n
  {
    hide *;
    if n == 0 {
      b := 0;
    } else {
      var half := Narrow(n / 2);
      Doubled(half, n / 2);
      b := if n % 2 == 0 then half << 1 else (half << 1) | 1;
    }
  }

  lemma Widen(b: bv14, n: nat)
    requires b as nat == n
    ensures n as bv32 == b as bv32
  {
    WideValue(b);
    BackAgain(b as bv32, n);
  }

  lemma WideValue(b: bv14)
    ensures (b as bv32) as nat == b as nat
  {
  }

  lemma BackAgain(b: bv32, n: nat)
    requires b as nat == n && n < 16384
    ensures n as bv32 == b
  {
  }

  lemma BackNarrow(b: bv14, n: nat)
    requires b as nat == n
    ensures n as bv14 == b
  {
  }

  lemma LowLimits(b: bv14, n: nat)
    requires b as nat == n
    ensures (n >= 1 <==> b >= 1) && (n >= 2 <==> b >= 2) && (n >= MIN_V <==> b >= 12)
  {
  }

  lemma LimitV(b: bv14, n: nat)
    requires b as nat == n
    ensures n <= MAX_V <==> b <= 2055
  {
  }

  lemma LimitOd(b: bv14, n: nat)
    requires b as nat == n
    ensures n <= TOP_OD <==> b <= 8232
  {
  }

  lemma Limit1030(b: bv14, n: nat)
    requires b as nat == n
    ensures n <= 1030 <==> b <= 1030
  {
  }

  lemma Limit2060(b: bv14, n: nat)
    requires b as nat == n
    ensures n <= 2060 <==> b <= 2060
  {
  }

  lemma Limit4120(b: bv14, n: nat)
    requires b as nat == n
    ensures n <= 4120 <==> b <= 4120
  {
  }

  lemma InputConverts(r: nat)
    requires 1 <= r <= MAX_R
    ensures K.InputFits(r as bv32)
  {
    var b := Narrow(r);
    Widen(b, r);
    LowLimits(b, r);
    LimitV(b, r);
  }

  lemma VcoConverts(v: nat)
    requires MIN_V <= v <= MAX_V
    ensures K.VcoFits(v as bv32)
  {
    var b := Narrow(v);
    Widen(b, v);
    LowLimits(b, v);
    LimitV(b, v);
  }

  lemma OutputConverts(od: nat)
    requires 2 <= od <= TOP_OD
    ensures K.OutputFits(od as bv32)
  {
    var b := Narrow(od);
    Widen(b, od);
    LowLimits(b, od);
    LimitOd(b, od);
  }

  lemma LadderConverts(od: nat)
    requires OnLadder(od)
    ensures K.OutputFits(od as bv32)
    ensures K.LadderBits(od as bv32)
  {
    OutputConverts(od);
    var b := Narrow(od);
    Widen(b, od);
    Limit1030(b, od);
    Limit2060(b, od);
    Limit4120(b, od);
    if od > 1030 { Multiple2(b, od, od / 2); }
    if od > 2060 { Multiple4(b, od, od / 4); }
    if od > 4120 { Multiple8(b, od, od / 8); }
  }

  lemma Multiple2(b: bv14, n: nat, k: nat)
    requires b as nat == n && n == 2 * k
    ensures b & 1 == 0
  {
    hide *;
    ValueBound(b);
    var c := Narrow(k);
    Doubled(c, k);
    SameValue(b, c << 1, n);
  }

  lemma Multiple4(b: bv14, n: nat, k: nat)
    requires b as nat == n && n == 4 * k
    ensures b & 3 == 0
  {
    hide *;
    ValueBound(b);
    var c := Narrow(k);
    Quadrupled(c, k);
    SameValue(b, c << 2, n);
  }

  lemma Multiple8(b: bv14, n: nat, k: nat)
    requires b as nat == n && n == 8 * k
    ensures b & 7 == 0
  {
    hide *;
    ValueBound(b);
    var c := Narrow(k);
    Octupled(c, k);
    SameValue(b, c << 3, n);
  }

  lemma ValueBound(b: bv14)
    ensures b as nat < 16384
  {
  }

  lemma SameValue(b: bv14, c: bv14, n: nat)
    requires b as nat == n && c as nat == n
    ensures b == c
  {
    BackNarrow(b, n);
    BackNarrow(c, n);
  }

  lemma Doubled(b: bv14, n: nat)
    requires b as nat == n && n < 8192
    ensures (b << 1) as nat == 2 * n && ((b << 1) | 1) as nat == 2 * n + 1 && (b << 1) & 1 == 0
  {
  }

  lemma Quadrupled(b: bv14, n: nat)
    requires b as nat == n && n < 4096
    ensures (b << 2) as nat == 4 * n && (b << 2) & 3 == 0
  {
  }

  lemma Octupled(b: bv14, n: nat)
    requires b as nat == n && n < 2048
    ensures (b << 3) as nat == 8 * n && (b << 3) & 7 == 0
  {
  }

  lemma FilterValues(i: nat, j: nat)
    requires i < |RS| && j < |ICP|
    ensures RS[i] in K.RESISTORS && ICP[j] in K.CURRENTS
  {
  }

  /** Every resistor and every current that the chip has is tried. */
  lemma TablesComplete()
    ensures forall x :: x in K.RESISTORS <==> x in RS
    ensures forall x :: x in K.CURRENTS <==> x in ICP
    ensures |RS| == 4 && |ICP| == 20
  {
  }

  lemma FirstInRange(desired: nat, c: Choice)
    requires First(desired, c)
    ensures InRange(c) && OnLadder(c.od)
    ensures Close(desired, Allowed(desired, c.ppm), c.r * c.od, c.v)
  {
    hide NoneAtPpm, NoneAtR, FirstAtR, FilterOk, VcoOk, Close, Allowed, PfdOk, Solution, OnLadder;
    SolutionIff(desired, Allowed(desired, c.ppm), c.r, c.od, c.v, c.i, c.j);
    LadderRange(c.od);
  }

  lemma LadderRange(od: nat)
    ensures OnLadder(od) ==> 2 <= od <= TOP_OD
  {
  }

  lemma Encodable(c: Choice)
    requires InRange(c) && OnLadder(c.od)
    ensures K.Refusal(DividersOf(c)) == 0 && K.LadderBits(DividersOf(c).output)
  {
    InputConverts(c.r);
    VcoConverts(c.v);
    LadderConverts(c.od);
    FilterValues(c.i, c.j);
    hide K.InputFits, K.VcoFits, K.OutputFits, K.LadderBits, OnLadder, K.RESISTORS, K.CURRENTS;
  }

  /** Every divider the search can produce is encodable: the only outcomes are success, with bits that read
      back as the first solution's dividers, and "no solution", when there is none. */
  method GetICS30703Data(desired: nat, requestedPpm: nat)
    returns (code: nat, frequency: nat, bits: seq<bv8>, ghost c: Choice)
    requires desired < 0x1_0000_0000 && requestedPpm <= MAX_PPM && Ends(desired, requestedPpm)
    ensures code == 0 || code == 2
    ensures code == 2 ==> frequency == 0 && forall ppm :: 0 <= ppm <= requestedPpm ==> NoneAtPpm(desired, ppm)
    ensures code == 0 ==>
      && c.ppm <= requestedPpm && First(desired, c) && InRange(c)
      && |bits| == 20 && K.Unpack(bits) == DividersOf(c) && K.Frame(bits)
      && frequency * (c.r * c.od) <= INPUT * c.v < (frequency + 1) * (c.r * c.od)
      && Abs(frequency - desired) * MILLION <= Allowed(desired, c.ppm) + MILLION
  {
    hide *;
    frequency, bits, c := 0, [], Choice(0, 0, 0, 0, 0, 0);
    var found := FindDividers(desired, requestedPpm);
    if found.None? {
      code := 2;
    } else {
      var f := found.value;
      c := f;
      FirstInRange(desired, f);
      Encodable(f);
      code, bits := K.Pack(DividersOf(f));
      frequency := Output(f);
      OutputIs(f);
      OutputClose(desired, f);
    }
  }

  // The frequency the dividers give, in whole Hz.
  function Output(c: Choice): nat
    requires InRange(c)
  {
    assert c.r * c.od > 0;
    INPUT * c.v / (c.r * c.od)
  }

  lemma OutputIs(c: Choice)
    requires InRange(c)
    ensures Output(c) * (c.r * c.od) <= INPUT * c.v < (Output(c) + 1) * (c.r * c.od)
  {
    Quotient(INPUT * c.v, c.r * c.od);
  }

  lemma Quotient(n: nat, d: nat)
    requires d > 0
    ensures n / d * d <= n < (n / d + 1) * d
  {
  }

  /** The reported frequency is the requested one, to within the error that was allowed and the fraction of a
      Hz that is cut off. */
  lemma OutputClose(desired: nat, c: Choice)
    requires InRange(c) && Close(desired, Allowed(desired, c.ppm), c.r * c.od, c.v)
    ensures Abs(Output(c) - desired) * MILLION <= Allowed(desired, c.ppm) + MILLION
  {
    OutputIs(c);
    Cancel(Output(c), desired, Allowed(desired, c.ppm), c.r * c.od, INPUT * c.v);
  }

  lemma Cancel(f: nat, desired: nat, allowed: nat, m: nat, n: nat)
    requires m > 0 && f * m <= n < (f + 1) * m && Abs(n - desired * m) * MILLION <= allowed * m
    ensures Abs(f - desired) * MILLION <= allowed + MILLION
  {
    if Abs(f - desired) * MILLION > allowed + MILLION {
      TimesAbs(f, desired, m);
      var far := Abs(f * m - desired * m);
      assert far <= Abs(n - desired * m) + m;
      assert far * MILLION <= allowed * m + MILLION * m;
      MoreTimes(allowed + MILLION + 1, Abs(f - desired) * MILLION, m);
    }
  }

  lemma TimesAbs(a: nat, b: nat, m: nat)
    ensures Abs(a * m - b * m) == Abs(a - b) * m
  {
    if a < b {
      assert (b - a) * m == b * m - a * m;
    } else {
      assert (a - b) * m == a * m - b * m;
    }
  }

  lemma MoreTimes(a: nat, b: nat, m: nat)
    requires a <= b
    ensures a * m <= b * m
  {
  }
}
