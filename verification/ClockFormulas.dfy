/** The bounds on a clock setting as the driver computes them, in Hz, ohms and amperes, on exact numbers. */
module ClockFormulas {

  // ---------- the formulas ----------

  function Pfd(r: nat): (hz: real)
    requires r > 0
  {
    24_000_000.0 / r as real
  }

  function Vco(r: nat, v: nat): (hz: real)
    requires r > 0
  {
    24_000_000.0 * (v as real / r as real)
  }

  function Freq(r: nat, od: nat, v: nat): (hz: real)
    requires r > 0 && od > 0
  {
    24_000_000.0 * (v as real / (r as real * od as real))
  }

  // Charge pump currents are numbered in units of 10 nA.
  function Amperes(icp: nat): (a: real) {
    icp as real / 100_000_000.0
  }

  // Loop bandwidth.
  function Nbw(rs: nat, icp: nat, v: nat): (hz: real)
    requires v > 0
  {
    (rs as real * Amperes(icp) * 310_000_000.0) / (2.0 * 3.14159 * v as real)
  }

  // PFD frequency over loop bandwidth, in tenths, rounded down and incremented.
  function Tenths(r: nat, rs: nat, icp: nat, v: nat): (n: int)
    requires r > 0 && rs > 0 && icp > 0 && v > 0
  {
    NbwPositive(rs, icp, v);
    var ratio := Pfd(r) / Nbw(rs, icp, v);
    (ratio * 10.0).Floor + 1
  }

  // The square of (rs / 2) * sqrt(icp * 0.093 / v).
  function DampingSquared(rs: nat, icp: nat, v: nat): (d: real)
    requires v > 0
  {
    (rs as real / 2.0) * (rs as real / 2.0) * (Amperes(icp) * 0.093 / v as real)
  }

  lemma NbwPositive(rs: nat, icp: nat, v: nat)
    requires rs > 0 && icp > 0 && v > 0
    ensures Nbw(rs, icp, v) > 0.0
  {
    Positive(rs as real, Amperes(icp));
    Over(rs as real * Amperes(icp) * 310_000_000.0, 2.0 * 3.14159 * v as real, 0.0);
  }

  lemma Positive(a: real, b: real)
    requires a > 0.0 && b > 0.0
    ensures a * b > 0.0
  {
  }

  // ---------- the bounds ----------

  predicate PfdWithin(r: nat)
    requires r > 0
  {
    20_000.0 <= Pfd(r) <= 100_000_000.0
  }

  predicate VcoWithin(r: nat, od: nat, v: nat)
    requires r > 0
  {
    && 90_000_000.0 <= Vco(r, v)
    && (if od == 2 then Vco(r, v) <= 540_000_000.0
        else if od == 3 then Vco(r, v) <= 720_000_000.0
        else if od >= 38 && od <= 1029 then Vco(r, v) <= 570_000_000.0
        else Vco(r, v) <= 730_000_000.0)
  }

  // The error allowed is given in millionths of a Hz.
  predicate ErrorWithin(desired: nat, allowed: nat, r: nat, od: nat, v: nat)
    requires r > 0 && od > 0
  {
    var error := allowed as real / 1_000_000.0;
    -error <= Freq(r, od, v) - desired as real <= error
  }

  predicate RatioWithin(r: nat, rs: nat, icp: nat, v: nat)
    requires r > 0 && rs > 0 && icp > 0 && v > 0
  {
    var ratio := Tenths(r, rs, icp, v) as real / 10.0;
    7.0 <= ratio <= 30.0
  }

  // 0.2 <= damping factor <= 2.0
  predicate DampingWithin(rs: nat, icp: nat, v: nat)
    requires v > 0
  {
    0.2 * 0.2 <= DampingSquared(rs, icp, v) <= 2.0 * 2.0
  }

  // ---------- cross-multiplied ----------

  lemma Over(a: real, b: real, c: real)
    requires b > 0.0
    ensures a / b <= c <==> a <= c * b
    ensures c <= a / b <==> c * b <= a
    ensures a / b * b == a
    ensures a / b > c <==> a > c * b
  {
    var x := a / b;
    assert x * b == a;
    if x <= c { assert x * b <= c * b; } else { assert x * b > c * b; }
    if c <= x { assert c * b <= x * b; } else { assert c * b > x * b; }
  }

  lemma {:induction false} ProductAsReal(a: nat, b: nat)
    ensures (a * b) as real == a as real * b as real
  {
    if b > 0 {
      ProductAsReal(a, b - 1);
      assert a * b == a * (b - 1) + a;
      assert a as real * b as real == a as real * (b - 1) as real + a as real;
    }
  }

  lemma PfdIff(r: nat)
    requires r > 0
    ensures PfdWithin(r) <==> 20_000 * r <= 24_000_000 <= 100_000_000 * r
  {
    Over(24_000_000.0, r as real, 20_000.0);
    Over(24_000_000.0, r as real, 100_000_000.0);
  }

  lemma VcoIff(r: nat, od: nat, v: nat)
    requires r > 0
    ensures VcoWithin(r, od, v) <==>
      && 90_000_000 * r <= 24_000_000 * v
      && 24_000_000 * v <= (if od == 2 then 540_000_000 else if od == 3 then 720_000_000
                            else if 38 <= od <= 1029 then 570_000_000 else 730_000_000) * r
  {
    VcoLe(r, v, 90_000_000);
    VcoLe(r, v, 540_000_000);
    VcoLe(r, v, 720_000_000);
    VcoLe(r, v, 570_000_000);
    VcoLe(r, v, 730_000_000);
    hide Vco;
  }

  lemma VcoLe(r: nat, v: nat, hz: nat)
    requires r > 0
    ensures Vco(r, v) <= hz as real <==> 24_000_000 * v <= hz * r
    ensures hz as real <= Vco(r, v) <==> hz * r <= 24_000_000 * v
  {
    Over(v as real, r as real, hz as real / 24_000_000.0);
    ProductAsReal(hz, r);
    assert hz as real / 24_000_000.0 * r as real == (hz * r) as real / 24_000_000.0;
  }

  lemma ErrorIff(desired: nat, allowed: nat, r: nat, od: nat, v: nat)
    requires r > 0 && od > 0
    ensures ErrorWithin(desired, allowed, r, od, v) <==>
      -(allowed * (r * od)) <= (24_000_000 * v - desired * (r * od)) * 1_000_000 <= allowed * (r * od)
  {
    hide *;
    ProductAsReal(r, od);
    MorePositive(r, od);
    var m := (r * od) as real;
    ProductAsReal(desired, r * od);
    ProductAsReal(allowed, r * od);
    ErrorScaled(desired, allowed, r, od, v, m);
  }

  lemma MorePositive(a: nat, b: nat)
    requires a > 0 && b > 0
    ensures a * b > 0
  {
  }

  lemma ErrorScaled(desired: nat, allowed: nat, r: nat, od: nat, v: nat, m: real)
    requires r > 0 && od > 0 && m == r as real * od as real > 0.0
    ensures ErrorWithin(desired, allowed, r, od, v) <==>
      && -(allowed as real * m) <= (24_000_000.0 * v as real - desired as real * m) * 1_000_000.0
      && (24_000_000.0 * v as real - desired as real * m) * 1_000_000.0 <= allowed as real * m
  {
    var x := v as real / m;
    Over(v as real, m, 0.0);
    var d, e := desired as real, allowed as real;
    var off := 24_000_000.0 * x - d;
    assert off * m == 24_000_000.0 * v as real - d * m by { assert 24_000_000.0 * x * m == 24_000_000.0 * (x * m); }
    Scale(off * 1_000_000.0, e, m);
    Scale(-e, off * 1_000_000.0, m);
    assert off * 1_000_000.0 * m == (off * m) * 1_000_000.0;
    assert (-e) * m == -(e * m);
  }

  lemma Scale(a: real, b: real, m: real)
    requires m > 0.0
    ensures a <= b <==> a * m <= b * m
  {
    if a <= b { assert a * m <= b * m; } else { assert a * m > b * m; }
  }

  // The products below, under names that keep them from being multiplied out.
  function Times(a: real, b: real): (p: real) {
    a * b
  }

  function Square(rs: nat, icp: nat): (n: nat) {
    rs * rs * icp
  }

  lemma DampingIff(rs: nat, icp: nat, v: nat)
    requires v > 0
    ensures DampingWithin(rs, icp, v) <==>
      16_000_000_000 * v <= Square(rs, icp) * 93 <= 1_600_000_000_000 * v
  {
    hide DampingSquared, Times, Square;
    var d := DampingSquared(rs, icp, v);
    DampingTimes(rs, icp, v);
    Bounds(d, v as real);
    DampingScaled(Times(d, v as real), Square(rs, icp), v);
  }

  lemma Bounds(d: real, v: real)
    requires v > 0.0
    ensures 0.04 <= d <==> 0.04 * v <= Times(d, v)
    ensures d <= 4.0 <==> Times(d, v) <= 4.0 * v
  {
    Scale(0.04, d, v);
    Scale(d, 4.0, v);
  }

  lemma DampingTimes(rs: nat, icp: nat, v: nat)
    requires v > 0
    ensures Times(DampingSquared(rs, icp, v), v as real) == Square(rs, icp) as real * 0.093 / 400_000_000.0
  {
    ProductAsReal(rs, rs);
    ProductAsReal(rs * rs, icp);
    var y := Amperes(icp) * 0.093 / v as real;
    Over(Amperes(icp) * 0.093, v as real, 0.0);
    TimesOut(rs as real / 2.0 * (rs as real / 2.0), y, v as real, Amperes(icp) * 0.093);
    Quarter(rs as real, icp as real);
  }

  lemma TimesOut(h: real, y: real, v: real, a: real)
    requires y * v == a
    ensures h * y * v == h * a
  {
    assert h * y * v == h * (y * v);
  }

  lemma Quarter(a: real, b: real)
    ensures a / 2.0 * (a / 2.0) * (b / 100_000_000.0 * 0.093) == a * a * b * 0.093 / 400_000_000.0
  {
    assert a / 2.0 * (a / 2.0) == a * a / 4.0;
    assert a * a / 4.0 * (b / 100_000_000.0 * 0.093) == a * a * b * 0.093 / 400_000_000.0;
  }

  lemma DampingScaled(d: real, square: nat, v: nat)
    requires d == square as real * 0.093 / 400_000_000.0
    ensures 0.04 * v as real <= d <==> 16_000_000_000 * v <= square * 93
    ensures d <= 4.0 * v as real <==> square * 93 <= 1_600_000_000_000 * v
  {
  }

  lemma Scaled(a: real, b: real, m: real)
    requires m > 0.0
    ensures a <= b <==> Times(a, m) <= Times(b, m)
  {
    Scale(a, b, m);
  }

  lemma TimesIs(a: real, b: real)
    ensures Times(a, b) == a * b
  {
  }

  lemma TimesNats(a: nat, b: nat)
    ensures Times(a as real, b as real) == (a * b) as real
  {
    ProductAsReal(a, b);
  }

  lemma Quotient(n: nat, d: nat) returns (k: nat, low: nat, high: nat)
    requires d > 0
    ensures k == n / d && low == k * d && high == (k + 1) * d && low <= n < high
  {
    k, low, high := n / d, n / d * d, (n / d + 1) * d;
  }

  // Dividing whole numbers rounds down.
  lemma FloorOver(n: nat, d: nat, q: real)
    requires d > 0 && Times(q, d as real) == n as real
    ensures q.Floor == n / d
  {
    hide Times;
    var k, low, high := Quotient(n, d);
    TimesNats(k, d);
    TimesNats(k + 1, d);
    Scaled(k as real, q, d as real);
    Scaled((k + 1) as real, q, d as real);
    Between(k, q);
  }

  lemma Between(k: nat, q: real)
    ensures k as real <= q && !((k + 1) as real <= q) ==> q.Floor == k
  {
  }

  lemma TenthsAre(r: nat, rs: nat, icp: nat, v: nat)
    requires r > 0 && rs > 0 && icp > 0 && v > 0
    ensures r * (rs * icp) > 0
    ensures Tenths(r, rs, icp, v) == (24_000_000 * 628318 * v) / (31000 * (r * (rs * icp))) + 1
  {
    hide *;
    MorePositive(rs, icp);
    MorePositive(r, rs * icp);
    ProductAsReal(rs, icp);
    ProductAsReal(r, rs * icp);
    var q := TenthsAsReal(r, rs, icp, v);
    var d := 31000 * (r * (rs * icp));
    assert d as real == 31000.0 * (r as real * (rs as real * icp as real));
    TimesIs(q, d as real);
    FloorOver(24_000_000 * 628318 * v, d, q);
  }

  // The ratio before rounding, as one fraction.
  lemma TenthsAsReal(r: nat, rs: nat, icp: nat, v: nat) returns (q: real)
    requires r > 0 && rs > 0 && icp > 0 && v > 0
    ensures Tenths(r, rs, icp, v) == q.Floor + 1
    ensures q * (31000.0 * (r as real * (rs as real * icp as real))) == 24_000_000.0 * 628318.0 * v as real
  {
    NbwPositive(rs, icp, v);
    var p, nb := Pfd(r), Nbw(rs, icp, v);
    q := p / nb * 10.0;
    Over(24_000_000.0, r as real, 0.0);
    Over(rs as real * Amperes(icp) * 310_000_000.0, 2.0 * 3.14159 * v as real, 0.0);
    Over(p, nb, 0.0);
    var c := rs as real * icp as real;
    assert rs as real * Amperes(icp) * 310_000_000.0 == c * 3.1;
    assert nb * (6.28318 * v as real) == c * 3.1;
    OneFraction(p, nb, p / nb, r as real, v as real, c);
  }

  lemma OneFraction(p: real, nb: real, x: real, r: real, v: real, c: real)
    requires p * r == 24_000_000.0 && nb * (6.28318 * v) == c * 3.1 && x * nb == p
    ensures x * 10.0 * (31000.0 * (r * c)) == 24_000_000.0 * 628318.0 * v
  {
    assert x * c * 3.1 == x * (nb * (6.28318 * v)) == p * (6.28318 * v) by {
      assert x * (nb * (6.28318 * v)) == (x * nb) * (6.28318 * v);
      assert x * c * 3.1 == x * (c * 3.1);
    }
    assert x * c * r * 3.1 == (x * c * 3.1) * r == p * (6.28318 * v) * r;
    assert p * (6.28318 * v) * r == (p * r) * (6.28318 * v);
    assert x * 10.0 * (31000.0 * (r * c)) == 100_000.0 * (x * c * r * 3.1) by {
      assert x * (r * c) == x * c * r;
    }
  }

  lemma RatioIff(r: nat, rs: nat, icp: nat, v: nat)
    requires r > 0 && rs > 0 && icp > 0 && v > 0
    ensures r * (rs * icp) > 0
    ensures RatioWithin(r, rs, icp, v) <==>
      70 <= (24_000_000 * 628318 * v) / (31000 * (r * (rs * icp))) + 1 <= 300
  {
    TenthsAre(r, rs, icp, v);
    hide Tenths;
  }
}
