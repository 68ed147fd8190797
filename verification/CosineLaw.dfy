/** What the fixed-point cosine is worth: its symmetries, how close it is to the cosine's Taylor
    polynomial, where it falls and where it does not, and the coefficients the detector ships with. */
module CosineLaw {
  import opened Basics
  import opened Goertzel
  import opened DetectorSpec

  // ---- landmarks and symmetries ----

  /** On [0, pi] the folding only mirrors at the right angle. */
  lemma FoldedInside(a: int)
    requires 0 <= a <= 843314857
    ensures FoldAngle(a) == if a > 421657428 then (843314857 - a, true) else (a, false)
  {
    TruncRemRange(a, TWO_PI_Q28);
    hide TruncRem;
  }

  lemma {:induction false} Reflected(a: int)
    requires 0 <= a <= 843314857
    ensures CosQ28(843314857 - a) == -CosQ28(a)
  {
    FoldedInside(a);
    FoldedInside(843314857 - a);
    hide FoldAngle, Taylor;
  }

  /** The angle reduced to [0, 2 pi). */
  lemma FoldedByResidue(a: int)
    ensures var r := a % 1686629714;
            CosQ28(a) == CosQ28(if r > 843314857 then 1686629714 - r else r)
  {
    var r := a % 1686629714;
    TruncRemRange(a, TWO_PI_Q28);
    FoldedInside(if r > 843314857 then 1686629714 - r else r);
    hide TruncRem, Taylor;
  }

  lemma {:induction false} Even(a: int)
    ensures CosQ28(-a) == CosQ28(a)
  {
    FoldedByResidue(a);
    FoldedByResidue(-a);
    NegRem(a, 1686629714);
    Euclid(a, 1686629714);
    hide CosQ28;
  }

  lemma {:induction false} Periodic(a: int)
    ensures CosQ28(a + 1686629714) == CosQ28(a)
  {
    FoldedByResidue(a);
    FoldedByResidue(a + 1686629714);
    Euclid(a, 1686629714);
    QuotientUnique(a + 1686629714, 1686629714, a / 1686629714 + 1, a % 1686629714);
    hide CosQ28;
  }

  // ---- falling ----

  /** The polynomial as a function of the squared angle. */
  function OfSquare(y: int): int {
    var t := y * y / 0x1000_0000;
    0x1000_0000 - y / 2 + t / 24 - t * y / 0x1000_0000 / 720
  }

  lemma TaylorOfSquare(a: int)
    ensures Taylor(a) == OfSquare(a * a / 0x1000_0000)
  {
  }

  lemma FloorSteps(u: int, v: int, d: int, s: int)
    requires d > 0 && u <= v <= u + s
    ensures u / d <= v / d && d * (v / d - u / d) <= s + d - 1
  {
    Euclid(u, d);
    Euclid(v, d);
    Distribute(d, v / d, u / d);
    if u / d > v / d { MulOrder(v / d - u / d, 0, d); MulMonotone(v / d - u / d, -1, d); }
  }

  /** The fourth power, scaled, between two squares. */
  lemma FourthSteps(y: int, z: int)
    requires 0 <= y <= z <= 662348000
    ensures var (t, u) := (y * y / 0x1000_0000, z * z / 0x1000_0000);
            0 <= t <= u && 0x1000_0000 * (u - t) <= 1324696000 * (z - y) + 0x1000_0000 - 1
  {
    assert z * z - y * y == (z - y) * (z + y);
    ProductBound(z - y, z + y, z - y, 1324696000);
    NonNegProduct(z - y, z + y);
    NonNegProduct(y, y);
    FloorSteps(y * y, z * z, 0x1000_0000, z * z - y * y);
  }

  /** Between two squares the polynomial falls by at least 0.294 per unit, up to a rounding of 1.5. */
  lemma {:induction false} Falls(y: int, z: int)
    requires 0 <= y <= z <= 662348000
    ensures 1000 * (OfSquare(z) - OfSquare(y)) <= 1500 - 294 * (z - y)
  {
    FourthSteps(y, z);
    var (t, u) := (y * y / 0x1000_0000, z * z / 0x1000_0000);
    FloorSteps(t, u, 24, u - t);
    FloorSteps(y, z, 2, z - y);
    SixthSteps(t, u, y, z);
    HalfSteps(y, z);
  }

  lemma HalfSteps(y: int, z: int)
    ensures 2 * (z / 2 - y / 2) >= z - y - 1
  {
  }

  lemma SixthSteps(t: int, u: int, y: int, z: int)
    requires 0 <= t <= u && 0 <= y <= z
    ensures t * y / 0x1000_0000 / 720 <= u * z / 0x1000_0000 / 720
  {
    ProductBound(t, y, u, z);
    NonNegProduct(t, y);
    FloorSteps(t * y, u * z, 0x1000_0000, u * z - t * y);
    var (v, w) := (t * y / 0x1000_0000, u * z / 0x1000_0000);
    FloorSteps(v, w, 720, w - v);
  }

  lemma Squares(a: int, b: int)
    requires 0 <= a <= b <= 421657428
    ensures 0 <= a * a / 0x1000_0000 <= b * b / 0x1000_0000 <= 662348000
  {
    ProductBound(a, a, b, b);
    NonNegProduct(a, a);
    ProductBound(b, b, 421657428, 421657428);
    FloorSteps(a * a, b * b, 0x1000_0000, b * b - a * a);
    FloorSteps(b * b, 421657428 * 421657428, 0x1000_0000, 421657428 * 421657428 - b * b);
    NonNegative(a * a, 0x1000_0000);
  }

  lemma NonNegative(x: int, d: int)
    requires x >= 0 && d > 0
    ensures x / d >= 0
  {
  }

  /** On [0, pi/2] and on the other half of [0, pi] the computed cosine never rises by more than
      one unit in 2^28. */
  lemma {:induction false} FallsOnEachHalf(a: int, b: int)
    requires 0 <= a <= b <= 843314857 && (b <= 421657428 || 421657428 < a)
    ensures CosQ28(b) <= CosQ28(a) + 1
  {
    FoldedInside(a);
    FoldedInside(b);
    hide FoldAngle;
    var (x, y) := if b <= 421657428 then (a, b) else (843314857 - b, 843314857 - a);
    Squares(x, y);
    Falls(x * x / 0x1000_0000, y * y / 0x1000_0000);
    TaylorOfSquare(x);
    TaylorOfSquare(y);
    hide Taylor, OfSquare;
  }

  /** Where the polynomial changes sign: by evaluation next to the zero, and by falling beyond. */
  lemma SignOfSquare(y: int)
    requires 0 <= y <= 662348000
    ensures y <= 661587178 ==> OfSquare(y) >= 0
    ensures y >= 661587182 ==> OfSquare(y) < 0
  {
    NextToZero();
    hide OfSquare;
    if y <= 661587178 { Falls(y, 661587178); }
    if y >= 661587182 { Falls(661587182, y); }
  }

  /** A value of the polynomial from the two quotients in it. */
  lemma ValueAt(y: int, t: int, u: int)
    requires t * 0x1000_0000 <= y * y < t * 0x1000_0000 + 0x1000_0000
    requires u * 0x1000_0000 <= t * y < u * 0x1000_0000 + 0x1000_0000
    ensures OfSquare(y) == 0x1000_0000 - y / 2 + t / 24 - u / 720
  {
    QuotientUnique(y * y, 0x1000_0000, t, y * y - t * 0x1000_0000);
    QuotientUnique(t * y, 0x1000_0000, u, t * y - u * 0x1000_0000);
  }

  lemma Landmarks()
    ensures CosQ28(0) == 0x1000_0000 && CosQ28(843314857) == -0x1000_0000
    ensures CosQ28(421657428) == -240121 && CosQ28(421657429) == 240121
  {
    FoldedInside(0);
    FoldedInside(843314857);
    FoldedInside(421657428);
    FoldedInside(421657429);
    ValueAt(0, 0, 0);
    ValueAt(662337938, 1634253353, 4032358512);
    TaylorOfSquare(0);
    TaylorOfSquare(421657428);
    QuotientUnique(421657428 * 421657428, 0x1000_0000, 662337938, 174445456);
    hide FoldAngle, Taylor, OfSquare;
  }

  lemma NextToZero()
    ensures OfSquare(661587178) == 0 && OfSquare(661587177) == 2 && OfSquare(661587176) == 1
    ensures OfSquare(661587175) == 2 && OfSquare(661587174) == 2 && OfSquare(661587173) == 3
    ensures OfSquare(661587182) == -1 && OfSquare(661587183) == -1 && OfSquare(661587184) == -2
    ensures OfSquare(661587185) == -2 && OfSquare(661587186) == -2 && OfSquare(661587187) == -2
  {
    hide OfSquare;
    ValueAt(661587178, 1630550600, 4018662013);
    ValueAt(661587177, 1630550596, 4018661997);
    ValueAt(661587176, 1630550591, 4018661978);
    ValueAt(661587175, 1630550586, 4018661960);
    ValueAt(661587174, 1630550581, 4018661942);
    ValueAt(661587173, 1630550576, 4018661923);
    ValueAt(661587182, 1630550620, 4018662086);
    ValueAt(661587183, 1630550625, 4018662105);
    ValueAt(661587184, 1630550630, 4018662123);
    ValueAt(661587185, 1630550635, 4018662142);
    ValueAt(661587186, 1630550640, 4018662160);
    ValueAt(661587187, 1630550645, 4018662178);
  }

  /** The cosine is not negative on [0, pi/2]; the computed one is, on the last 239042 units before
      the right angle (about 0.0009 radians), and nowhere else. */
  lemma {:induction false} SignExactly(a: int)
    requires 0 <= a <= 421657428
    ensures CosQ28(a) >= 0 <==> a <= 421418386
  {
    FoldedInside(a);
    TaylorOfSquare(a);
    SquareAtSign(a);
    SignOfSquare(a * a / 0x1000_0000);
    hide FoldAngle, Taylor, OfSquare;
  }

  lemma SquareAtSign(a: int)
    requires 0 <= a <= 421657428
    ensures 0 <= a * a / 0x1000_0000 <= 662348000
    ensures a <= 421418386 ==> a * a / 0x1000_0000 <= 661587178
    ensures a > 421418386 ==> a * a / 0x1000_0000 >= 661587182
  {
    Squares(a, a);
    if a <= 421418386 { Squares(a, 421418386); } else { Squares(421418387, a); }
  }

  /** So the computed cosine does not fall across the right angle. Between two angles on both sides
      it falls if neither lies within those 239042 units of the right angle, and rises if both do. */
  lemma {:induction false} AcrossTheRightAngle(a: int, b: int)
    requires 0 <= a <= 421657428 < b <= 843314857
    ensures a <= 421418386 && b >= 421896471 ==> CosQ28(b) <= 0 <= CosQ28(a)
    ensures a > 421418386 && b < 421896471 ==> CosQ28(b) > 0 > CosQ28(a)
  {
    SignExactly(a);
    SignExactly(843314857 - b);
    Reflected(b);
    hide CosQ28;
  }

  // ---- accuracy ----

  /** The Taylor polynomial 1 - x^2/2 + x^4/24 - x^6/720 of the cosine, in units of 2^-28, as a
      function of X = x^2 in the same units. */
  ghost function Polynomial(X: real): real {
    268435456.0 - X / 2.0 + Fourth(X) / 24.0 - Sixth(X) / 720.0
  }

  /** x^4 and x^6 in the same units. */
  ghost function Fourth(X: real): real {
    X * X / 268435456.0
  }

  ghost function Sixth(X: real): real {
    Fourth(X) * X / 268435456.0
  }

  lemma FloorReal(n: int, d: int)
    requires d > 0
    ensures (n / d) as real <= n as real / d as real < (n / d) as real + 1.0
  {
    var q, r, e := n / d, n % d, d as real;
    assert n == d * q + r;
    assert (d * q) as real == e * q as real;
    assert n as real == e * q as real + r as real;
    DivideReal(n as real, e, q as real, r as real);
  }

  lemma DivideReal(n: real, e: real, q: real, r: real)
    requires e > 0.0 && n == e * q + r && 0.0 <= r < e
    ensures q <= n / e < q + 1.0
  {
    var z := n / e;
    assert z * e == n;
    assert (z - q) * e == r;
    if z < q { ProductSign(q - z, e); }
    if z >= q + 1.0 { ProductSign(z - q - 1.0, e); }
  }

  lemma ProductSign(x: real, e: real)
    requires x >= 0.0 && e > 0.0
    ensures x * e >= 0.0 && (x > 0.0 ==> x * e > 0.0)
  {
  }

  lemma BoundedProduct(a: real, b: real, m: real, n: real, bound: real)
    requires 0.0 <= a <= m && 0.0 <= b <= n && m * n <= bound
    ensures 0.0 <= a * b <= bound
  {
    assert a * b <= m * b <= m * n;
  }

  /** Squaring a value rounded down by less than one, and rounding down again. */
  lemma SquareRounded(X: real, Y: real, t: real)
    requires 0.0 <= Y <= X < Y + 1.0 && X <= 662348000.0
    requires t <= Y * Y / 268435456.0 < t + 1.0
    ensures 0.0 <= X * X / 268435456.0 - t < 5.94
    ensures X * X / 268435456.0 <= 2.4675 * X
  {
    BoundedProduct(X - Y, X + Y, 1.0, 1324696000.0, 1324696000.0);
    BoundedProduct(X, X, X, 662348000.0, X * 662348000.0);
    SquareParts(X, Y, X * X, Y * Y, (X - Y) * (X + Y), t);
  }

  lemma SquareParts(X: real, Y: real, p: real, q: real, d: real, t: real)
    requires p == X * X && q == Y * Y && d == (X - Y) * (X + Y)
    requires 0.0 <= d <= 1324696000.0 && p <= X * 662348000.0 && X >= 0.0 && t <= q / 268435456.0 < t + 1.0
    ensures 0.0 <= p / 268435456.0 - t < 5.94 && p / 268435456.0 <= 2.4675 * X
  {
    assert p - q == d;
  }

  /** A product of two values rounded down, and rounding down again. */
  lemma ProductRounded(T: real, t: real, X: real, Y: real, u: real)
    requires 0.0 <= T - t < 5.94 && 0.0 <= t && 0.0 <= Y <= X < Y + 1.0 && X <= 662348000.0 && T <= 2.4675 * X
    requires u <= t * Y / 268435456.0 < u + 1.0
    ensures 0.0 <= T * X / 268435456.0 - u < 21.76
  {
    var x, y := X - Y, T - t;
    UnitProduct(T, x);
    BoundedProduct(y, Y, 5.94, 662348000.0, 3934347120.0);
    ProductParts(T, t, X, Y, x, y);
    SumBound(T * x, y * Y);
    QuotientGap(T * X, t * Y, T * x + y * Y, u);
  }

  lemma UnitProduct(T: real, x: real)
    requires 0.0 <= T && 0.0 <= x <= 1.0
    ensures 0.0 <= T * x <= T
  {
    assert T * x <= T * 1.0;
  }

  lemma ProductParts(T: real, t: real, X: real, Y: real, x: real, y: real)
    requires x == X - Y && y == T - t
    ensures T * X == t * Y + (T * x + y * Y)
  {
  }

  lemma SumBound(d: real, e: real)
    requires 0.0 <= d <= 1634343690.0 && 0.0 <= e <= 3934347120.0
    ensures 0.0 <= d + e <= 5568690810.0
  {
  }

  lemma QuotientGap(p: real, q: real, s: real, u: real)
    requires p == q + s && 0.0 <= s <= 5568690810.0 && u <= q / 268435456.0 < u + 1.0
    ensures 0.0 <= p / 268435456.0 - u < 21.76
  {
  }

  /** The computed value in terms of the rounded quantities: each division loses less than one. */
  lemma SumRounded(y: int, t: int, u: int)
    ensures var v := 0x1000_0000 - y / 2 + t / 24 - u / 720;
            var w := 268435456.0 - y as real / 2.0 + t as real / 24.0 - u as real / 720.0;
            w - 0.96 < v as real < w + 1.5
  {
    assert 2 * (y / 2) <= y <= 2 * (y / 2) + 1 && 24 * (t / 24) <= t <= 24 * (t / 24) + 23;
    assert 720 * (u / 720) <= u <= 720 * (u / 720) + 719;
  }

  /** The computed cosine of an angle in [0, pi/2] is less than 2.1 units of 2^-28 above the
      polynomial's exact value there and less than 1.3 below it. */
  lemma {:induction false} CloseToPolynomial(a: int)
    requires 0 <= a <= 421657428
    ensures var X := a as real * a as real / 268435456.0;
            Polynomial(X) - 1.3 < CosQ28(a) as real < Polynomial(X) + 2.1
  {
    FoldedInside(a);
    TaylorOfSquare(a);
    Squares(a, 421657428);
    NonNegProduct(a, a);
    SquareBelow(a);
    AsReals(a, a);
    hide FoldAngle, Taylor, Polynomial, OfSquare;
    OfSquareClose(a * a);
  }

  lemma OfSquareClose(s: int)
    requires 0 <= s && s / 0x1000_0000 <= 662348000 && s as real / 268435456.0 <= 662348000.0
    ensures var X := s as real / 268435456.0;
            Polynomial(X) - 1.3 < OfSquare(s / 0x1000_0000) as real < Polynomial(X) + 2.1
  {
    var X, y := s as real / 268435456.0, s / 0x1000_0000;
    var t := y * y / 0x1000_0000;
    var u := t * y / 0x1000_0000;
    assert OfSquare(y) == 0x1000_0000 - y / 2 + t / 24 - u / 720;
    hide Polynomial, OfSquare, Fourth, Sixth;
    NonNegative(s, 0x1000_0000);
    NonNegProduct(y, y);
    NonNegative(y * y, 0x1000_0000);
    FloorReal(s, 0x1000_0000);
    SquareFloor(X, y, t);
    CubeFloor(X, y, t, u);
    SumRounded(y, t, u);
    CombineErrors(X, y as real, t as real, u as real);
  }

  lemma SquareFloor(X: real, y: int, t: int)
    requires y >= 0 && t == y * y / 0x1000_0000 && y as real <= X < y as real + 1.0 && X <= 662348000.0
    ensures 0.0 <= Fourth(X) - t as real < 5.94 && Fourth(X) <= 2.4675 * X
  {
    FloorProduct(y, y);
    SquareRounded(X, y as real, t as real);
  }

  lemma CubeFloor(X: real, y: int, t: int, u: int)
    requires y >= 0 && t >= 0 && u == t * y / 0x1000_0000 && y as real <= X < y as real + 1.0 && X <= 662348000.0
    requires 0.0 <= Fourth(X) - t as real < 5.94 && Fourth(X) <= 2.4675 * X
    ensures 0.0 <= Sixth(X) - u as real < 21.76
  {
    hide Fourth;
    FloorProduct(t, y);
    ProductRounded(Fourth(X), t as real, X, y as real, u as real);
  }

  lemma FloorProduct(m: int, n: int)
    ensures var q := m * n / 0x1000_0000;
            q as real <= m as real * n as real / 268435456.0 < q as real + 1.0
  {
    FloorReal(m * n, 0x1000_0000);
    AsReals(m, n);
  }

  lemma AsReals(m: int, n: int)
    ensures (m * n) as real == m as real * n as real
  {
  }

  lemma SquareBelow(a: int)
    requires 0 <= a <= 421657428
    ensures a as real * a as real / 268435456.0 <= 662348000.0
  {
    BoundedProduct(a as real, a as real, 421657428.0, 421657428.0, 421657428.0 * 421657428.0);
  }

  lemma CombineErrors(X: real, y: real, t: real, u: real)
    requires y <= X < y + 1.0 && 0.0 <= Fourth(X) - t < 5.94 && 0.0 <= Sixth(X) - u < 21.76
    ensures var w := 268435456.0 - y / 2.0 + t / 24.0 - u / 720.0;
            Polynomial(X) - 0.25 < w <= Polynomial(X) + 0.54
  {
    hide Fourth, Sixth;
  }

  // ---- the detector's coefficients ----

  /** A coefficient is the cosine of the probe's phase step, doubled and rounded down to Q15. */
  lemma CoefficientExactly(f: int, fs: int)
    requires fs > 0 && f >= 0
    ensures exists angle: int ::
              && fs * angle <= 1686629714 * f < fs * (angle + 1)
              && 8192 * CoeffQ15(f, fs) <= 2 * CosQ28(angle) < 8192 * (CoeffQ15(f, fs) + 1)
  {
    NonNegProduct(1686629714, f);
    var angle := 1686629714 * f / fs;
    Euclid(1686629714 * f, fs);
    assert fs * (angle + 1) == fs * angle + fs;
    Euclid(2 * CosQ28(angle), 8192);
    hide CosQ28;
  }

  /** The probes lie evenly in the band: one at the centre, or the first and the last at its ends
      and the others at equal steps, rounded down. */
  lemma ProbesSpread(cfg: Config, k: nat, bins: nat)
    requires k < bins
    ensures var (c, b) := (cfg.toneFreqHz as int, cfg.toneBandHz as int);
            && (bins == 1 ==> ProbeFreq(cfg, k, bins) == c)
            && (bins > 1 && k == 0 ==> ProbeFreq(cfg, k, bins) == c - b)
            && (bins > 1 && k == bins - 1 ==> ProbeFreq(cfg, k, bins) == c + b)
            && (bins > 1 ==> (bins - 1) * (ProbeFreq(cfg, k, bins) - (c - b)) <= 2 * b * k
                             < (bins - 1) * (ProbeFreq(cfg, k, bins) - (c - b) + 1))
  {
    var b := cfg.toneBandHz as int;
    if bins > 1 {
      Euclid(2 * b * k, bins - 1);
      var q := 2 * b * k / (bins - 1);
      assert (bins - 1) * (q + 1) == (bins - 1) * q + (bins - 1);
      if k == bins - 1 { QuotientUnique(2 * b * k, bins - 1, 2 * b, 0); }
    }
  }

  /** One coefficient at 16 kHz, by the quotients in its computation. */
  lemma DefaultCoefficient(f: nat, a: nat, y: nat, t: nat, u: nat, q: nat)
    requires 16000 * a <= 1686629714 * f < 16000 * a + 16000 && a <= 421657428
    requires y * 0x1000_0000 <= a * a < y * 0x1000_0000 + 0x1000_0000
    requires t * 0x1000_0000 <= y * y < t * 0x1000_0000 + 0x1000_0000
    requires u * 0x1000_0000 <= t * y < u * 0x1000_0000 + 0x1000_0000
    requires 8192 * q <= 2 * (0x1000_0000 - y / 2 + t / 24 - u / 720) < 8192 * q + 8192
    ensures CoeffQ15(f, 16000) == q
  {
    QuotientUnique(1686629714 * f, 16000, a, 1686629714 * f - 16000 * a);
    QuotientUnique(a * a, 0x1000_0000, y, a * a - y * 0x1000_0000);
    FoldedInside(a);
    TaylorOfSquare(a);
    ValueAt(y, t, u);
    hide FoldAngle, Taylor, OfSquare;
    var v := 2 * (0x1000_0000 - y / 2 + t / 24 - u / 720);
    QuotientUnique(v, 8192, q, v - 8192 * q);
  }

  /** The shipped detector probes 2900, 3100 and 3300 Hz; its coefficients are within 14 units of
      2^-15 of 2 cos(2 pi f / 16000), that is of 27437.3, 22683.1 and 17789.1. */
  lemma DefaultCoefficients()
    ensures Coefficients(DEFAULT_CONFIG) == [27432, 22675, 17776]
    ensures forall k :: 0 <= k < 3 ==> ProbeFreq(DEFAULT_CONFIG, k, 3) == [2900, 3100, 3300][k]
  {
    hide CoeffQ15;
    DefaultCoefficient(2900, 305701635, 348141378, 451514195, 585581265, 27432);
    DefaultCoefficient(3100, 326784507, 397816725, 589557538, 873714122, 22675);
    DefaultCoefficient(3300, 347867378, 450803759, 757068504, 1271401820, 17776);
  }
}
