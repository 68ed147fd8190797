/** Polynomials as coefficient sequences (lowest first), division by a linear factor, and
    interpolation modulo a prime. Evaluation is exact; only comparisons are modular. */
module Polynomials {
  import opened Basics
  import opened ModArith

  type Poly = seq<int>

  function Eval(c: Poly, x: int): int {
    if c == [] then 0 else c[0] + x * Eval(c[1..], x)
  }

  /** Quotient of c by (x - a). */
  function Quot(c: Poly, a: int): (g: Poly)
    requires c != []
    ensures |g| == |c| - 1
  {
    if |c| == 1 then [] else [Eval(c[1..], a)] + Quot(c[1..], a)
  }

  /** (x - a) * g + r. */
  function MulLin(g: Poly, a: int, r: int): (c: Poly)
    ensures |c| == |g| + 1
  {
    if g == [] then [r] else [r - a * g[0]] + MulLin(g[1..], a, g[0])
  }

  lemma {:induction false} EvalMulLin(g: Poly, a: int, r: int, x: int)
    ensures Eval(MulLin(g, a, r), x) == r + (x - a) * Eval(g, x)
  {
    var c := MulLin(g, a, r);
    if g == [] {
      assert c[1..] == [];
      assert Eval(c, x) == r + x * 0;
    } else {
      EvalMulLin(g[1..], a, g[0], x);
      assert c[1..] == MulLin(g[1..], a, g[0]);
      var h := Eval(g[1..], x);
      calc {
        Eval(c, x);
        r - a * g[0] + x * (g[0] + (x - a) * h);
        { RearrangeLinear(r, a, g[0], x, h); }
        r + (x - a) * (g[0] + x * h);
      }
    }
  }

  lemma RearrangeLinear(r: int, a: int, g: int, x: int, h: int)
    ensures r - a * g + x * (g + (x - a) * h) == r + (x - a) * (g + x * h)
  {
    assert x * (g + (x - a) * h) == x * g + x * ((x - a) * h);
    assert (x - a) * (g + x * h) == (x - a) * g + (x - a) * (x * h);
    assert x * ((x - a) * h) == (x - a) * (x * h);
    assert (x - a) * g == x * g - a * g;
  }

  /** Division by a linear factor, exactly. */
  lemma {:induction false} Division(c: Poly, a: int)
    requires c != []
    ensures c == MulLin(Quot(c, a), a, Eval(c, a))
  {
    var g := Quot(c, a);
    if |c| == 1 {
      assert c[1..] == [];
    } else {
      Division(c[1..], a);
      assert g[0] == Eval(c[1..], a) && g[1..] == Quot(c[1..], a);
      assert c == [c[0]] + c[1..];
    }
  }

  lemma FactorTheorem(c: Poly, a: int, x: int)
    requires c != []
    ensures Eval(c, x) == Eval(c, a) + (x - a) * Eval(Quot(c, a), x)
  {
    Division(c, a);
    EvalMulLin(Quot(c, a), a, Eval(c, a), x);
  }

  ghost predicate Distinct(xs: seq<int>, p: int)
    requires p > 0
  {
    forall i, j :: 0 <= i < j < |xs| ==> !Cong(xs[i], xs[j], p)
  }

  ghost predicate IsZero(c: Poly, p: int)
    requires p > 0
  {
    forall i :: 0 <= i < |c| ==> Cong(c[i], 0, p)
  }

  lemma {:induction false} MulLinZero(g: Poly, a: int, r: int, p: int)
    requires p > 0 && IsZero(g, p) && Cong(r, 0, p)
    ensures IsZero(MulLin(g, a, r), p)
  {
    if g != [] {
      MulLinZero(g[1..], a, g[0], p);
      CongScale(g[0], 0, a, p);
      CongAdd(r, 0, a * g[0], a * 0, p);
    }
  }

  /** If (x - a) * v vanishes and x is not a, then v vanishes. */
  lemma CancelRoot(x: int, a: int, v: int, p: nat)
    requires Prime(p) && !Cong(x, a, p) && Cong((x - a) * v, 0, p)
    ensures Cong(v, 0, p)
  {
    DiffNonZero(x, a, p);
    if !Cong(v, 0, p) {
      NoZeroDivisors(x - a, v, p);
    }
  }

  /** Where c vanishes at a and at x, its quotient by (x - a) vanishes at x. */
  lemma QuotientRoot(c: Poly, a: int, x: int, p: nat)
    requires Prime(p) && c != [] && !Cong(x, a, p)
    requires Cong(Eval(c, x), 0, p) && Cong(Eval(c, a), 0, p)
    ensures Cong(Eval(Quot(c, a), x), 0, p)
  {
    hide Cong;
    FactorTheorem(c, a, x);
    CongAdd(Eval(c, x), 0, Eval(c, a), 0, p);
    CancelRoot(x, a, Eval(Quot(c, a), x), p);
  }

  ghost predicate VanishesAt(c: Poly, xs: seq<int>, p: int)
    requires p > 0
  {
    forall j :: 0 <= j < |xs| ==> Cong(Eval(c, xs[j]), 0, p)
  }

  /** Root count: a polynomial of length n that vanishes at n distinct points is zero. */
  lemma {:induction false} RootCount(c: Poly, xs: seq<int>, p: nat)
    requires Prime(p) && |c| == |xs| && Distinct(xs, p) && VanishesAt(c, xs, p)
    ensures IsZero(c, p)
    decreases |c|
  {
    hide Cong;
    if c != [] {
      var a, g := Last(xs), Quot(c, Last(xs));
      forall j | 0 <= j < |Front(xs)|
        ensures Cong(Eval(g, Front(xs)[j]), 0, p)
      {
        QuotientRoot(c, a, xs[j], p);
      }
      RootCount(g, Front(xs), p);
      MulLinZero(g, a, Eval(c, a), p);
      Division(c, a);
    }
  }

  // ---- interpolation ----

  function Shifted(xs: seq<int>, ys: seq<int>, a: int, r: int, p: nat): (zs: seq<int>)
    requires |xs| == |ys| && p > 0
    ensures |zs| == |xs|
  {
    seq(|xs|, j requires 0 <= j < |xs| => (ys[j] - r) * Inv(xs[j] - a, p))
  }

  /** A polynomial of length |xs| through the points (xs, ys). */
  function Interpolate(xs: seq<int>, ys: seq<int>, p: nat): (c: Poly)
    requires |xs| == |ys| && p > 0
    ensures |c| == |xs|
    decreases |xs|
  {
    if xs == [] then []
    else
      var a, r := Last(xs), Last(ys);
      MulLin(Interpolate(Front(xs), Shifted(Front(xs), Front(ys), a, r, p), p), a, r)
  }

  lemma ShiftedValue(x: int, y: int, a: int, r: int, v: int, p: nat)
    requires Prime(p) && !Cong(x, a, p) && Cong(v, (y - r) * Inv(x - a, p), p)
    ensures Cong(r + (x - a) * v, y, p)
  {
    hide Cong, Inv;
    var i := Inv(x - a, p);
    DiffNonZero(x, a, p);
    InvLaw(x - a, p);
    CongScale(v, (y - r) * i, x - a, p);
    assert (x - a) * ((y - r) * i) == (y - r) * ((x - a) * i);
    CongScale((x - a) * i, 1, y - r, p);
    CongTrans((x - a) * v, (y - r) * ((x - a) * i), (y - r) * 1, p);
    CongRefl(r, p);
    CongAdd(r, r, (x - a) * v, y - r, p);
  }

  lemma {:induction false} InterpolateHits(xs: seq<int>, ys: seq<int>, p: nat, j: nat)
    requires Prime(p) && |xs| == |ys| && Distinct(xs, p) && j < |xs|
    ensures Cong(Eval(Interpolate(xs, ys, p), xs[j]), ys[j], p)
    decreases |xs|
  {
    hide Cong;
    var a, r := Last(xs), Last(ys);
    var zs := Shifted(Front(xs), Front(ys), a, r, p);
    var g := Interpolate(Front(xs), zs, p);
    EvalMulLin(g, a, r, xs[j]);
    if j == |xs| - 1 {
      assert (xs[j] - a) * Eval(g, xs[j]) == 0;
      CongRefl(r, p);
    } else {
      InterpolateHits(Front(xs), zs, p, j);
      ShiftedValue(xs[j], ys[j], a, r, Eval(g, xs[j]), p);
    }
  }

  function Reduce(c: Poly, p: nat): (r: Poly)
    requires p > 0
    ensures |r| == |c| && forall i :: 0 <= i < |c| ==> 0 <= r[i] < p && r[i] == c[i] % p
  {
    seq(|c|, i requires 0 <= i < |c| => c[i] % p)
  }

  lemma {:induction false} EvalCong(c: Poly, d: Poly, x: int, p: int)
    requires p > 0 && |c| == |d| && forall i :: 0 <= i < |c| ==> Cong(c[i], d[i], p)
    ensures Cong(Eval(c, x), Eval(d, x), p)
  {
    if c != [] {
      EvalCong(c[1..], d[1..], x, p);
      CongScale(Eval(c[1..], x), Eval(d[1..], x), x, p);
      CongAdd(c[0], d[0], x * Eval(c[1..], x), x * Eval(d[1..], x), p);
    }
  }

  function Minus(c: Poly, d: Poly): (e: Poly)
    requires |c| == |d|
    ensures |e| == |c| && forall i :: 0 <= i < |c| ==> e[i] == c[i] - d[i]
  {
    seq(|c|, i requires 0 <= i < |c| => c[i] - d[i])
  }

  lemma {:induction false} EvalMinus(c: Poly, d: Poly, x: int)
    requires |c| == |d|
    ensures Eval(Minus(c, d), x) == Eval(c, x) - Eval(d, x)
  {
    if c != [] {
      EvalMinus(c[1..], d[1..], x);
      assert Minus(c, d)[1..] == Minus(c[1..], d[1..]);
      assert x * (Eval(c[1..], x) - Eval(d[1..], x)) == x * Eval(c[1..], x) - x * Eval(d[1..], x);
    }
  }

  lemma DifferenceVanishes(c: Poly, d: Poly, x: int, p: int)
    requires p > 0 && |c| == |d| && Cong(Eval(c, x), Eval(d, x), p)
    ensures Cong(Eval(Minus(c, d), x), 0, p)
  {
    EvalMinus(c, d, x);
  }

  lemma ZeroDifference(c: Poly, d: Poly, i: nat, p: int)
    requires p > 0 && |c| == |d| && i < |c| && 0 <= c[i] < p && 0 <= d[i] < p
    requires Cong(Minus(c, d)[i], 0, p)
    ensures c[i] == d[i]
  {
    CongSmall(c[i], d[i], p);
  }

  ghost predicate Agree(c: Poly, d: Poly, xs: seq<int>, p: int)
    requires p > 0
  {
    forall j :: 0 <= j < |xs| ==> Cong(Eval(c, xs[j]), Eval(d, xs[j]), p)
  }

  ghost predicate Reduced(c: Poly, p: int) {
    forall i :: 0 <= i < |c| ==> 0 <= c[i] < p
  }

  /** Two reduced polynomials of length n that agree at n distinct points are equal. */
  lemma AgreeingAreEqual(c: Poly, d: Poly, xs: seq<int>, p: nat)
    requires Prime(p) && |c| == |d| == |xs| && Distinct(xs, p)
    requires Reduced(c, p) && Reduced(d, p) && Agree(c, d, xs, p)
    ensures c == d
  {
    hide Cong;
    var e := Minus(c, d);
    forall j | 0 <= j < |xs|
      ensures Cong(Eval(e, xs[j]), 0, p)
    {
      DifferenceVanishes(c, d, xs[j], p);
    }
    RootCount(e, xs, p);
    forall i | 0 <= i < |c|
      ensures c[i] == d[i]
    {
      ZeroDifference(c, d, i, p);
    }
  }
}
