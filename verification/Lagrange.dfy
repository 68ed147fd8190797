/** Lagrange interpolation at 0: the weights the combiner computes recover the value at 0
    of every polynomial shorter than the number of points. */
module Lagrange {
  import opened Basics
  import opened ModArith
  import opened Polynomials

  function Remove(s: seq<int>, i: nat): (r: seq<int>)
    requires i < |s|
    ensures |r| == |s| - 1
    ensures forall j :: 0 <= j < |r| ==> r[j] == s[if j < i then j else j + 1]
  {
    s[..i] + s[i + 1..]
  }

  /** Where element j of s ends up once element i is removed. */
  function Skip(j: nat, i: nat): nat
    requires j != i
  {
    if j < i then j else j - 1
  }

  lemma RemoveTwice(s: seq<int>, i: nat, j: nat)
    requires i < |s| && j < |s| && i != j
    ensures Remove(Remove(s, j), Skip(i, j)) == Remove(Remove(s, i), Skip(j, i))
  {
    if i < j { RemovePair(s, i, j); } else { RemovePair(s, j, i); }
  }

  lemma RemovePair(s: seq<int>, i: nat, j: nat)
    requires i < j < |s|
    ensures Remove(Remove(s, j), i) == s[..i] + s[i + 1..j] + s[j + 1..] == Remove(Remove(s, i), j - 1)
  {
    var t, u := Remove(s, j), Remove(s, i);
    assert t[..i] == s[..i] && t[i + 1..] == s[i + 1..j] + s[j + 1..];
    assert u[..j - 1] == s[..i] + s[i + 1..j] && u[j..] == s[j + 1..];
  }

  /** Product of (0 - x). */
  function ProdNeg(s: seq<int>): int {
    if s == [] then 1 else ProdNeg(Front(s)) * -Last(s)
  }

  /** Product of (a - x). */
  function ProdDiff(a: int, s: seq<int>): int {
    if s == [] then 1 else ProdDiff(a, Front(s)) * (a - Last(s))
  }

  lemma RemoveFront(s: seq<int>, i: nat)
    requires i < |s| - 1
    ensures Remove(s, i) != [] && Front(Remove(s, i)) == Remove(Front(s), i) && Last(Remove(s, i)) == Last(s)
  {
  }

  lemma RemoveLast(s: seq<int>)
    requires s != []
    ensures Remove(s, |s| - 1) == Front(s)
  {
  }

  lemma {:induction false} ProdNegRemove(s: seq<int>, i: nat)
    requires i < |s|
    ensures ProdNeg(s) == ProdNeg(Remove(s, i)) * -s[i]
    decreases |s|
  {
    if i == |s| - 1 {
      RemoveLast(s);
    } else {
      ProdNegRemove(Front(s), i);
      RemoveFront(s, i);
      SwapFactors(ProdNeg(Remove(Front(s), i)), -s[i], -Last(s));
    }
  }

  lemma SwapFactors(a: int, b: int, c: int)
    ensures a * b * c == a * c * b
  {
    assert b * c == c * b;
    assert a * b * c == a * (b * c) && a * c * b == a * (c * b);
  }

  lemma {:induction false} ProdDiffRemove(a: int, s: seq<int>, i: nat)
    requires i < |s|
    ensures ProdDiff(a, s) == ProdDiff(a, Remove(s, i)) * (a - s[i])
    decreases |s|
  {
    if i == |s| - 1 {
      RemoveLast(s);
    } else {
      ProdDiffRemove(a, Front(s), i);
      RemoveFront(s, i);
      SwapFactors(ProdDiff(a, Remove(Front(s), i)), a - s[i], a - Last(s));
    }
  }

  /** No denominator vanishes. */
  lemma {:induction false} ProdDiffNonZero(a: int, s: seq<int>, p: nat)
    requires Prime(p) && forall m :: 0 <= m < |s| ==> !Cong(a, s[m], p)
    ensures !Cong(ProdDiff(a, s), 0, p)
    decreases |s|
  {
    if s == [] {
      CongModEq(1, 0, p);
    } else {
      ProdDiffNonZero(a, Front(s), p);
      DiffNonZero(a, Last(s), p);
      NoZeroDivisors(ProdDiff(a, Front(s)), a - Last(s), p);
    }
  }

  /** The weight of point j. */
  function Weight(xs: seq<int>, j: nat, p: nat): int
    requires j < |xs| && p > 0
  {
    ProdNeg(Remove(xs, j)) * Inv(ProdDiff(xs[j], Remove(xs, j)), p)
  }

  lemma DistinctPair(xs: seq<int>, i: nat, j: nat, p: int)
    requires p > 0 && Distinct(xs, p) && i < |xs| && j < |xs| && i != j
    ensures !Cong(xs[i], xs[j], p)
  {
    if i > j && Cong(xs[i], xs[j], p) { CongSym(xs[i], xs[j], p); }
  }

  lemma DistinctRemove(xs: seq<int>, i: nat, p: int)
    requires p > 0 && Distinct(xs, p) && i < |xs|
    ensures Distinct(Remove(xs, i), p)
  {
  }

  lemma DenominatorNonZero(xs: seq<int>, j: nat, p: nat)
    requires Prime(p) && Distinct(xs, p) && j < |xs|
    ensures !Cong(ProdDiff(xs[j], Remove(xs, j)), 0, p)
  {
    var others := Remove(xs, j);
    forall m | 0 <= m < |others|
      ensures !Cong(xs[j], others[m], p)
    {
      DistinctPair(xs, j, if m < j then m else m + 1, p);
    }
    ProdDiffNonZero(xs[j], others, p);
  }

  lemma InverseOfProduct(d: int, e: int, p: nat)
    requires Prime(p) && !Cong(d, 0, p) && !Cong(e, 0, p)
    ensures Cong(Inv(d * e, p) * e, Inv(d, p), p)
  {
    hide Cong, Inv;
    NoZeroDivisors(d, e, p);
    InvLaw(d * e, p);
    InvLaw(d, p);
    var i := Inv(d * e, p);
    assert d * (i * e) == (d * e) * i;
    CongSym(d * Inv(d, p), 1, p);
    CongTrans(d * (i * e), 1, d * Inv(d, p), p);
    Cancel(i * e, Inv(d, p), d, p);
  }

  /** Both weights of point j, before and after dropping point i, in common parts. */
  lemma WeightParts(xs: seq<int>, i: nat, j: nat, p: nat) returns (n: int, d: int)
    requires p > 0 && i < |xs| && j < |xs| && i != j
    ensures Skip(j, i) < |Remove(xs, i)| && Remove(xs, i)[Skip(j, i)] == xs[j]
    ensures d == ProdDiff(xs[j], Remove(Remove(xs, i), Skip(j, i)))
    ensures Weight(xs, j, p) == n * -xs[i] * Inv(d * (xs[j] - xs[i]), p)
    ensures Weight(Remove(xs, i), Skip(j, i), p) == n * Inv(d, p)
  {
    var o := Remove(xs, j);
    RemoveTwice(xs, i, j);
    ProdNegRemove(o, Skip(i, j));
    ProdDiffRemove(xs[j], o, Skip(i, j));
    n := ProdNeg(Remove(o, Skip(i, j)));
    d := ProdDiff(xs[j], Remove(o, Skip(i, j)));
  }

  lemma WeightAlgebra(e: int, n: int, x: int, i: int, i': int, p: int)
    requires p > 0 && Cong(i * e, i', p)
    ensures Cong(e * (n * x * i), x * (n * i'), p)
  {
    hide Cong;
    CongScale(i * e, i', x * n, p);
    assert e * (n * x * i) == (x * n) * (i * e) by {
      assert n * x == x * n;
      assert (n * x * i) * e == (n * x) * (i * e);
    }
    assert (x * n) * i' == x * (n * i');
  }

  /** Dropping point i multiplies the weight of point j by (x_j - x_i) / -x_i. */
  lemma WeightStep(xs: seq<int>, i: nat, j: nat, p: nat)
    requires Prime(p) && Distinct(xs, p) && i < |xs| && j < |xs| && i != j
    ensures Skip(j, i) < |Remove(xs, i)| && Remove(xs, i)[Skip(j, i)] == xs[j]
    ensures Cong((xs[j] - xs[i]) * Weight(xs, j, p), -xs[i] * Weight(Remove(xs, i), Skip(j, i), p), p)
  {
    hide Cong, Prime, Distinct, Inv, Weight, ProdDiff, Remove;
    PrimePositive(p);
    var n, d := WeightParts(xs, i, j, p);
    var e := xs[j] - xs[i];
    DistinctPair(xs, j, i, p);
    DiffNonZero(xs[j], xs[i], p);
    DistinctRemove(xs, i, p);
    DenominatorNonZero(Remove(xs, i), Skip(j, i), p);
    InverseOfProduct(d, e, p);
    WeightAlgebra(e, n, -xs[i], Inv(d * e, p), Inv(d, p), p);
  }

  // ---- sums ----

  /** A product kept folded, so that proofs that only pass it on stay linear. */
  function MulAdd(a: int, b: int, c: int): int {
    a * b + c
  }

  function Sum(s: seq<int>): int {
    if s == [] then 0 else Sum(Front(s)) + Last(s)
  }

  lemma {:induction false} SumRemove(s: seq<int>, i: nat)
    requires i < |s|
    ensures Sum(s) == Sum(Remove(s, i)) + s[i]
    decreases |s|
  {
    if i == |s| - 1 {
      RemoveLast(s);
    } else {
      SumRemove(Front(s), i);
      RemoveFront(s, i);
    }
  }

  lemma {:induction false} SumCong(s: seq<int>, t: seq<int>, p: int)
    requires p > 0 && |s| == |t| && forall j :: 0 <= j < |s| ==> Cong(s[j], t[j], p)
    ensures Cong(Sum(s), Sum(t), p)
    decreases |s|
  {
    if s != [] {
      SumCong(Front(s), Front(t), p);
      CongAdd(Sum(Front(s)), Sum(Front(t)), Last(s), Last(t), p);
    }
  }

  lemma {:induction false} SumScale(s: seq<int>, t: seq<int>, c: int)
    requires |s| == |t| && forall j :: 0 <= j < |s| ==> t[j] == c * s[j]
    ensures Sum(t) == c * Sum(s)
    decreases |s|
  {
    if s != [] {
      SumScale(Front(s), Front(t), c);
      assert c * (Sum(Front(s)) + Last(s)) == c * Sum(Front(s)) + c * Last(s);
    }
  }

  lemma {:induction false} SumPlus(s: seq<int>, t: seq<int>, u: seq<int>)
    requires |s| == |t| == |u| && forall j :: 0 <= j < |s| ==> u[j] == s[j] + t[j]
    ensures Sum(u) == Sum(s) + Sum(t)
    decreases |s|
  {
    if s != [] {
      SumPlus(Front(s), Front(t), Front(u));
    }
  }

  /** The weighted values. */
  function Terms(xs: seq<int>, ys: seq<int>, p: nat): (ts: seq<int>)
    requires |xs| == |ys| && p > 0
    ensures |ts| == |xs| && forall j :: 0 <= j < |ts| ==> ts[j] == ys[j] * Weight(xs, j, p)
  {
    seq(|xs|, j requires 0 <= j < |xs| => ys[j] * Weight(xs, j, p))
  }

  function Values(c: Poly, xs: seq<int>): (ys: seq<int>)
    ensures |ys| == |xs| && forall j :: 0 <= j < |xs| ==> ys[j] == Eval(c, xs[j])
  {
    seq(|xs|, j requires 0 <= j < |xs| => Eval(c, xs[j]))
  }

  /** Values of (x - x_i) * g. */
  function ShiftedValues(g: Poly, xs: seq<int>, a: int): (ys: seq<int>)
    ensures |ys| == |xs| && forall j :: 0 <= j < |xs| ==> ys[j] == (xs[j] - a) * Eval(g, xs[j])
  {
    seq(|xs|, j requires 0 <= j < |xs| => (xs[j] - a) * Eval(g, xs[j]))
  }

  lemma TermAlgebra(e: int, v: int, w: int, x: int, w': int, p: int)
    requires p > 0 && Cong(e * w, x * w', p)
    ensures Cong(e * v * w, x * (v * w'), p)
  {
    hide Cong;
    CongScale(e * w, x * w', v, p);
    assert v * (e * w) == e * v * w by { assert v * e == e * v; }
    assert v * (x * w') == x * (v * w') by { assert v * x == x * v; }
  }

  /** The terms left once point i has dropped out, each scaled by -x_i. */
  function ScaledTerms(xs: seq<int>, i: nat, g: Poly, p: nat): (us: seq<int>)
    requires i < |xs| && p > 0
    ensures |us| == |xs| - 1
    ensures forall j :: 0 <= j < |us| ==> us[j] == -xs[i] * Terms(Remove(xs, i), Values(g, Remove(xs, i)), p)[j]
  {
    var ts := Terms(Remove(xs, i), Values(g, Remove(xs, i)), p);
    seq(|ts|, j requires 0 <= j < |ts| => -xs[i] * ts[j])
  }

  lemma TermStep(xs: seq<int>, i: nat, j: nat, g: Poly, p: nat)
    requires Prime(p) && Distinct(xs, p) && i < |xs| && j < |xs| && i != j
    ensures Skip(j, i) < |xs| - 1
    ensures Cong(Terms(xs, ShiftedValues(g, xs, xs[i]), p)[j], ScaledTerms(xs, i, g, p)[Skip(j, i)], p)
  {
    hide Cong, Weight, Distinct;
    WeightStep(xs, i, j, p);
    var w, w' := Weight(xs, j, p), Weight(Remove(xs, i), Skip(j, i), p);
    TermAlgebra(xs[j] - xs[i], Eval(g, xs[j]), w, -xs[i], w', p);
  }

  lemma OwnTermVanishes(xs: seq<int>, i: nat, g: Poly, p: nat)
    requires p > 0 && i < |xs|
    ensures Terms(xs, ShiftedValues(g, xs, xs[i]), p)[i] == 0
  {
    assert (xs[i] - xs[i]) * Eval(g, xs[i]) == 0;
  }

  /** Point i drops out of the weighted sum of (x - x_i) * g. */
  lemma DropPoint(xs: seq<int>, i: nat, g: Poly, p: nat)
    requires Prime(p) && Distinct(xs, p) && i < |xs|
    ensures Cong(Sum(Terms(xs, ShiftedValues(g, xs, xs[i]), p)),
                 MulAdd(-xs[i], Sum(Terms(Remove(xs, i), Values(g, Remove(xs, i)), p)), 0), p)
  {
    hide Cong, Weight, Distinct, Prime, Sum, Eval;
    PrimePositive(p);
    var ts, us := Terms(xs, ShiftedValues(g, xs, xs[i]), p), ScaledTerms(xs, i, g, p);
    SumRemove(ts, i);
    OwnTermVanishes(xs, i, g, p);
    SumScale(Terms(Remove(xs, i), Values(g, Remove(xs, i)), p), us, -xs[i]);
    forall j | 0 <= j < |us|
      ensures Cong(Remove(ts, i)[j], us[j], p)
    {
      TermStep(xs, i, if j < i then j else j + 1, g, p);
    }
    SumCong(Remove(ts, i), us, p);
  }

  lemma Distribute(r: int, z: int, w: int)
    ensures (r + z) * w == r * (1 * w) + z * w
  {
  }

  /** The weighted sum is linear. */
  lemma SplitSum(xs: seq<int>, ys: seq<int>, ones: seq<int>, zs: seq<int>, r: int, p: nat)
    requires p > 0 && |xs| == |ys| == |ones| == |zs|
    requires forall j :: 0 <= j < |xs| ==> ones[j] == 1 && ys[j] == r + zs[j]
    ensures Sum(Terms(xs, ys, p)) == MulAdd(r, Sum(Terms(xs, ones, p)), Sum(Terms(xs, zs, p)))
  {
    hide Weight, Sum;
    var os, ts, us := Terms(xs, ones, p), Terms(xs, zs, p), Terms(xs, ys, p);
    var scaled := seq(|os|, j requires 0 <= j < |os| => r * os[j]);
    SumScale(os, scaled, r);
    forall j | 0 <= j < |xs|
      ensures us[j] == scaled[j] + ts[j]
    {
      Distribute(r, zs[j], Weight(xs, j, p));
    }
    SumPlus(scaled, ts, us);
  }

  function Ones(n: nat): (s: seq<int>)
    ensures |s| == n && forall j :: 0 <= j < n ==> s[j] == 1
  {
    seq(n, _ => 1)
  }

  lemma InverseOfOne(p: nat)
    requires Prime(p)
    ensures Cong(Inv(1, p), 1, p)
  {
    CongModEq(1, 0, p);
    InvLaw(1, p);
  }

  lemma ConstantOne(x: int)
    ensures Eval([1], x) == 1
  {
    assert [1][1..] == [];
    assert Eval([1], x) == 1 + x * 0;
  }

  lemma SolveForSum(x: int, y: int, s: int, t: int, u: int, p: nat)
    requires Prime(p) && !Cong(y, x, p)
    requires t == MulAdd(y - x, s, u) && Cong(t, -x, p) && Cong(u, -y, p)
    ensures Cong(s, 1, p)
  {
    hide Cong;
    CongAdd(t, -x, u, -y, p);
    DiffNonZero(y, x, p);
    assert (y - x) * 1 == -x - -y;
    Cancel(s, 1, y - x, p);
  }

  lemma OnePoint(xs: seq<int>, p: nat)
    requires Prime(p) && |xs| == 1
    ensures Cong(Sum(Terms(xs, Ones(|xs|), p)), 1, p)
  {
    var ts := Terms(xs, Ones(1), p);
    assert Remove(xs, 0) == [] && Front(ts) == [];
    InverseOfOne(p);
    assert ts[0] == 1 * (1 * Inv(1, p));
  }

  /** x - x_0 and x - x_1 differ by the constant x_1 - x_0. */
  lemma TwoShifts(xs: seq<int>, p: nat)
    requires p > 0 && |xs| > 1
    ensures Sum(Terms(xs, ShiftedValues([1], xs, xs[0]), p))
         == MulAdd(xs[1] - xs[0], Sum(Terms(xs, Ones(|xs|), p)), Sum(Terms(xs, ShiftedValues([1], xs, xs[1]), p)))
  {
    hide Weight, Sum;
    var zs0, zs1 := ShiftedValues([1], xs, xs[0]), ShiftedValues([1], xs, xs[1]);
    forall j | 0 <= j < |xs|
      ensures zs0[j] == (xs[1] - xs[0]) + zs1[j]
    {
      ConstantOne(xs[j]);
    }
    SplitSum(xs, zs0, Ones(|xs|), zs1, xs[1] - xs[0], p);
  }

  lemma FromTwoShifts(xs: seq<int>, p: nat)
    requires Prime(p) && Distinct(xs, p) && |xs| > 1
    requires Cong(Sum(Terms(xs, ShiftedValues([1], xs, xs[0]), p)), -xs[0], p)
    requires Cong(Sum(Terms(xs, ShiftedValues([1], xs, xs[1]), p)), -xs[1], p)
    ensures Cong(Sum(Terms(xs, Ones(|xs|), p)), 1, p)
  {
    hide Cong, Sum, Terms, ShiftedValues, Ones, MulAdd;
    TwoShifts(xs, p);
    DistinctPair(xs, 1, 0, p);
    SolveForSum(xs[0], xs[1], Sum(Terms(xs, Ones(|xs|), p)), Sum(Terms(xs, ShiftedValues([1], xs, xs[0]), p)),
                Sum(Terms(xs, ShiftedValues([1], xs, xs[1]), p)), p);
  }

  lemma {:induction false} WeightsSumToOne(xs: seq<int>, p: nat)
    requires Prime(p) && Distinct(xs, p) && xs != []
    ensures Cong(Sum(Terms(xs, Ones(|xs|), p)), 1, p)
    decreases |xs|, 0
  {
    hide *;
    PrimePositive(p);
    if |xs| == 1 {
      OnePoint(xs, p);
    } else {
      LinearValue(xs, 0, p);
      LinearValue(xs, 1, p);
      FromTwoShifts(xs, p);
    }
  }

  /** The weighted sum of x - x_i is -x_i. */
  lemma {:induction false} LinearValue(xs: seq<int>, i: nat, p: nat)
    requires Prime(p) && Distinct(xs, p) && i < |xs| && |xs| > 1
    ensures Cong(Sum(Terms(xs, ShiftedValues([1], xs, xs[i]), p)), -xs[i], p)
    decreases |xs| - 1, 2
  {
    hide Cong, Prime, Distinct, Sum, Terms, Values, ShiftedValues, Remove, Eval, MulAdd;
    PrimePositive(p);
    var rest := Remove(xs, i);
    DropPoint(xs, i, [1], p);
    DistinctRemove(xs, i, p);
    LagrangeAtZero(rest, [1], p);
    ConstantOne(0);
    ScaledOne(Sum(Terms(xs, ShiftedValues([1], xs, xs[i]), p)), Sum(Terms(rest, Values([1], rest), p)), -xs[i], p);
  }

  lemma ScaledOne(t: int, s: int, x: int, p: int)
    requires p > 0 && Cong(t, MulAdd(x, s, 0), p) && Cong(s, 1, p)
    ensures Cong(t, x, p)
  {
    hide Cong;
    CongScale(s, 1, x, p);
    CongTrans(t, x * s, x * 1, p);
  }

  /** The weighted sum, split by division at the last point. */
  lemma DivideAtLast(xs: seq<int>, c: Poly, p: nat)
    requires p > 0 && xs != [] && c != []
    ensures Sum(Terms(xs, Values(c, xs), p))
         == MulAdd(Eval(c, Last(xs)), Sum(Terms(xs, Ones(|xs|), p)),
                   Sum(Terms(xs, ShiftedValues(Quot(c, Last(xs)), xs, Last(xs)), p)))
  {
    hide Weight, Sum, Eval, Quot, Terms, Values, ShiftedValues;
    var a := Last(xs);
    var zs := ShiftedValues(Quot(c, a), xs, a);
    forall j | 0 <= j < |xs|
      ensures Values(c, xs)[j] == Eval(c, a) + zs[j]
    {
      FactorTheorem(c, a, xs[j]);
    }
    SplitSum(xs, Values(c, xs), Ones(|xs|), zs, Eval(c, a), p);
  }

  lemma ValueAtZero(c: Poly, a: int)
    requires c != []
    ensures Eval(c, 0) == MulAdd(-a, Eval(Quot(c, a), 0), Eval(c, a))
  {
    FactorTheorem(c, a, 0);
  }

  /** Reconstruction: the weighted values of any polynomial no longer than the number of
      points add up to its value at 0. */
  lemma {:induction false} LagrangeAtZero(xs: seq<int>, c: Poly, p: nat)
    requires Prime(p) && Distinct(xs, p) && |c| <= |xs|
    ensures Cong(Sum(Terms(xs, Values(c, xs), p)), Eval(c, 0), p)
    decreases |xs|, 1
  {
    hide Cong, Prime, Distinct, Sum, Eval, Quot, Terms, Values, ShiftedValues, Remove, MulAdd;
    PrimePositive(p);
    if c == [] {
      EmptyValues(xs, p);
    } else {
      var a, g, rest := Last(xs), Quot(c, Last(xs)), Remove(xs, |xs| - 1);
      DivideAtLast(xs, c, p);
      WeightsSumToOne(xs, p);
      DropPoint(xs, |xs| - 1, g, p);
      DistinctRemove(xs, |xs| - 1, p);
      LagrangeAtZero(rest, g, p);
      ValueAtZero(c, a);
      Assemble(Eval(c, a), Sum(Terms(xs, Ones(|xs|), p)), a, Sum(Terms(rest, Values(g, rest), p)), Eval(g, 0),
               Sum(Terms(xs, ShiftedValues(g, xs, a), p)), p);
    }
  }

  lemma EmptyValues(xs: seq<int>, p: nat)
    requires p > 0
    ensures Cong(Sum(Terms(xs, Values([], xs), p)), Eval([], 0), p)
  {
    hide Weight, Sum;
    var ts := Terms(xs, Values([], xs), p);
    forall j | 0 <= j < |ts| ensures ts[j] == 0 * 0 {
      assert ts[j] == 0 * Weight(xs, j, p);
    }
    SumScale(ts, ts, 0);
  }

  lemma Assemble(r: int, s: int, a: int, t: int, v: int, u: int, p: nat)
    requires p > 0 && Cong(s, 1, p) && Cong(t, v, p) && Cong(u, MulAdd(-a, t, 0), p)
    ensures Cong(MulAdd(r, s, u), MulAdd(-a, v, r), p)
  {
    hide Cong;
    CongScale(s, 1, r, p);
    CongScale(t, v, -a, p);
    CongTrans(u, -a * t, -a * v, p);
    CongAdd(r * s, r * 1, u, -a * v, p);
  }
}
