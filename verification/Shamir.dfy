/** Shamir secret sharing modulo an arbitrary prime: splitting by Horner evaluation, combining
    by Lagrange interpolation at 0, and the threshold opening around them. */
module Shamir {
  import opened Basics
  import opened BigEndian
  import opened ModArith
  import opened Polynomials
  import opened Lagrange

  datatype Share = Share(X: int, Y: Bytes)

  /** The shares of the polynomial with coefficients c. */
  function SharesOf(c: Poly, n: nat, p: nat): (shares: seq<Share>)
    requires p > 0
    ensures |shares| == n
    ensures forall i :: 0 <= i < n ==> shares[i] == Share(i + 1, ToBytes(Eval(c, i + 1) % p))
  {
    seq(n, i requires 0 <= i < n => Share(i + 1, ToBytes(Eval(c, i + 1) % p)))
  }

  predicate SplitAccepts(secret: Bytes, k: int, n: int, p: nat) {
    2 <= k <= n <= 255 && FromBytes(secret) < p
  }

  lemma HornerStep(c: Poly, i: nat, x: int, y: int, p: nat)
    requires p > 0 && i < |c| && y == Eval(c[i + 1..], x) % p
    ensures (y * x + c[i]) % p == Eval(c[i..], x) % p
  {
    StepMod(y, Eval(c[i + 1..], x), x, c[i], p);
    assert c[i..][1..] == c[i + 1..];
  }

  /** Horner evaluation of the polynomial at x, mod p. */
  method Horner(coeffs: array<int>, x: int, p: nat) returns (y: nat)
    requires p > 0 && coeffs.Length > 0 && 0 <= coeffs[coeffs.Length - 1] < p
    ensures y == Eval(coeffs[..], x) % p
  {
    var k := coeffs.Length;
    ghost var c := coeffs[..];
    y := coeffs[k - 1];
    assert c[k - 1..][1..] == [];
    assert Eval(c[k - 1..], x) == c[k - 1] + x * 0;
    SmallMod(y, p);
    var i := k - 2;
    while i >= 0
      invariant -1 <= i <= k - 2
      invariant coeffs[..] == c
      invariant y == Eval(c[i + 1..], x) % p
    {
      HornerStep(c, i, x, y, p);
      y := (y * x + coeffs[i]) % p;
      i := i - 1;
    }
    assert c[0..] == c;
  }

  method Deal(coeffs: array<int>, n: nat, p: nat) returns (shares: array<Share>)
    requires p > 0 && coeffs.Length > 0 && 0 <= coeffs[coeffs.Length - 1] < p
    ensures shares[..] == SharesOf(coeffs[..], n, p)
  {
    shares := new Share[n](_ => Share(0, []));
    for idx := 1 to n + 1
      invariant forall i :: 0 <= i < idx - 1 ==> shares[i] == SharesOf(coeffs[..], n, p)[i]
    {
      var y := Horner(coeffs, idx, p);
      shares[idx - 1] := Share(idx, ToBytes(y));
    }
  }

  /** `random` holds the k-1 field elements drawn for the upper coefficients. */
  method ShamirSplit(secret: Bytes, k: int, n: int, random: seq<int>, p: nat) returns (r: Result<seq<Share>>)
    requires p > 1
    requires k >= 1 ==> |random| == k - 1
    requires forall i :: 0 <= i < |random| ==> 0 <= random[i] < p
    ensures r == if SplitAccepts(secret, k, n, p)
                 then Ok(SharesOf([FromBytes(secret) as int] + random, n, p)) else Err
    ensures r.Ok? <==> 2 <= k <= n <= 255 && FromBytes(secret) < p
    ensures r.Ok? ==> |r.value| == n && forall i :: 0 <= i < n ==> r.value[i].X == i + 1
  {
    if k < 2 || n < k || n > 255 { return Err; }
    var s := FromBytes(secret);
    if s >= p { return Err; }
    var coeffs := new int[k];
    coeffs[0] := s;
    for i := 1 to k
      invariant coeffs[0] == s
      invariant forall j :: 1 <= j < i ==> coeffs[j] == random[j - 1]
    {
      coeffs[i] := random[i - 1];
    }
    assert coeffs[..] == [s as int] + random;
    var shares := Deal(coeffs, n, p);
    return Ok(shares[..]);
  }

  // ---- combining ----

  function Xs(shares: seq<Share>): (xs: seq<int>)
    ensures |xs| == |shares| && forall i :: 0 <= i < |xs| ==> xs[i] == shares[i].X
  {
    seq(|shares|, i requires 0 <= i < |shares| => shares[i].X)
  }

  function Ys(shares: seq<Share>): (ys: seq<nat>)
    ensures |ys| == |shares| && forall i :: 0 <= i < |ys| ==> ys[i] == FromBytes(shares[i].Y)
  {
    seq(|shares|, i requires 0 <= i < |shares| => FromBytes(shares[i].Y))
  }

  ghost predicate DistinctX(shares: seq<Share>) {
    forall i, j :: 0 <= i < j < |shares| ==> shares[i].X != shares[j].X
  }

  ghost predicate WellFormedShares(shares: seq<Share>) {
    |shares| >= 2 && (forall i :: 0 <= i < |shares| ==> shares[i].X >= 1) && DistinctX(shares)
  }

  /** The denominator of share j. */
  function Denominator(xs: seq<int>, j: nat): int
    requires j < |xs|
  {
    ProdDiff(xs[j], Remove(xs, j))
  }

  ghost predicate Invertible(xs: seq<int>, j: nat, p: nat)
    requires p > 0
  {
    j < |xs| && ModInverse(Denominator(xs, j), p).Some?
  }

  ghost function Combined(shares: seq<Share>, p: nat): Result<Bytes>
    requires p > 0
  {
    if !WellFormedShares(shares) then Err
    else if forall j :: 0 <= j < |shares| ==> Invertible(Xs(shares), j, p)
    then Ok(ToBytes(Sum(Terms(Xs(shares), Ys(shares), p)) % p))
    else Err
  }

  method CheckShares(shares: seq<Share>) returns (ok: bool)
    ensures ok == WellFormedShares(shares)
  {
    if |shares| < 2 { return false; }
    var seen: set<int> := {};
    for i := 0 to |shares|
      invariant seen == set m | 0 <= m < i :: shares[m].X
      invariant forall m :: 0 <= m < i ==> shares[m].X >= 1
      invariant forall m, m' :: 0 <= m < m' < i ==> shares[m].X != shares[m'].X
    {
      if shares[i].X <= 0 || shares[i].X in seen { return false; }
      seen := seen + {shares[i].X};
    }
    return true;
  }

  /** xs[..m] without element j. */
  function Others(xs: seq<int>, j: nat, m: nat): seq<int>
    requires j < |xs| && m <= |xs|
  {
    if j < m then Remove(xs[..m], j) else xs[..m]
  }

  lemma OthersStep(xs: seq<int>, j: nat, m: nat)
    requires j < |xs| && m < |xs|
    ensures m == j ==> Others(xs, j, m + 1) == Others(xs, j, m)
    ensures m != j ==> Others(xs, j, m + 1) == Others(xs, j, m) + [xs[m]]
  {
    var front, x := xs[..m], xs[m];
    assert xs[..m + 1] == front + [x];
    if m == j {
      assert Remove(front + [x], j) == front;
    } else if j < m {
      assert Remove(front + [x], j) == Remove(front, j) + [x];
    }
  }

  lemma ProductsStep(s: seq<int>, x: int, a: int, num: int, den: int, p: nat)
    requires p > 0 && num == ProdNeg(s) % p && den == ProdDiff(a, s) % p
    ensures (num * -x) % p == ProdNeg(s + [x]) % p
    ensures (den * (a - x)) % p == ProdDiff(a, s + [x]) % p
  {
    assert Front(s + [x]) == s;
    StepMod(num, ProdNeg(s), -x, 0, p);
    StepMod(den, ProdDiff(a, s), a - x, 0, p);
  }

  /** Numerator and denominator of share j, both reduced. */
  method Products(xs: seq<int>, j: nat, p: nat) returns (num: nat, den: nat)
    requires p > 1 && j < |xs|
    ensures num == ProdNeg(Remove(xs, j)) % p && den == Denominator(xs, j) % p
  {
    num, den := 1, 1;
    SmallMod(1, p);
    for m := 0 to |xs|
      invariant num == ProdNeg(Others(xs, j, m)) % p
      invariant den == ProdDiff(xs[j], Others(xs, j, m)) % p
    {
      OthersStep(xs, j, m);
      if m != j {
        ProductsStep(Others(xs, j, m), xs[m], xs[j], num, den, p);
        num := (num * -xs[m]) % p;
        den := (den * (xs[j] - xs[m])) % p;
      }
    }
    assert xs[..|xs|] == xs;
  }

  lemma TermMod(y: int, n: int, i: int, num: int, p: nat)
    requires p > 0 && num == n % p
    ensures (((y * num) % p) * i) % p == (y * (n * i)) % p
  {
    assert y * num == num * y;
    StepMod(num, n, y, 0, p);
    StepMod((y * num) % p, n * y, i, 0, p);
    assert (n * y) * i == y * (n * i) by { assert n * y == y * n; }
  }

  lemma InverseOfResidue(a: int, p: nat)
    requires p > 0
    ensures ModInverse(a % p, p) == ModInverse(a, p)
  {
    SmallMod(a % p, p);
  }

  lemma SumStep(ts: seq<int>, j: nat, acc: int, term: int, p: nat)
    requires p > 0 && j < |ts| && acc == Sum(ts[..j]) % p && term == ts[j] % p
    ensures (acc + term) % p == Sum(ts[..j + 1]) % p
  {
    assert Front(ts[..j + 1]) == ts[..j];
    CongMod(Sum(ts[..j]), p);
    CongMod(ts[j], p);
    CongAdd(acc, Sum(ts[..j]), term, ts[j], p);
    CongModEq(acc + term, Sum(ts[..j]) + ts[j], p);
  }

  /** The reduced Lagrange term of share j, if its denominator is invertible. */
  method Term(y: nat, xs: seq<int>, j: nat, p: nat) returns (t: Option<nat>)
    requires p > 1 && j < |xs|
    ensures t.Some? <==> Invertible(xs, j, p)
    ensures t.Some? ==> t.value == (y * Weight(xs, j, p)) % p
  {
    var num, den := Products(xs, j, p);
    InverseOfResidue(Denominator(xs, j), p);
    var denInv := ModInverse(den, p);
    if denInv.None? { return None; }
    var term := (y * num) % p;
    term := (term * denInv.value) % p;
    TermMod(y, ProdNeg(Remove(xs, j)), denInv.value, num, p);
    return Some(term);
  }

  method SumOfTerms(xs: seq<int>, ys: seq<nat>, p: nat) returns (sum: Option<nat>)
    requires p > 1 && |xs| == |ys|
    ensures sum.Some? <==> forall j :: 0 <= j < |xs| ==> Invertible(xs, j, p)
    ensures sum.Some? ==> sum.value == Sum(Terms(xs, ys, p)) % p
  {
    hide Weight, Invertible, Terms;
    var secret := 0;
    ghost var ts := Terms(xs, ys, p);
    SmallMod(0, p);
    for j := 0 to |xs|
      invariant secret == Sum(ts[..j]) % p
      invariant forall i :: 0 <= i < j ==> Invertible(xs, i, p)
    {
      var term := Term(ys[j], xs, j, p);
      if term.None? { return None; }
      SumStep(ts, j, secret, term.value, p);
      secret := (secret + term.value) % p;
    }
    assert ts[..|xs|] == ts;
    return Some(secret);
  }

  method ShamirCombine(shares: seq<Share>, p: nat) returns (r: Result<Bytes>)
    requires p > 1
    ensures r == Combined(shares, p)
    ensures |shares| < 2 ==> r == Err
    ensures (exists i :: 0 <= i < |shares| && shares[i].X <= 0) ==> r == Err
    ensures (exists i, j :: 0 <= i < j < |shares| && shares[i].X == shares[j].X) ==> r == Err
  {
    var ok := CheckShares(shares);
    if !ok { return Err; }
    var sum := SumOfTerms(Xs(shares), Ys(shares), p);
    if sum.None? { return Err; }
    return Ok(ToBytes(sum.value));
  }

  // ---- reconstruction ----

  /** Every selected share was dealt from coefficients c. */
  ghost predicate DealtFrom(sel: seq<Share>, c: Poly, n: nat, p: nat)
    requires p > 0
  {
    forall i :: 0 <= i < |sel| ==> sel[i] in SharesOf(c, n, p)
  }

  lemma DealtShare(sel: seq<Share>, c: Poly, n: nat, p: nat, i: nat)
    requires p > 0 && DealtFrom(sel, c, n, p) && i < |sel|
    ensures 1 <= Xs(sel)[i] <= n && Ys(sel)[i] == Eval(c, Xs(sel)[i]) % p
  {
    FromToBytes(Eval(c, sel[i].X) % p);
  }

  lemma DealtDistinct(sel: seq<Share>, c: Poly, n: nat, p: nat)
    requires p > n && DealtFrom(sel, c, n, p) && DistinctX(sel)
    ensures Distinct(Xs(sel), p)
  {
    forall i, j | 0 <= i < j < |sel|
      ensures !Cong(Xs(sel)[i], Xs(sel)[j], p)
    {
      DealtShare(sel, c, n, p, i);
      DealtShare(sel, c, n, p, j);
      if Cong(Xs(sel)[i], Xs(sel)[j], p) { CongSmall(Xs(sel)[i], Xs(sel)[j], p); }
    }
  }

  lemma DealtSum(sel: seq<Share>, c: Poly, n: nat, p: nat)
    requires p > 0 && DealtFrom(sel, c, n, p)
    ensures Cong(Sum(Terms(Xs(sel), Ys(sel), p)), Sum(Terms(Xs(sel), Values(c, Xs(sel)), p)), p)
  {
    var xs := Xs(sel);
    var ts, us := Terms(xs, Ys(sel), p), Terms(xs, Values(c, xs), p);
    forall j | 0 <= j < |sel|
      ensures Cong(ts[j], us[j], p)
    {
      DealtShare(sel, c, n, p, j);
      CongMod(Eval(c, xs[j]), p);
      CongScale(Ys(sel)[j], Eval(c, xs[j]), Weight(xs, j, p), p);
    }
    SumCong(ts, us, p);
  }

  lemma ValueAtOrigin(c: Poly)
    requires c != []
    ensures Eval(c, 0) == c[0]
  {
    assert 0 * Eval(c[1..], 0) == 0;
  }

  /** No denominator of dealt shares is ever non-invertible. */
  lemma DealtInvertible(sel: seq<Share>, c: Poly, n: nat, p: nat, j: nat)
    requires Prime(p) && p > n && DealtFrom(sel, c, n, p) && DistinctX(sel) && j < |sel|
    ensures Invertible(Xs(sel), j, p)
  {
    DealtDistinct(sel, c, n, p);
    DenominatorNonZero(Xs(sel), j, p);
    InverseExists(Denominator(Xs(sel), j), p);
  }

  /** Any k or more of the dealt shares, in any order, combine to the secret. */
  lemma {:induction false} Reconstruction(secret: Bytes, k: int, n: int, random: seq<int>, sel: seq<Share>, p: nat)
    requires Prime(p) && p > 255 && SplitAccepts(secret, k, n, p) && |random| == k - 1
    requires DealtFrom(sel, [FromBytes(secret) as int] + random, n, p) && DistinctX(sel) && |sel| >= k
    ensures Combined(sel, p) == Ok(ToBytes(FromBytes(secret)))
  {
    var c: Poly := [FromBytes(secret) as int] + random;
    forall j | 0 <= j < |sel|
      ensures Invertible(Xs(sel), j, p) && sel[j].X >= 1
    {
      DealtInvertible(sel, c, n, p, j);
      DealtShare(sel, c, n, p, j);
    }
    DealtDistinct(sel, c, n, p);
    SumIsSecret(sel, c, n, p);
  }

  /** What combining computes for any shares, dealt or not: when their X are distinct modulo p, the
      value at 0 of whatever polynomial with as many coefficients goes through all of them. */
  lemma {:induction false} CombinesByInterpolation(shares: seq<Share>, c: Poly, p: nat)
    requires Prime(p) && WellFormedShares(shares) && Distinct(Xs(shares), p)
    requires 0 < |c| <= |shares|
    requires forall i :: 0 <= i < |shares| ==> Cong(FromBytes(shares[i].Y), Eval(c, shares[i].X), p)
    ensures Combined(shares, p) == Ok(ToBytes(Eval(c, 0) % p))
  {
    var xs := Xs(shares);
    forall j | 0 <= j < |shares| ensures Invertible(xs, j, p) {
      DenominatorNonZero(xs, j, p);
      InverseExists(Denominator(xs, j), p);
    }
    SumAnyShares(shares, c, p);
  }

  lemma SumAnyShares(shares: seq<Share>, c: Poly, p: nat)
    requires Prime(p) && Distinct(Xs(shares), p) && 0 < |c| <= |shares|
    requires forall i :: 0 <= i < |shares| ==> Cong(FromBytes(shares[i].Y), Eval(c, shares[i].X), p)
    ensures Sum(Terms(Xs(shares), Ys(shares), p)) % p == Eval(c, 0) % p
  {
    var xs := Xs(shares);
    var ts, us := Terms(xs, Ys(shares), p), Terms(xs, Values(c, xs), p);
    forall j | 0 <= j < |shares|
      ensures Cong(ts[j], us[j], p)
    {
      CongScale(Ys(shares)[j], Eval(c, xs[j]), Weight(xs, j, p), p);
    }
    SumCong(ts, us, p);
    LagrangeAtZero(xs, c, p);
    ValueAtOrigin(c);
    CongTrans(Sum(ts), Sum(us), c[0], p);
    CongModEq(Sum(ts), c[0], p);
  }

  lemma SumIsSecret(sel: seq<Share>, c: Poly, n: nat, p: nat)
    requires Prime(p) && DealtFrom(sel, c, n, p) && Distinct(Xs(sel), p) && 0 < |c| <= |sel| && 0 <= c[0] < p
    ensures Sum(Terms(Xs(sel), Ys(sel), p)) % p == c[0]
  {
    var t, u := Sum(Terms(Xs(sel), Ys(sel), p)), Sum(Terms(Xs(sel), Values(c, Xs(sel)), p));
    DealtSum(sel, c, n, p);
    LagrangeAtZero(Xs(sel), c, p);
    ValueAtOrigin(c);
    CongTrans(t, u, c[0], p);
    CongModEq(t, c[0], p);
    SmallMod(c[0], p);
  }

  // ---- secrecy ----

  /** The upper coefficients `random` explain the shares (xs, ys) of secret s. */
  ghost predicate Explains(s: int, random: seq<int>, xs: seq<int>, ys: seq<int>, p: nat)
    requires p > 0 && |xs| == |ys|
  {
    && |random| == |xs| && Reduced(random, p)
    && forall j :: 0 <= j < |xs| ==> Eval([s] + random, xs[j]) % p == ys[j]
  }

  ghost function Explanation(s: int, xs: seq<int>, ys: seq<int>, p: nat): seq<int>
    requires p > 0 && |xs| == |ys|
  {
    Reduce(Interpolate([0] + xs, [s] + ys, p), p)[1..]
  }

  lemma ReducedEval(c: Poly, x: int, p: nat)
    requires p > 0
    ensures Cong(Eval(Reduce(c, p), x), Eval(c, x), p)
  {
    forall i | 0 <= i < |c|
      ensures Cong(Reduce(c, p)[i], c[i], p)
    {
      CongMod(c[i], p);
    }
    EvalCong(Reduce(c, p), c, x, p);
  }

  lemma DistinctWithZero(xs: seq<int>, p: nat)
    requires p > 0 && Distinct(xs, p) && forall j :: 0 <= j < |xs| ==> !Cong(0, xs[j], p)
    ensures Distinct([0] + xs, p)
  {
  }

  /** The reduced interpolant passes through point j. */
  lemma ReducedHits(xs: seq<int>, ys: seq<int>, p: nat, j: nat)
    requires Prime(p) && |xs| == |ys| && Distinct(xs, p) && j < |xs| && 0 <= ys[j] < p
    ensures Eval(Reduce(Interpolate(xs, ys, p), p), xs[j]) % p == ys[j]
  {
    var c := Interpolate(xs, ys, p);
    InterpolateHits(xs, ys, p, j);
    ReducedEval(c, xs[j], p);
    CongTrans(Eval(Reduce(c, p), xs[j]), Eval(c, xs[j]), ys[j], p);
    CongModEq(Eval(Reduce(c, p), xs[j]), ys[j], p);
    SmallMod(ys[j], p);
  }

  lemma ExplanationExplains(s: int, xs: seq<int>, ys: seq<int>, p: nat)
    requires Prime(p) && 0 <= s < p && |xs| == |ys| && Reduced(ys, p)
    requires Distinct(xs, p) && forall j :: 0 <= j < |xs| ==> !Cong(0, xs[j], p)
    ensures Explains(s, Explanation(s, xs, ys, p), xs, ys, p)
  {
    var xs', ys' := [0] + xs, [s] + ys;
    var c := Reduce(Interpolate(xs', ys', p), p);
    DistinctWithZero(xs, p);
    ReducedHits(xs', ys', p, 0);
    ValueAtOrigin(c);
    SmallMod(c[0], p);
    assert c == [s] + c[1..];
    forall j | 0 <= j < |xs|
      ensures Eval(c, xs[j]) % p == ys[j]
    {
      ReducedHits(xs', ys', p, j + 1);
    }
  }

  lemma ExplanationsAgree(s: int, a: seq<int>, b: seq<int>, xs: seq<int>, ys: seq<int>, p: nat)
    requires Prime(p) && 0 <= s < p && |xs| == |ys|
    requires Distinct(xs, p) && forall j :: 0 <= j < |xs| ==> !Cong(0, xs[j], p)
    requires Explains(s, a, xs, ys, p) && Explains(s, b, xs, ys, p)
    ensures a == b
  {
    var c, d: Poly, xs' := [s] + a, [s] + b, [0] + xs;
    DistinctWithZero(xs, p);
    forall j | 0 <= j < |xs'|
      ensures Cong(Eval(c, xs'[j]), Eval(d, xs'[j]), p)
    {
      if j == 0 {
        ValueAtOrigin(c);
        ValueAtOrigin(d);
      } else {
        assert xs'[j] == xs[j - 1];
      }
      CongModEq(Eval(c, xs'[j]), Eval(d, xs'[j]), p);
    }
    AgreeingAreEqual(c, d, xs', p);
    assert a == c[1..] && b == d[1..];
  }

  /** Secrecy: for any k-1 shares and any candidate secret there is exactly one choice of
      the random coefficients that deals those shares. */
  lemma EverySecretEquallyLikely(s: int, xs: seq<int>, ys: seq<int>, p: nat)
    requires Prime(p) && 0 <= s < p && |xs| == |ys| && Reduced(ys, p)
    requires Distinct(xs, p) && forall j :: 0 <= j < |xs| ==> !Cong(0, xs[j], p)
    ensures exists random :: Explains(s, random, xs, ys, p)
              && forall other :: Explains(s, other, xs, ys, p) ==> other == random
  {
    var random := Explanation(s, xs, ys, p);
    ExplanationExplains(s, xs, ys, p);
    forall other | Explains(s, other, xs, ys, p)
      ensures other == random
    {
      ExplanationsAgree(s, other, random, xs, ys, p);
    }
  }

  // ---- threshold opening ----

  /** Restores the leading zeros the combiner drops. */
  function PadKey(key: Bytes): Option<Bytes> {
    if |key| > 32 then None else Some(Zeros(32 - |key|) + key)
  }

  lemma {:induction false} PadKeepsValue(n: nat, key: Bytes)
    ensures FromBytes(Zeros(n) + key) == FromBytes(key)
    decreases |key|
  {
    var s := Zeros(n) + key;
    if key == [] {
      ZerosAreZero(n);
      assert s == Zeros(n);
    } else {
      PadKeepsValue(n, Front(key));
      assert Front(s) == Zeros(n) + Front(key) && Last(s) == Last(key);
    }
  }

  lemma {:induction false} ZerosAreZero(n: nat)
    ensures FromBytes(Zeros(n)) == 0
  {
    if n > 0 {
      ZerosAreZero(n - 1);
      assert Front(Zeros(n)) == Zeros(n - 1);
    }
  }

  /** `open` is the authenticated decryption of the sealed artifact. */
  method ThresholdOpen(open: (Bytes, Bytes) -> Option<Bytes>, ciphertext: Bytes, k: int, shares: seq<Share>, p: nat)
    returns (r: Option<Bytes>)
    requires p > 1
    ensures |shares| < k ==> r == None
    ensures Combined(shares, p).Ok? && |Combined(shares, p).value| > 32 ==> r == None
    ensures |shares| >= k && Combined(shares, p).Ok? && |Combined(shares, p).value| <= 32 ==>
              exists key :: |key| == 32 && FromBytes(key) == FromBytes(Combined(shares, p).value)
                            && r == open(ciphertext, key)
    ensures |shares| >= k ==>
              r == match Combined(shares, p)
                   case Err => None
                   case Ok(bytes) => if PadKey(bytes).None? then None else open(ciphertext, PadKey(bytes).value)
  {
    if |shares| < k { return None; }
    var key := ShamirCombine(shares, p);
    if key.Err? { return None; }
    var padded := PadKey(key.value);
    if padded.None? { return None; }
    PadKeepsValue(32 - |key.value|, key.value);
    return open(ciphertext, padded.value);
  }

  /** The key that reaches decryption is the very key that was split. */
  lemma {:induction false} OpensWithTheKey(key: Bytes, k: int, n: int, random: seq<int>, sel: seq<Share>, p: nat)
    requires |key| == 32
    requires Prime(p) && p > 255 && SplitAccepts(key, k, n, p) && |random| == k - 1
    requires DealtFrom(sel, [FromBytes(key) as int] + random, n, p) && DistinctX(sel) && |sel| >= k
    ensures Combined(sel, p).Ok? && PadKey(Combined(sel, p).value) == Some(key)
  {
    hide Combined, DealtFrom, DistinctX, Prime, FromBytes, ToBytes;
    Reconstruction(key, k, n, random, sel, p);
    PadRestores(key);
  }
}
