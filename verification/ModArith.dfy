/** Integers modulo a prime: congruence, and inverses built by the extended Euclidean algorithm. */
module ModArith {
  import opened Basics

  ghost predicate Prime(p: int) {
    p >= 2 && forall d :: 2 <= d < p ==> p % d != 0
  }

  lemma PrimePositive(p: int)
    requires Prime(p)
    ensures p >= 2
  {
  }

  ghost predicate Cong(a: int, b: int, p: int)
    requires p > 0
  {
    (a - b) % p == 0
  }

  lemma MulBound(d: int, p: int)
    requires p > 0
    ensures d >= 1 ==> d * p >= p
    ensures d <= -1 ==> d * p <= -p
  {
  }

  lemma MulMod(q: int, p: int)
    requires p > 0
    ensures (q * p) % p == 0
  {
    var x := q * p;
    var d := q - x / p;
    assert d * p == x % p;
    MulBound(d, p);
  }

  lemma CongIntro(a: int, b: int, p: int, q: int)
    requires p > 0 && a == b + q * p
    ensures Cong(a, b, p)
  {
    MulMod(q, p);
  }

  lemma CongElim(a: int, b: int, p: int) returns (q: int)
    requires p > 0 && Cong(a, b, p)
    ensures a == b + q * p
  {
    q := (a - b) / p;
  }

  lemma CongRefl(a: int, p: int)
    requires p > 0
    ensures Cong(a, a, p)
  {
  }

  lemma CongSym(a: int, b: int, p: int)
    requires p > 0 && Cong(a, b, p)
    ensures Cong(b, a, p)
  {
    var q := CongElim(a, b, p);
    CongIntro(b, a, p, -q);
  }

  lemma CongTrans(a: int, b: int, c: int, p: int)
    requires p > 0 && Cong(a, b, p) && Cong(b, c, p)
    ensures Cong(a, c, p)
  {
    var q := CongElim(a, b, p);
    var r := CongElim(b, c, p);
    assert a == c + (q + r) * p;
    CongIntro(a, c, p, q + r);
  }

  lemma CongAdd(a: int, a': int, b: int, b': int, p: int)
    requires p > 0 && Cong(a, a', p) && Cong(b, b', p)
    ensures Cong(a + b, a' + b', p)
    ensures Cong(a - b, a' - b', p)
  {
    var q := CongElim(a, a', p);
    var r := CongElim(b, b', p);
    assert a + b == a' + b' + (q + r) * p;
    assert a - b == a' - b' + (q - r) * p;
    CongIntro(a + b, a' + b', p, q + r);
    CongIntro(a - b, a' - b', p, q - r);
  }

  lemma CongMul(a: int, a': int, b: int, b': int, p: int)
    requires p > 0 && Cong(a, a', p) && Cong(b, b', p)
    ensures Cong(a * b, a' * b', p)
  {
    var q := CongElim(a, a', p);
    var r := CongElim(b, b', p);
    calc {
      a * b;
      (a' + q * p) * b;
      a' * b + (q * p) * b;
      a' * (b' + r * p) + (q * p) * b;
      a' * b' + a' * (r * p) + (q * p) * b;
      { assert a' * (r * p) == (a' * r) * p; assert (q * p) * b == (q * b) * p; }
      a' * b' + (a' * r) * p + (q * b) * p;
      a' * b' + (a' * r + q * b) * p;
    }
    CongIntro(a * b, a' * b', p, a' * r + q * b);
  }

  lemma CongScale(a: int, b: int, c: int, p: int)
    requires p > 0 && Cong(a, b, p)
    ensures Cong(c * a, c * b, p) && Cong(a * c, b * c, p)
  {
    CongRefl(c, p);
    CongMul(c, c, a, b, p);
    assert c * a == a * c && c * b == b * c;
  }

  lemma DiffNonZero(a: int, b: int, p: int)
    requires p > 0
    ensures Cong(a - b, 0, p) <==> Cong(a, b, p)
  {
    assert (a - b) - 0 == a - b;
  }

  lemma CongMod(a: int, p: int)
    requires p > 0
    ensures Cong(a % p, a, p) && Cong(a, a % p, p) && 0 <= a % p < p
  {
    CongIntro(a, a % p, p, a / p);
    CongSym(a, a % p, p);
  }

  lemma SmallMod(a: int, p: int)
    requires 0 <= a < p
    ensures a % p == a
  {
  }

  lemma CongSmall(a: int, b: int, p: int)
    requires 0 <= a < p && 0 <= b < p && Cong(a, b, p)
    ensures a == b
  {
    var q := CongElim(a, b, p);
    MulBound(q, p);
  }

  lemma CongModEq(a: int, b: int, p: int)
    requires p > 0
    ensures Cong(a, b, p) <==> a % p == b % p
  {
    CongMod(a, p);
    CongMod(b, p);
    if Cong(a, b, p) {
      CongTrans(a % p, a, b, p);
      CongTrans(a % p, b, b % p, p);
      CongSmall(a % p, b % p, p);
    }
    if a % p == b % p {
      CongTrans(a, a % p, b, p);
    }
  }

  /** One reduced multiply-and-add step of a loop over residues. */
  lemma StepMod(acc: int, exact: int, f: int, g: int, p: int)
    requires p > 0 && acc == exact % p
    ensures (acc * f) % p == (exact * f) % p
    ensures (acc * f + g) % p == (exact * f + g) % p
  {
    CongMod(exact, p);
    CongScale(acc, exact, f, p);
    CongRefl(g, p);
    CongAdd(acc * f, exact * f, g, g, p);
    CongModEq(acc * f, exact * f, p);
    CongModEq(acc * f + g, exact * f + g, p);
  }

  // ---- inverses ----

  datatype Bezout = Bezout(g: nat, x: int, y: int)

  function ExtGcd(a: nat, b: nat): (r: Bezout)
    ensures a * r.x + b * r.y == r.g
    ensures a > 0 || b > 0 ==> r.g > 0
    decreases b
  {
    if b == 0 then Bezout(a, 1, 0)
    else
      var s := ExtGcd(b, a % b);
      EuclidStep(a, b, s.x, s.y);
      Bezout(s.g, s.y, s.x - (a / b) * s.y)
  }

  lemma EuclidStep(a: nat, b: nat, x: int, y: int)
    requires b > 0
    ensures b * x + (a % b) * y == a * y + b * (x - (a / b) * y)
  {
    calc {
      a * y + b * (x - (a / b) * y);
      a * y + b * x - b * ((a / b) * y);
      { assert b * ((a / b) * y) == (b * (a / b)) * y; }
      b * x + (a - b * (a / b)) * y;
      b * x + (a % b) * y;
    }
  }

  ghost predicate Divides(d: nat, a: nat) {
    d > 0 && a % d == 0
  }

  lemma DividesBack(g: nat, a: nat, b: nat)
    requires b > 0 && Divides(g, b) && Divides(g, a % b)
    ensures Divides(g, a)
  {
    var r, s, t := b / g, (a % b) / g, a / b;
    assert b == r * g && a % b == s * g;
    calc {
      a;
      b * t + a % b;
      (r * g) * t + s * g;
      { assert (r * g) * t == (r * t) * g; }
      (r * t + s) * g;
    }
    MulMod(r * t + s, g);
  }

  lemma {:induction false} GcdDivides(a: nat, b: nat)
    requires a > 0 || b > 0
    ensures Divides(ExtGcd(a, b).g, a) && Divides(ExtGcd(a, b).g, b)
    decreases b
  {
    if b > 0 {
      GcdDivides(b, a % b);
      DividesBack(ExtGcd(b, a % b).g, a, b);
    }
  }

  /** big.Int.ModInverse: None when there is no inverse. */
  function ModInverse(a: int, p: nat): (r: Option<nat>)
    requires p > 0
    ensures r.Some? ==> r.value < p
  {
    var e := ExtGcd(a % p, p);
    if e.g == 1 then Some(e.x % p) else None
  }

  /** A prime and a smaller positive number have no common divisor but 1. */
  lemma PrimeCoprime(r: nat, p: nat)
    requires Prime(p) && 0 < r < p
    ensures ExtGcd(r, p).g == 1
  {
    var g := ExtGcd(r, p).g;
    GcdDivides(r, p);
    if g >= p { SmallMod(r, g); }
    assert p % g == 0;
  }

  /** Modulo a prime every residue but zero has an inverse. */
  lemma {:induction false} InverseExists(a: int, p: nat)
    requires Prime(p) && !Cong(a, 0, p)
    ensures ModInverse(a, p).Some? && Cong(a * ModInverse(a, p).value, 1, p)
  {
    var r := a % p;
    CongModEq(a, 0, p);
    var e := ExtGcd(r, p);
    PrimeCoprime(r, p);
    BezoutInverse(a, r, e, p);
  }

  lemma BezoutInverse(a: int, r: int, e: Bezout, p: nat)
    requires p > 0 && r == a % p && r * e.x + p * e.y == 1
    ensures Cong(a * (e.x % p), 1, p)
  {
    assert r * e.x == 1 + (-e.y) * p;
    CongIntro(r * e.x, 1, p, -e.y);
    CongMod(a, p);
    CongMod(e.x, p);
    CongMul(a, r, e.x % p, e.x, p);
    CongTrans(a * (e.x % p), r * e.x, 1, p);
  }

  /** The inverse of `a`, for arguments that have one. */
  function Inv(a: int, p: nat): nat
    requires p > 0
  {
    if ModInverse(a, p).Some? then ModInverse(a, p).value else 0
  }

  lemma InvLaw(a: int, p: nat)
    requires Prime(p) && !Cong(a, 0, p)
    ensures Cong(a * Inv(a, p), 1, p)
  {
    InverseExists(a, p);
  }

  lemma Cancel(a: int, b: int, c: int, p: nat)
    requires Prime(p) && !Cong(c, 0, p) && Cong(c * a, c * b, p)
    ensures Cong(a, b, p)
  {
    var i := Inv(c, p);
    InvLaw(c, p);
    CongScale(c * a, c * b, i, p);
    assert i * (c * a) == (c * i) * a && i * (c * b) == (c * i) * b;
    CongScale(c * i, 1, a, p);
    CongScale(c * i, 1, b, p);
    CongSym((c * i) * a, 1 * a, p);
    CongTrans(a, (c * i) * a, (c * i) * b, p);
    CongTrans(a, (c * i) * b, b, p);
  }

  lemma NoZeroDivisors(a: int, b: int, p: nat)
    requires Prime(p) && !Cong(a, 0, p) && !Cong(b, 0, p)
    ensures !Cong(a * b, 0, p)
  {
    if Cong(a * b, 0, p) {
      assert a * 0 == 0;
      Cancel(b, 0, a, p);
    }
  }
}
