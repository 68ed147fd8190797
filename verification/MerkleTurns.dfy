/** The bottom-up verifiers shift two counters; the generators recurse top-down.
    What connects them is the list of turns: on which side each sibling sits.
    This module shows that both produce the same list. */
module MerkleTurns {
  import opened MerkleTree

  /** The side of the tree the sibling is on. */
  datatype Turn = SiblingLeft | SiblingRight

  datatype Counters = Counters(fn: nat, sn: nat)

  /** The inner "shift until a set bit" loop. */
  function StripEven(c: Counters): (r: Counters)
    requires c.fn <= c.sn
    ensures r.fn <= r.sn <= c.sn
    decreases c.fn
  {
    if c.fn % 2 == 0 && c.fn != 0 then StripEven(Counters(c.fn / 2, c.sn / 2)) else c
  }

  /** The initial loop of the consistency verifier. */
  function StripOdd(c: Counters): (r: Counters)
    requires c.fn <= c.sn
    ensures r.fn <= r.sn <= c.sn
    ensures c.fn < c.sn ==> r.fn < r.sn
    decreases c.fn
  {
    if c.fn % 2 == 1 then StripOdd(Counters(c.fn / 2, c.sn / 2)) else c
  }

  /** One pass of the main loop. */
  function Shift(c: Counters): (r: Counters)
    requires c.fn <= c.sn && c.sn > 0
    ensures r.fn <= r.sn < c.sn
  {
    var d := if c.fn % 2 == 1 || c.fn == c.sn then StripEven(c) else c;
    Counters(d.fn / 2, d.sn / 2)
  }

  function TurnOf(c: Counters): Turn {
    if c.fn % 2 == 1 || c.fn == c.sn then SiblingLeft else SiblingRight
  }

  /** The turns the shifting loop takes from counters (fn, sn) until sn reaches 0. */
  function Turns(c: Counters): seq<Turn>
    requires c.fn <= c.sn
    decreases c.sn
  {
    if c.sn == 0 then [] else [TurnOf(c)] + Turns(Shift(c))
  }

  /** The turns on the way up from leaf m in the recursive tree of size n. */
  function TreeTurns(m: nat, n: nat): seq<Turn>
    requires m < n
    decreases n
  {
    if n == 1 then []
    else
      var k := Split(n);
      if m < k then TreeTurns(m, k) + [SiblingRight] else TreeTurns(m - k, n - k) + [SiblingLeft]
  }

  /** The turns on the way up from the last subtree that lies within the first m leaves. */
  function SubTurns(m: nat, n: nat): seq<Turn>
    requires 0 < m <= n
    decreases n
  {
    if m == n then []
    else
      var k := Split(n);
      if m <= k then SubTurns(m, k) + [SiblingRight] else SubTurns(m - k, n - k) + [SiblingLeft]
  }

  lemma TurnsCons(c: Counters)
    requires c.fn <= c.sn && c.sn > 0
    ensures Turns(c) == [TurnOf(c)] + Turns(Shift(c))
  {
  }

  lemma TurnsDone(c: Counters)
    requires c.fn <= c.sn == 0
    ensures Turns(c) == []
  {
  }

  /** If one pass keeps "the same turns and then t", so does the run before it. */
  lemma TurnsCarry(c: Counters, d: Counters, t: Turn)
    requires c.fn <= c.sn && c.sn > 0 && d.fn <= d.sn && d.sn > 0
    requires TurnOf(c) == TurnOf(d) && Turns(Shift(c)) == Turns(Shift(d)) + [t]
    ensures Turns(c) == Turns(d) + [t]
  {
    TurnsCons(c);
    TurnsCons(d);
    assert [TurnOf(d)] + (Turns(Shift(d)) + [t]) == [TurnOf(d)] + Turns(Shift(d)) + [t];
  }

  lemma TurnsEvenEqual(x: nat)
    requires x > 0 && x % 2 == 0
    ensures Turns(Counters(x, x)) == Turns(Counters(x / 2, x / 2))
  {
    var c, d := Counters(x, x), Counters(x / 2, x / 2);
    assert StripEven(c) == StripEven(d);
    assert Shift(c) == Shift(d);
    TurnsCons(c);
    TurnsCons(d);
  }

  /** One pass when the inner loop is idle. */
  lemma ShiftIdle(c: Counters)
    requires c.fn <= c.sn && c.sn > 0
    requires c.fn % 2 == 1 || c.fn != c.sn
    ensures Shift(c) == Counters(c.fn / 2, c.sn / 2)
  {
  }

  /** In a left subtree of size q the loop runs as if alone, then meets a right sibling. */
  lemma {:induction false} TurnsUnderLeft(fn: nat, sn: nat, q: nat)
    requires IsPow2(q) && fn < q <= sn < 2 * q
    ensures Turns(Counters(fn, sn)) == Turns(Counters(fn, q - 1)) + [SiblingRight]
    decreases q
  {
    var c, d := Counters(fn, sn), Counters(fn, q - 1);
    ShiftIdle(c);
    if q == 1 {
      TurnsCons(c);
      TurnsDone(Counters(0, 0));
    } else {
      assert (q - 1) % 2 == 1 && (q - 1) / 2 == q / 2 - 1;
      TurnsUnderLeft(fn / 2, sn / 2, q / 2);
      ShiftIdle(d);
      TurnsCarry(c, d, SiblingRight);
    }
  }

  lemma HalfSum(x: nat, q: nat)
    requires q % 2 == 0
    ensures (x + q) / 2 == x / 2 + q / 2 && (x + q) % 2 == x % 2
  {
  }

  /** Counters carrying one more high bit q. */
  function Raise(c: Counters, q: nat): (r: Counters)
    ensures c.fn <= c.sn ==> r.fn <= r.sn
  {
    Counters(c.fn + q, c.sn + q)
  }

  /** One pass on raised counters, when the inner loop is idle. */
  lemma ShiftRaised(c: Counters, q: nat)
    requires q > 0 && q % 2 == 0 && c.fn <= c.sn && c.sn > 0
    requires c.fn % 2 == 1 || c.fn != c.sn
    ensures TurnOf(Raise(c, q)) == TurnOf(c)
    ensures Shift(Raise(c, q)) == Raise(Shift(c), q / 2)
  {
    HalfSum(c.fn, q);
    HalfSum(c.sn, q);
    ShiftIdle(c);
    ShiftIdle(Raise(c, q));
  }

  lemma RaisedEvenEqual(c: Counters, q: nat)
    requires q > 0 && q % 2 == 0 && c.fn == c.sn && c.fn % 2 == 0
    ensures Turns(Raise(c, q)) == Turns(Raise(Counters(c.fn / 2, c.sn / 2), q / 2))
  {
    HalfSum(c.fn, q);
    TurnsEvenEqual(c.fn + q);
  }

  lemma HalvedEvenEqual(c: Counters)
    requires c.fn == c.sn && c.fn % 2 == 0
    ensures Turns(c) == Turns(Counters(c.fn / 2, c.sn / 2))
  {
    if c.fn > 0 { TurnsEvenEqual(c.fn); }
  }

  lemma RaisedLast(c: Counters)
    requires c == Counters(0, 0)
    ensures Turns(Raise(c, 1)) == Turns(c) + [SiblingLeft]
  {
    var d := Raise(c, 1);
    ShiftIdle(d);
    TurnsCons(d);
    TurnsDone(c);
  }

  lemma RaisedStep(c: Counters, half: Counters, q: nat)
    requires q > 1 && q % 2 == 0 && c.fn <= c.sn < q && half == Counters(c.fn / 2, c.sn / 2)
    requires Turns(Raise(half, q / 2)) == Turns(half) + [SiblingLeft]
    ensures Turns(Raise(c, q)) == Turns(c) + [SiblingLeft]
  {
    if c.fn == c.sn && c.fn % 2 == 0 {
      RaisedEvenEqual(c, q);
      HalvedEvenEqual(c);
    } else {
      ShiftRaised(c, q);
      ShiftIdle(c);
      TurnsCarry(Raise(c, q), c, SiblingLeft);
    }
  }

  /** In a right subtree both counters carry one more high bit q; once the subtree is
      done that bit alone is left, and the inner loop runs on to it. */
  lemma {:induction false} TurnsUnderRight(c: Counters, q: nat)
    requires IsPow2(q) && c.fn <= c.sn < q
    ensures Turns(Raise(c, q)) == Turns(c) + [SiblingLeft]
    decreases q
  {
    if q == 1 {
      RaisedLast(c);
    } else {
      var half := Counters(c.fn / 2, c.sn / 2);
      TurnsUnderRight(half, q / 2);
      RaisedStep(c, half, q);
    }
  }

  /** The turns the inclusion verifier takes for leaf m of n. */
  function InclusionTurns(m: nat, n: nat): seq<Turn>
    requires m < n
  {
    Turns(Counters(m, n - 1))
  }

  lemma InclusionLeftHalf(m: nat, n: nat, k: nat)
    requires IsPow2(k) && m < k < n <= 2 * k
    ensures InclusionTurns(m, n) == InclusionTurns(m, k) + [SiblingRight]
  {
    TurnsUnderLeft(m, n - 1, k);
  }

  lemma InclusionRightHalf(m: nat, n: nat, k: nat)
    requires IsPow2(k) && k <= m < n <= 2 * k
    ensures InclusionTurns(m, n) == InclusionTurns(m - k, n - k) + [SiblingLeft]
  {
    var d := Counters(m - k, n - k - 1);
    assert Raise(d, k) == Counters(m, n - 1);
    TurnsUnderRight(d, k);
  }

  /** Inclusion: the shifting loop and the recursion take the same turns. */
  lemma {:induction false} TurnsAreTreeTurns(m: nat, n: nat)
    requires m < n
    ensures InclusionTurns(m, n) == TreeTurns(m, n)
    decreases n
  {
    if n > 1 {
      var k := Split(n);
      SplitIsPow2(n);
      if m < k {
        TurnsAreTreeTurns(m, k);
        InclusionLeftHalf(m, n, k);
      } else {
        TurnsAreTreeTurns(m - k, n - k);
        InclusionRightHalf(m, n, k);
      }
    }
  }

  lemma StripOddStep(c: Counters)
    requires c.fn <= c.sn
    ensures StripOdd(c) == if c.fn % 2 == 1 then StripOdd(Counters(c.fn / 2, c.sn / 2)) else c
  {
  }

  lemma {:induction false} StripOddUnderLeft(fn: nat, sn: nat, q: nat)
    requires IsPow2(q) && fn < q <= sn < 2 * q
    ensures Turns(StripOdd(Counters(fn, sn))) == Turns(StripOdd(Counters(fn, q - 1))) + [SiblingRight]
    decreases q
  {
    StripOddStep(Counters(fn, sn));
    StripOddStep(Counters(fn, q - 1));
    if fn % 2 == 1 {
      assert (q - 1) / 2 == q / 2 - 1;
      StripOddUnderLeft(fn / 2, sn / 2, q / 2);
    } else {
      TurnsUnderLeft(fn, sn, q);
    }
  }

  lemma HalfRaised(c: Counters, half: Counters, q: nat)
    requires q % 2 == 0 && half == Counters(c.fn / 2, c.sn / 2)
    ensures Raise(half, q / 2) == Counters(Raise(c, q).fn / 2, Raise(c, q).sn / 2)
    ensures Raise(c, q).fn % 2 == c.fn % 2
  {
    HalfSum(c.fn, q);
    HalfSum(c.sn, q);
  }

  lemma {:induction false} StripOddUnderRight(c: Counters, q: nat)
    requires IsPow2(q) && c.fn < c.sn < q
    ensures Turns(StripOdd(Raise(c, q))) == Turns(StripOdd(c)) + [SiblingLeft]
    decreases q
  {
    hide Turns, StripOdd, Raise;
    var half := Counters(c.fn / 2, c.sn / 2);
    StripOddStep(c);
    if c.fn % 2 == 1 {
      HalfRaised(c, half, q);
      StripOddStep(Raise(c, q));
      StripOddUnderRight(half, q / 2);
    } else {
      HalfRaised(c, half, q);
      StripOddStep(Raise(c, q));
      TurnsUnderRight(c, q);
    }
  }

  lemma {:induction false} StripOddAllOnes(x: nat)
    requires x > 0
    ensures IsPow2(x) <==> StripOdd(Counters(x - 1, x - 1)) == Counters(0, 0)
  {
    if x > 1 && x % 2 == 0 {
      assert (x - 1) % 2 == 1 && (x - 1) / 2 == x / 2 - 1;
      StripOddAllOnes(x / 2);
    } else if x > 1 {
      assert StripOdd(Counters(x - 1, x - 1)) == Counters(x - 1, x - 1);
    }
  }

  lemma {:induction false} StripOddFirst(fn: nat, sn: nat, sn': nat)
    requires fn <= sn && fn <= sn'
    ensures StripOdd(Counters(fn, sn)).fn == StripOdd(Counters(fn, sn')).fn
    decreases fn
  {
    if fn % 2 == 1 { StripOddFirst(fn / 2, sn / 2, sn' / 2); }
  }

  /** The verifier starts from the old root itself exactly when the old size is a power of two. */
  lemma StartIsOldRoot(m: nat, n: nat)
    requires 0 < m <= n
    ensures StripOdd(Counters(m - 1, n - 1)).fn == 0 <==> IsPow2(m)
  {
    StripOddAllOnes(m);
    StripOddFirst(m - 1, n - 1, m - 1);
    StripOddEqual(m - 1);
  }

  lemma {:induction false} StripOddEqual(x: nat)
    ensures StripOdd(Counters(x, x)).fn == StripOdd(Counters(x, x)).sn
  {
    if x % 2 == 1 { StripOddEqual(x / 2); }
  }

  /** The turns the consistency verifier takes for sizes m and n. */
  function ConsistencyTurns(m: nat, n: nat): seq<Turn>
    requires 0 < m <= n
  {
    Turns(StripOdd(Counters(m - 1, n - 1)))
  }

  lemma TurnsLeftHalf(m: nat, n: nat, k: nat)
    requires IsPow2(k) && 0 < m <= k < n <= 2 * k
    ensures ConsistencyTurns(m, n) == ConsistencyTurns(m, k) + [SiblingRight]
  {
    StripOddUnderLeft(m - 1, n - 1, k);
  }

  lemma TurnsRightHalf(m: nat, n: nat, k: nat)
    requires IsPow2(k) && k < m < n <= 2 * k
    ensures ConsistencyTurns(m, n) == ConsistencyTurns(m - k, n - k) + [SiblingLeft]
  {
    var c, d := Counters(m - 1, n - 1), Counters(m - k - 1, n - k - 1);
    StripOddUnderRight(d, k);
    assert c == Raise(d, k);
  }

  lemma TurnsWhole(n: nat)
    requires IsPow2(n)
    ensures ConsistencyTurns(n, n) == []
  {
    StripOddAllOnes(n);
  }

  /** Consistency: after the initial shifts, the loop and the recursion take the same turns. */
  lemma {:induction false} TurnsAreSubTurns(m: nat, n: nat)
    requires 0 < m < n || (0 < m == n && IsPow2(n))
    ensures ConsistencyTurns(m, n) == SubTurns(m, n)
    decreases n
  {
    if m == n {
      TurnsWhole(n);
    } else {
      var k := Split(n);
      SplitIsPow2(n);
      if m <= k {
        TurnsAreSubTurns(m, k);
        TurnsLeftHalf(m, n, k);
      } else {
        TurnsAreSubTurns(m - k, n - k);
        TurnsRightHalf(m, n, k);
      }
    }
  }
}
