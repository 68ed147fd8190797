/** Big-endian byte strings as natural numbers. */
module BigEndian {
  import opened Basics

  /** big.Int.SetBytes. */
  function FromBytes(b: Bytes): (n: nat)
  {
    if b == [] then 0 else 256 * FromBytes(Front(b)) + Last(b)
  }

  /** big.Int.Bytes: the minimal encoding, without leading zeros. */
  function ToBytes(n: nat): (b: Bytes)
    ensures b != [] ==> b[0] != 0
  {
    if n == 0 then [] else ToBytes(n / 256) + [n % 256]
  }

  /** n modulo 256^w in exactly w bytes. */
  function Fixed(n: nat, w: nat): (b: Bytes)
    ensures |b| == w
    decreases w
  {
    if w == 0 then [] else Fixed(n / 256, w - 1) + [n % 256]
  }

  function Pow256(w: nat): (r: nat)
    ensures r >= 1
  {
    if w == 0 then 1 else 256 * Pow256(w - 1)
  }

  lemma {:induction false} FromToBytes(n: nat)
    ensures FromBytes(ToBytes(n)) == n
  {
    if n > 0 {
      FromToBytes(n / 256);
      assert Front(ToBytes(n)) == ToBytes(n / 256);
    }
  }

  lemma {:induction false} FromFixed(n: nat, w: nat)
    requires n < Pow256(w)
    ensures FromBytes(Fixed(n, w)) == n
    decreases w
  {
    if w > 0 {
      FromFixed(n / 256, w - 1);
      assert Front(Fixed(n, w)) == Fixed(n / 256, w - 1);
    }
  }

  lemma {:induction false} FixedFrom(b: Bytes)
    ensures FromBytes(b) < Pow256(|b|)
    ensures Fixed(FromBytes(b), |b|) == b
    decreases |b|
  {
    if b != [] {
      FixedFrom(Front(b));
      var n := FromBytes(b);
      assert n / 256 == FromBytes(Front(b)) && n % 256 == Last(b);
      assert b == Front(b) + [Last(b)];
    }
  }

  function Zeros(n: nat): (z: Bytes)
    ensures |z| == n && forall i :: 0 <= i < n ==> z[i] == 0
  {
    seq(n, _ => 0)
  }

  /** Left-padding the minimal encoding back to the original length restores it. */
  lemma {:induction false} PadRestores(b: Bytes)
    ensures |ToBytes(FromBytes(b))| <= |b|
    ensures Zeros(|b| - |ToBytes(FromBytes(b))|) + ToBytes(FromBytes(b)) == b
    decreases |b|
  {
    if b != [] {
      PadRestores(Front(b));
      var n := FromBytes(b);
      assert n / 256 == FromBytes(Front(b)) && n % 256 == Last(b);
      assert b == Front(b) + [Last(b)];
      if n == 0 {
        assert ToBytes(FromBytes(Front(b))) == [];
        assert Zeros(|b|) == Zeros(|b| - 1) + [0];
      }
    }
  }
}
