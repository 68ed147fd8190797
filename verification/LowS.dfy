/** Canonical low-s signatures: the verifier's test, the integer form, and the device's
    in-place byte arithmetic. */
module LowS {
  import opened Basics
  import opened BigEndian

  /** The order of the P-256 group. */
  const N: nat := 0xFFFFFFFF00000000FFFFFFFFFFFFFFFFBCE6FAADA7179E84F3B9CAC2FC632551

  const N_BYTES: Bytes := [
    0xFF, 0xFF, 0xFF, 0xFF, 0x00, 0x00, 0x00, 0x00, 0xFF, 0xFF, 0xFF, 0xFF, 0xFF, 0xFF, 0xFF, 0xFF,
    0xBC, 0xE6, 0xFA, 0xAD, 0xA7, 0x17, 0x9E, 0x84, 0xF3, 0xB9, 0xCA, 0xC2, 0xFC, 0x63, 0x25, 0x51]

  const N_HALF_BYTES: Bytes := [
    0x7F, 0xFF, 0xFF, 0xFF, 0x80, 0x00, 0x00, 0x00, 0x7F, 0xFF, 0xFF, 0xFF, 0xFF, 0xFF, 0xFF, 0xFF,
    0xDE, 0x73, 0x7D, 0x56, 0xD3, 0x8B, 0xCF, 0x42, 0x79, 0xDC, 0xE5, 0x61, 0x7E, 0x31, 0x92, 0xA8]

  predicate IsLowS(sig: Bytes) {
    |sig| == 64 && FromBytes(sig[32..]) <= N / 2
  }

  function NormalizeLowS(s: int): int {
    if s > N / 2 then N - s else s
  }

  /** The order is 2^256 - 2^224 + 2^192 less a 127-bit number, and odd. */
  lemma OrderOfP256()
    ensures N == 0x1_0000_0000_0000_0000_0000_0000_0000_0000_0000_0000_0000_0000_0000_0000_0000_0000
                 - 0x1_0000_0000_0000_0000_0000_0000_0000_0000_0000_0000_0000_0000_0000_0000
                 + 0x1_0000_0000_0000_0000_0000_0000_0000_0000_0000_0000_0000_0000
                 - 0x4319_0552_58E8_617B_0C46_353D_039C_DAAF
    ensures N % 2 == 1
  {
  }

  /** Normalising gives the low one of s and N - s, and picks the same one for both. */
  lemma NormalizeIsCanonical(s: int, t: int)
    requires 0 < s < N && 0 < t < N
    ensures 0 < NormalizeLowS(s) <= N / 2 && NormalizeLowS(NormalizeLowS(s)) == NormalizeLowS(s)
    ensures NormalizeLowS(s) == NormalizeLowS(t) <==> t == s || t == N - s
    ensures s <= N / 2 <==> N - s > N / 2
  {
  }

  // ---- the byte constants ----

  function Word(b: Bytes, i: nat): nat
    requires i + 4 <= |b|
  {
    var w: nat, x: nat, y: nat, z: nat := b[i], b[i + 1], b[i + 2], b[i + 3];
    ((w * 256 + x) * 256 + y) * 256 + z
  }

  lemma FromSnoc(b: Bytes, k: nat)
    requires k < |b|
    ensures FromBytes(b[..k + 1]) == 256 * FromBytes(b[..k]) + b[k]
  {
    assert Front(b[..k + 1]) == b[..k];
  }

  lemma FromWord(b: Bytes, i: nat)
    requires i + 4 <= |b|
    ensures FromBytes(b[..i + 4]) == 0x1_0000_0000 * FromBytes(b[..i]) + Word(b, i)
  {
    FromSnoc(b, i);
    FromSnoc(b, i + 1);
    FromSnoc(b, i + 2);
    FromSnoc(b, i + 3);
  }

  lemma FromEightWords(b: Bytes)
    requires |b| == 32
    ensures var w := 0x1_0000_0000;
            FromBytes(b) == ((((((Word(b, 0) * w + Word(b, 4)) * w + Word(b, 8)) * w + Word(b, 12)) * w
                              + Word(b, 16)) * w + Word(b, 20)) * w + Word(b, 24)) * w + Word(b, 28)
  {
    hide FromBytes, Word;
    FromNothing(b);
    FromWord(b, 0);
    FromWord(b, 4);
    FromWord(b, 8);
    FromWord(b, 12);
    FromWord(b, 16);
    FromWord(b, 20);
    FromWord(b, 24);
    FromWord(b, 28);
    assert b[..32] == b;
  }

  lemma FromNothing(b: Bytes)
    ensures FromBytes(b[..0]) == 0
  {
  }

  lemma NBytes()
    ensures FromBytes(N_BYTES) == N
  {
    hide FromBytes;
    FromEightWords(N_BYTES);
  }

  lemma NHalfBytes()
    ensures FromBytes(N_HALF_BYTES) == N / 2
  {
    hide FromBytes;
    FromEightWords(N_HALF_BYTES);
  }

  // ---- comparing and subtracting byte strings ----

  /** The first differing byte decides. */
  lemma {:induction false} FirstDifference(s: Bytes, t: Bytes, i: nat)
    requires |s| == |t| && i < |s| && s[..i] == t[..i] && s[i] > t[i]
    ensures FromBytes(s) > FromBytes(t)
    decreases |s|
  {
    if i == |s| - 1 {
      assert Front(s) == Front(t);
    } else {
      assert Front(s)[..i] == s[..i] && Front(t)[..i] == t[..i];
      FirstDifference(Front(s), Front(t), i);
    }
  }

  lemma {:induction false} FromCons(x: byte, rest: Bytes)
    ensures FromBytes([x] + rest) == x * Pow256(|rest|) + FromBytes(rest)
    decreases |rest|
  {
    if rest == [] {
      assert Front([x]) == [];
    } else {
      FromCons(x, Front(rest));
      assert Front([x] + rest) == [x] + Front(rest) && Last([x] + rest) == Last(rest);
    }
  }

  method Greater(s: Bytes, half: Bytes) returns (gt: bool)
    requires |s| == |half|
    ensures gt <==> FromBytes(s) > FromBytes(half)
  {
    var i := 0;
    while i < |s|
      invariant 0 <= i <= |s| && s[..i] == half[..i]
    {
      if s[i] != half[i] {
        if s[i] > half[i] { FirstDifference(s, half, i); } else { FirstDifference(half, s, i); }
        return s[i] > half[i];
      }
      i := i + 1;
    }
    assert s[..i] == s && half[..i] == half;
    return false;
  }

  /** One step of the borrow loop, on values: x, y and z are the bytes at a position, the other
      arguments the values of what lies to its right. */
  lemma BorrowStep(x: byte, y: byte, z: byte, p: nat, n: nat, s: nat, r: nat, b: int, b': int)
    requires r + s == n + b * p && z - 256 * b' == x - y - b
    ensures (z * p + r) + (y * p + s) == (x * p + n) + b' * (256 * p)
  {
    assert (z + y) * p == (x - b + 256 * b') * p;
  }

  /** What the device leaves in s: for s up to N the integer form; only beyond N does the
      final borrow wrap around. */
  function DeviceForm(s: nat): int {
    if s <= N / 2 then s else if s <= N then N - s else N - s + Pow256(32)
  }

  /** The borrow loop: s becomes n - s, from the last byte to the first. */
  method SubtractFrom(n: Bytes, sig: array<byte>) returns (borrow: int)
    requires |n| == 32 && sig.Length == 64
    modifies sig
    ensures sig[..32] == old(sig[..32]) && 0 <= borrow <= 1
    ensures FromBytes(sig[32..]) + FromBytes(old(sig[32..])) == FromBytes(n) + borrow * Pow256(32)
  {
    hide FromBytes, Pow256;
    ghost var s, r := sig[32..], sig[..32];
    EmptySuffix(s);
    EmptySuffix(n);
    borrow := 0;
    var i := 31;
    while i >= 0
      invariant -1 <= i <= 31 && 0 <= borrow <= 1
      invariant sig[..32] == r && sig[32..33 + i] == s[..1 + i]
      invariant FromBytes(sig[33 + i..]) + FromBytes(s[1 + i..]) == FromBytes(n[1 + i..]) + borrow * Pow256(31 - i)
      decreases i
    {
      var d := n[i] - sig[32 + i] - borrow;
      ghost var b := borrow;
      if d < 0 {
        d := d + 256;
        borrow := 1;
      } else {
        borrow := 0;
      }
      assert sig[32 + i] == sig[32..33 + i][i] == s[i];
      ghost var right := sig[33 + i..];
      sig[32 + i] := d;
      BorrowSuffix(n, s, right, i, d, b, borrow);
      assert sig[32 + i..] == [d] + right;
      assert sig[32..32 + i] == s[..i];
      i := i - 1;
    }
    assert s[0..] == s && n[0..] == n;
  }

  /** Replaces s by N - s in sig[32..64] when s exceeds N/2. */
  method HeNormalizeLowS(sig: array<byte>)
    requires sig.Length == 64
    modifies sig
    ensures sig[..32] == old(sig[..32])
    ensures FromBytes(sig[32..]) == DeviceForm(FromBytes(old(sig[32..])))
  {
    hide FromBytes, Pow256, DeviceForm;
    ghost var s := sig[32..];
    var gt := Greater(sig[32..], N_HALF_BYTES);
    if !gt {
      AlreadyLow(s);
      return;
    }
    var borrow := SubtractFrom(N_BYTES, sig);
    NoFinalBorrow(s, sig[32..], borrow);
  }

  lemma EmptySuffix(b: Bytes)
    requires |b| == 32
    ensures FromBytes(b[32..]) == 0
  {
  }

  lemma BorrowSuffix(n: Bytes, s: Bytes, right: Bytes, i: nat, d: byte, b: int, b': int)
    requires |n| == |s| == 32 && i < 32 && |right| == 31 - i
    requires FromBytes(right) + FromBytes(s[1 + i..]) == FromBytes(n[1 + i..]) + b * Pow256(31 - i)
    requires d - 256 * b' == n[i] - s[i] - b
    ensures FromBytes([d] + right) + FromBytes(s[i..]) == FromBytes(n[i..]) + b' * Pow256(32 - i)
  {
    hide FromBytes, Pow256;
    var p, ss, ns := Pow256(31 - i), s[1 + i..], n[1 + i..];
    assert s[i..] == [s[i]] + ss && n[i..] == [n[i]] + ns;
    FromCons(d, right);
    FromCons(s[i], ss);
    FromCons(n[i], ns);
    PowNext(31 - i);
    BorrowStep(n[i], s[i], d, p, FromBytes(ns), FromBytes(ss), FromBytes(right), b, b');
  }

  lemma PowNext(w: nat)
    ensures Pow256(w + 1) == 256 * Pow256(w)
  {
  }

  lemma AlreadyLow(s: Bytes)
    requires FromBytes(s) <= FromBytes(N_HALF_BYTES)
    ensures FromBytes(s) == DeviceForm(FromBytes(s))
  {
    hide FromBytes, Pow256;
    NHalfBytes();
  }

  lemma {:induction false} NoFinalBorrow(s: Bytes, r: Bytes, borrow: int)
    requires |r| == 32 && 0 <= borrow <= 1 && FromBytes(s) > FromBytes(N_HALF_BYTES)
    requires FromBytes(r) + FromBytes(s) == FromBytes(N_BYTES) + borrow * Pow256(32)
    ensures FromBytes(r) == DeviceForm(FromBytes(s))
    ensures borrow == 0 <==> FromBytes(s) <= N
  {
    hide FromBytes, Pow256, Fixed;
    FixedFrom(r);
    NBytes();
    NHalfBytes();
    if borrow == 0 { assert borrow * Pow256(32) == 0; } else { assert borrow * Pow256(32) == Pow256(32); }
  }

  /** On every s below N the device's bytes are the integer form, in 32 bytes: low, accepted by
      the verifier, and unchanged by normalising again. */
  lemma {:induction false} DeviceMatchesInteger(r: Bytes, s: Bytes, s': Bytes)
    requires |r| == |s| == |s'| == 32 && FromBytes(s) < N && FromBytes(s') == DeviceForm(FromBytes(s))
    ensures FromBytes(s') == NormalizeLowS(FromBytes(s)) && IsLowS(r + s')
    ensures s' == Fixed(NormalizeLowS(FromBytes(s)), 32)
    ensures DeviceForm(FromBytes(s')) == FromBytes(s')
    ensures IsLowS(r + s) <==> s' == s
  {
    FixedFrom(s');
    FixedFrom(s);
    assert (r + s')[32..] == s' && (r + s)[32..] == s;
  }
}
