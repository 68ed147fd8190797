/** The C encoders write into a caller's buffer through a position counter. A write either
    fits, or fills the buffer up to its capacity and reports overflow. */
module Writer {
  import opened Basics
  import opened BigEndian
  import opened Cbor

  const RC_OK := 0
  const RC_PARAM := -1
  const RC_OVERFLOW := -2

  /** Writing s at pos turned `before` into `after`, with this return code and new position. */
  ghost predicate Wrote(before: Bytes, after: Bytes, cap: nat, pos: nat, s: Bytes, rc: int, pos': nat) {
    && pos <= cap <= |before| && |after| == |before|
    && rc == (if pos + |s| <= cap then RC_OK else RC_OVERFLOW)
    && pos' == (if pos + |s| <= cap then pos + |s| else cap)
    && after == before[..pos] + s[..pos' - pos] + before[pos'..]
  }

  /** Two writes in a row are one write; if the first overflows the second is not made. */
  lemma WroteTwice(a: Bytes, b: Bytes, c: Bytes, cap: nat, pos: nat, s: Bytes, rc: int, pos': nat, t: Bytes, rc': int,
                   pos'': nat)
    requires Wrote(a, b, cap, pos, s, rc, pos') && rc == RC_OK && Wrote(b, c, cap, pos', t, rc', pos'')
    ensures Wrote(a, c, cap, pos, s + t, rc', pos'')
  {
    assert b[..pos'] == a[..pos] + s;
    assert b[pos''..] == a[pos''..];
    assert (s + t)[..pos'' - pos] == s + t[..pos'' - pos'];
  }

  lemma WroteOverflow(a: Bytes, b: Bytes, cap: nat, pos: nat, s: Bytes, rc: int, pos': nat, t: Bytes)
    requires Wrote(a, b, cap, pos, s, rc, pos') && rc != RC_OK
    ensures Wrote(a, b, cap, pos, s + t, rc, pos')
  {
    assert (s + t)[..pos' - pos] == s[..pos' - pos];
  }

  lemma WroteNothing(a: Bytes, cap: nat, pos: nat)
    requires pos <= cap <= |a|
    ensures Wrote(a, a, cap, pos, [], RC_OK, pos)
  {
    assert a == a[..pos] + [] + a[pos..];
  }

  method PutByte(out: array<byte>, cap: nat, pos: nat, x: byte) returns (rc: int, pos': nat)
    requires pos <= cap <= out.Length
    modifies out
    ensures Wrote(old(out[..]), out[..], cap, pos, [x], rc, pos')
  {
    if pos >= cap {
      assert [x][..0] == [];
      assert out[..] == out[..][..pos] + out[..][pos..];
      return RC_OVERFLOW, pos;
    }
    out[pos] := x;
    assert [x][..1] == [x];
    assert out[..] == old(out[..])[..pos] + [x] + old(out[..])[pos + 1..];
    return RC_OK, pos + 1;
  }

  method PutBytes(out: array<byte>, cap: nat, pos: nat, s: Bytes) returns (rc: int, pos': nat)
    requires pos <= cap <= out.Length
    modifies out
    ensures Wrote(old(out[..]), out[..], cap, pos, s, rc, pos')
  {
    hide Wrote;
    ghost var start := out[..];
    WroteNothing(start, cap, pos);
    assert s[..0] == [];
    rc, pos' := RC_OK, pos;
    PositionInside(start, out[..], cap, pos, s[..0], rc, pos');
    var i := 0;
    while i < |s|
      invariant 0 <= i <= |s| && rc == RC_OK && pos' <= cap
      invariant Wrote(start, out[..], cap, pos, s[..i], rc, pos')
    {
      ghost var mid, p := out[..], pos';
      rc, pos' := PutByte(out, cap, pos', s[i]);
      WroteTwice(start, mid, out[..], cap, pos, s[..i], RC_OK, p, [s[i]], rc, pos');
      assert s[..i] + [s[i]] == s[..i + 1];
      PositionInside(start, out[..], cap, pos, s[..i + 1], rc, pos');
      if rc != RC_OK {
        WroteOverflow(start, out[..], cap, pos, s[..i + 1], rc, pos', s[i + 1..]);
        assert s[..i + 1] + s[i + 1..] == s;
        return;
      }
      i := i + 1;
    }
    assert s[..|s|] == s;
  }

  lemma PositionInside(a: Bytes, b: Bytes, cap: nat, pos: nat, s: Bytes, rc: int, pos': nat)
    requires Wrote(a, b, cap, pos, s, rc, pos')
    ensures pos <= pos' <= cap && |b| == |a|
  {
  }

  /** The deterministic head, byte by byte. */
  method PutHead(out: array<byte>, cap: nat, pos: nat, major: nat, v: nat) returns (rc: int, pos': nat)
    requires pos <= cap <= out.Length && major < 8 && v < MAX_ARG
    modifies out
    ensures Wrote(old(out[..]), out[..], cap, pos, EncHead(major, v), rc, pos')
  {
    hide Wrote;
    if v < 24 {
      rc, pos' := PutByte(out, cap, pos, major * 32 + v);
    } else if v <= 0xff {
      FixedOne(v);
      assert [major * 32 + 24] + [v] == EncHead(major, v);
      rc, pos' := PutLong(out, cap, pos, major * 32 + 24, v, 1);
    } else if v <= 0xffff {
      rc, pos' := PutLong(out, cap, pos, major * 32 + 25, v, 2);
    } else if v <= 0xffff_ffff {
      rc, pos' := PutLong(out, cap, pos, major * 32 + 26, v, 4);
    } else {
      rc, pos' := PutLong(out, cap, pos, major * 32 + 27, v, 8);
    }
  }

  /** An initial byte and then v in n bytes, most significant first, by shifting. */
  method PutLong(out: array<byte>, cap: nat, pos: nat, first: byte, v: nat, n: nat) returns (rc: int, pos': nat)
    requires pos <= cap <= out.Length
    modifies out
    ensures Wrote(old(out[..]), out[..], cap, pos, [first] + Fixed(v, n), rc, pos')
  {
    hide Wrote;
    ghost var start, s := out[..], Fixed(v, n);
    rc, pos' := PutByte(out, cap, pos, first);
    PositionInside(start, out[..], cap, pos, [first], rc, pos');
    if rc != RC_OK {
      WroteOverflow(start, out[..], cap, pos, [first], rc, pos', s);
      return;
    }
    var i := 0;
    assert [first] + s[..0] == [first];
    while i < n
      invariant 0 <= i <= n && rc == RC_OK && pos' <= cap
      invariant Wrote(start, out[..], cap, pos, [first] + s[..i], rc, pos')
    {
      ghost var mid, p := out[..], pos';
      FixedDigit(v, n, i);
      var digit := v / Pow256(n - 1 - i) % 256;
      rc, pos' := PutByte(out, cap, pos', digit);
      WroteTwice(start, mid, out[..], cap, pos, [first] + s[..i], RC_OK, p, [digit], rc, pos');
      assert [first] + s[..i] + [s[i]] == [first] + s[..i + 1];
      PositionInside(start, out[..], cap, pos, [first] + s[..i + 1], rc, pos');
      if rc != RC_OK {
        WroteOverflow(start, out[..], cap, pos, [first] + s[..i + 1], rc, pos', s[i + 1..]);
        assert [first] + s[..i + 1] + s[i + 1..] == [first] + s;
        return;
      }
      i := i + 1;
    }
    assert s[..n] == s;
  }

  /** Digit i of the fixed-width form, by one shift of the whole value. */
  lemma {:induction false} FixedDigit(v: nat, n: nat, i: nat)
    requires i < n
    ensures Fixed(v, n)[i] == v / Pow256(n - 1 - i) % 256
    decreases n
  {
    if i < n - 1 {
      FixedDigit(v / 256, n - 1, i);
      DivDiv(v, 256, Pow256(n - 2 - i));
    }
  }

  lemma DivDiv(v: nat, a: nat, b: nat)
    requires a > 0 && b > 0
    ensures a * b > 0 && (v / a) / b == v / (a * b)
  {
    var q, r := v / a, v % a;
    var q', r' := q / b, q % b;
    TwoDigits(v, a, b, q, r, q', r');
    DigitsInside(a, b, r, r');
    DivUnique(v, a * b, q', a * r' + r);
  }

  lemma TwoDigits(v: nat, a: nat, b: nat, q: nat, r: nat, q': nat, r': nat)
    requires v == a * q + r && q == b * q' + r'
    ensures v == (a * b) * q' + (a * r' + r)
  {
    assert a * (b * q' + r') == a * (b * q') + a * r';
    assert a * (b * q') == (a * b) * q';
  }

  lemma DigitsInside(a: nat, b: nat, r: nat, r': nat)
    requires r < a && r' < b
    ensures a * b > 0 && a * r' + r < a * b
  {
    assert a * (r' + 1) == a * r' + a;
    assert a * (b - (r' + 1)) >= 0;
    assert a * (b - (r' + 1)) == a * b - a * (r' + 1);
  }

  lemma DivUnique(v: nat, d: nat, q: nat, r: nat)
    requires d > 0 && v == d * q + r && r < d
    ensures v / d == q
  {
    var k := v / d - q;
    assert d * k == r - v % d by {
      assert d * (v / d) + v % d == v;
      assert d * (v / d - q) == d * (v / d) - d * q;
    }
    MulBoundNat(d, k);
  }

  lemma MulBoundNat(d: nat, k: int)
    ensures k >= 1 ==> d * k >= d
    ensures k <= -1 ==> d * k <= -1 * d
  {
  }

  method PutBstr(out: array<byte>, cap: nat, pos: nat, s: Bytes) returns (rc: int, pos': nat)
    requires pos <= cap <= out.Length && |s| < MAX_ARG
    modifies out
    ensures Wrote(old(out[..]), out[..], cap, pos, EncBstr(s), rc, pos')
  {
    hide Wrote, EncHead;
    ghost var start := out[..];
    rc, pos' := PutHead(out, cap, pos, 2, |s|);
    PositionInside(start, out[..], cap, pos, EncHead(2, |s|), rc, pos');
    if rc != RC_OK {
      WroteOverflow(start, out[..], cap, pos, EncHead(2, |s|), rc, pos', s);
      return;
    }
    ghost var mid, p := out[..], pos';
    rc, pos' := PutBytes(out, cap, pos', s);
    WroteTwice(start, mid, out[..], cap, pos, EncHead(2, |s|), RC_OK, p, s, rc, pos');
  }
}
