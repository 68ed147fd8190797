/** Deterministic CBOR heads and byte strings (RFC 8949 section 4.2.1): the reader of the Go
    verifier, and exactly which bytes it accepts. */
module Cbor {
  import opened Basics
  import opened BigEndian

  newtype uint64 = x: int | 0 <= x < 0x1_0000_0000_0000_0000

  const MAX_ARG := 0x1_0000_0000_0000_0000

  /** The shortest head for a major type and argument. */
  function EncHead(major: nat, v: nat): (h: Bytes)
    requires major < 8
    ensures 1 <= |h| <= 9
  {
    if v < 24 then [major * 32 + v]
    else if v <= 0xff then [major * 32 + 24, v]
    else if v <= 0xffff then [major * 32 + 25] + Fixed(v, 2)
    else if v <= 0xffff_ffff then [major * 32 + 26] + Fixed(v, 4)
    else [major * 32 + 27] + Fixed(v, 8)
  }

  function EncBstr(s: Bytes): Bytes {
    EncHead(2, |s|) + s
  }

  /** The outcome of a read: a value and the position after it. */
  datatype Read<+T> = Got(value: T, pos: nat) | Fail

  datatype Head = Head(major: nat, arg: nat)

  /** `s` stands in `b` at `pos`. */
  ghost predicate StartsWith(b: Bytes, pos: nat, s: Bytes) {
    pos + |s| <= |b| && b[pos..pos + |s|] == s
  }

  function NAt(b: Bytes, pos: nat, n: nat): Read<nat> {
    if pos + n <= |b| then Got(FromBytes(b[pos..pos + n]), pos + n) else Fail
  }

  /** A multi-byte argument, refused when a shorter form exists. */
  function LongArg(b: Bytes, pos: nat, major: nat, n: nat, least: nat): Read<Head> {
    match NAt(b, pos, n)
    case Got(v, pos') => if v < least then Fail else Got(Head(major, v), pos')
    case Fail => Fail
  }

  function HeadAt(b: Bytes, pos: nat): (r: Read<Head>)
    ensures r.Got? ==> pos < r.pos <= |b|
  {
    if pos >= |b| then Fail
    else
      var major, info := b[pos] / 32, b[pos] % 32;
      if info < 24 then Got(Head(major, info), pos + 1)
      else if info == 24 then LongArg(b, pos + 1, major, 1, 24)
      else if info == 25 then LongArg(b, pos + 1, major, 2, 0x100)
      else if info == 26 then LongArg(b, pos + 1, major, 4, 0x1_0000)
      else if info == 27 then LongArg(b, pos + 1, major, 8, 0x1_0000_0000)
      else Fail
  }

  function UintAt(b: Bytes, pos: nat): (r: Read<nat>)
    ensures r.Got? ==> pos < r.pos <= |b|
  {
    match HeadAt(b, pos)
    case Got(h, pos') => if h.major == 0 then Got(h.arg, pos') else Fail
    case Fail => Fail
  }

  function BstrAt(b: Bytes, pos: nat): (r: Read<Bytes>)
    ensures r.Got? ==> pos < r.pos <= |b|
  {
    match HeadAt(b, pos)
    case Got(h, pos') =>
      if h.major == 2 && h.arg <= |b| - pos' then Got(b[pos'..pos' + h.arg], pos' + h.arg) else Fail
    case Fail => Fail
  }

  function BoolAt(b: Bytes, pos: nat): (r: Read<bool>)
    ensures r.Got? ==> pos < r.pos <= |b|
  {
    if pos >= |b| then Fail
    else if b[pos] == 0xf4 then Got(false, pos + 1)
    else if b[pos] == 0xf5 then Got(true, pos + 1)
    else Fail
  }

  // ---- exactness ----

  lemma Pow256Values()
    ensures Pow256(1) == 0x100 && Pow256(2) == 0x1_0000 && Pow256(4) == 0x1_0000_0000
    ensures Pow256(8) == MAX_ARG
  {
    assert Pow256(3) == 0x100_0000;
    assert Pow256(5) == 0x100_0000_0000;
    assert Pow256(6) == 0x1_0000_0000_0000;
    assert Pow256(7) == 0x100_0000_0000_0000;
  }

  /** A one-byte fixed field. */
  lemma FixedOne(v: nat)
    requires v < 256
    ensures Fixed(v, 1) == [v]
  {
    assert Fixed(v / 256, 0) == [];
  }

  lemma SplitSlice(b: Bytes, pos: nat, n: nat)
    requires pos < |b| && pos + 1 + n <= |b|
    ensures b[pos..pos + 1 + n] == [b[pos]] + b[pos + 1..pos + 1 + n]
  {
  }

  /** The argument width, first argument value and info bits of a long head. */
  function LongForm(v: nat): (nat, nat, nat)
  {
    if v <= 0xff then (1, 24, 24)
    else if v <= 0xffff then (2, 0x100, 25)
    else if v <= 0xffff_ffff then (4, 0x1_0000, 26)
    else (8, 0x1_0000_0000, 27)
  }

  lemma LongHead(major: nat, v: nat)
    requires major < 8 && 24 <= v < MAX_ARG
    ensures var (n, least, info) := LongForm(v);
            least <= v < Pow256(n) && EncHead(major, v) == [major * 32 + info] + Fixed(v, n)
  {
    Pow256Values();
    if v <= 0xff { FixedOne(v); }
  }

  lemma LongArgExact(b: Bytes, pos: nat, major: nat, n: nat, least: nat, v: nat)
    requires pos < |b| && least <= v < Pow256(n)
    ensures LongArg(b, pos + 1, major, n, least) == Got(Head(major, v), pos + 1 + n)
       <==> StartsWith(b, pos, [b[pos]] + Fixed(v, n))
  {
    hide Fixed, FromBytes, Pow256;
    if pos + 1 + n <= |b| {
      var s := b[pos + 1..pos + 1 + n];
      SplitSlice(b, pos, n);
      FixedFrom(s);
      FromFixed(v, n);
      var t := [b[pos]] + Fixed(v, n);
      assert t[0] == b[pos] && t[1..] == Fixed(v, n);
      assert ([b[pos]] + s)[1..] == s;
    }
  }

  lemma ShortHeadSound(b: Bytes, pos: nat)
    requires pos < |b| && b[pos] % 32 < 24
    ensures HeadAt(b, pos) == Got(Head(b[pos] / 32, b[pos] % 32), pos + 1)
    ensures StartsWith(b, pos, EncHead(b[pos] / 32, b[pos] % 32)) && |EncHead(b[pos] / 32, b[pos] % 32)| == 1
  {
    hide LongArg, Fixed;
    assert b[pos..pos + 1] == [b[pos]];
  }

  /** The info bits fix the width, and the argument is the least that needs this width or more. */
  lemma LongHeadForm(b: Bytes, pos: nat)
    requires HeadAt(b, pos).Got? && b[pos] % 32 >= 24
    ensures var h := HeadAt(b, pos).value;
            && h.major == b[pos] / 32 && 24 <= h.arg < MAX_ARG && b[pos] % 32 == LongForm(h.arg).2
            && HeadAt(b, pos).pos == pos + 1 + LongForm(h.arg).0
  {
    hide Pow256, FromBytes, Fixed;
    Pow256Values();
    var info := b[pos] % 32;
    var n := if info == 24 then 1 else if info == 25 then 2 else if info == 26 then 4 else 8;
    FixedFrom(b[pos + 1..pos + 1 + n]);
  }

  /** Whatever HeadAt reads is a shortest head. */
  lemma HeadSound(b: Bytes, pos: nat)
    requires HeadAt(b, pos).Got?
    ensures var h := HeadAt(b, pos).value;
            && h.major < 8 && h.arg < MAX_ARG
            && StartsWith(b, pos, EncHead(h.major, h.arg))
            && HeadAt(b, pos).pos == pos + |EncHead(h.major, h.arg)|
  {
    hide HeadAt, EncHead, StartsWith, LongArg, LongForm, Fixed, Pow256;
    if b[pos] % 32 < 24 {
      ShortHeadSound(b, pos);
    } else {
      LongHeadForm(b, pos);
      var h := HeadAt(b, pos).value;
      var f := LongForm(h.arg);
      LongHead(h.major, h.arg);
      HeadAtLong(b, pos, h.arg);
      LongArgExact(b, pos, h.major, f.0, f.1, h.arg);
    }
  }

  lemma ShortHeadComplete(b: Bytes, pos: nat, major: nat, v: nat)
    requires major < 8 && v < 24 && StartsWith(b, pos, EncHead(major, v))
    ensures HeadAt(b, pos) == Got(Head(major, v), pos + |EncHead(major, v)|)
  {
    hide LongArg, Fixed;
    FirstByte(b, pos, EncHead(major, v));
  }

  lemma FirstByte(b: Bytes, pos: nat, s: Bytes)
    requires StartsWith(b, pos, s) && s != []
    ensures pos < |b| && b[pos] == s[0]
  {
    assert b[pos] == b[pos..pos + |s|][0];
  }

  lemma HeadAtLong(b: Bytes, pos: nat, v: nat)
    requires pos < |b| && b[pos] % 32 == LongForm(v).2
    ensures HeadAt(b, pos) == LongArg(b, pos + 1, b[pos] / 32, LongForm(v).0, LongForm(v).1)
  {
    hide LongArg;
  }

  /** Every shortest head is read back. */
  lemma HeadComplete(b: Bytes, pos: nat, major: nat, v: nat)
    requires major < 8 && v < MAX_ARG && StartsWith(b, pos, EncHead(major, v))
    ensures HeadAt(b, pos) == Got(Head(major, v), pos + |EncHead(major, v)|)
  {
    hide Pow256, FromBytes, Fixed, EncHead, HeadAt, LongArg, LongForm;
    if v < 24 {
      ShortHeadComplete(b, pos, major, v);
    } else {
      var e, f := EncHead(major, v), LongForm(v);
      LongHead(major, v);
      FirstByte(b, pos, e);
      assert b[pos] / 32 == major && b[pos] % 32 == f.2 by { LongInfo(major, v); }
      HeadAtLong(b, pos, v);
      LongArgExact(b, pos, major, f.0, f.1, v);
    }
  }

  lemma LongInfo(major: nat, v: nat)
    ensures (major * 32 + LongForm(v).2) / 32 == major && (major * 32 + LongForm(v).2) % 32 == LongForm(v).2
  {
  }

  lemma ConcatAt(b: Bytes, pos: nat, s: Bytes, t: Bytes)
    ensures StartsWith(b, pos, s + t) <==> StartsWith(b, pos, s) && StartsWith(b, pos + |s|, t)
  {
    if pos + |s| + |t| <= |b| {
      var w := b[pos..pos + |s| + |t|];
      assert w[..|s|] == b[pos..pos + |s|] && w[|s|..] == b[pos + |s|..pos + |s| + |t|];
      assert (s + t)[..|s|] == s && (s + t)[|s|..] == t;
      assert w == w[..|s|] + w[|s|..];
    }
  }

  /** A byte string is read exactly where its encoding stands. */
  lemma BstrExact(b: Bytes, pos: nat, s: Bytes)
    requires |s| < MAX_ARG
    ensures BstrAt(b, pos) == Got(s, pos + |EncBstr(s)|) <==> StartsWith(b, pos, EncBstr(s))
  {
    hide EncHead, HeadAt;
    ConcatAt(b, pos, EncHead(2, |s|), s);
    if StartsWith(b, pos, EncBstr(s)) {
      HeadComplete(b, pos, 2, |s|);
    }
    if BstrAt(b, pos) == Got(s, pos + |EncBstr(s)|) {
      HeadSound(b, pos);
    }
  }

  lemma BstrSound(b: Bytes, pos: nat)
    requires BstrAt(b, pos).Got?
    ensures |BstrAt(b, pos).value| < MAX_ARG
    ensures BstrAt(b, pos) == Got(BstrAt(b, pos).value, pos + |EncBstr(BstrAt(b, pos).value)|)
  {
    HeadSound(b, pos);
  }

  lemma UintExact(b: Bytes, pos: nat, v: nat)
    requires v < MAX_ARG
    ensures UintAt(b, pos) == Got(v, pos + |EncHead(0, v)|) <==> StartsWith(b, pos, EncHead(0, v))
  {
    hide EncHead, HeadAt;
    if StartsWith(b, pos, EncHead(0, v)) {
      HeadComplete(b, pos, 0, v);
    }
    if UintAt(b, pos) == Got(v, pos + |EncHead(0, v)|) {
      HeadSound(b, pos);
    }
  }

  lemma UintSound(b: Bytes, pos: nat)
    requires UintAt(b, pos).Got?
    ensures UintAt(b, pos).value < MAX_ARG
    ensures UintAt(b, pos) == Got(UintAt(b, pos).value, pos + |EncHead(0, UintAt(b, pos).value)|)
  {
    HeadSound(b, pos);
  }

  // ---- what a head means ----

  /** A head read as RFC 8949 section 3 describes it: major type in the top three bits, then the
      argument itself or the number of bytes it takes, big-endian; and no shorter form exists. */
  lemma {:induction false} HeadMeaning(major: nat, v: nat)
    requires major < 8 && v < MAX_ARG
    ensures var h := EncHead(major, v);
            && h[0] / 32 == major
            && (v < 24 <==> |h| == 1) && (24 <= v < 0x100 <==> |h| == 2) && (0x100 <= v < 0x1_0000 <==> |h| == 3)
            && (0x1_0000 <= v < 0x1_0000_0000 <==> |h| == 5) && (0x1_0000_0000 <= v <==> |h| == 9)
            && (if |h| == 1 then v == h[0] % 32 else v == FromBytes(h[1..]))
            && (|h| > 1 ==> h[0] % 32 == if |h| == 2 then 24 else if |h| == 3 then 25 else if |h| == 5 then 26 else 27)
  {
    hide FromBytes, Fixed, Pow256;
    if v >= 24 {
      var (n, least, info) := LongForm(v);
      LongHead(major, v);
      FromFixed(v, n);
      assert EncHead(major, v)[1..] == Fixed(v, n);
    }
  }

  /** Examples of RFC 8949 appendix A: 0, 23, 24, 1000, 1000000, 2^64 - 1, -7 and h'01020304'. */
  lemma HeadExamples()
    ensures EncHead(0, 0) == [0x00] && EncHead(0, 23) == [0x17] && EncHead(0, 24) == [0x18, 0x18]
    ensures EncHead(0, 1000) == [0x19, 0x03, 0xe8] && EncHead(0, 1000000) == [0x1a, 0x00, 0x0f, 0x42, 0x40]
    ensures EncHead(0, 18446744073709551615) == [0x1b, 0xff, 0xff, 0xff, 0xff, 0xff, 0xff, 0xff, 0xff]
    ensures EncHead(1, 6) == [0x26] && EncBstr([1, 2, 3, 4]) == [0x44, 1, 2, 3, 4]
  {
    FixedExamples();
    hide Fixed;
  }

  lemma FixedExamples()
    ensures Fixed(1000, 2) == [0x03, 0xe8] && Fixed(1000000, 4) == [0x00, 0x0f, 0x42, 0x40]
    ensures Fixed(18446744073709551615, 8) == [0xff, 0xff, 0xff, 0xff, 0xff, 0xff, 0xff, 0xff]
  {
  }

  // ---- the reader ----

  class Reader {
    const b: Bytes
    var pos: nat

    constructor (b: Bytes)
      ensures this.b == b && pos == 0
    {
      this.b := b;
      pos := 0;
    }

    method ReadByte() returns (r: Option<byte>)
      modifies this`pos
      ensures r == if old(pos) < |b| then Some(b[old(pos)]) else None
      ensures pos == if old(pos) < |b| then old(pos) + 1 else old(pos)
    {
      if pos >= |b| { return None; }
      r := Some(b[pos]);
      pos := pos + 1;
    }

    /** The accumulator is a 64-bit integer; eight bytes fill it exactly. */
    method ReadN(n: nat) returns (r: Option<uint64>)
      requires n <= 8
      modifies this`pos
      ensures old(pos) <= pos && (old(pos) <= |b| ==> pos <= |b|)
      ensures r.Some? <==> NAt(b, old(pos), n).Got?
      ensures r.Some? ==> NAt(b, old(pos), n) == Got(r.value as nat, pos)
    {
      hide FromBytes, Fixed, Pow256;
      NoBytes(b, pos);
      var v: uint64 := 0;
      var i := 0;
      while i < n
        invariant 0 <= i <= n && pos == old(pos) + i && (pos <= |b| || i == 0)
        invariant i > 0 ==> v as nat == FromBytes(b[old(pos)..pos])
        invariant i == 0 ==> v == 0
      {
        if i > 0 { FixedFrom(b[old(pos)..pos]); }
        ShiftFits(v as nat, i, n);
        var x := ReadByte();
        if x.None? { return None; }
        v := v * 256 + x.value as uint64;
        AppendByte(b, old(pos), pos);
        i := i + 1;
      }
      if n == 0 && pos > |b| { return None; }
      return Some(v);
    }

    method ReadHead() returns (r: Option<Head>)
      modifies this`pos
      ensures old(pos) <= pos && (old(pos) <= |b| ==> pos <= |b|)
      ensures r.Some? <==> HeadAt(b, old(pos)).Got?
      ensures r.Some? ==> HeadAt(b, old(pos)) == Got(r.value, pos)
    {
      hide FromBytes;
      var ib := ReadByte();
      if ib.None? { return None; }
      var major, info := ib.value / 32, ib.value % 32;
      if info < 24 { return Some(Head(major, info)); }
      if info == 24 {
        ghost var p := pos;
        var x := ReadByte();
        if p < |b| { OneByte(b, p); }
        if x.None? || x.value < 24 { return None; }
        return Some(Head(major, x.value));
      }
      if info > 27 { return None; }
      var n := if info == 25 then 2 else if info == 26 then 4 else 8;
      var v := ReadN(n);
      if v.None? { return None; }
      var max: uint64 := if n == 2 then 0xff else if n == 4 then 0xffff else 0xffff_ffff;
      if v.value <= max { return None; }
      return Some(Head(major, v.value as nat));
    }

    method ReadUint() returns (r: Option<nat>)
      modifies this`pos
      ensures old(pos) <= pos && (old(pos) <= |b| ==> pos <= |b|)
      ensures r.Some? <==> UintAt(b, old(pos)).Got?
      ensures r.Some? ==> UintAt(b, old(pos)) == Got(r.value, pos)
    {
      hide HeadAt;
      var h := ReadHead();
      if h.None? || h.value.major != 0 { return None; }
      return Some(h.value.arg);
    }

    method ReadBstr() returns (r: Option<Bytes>)
      modifies this`pos
      ensures old(pos) <= pos && (old(pos) <= |b| ==> pos <= |b|)
      ensures r.Some? <==> BstrAt(b, old(pos)).Got?
      ensures r.Some? ==> BstrAt(b, old(pos)) == Got(r.value, pos)
    {
      hide HeadAt;
      var h := ReadHead();
      if h.None? || h.value.major != 2 { return None; }
      var n := h.value.arg;
      if n > |b| - pos { return None; }
      r := Some(b[pos..pos + n]);
      pos := pos + n;
    }

    method ReadBool() returns (r: Option<bool>)
      modifies this`pos
      ensures r.Some? <==> BoolAt(b, old(pos)).Got?
      ensures r.Some? ==> BoolAt(b, old(pos)) == Got(r.value, pos)
    {
      var x := ReadByte();
      if x.None? { return None; }
      if x.value == 0xf4 { return Some(false); }
      if x.value == 0xf5 { return Some(true); }
      return None;
    }
  }

  lemma OneByte(b: Bytes, p: nat)
    requires p < |b|
    ensures FromBytes(b[p..p + 1]) == b[p]
  {
    assert Front(b[p..p + 1]) == [];
  }

  lemma NoBytes(b: Bytes, pos: nat)
    ensures pos <= |b| ==> FromBytes(b[pos..pos]) == 0
  {
  }

  lemma AppendByte(b: Bytes, start: nat, end: nat)
    requires start < end <= |b|
    ensures FromBytes(b[start..end]) == 256 * FromBytes(b[start..end - 1]) + b[end - 1]
    ensures start == end - 1 ==> FromBytes(b[start..end]) == b[end - 1]
  {
    assert Front(b[start..end]) == b[start..end - 1];
  }

  /** Seven bytes shifted left by eight bits still fit. */
  lemma ShiftFits(v: nat, i: nat, n: nat)
    requires i < n <= 8 && (i == 0 ==> v == 0) && (i > 0 ==> v < Pow256(i))
    ensures v * 256 + 255 < MAX_ARG
  {
    Pow256Values();
    Pow256Monotone(i + 1, 8);
  }

  lemma {:induction false} Pow256Monotone(i: nat, j: nat)
    requires i <= j
    ensures Pow256(i) <= Pow256(j)
    decreases j
  {
    if i < j { Pow256Monotone(i, j - 1); }
  }
}
