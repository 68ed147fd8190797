/** The text encodings the canonical notes use: lines, decimal numbers, hex and base64, each
    with the parser of the Go standard library. */
module Text {
  import opened Basics

  const LF: byte := 10
  const CR: byte := 13

  // ---- lines ----

  predicate NoLF(s: Bytes) {
    forall i :: 0 <= i < |s| ==> s[i] != LF
  }

  /** bytes.Split at newlines: always at least one part. */
  function SplitLF(b: Bytes): (parts: seq<Bytes>)
    ensures |parts| >= 1
  {
    if b == [] then [[]]
    else if b[0] == LF then [[]] + SplitLF(b[1..])
    else
      var rest := SplitLF(b[1..]);
      [[b[0]] + rest[0]] + rest[1..]
  }

  function CountLF(b: Bytes): nat {
    if b == [] then 0 else (if b[0] == LF then 1 else 0) + CountLF(b[1..])
  }

  lemma {:induction false} SplitCounts(b: Bytes)
    ensures |SplitLF(b)| == 1 + CountLF(b)
  {
    if b != [] { SplitCounts(b[1..]); }
  }

  lemma {:induction false} CountConcat(s: Bytes, t: Bytes)
    ensures CountLF(s + t) == CountLF(s) + CountLF(t)
  {
    if s == [] {
      assert s + t == t;
    } else {
      CountConcat(s[1..], t);
      assert (s + t)[1..] == s[1..] + t;
    }
  }

  lemma {:induction false} CountNone(s: Bytes)
    ensures CountLF(s) == 0 <==> NoLF(s)
  {
    if s != [] {
      CountNone(s[1..]);
      assert s == [s[0]] + s[1..];
    }
  }

  lemma {:induction false} SplitLine(s: Bytes, t: Bytes)
    requires NoLF(s)
    ensures SplitLF(s + [LF] + t) == [s] + SplitLF(t)
    decreases s
  {
    var b := s + [LF] + t;
    if s == [] {
      assert b[1..] == t;
    } else {
      SplitLine(s[1..], t);
      assert b[1..] == s[1..] + [LF] + t;
      assert [s[0]] + s[1..] == s;
    }
  }

  lemma {:induction false} SplitLast(s: Bytes)
    requires NoLF(s)
    ensures SplitLF(s) == [s]
  {
    if s != [] {
      SplitLast(s[1..]);
      assert [s[0]] + s[1..] == s;
    }
  }

  /** No part contains a newline. */
  lemma {:induction false} PartsNoLF(b: Bytes, i: nat)
    requires i < |SplitLF(b)|
    ensures NoLF(SplitLF(b)[i])
  {
    if b != [] {
      var rest := SplitLF(b[1..]);
      if b[0] == LF {
        if i > 0 { PartsNoLF(b[1..], i - 1); }
      } else {
        PartsNoLF(b[1..], i);
        assert SplitLF(b)[i] == if i == 0 then [b[0]] + rest[0] else rest[i];
      }
    }
  }

  /** bytes.TrimRight of newlines. */
  function TrimLF(b: Bytes): Bytes {
    if b != [] && Last(b) == LF then TrimLF(Front(b)) else b
  }

  /** One trailing newline after a non-empty line is all that gets trimmed. */
  lemma TrimOne(s: Bytes)
    requires s != [] && Last(s) != LF
    ensures TrimLF(s + [LF]) == s
  {
    assert Front(s + [LF]) == s;
  }

  /** The receipt parser's own splitter, scanning with a start index. */
  method ScanLines(s: Bytes) returns (parts: seq<Bytes>)
    ensures parts == SplitLF(s)
  {
    hide SplitLF;
    parts := [];
    var start, i := 0, 0;
    assert s[0..] == s;
    while i < |s|
      invariant 0 <= start <= i <= |s|
      invariant forall j :: start <= j < i ==> s[j] != LF
      invariant SplitLF(s) == parts + SplitLF(s[start..])
    {
      if s[i] == LF {
        assert s[start..] == s[start..i] + [LF] + s[i + 1..];
        SplitLine(s[start..i], s[i + 1..]);
        assert parts + ([s[start..i]] + SplitLF(s[i + 1..])) == parts + [s[start..i]] + SplitLF(s[i + 1..]);
        parts := parts + [s[start..i]];
        start := i + 1;
      }
      i := i + 1;
    }
    assert s[start..i] == s[start..];
    SplitLast(s[start..]);
    parts := parts + [s[start..]];
  }

  // ---- decimal ----

  predicate IsDigit(c: byte) {
    48 <= c <= 57
  }

  predicate AllDigits(s: Bytes) {
    forall i :: 0 <= i < |s| ==> IsDigit(s[i])
  }

  function Dec(n: nat): (s: Bytes)
    ensures s != [] && AllDigits(s)
  {
    if n < 10 then [48 + n] else Dec(n / 10) + [48 + n % 10]
  }

  function DigitsValue(s: Bytes): nat
    requires AllDigits(s)
  {
    if s == [] then 0 else 10 * DigitsValue(Front(s)) + (Last(s) - 48)
  }

  lemma {:induction false} DecValue(n: nat)
    ensures DigitsValue(Dec(n)) == n
  {
    if n >= 10 {
      DecValue(n / 10);
      assert Front(Dec(n)) == Dec(n / 10);
    } else {
      assert Front([48 + n]) == [];
    }
  }

  const MAX_INT := 0x7fff_ffff_ffff_ffff
  const MAX_UINT := 0xffff_ffff_ffff_ffff

  /** strconv.Atoi: an optional sign, digits, the range of a 64-bit int. */
  function Atoi(s: Bytes): Option<int> {
    var signed := s != [] && (s[0] == 43 || s[0] == 45);
    var digits := if signed then s[1..] else s;
    if digits == [] || !AllDigits(digits) then None
    else
      var v := DigitsValue(digits);
      if signed && s[0] == 45 then (if v > MAX_INT + 1 then None else Some(0 - v))
      else if v > MAX_INT then None else Some(v)
  }

  /** strconv.ParseUint(s, 10, 64): digits only. */
  function ParseUint(s: Bytes): Option<nat> {
    if s == [] || !AllDigits(s) || DigitsValue(s) > MAX_UINT then None else Some(DigitsValue(s))
  }

  lemma DecParses(n: nat)
    ensures n <= MAX_INT ==> Atoi(Dec(n)) == Some(n)
    ensures n <= MAX_UINT ==> ParseUint(Dec(n)) == Some(n)
    ensures NoLF(Dec(n))
  {
    DecValue(n);
    assert IsDigit(Dec(n)[0]);
  }

  // ---- hex ----

  function HexDigit(v: nat): byte
    requires v < 16
  {
    if v < 10 then 48 + v else 87 + v
  }

  function HexValue(c: byte): Option<nat> {
    if 48 <= c <= 57 then Some(c - 48)
    else if 97 <= c <= 102 then Some(c - 87)
    else if 65 <= c <= 70 then Some(c - 55)
    else None
  }

  function HexEnc(b: Bytes): (s: Bytes)
    ensures |s| == 2 * |b| && NoLF(s)
  {
    if b == [] then [] else [HexDigit(b[0] / 16), HexDigit(b[0] % 16)] + HexEnc(b[1..])
  }

  /** hex.DecodeString: upper or lower case, an even number of digits. */
  function HexDec(s: Bytes): (b: Option<Bytes>)
    ensures b.Some? ==> |s| == 2 * |b.value|
  {
    if s == [] then Some([])
    else if |s| == 1 then None
    else
      match (HexValue(s[0]), HexValue(s[1]), HexDec(s[2..]))
      case (Some(hi), Some(lo), Some(rest)) => NibblesFit(s[0], s[1]); Some([16 * hi + lo] + rest)
      case _ => None
  }

  lemma NibblesFit(c: byte, d: byte)
    ensures HexValue(c).Some? ==> HexValue(c).value < 16
    ensures HexValue(d).Some? ==> HexValue(d).value < 16
  {
  }

  lemma {:induction false} HexRoundTrip(b: Bytes)
    ensures HexDec(HexEnc(b)) == Some(b)
  {
    if b != [] {
      HexRoundTrip(b[1..]);
      var s := HexEnc(b);
      assert s[2..] == HexEnc(b[1..]);
      assert b == [b[0]] + b[1..];
    }
  }

  // ---- base64 ----

  const PAD: byte := 61

  function B64Char(v: nat): byte
    requires v < 64
  {
    if v < 26 then 65 + v else if v < 52 then 71 + v else if v < 62 then v - 4 else if v == 62 then 43 else 47
  }

  function B64Value(c: byte): (v: Option<nat>)
    ensures v.Some? ==> v.value < 64
  {
    if 65 <= c <= 90 then Some(c - 65)
    else if 97 <= c <= 122 then Some(c - 71)
    else if 48 <= c <= 57 then Some(c + 4)
    else if c == 43 then Some(62)
    else if c == 47 then Some(63)
    else None
  }

  function B64Enc(b: Bytes): Bytes {
    if b == [] then []
    else if |b| == 1 then [B64Char(b[0] / 4), B64Char(b[0] % 4 * 16), PAD, PAD]
    else if |b| == 2 then
      [B64Char(b[0] / 4), B64Char(b[0] % 4 * 16 + b[1] / 16), B64Char(b[1] % 16 * 4), PAD]
    else
      [B64Char(b[0] / 4), B64Char(b[0] % 4 * 16 + b[1] / 16), B64Char(b[1] % 16 * 4 + b[2] / 64), B64Char(b[2] % 64)]
      + B64Enc(b[3..])
  }

  /** The decoder skips newlines and carriage returns wherever they stand. */
  function DropBreaks(s: Bytes): Bytes {
    if s == [] then []
    else if s[0] == LF || s[0] == CR then DropBreaks(s[1..])
    else [s[0]] + DropBreaks(s[1..])
  }

  /** The bytes of one group and whether it is padded; spare bits are not checked. */
  function Group(c0: byte, c1: byte, c2: byte, c3: byte): Option<(Bytes, bool)> {
    match (B64Value(c0), B64Value(c1))
    case (Some(w), Some(x)) =>
      if c2 == PAD then
        if c3 == PAD then Some(([w * 4 + x / 16], true)) else None
      else
        (match B64Value(c2)
         case None => None
         case Some(y) =>
           if c3 == PAD then Some(([w * 4 + x / 16, x % 16 * 16 + y / 4], true))
           else
             match B64Value(c3)
             case None => None
             case Some(z) => Some(([w * 4 + x / 16, x % 16 * 16 + y / 4, y % 4 * 64 + z], false)))
    case _ => None
  }

  /** Groups of four; a padded group must be the last one. */
  function Quanta(s: Bytes): Option<Bytes> {
    if s == [] then Some([])
    else if |s| < 4 then None
    else
      match Group(s[0], s[1], s[2], s[3])
      case None => None
      case Some((bytes, padded)) =>
        if padded then (if |s| == 4 then Some(bytes) else None)
        else
          match Quanta(s[4..])
          case None => None
          case Some(rest) => Some(bytes + rest)
  }

  /** base64.StdEncoding.DecodeString. */
  function B64Dec(s: Bytes): Option<Bytes> {
    Quanta(DropBreaks(s))
  }

  lemma CharValue(v: nat)
    requires v < 64
    ensures B64Value(B64Char(v)) == Some(v) && B64Char(v) != PAD && B64Char(v) != LF && B64Char(v) != CR
  {
  }

  predicate NoBreaks(s: Bytes) {
    forall i :: 0 <= i < |s| ==> s[i] != LF && s[i] != CR
  }

  lemma {:induction false} DropNothing(s: Bytes)
    requires NoBreaks(s)
    ensures DropBreaks(s) == s
  {
    if s != [] {
      DropNothing(s[1..]);
      assert s == [s[0]] + s[1..];
    }
  }

  lemma {:induction false} EncNoBreaks(b: Bytes)
    ensures NoBreaks(B64Enc(b))
    decreases |b|
  {
    if |b| >= 3 { EncNoBreaks(b[3..]); }
  }

  /** The fourth group character restores the third byte, and so on. */
  lemma GroupRestored(x: byte, y: byte, z: byte)
    ensures var (a, b, c, d) := (x / 4, x % 4 * 16 + y / 16, y % 16 * 4 + z / 64, z % 64);
            && a < 64 && b < 64 && c < 64 && d < 64
            && a * 4 + b / 16 == x && b % 16 * 16 + c / 4 == y && c % 4 * 64 + d == z
  {
  }

  /** A full group is decoded to its three bytes. */
  lemma FullGroup(x: byte, y: byte, z: byte)
    ensures Group(B64Char(x / 4), B64Char(x % 4 * 16 + y / 16), B64Char(y % 16 * 4 + z / 64), B64Char(z % 64))
         == Some(([x, y, z], false))
  {
    GroupRestored(x, y, z);
    CharValue(x / 4);
    CharValue(x % 4 * 16 + y / 16);
    CharValue(y % 16 * 4 + z / 64);
    CharValue(z % 64);
    hide B64Char, B64Value;
  }

  lemma PaddedGroups(x: byte, y: byte)
    ensures Group(B64Char(x / 4), B64Char(x % 4 * 16 + y / 16), B64Char(y % 16 * 4), PAD) == Some(([x, y], true))
    ensures Group(B64Char(x / 4), B64Char(x % 4 * 16), PAD, PAD) == Some(([x], true))
  {
    GroupRestored(x, y, 0);
    GroupRestored(x, 0, 0);
    CharValue(x / 4);
    CharValue(x % 4 * 16 + y / 16);
    CharValue(x % 4 * 16);
    CharValue(y % 16 * 4);
    hide B64Char, B64Value;
  }

  lemma {:induction false} QuantaRoundTrip(b: Bytes)
    ensures Quanta(B64Enc(b)) == Some(b)
    decreases |b|
  {
    hide B64Char, Group;
    if b == [] {
    } else if |b| == 1 {
      PaddedGroups(b[0], 0);
      assert b == [b[0]];
    } else if |b| == 2 {
      PaddedGroups(b[0], b[1]);
      assert b == [b[0], b[1]];
    } else {
      QuantaRoundTrip(b[3..]);
      FullGroup(b[0], b[1], b[2]);
      assert B64Enc(b)[4..] == B64Enc(b[3..]);
      assert b == [b[0], b[1], b[2]] + b[3..];
    }
  }

  lemma B64RoundTrip(b: Bytes)
    ensures B64Dec(B64Enc(b)) == Some(b)
  {
    EncNoBreaks(b);
    DropNothing(B64Enc(b));
    QuantaRoundTrip(b);
  }
}
