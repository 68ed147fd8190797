/** The text encodings spelled out: which strings each decoder accepts, and for what. */
module TextExact {
  import opened Basics
  import opened Text

  // ---- lines ----

  function Newlines(k: nat): (s: Bytes)
    ensures |s| == k
  {
    seq(k, _ => LF)
  }

  ghost predicate NoneHasLF(parts: seq<Bytes>) {
    forall i :: 0 <= i < |parts| ==> LF !in parts[i]
  }

  /** Parts with a newline between each two. */
  function Joined(parts: seq<Bytes>): Bytes
    requires parts != []
  {
    if |parts| == 1 then parts[0] else parts[0] + [LF] + Joined(parts[1..])
  }

  lemma JoinedCons(part: Bytes, rest: seq<Bytes>)
    requires rest != []
    ensures Joined([part] + rest) == part + [LF] + Joined(rest)
  {
    assert ([part] + rest)[1..] == rest;
  }

  lemma {:induction false} JoinedPrefix(x: byte, parts: seq<Bytes>)
    requires parts != []
    ensures Joined([[x] + parts[0]] + parts[1..]) == [x] + Joined(parts)
  {
    if |parts| > 1 {
      JoinedCons([x] + parts[0], parts[1..]);
      hide Joined;
      assert parts[0] + [LF] + Joined(parts[1..]) == parts[0] + ([LF] + Joined(parts[1..]));
      JoinedHead(parts);
    }
  }

  lemma JoinedHead(parts: seq<Bytes>)
    requires |parts| > 1
    ensures Joined(parts) == parts[0] + [LF] + Joined(parts[1..])
  {
  }

  lemma {:induction false} JoinedSplit(b: Bytes)
    ensures Joined(SplitLF(b)) == b
  {
    if b != [] {
      var rest := SplitLF(b[1..]);
      JoinedSplit(b[1..]);
      JoinedCons([], rest);
      JoinedPrefix(b[0], rest);
      hide Joined;
      assert b == [b[0]] + b[1..] && [] + [LF] == [LF];
    }
  }

  lemma {:induction false} SplitJoined(parts: seq<Bytes>)
    requires parts != [] && NoneHasLF(parts)
    ensures SplitLF(Joined(parts)) == parts
  {
    if |parts| == 1 {
      SplitLast(parts[0]);
    } else {
      SplitJoined(parts[1..]);
      SplitLine(parts[0], Joined(parts[1..]));
    }
  }

  /** Splitting gives exactly the newline-free parts that join to the string again. */
  lemma {:induction false} SplitExactly(b: Bytes, parts: seq<Bytes>)
    ensures SplitLF(b) == parts <==> parts != [] && NoneHasLF(parts) && b == Joined(parts)
  {
    hide SplitLF, Joined;
    if SplitLF(b) == parts {
      JoinedSplit(b);
      forall i | 0 <= i < |parts| ensures LF !in parts[i] { PartsNoLF(b, i); }
    }
    if parts != [] && NoneHasLF(parts) && b == Joined(parts) { SplitJoined(parts); }
  }

  lemma LastIsLF(t: Bytes, k: nat)
    ensures k > 0 ==> Last(t + Newlines(k)) == LF
    ensures k == 0 ==> t + Newlines(k) == t
  {
  }

  /** Trimming removes exactly the newlines at the end. */
  lemma {:induction false} TrimExactly(b: Bytes, t: Bytes)
    ensures TrimLF(b) == t <==> (t == [] || Last(t) != LF) && exists k: nat :: b == t + Newlines(k)
    decreases |b|
  {
    if b != [] && Last(b) == LF {
      TrimExactly(Front(b), t);
      assert b == Front(b) + [LF];
      if k: nat :| Front(b) == t + Newlines(k) {
        assert b == t + Newlines(k + 1);
      }
      if k: nat :| b == t + Newlines(k) {
        if k == 0 {
          assert b == t;
        } else {
          assert Front(b) == t + Newlines(k - 1);
        }
      }
    } else {
      assert b == b + Newlines(0);
      if k: nat :| b == t + Newlines(k) {
        LastIsLF(t, k);
        assert b == t;
      }
    }
  }

  // ---- decimal ----

  function ZeroDigits(k: nat): (s: Bytes)
    ensures |s| == k && AllDigits(s)
  {
    seq(k, _ => 48)
  }

  lemma DecExamples()
    ensures Dec(0) == [48] && Dec(9) == [57] && Dec(10) == [49, 48]
    ensures Dec(1234567890) == [49, 50, 51, 52, 53, 54, 55, 56, 57, 48]
  {
  }

  lemma DecSnoc(w: nat, d: nat)
    requires d < 10
    ensures Dec(10 * w + d) == if w == 0 then [48 + d] else Dec(w) + [48 + d]
  {
  }

  lemma ZerosSnoc(k: nat)
    ensures ZeroDigits(k) + [48] == ZeroDigits(k + 1)
  {
  }

  /** A digit string is the decimal numeral of its value behind zeros. */
  lemma {:induction false} DigitsSpelled(s: Bytes) returns (k: nat)
    requires AllDigits(s) && s != []
    ensures s == ZeroDigits(k) + Dec(DigitsValue(s))
    decreases |s|
  {
    var front, d := Front(s), Last(s) - 48;
    assert s == front + [48 + d];
    DecSnoc(DigitsValue(front), d);
    if front == [] {
      k := 0;
    } else {
      k := DigitsSpelled(front);
      DecSnoc(0, 0);
      ZerosSnoc(k);
      hide Dec, ZeroDigits;
      if DigitsValue(front) == 0 {
        k := k + 1;
      } else {
        assert s == ZeroDigits(k) + (Dec(DigitsValue(front)) + [48 + d]);
      }
    }
  }

  lemma {:induction false} ValueConcat(s: Bytes, t: Bytes)
    requires AllDigits(s) && AllDigits(t) && DigitsValue(s) == 0
    ensures AllDigits(s + t) && DigitsValue(s + t) == DigitsValue(t)
    decreases |t|
  {
    if t == [] {
      assert s + t == s;
    } else {
      ValueConcat(s, Front(t));
      assert Front(s + t) == s + Front(t) && Last(s + t) == Last(t);
    }
  }

  lemma {:induction false} ZerosValue(k: nat)
    ensures DigitsValue(ZeroDigits(k)) == 0
  {
    if k > 0 {
      ZerosValue(k - 1);
      assert Front(ZeroDigits(k)) == ZeroDigits(k - 1);
    }
  }

  lemma NumeralValue(k: nat, v: nat)
    ensures AllDigits(ZeroDigits(k) + Dec(v)) && DigitsValue(ZeroDigits(k) + Dec(v)) == v
  {
    ZerosValue(k);
    DecValue(v);
    ValueConcat(ZeroDigits(k), Dec(v));
  }

  lemma NumeralExactly(s: Bytes, v: nat)
    ensures (s != [] && AllDigits(s) && DigitsValue(s) == v) <==> exists k: nat :: s == ZeroDigits(k) + Dec(v)
  {
    hide DigitsValue, Dec;
    if s != [] && AllDigits(s) && DigitsValue(s) == v { var _ := DigitsSpelled(s); }
    if k: nat :| s == ZeroDigits(k) + Dec(v) { NumeralValue(k, v); }
  }

  /** ParseUint accepts exactly the decimal numerals of 64-bit numbers, with leading zeros. */
  lemma UintExactly(s: Bytes, v: nat)
    ensures ParseUint(s) == Some(v) <==> v <= 0xffff_ffff_ffff_ffff && exists k: nat :: s == ZeroDigits(k) + Dec(v)
  {
    NumeralExactly(s, v);
    hide DigitsValue, Dec;
  }

  ghost predicate Numeral(s: Bytes, v: nat) {
    s != [] && AllDigits(s) && DigitsValue(s) == v
  }

  lemma AtoiForm(s: Bytes, v: nat)
    ensures Atoi(s) == Some(v)
       <==> v <= 0x7fff_ffff_ffff_ffff && s != []
            && (Numeral(s, v) || (s[0] == 43 && Numeral(s[1..], v)) || (s[0] == 45 && v == 0 && Numeral(s[1..], v)))
  {
    hide DigitsValue;
    if s != [] && (s[0] == 43 || s[0] == 45) { assert !IsDigit(s[0]); }
  }

  lemma SignedNumeral(s: Bytes, v: nat, sign: byte)
    ensures (s != [] && s[0] == sign && Numeral(s[1..], v)) <==> exists k: nat :: s == [sign] + (ZeroDigits(k) + Dec(v))
  {
    if s != [] { NumeralExactly(s[1..], v); }
    hide DigitsValue, Dec, AllDigits, ZeroDigits;
    if s != [] && s[0] == sign && Numeral(s[1..], v) {
      var k: nat :| s[1..] == ZeroDigits(k) + Dec(v);
      assert s == [sign] + (ZeroDigits(k) + Dec(v));
    }
    if k: nat :| s == [sign] + (ZeroDigits(k) + Dec(v)) {
      assert s[1..] == ZeroDigits(k) + Dec(v);
    }
  }

  /** Atoi reads a number that is not negative exactly from its decimal numeral below 2^63, with
      leading zeros and an optional plus; and zero also from behind a minus. */
  lemma AtoiExactly(s: Bytes, v: nat)
    ensures Atoi(s) == Some(v)
       <==> v <= 0x7fff_ffff_ffff_ffff
            && ((exists k: nat :: s == ZeroDigits(k) + Dec(v))
                || (exists k: nat :: s == [43] + (ZeroDigits(k) + Dec(v)))
                || (v == 0 && exists k: nat :: s == [45] + (ZeroDigits(k) + Dec(v))))
  {
    AtoiForm(s, v);
    NumeralExactly(s, v);
    SignedNumeral(s, v, 43);
    SignedNumeral(s, v, 45);
    hide Atoi, DigitsValue, Dec, AllDigits, ZeroDigits;
  }

  // ---- hex ----

  /** The digit of value v, in lower or upper case. */
  predicate IsHexDigit(c: byte, v: nat)
    requires v < 16
  {
    c == "0123456789abcdef"[v] as int || c == "0123456789ABCDEF"[v] as int
  }

  lemma HexDigits(c: byte, v: nat)
    requires v < 16
    ensures HexDigit(v) == "0123456789abcdef"[v] as int
    ensures HexValue(c) == Some(v) <==> IsHexDigit(c, v)
  {
  }

  /** Encoding: two lower-case digits a byte, the high half first. */
  lemma {:induction false} HexEncExactly(b: Bytes, i: nat)
    requires i < |b|
    ensures |HexEnc(b)| == 2 * |b|
    ensures HexEnc(b)[2 * i] == "0123456789abcdef"[b[i] / 16] as int
    ensures HexEnc(b)[2 * i + 1] == "0123456789abcdef"[b[i] % 16] as int
  {
    if i == 0 {
      HexDigits(0, b[0] / 16);
      HexDigits(0, b[0] % 16);
    } else {
      HexEncExactly(b[1..], i - 1);
    }
  }

  /** s has two digits for every byte of b. */
  ghost predicate SpellsHex(s: Bytes, b: Bytes) {
    |s| == 2 * |b|
    && forall i :: 0 <= i < |b| ==> IsHexDigit(s[2 * i], b[i] / 16) && IsHexDigit(s[2 * i + 1], b[i] % 16)
  }

  lemma SpellsStep(s: Bytes, b: Bytes)
    requires |s| >= 2 && b != []
    ensures SpellsHex(s, b)
       <==> IsHexDigit(s[0], b[0] / 16) && IsHexDigit(s[1], b[0] % 16) && SpellsHex(s[2..], b[1..])
  {
    hide IsHexDigit;
    var s', b' := s[2..], b[1..];
    if SpellsHex(s, b) {
      forall i | 0 <= i < |b'|
        ensures IsHexDigit(s'[2 * i], b'[i] / 16) && IsHexDigit(s'[2 * i + 1], b'[i] % 16)
      {
        assert b'[i] == b[i + 1] && s'[2 * i] == s[2 * (i + 1)] && s'[2 * i + 1] == s[2 * (i + 1) + 1];
      }
    }
    if IsHexDigit(s[0], b[0] / 16) && IsHexDigit(s[1], b[0] % 16) && SpellsHex(s', b') {
      forall i | 0 <= i < |b|
        ensures IsHexDigit(s[2 * i], b[i] / 16) && IsHexDigit(s[2 * i + 1], b[i] % 16)
      {
        if i > 0 { assert b[i] == b'[i - 1] && s[2 * i] == s'[2 * (i - 1)] && s[2 * i + 1] == s'[2 * (i - 1) + 1]; }
      }
    }
  }

  /** Decoding: exactly two digits a byte, in either case, and nothing else. */
  lemma {:induction false} HexDecExactly(s: Bytes, b: Bytes)
    ensures HexDec(s) == Some(b) <==> SpellsHex(s, b)
    decreases |b|
  {
    if b != [] && |s| >= 2 {
      HexDecExactly(s[2..], b[1..]);
      HexDigits(s[0], b[0] / 16);
      HexDigits(s[1], b[0] % 16);
      FirstByte(s, b);
      SpellsStep(s, b);
      hide *;
    }
  }

  lemma FirstByte(s: Bytes, b: Bytes)
    requires |s| >= 2 && b != []
    ensures HexDec(s) == Some(b)
       <==> HexValue(s[0]) == Some(b[0] / 16) && HexValue(s[1]) == Some(b[0] % 16) && HexDec(s[2..]) == Some(b[1..])
  {
    NibblesFit(s[0], s[1]);
    assert b == [b[0]] + b[1..];
    hide HexValue;
  }

  // ---- base64 ----

  lemma Alphabet(c: byte, v: nat)
    requires v < 64
    ensures v < 26 ==> B64Char(v) == 'A' as int + v
    ensures 26 <= v < 52 ==> B64Char(v) == 'a' as int + (v - 26)
    ensures 52 <= v < 62 ==> B64Char(v) == '0' as int + (v - 52)
    ensures B64Char(62) == '+' as int && B64Char(63) == '/' as int
    ensures B64Value(c) == Some(v) <==> c == B64Char(v)
    ensures B64Value(PAD) == None
  {
  }

  /** A full group: four digits to the base 64 for three to the base 256. */
  lemma GroupDigits(x: byte, y: byte, z: byte)
    ensures ((x / 4 * 64 + (x % 4 * 16 + y / 16)) * 64 + (y % 16 * 4 + z / 64)) * 64 + z % 64
         == (x * 256 + y) * 256 + z
  {
  }

  /** The last character before the padding carries spare bits that the decoder ignores. */
  ghost predicate Spare(n: nat, i: nat, c: byte, e: byte) {
    && B64Value(c).Some? && B64Value(e).Some?
    && ((n % 3 == 1 && i == (n - 1) / 3 * 4 + 1 && B64Value(c).value / 16 == B64Value(e).value / 16)
        || (n % 3 == 2 && i == (n - 2) / 3 * 4 + 2 && B64Value(c).value / 4 == B64Value(e).value / 4))
  }

  /** t is the encoding of b up to spare bits. */
  ghost predicate SpellsB64(t: Bytes, b: Bytes) {
    AgreesWith(|b|, t, B64Enc(b))
  }

  ghost predicate AgreesWith(n: nat, t: Bytes, e: Bytes) {
    |t| == |e| && forall i :: 0 <= i < |t| ==> AgreesAt(n, t, e, i)
  }

  ghost predicate AgreesAt(n: nat, t: Bytes, e: Bytes, i: nat)
    requires i < |t| == |e|
  {
    t[i] == e[i] || Spare(n, i, t[i], e[i])
  }

  lemma TwoDigits(a: nat, b: nat, n: nat, x: nat)
    requires n > 0 && b < n
    ensures a * n + b == x <==> a == x / n && b == x % n
  {
    if a * n + b == x {
      DivExact(a, b, n);
    }
  }

  lemma DivExact(a: int, b: int, n: int)
    requires 0 <= b < n
    ensures (a * n + b) / n == a && (a * n + b) % n == b
  {
    var q, r := (a * n + b) / n, (a * n + b) % n;
    assert n * (q - a) == b - r by { assert a * n + b == n * q + r; assert n * (q - a) == n * q - a * n; }
    MulSmall(n, q - a);
  }

  lemma MulSmall(n: int, k: int)
    requires n > 0
    ensures k >= 1 ==> n * k >= n
    ensures k <= -1 ==> n * k <= -n
  {
  }

  /** What a group of three bytes is made of. */
  lemma DigitsOf(v: nat, w: nat, p: nat, q: nat, x: byte, y: byte, z: byte)
    requires v < 64 && w < 64 && p < 64 && q < 64
    ensures (v * 4 + w / 16 == x && w % 16 * 16 + p / 4 == y && p % 4 * 64 + q == z)
       <==> (v == x / 4 && w == x % 4 * 16 + y / 16 && p == y % 16 * 4 + z / 64 && q == z % 64)
  {
    TwoDigits(v, w / 16, 4, x);
    TwoDigits(w % 16, p / 4, 16, y);
    TwoDigits(p % 4, q, 64, z);
    TwoDigits(x % 4, y / 16, 16, w);
    TwoDigits(y % 16, z / 64, 4, p);
  }

  lemma FullGroupExactly(c0: byte, c1: byte, c2: byte, c3: byte, x: byte, y: byte, z: byte)
    ensures Group(c0, c1, c2, c3) == Some(([x, y, z], false))
       <==> && c0 == B64Char(x / 4) && c1 == B64Char(x % 4 * 16 + y / 16)
            && c2 == B64Char(y % 16 * 4 + z / 64) && c3 == B64Char(z % 64)
  {
    GroupRestored(x, y, z);
    Alphabet(c0, x / 4);
    Alphabet(c1, x % 4 * 16 + y / 16);
    Alphabet(c2, y % 16 * 4 + z / 64);
    Alphabet(c3, z % 64);
    GroupValue(c0, c1, c2, c3, [x, y, z], false);
    hide B64Char, B64Value, Group;
    if B64Value(c0).Some? && B64Value(c1).Some? && B64Value(c2).Some? && B64Value(c3).Some? {
      var (v, w, p, q) := (B64Value(c0).value, B64Value(c1).value, B64Value(c2).value, B64Value(c3).value);
      DigitsOf(v, w, p, q, x, y, z);
      ThreeBytes(v * 4 + w / 16, w % 16 * 16 + p / 4, p % 4 * 64 + q, x, y, z);
    }
  }

  lemma ThreeBytes(a: int, b: int, c: int, x: int, y: int, z: int)
    ensures [a, b, c] == [x, y, z] <==> a == x && b == y && c == z
  {
    if [a, b, c] == [x, y, z] {
      assert [a, b, c][0] == x && [a, b, c][1] == y && [a, b, c][2] == z;
    }
  }

  /** A group without padding. */
  lemma GroupValue(c0: byte, c1: byte, c2: byte, c3: byte, bytes: Bytes, padded: bool)
    requires !padded
    ensures Group(c0, c1, c2, c3) == Some((bytes, padded))
       <==> && B64Value(c0).Some? && B64Value(c1).Some? && B64Value(c2).Some? && B64Value(c3).Some?
            && var (v, w, p, q) := (B64Value(c0).value, B64Value(c1).value, B64Value(c2).value, B64Value(c3).value);
               bytes == [v * 4 + w / 16, w % 16 * 16 + p / 4, p % 4 * 64 + q]
  {
    assert B64Value(PAD).None?;
    hide B64Value;
  }

  lemma GroupPadded(c0: byte, c1: byte, c2: byte, c3: byte, bytes: Bytes)
    ensures Group(c0, c1, c2, c3) == Some((bytes, true))
       <==> && B64Value(c0).Some? && B64Value(c1).Some? && c3 == PAD
            && var (v, w) := (B64Value(c0).value, B64Value(c1).value);
               if c2 == PAD then bytes == [v * 4 + w / 16]
               else B64Value(c2).Some? && bytes == [v * 4 + w / 16, w % 16 * 16 + B64Value(c2).value / 4]
  {
    assert B64Value(PAD).None?;
    hide B64Value;
  }

  lemma OneByteGroup(c0: byte, c1: byte, c2: byte, c3: byte, x: byte)
    ensures Group(c0, c1, c2, c3) == Some(([x], true))
       <==> c0 == B64Char(x / 4) && B64Value(c1).Some? && B64Value(c1).value / 16 == x % 4 && c2 == PAD && c3 == PAD
  {
    GroupPadded(c0, c1, c2, c3, [x]);
    Alphabet(c0, x / 4);
    hide B64Char, B64Value, Group;
    if B64Value(c0).Some? && B64Value(c1).Some? {
      var (v, w) := (B64Value(c0).value, B64Value(c1).value);
      TwoDigits(v, w / 16, 4, x);
      assert [v * 4 + w / 16][0] == v * 4 + w / 16 && [x][0] == x;
    }
  }

  lemma TwoByteGroup(c0: byte, c1: byte, c2: byte, c3: byte, x: byte, y: byte)
    ensures Group(c0, c1, c2, c3) == Some(([x, y], true))
       <==> c0 == B64Char(x / 4) && c1 == B64Char(x % 4 * 16 + y / 16)
            && B64Value(c2).Some? && B64Value(c2).value / 4 == y % 16 && c3 == PAD
  {
    GroupPadded(c0, c1, c2, c3, [x, y]);
    Alphabet(c0, x / 4);
    Alphabet(c1, x % 4 * 16 + y / 16);
    hide B64Char, B64Value, Group;
    assert |[x]| == 1 && |[x, y]| == 2;
    if B64Value(c0).Some? && B64Value(c1).Some? && B64Value(c2).Some? {
      var (v, w, p) := (B64Value(c0).value, B64Value(c1).value, B64Value(c2).value);
      TwoDigits(v, w / 16, 4, x);
      TwoDigits(w % 16, p / 4, 16, y);
      TwoDigits(x % 4, y / 16, 16, w);
      assert [v * 4 + w / 16, w % 16 * 16 + p / 4] == [x, y] <==> v * 4 + w / 16 == x && w % 16 * 16 + p / 4 == y by {
        ThreeBytes(v * 4 + w / 16, w % 16 * 16 + p / 4, 0, x, y, 0);
        assert [v * 4 + w / 16, w % 16 * 16 + p / 4] + [0] == [v * 4 + w / 16, w % 16 * 16 + p / 4, 0];
        assert [x, y] + [0] == [x, y, 0];
      }
    }
  }

  lemma FourAgree(n: nat, t: Bytes, e: Bytes)
    requires |e| == 4
    ensures AgreesWith(n, t, e)
       <==> |t| == 4 && AgreesAt(n, t, e, 0) && AgreesAt(n, t, e, 1) && AgreesAt(n, t, e, 2) && AgreesAt(n, t, e, 3)
  {
    hide AgreesAt;
  }

  lemma SpellsOne(t: Bytes, x: byte)
    ensures SpellsB64(t, [x])
       <==> && |t| == 4 && t[0] == B64Char(x / 4) && t[2] == PAD && t[3] == PAD
            && B64Value(t[1]).Some? && B64Value(t[1]).value / 16 == x % 4
  {
    var e := B64Enc([x]);
    assert e == [B64Char(x / 4), B64Char(x % 4 * 16), PAD, PAD];
    Alphabet(0, 0);
    CharValue(x % 4 * 16);
    hide B64Char, B64Value, B64Enc;
    if |t| == 4 { Alphabet(t[1], x % 4 * 16); }
    FourAgree(1, t, e);
  }

  lemma SpellsTwo(t: Bytes, x: byte, y: byte)
    ensures SpellsB64(t, [x, y])
       <==> && |t| == 4 && t[0] == B64Char(x / 4) && t[1] == B64Char(x % 4 * 16 + y / 16) && t[3] == PAD
            && B64Value(t[2]).Some? && B64Value(t[2]).value / 4 == y % 16
  {
    var e := B64Enc([x, y]);
    assert e == [B64Char(x / 4), B64Char(x % 4 * 16 + y / 16), B64Char(y % 16 * 4), PAD];
    Alphabet(0, 0);
    CharValue(y % 16 * 4);
    hide B64Char, B64Value, B64Enc;
    if |t| == 4 { Alphabet(t[2], y % 16 * 4); }
    FourAgree(2, t, e);
  }

  lemma SpareShift(n: nat, i: nat, c: byte, e: byte)
    ensures n >= 3 ==> (Spare(n, i + 4, c, e) <==> Spare(n - 3, i, c, e))
    ensures n >= 3 && i < 4 ==> !Spare(n, i, c, e)
  {
    hide B64Value;
  }

  lemma AgreesShift(n: nat, t: Bytes, e: Bytes, i: nat)
    requires n >= 3 && i < |t| == |e|
    ensures i < 4 ==> (AgreesAt(n, t, e, i) <==> t[i] == e[i])
    ensures i >= 4 ==> (AgreesAt(n, t, e, i) <==> AgreesAt(n - 3, t[4..], e[4..], i - 4))
  {
    SpareShift(n, i, t[i], e[i]);
    if i >= 4 { SpareShift(n, i - 4, t[i], e[i]); }
    hide Spare;
  }

  lemma AgreesFront(n: nat, t: Bytes, e: Bytes)
    requires n >= 3 && AgreesWith(n, t, e) && |e| >= 4
    ensures t[..4] == e[..4] && AgreesWith(n - 3, t[4..], e[4..])
  {
    hide AgreesAt;
    forall i | 0 <= i < 4 ensures t[i] == e[i] { AgreesShift(n, t, e, i); }
    var n', t', e' := n - 3, t[4..], e[4..];
    forall i | 0 <= i < |t'| ensures AgreesAt(n', t', e', i) { AgreesShift(n, t, e, i + 4); }
  }

  lemma AgreesBack(n: nat, t: Bytes, e: Bytes)
    requires n >= 3 && |e| >= 4 && |t| >= 4 && t[..4] == e[..4] && AgreesWith(n - 3, t[4..], e[4..])
    ensures AgreesWith(n, t, e)
  {
    hide AgreesAt;
    forall i | 0 <= i < |t| ensures AgreesAt(n, t, e, i) {
      AgreesShift(n, t, e, i);
      if i < 4 { assert t[i] == t[..4][i] && e[i] == e[..4][i]; }
    }
  }

  lemma SpellsMore(t: Bytes, b: Bytes)
    requires |b| >= 3
    ensures SpellsB64(t, b) <==> |t| >= 4 && t[..4] == B64Enc(b)[..4] && SpellsB64(t[4..], b[3..])
  {
    assert |B64Enc(b)| == 4 + |B64Enc(b[3..])| && B64Enc(b)[4..] == B64Enc(b[3..]);
    hide B64Enc, AgreesWith;
    if SpellsB64(t, b) {
      AgreeLength(|b|, t, B64Enc(b));
      AgreesFront(|b|, t, B64Enc(b));
    }
    if |t| >= 4 && t[..4] == B64Enc(b)[..4] && SpellsB64(t[4..], b[3..]) { AgreesBack(|b|, t, B64Enc(b)); }
  }

  lemma AgreeLength(n: nat, t: Bytes, e: Bytes)
    ensures AgreesWith(n, t, e) ==> |t| == |e|
  {
  }

  lemma {:induction false} QuantaExactly(t: Bytes, b: Bytes)
    ensures Quanta(t) == Some(b) <==> SpellsB64(t, b)
    decreases |t|
  {
    QuantaStep(t, b);
    hide Quanta, SpellsB64, B64Enc, Group;
    if |b| == 0 {
      SpellsNone(t, b);
    } else if |b| == 1 {
      assert b == [b[0]];
      SpellsOne(t, b[0]);
      if |t| == 4 { OneByteGroup(t[0], t[1], t[2], t[3], b[0]); }
    } else if |b| == 2 {
      assert b == [b[0], b[1]];
      SpellsTwo(t, b[0], b[1]);
      if |t| == 4 { TwoByteGroup(t[0], t[1], t[2], t[3], b[0], b[1]); }
    } else {
      SpellsMore(t, b);
      if |t| >= 4 {
        QuantaExactly(t[4..], b[3..]);
        FullGroupExactly(t[0], t[1], t[2], t[3], b[0], b[1], b[2]);
        FirstGroup(t, b);
      }
    }
  }

  lemma SpellsNone(t: Bytes, b: Bytes)
    requires b == []
    ensures SpellsB64(t, b) <==> t == []
  {
  }

  lemma FirstGroup(t: Bytes, b: Bytes)
    requires |t| >= 4 && |b| >= 3
    ensures t[..4] == B64Enc(b)[..4]
       <==> && t[0] == B64Char(b[0] / 4) && t[1] == B64Char(b[0] % 4 * 16 + b[1] / 16)
            && t[2] == B64Char(b[1] % 16 * 4 + b[2] / 64) && t[3] == B64Char(b[2] % 64)
  {
    FrontFour(t, B64Char(b[0] / 4), B64Char(b[0] % 4 * 16 + b[1] / 16), B64Char(b[1] % 16 * 4 + b[2] / 64),
              B64Char(b[2] % 64), B64Enc(b[3..]));
    hide B64Char, B64Enc;
    EncFront(b);
  }

  lemma EncFront(b: Bytes)
    requires |b| >= 3
    ensures B64Enc(b) == [B64Char(b[0] / 4), B64Char(b[0] % 4 * 16 + b[1] / 16), B64Char(b[1] % 16 * 4 + b[2] / 64),
                          B64Char(b[2] % 64)] + B64Enc(b[3..])
  {
    hide B64Char;
  }

  lemma FrontFour(t: Bytes, a: byte, b: byte, c: byte, d: byte, rest: Bytes)
    requires |t| >= 4
    ensures t[..4] == ([a, b, c, d] + rest)[..4] <==> t[0] == a && t[1] == b && t[2] == c && t[3] == d
  {
    assert ([a, b, c, d] + rest)[..4] == [a, b, c, d];
    if t[..4] == [a, b, c, d] {
      assert t[0] == t[..4][0] && t[1] == t[..4][1] && t[2] == t[..4][2] && t[3] == t[..4][3];
    }
    if t[0] == a && t[1] == b && t[2] == c && t[3] == d { assert t[..4] == [a, b, c, d]; }
  }

  /** What the group decoder asks of the first group and of the rest. */
  lemma QuantaStep(t: Bytes, b: Bytes)
    ensures |b| == 0 ==> (Quanta(t) == Some(b) <==> t == [])
    ensures 1 <= |b| <= 2 ==> (Quanta(t) == Some(b) <==> |t| == 4 && Group(t[0], t[1], t[2], t[3]) == Some((b, true)))
    ensures |b| >= 3 ==>
              (Quanta(t) == Some(b)
               <==> |t| >= 4 && Group(t[0], t[1], t[2], t[3]) == Some(([b[0], b[1], b[2]], false))
                    && Quanta(t[4..]) == Some(b[3..]))
  {
    if |t| >= 4 { GroupSizes(t[0], t[1], t[2], t[3]); }
    hide Group;
    if |t| >= 4 && Group(t[0], t[1], t[2], t[3]).Some? && !Group(t[0], t[1], t[2], t[3]).value.1 && |b| >= 3 {
      var g := Group(t[0], t[1], t[2], t[3]).value.0;
      assert b == [b[0], b[1], b[2]] + b[3..];
      if Quanta(t[4..]).Some? { SplitAfterThree(g, Quanta(t[4..]).value, b); }
    }
  }

  lemma SplitAfterThree(g: Bytes, rest: Bytes, b: Bytes)
    requires |g| == 3 && |b| >= 3
    ensures g + rest == b <==> g == [b[0], b[1], b[2]] && rest == b[3..]
  {
    if g + rest == b {
      assert (g + rest)[..3] == g && (g + rest)[3..] == rest;
    }
    if g == [b[0], b[1], b[2]] && rest == b[3..] {
      assert b == [b[0], b[1], b[2]] + b[3..];
    }
  }

  lemma GroupSizes(c0: byte, c1: byte, c2: byte, c3: byte)
    ensures Group(c0, c1, c2, c3).Some? ==>
              var (g, padded) := Group(c0, c1, c2, c3).value;
              if padded then 1 <= |g| <= 2 else |g| == 3
  {
  }

  /** Decoding accepts exactly the padded encodings, with line breaks anywhere and any spare bits. */
  lemma B64DecExactly(s: Bytes, b: Bytes)
    ensures B64Dec(s) == Some(b) <==> SpellsB64(DropBreaks(s), b)
  {
    QuantaExactly(DropBreaks(s), b);
  }

  /** ... where a newline or a carriage return makes no difference wherever it stands. */
  lemma {:induction false} BreaksIgnored(s: Bytes, c: byte, t: Bytes)
    requires c == 10 || c == 13
    ensures DropBreaks(s + [c] + t) == DropBreaks(s + t)
    decreases |s|
  {
    if s == [] {
      assert (s + [c] + t)[1..] == t && s + t == t;
    } else {
      BreaksIgnored(s[1..], c, t);
      assert (s + [c] + t)[1..] == s[1..] + [c] + t && (s + t)[1..] == s[1..] + t;
    }
  }

  /** The examples of RFC 4648 section 10: "f", "fo", "foo" and "foobar". */
  lemma B64Examples()
    ensures B64Enc([102]) == [90, 103, 61, 61] && B64Enc([102, 111]) == [90, 109, 56, 61]
    ensures B64Enc([102, 111, 111]) == [90, 109, 57, 118]
    ensures B64Enc([102, 111, 111, 98, 97, 114]) == [90, 109, 57, 118, 89, 109, 70, 121]
  {
    assert [102, 111, 111, 98, 97, 114][3..] == [98, 97, 114];
  }
}
