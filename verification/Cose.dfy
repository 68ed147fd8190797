/** COSE_Sign1 messages (RFC 9052 sections 4.2 and 4.4): the Go parser, the Go and C encoders
    and the bytes that get signed. */
module Cose {
  import opened Basics
  import opened BigEndian
  import opened Cbor
  import opened Items
  import opened Writer

  /** The text string "Signature1". */
  const CONTEXT: Bytes := [0x6a, 0x53, 0x69, 0x67, 0x6e, 0x61, 0x74, 0x75, 0x72, 0x65, 0x31]
  /** The protected header {1: -7} inside its byte string. */
  const PROTECTED: Bytes := [0x43, 0xa1, 0x01, 0x26]

  /** The bytes that are hashed and signed; both byte strings are spliced in as on the wire. */
  function SigStruct(protBstr: Bytes, payloadBstr: Bytes): Bytes {
    [0x84] + CONTEXT + protBstr + [0x40] + payloadBstr
  }

  // ---- the Go encoder ----

  /** bstrHead: the last case keeps only the low four bytes of the length. */
  function BstrHead(n: nat): Bytes {
    if n < 24 then [0x40 + n]
    else if n < 256 then [0x58, n]
    else if n < 65536 then [0x59, n / 256 % 256, n % 256]
    else [0x5a, n / 0x100_0000 % 256, n / 0x1_0000 % 256, n / 256 % 256, n % 256]
  }

  lemma FixedTwo(n: nat)
    ensures Fixed(n, 2) == [n / 256 % 256, n % 256]
  {
    assert Fixed(n / 256, 1) == Fixed(n / 256 / 256, 0) + [n / 256 % 256];
    assert Fixed(n / 256 / 256, 0) == [];
  }

  lemma FixedFour(n: nat)
    ensures Fixed(n, 4) == [n / 0x100_0000 % 256, n / 0x1_0000 % 256, n / 256 % 256, n % 256]
  {
    assert Fixed(n, 4) == Fixed(n / 256, 3) + [n % 256];
    assert Fixed(n / 256, 3) == Fixed(n / 256 / 256, 2) + [n / 256 % 256];
    FixedTwo(n / 256 / 256);
    assert n / 256 / 256 == n / 0x1_0000 && n / 0x1_0000 / 256 == n / 0x100_0000;
  }

  /** The Go head is the deterministic one exactly below 2^32. */
  lemma BstrHeadExact(n: nat)
    ensures BstrHead(n) == EncHead(2, n) <==> n < 0x1_0000_0000
  {
    FixedTwo(n);
    FixedFour(n);
    if n >= 0x1_0000_0000 {
      assert EncHead(2, n)[0] == 0x5b && BstrHead(n)[0] == 0x5a;
    }
  }

  /** SignCOSESign1 around a 64-byte signature. */
  function Message(payload: Bytes, sig: Bytes): Bytes {
    [0xd2, 0x84] + PROTECTED + [0xa0] + (BstrHead(|payload|) + payload) + (BstrHead(64) + sig)
  }

  /** What SignCOSESign1 signs. */
  function SignedBytes(payload: Bytes): Bytes {
    SigStruct(PROTECTED, BstrHead(|payload|) + payload)
  }

  // ---- the Go parser ----

  /** The entries of a protected header until label 1 is found with the value -7. */
  function AlgFrom(b: Bytes, pos: nat, n: nat): bool
    decreases n
  {
    if n == 0 then false
    else
      match UintAt(b, pos)
      case Fail => false
      case Got(key, pos') =>
        if key == 1 then
          match HeadAt(b, pos')
          case Fail => false
          case Got(h, _) => h.major == 1 && h.arg == 6
        else
          match SkipOne(b, pos', 0)
          case None => false
          case Some(pos'') => AlgFrom(b, pos'', n - 1)
  }

  predicate RequiresES256(prot: Bytes) {
    match HeadAt(prot, 0)
    case Fail => false
    case Got(h, pos) => h.major == 5 && AlgFrom(prot, pos, h.arg)
  }

  /** Map entries that may stand before label 1: another label and any item within the depth cap. */
  predicate OtherLabels(entries: seq<(nat, Item)>) {
    entries == [] || (&& entries[0].0 != 1 && entries[0].0 < MAX_ARG
                      && WellFormed(entries[0].1) && Depth(entries[0].1) <= MAX_DEPTH && OtherLabels(entries[1..]))
  }

  function EncEntries(entries: seq<(nat, Item)>): Bytes
    requires OtherLabels(entries)
  {
    if entries == [] then []
    else EncHead(0, entries[0].0) + (Enc(entries[0].1) + EncEntries(entries[1..]))
  }

  /** Label 1 with the value -7. */
  function Alg(): Bytes {
    EncHead(0, 1) + EncHead(1, 6)
  }

  ghost predicate AlgStands(b: Bytes, pos: nat, n: nat, entries: seq<(nat, Item)>) {
    |entries| < n && OtherLabels(entries) && StartsWith(b, pos, EncEntries(entries) + Alg())
  }

  /** A map of n entries, the given ones first and then label 1 with -7; what follows is not read. */
  ghost predicate ES256Header(prot: Bytes, n: nat, entries: seq<(nat, Item)>) {
    && n < MAX_ARG && OtherLabels(entries) && |entries| < n
    && StartsWith(prot, 0, EncHead(5, n) + (EncEntries(entries) + Alg()))
  }

  lemma AlgAt(b: Bytes, pos: nat)
    ensures (UintAt(b, pos).Got? && UintAt(b, pos).value == 1
             && HeadAt(b, UintAt(b, pos).pos).Got? && HeadAt(b, UintAt(b, pos).pos).value == Head(1, 6))
       <==> StartsWith(b, pos, Alg())
    ensures StartsWith(b, pos, EncHead(0, 1)) <==> UintAt(b, pos).Got? && UintAt(b, pos).value == 1
  {
    hide HeadAt, EncHead, UintAt;
    ConcatAt(b, pos, EncHead(0, 1), EncHead(1, 6));
    UintExact(b, pos, 1);
    if UintAt(b, pos).Got? { UintSound(b, pos); }
    var pos' := pos + |EncHead(0, 1)|;
    if HeadAt(b, pos').Got? { HeadSound(b, pos'); }
    if StartsWith(b, pos', EncHead(1, 6)) { HeadComplete(b, pos', 1, 6); }
  }

  lemma OneMoreEntry(b: Bytes, pos: nat, n: nat, key: nat, x: Item, rest: seq<(nat, Item)>)
    requires key != 1 && key < MAX_ARG && WellFormed(x) && Depth(x) <= MAX_DEPTH && n > 0
    requires OtherLabels(rest)
    ensures AlgStands(b, pos, n, [(key, x)] + rest)
       <==> && StartsWith(b, pos, EncHead(0, key)) && StartsWith(b, pos + |EncHead(0, key)|, Enc(x))
            && AlgStands(b, pos + |EncHead(0, key)| + |Enc(x)|, n - 1, rest)
  {
    hide EncHead, Enc, StartsWith, WellFormed, Depth;
    var entries := [(key, x)] + rest;
    assert entries[0] == (key, x) && entries[1..] == rest;
    var h, e, r := EncHead(0, key), Enc(x), EncEntries(rest) + Alg();
    assert EncEntries(entries) + Alg() == h + (e + r);
    ConcatAt(b, pos, h, e + r);
    ConcatAt(b, pos + |h|, e, r);
  }

  lemma {:induction false} AlgSound(b: Bytes, pos: nat, n: nat) returns (entries: seq<(nat, Item)>)
    requires AlgFrom(b, pos, n)
    ensures AlgStands(b, pos, n, entries)
    decreases n
  {
    hide HeadAt, UintAt, EncHead, Enc, SkipOne, WellFormed, Depth, StartsWith, Alg, Stands;
    var key, pos' := UintAt(b, pos).value, UintAt(b, pos).pos;
    if key == 1 {
      AlgAt(b, pos);
      entries := [];
      assert EncEntries(entries) + Alg() == Alg();
    } else {
      UintSound(b, pos);
      UintExact(b, pos, key);
      var x := SkipSound(b, pos', 0);
      StandsFacts(b, pos', x, SkipOne(b, pos', 0).value);
      var rest := AlgSound(b, SkipOne(b, pos', 0).value, n - 1);
      OneMoreEntry(b, pos, n, key, x, rest);
      entries := [(key, x)] + rest;
    }
  }

  lemma StandsFacts(b: Bytes, pos: nat, x: Item, pos': nat)
    ensures Stands(b, pos, x, pos', 0)
       <==> WellFormed(x) && StartsWith(b, pos, Enc(x)) && pos' == pos + |Enc(x)| && Depth(x) <= MAX_DEPTH
  {
    hide WellFormed, Enc, Depth;
  }

  lemma {:induction false} AlgComplete(b: Bytes, pos: nat, n: nat, entries: seq<(nat, Item)>)
    requires AlgStands(b, pos, n, entries)
    ensures AlgFrom(b, pos, n)
    decreases n
  {
    hide HeadAt, UintAt, EncHead, Enc, SkipOne, WellFormed, Depth, StartsWith, Alg, Stands;
    if entries == [] {
      assert EncEntries(entries) + Alg() == Alg();
      AlgAt(b, pos);
    } else {
      var (key, x) := entries[0];
      assert entries == [(key, x)] + entries[1..];
      OneMoreEntry(b, pos, n, key, x, entries[1..]);
      UintExact(b, pos, key);
      var pos' := pos + |EncHead(0, key)|;
      StandsFacts(b, pos', x, pos' + |Enc(x)|);
      SkipComplete(b, pos', x, pos' + |Enc(x)|, 0);
      AlgComplete(b, pos' + |Enc(x)|, n - 1, entries[1..]);
    }
  }

  /** The protected header is accepted exactly when it is a map whose entries before the first
      label 1 are other labels with one well-formed item each and whose label 1 carries -7. */
  lemma {:induction false} RequiresExact(prot: Bytes)
    ensures RequiresES256(prot) <==> exists n, entries :: ES256Header(prot, n, entries)
  {
    hide HeadAt, EncHead, AlgFrom, EncEntries, OtherLabels, StartsWith, Alg;
    if RequiresES256(prot) {
      var (n, pos) := (HeadAt(prot, 0).value.arg, HeadAt(prot, 0).pos);
      HeadSound(prot, 0);
      var entries := AlgSound(prot, pos, n);
      ConcatAt(prot, 0, EncHead(5, n), EncEntries(entries) + Alg());
      assert ES256Header(prot, n, entries);
    }
    if n, entries :| ES256Header(prot, n, entries) {
      ConcatAt(prot, 0, EncHead(5, n), EncEntries(entries) + Alg());
      HeadComplete(prot, 0, 5, n);
      AlgComplete(prot, |EncHead(5, n)|, n, entries);
    }
  }

  datatype Sign1 = Sign1(protBstr: Bytes, payload: Bytes, payloadBstr: Bytes, sig: Bytes)

  /** After the array head: protected, unprotected, payload, signature, end. */
  function Fields(b: Bytes, pos0: nat): Result<Sign1> {
    match BstrAt(b, pos0)
    case Fail => Err
    case Got(prot, pos1) =>
      if !RequiresES256(prot) then Err
      else
        match SkipOne(b, pos1, 0)
        case None => Err
        case Some(pos2) =>
          match BstrAt(b, pos2)
          case Fail => Err
          case Got(payload, pos3) =>
            match BstrAt(b, pos3)
            case Fail => Err
            case Got(sig, pos4) =>
              if |sig| != 64 || pos4 != |b| then Err
              else Ok(Sign1(b[pos0..pos1], payload, b[pos2..pos3], sig))
  }

  function TagEnd(b: Bytes): nat {
    if |b| > 0 && b[0] == 0xd2 then 1 else 0
  }

  function Parse(b: Bytes): Result<Sign1> {
    match HeadAt(b, TagEnd(b))
    case Fail => Err
    case Got(h, pos) => if h.major != 4 || h.arg != 4 then Err else Fields(b, pos)
  }

  method CheckES256(prot: Bytes) returns (ok: bool)
    ensures ok == RequiresES256(prot)
    ensures ok <==> exists n, entries :: ES256Header(prot, n, entries)
  {
    RequiresExact(prot);
    hide ES256Header;
    hide HeadAt, UintAt, SkipOne;
    var r := new Reader(prot);
    var h := r.ReadHead();
    if h.None? || h.value.major != 5 { return false; }
    var n := h.value.arg;
    var items := new ItemReader(r);
    var i := 0;
    while i < n
      invariant 0 <= i <= n && r.pos <= |prot| && items.depth == 0
      invariant RequiresES256(prot) == AlgFrom(prot, r.pos, n - i)
    {
      var key := r.ReadUint();
      if key.None? { return false; }
      if key.value == 1 {
        var alg := r.ReadHead();
        return alg.Some? && alg.value.major == 1 && alg.value.arg == 6;
      }
      var skipped := items.SkipValue();
      if !skipped { return false; }
      i := i + 1;
    }
    return false;
  }

  method ParseSign1(b: Bytes) returns (res: Result<Sign1>)
    ensures res == Parse(b)
  {
    hide HeadAt, BstrAt, SkipOne, RequiresES256;
    var r := new Reader(b);
    if r.pos < |b| && b[r.pos] == 0xd2 { r.pos := r.pos + 1; }
    var h := r.ReadHead();
    if h.None? || h.value.major != 4 || h.value.arg != 4 { return Err; }
    var start := r.pos;
    var prot := r.ReadBstr();
    if prot.None? { return Err; }
    var protBstr := b[start..r.pos];
    var alg := CheckES256(prot.value);
    if !alg { return Err; }
    var items := new ItemReader(r);
    var skipped := items.SkipValue();
    if !skipped { return Err; }
    start := r.pos;
    var payload := r.ReadBstr();
    if payload.None? { return Err; }
    var payloadBstr := b[start..r.pos];
    var sig := r.ReadBstr();
    if sig.None? || |sig.value| != 64 || r.pos != |b| { return Err; }
    return Ok(Sign1(protBstr, payload.value, payloadBstr, sig.value));
  }

  // ---- what the parser accepts ----

  /** A message: optional tag, array head, protected header, any unprotected item, payload, signature. */
  function Wire(tagged: bool, prot: Bytes, unprot: Item, payload: Bytes, sig: Bytes): Bytes
    requires WellFormed(unprot)
  {
    (if tagged then [0xd2] else []) + ([0x84] + (EncBstr(prot) + (Enc(unprot) + (EncBstr(payload) + EncBstr(sig)))))
  }

  ghost predicate Accepted(tagged: bool, prot: Bytes, unprot: Item, payload: Bytes, sig: Bytes) {
    && |prot| < MAX_ARG && |payload| < MAX_ARG && |sig| == 64
    && WellFormed(unprot) && Depth(unprot) <= MAX_DEPTH && RequiresES256(prot)
  }

  lemma ArrayHead()
    ensures EncHead(4, 4) == [0x84]
  {
  }

  lemma FieldsComplete(b: Bytes, pos0: nat, prot: Bytes, unprot: Item, payload: Bytes, sig: Bytes)
    requires Accepted(false, prot, unprot, payload, sig) && pos0 <= |b|
    requires b[pos0..] == EncBstr(prot) + (Enc(unprot) + (EncBstr(payload) + EncBstr(sig)))
    ensures Fields(b, pos0) == Ok(Sign1(EncBstr(prot), payload, EncBstr(payload), sig))
  {
    hide BstrAt, SkipOne, EncBstr, RequiresES256, Enc, WellFormed, Depth;
    Tail(b, pos0, EncBstr(prot), Enc(unprot) + (EncBstr(payload) + EncBstr(sig)));
    BstrExact(b, pos0, prot);
    var pos1 := pos0 + |EncBstr(prot)|;
    Tail(b, pos1, Enc(unprot), EncBstr(payload) + EncBstr(sig));
    var pos2 := pos1 + |Enc(unprot)|;
    SkipComplete(b, pos1, unprot, pos2, 0);
    Tail(b, pos2, EncBstr(payload), EncBstr(sig));
    BstrExact(b, pos2, payload);
    var pos3 := pos2 + |EncBstr(payload)|;
    LastAt(b, pos3, EncBstr(sig));
    BstrExact(b, pos3, sig);
  }

  /** A remainder that starts with s goes on with the rest. */
  lemma Tail(b: Bytes, pos: nat, s: Bytes, t: Bytes)
    requires pos <= |b| && b[pos..] == s + t
    ensures StartsWith(b, pos, s) && pos + |s| <= |b| && b[pos + |s|..] == t
  {
    assert b[pos..pos + |s|] == b[pos..][..|s|] == s;
    assert b[pos + |s|..] == b[pos..][|s|..] == t;
  }

  lemma LastAt(b: Bytes, pos: nat, s: Bytes)
    requires pos <= |b| && b[pos..] == s
    ensures StartsWith(b, pos, s) && pos + |s| == |b|
  {
    assert b[pos..pos + |s|] == b[pos..];
  }

  /** Every message of the wire format is parsed, tagged or not, to its own parts. */
  lemma {:induction false} ParseComplete(tagged: bool, prot: Bytes, unprot: Item, payload: Bytes, sig: Bytes)
    requires Accepted(tagged, prot, unprot, payload, sig)
    ensures Parse(Wire(tagged, prot, unprot, payload, sig)) == Ok(Sign1(EncBstr(prot), payload, EncBstr(payload), sig))
  {
    hide HeadAt, Fields, EncBstr, RequiresES256, Enc, WellFormed, Depth, EncHead;
    var b := Wire(tagged, prot, unprot, payload, sig);
    var rest := EncBstr(prot) + (Enc(unprot) + (EncBstr(payload) + EncBstr(sig)));
    var pos := if tagged then 1 else 0;
    assert TagEnd(b) == pos;
    assert b[pos..] == [0x84] + rest;
    Tail(b, pos, [0x84], rest);
    ArrayHead();
    HeadComplete(b, pos, 4, 4);
    FieldsComplete(b, pos + 1, prot, unprot, payload, sig);
  }

  lemma FieldsSound(b: Bytes, pos0: nat) returns (prot: Bytes, unprot: Item)
    requires pos0 <= |b| && Fields(b, pos0).Ok?
    ensures var m := Fields(b, pos0).value;
            && Accepted(false, prot, unprot, m.payload, m.sig)
            && m.protBstr == EncBstr(prot) && m.payloadBstr == EncBstr(m.payload)
            && b[pos0..] == EncBstr(prot) + (Enc(unprot) + (EncBstr(m.payload) + EncBstr(m.sig)))
  {
    hide BstrAt, SkipOne, EncBstr, RequiresES256, Enc, WellFormed, Depth;
    prot := BstrAt(b, pos0).value;
    var pos1 := BstrAt(b, pos0).pos;
    BstrSound(b, pos0);
    BstrExact(b, pos0, prot);
    unprot := SkipSound(b, pos1, 0);
    var pos2 := SkipOne(b, pos1, 0).value;
    var payload, pos3 := BstrAt(b, pos2).value, BstrAt(b, pos2).pos;
    BstrSound(b, pos2);
    BstrExact(b, pos2, payload);
    BstrSound(b, pos3);
    BstrExact(b, pos3, BstrAt(b, pos3).value);
    assert b[pos0..] == b[pos0..pos1] + (b[pos1..pos2] + (b[pos2..pos3] + b[pos3..]));
    assert b[pos3..] == b[pos3..|b|];
  }

  /** Whatever is parsed is a message of the wire format, and the returned spans are the
      deterministic encodings of the protected header and of the payload. */
  lemma {:induction false} ParseSound(b: Bytes) returns (tagged: bool, prot: Bytes, unprot: Item)
    requires Parse(b).Ok?
    ensures var m := Parse(b).value;
            && Accepted(tagged, prot, unprot, m.payload, m.sig) && b == Wire(tagged, prot, unprot, m.payload, m.sig)
            && m.protBstr == EncBstr(prot) && m.payloadBstr == EncBstr(m.payload)
  {
    hide HeadAt, Fields, EncBstr, RequiresES256, Enc, WellFormed, Depth, EncHead;
    var pos := TagEnd(b);
    tagged := pos == 1;
    HeadSound(b, pos);
    ArrayHead();
    prot, unprot := FieldsSound(b, pos + 1);
    assert b == b[..pos] + (b[pos..pos + 1] + b[pos + 1..]);
    assert b[..pos] == if tagged then [0xd2] else [];
  }

  // ---- round trip and signed bytes ----

  lemma FixedHeader()
    ensures PROTECTED == EncBstr([0xa1, 0x01, 0x26]) && RequiresES256([0xa1, 0x01, 0x26])
    ensures Accepted(true, [0xa1, 0x01, 0x26], Map([]), [], Zeros(64)) && Enc(Map([])) == [0xa0]
  {
    var h: Bytes := [0xa1, 0x01, 0x26];
    assert EncHead(2, 3) == [0x43];
    assert HeadAt(h, 0) == Got(Head(5, 1), 1);
    assert UintAt(h, 1) == Got(1, 2);
    assert HeadAt(h, 2) == Got(Head(1, 6), 3);
    assert AlgFrom(h, 1, 1);
    assert WellFormed(Map([]));
    assert Enc(Map([])) == EncHead(5, 0) + [];
  }

  /** A message emitted for a payload below 4 GiB parses to that payload and signature, and the
      parser rebuilds exactly the bytes that were signed. */
  lemma {:induction false} RoundTrip(payload: Bytes, sig: Bytes)
    requires |payload| < 0x1_0000_0000 && |sig| == 64
    ensures Parse(Message(payload, sig)).Ok?
    ensures var m := Parse(Message(payload, sig)).value;
            m.payload == payload && m.sig == sig && SigStruct(m.protBstr, m.payloadBstr) == SignedBytes(payload)
  {
    var h: Bytes := [0xa1, 0x01, 0x26];
    FixedHeader();
    BstrHeadExact(|payload|);
    BstrHeadExact(64);
    hide Parse, EncHead, BstrHead, RequiresES256, WellFormed, Enc, Depth;
    assert Depth(Map([])) <= MAX_DEPTH;
    var p, s, e := EncBstr(payload), EncBstr(sig), Enc(Map([]));
    assert Message(payload, sig) == [0xd2] + ([0x84] + (PROTECTED + (e + (p + s))));
    ParseComplete(true, h, Map([]), payload, sig);
  }

  /** The bytes of an emitted message and of what it signs: tag 18, an array of four, the header
      {1: -7}, an empty map, the payload and the signature; "Signature1" in front of the same header
      and payload for the signed bytes. */
  lemma EmittedBytes(payload: Bytes, sig: Bytes)
    requires |payload| < 0x1_0000_0000
    ensures Message(payload, sig)
         == [0xd2, 0x84, 0x43, 0xa1, 0x01, 0x26, 0xa0] + EncBstr(payload) + ([0x58, 0x40] + sig)
    ensures SignedBytes(payload)
         == [0x84, 0x6a, 0x53, 0x69, 0x67, 0x6e, 0x61, 0x74, 0x75, 0x72, 0x65, 0x31,
             0x43, 0xa1, 0x01, 0x26, 0x40] + EncBstr(payload)
  {
    BstrHeadExact(|payload|);
    hide EncHead;
  }

  /** Label 1 with -7 is two bytes; the headers of EdDSA (-8) and of ES384 (-35) are refused. */
  lemma OnlyES256()
    ensures Alg() == [0x01, 0x26]
    ensures RequiresES256([0xa1, 0x01, 0x26])
    ensures !RequiresES256([0xa1, 0x01, 0x27]) && !RequiresES256([0xa1, 0x01, 0x38, 0x22]) && !RequiresES256([0xa0])
  {
    FixedHeader();
    var e: Bytes, f: Bytes, g: Bytes := [0xa1, 0x01, 0x27], [0xa1, 0x01, 0x38, 0x22], [0xa0];
    assert HeadAt(e, 0) == Got(Head(5, 1), 1) && UintAt(e, 1) == Got(1, 2) && HeadAt(e, 2) == Got(Head(1, 7), 3);
    assert HeadAt(f, 0) == Got(Head(5, 1), 1) && UintAt(f, 1) == Got(1, 2) && f[2] == 0x38;
    assert FromBytes(f[3..4]) == 0x22 by { OneByte(f, 3); }
    assert HeadAt(f, 2) == Got(Head(1, 0x22), 4);
    assert HeadAt(g, 0) == Got(Head(5, 0), 1);
    hide HeadAt, UintAt, SkipOne;
  }

  /** With the fixed header and the empty unprotected map, the payload span starts at 7. */
  lemma PayloadAtSeven(b: Bytes, prot: Bytes, unprot: Item, rest: Bytes)
    requires |b| >= 2 && |prot| < MAX_ARG && WellFormed(unprot) && b[2..] == EncBstr(prot) + (Enc(unprot) + rest)
    requires StartsWith(b, 2, PROTECTED) && StartsWith(b, 6, [0xa0])
    ensures b[7..] == rest
  {
    FixedHeader();
    hide BstrAt, EncBstr, RequiresES256, WellFormed, Enc;
    Tail(b, 2, EncBstr(prot), Enc(unprot) + rest);
    BstrExact(b, 2, prot);
    BstrExact(b, 2, [0xa1, 0x01, 0x26]);
    Tail(b, 6, Enc(unprot), rest);
    Unambiguous(b, 6, unprot, Map([]));
  }

  lemma WireParts(tagged: bool, prot: Bytes, unprot: Item, payload: Bytes, sig: Bytes)
    requires WellFormed(unprot)
    ensures var b := Wire(tagged, prot, unprot, payload, sig);
            |b| >= 2 && (b[0] == 0xd2 ==> b[2..] == EncBstr(prot) + (Enc(unprot) + (EncBstr(payload) + EncBstr(sig))))
  {
    hide EncBstr, WellFormed, Enc;
  }

  /** The payload span of a parsed message starts with the very byte that was emitted there. */
  lemma FirstPayloadByte(payload: Bytes, sig: Bytes)
    requires Parse(Message(payload, sig)).Ok?
    ensures EncBstr(Parse(Message(payload, sig)).value.payload)[0] == BstrHead(|payload|)[0]
  {
    var b := Message(payload, sig);
    var m := Parse(b).value;
    var tagged, prot, unprot := ParseSound(b);
    FrontOfMessage(b, payload, sig);
    assert WellFormed(unprot) && |prot| < MAX_ARG;
    hide Parse, EncHead, BstrHead, RequiresES256, WellFormed, Enc, Depth, Message, Wire, Accepted;
    WireParts(tagged, prot, unprot, m.payload, m.sig);
    var rest := EncBstr(m.payload) + EncBstr(m.sig);
    PayloadAtSeven(b, prot, unprot, rest);
    assert b[7..][0] == rest[0];
  }

  /** From 4 GiB on the emitted head is the wrong one, so the payload cannot come back. */
  lemma {:induction false} LargePayloadLost(payload: Bytes, sig: Bytes)
    requires |payload| >= 0x1_0000_0000
    ensures !(Parse(Message(payload, sig)).Ok? && Parse(Message(payload, sig)).value.payload == payload)
  {
    hide Parse, Message;
    if Parse(Message(payload, sig)).Ok? {
      FirstPayloadByte(payload, sig);
    }
  }

  /** The fixed front of an emitted message. */
  lemma FrontOfMessage(b: Bytes, payload: Bytes, sig: Bytes)
    requires b == Message(payload, sig)
    ensures |b| > 8 && b[0] == 0xd2 && b[7] == BstrHead(|payload|)[0]
    ensures StartsWith(b, 2, PROTECTED) && StartsWith(b, 6, [0xa0])
  {
    assert b[2..6] == PROTECTED && b[6..7] == [0xa0];
  }

  /** The round trip holds exactly for payloads below 4 GiB. */
  lemma RoundTripExact(payload: Bytes, sig: Bytes)
    requires |sig| == 64
    ensures (Parse(Message(payload, sig)).Ok? && Parse(Message(payload, sig)).value.payload == payload)
       <==> |payload| < 0x1_0000_0000
  {
    hide Parse, Message;
    if |payload| < 0x1_0000_0000 { RoundTrip(payload, sig); } else { LargePayloadLost(payload, sig); }
  }

  /** The signed bytes determine protected header and payload: two pairs of byte strings with
      the same signed bytes are equal. */
  lemma SigStructInjective(prot: Bytes, payload: Bytes, prot': Bytes, payload': Bytes)
    requires |prot| < MAX_ARG && |payload| < MAX_ARG && |prot'| < MAX_ARG && |payload'| < MAX_ARG
    requires SigStruct(EncBstr(prot), EncBstr(payload)) == SigStruct(EncBstr(prot'), EncBstr(payload'))
    ensures prot == prot' && payload == payload'
  {
    hide SigStruct, EncBstr, BstrAt;
    var b := SigStruct(EncBstr(prot), EncBstr(payload));
    SigStructParts(b, prot, payload);
    SigStructParts(b, prot', payload');
  }

  lemma SigStructParts(b: Bytes, prot: Bytes, payload: Bytes)
    requires |prot| < MAX_ARG && |payload| < MAX_ARG
    requires b == SigStruct(EncBstr(prot), EncBstr(payload))
    ensures BstrAt(b, 12) == Got(prot, 12 + |EncBstr(prot)|)
    ensures BstrAt(b, 13 + |EncBstr(prot)|) == Got(payload, 13 + |EncBstr(prot)| + |EncBstr(payload)|)
  {
    hide BstrAt, EncBstr;
    assert b[12..] == EncBstr(prot) + ([0x40] + EncBstr(payload));
    Tail(b, 12, EncBstr(prot), [0x40] + EncBstr(payload));
    Tail(b, 12 + |EncBstr(prot)|, [0x40], EncBstr(payload));
    LastAt(b, 13 + |EncBstr(prot)|, EncBstr(payload));
    BstrExact(b, 12, prot);
    BstrExact(b, 13 + |EncBstr(prot)|, payload);
  }

  /** Two parsed messages with the same signed bytes carry the same payload: a signature
      cannot be moved to another payload. */
  lemma {:induction false} SignatureBindsPayload(b: Bytes, b': Bytes)
    requires Parse(b).Ok? && Parse(b').Ok?
    requires SigStruct(Parse(b).value.protBstr, Parse(b).value.payloadBstr)
          == SigStruct(Parse(b').value.protBstr, Parse(b').value.payloadBstr)
    ensures Parse(b).value.payload == Parse(b').value.payload && Parse(b).value.protBstr == Parse(b').value.protBstr
  {
    hide Parse, EncBstr, SigStruct;
    var t, prot, u := ParseSound(b);
    var t', prot', u' := ParseSound(b');
    SigStructInjective(prot, Parse(b).value.payload, prot', Parse(b').value.payload);
  }

  // ---- the C encoder ----

  /** put_bstr of he_cose.c: lengths above 65535 are refused before anything is written. */
  method PutCoseBstr(out: array<byte>, cap: nat, pos: nat, s: Bytes) returns (rc: int, pos': nat)
    requires pos <= cap <= out.Length
    modifies out
    ensures |s| <= 0xffff ==> Wrote(old(out[..]), out[..], cap, pos, EncBstr(s), rc, pos')
    ensures |s| > 0xffff ==> rc == RC_OVERFLOW && pos' == pos && out[..] == old(out[..])
  {
    if |s| > 0xffff { return RC_OVERFLOW, pos; }
    rc, pos' := PutBstr(out, cap, pos, s);
  }

  /** he_cose_sign1. */
  method CoseSign1(payload: Bytes, sig: Bytes, out: array<byte>, cap: nat) returns (rc: int, outLen: nat)
    requires |sig| == 64 && cap <= out.Length
    modifies out
    ensures rc == if |payload| <= 0xffff && |Message(payload, sig)| <= cap then RC_OK else RC_OVERFLOW
    ensures rc == RC_OK ==> outLen == |Message(payload, sig)| && out[..outLen] == Message(payload, sig)
    ensures out[cap..] == old(out[cap..])
  {
    ghost var start := out[..];
    var pos: nat;
    ghost var front: Bytes := [0xd2, 0x84] + PROTECTED + [0xa0];
    rc, pos := PutBytes(out, cap, 0, [0xd2, 0x84] + PROTECTED + [0xa0]);
    outLen := 0;
    hide Wrote, EncHead;
    PositionInside(start, out[..], cap, 0, front, rc, pos);
    WroteLimit(start, out[..], cap, front, rc, pos);
    if rc != RC_OK { return; }
    ghost var mid, p := out[..], pos;
    rc, pos := PutCoseBstr(out, cap, pos, payload);
    if |payload| > 0xffff { return; }
    BstrHeadExact(|payload|);
    BstrHeadExact(64);
    WroteTwice(start, mid, out[..], cap, 0, front, RC_OK, p, EncBstr(payload), rc, pos);
    PositionInside(start, out[..], cap, 0, front + EncBstr(payload), rc, pos);
    WroteLimit(start, out[..], cap, front + EncBstr(payload), rc, pos);
    if rc != RC_OK { return; }
    mid, p := out[..], pos;
    rc, pos := PutCoseBstr(out, cap, pos, sig);
    WroteTwice(start, mid, out[..], cap, 0, front + EncBstr(payload), RC_OK, p, EncBstr(sig), rc, pos);
    WroteLimit(start, out[..], cap, front + EncBstr(payload) + EncBstr(sig), rc, pos);
    assert Message(payload, sig) == front + EncBstr(payload) + EncBstr(sig);
    outLen := pos;
  }

  lemma WroteLimit(a: Bytes, b: Bytes, cap: nat, s: Bytes, rc: int, pos: nat)
    requires Wrote(a, b, cap, 0, s, rc, pos)
    ensures b[cap..] == a[cap..] && rc == if |s| <= cap then RC_OK else RC_OVERFLOW
    ensures rc == RC_OK ==> pos == |s| && b[..pos] == s
  {
    assert b == s[..pos] + a[pos..];
  }

  /** he_cose_sig_structure: the same signed bytes as the Go side. */
  method CoseSigStructure(payload: Bytes, out: array<byte>, cap: nat) returns (rc: int, outLen: nat)
    requires cap <= out.Length
    modifies out
    ensures rc == if |payload| <= 0xffff && |SignedBytes(payload)| <= cap then RC_OK else RC_OVERFLOW
    ensures rc == RC_OK ==> outLen == |SignedBytes(payload)| && out[..outLen] == SignedBytes(payload)
    ensures out[cap..] == old(out[cap..])
  {
    ghost var start := out[..];
    var pos: nat;
    ghost var front: Bytes := [0x84] + CONTEXT + PROTECTED + [0x40];
    rc, pos := PutBytes(out, cap, 0, [0x84] + CONTEXT + PROTECTED + [0x40]);
    outLen := 0;
    hide Wrote, EncHead;
    PositionInside(start, out[..], cap, 0, front, rc, pos);
    WroteLimit(start, out[..], cap, front, rc, pos);
    if rc != RC_OK { return; }
    ghost var mid, p := out[..], pos;
    rc, pos := PutCoseBstr(out, cap, pos, payload);
    if |payload| > 0xffff { return; }
    BstrHeadExact(|payload|);
    WroteTwice(start, mid, out[..], cap, 0, front, RC_OK, p, EncBstr(payload), rc, pos);
    WroteLimit(start, out[..], cap, front + EncBstr(payload), rc, pos);
    assert SignedBytes(payload) == front + EncBstr(payload);
    outLen := pos;
  }
}
