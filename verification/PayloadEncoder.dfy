/** The C payload encoder: what it writes is the deterministic encoding, it never passes the
    buffer's capacity, and the static bound of 240 bytes always suffices. */
module PayloadEncoder {
  import opened Basics
  import opened Cbor
  import opened Payload
  import opened Writer

  newtype uint32 = x: int | 0 <= x < 0x1_0000_0000

  const MAX_LEN := 240

  /** he_predicate_t: fixed buffers, a nonce length and C truth values. */
  datatype CPredicate = CPredicate(
    version: uint32, nonce: Bytes, nonceLen: uint32, eventId: uint32, voiceActive: uint32, presence: uint32,
    frames: uint32, windowMs: uint32, counter: uint64,
    configHash: Digest, inputHash: Digest, prevDigest: Digest)

  /** The predicate a struct stands for. */
  function Meaning(c: CPredicate): Predicate
    requires |c.nonce| == NONCE_MAX && c.nonceLen as int <= NONCE_MAX
  {
    Predicate(c.version as nat, c.nonce[..c.nonceLen], c.eventId as nat, c.voiceActive != 0, c.presence as nat,
              c.frames as nat, c.windowMs as nat, c.counter as nat, c.configHash, c.inputHash, c.prevDigest)
  }

  /** What he_payload_encode writes, from the struct's own fields. */
  lemma DeviceBytes(c: CPredicate)
    requires |c.nonce| == NONCE_MAX && c.nonceLen as int <= NONCE_MAX
    ensures Encode(Meaning(c)) == [0xab]
                                  + ([0x00] + EncHead(0, c.version as nat))
                                  + ([0x01] + EncBstr(c.nonce[..c.nonceLen]))
                                  + ([0x02] + EncHead(0, c.eventId as nat))
                                  + ([0x03] + [if c.voiceActive != 0 then 0xf5 else 0xf4])
                                  + ([0x04] + EncHead(0, c.presence as nat))
                                  + ([0x05] + EncHead(0, c.frames as nat))
                                  + ([0x06] + EncHead(0, c.windowMs as nat))
                                  + ([0x07] + EncHead(0, c.counter as nat))
                                  + ([0x08] + EncBstr(c.configHash))
                                  + ([0x09] + EncBstr(c.inputHash))
                                  + ([0x0a] + EncBstr(c.prevDigest))
  {
    EncodeSpelled(Meaning(c));
    hide Encode, EncHead, EncBstr;
  }

  lemma MeaningValid(c: CPredicate)
    requires |c.nonce| == NONCE_MAX && c.nonceLen as int <= NONCE_MAX
    ensures Valid(Meaning(c))
  {
  }

  method PutValue(out: array<byte>, cap: nat, pos: nat, v: Value) returns (rc: int, pos': nat)
    requires pos <= cap <= out.Length && (v.U? ==> v.n < MAX_ARG) && (v.B? ==> |v.s| < MAX_ARG)
    modifies out
    ensures Wrote(old(out[..]), out[..], cap, pos, EncValue(v), rc, pos')
  {
    hide Wrote, EncHead, EncBstr;
    match v {
      case U(n) => rc, pos' := PutHead(out, cap, pos, 0, n);
      case B(s) => rc, pos' := PutBstr(out, cap, pos, s);
      case F(t) => rc, pos' := PutByte(out, cap, pos, if t then 0xf5 else 0xf4);
    }
  }

  /** One key and its value, after the entries before it. */
  method PutEntry(out: array<byte>, cap: nat, pos: nat, k: nat, v: Value, ghost p: Predicate, ghost start: Bytes,
                  ghost pos0: nat)
    returns (rc: int, pos': nat)
    requires k < KEYS && v == Get(p, k) && ValueOk(k, v)
    requires pos <= cap <= out.Length && Wrote(start, out[..], cap, pos0, EncBelow(p, k), RC_OK, pos)
    modifies out
    ensures pos' <= cap
    ensures Wrote(start, out[..], cap, pos0, if rc == RC_OK then EncBelow(p, k + 1) else Encode(p), rc, pos')
  {
    hide Wrote, EncHead, EncValue, EncBelow, Encode, EncFrom, Get;
    ghost var s0, s1, s2 := EncBelow(p, k), EncHead(0, k), EncValue(v);
    ghost var rest := s2 + EncFrom(p, k + 1);
    JoinEntry(p, k);
    ghost var b0 := out[..];
    rc, pos' := PutHead(out, cap, pos, 0, k);
    WroteTwice(start, b0, out[..], cap, pos0, s0, RC_OK, pos, s1, rc, pos');
    PositionInside(start, out[..], cap, pos0, s0 + s1, rc, pos');
    if rc != RC_OK {
      WroteOverflow(start, out[..], cap, pos0, s0 + s1, rc, pos', rest);
      return;
    }
    ghost var b1, p1 := out[..], pos';
    rc, pos' := PutValue(out, cap, pos', v);
    WroteTwice(start, b1, out[..], cap, pos0, s0 + s1, RC_OK, p1, s2, rc, pos');
    PositionInside(start, out[..], cap, pos0, s0 + s1 + s2, rc, pos');
    if rc != RC_OK {
      WroteOverflow(start, out[..], cap, pos0, s0 + s1 + s2, rc, pos', EncFrom(p, k + 1));
    }
  }

  lemma JoinEntry(p: Predicate, k: nat)
    requires k < KEYS
    ensures EncBelow(p, k) + EncHead(0, k) + EncValue(Get(p, k)) == EncBelow(p, k + 1)
    ensures EncBelow(p, k + 1) + EncFrom(p, k + 1) == Encode(p)
    ensures EncBelow(p, k) + EncHead(0, k) + (EncValue(Get(p, k)) + EncFrom(p, k + 1)) == Encode(p)
  {
    hide EncHead, EncValue, EncFrom, Encode, Get;
    BelowAndFrom(p, k + 1);
    JoinFour(EncBelow(p, k), EncHead(0, k), EncValue(Get(p, k)), EncFrom(p, k + 1));
  }

  lemma JoinFour(a: Bytes, b: Bytes, c: Bytes, d: Bytes)
    ensures a + (b + c) == a + b + c
    ensures a + b + (c + d) == a + b + c + d
  {
  }

  /** The values of a struct, key by key. */
  lemma FieldValues(c: CPredicate)
    requires |c.nonce| == NONCE_MAX && c.nonceLen as int <= NONCE_MAX
    ensures var p := Meaning(c);
            && Get(p, 0) == U(c.version as nat) && Get(p, 1) == B(c.nonce[..c.nonceLen])
            && Get(p, 2) == U(c.eventId as nat)
            && Get(p, 3) == F(c.voiceActive != 0) && Get(p, 4) == U(c.presence as nat)
            && Get(p, 5) == U(c.frames as nat)
            && Get(p, 6) == U(c.windowMs as nat) && Get(p, 7) == U(c.counter as nat) && Get(p, 8) == B(c.configHash)
            && Get(p, 9) == B(c.inputHash) && Get(p, 10) == B(c.prevDigest)
  {
  }

  /** The entries from key 5 on. */
  method PutLaterEntries(c: CPredicate, out: array<byte>, cap: nat, pos: nat, ghost start: Bytes)
    returns (rc: int, pos': nat)
    requires |c.nonce| == NONCE_MAX && c.nonceLen as int <= NONCE_MAX
    requires pos <= cap <= out.Length && Wrote(start, out[..], cap, 0, EncBelow(Meaning(c), 5), RC_OK, pos)
    modifies out
    ensures Wrote(start, out[..], cap, 0, Encode(Meaning(c)), rc, pos')
  {
    ghost var p := Meaning(c);
    MeaningValid(c);
    FieldValues(c);
    hide *;
    rc, pos' := PutEntry(out, cap, pos, 5, U(c.frames as nat), p, start, 0);
    if rc != RC_OK { return; }
    rc, pos' := PutEntry(out, cap, pos', 6, U(c.windowMs as nat), p, start, 0);
    if rc != RC_OK { return; }
    rc, pos' := PutEntry(out, cap, pos', 7, U(c.counter as nat), p, start, 0);
    if rc != RC_OK { return; }
    rc, pos' := PutHashes(c, out, cap, pos', start);
  }

  /** The three digests, from key 8 on. */
  method PutHashes(c: CPredicate, out: array<byte>, cap: nat, pos: nat, ghost start: Bytes)
    returns (rc: int, pos': nat)
    requires |c.nonce| == NONCE_MAX && c.nonceLen as int <= NONCE_MAX
    requires pos <= cap <= out.Length && Wrote(start, out[..], cap, 0, EncBelow(Meaning(c), 8), RC_OK, pos)
    modifies out
    ensures Wrote(start, out[..], cap, 0, Encode(Meaning(c)), rc, pos')
  {
    ghost var p := Meaning(c);
    MeaningValid(c);
    FieldValues(c);
    hide *;
    rc, pos' := PutEntry(out, cap, pos, 8, B(c.configHash), p, start, 0);
    if rc != RC_OK { return; }
    rc, pos' := PutEntry(out, cap, pos', 9, B(c.inputHash), p, start, 0);
    if rc != RC_OK { return; }
    rc, pos' := PutEntry(out, cap, pos', 10, B(c.prevDigest), p, start, 0);
    if rc != RC_OK { return; }
    NothingFrom(p);
  }

  method PutMapHead(out: array<byte>, cap: nat, ghost p: Predicate) returns (rc: int, pos: nat)
    requires cap <= out.Length
    modifies out
    ensures pos <= cap
    ensures Wrote(old(out[..]), out[..], cap, 0, if rc == RC_OK then EncBelow(p, 0) else Encode(p), rc, pos)
  {
    ghost var start := out[..];
    BelowAndFrom(p, 0);
    HeadOnly(p);
    hide *;
    rc, pos := PutHead(out, cap, 0, 5, KEYS);
    PositionInside(start, out[..], cap, 0, EncHead(5, KEYS), rc, pos);
    if rc != RC_OK { WroteOverflow(start, out[..], cap, 0, EncBelow(p, 0), rc, pos, EncFrom(p, 0)); }
  }

  /** The map head and the eleven entries, up to the first overflow. */
  method PutPredicate(c: CPredicate, out: array<byte>, cap: nat) returns (rc: int, pos: nat)
    requires |c.nonce| == NONCE_MAX && c.nonceLen as int <= NONCE_MAX && cap <= out.Length
    modifies out
    ensures Wrote(old(out[..]), out[..], cap, 0, Encode(Meaning(c)), rc, pos)
  {
    ghost var p, start := Meaning(c), out[..];
    MeaningValid(c);
    FieldValues(c);
    hide *;
    rc, pos := PutMapHead(out, cap, p);
    if rc != RC_OK { return; }
    rc, pos := PutEntry(out, cap, pos, 0, U(c.version as nat), p, start, 0);
    if rc != RC_OK { return; }
    rc, pos := PutEntry(out, cap, pos, 1, B(c.nonce[..c.nonceLen]), p, start, 0);
    if rc != RC_OK { return; }
    rc, pos := PutEntry(out, cap, pos, 2, U(c.eventId as nat), p, start, 0);
    if rc != RC_OK { return; }
    rc, pos := PutEntry(out, cap, pos, 3, F(c.voiceActive != 0), p, start, 0);
    if rc != RC_OK { return; }
    rc, pos := PutEntry(out, cap, pos, 4, U(c.presence as nat), p, start, 0);
    if rc != RC_OK { return; }
    rc, pos := PutLaterEntries(c, out, cap, pos, start);
  }

  /** he_payload_encode. */
  method PayloadEncode(c: CPredicate, out: array<byte>, cap: nat) returns (rc: int, outLen: nat)
    requires |c.nonce| == NONCE_MAX && cap <= out.Length
    modifies out
    ensures c.nonceLen as int > NONCE_MAX ==> rc == RC_PARAM && out[..] == old(out[..])
    ensures c.nonceLen as int <= NONCE_MAX ==>
              var s := Encode(Meaning(c));
              && rc == (if |s| <= cap then RC_OK else RC_OVERFLOW)
              && (rc == RC_OK ==> outLen == |s| && out[..outLen] == s)
    ensures out[cap..] == old(out[cap..])
  {
    if c.nonceLen as int > NONCE_MAX { return RC_PARAM, 0; }
    hide Encode, Meaning;
    var pos: nat;
    rc, pos := PutPredicate(c, out, cap);
    WroteInside(old(out[..]), out[..], cap, Encode(Meaning(c)), rc, pos);
    outLen := pos;
  }

  lemma WroteInside(a: Bytes, b: Bytes, cap: nat, s: Bytes, rc: int, pos: nat)
    requires Wrote(a, b, cap, 0, s, rc, pos)
    ensures b[cap..] == a[cap..] && pos <= cap
    ensures rc == RC_OK ==> pos == |s| && b[..pos] == s
  {
    assert b == s[..pos] + a[pos..];
  }

  lemma HeadOnly(p: Predicate)
    ensures EncBelow(p, 0) == EncHead(5, KEYS)
  {
  }

  lemma NothingFrom(p: Predicate)
    ensures EncBelow(p, KEYS) == Encode(p)
  {
    BelowAndFrom(p, KEYS);
    assert EncFrom(p, KEYS) == [];
  }

  // ---- sizes ----

  lemma HeadLength(major: nat, v: nat)
    requires major < 8
    ensures v < 24 ==> |EncHead(major, v)| == 1
    ensures v <= 0xff ==> |EncHead(major, v)| <= 2
    ensures v <= 0xffff_ffff ==> |EncHead(major, v)| <= 5
    ensures |EncHead(major, v)| <= 9
  {
  }

  /** Bytes the value under key k can take, for values of a C struct. */
  function Room(k: nat): nat {
    match k
    case 1 => 66
    case 3 => 1
    case 7 => 9
    case 8 => 34
    case 9 => 34
    case 10 => 34
    case _ => 5
  }

  lemma EntryLength(c: CPredicate, k: nat)
    requires |c.nonce| == NONCE_MAX && c.nonceLen as int <= NONCE_MAX && k < KEYS
    ensures |EncEntry(Meaning(c), k)| <= 1 + Room(k)
  {
    var p := Meaning(c);
    var v := Get(p, k);
    FieldValues(c);
    MeaningValid(c);
    assert ValueOk(k, v);
    hide EncHead, Meaning, Get;
    assert EncEntry(p, k) == EncHead(0, k) + EncValue(v);
    HeadLength(0, k);
    match v {
      case U(n) => HeadLength(0, n);
      case B(s) => HeadLength(2, |s|);
      case F(t) =>
    }
  }

  function RoomFrom(k: nat): nat
    requires k <= KEYS
    decreases KEYS - k
  {
    if k == KEYS then 0 else 1 + Room(k) + RoomFrom(k + 1)
  }

  lemma {:induction false} LengthFrom(c: CPredicate, k: nat)
    requires |c.nonce| == NONCE_MAX && c.nonceLen as int <= NONCE_MAX && k <= KEYS
    ensures |EncFrom(Meaning(c), k)| <= RoomFrom(k)
    decreases KEYS - k
  {
    hide EncEntry, Meaning;
    if k < KEYS {
      EntryLength(c, k);
      LengthFrom(c, k + 1);
    }
  }

  lemma RoomTotal()
    ensures RoomFrom(0) == 214
  {
    assert RoomFrom(8) == 105;
    assert RoomFrom(5) == 127;
    assert RoomFrom(2) == 141;
  }

  /** A buffer of the documented maximum size never overflows. */
  lemma FitsStaticBuffer(c: CPredicate)
    requires |c.nonce| == NONCE_MAX && c.nonceLen as int <= NONCE_MAX
    ensures |Encode(Meaning(c))| <= 215 <= MAX_LEN
  {
    hide EncHead, Meaning, RoomFrom, EncFrom;
    LengthFrom(c, 0);
    RoomTotal();
    HeadLength(5, KEYS);
  }

  /** What the device writes, the verifier reads back. */
  lemma {:induction false} DeviceRoundTrip(c: CPredicate)
    requires |c.nonce| == NONCE_MAX && c.nonceLen as int <= NONCE_MAX
    ensures Decode(Encode(Meaning(c))) == Ok(Meaning(c))
  {
    MeaningValid(c);
    DecodeExact(Encode(Meaning(c)), Meaning(c));
  }
}
