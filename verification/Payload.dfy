/** The bound-output payload: the Go decoder accepts exactly the deterministic encodings. */
module Payload {
  import opened Basics
  import opened Cbor

  const NONCE_MAX := 64
  const HASH_LEN := 32
  const KEYS := 11

  datatype Predicate = Predicate(
    version: nat, nonce: Bytes, eventId: nat, voiceActive: bool, presence: nat, frames: nat,
    windowMs: nat, counter: nat, configHash: Bytes, inputHash: Bytes, prevDigest: Bytes)

  const ZERO := Predicate(0, [], 0, false, 0, 0, 0, 0, [], [], [])

  /** One map value. */
  datatype Value = U(n: nat) | B(s: Bytes) | F(t: bool)

  function Get(p: Predicate, k: nat): Value
    requires k < KEYS
  {
    match k
    case 0 => U(p.version)
    case 1 => B(p.nonce)
    case 2 => U(p.eventId)
    case 3 => F(p.voiceActive)
    case 4 => U(p.presence)
    case 5 => U(p.frames)
    case 6 => U(p.windowMs)
    case 7 => U(p.counter)
    case 8 => B(p.configHash)
    case 9 => B(p.inputHash)
    case _ => B(p.prevDigest)
  }

  /** The value under key k is of the right kind and size. */
  predicate ValueOk(k: nat, v: Value) {
    match v
    case U(n) => k in {0, 2, 4, 5, 6, 7} && n < MAX_ARG
    case F(_) => k == 3
    case B(s) => (k == 1 && |s| <= NONCE_MAX) || (k in {8, 9, 10} && |s| == HASH_LEN)
  }

  /** What a genuine device can put in a predicate. */
  ghost predicate Valid(p: Predicate) {
    forall k :: 0 <= k < KEYS ==> ValueOk(k, Get(p, k))
  }

  function EncValue(v: Value): Bytes {
    match v
    case U(n) => EncHead(0, n)
    case B(s) => EncBstr(s)
    case F(t) => if t then [0xf5] else [0xf4]
  }

  function EncEntry(p: Predicate, k: nat): Bytes
    requires k < KEYS
  {
    EncHead(0, k) + EncValue(Get(p, k))
  }

  /** The entries from key k on, in ascending key order. */
  function EncFrom(p: Predicate, k: nat): Bytes
    requires k <= KEYS
    decreases KEYS - k
  {
    if k == KEYS then [] else EncEntry(p, k) + EncFrom(p, k + 1)
  }

  function Encode(p: Predicate): Bytes {
    EncHead(5, KEYS) + EncFrom(p, 0)
  }

  // ---- decoding ----

  function WithUint(p: Predicate, k: nat, n: nat): Predicate {
    match k
    case 0 => p.(version := n)
    case 2 => p.(eventId := n)
    case 4 => p.(presence := n)
    case 5 => p.(frames := n)
    case 6 => p.(windowMs := n)
    case _ => p.(counter := n)
  }

  function WithBytes(p: Predicate, k: nat, s: Bytes): Predicate {
    match k
    case 1 => p.(nonce := s)
    case 8 => p.(configHash := s)
    case 9 => p.(inputHash := s)
    case _ => p.(prevDigest := s)
  }

  /** Reads the value of key k into p, or fails on a wrong kind, a wrong length or an unknown key. */
  function EntryAt(b: Bytes, pos: nat, k: nat, p: Predicate): (r: Read<Predicate>)
    ensures r.Got? ==> pos < r.pos <= |b|
  {
    if k in {0, 2, 4, 5, 6, 7} then
      match UintAt(b, pos)
      case Got(n, pos') => Got(WithUint(p, k, n), pos')
      case Fail => Fail
    else if k in {1, 8, 9, 10} then
      match BstrAt(b, pos)
      case Got(s, pos') =>
        if (k == 1 && |s| > NONCE_MAX) || (k != 1 && |s| != HASH_LEN) then Fail
        else Got(WithBytes(p, k, s), pos')
      case Fail => Fail
    else if k == 3 then
      match BoolAt(b, pos)
      case Got(t, pos') => Got(p.(voiceActive := t), pos')
      case Fail => Fail
    else Fail
  }

  const ALL_KEYS: set<nat> := {0, 1, 2, 3, 4, 5, 6, 7, 8, 9, 10}

  /** The loop over the map entries: i of n are read, `seen` are the known keys among them and
      `last` is the latest key (-1 before the first). */
  function Entries(b: Bytes, pos: nat, i: nat, n: nat, seen: set<nat>, last: int, p: Predicate): Result<Predicate>
    requires i <= n
    decreases n - i
  {
    if i == n then
      if seen == ALL_KEYS && pos == |b| then Ok(p) else Err
    else
      match UintAt(b, pos)
      case Fail => Err
      case Got(key, pos') =>
        if key <= last || key in seen then Err
        else
          match EntryAt(b, pos', key, p)
          case Fail => Err
          case Got(p', pos'') => Entries(b, pos'', i + 1, n, seen + {key}, key, p')
  }

  function Decode(b: Bytes): Result<Predicate> {
    match HeadAt(b, 0)
    case Fail => Err
    case Got(h, pos) => if h.major != 5 then Err else Entries(b, pos, 0, h.arg, {}, -1, ZERO)
  }

  method DecodePayload(b: Bytes) returns (res: Result<Predicate>)
    ensures res == Decode(b)
  {
    hide HeadAt, UintAt, BstrAt, BoolAt;
    var r := new Reader(b);
    var h := r.ReadHead();
    if h.None? || h.value.major != 5 { return Err; }
    var n := h.value.arg;
    var p := ZERO;
    var seen: set<nat>, last: int := {}, -1;
    var i := 0;
    while i < n
      invariant 0 <= i <= n && r.b == b
      invariant Decode(b) == Entries(b, r.pos, i, n, seen, last, p)
    {
      var key := r.ReadUint();
      if key.None? { return Err; }
      var k := key.value;
      if k <= last { return Err; }
      last := k;
      if k in seen { return Err; }
      var entry := ReadEntry(r, k, p);
      if entry.None? { return Err; }
      p := entry.value;
      seen := seen + {k};
      i := i + 1;
    }
    if seen != ALL_KEYS || r.pos != |b| { return Err; }
    return Ok(p);
  }

  method ReadEntry(r: Reader, k: nat, p0: Predicate) returns (res: Option<Predicate>)
    modifies r`pos
    ensures res.Some? <==> EntryAt(r.b, old(r.pos), k, p0).Got?
    ensures res.Some? ==> EntryAt(r.b, old(r.pos), k, p0) == Got(res.value, r.pos)
  {
    hide UintAt, BstrAt, BoolAt;
    if k in {0, 2, 4, 5, 6, 7} {
      var v := r.ReadUint();
      if v.None? { return None; }
      return Some(WithUint(p0, k, v.value));
    } else if k in {1, 8, 9, 10} {
      var s := r.ReadBstr();
      if s.None? || (k == 1 && |s.value| > NONCE_MAX) || (k != 1 && |s.value| != HASH_LEN) { return None; }
      return Some(WithBytes(p0, k, s.value));
    } else if k == 3 {
      var t := r.ReadBool();
      if t.None? { return None; }
      return Some(p0.(voiceActive := t.value));
    } else {
      return None;
    }
  }

  // ---- exactness ----

  /** p and q carry the same values under the keys below k. */
  ghost predicate AgreeBelow(p: Predicate, q: Predicate, k: nat)
    requires k <= KEYS
  {
    forall j :: 0 <= j < k ==> Get(p, j) == Get(q, j)
  }

  lemma AgreeAll(p: Predicate, q: Predicate)
    requires AgreeBelow(p, q, KEYS)
    ensures p == q
  {
    assert Get(p, 0) == Get(q, 0) && Get(p, 1) == Get(q, 1) && Get(p, 2) == Get(q, 2) && Get(p, 3) == Get(q, 3);
    assert Get(p, 4) == Get(q, 4) && Get(p, 5) == Get(q, 5) && Get(p, 6) == Get(q, 6) && Get(p, 7) == Get(q, 7);
    assert Get(p, 8) == Get(q, 8) && Get(p, 9) == Get(q, 9) && Get(p, 10) == Get(q, 10);
  }

  /** An entry is read exactly where the encoding of a valid value stands, and changes only its key. */
  lemma EntrySound(b: Bytes, pos: nat, k: nat, p: Predicate)
    requires EntryAt(b, pos, k, p).Got?
    ensures k < KEYS
    ensures var (q, end) := (EntryAt(b, pos, k, p).value, EntryAt(b, pos, k, p).pos);
            && ValueOk(k, Get(q, k)) && StartsWith(b, pos, EncValue(Get(q, k)))
            && end == pos + |EncValue(Get(q, k))|
            && forall j :: 0 <= j < KEYS && j != k ==> Get(q, j) == Get(p, j)
  {
    hide UintAt, BstrAt, EncHead, EncBstr;
    if k in {0, 2, 4, 5, 6, 7} {
      UintSound(b, pos);
      UintExact(b, pos, UintAt(b, pos).value);
    } else if k in {1, 8, 9, 10} {
      BstrSound(b, pos);
      BstrExact(b, pos, BstrAt(b, pos).value);
    }
  }

  lemma EntryComplete(b: Bytes, pos: nat, k: nat, p: Predicate, q: Predicate)
    requires k < KEYS && ValueOk(k, Get(q, k)) && StartsWith(b, pos, EncValue(Get(q, k)))
    ensures EntryAt(b, pos, k, p).Got? && EntryAt(b, pos, k, p).pos == pos + |EncValue(Get(q, k))|
    ensures Get(EntryAt(b, pos, k, p).value, k) == Get(q, k)
    ensures forall j :: 0 <= j < KEYS && j != k ==> Get(EntryAt(b, pos, k, p).value, j) == Get(p, j)
  {
    hide UintAt, BstrAt, EncHead, EncBstr;
    match Get(q, k) {
      case U(n) => UintExact(b, pos, n);
      case B(s) => BstrExact(b, pos, s);
      case F(t) => assert b[pos] == b[pos..pos + 1][0];
    }
  }

  /** The keys below i. */
  function KeysBelow(i: nat): (s: set<nat>)
    ensures forall j :: j in s <==> 0 <= j < i
  {
    if i == 0 then {} else KeysBelow(i - 1) + {i - 1}
  }

  /** A key that was passed over never comes back, so the map is refused in the end. */
  lemma {:induction false} SkippedKey(b: Bytes, pos: nat, i: nat, n: nat, seen: set<nat>, last: int, p: Predicate,
                                      j: nat)
    requires i <= n && j < KEYS && j !in seen && j <= last
    ensures Entries(b, pos, i, n, seen, last, p) == Err
    decreases n - i
  {
    hide UintAt, EntryAt;
    if i == n {
      assert j in ALL_KEYS;
    } else if UintAt(b, pos).Got? && UintAt(b, pos).value > last && UintAt(b, pos).value !in seen {
      var key, pos' := UintAt(b, pos).value, UintAt(b, pos).pos;
      if EntryAt(b, pos', key, p).Got? {
        SkippedKey(b, EntryAt(b, pos', key, p).pos, i + 1, n, seen + {key}, key, EntryAt(b, pos', key, p).value, j);
      }
    }
  }

  lemma KeysBelowAll(i: nat)
    ensures KeysBelow(i) == ALL_KEYS <==> i == KEYS
  {
    assert forall j :: j in ALL_KEYS <==> 0 <= j < KEYS;
    if i > KEYS { assert 11 in KeysBelow(i); }
    if i < KEYS { assert i in ALL_KEYS; }
    if i == KEYS { assert KeysBelow(i) == ALL_KEYS; }
  }

  /** An accepted next entry carries the next key, standing encoded at pos. */
  lemma NextEntry(b: Bytes, pos: nat, i: nat, n: nat, p: Predicate)
    requires i < n && Entries(b, pos, i, n, KeysBelow(i), i - 1, p).Ok?
    ensures i < KEYS && UintAt(b, pos) == Got(i, pos + |EncHead(0, i)|)
    ensures EntryAt(b, pos + |EncHead(0, i)|, i, p).Got?
    ensures var e := EntryAt(b, pos + |EncHead(0, i)|, i, p);
            Entries(b, pos, i, n, KeysBelow(i), i - 1, p) == Entries(b, e.pos, i + 1, n, KeysBelow(i + 1), i, e.value)
  {
    hide UintAt, EntryAt, EncHead;
    var key, pos' := UintAt(b, pos).value, UintAt(b, pos).pos;
    UintSound(b, pos);
    EntrySound(b, pos', key, p);
    if key != i {
      var e := EntryAt(b, pos', key, p);
      SkippedKey(b, e.pos, i + 1, n, KeysBelow(i) + {key}, key, e.value, i);
    }
    assert KeysBelow(i) + {i} == KeysBelow(i + 1);
  }

  lemma EntryStands(b: Bytes, pos: nat, i: nat, p: Predicate, q: Predicate)
    requires i < KEYS && UintAt(b, pos) == Got(i, pos + |EncHead(0, i)|)
    requires EntryAt(b, pos + |EncHead(0, i)|, i, p).Got?
    requires Get(EntryAt(b, pos + |EncHead(0, i)|, i, p).value, i) == Get(q, i)
    ensures StartsWith(b, pos, EncEntry(q, i)) && ValueOk(i, Get(q, i))
    ensures EntryAt(b, pos + |EncHead(0, i)|, i, p).pos == pos + |EncEntry(q, i)|
  {
    hide UintAt, EntryAt, EncHead, EncValue;
    UintExact(b, pos, i);
    EntrySound(b, pos + |EncHead(0, i)|, i, p);
    ConcatAt(b, pos, EncHead(0, i), EncValue(Get(q, i)));
  }

  /** What the loop accepts from key i on is the encoding of the predicate it returns. */
  lemma {:induction false} EntriesSound(b: Bytes, pos: nat, i: nat, n: nat, p: Predicate)
    requires i <= n && i <= KEYS && pos <= |b|
    requires Entries(b, pos, i, n, KeysBelow(i), i - 1, p).Ok?
    ensures n == KEYS
    ensures var q := Entries(b, pos, i, n, KeysBelow(i), i - 1, p).value;
            && AgreeBelow(p, q, i) && b[pos..] == EncFrom(q, i)
            && forall k :: i <= k < KEYS ==> ValueOk(k, Get(q, k))
    decreases n - i
  {
    hide UintAt, EntryAt, EncHead, Get, ValueOk, EncValue;
    var q := Entries(b, pos, i, n, KeysBelow(i), i - 1, p).value;
    if i == n {
      KeysBelowAll(i);
    } else {
      NextEntry(b, pos, i, n, p);
      var pos' := pos + |EncHead(0, i)|;
      var e := EntryAt(b, pos', i, p);
      EntrySound(b, pos', i, p);
      EntriesSound(b, e.pos, i + 1, n, e.value);
      assert Get(e.value, i) == Get(q, i);
      EntryStands(b, pos, i, p, q);
      assert b[pos..] == b[pos..e.pos] + b[e.pos..];
    }
  }

  /** A remainder that starts with s goes on with the rest. */
  lemma TailAt(b: Bytes, pos: nat, s: Bytes, t: Bytes)
    requires pos <= |b| && b[pos..] == s + t
    ensures StartsWith(b, pos, s) && b[pos + |s|..] == t
  {
    assert b[pos..pos + |s|] == b[pos..][..|s|] == s;
    assert b[pos + |s|..] == b[pos..][|s|..] == t;
  }

  lemma {:induction false} EntriesComplete(b: Bytes, pos: nat, i: nat, p: Predicate, q: Predicate)
    requires i <= KEYS && pos <= |b| && Valid(q) && AgreeBelow(p, q, i) && b[pos..] == EncFrom(q, i)
    ensures Entries(b, pos, i, KEYS, KeysBelow(i), i - 1, p) == Ok(q)
    decreases KEYS - i
  {
    hide UintAt, EntryAt, EncHead, Get, ValueOk, EncValue;
    if i == KEYS {
      KeysBelowAll(i);
      AgreeAll(p, q);
    } else {
      var pos' := pos + |EncHead(0, i)|;
      TailAt(b, pos, EncEntry(q, i), EncFrom(q, i + 1));
      ConcatAt(b, pos, EncHead(0, i), EncValue(Get(q, i)));
      UintExact(b, pos, i);
      assert ValueOk(i, Get(q, i));
      EntryComplete(b, pos', i, p, q);
      var e := EntryAt(b, pos', i, p);
      assert KeysBelow(i) + {i} == KeysBelow(i + 1);
      EntriesComplete(b, e.pos, i + 1, e.value, q);
    }
  }

  /** The codec is a bijection between valid predicates and accepted payloads: a byte string
      decodes to p exactly when p is valid and the string is its one encoding. */
  lemma {:induction false} DecodeExact(b: Bytes, p: Predicate)
    ensures Decode(b) == Ok(p) <==> Valid(p) && b == Encode(p)
  {
    hide Entries, EncFrom, EncHead, HeadAt, Get, ValueOk;
    if Decode(b) == Ok(p) {
      var h := HeadAt(b, 0).value;
      HeadSound(b, 0);
      assert KeysBelow(0) == {};
      EntriesSound(b, HeadAt(b, 0).pos, 0, h.arg, ZERO);
      assert b == b[0..HeadAt(b, 0).pos] + b[HeadAt(b, 0).pos..];
    }
    if Valid(p) && b == Encode(p) {
      TailAt(b, 0, EncHead(5, KEYS), EncFrom(p, 0));
      HeadComplete(b, 0, 5, KEYS);
      assert KeysBelow(0) == {};
      EntriesComplete(b, |EncHead(5, KEYS)|, 0, ZERO, p);
    }
  }

  /** The entries below key k, as one string. */
  function EncBelow(p: Predicate, k: nat): Bytes
    requires k <= KEYS
  {
    if k == 0 then EncHead(5, KEYS) else EncBelow(p, k - 1) + EncEntry(p, k - 1)
  }

  lemma {:induction false} BelowAndFrom(p: Predicate, k: nat)
    requires k <= KEYS
    ensures Encode(p) == EncBelow(p, k) + EncFrom(p, k)
  {
    hide EncHead, EncEntry;
    if k > 0 {
      BelowAndFrom(p, k - 1);
      assert EncFrom(p, k - 1) == EncEntry(p, k - 1) + EncFrom(p, k);
    }
  }

  /** The bytes of a payload, key by key: a map of eleven entries under the keys 0 to 10. */
  lemma EncodeSpelled(p: Predicate)
    ensures Encode(p) == [0xab]
                         + ([0x00] + EncHead(0, p.version))
                         + ([0x01] + EncBstr(p.nonce))
                         + ([0x02] + EncHead(0, p.eventId))
                         + ([0x03] + [if p.voiceActive then 0xf5 else 0xf4])
                         + ([0x04] + EncHead(0, p.presence))
                         + ([0x05] + EncHead(0, p.frames))
                         + ([0x06] + EncHead(0, p.windowMs))
                         + ([0x07] + EncHead(0, p.counter))
                         + ([0x08] + EncBstr(p.configHash))
                         + ([0x09] + EncBstr(p.inputHash))
                         + ([0x0a] + EncBstr(p.prevDigest))
  {
    EncodeBelow(p);
    FirstEntries(p);
    LastEntries(p);
    hide *;
  }

  lemma LastEntries(p: Predicate)
    ensures EncBelow(p, 11) == EncBelow(p, 5)
                               + ([0x05] + EncHead(0, p.frames))
                               + ([0x06] + EncHead(0, p.windowMs))
                               + ([0x07] + EncHead(0, p.counter))
                               + ([0x08] + EncBstr(p.configHash))
                               + ([0x09] + EncBstr(p.inputHash))
                               + ([0x0a] + EncBstr(p.prevDigest))
  {
    EncBelowStep(p, 5);
    EncBelowStep(p, 6);
    EncBelowStep(p, 7);
    EncBelowStep(p, 8);
    EncBelowStep(p, 9);
    EncBelowStep(p, 10);
    hide *;
    ValuesSpelled(p);
  }

  lemma EncodeBelow(p: Predicate)
    ensures Encode(p) == EncBelow(p, 11)
  {
    hide EncBelow, EncHead;
    BelowAndFrom(p, KEYS);
    assert EncFrom(p, KEYS) == [];
  }

  lemma ValuesSpelled(p: Predicate)
    ensures EncValue(Get(p, 0)) == EncHead(0, p.version) && EncValue(Get(p, 1)) == EncBstr(p.nonce)
    ensures EncValue(Get(p, 2)) == EncHead(0, p.eventId)
    ensures EncValue(Get(p, 3)) == [if p.voiceActive then 0xf5 else 0xf4]
    ensures EncValue(Get(p, 4)) == EncHead(0, p.presence) && EncValue(Get(p, 5)) == EncHead(0, p.frames)
    ensures EncValue(Get(p, 6)) == EncHead(0, p.windowMs) && EncValue(Get(p, 7)) == EncHead(0, p.counter)
    ensures EncValue(Get(p, 8)) == EncBstr(p.configHash) && EncValue(Get(p, 9)) == EncBstr(p.inputHash)
    ensures EncValue(Get(p, 10)) == EncBstr(p.prevDigest)
  {
    hide EncHead, EncBstr;
  }

  lemma FirstEntries(p: Predicate)
    ensures EncBelow(p, 5) == [0xab]
                              + ([0x00] + EncHead(0, p.version))
                              + ([0x01] + EncBstr(p.nonce))
                              + ([0x02] + EncHead(0, p.eventId))
                              + ([0x03] + [if p.voiceActive then 0xf5 else 0xf4])
                              + ([0x04] + EncHead(0, p.presence))
  {
    assert EncBelow(p, 0) == [0xab];
    EncBelowStep(p, 0);
    EncBelowStep(p, 1);
    EncBelowStep(p, 2);
    EncBelowStep(p, 3);
    EncBelowStep(p, 4);
    hide *;
    ValuesSpelled(p);
  }

  lemma EncBelowStep(p: Predicate, k: nat)
    requires k < KEYS
    ensures EncBelow(p, k + 1) == EncBelow(p, k) + ([k] + EncValue(Get(p, k)))
  {
    hide EncValue, Get;
    assert EncHead(0, k) == [k];
  }

  /** What a payload can carry: a nonce of at most 64 bytes, three 32-byte digests, 64-bit numbers. */
  lemma ValidSpelled(p: Predicate)
    ensures Valid(p)
       <==> && |p.nonce| <= 64 && |p.configHash| == |p.inputHash| == |p.prevDigest| == 32
            && p.version < MAX_ARG && p.eventId < MAX_ARG && p.presence < MAX_ARG && p.frames < MAX_ARG
            && p.windowMs < MAX_ARG && p.counter < MAX_ARG
  {
    if Valid(p) {
      assert ValueOk(0, Get(p, 0)) && ValueOk(1, Get(p, 1)) && ValueOk(2, Get(p, 2)) && ValueOk(4, Get(p, 4));
      assert ValueOk(5, Get(p, 5)) && ValueOk(6, Get(p, 6)) && ValueOk(7, Get(p, 7)) && ValueOk(8, Get(p, 8));
      assert ValueOk(9, Get(p, 9)) && ValueOk(10, Get(p, 10));
    }
  }

  /** No second byte string decodes to the same predicate. */
  lemma NoSecondEncoding(b: Bytes, b': Bytes)
    requires Decode(b).Ok? && Decode(b') == Decode(b)
    ensures b == b'
  {
    DecodeExact(b, Decode(b).value);
    DecodeExact(b', Decode(b).value);
  }

  // ---- the gates after the signature ----

  datatype Options = Options(expectedNonce: Bytes, lastCounter: nat, expectedPrevDigest: Option<Bytes>)

  datatype GateResult = Passed(p: Predicate) | Refused

  const PAYLOAD_VERSION := 1

  function GatesAfterSig(payload: Bytes, opt: Options): GateResult {
    match Decode(payload)
    case Err => Refused
    case Ok(p) =>
      if p.version != PAYLOAD_VERSION then Refused
      else if |opt.expectedNonce| == 0 || |p.nonce| == 0 || p.nonce != opt.expectedNonce then Refused
      else if p.counter <= opt.lastCounter then Refused
      else if opt.expectedPrevDigest.Some? && p.prevDigest != opt.expectedPrevDigest.value then Refused
      else Passed(p)
  }

  /** A payload passes exactly when it is the one encoding of a fresh, advancing, chained predicate. */
  lemma GatesExact(payload: Bytes, opt: Options, p: Predicate)
    ensures GatesAfterSig(payload, opt) == Passed(p)
       <==> && Valid(p) && payload == Encode(p) && p.version == 1
            && p.nonce == opt.expectedNonce && p.nonce != [] && p.counter > opt.lastCounter
            && (opt.expectedPrevDigest == None || opt.expectedPrevDigest == Some(p.prevDigest))
  {
    hide Decode, Encode, Valid;
    DecodeExact(payload, p);
  }

  /** A verifier that threads its last accepted counter through a stream of payloads, each posted
      for a nonce of its own: what it accepts, with the position in the stream. */
  function AcceptedFrom(last: nat, posted: seq<(Bytes, Bytes)>, at: nat): seq<(nat, Predicate)>
    decreases |posted|
  {
    if posted == [] then []
    else
      match GatesAfterSig(posted[0].0, Options(posted[0].1, last, None))
      case Refused => AcceptedFrom(last, posted[1..], at + 1)
      case Passed(p) => [(at, p)] + AcceptedFrom(p.counter, posted[1..], at + 1)
  }

  /** Position i of the stream carries the encoding of p, made for the nonce expected there. */
  ghost predicate CarriesAt(posted: seq<(Bytes, Bytes)>, at: nat, i: nat, p: Predicate) {
    && at <= i < at + |posted|
    && Valid(p) && posted[i - at].0 == Encode(p) && p.nonce == posted[i - at].1
  }

  lemma CarriesLater(posted: seq<(Bytes, Bytes)>, at: nat, i: nat, p: Predicate)
    requires posted != [] && CarriesAt(posted[1..], at + 1, i, p)
    ensures CarriesAt(posted, at, i, p) && i > at
  {
    hide Valid, Encode;
    assert posted[1..][i - (at + 1)] == posted[i - at];
  }

  lemma {:induction false} AcceptedAbove(last: nat, posted: seq<(Bytes, Bytes)>, at: nat, k: nat)
    requires k < |AcceptedFrom(last, posted, at)|
    ensures AcceptedFrom(last, posted, at)[k].1.counter > last
    ensures CarriesAt(posted, at, AcceptedFrom(last, posted, at)[k].0, AcceptedFrom(last, posted, at)[k].1)
    decreases |posted|
  {
    hide GatesAfterSig, Valid, Encode;
    var opt := Options(posted[0].1, last, None);
    match GatesAfterSig(posted[0].0, opt) {
      case Refused =>
        hide CarriesAt;
        AcceptedAbove(last, posted[1..], at + 1, k);
        var (i, q) := AcceptedFrom(last, posted[1..], at + 1)[k];
        CarriesLater(posted, at, i, q);
      case Passed(p) =>
        GatesExact(posted[0].0, opt, p);
        if k > 0 {
          hide CarriesAt;
          AcceptedAbove(p.counter, posted[1..], at + 1, k - 1);
          var (i, q) := AcceptedFrom(p.counter, posted[1..], at + 1)[k - 1];
          CarriesLater(posted, at, i, q);
        }
    }
  }

  lemma {:induction false} AcceptedIncrease(last: nat, posted: seq<(Bytes, Bytes)>, at: nat, j: nat, k: nat)
    requires j < k < |AcceptedFrom(last, posted, at)|
    ensures AcceptedFrom(last, posted, at)[j].0 < AcceptedFrom(last, posted, at)[k].0
    ensures AcceptedFrom(last, posted, at)[j].1.counter < AcceptedFrom(last, posted, at)[k].1.counter
    decreases |posted|
  {
    hide GatesAfterSig, CarriesAt;
    match GatesAfterSig(posted[0].0, Options(posted[0].1, last, None)) {
      case Refused => AcceptedIncrease(last, posted[1..], at + 1, j, k);
      case Passed(first) =>
        if j > 0 {
          AcceptedIncrease(first.counter, posted[1..], at + 1, j - 1, k - 1);
        } else {
          AcceptedAbove(first.counter, posted[1..], at + 1, k - 1);
          var (i, q) := AcceptedFrom(first.counter, posted[1..], at + 1)[k - 1];
          CarriesLater(posted, at, i, q);
        }
    }
  }

  /** Over a whole stream accepted counters strictly increase, whatever nonces were expected; in
      particular no payload is accepted twice. */
  lemma {:induction false} StreamNeverReplays(last: nat, posted: seq<(Bytes, Bytes)>, j: nat, k: nat)
    requires j < k < |AcceptedFrom(last, posted, 0)|
    ensures var (x, y) := (AcceptedFrom(last, posted, 0)[j], AcceptedFrom(last, posted, 0)[k]);
            x.0 < y.0 < |posted| && x.1.counter < y.1.counter && posted[x.0].0 != posted[y.0].0
  {
    AcceptedIncrease(last, posted, 0, j, k);
    AcceptedAbove(last, posted, 0, j);
    AcceptedAbove(last, posted, 0, k);
    hide AcceptedFrom, Valid, Encode, Decode;
    var (x, y) := (AcceptedFrom(last, posted, 0)[j], AcceptedFrom(last, posted, 0)[k]);
    DecodeExact(posted[x.0].0, x.1);
    DecodeExact(posted[y.0].0, y.1);
  }
}
