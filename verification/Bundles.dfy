/** Verifying a device's bound output, raw or wrapped in COSE_Sign1: what an accepted bundle says. */
module Bundles {
  import opened Basics
  import opened Text
  import opened Cbor
  import opened Items
  import opened Payload
  import opened LowS
  import Cose

  /** A bundle as posted: every field is hex. */
  datatype Bundle =
    | Raw(payloadHex: Bytes, sigHex: Bytes, pubXHex: Bytes, pubYHex: Bytes)
    | Sign1(coseHex: Bytes, pubXHex: Bytes, pubYHex: Bytes)

  function HexKey(xHex: Bytes, yHex: Bytes): Option<PubKey> {
    match (HexDec(xHex), HexDec(yHex))
    case (Some(x), Some(y)) => Some(PubKey(x, y))
    case _ => None
  }

  /** The signed message, the signature and the inner payload of a bundle. */
  datatype Envelope = Envelope(message: Bytes, sig: Bytes, payload: Bytes)

  function Open(b: Bundle): Option<Envelope> {
    match b
    case Raw(payloadHex, sigHex, _, _) =>
      (match (HexDec(payloadHex), HexDec(sigHex))
       case (Some(payload), Some(sig)) => Some(Envelope(payload, sig, payload))
       case _ => None)
    case Sign1(coseHex, _, _) =>
      match HexDec(coseHex)
      case None => None
      case Some(raw) =>
        match Cose.Parse(raw)
        case Err => None
        case Ok(m) => Some(Envelope(Cose.SigStruct(m.protBstr, m.payloadBstr), m.sig, m.payload))
  }

  predicate PinOK(key: PubKey, pin: Option<PubKey>) {
    pin.None? || pin == Some(key)
  }

  predicate VerifySig(verify: Verify, message: Bytes, sig: Bytes, key: PubKey) {
    |sig| == 64 && verify(key, message, sig)
  }

  /** VerifyBundle and VerifyCOSEBundle. */
  function VerifyBundle(verify: Verify, b: Bundle, pin: Option<PubKey>, opt: Options): GateResult {
    match (Open(b), HexKey(b.pubXHex, b.pubYHex))
    case (Some(e), Some(key)) =>
      if PinOK(key, pin) && VerifySig(verify, e.message, e.sig, key) && IsLowS(e.sig)
      then GatesAfterSig(e.payload, opt) else GateResult.Refused
    case _ => GateResult.Refused
  }

  /** A raw bundle passes exactly when it is the low-s signed, only encoding of a predicate that
      is fresh, advances the counter and continues the chain, under the pinned key. */
  lemma {:induction false} RawExact(verify: Verify, b: Bundle, pin: Option<PubKey>, opt: Options, p: Predicate)
    requires b.Raw? && HexDec(b.payloadHex).Some? && HexDec(b.sigHex).Some? && HexKey(b.pubXHex, b.pubYHex).Some?
    ensures VerifyBundle(verify, b, pin, opt) == Passed(p)
       <==> var (sig, key) := (HexDec(b.sigHex).value, HexKey(b.pubXHex, b.pubYHex).value);
            && (pin == None || pin == Some(key)) && verify(key, Encode(p), sig) && IsLowS(sig)
            && HexDec(b.payloadHex).value == Encode(p) && Valid(p) && p.version == 1
            && p.nonce == opt.expectedNonce && p.nonce != [] && p.counter > opt.lastCounter
            && (opt.expectedPrevDigest == None || opt.expectedPrevDigest == Some(p.prevDigest))
  {
    hide HexDec, HexKey, GatesAfterSig, Encode, Valid;
    GatesExact(HexDec(b.payloadHex).value, opt, p);
    LowSLength(HexDec(b.sigHex).value);
  }

  /** COSE_Sign1 on the wire: optional tag 18, an array of four, a protected header that names ES256,
      any unprotected item within the depth cap, the payload and a 64-byte signature. */
  ghost predicate CoseMessage(raw: Bytes, tagged: bool, prot: Bytes, unprot: Item, payload: Bytes, sig: Bytes) {
    && WellFormed(unprot) && Depth(unprot) <= 64 && |prot| < MAX_ARG && |payload| < MAX_ARG && |sig| == 64
    && (exists n, entries :: Cose.ES256Header(prot, n, entries))
    && raw == (if tagged then [0xd2, 0x84] else [0x84])
              + EncBstr(prot) + Enc(unprot) + EncBstr(payload) + EncBstr(sig)
  }

  lemma WireSpelled(raw: Bytes, tagged: bool, prot: Bytes, unprot: Item, payload: Bytes, sig: Bytes)
    ensures CoseMessage(raw, tagged, prot, unprot, payload, sig)
       <==> Cose.Accepted(tagged, prot, unprot, payload, sig) && raw == Cose.Wire(tagged, prot, unprot, payload, sig)
  {
    Cose.RequiresExact(prot);
    hide EncBstr, Enc, WellFormed, Depth, Cose.RequiresES256, Cose.ES256Header;
    if WellFormed(unprot) {
      var e, p, s := Enc(unprot), EncBstr(payload), EncBstr(sig);
      assert [0x84] + EncBstr(prot) + e + p + s == [0x84] + (EncBstr(prot) + (e + (p + s)));
      assert [0xd2, 0x84] + EncBstr(prot) + e + p + s == [0xd2] + ([0x84] + (EncBstr(prot) + (e + (p + s))));
    }
  }

  /** What is signed for a protected header and a payload: RFC 9052 section 4.4 with "Signature1"
      and no external data. */
  lemma SigStructSpelled(prot: Bytes, payload: Bytes)
    ensures Cose.SigStruct(EncBstr(prot), EncBstr(payload))
         == [0x84, 0x6a, 0x53, 0x69, 0x67, 0x6e, 0x61, 0x74, 0x75, 0x72, 0x65, 0x31] + EncBstr(prot)
            + [0x40] + EncBstr(payload)
  {
    hide EncBstr;
    assert [0x84] + Cose.CONTEXT == [0x84, 0x6a, 0x53, 0x69, 0x67, 0x6e, 0x61, 0x74, 0x75, 0x72, 0x65, 0x31];
  }

  /** A COSE bundle passes exactly when it is a COSE_Sign1 message around the only encoding of a
      predicate that is fresh, advances the counter and continues the chain, with a low signature
      under the pinned key over the Sig_structure of its own protected header and payload. */
  lemma {:induction false} CoseExact(verify: Verify, b: Bundle, pin: Option<PubKey>, opt: Options, p: Predicate)
    requires b.Sign1? && HexDec(b.coseHex).Some? && HexKey(b.pubXHex, b.pubYHex).Some?
    ensures VerifyBundle(verify, b, pin, opt) == Passed(p)
       <==> && Valid(p) && p.version == 1
            && p.nonce == opt.expectedNonce && p.nonce != [] && p.counter > opt.lastCounter
            && (opt.expectedPrevDigest == None || opt.expectedPrevDigest == Some(p.prevDigest))
            && (pin == None || pin == HexKey(b.pubXHex, b.pubYHex))
            && exists tagged, prot, unprot, sig ::
                 CoseMessage(HexDec(b.coseHex).value, tagged, prot, unprot, Encode(p), sig) && IsLowS(sig)
                 && verify(HexKey(b.pubXHex, b.pubYHex).value,
                           [0x84, 0x6a, 0x53, 0x69, 0x67, 0x6e, 0x61, 0x74, 0x75, 0x72, 0x65, 0x31] + EncBstr(prot)
                           + [0x40] + EncBstr(Encode(p)), sig)
  {
    hide HexDec, HexKey, GatesAfterSig, Encode, Valid, CoseMessage, IsLowS, Cose.Parse, Cose.SigStruct, EncBstr;
    var raw, key := HexDec(b.coseHex).value, HexKey(b.pubXHex, b.pubYHex).value;
    if VerifyBundle(verify, b, pin, opt) == Passed(p) {
      var m := Cose.Parse(raw).value;
      GatesExact(m.payload, opt, p);
      var tagged, prot, unprot := Cose.ParseSound(raw);
      WireSpelled(raw, tagged, prot, unprot, m.payload, m.sig);
      SigStructSpelled(prot, m.payload);
      assert CoseMessage(raw, tagged, prot, unprot, Encode(p), m.sig);
    }
    if tagged, prot, unprot, sig :|
        (&& CoseMessage(raw, tagged, prot, unprot, Encode(p), sig) && IsLowS(sig)
         && verify(key, [0x84, 0x6a, 0x53, 0x69, 0x67, 0x6e, 0x61, 0x74, 0x75, 0x72, 0x65, 0x31] + EncBstr(prot)
                        + [0x40] + EncBstr(Encode(p)), sig))
    {
      WireSpelled(raw, tagged, prot, unprot, Encode(p), sig);
      Cose.ParseComplete(tagged, prot, unprot, Encode(p), sig);
      SigStructSpelled(prot, Encode(p));
      GatesExact(Encode(p), opt, p);
      LowSLength(sig);
    }
  }

  lemma LowSLength(sig: Bytes)
    ensures IsLowS(sig) ==> |sig| == 64
  {
  }

  // ---- what a device key can vouch for ----

  /** The two envelopes sign different strings, so neither signature passes for the other. */
  lemma EnvelopesApart(p: Predicate, protBstr: Bytes, payloadBstr: Bytes)
    ensures Encode(p) != Cose.SigStruct(protBstr, payloadBstr)
  {
    hide EncFrom;
    assert EncHead(5, KEYS) == [0xab];
    assert Encode(p)[0] == 0xab && Cose.SigStruct(protBstr, payloadBstr)[0] == 0x84;
  }

  lemma {:induction false} EncodeShort(p: Predicate, k: nat)
    requires Valid(p) && k <= KEYS
    ensures |EncFrom(p, k)| <= (KEYS - k) * 82
    decreases KEYS - k
  {
    hide EncHead, Get;
    if k < KEYS {
      EncodeShort(p, k + 1);
      assert ValueOk(k, Get(p, k));
    }
  }

  /** Ideal signatures: the key signs only predicates of `measured`, raw or in COSE. */
  ghost predicate DeviceKey(verify: Verify, key: PubKey, measured: set<Predicate>) {
    forall m, sig :: verify(key, m, sig) ==> exists q :: SignedFor(m, q) && q in measured
  }

  ghost predicate SignedFor(m: Bytes, q: Predicate) {
    Valid(q) && (m == Encode(q) || m == Cose.SignedBytes(Encode(q)))
  }

  lemma EncodeInjective(p: Predicate, q: Predicate)
    requires Valid(p) && Valid(q) && Encode(p) == Encode(q)
    ensures p == q
  {
    DecodeExact(Encode(p), p);
    DecodeExact(Encode(q), q);
  }

  /** The inner payload of what was signed for q is q's encoding, in either envelope. */
  lemma {:induction false} SignedPayload(b: Bundle, q: Predicate, p: Predicate)
    requires Open(b).Some? && Valid(p) && Open(b).value.payload == Encode(p) && SignedFor(Open(b).value.message, q)
    ensures p == q
  {
    hide HexDec, Encode, Valid, Cose.Parse, Cose.SigStruct, Cose.BstrHead, Cose.Accepted, EncBstr;
    var e := Open(b).value;
    match b {
      case Raw(_, _, _, _) =>
        EnvelopesApart(p, Cose.PROTECTED, Cose.BstrHead(|Encode(q)|) + Encode(q));
        EncodeInjectiveIf(p, q);
      case Sign1(coseHex, _, _) =>
        var raw := HexDec(coseHex).value;
        var m := Cose.Parse(raw).value;
        EnvelopesApart(q, m.protBstr, m.payloadBstr);
        assert Cose.SigStruct(m.protBstr, m.payloadBstr) == Cose.SignedBytes(Encode(q));
        CoseBindsPayload(raw, q);
        EncodeInjective(p, q);
    }
  }

  lemma EncodeInjectiveIf(p: Predicate, q: Predicate)
    ensures Valid(p) && Valid(q) && Encode(p) == Encode(q) ==> p == q
  {
    hide Encode, Valid;
    if Valid(p) && Valid(q) && Encode(p) == Encode(q) { EncodeInjective(p, q); }
  }

  lemma EncodeSmall(q: Predicate)
    requires Valid(q)
    ensures |Encode(q)| < 0x1_0000_0000
  {
    EncodeShort(q, 0);
    hide EncFrom, Valid;
  }

  lemma CoseBindsPayload(raw: Bytes, q: Predicate)
    requires Cose.Parse(raw).Ok? && Valid(q)
    requires Cose.SigStruct(Cose.Parse(raw).value.protBstr, Cose.Parse(raw).value.payloadBstr) ==
             Cose.SignedBytes(Encode(q))
    ensures Cose.Parse(raw).value.payload == Encode(q)
  {
    hide Encode, Valid, Cose.Parse, Cose.SigStruct, Cose.BstrHead, Cose.RequiresES256, EncHead, WellFormed, Depth, Enc;
    var tagged, prot, unprot := Cose.ParseSound(raw);
    EncodeSmall(q);
    Cose.BstrHeadExact(|Encode(q)|);
    Cose.FixedHeader();
    Cose.SigStructInjective(prot, Cose.Parse(raw).value.payload, [0xa1, 0x01, 0x26], Encode(q));
  }

  /** End to end: a bundle that passes pinned to a device key, in either envelope, carries a
      predicate that device measured, bound to the challenge and beyond the last counter. */
  lemma {:induction false} AcceptedWasMeasured(verify: Verify, b: Bundle, key: PubKey, opt: Options,
                                               measured: set<Predicate>)
    requires DeviceKey(verify, key, measured)
    requires VerifyBundle(verify, b, Some(key), opt).Passed?
    ensures var p := VerifyBundle(verify, b, Some(key), opt).p;
            p in measured && p.nonce == opt.expectedNonce && p.nonce != [] && p.counter > opt.lastCounter
  {
    hide Open, HexKey, GatesAfterSig, IsLowS, SignedFor, Encode, Valid;
    var e := Open(b).value;
    var p := VerifyBundle(verify, b, Some(key), opt).p;
    GatesExact(e.payload, opt, p);
    var q :| SignedFor(e.message, q) && q in measured;
    SignedPayload(b, q, p);
  }
}
