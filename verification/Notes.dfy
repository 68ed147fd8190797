/** The canonical signed notes: checkpoints, endorsements and receipts, and exactly when
    parsing inverts printing. */
module Notes {
  import opened Basics
  import opened Text

  function Ascii(s: string): (b: Bytes)
    ensures |b| == |s|
  {
    seq(|s|, i requires 0 <= i < |s| => s[i] as int % 256)
  }

  /** Lines, each closed by a newline. */
  function Lines(parts: seq<Bytes>): Bytes {
    if parts == [] then [] else parts[0] + [LF] + Lines(parts[1..])
  }

  ghost predicate AllNoLF(parts: seq<Bytes>) {
    forall i :: 0 <= i < |parts| ==> NoLF(parts[i])
  }

  lemma {:induction false} SplitLines(parts: seq<Bytes>)
    requires AllNoLF(parts)
    ensures SplitLF(Lines(parts)) == parts + [[]]
  {
    if parts != [] {
      SplitLines(parts[1..]);
      SplitLine(parts[0], Lines(parts[1..]));
    }
  }

  lemma AllNoLFSplit(parts: seq<Bytes>)
    requires parts != []
    ensures AllNoLF(parts) <==> NoLF(parts[0]) && AllNoLF(parts[1..])
  {
    hide NoLF;
    if NoLF(parts[0]) && AllNoLF(parts[1..]) {
      forall i | 0 <= i < |parts| ensures NoLF(parts[i]) { if i > 0 { assert parts[i] == parts[1..][i - 1]; } }
    }
    if AllNoLF(parts) {
      forall i | 0 <= i < |parts[1..]| ensures NoLF(parts[1..][i]) { assert parts[1..][i] == parts[i + 1]; }
    }
  }

  lemma {:induction false} CountLines(parts: seq<Bytes>)
    ensures CountLF(Lines(parts)) >= |parts|
    ensures CountLF(Lines(parts)) == |parts| <==> AllNoLF(parts)
  {
    hide NoLF;
    if parts != [] {
      CountLines(parts[1..]);
      var s, rest := parts[0], Lines(parts[1..]);
      assert Lines(parts) == s + ([LF] + rest);
      CountConcat(s, [LF] + rest);
      assert ([LF] + rest)[1..] == rest;
      CountNone(s);
      AllNoLFSplit(parts);
      hide AllNoLF;
    }
  }

  /** The lines before the last, and the last without its newline. */
  lemma {:induction false} LinesSnoc(parts: seq<Bytes>, last: Bytes)
    ensures Lines(parts + [last]) == Lines(parts) + last + [LF]
  {
    if parts == [] {
      assert Lines([last]) == last + [LF] + Lines([]);
    } else {
      LinesSnoc(parts[1..], last);
      assert (parts + [last])[1..] == parts[1..] + [last];
      assert parts[0] + [LF] + (Lines(parts[1..]) + last + [LF]) == parts[0] + [LF] + Lines(parts[1..]) + last + [LF];
    }
  }

  /** Trimming and splitting a note whose last line is not empty. */
  lemma TrimAndSplit(parts: seq<Bytes>, last: Bytes)
    requires last != [] && NoLF(last)
    ensures |SplitLF(TrimLF(Lines(parts + [last])))| == 1 + CountLF(Lines(parts))
    ensures AllNoLF(parts) ==> SplitLF(TrimLF(Lines(parts + [last]))) == parts + [last]
  {
    var front := Lines(parts);
    LinesSnoc(parts, last);
    assert Last(front + last) == last[|last| - 1];
    TrimOne(front + last);
    SplitCounts(front + last);
    CountConcat(front, last);
    CountNone(last);
    if AllNoLF(parts) { SplitUnclosed(parts, last); }
  }

  lemma {:induction false} SplitUnclosed(parts: seq<Bytes>, last: Bytes)
    requires AllNoLF(parts) && NoLF(last)
    ensures SplitLF(Lines(parts) + last) == parts + [last]
    decreases |parts|
  {
    if parts == [] {
      assert Lines(parts) + last == last;
      SplitLast(last);
    } else {
      SplitUnclosed(parts[1..], last);
      assert Lines(parts) + last == parts[0] + [LF] + (Lines(parts[1..]) + last);
      SplitLine(parts[0], Lines(parts[1..]) + last);
    }
  }

  // ---- checkpoints ----

  datatype Checkpoint = Checkpoint(origin: Bytes, size: nat, root: Digest)

  function CheckpointBody(c: Checkpoint): Bytes {
    Lines([c.origin, Dec(c.size), B64Enc(c.root)])
  }

  function ParseCheckpoint(body: Bytes): Option<Checkpoint> {
    var lines := SplitLF(TrimLF(body));
    if |lines| != 3 then None
    else
      match (Atoi(lines[1]), B64Dec(lines[2]))
      case (Some(size), Some(raw)) => if size < 0 || |raw| != 32 then None else Some(Checkpoint(lines[0], size, raw))
      case _ => None
  }

  lemma RootLine(root: Digest)
    ensures B64Enc(root) != [] && NoLF(B64Enc(root)) && B64Dec(B64Enc(root)) == Some(root)
  {
    EncNoBreaks(root);
    B64RoundTrip(root);
  }

  /** A printed checkpoint parses back exactly when its origin has no newline. */
  lemma CheckpointParsesBack(c: Checkpoint)
    requires c.size <= MAX_INT
    ensures ParseCheckpoint(CheckpointBody(c)) == Some(c) <==> NoLF(c.origin)
  {
    var parts := [c.origin, Dec(c.size)];
    RootLine(c.root);
    DecParses(c.size);
    assert [c.origin, Dec(c.size), B64Enc(c.root)] == parts + [B64Enc(c.root)];
    TrimAndSplit(parts, B64Enc(c.root));
    CountLines(parts);
    assert AllNoLF(parts) <==> NoLF(c.origin) by {
      if AllNoLF(parts) { assert NoLF(parts[0]); }
    }
  }

  // ---- endorsements ----

  const ENDORSEMENT_SCHEMA := Ascii("honest-ear/endorsement/v1")

  datatype Endorsement = Endorsement(endorser: Bytes, pubX: Bytes, pubY: Bytes)

  function EndorsementBody(e: Endorsement): Option<Bytes> {
    if !NoLF(e.endorser) || |e.pubX| != 32 || |e.pubY| != 32 then None
    else Some(Lines([ENDORSEMENT_SCHEMA, e.endorser, HexEnc(e.pubX), HexEnc(e.pubY)]))
  }

  function ParseEndorsement(body: Bytes): Option<Endorsement> {
    var lines := SplitLF(TrimLF(body));
    if |lines| != 4 || lines[0] != ENDORSEMENT_SCHEMA then None
    else
      match (HexDec(lines[2]), HexDec(lines[3]))
      case (Some(x), Some(y)) => if |x| != 32 || |y| != 32 then None else Some(Endorsement(lines[1], x, y))
      case _ => None
  }

  lemma SchemaNoLF()
    ensures NoLF(ENDORSEMENT_SCHEMA)
  {
  }

  /** Every endorsement that is printed at all parses back. */
  lemma EndorsementParsesBack(e: Endorsement)
    requires EndorsementBody(e).Some?
    ensures ParseEndorsement(EndorsementBody(e).value) == Some(e)
  {
    var parts := [ENDORSEMENT_SCHEMA, e.endorser, HexEnc(e.pubX)];
    SchemaNoLF();
    assert [ENDORSEMENT_SCHEMA, e.endorser, HexEnc(e.pubX), HexEnc(e.pubY)] == parts + [HexEnc(e.pubY)];
    TrimAndSplit(parts, HexEnc(e.pubY));
    HexRoundTrip(e.pubX);
    HexRoundTrip(e.pubY);
  }

  // ---- receipts ----

  const RECEIPT_ORIGIN := Ascii("honest-ear/restraint-receipt/v1")

  datatype Receipt = Receipt(origin: Bytes, session: Bytes, batch: nat, inputHash: Bytes, outputHash: Bytes,
                             retained: bool, prevDigest: Bytes)

  function RetainedLine(retained: bool): Bytes {
    if retained then [49] else [48]
  }

  function ReceiptLines(r: Receipt): seq<Bytes> {
    [r.origin, r.session, Dec(r.batch), HexEnc(r.inputHash), HexEnc(r.outputHash), RetainedLine(r.retained),
     HexEnc(r.prevDigest)]
  }

  function ReceiptBody(r: Receipt): Bytes {
    Lines(ReceiptLines(r))
  }

  function HexLen(s: Bytes, n: nat): Option<Bytes> {
    match HexDec(s)
    case Some(b) => if |b| == n then Some(b) else None
    case None => None
  }

  function ParseRetained(s: Bytes): Option<bool> {
    if s == [48] then Some(false) else if s == [49] then Some(true) else None
  }

  function ReceiptOfParts(parts: seq<Bytes>): Option<Receipt> {
    if |parts| != 8 || parts[7] != [] || parts[0] != RECEIPT_ORIGIN then None
    else
      match (ParseUint(parts[2]), HexLen(parts[3], 32), HexLen(parts[4], 32))
      case (Some(batch), Some(input), Some(output)) =>
        (match (ParseRetained(parts[5]), HexLen(parts[6], 32))
         case (Some(retained), Some(prev)) => Some(Receipt(parts[0], parts[1], batch, input, output, retained, prev))
         case _ => None)
      case _ => None
  }

  ghost predicate ReceiptPrintable(r: Receipt) {
    && r.origin == RECEIPT_ORIGIN && NoLF(r.session) && r.batch <= MAX_UINT
    && |r.inputHash| == 32 && |r.outputHash| == 32 && |r.prevDigest| == 32
  }

  lemma OriginNoLF()
    ensures NoLF(RECEIPT_ORIGIN)
  {
  }

  lemma ReceiptFieldsPrint(r: Receipt)
    requires ReceiptPrintable(r)
    ensures ReceiptOfParts(ReceiptLines(r) + [[]]) == Some(r)
  {
    DecParses(r.batch);
    HexRoundTrip(r.inputHash);
    HexRoundTrip(r.outputHash);
    HexRoundTrip(r.prevDigest);
  }

  lemma ReceiptLinesNoLF(r: Receipt)
    ensures AllNoLF(ReceiptLines(r)) <==> NoLF(r.origin) && NoLF(r.session)
  {
    DecParses(r.batch);
    var ls := ReceiptLines(r);
    if AllNoLF(ls) { assert NoLF(ls[0]) && NoLF(ls[1]); }
  }

  /** A printed receipt parses back exactly when it carries the receipt origin, a session
      without newlines, a 64-bit batch number and three 32-byte digests. */
  lemma ReceiptParsesBack(r: Receipt)
    ensures ReceiptOfParts(SplitLF(ReceiptBody(r))) == Some(r) <==> ReceiptPrintable(r)
  {
    OriginNoLF();
    ReceiptLinesNoLF(r);
    var ls := ReceiptLines(r);
    if NoLF(r.origin) && NoLF(r.session) { SplitLines(ls); }
    if ReceiptPrintable(r) { ReceiptFieldsPrint(r); }
    if ReceiptOfParts(SplitLF(ReceiptBody(r))) == Some(r) {
      ParsedReceiptPrintable(SplitLF(ReceiptBody(r)), r);
      SplitCounts(ReceiptBody(r));
      CountLines(ls);
    }
  }

  /** What the parser returns satisfies every bound except the absence of newlines. */
  lemma ParsedReceiptPrintable(parts: seq<Bytes>, r: Receipt)
    requires ReceiptOfParts(parts) == Some(r)
    ensures |parts| == 8 && r.origin == RECEIPT_ORIGIN && r.batch <= MAX_UINT
    ensures |r.inputHash| == 32 && |r.outputHash| == 32 && |r.prevDigest| == 32
  {
  }

  /** What is parsed can be printed: its fields are in range and its session has no newline. */
  lemma ParsedIsPrintable(body: Bytes, r: Receipt)
    requires ReceiptOfParts(SplitLF(body)) == Some(r)
    ensures ReceiptPrintable(r)
  {
    hide HexLen, ParseUint, ParseRetained, NoLF;
    ParsedReceiptPrintable(SplitLF(body), r);
    PartsNoLF(body, 1);
    assert r.session == SplitLF(body)[1];
  }

  /** ParseReceipt: every printed receipt is returned as it was, nothing that could not have been
      printed is ever returned, and whatever is returned prints and parses back to itself. */
  method ParseReceipt(body: Bytes) returns (r: Option<Receipt>)
    ensures r == ReceiptOfParts(SplitLF(body))
    ensures forall x :: ReceiptPrintable(x) && body == ReceiptBody(x) ==> r == Some(x)
    ensures r.Some? ==> ReceiptPrintable(r.value) && ReceiptOfParts(SplitLF(ReceiptBody(r.value))) == r
  {
    hide ReceiptOfParts, ReceiptPrintable;
    var parts := ScanLines(body);
    r := ReceiptOfParts(parts);
    forall x | ReceiptPrintable(x) && body == ReceiptBody(x) ensures r == Some(x) { ReceiptParsesBack(x); }
    if r.Some? {
      ParsedIsPrintable(body, r.value);
      ReceiptParsesBack(r.value);
    }
  }
}
