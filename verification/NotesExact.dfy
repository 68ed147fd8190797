/** The grammar of the canonical notes: exactly which byte strings the three parsers accept. */
module NotesExact {
  import opened Basics
  import opened Text
  import opened TextExact
  import opened Notes

  /** Lines joined and trimmed: what is left of a body once its closing newlines are gone. */
  lemma {:induction false} TrimmedParts(body: Bytes, parts: seq<Bytes>)
    requires parts != [] && NoneHasLF(parts) && Last(parts) != []
    ensures SplitLF(TrimLF(body)) == parts <==> exists k: nat :: body == Joined(parts) + Newlines(k)
  {
    SplitExactly(TrimLF(body), parts);
    TrimExactly(body, Joined(parts));
    JoinedLast(parts);
    hide SplitLF, TrimLF, Joined, NoneHasLF;
  }

  lemma {:induction false} JoinedLast(parts: seq<Bytes>)
    requires parts != [] && NoneHasLF(parts) && Last(parts) != []
    ensures Joined(parts) != [] && Last(Joined(parts)) != LF
  {
    if |parts| == 1 {
      assert Last(parts[0]) in parts[0];
    } else {
      JoinedLast(parts[1..]);
    }
  }

  lemma PartsHaveNoLF(body: Bytes)
    ensures NoneHasLF(SplitLF(TrimLF(body)))
  {
    SplitExactly(TrimLF(body), SplitLF(TrimLF(body)));
  }

  lemma JoinedThree(a: Bytes, b: Bytes, c: Bytes)
    ensures Joined([a, b, c]) == a + [LF] + b + [LF] + c
  {
    assert [a, b, c] == [a] + [b, c] && [b, c] == [b] + [c];
    JoinedCons(a, [b, c]);
    JoinedCons(b, [c]);
    assert a + [LF] + (b + [LF] + c) == a + [LF] + b + [LF] + c;
  }

  /** The three lines of a checkpoint body, with closing newlines. */
  ghost predicate CheckpointText(body: Bytes, origin: Bytes, sizeText: Bytes, rootText: Bytes, k: nat) {
    && LF !in origin && LF !in sizeText && LF !in rootText
    && body == origin + [LF] + sizeText + [LF] + rootText + Newlines(k)
  }

  lemma RootNotEmpty(rootText: Bytes, root: Digest)
    requires B64Dec(rootText) == Some(root)
    ensures rootText != []
  {
    assert B64Dec([]) == Some([]) by { assert DropBreaks([]) == []; }
  }

  /** A body parses to c exactly when it consists of c's origin, a numeral of its size and an
      encoding of its root on a line each, and newlines. */
  lemma {:induction false} CheckpointExactly(body: Bytes, c: Checkpoint)
    ensures ParseCheckpoint(body) == Some(c)
       <==> exists sizeText, rootText, k ::
              CheckpointText(body, c.origin, sizeText, rootText, k)
              && Atoi(sizeText) == Some(c.size) && B64Dec(rootText) == Some(c.root)
  {
    hide Atoi, B64Dec, SplitLF, TrimLF, Joined;
    if ParseCheckpoint(body) == Some(c) {
      var lines := SplitLF(TrimLF(body));
      PartsHaveNoLF(body);
      RootNotEmpty(lines[2], c.root);
      TrimmedParts(body, lines);
      var k: nat :| body == Joined(lines) + Newlines(k);
      assert lines == [lines[0], lines[1], lines[2]];
      JoinedThree(lines[0], lines[1], lines[2]);
      assert CheckpointText(body, c.origin, lines[1], lines[2], k);
    }
    if sizeText, rootText, k :| (&& CheckpointText(body, c.origin, sizeText, rootText, k)
                                 && Atoi(sizeText) == Some(c.size) && B64Dec(rootText) == Some(c.root)) {
      var lines := [c.origin, sizeText, rootText];
      RootNotEmpty(rootText, c.root);
      JoinedThree(c.origin, sizeText, rootText);
      TrimmedParts(body, lines);
    }
  }

  lemma JoinedFour(a: Bytes, b: Bytes, c: Bytes, d: Bytes)
    ensures Joined([a, b, c, d]) == a + [LF] + b + [LF] + c + [LF] + d
  {
    JoinedThree(b, c, d);
    assert [a, b, c, d][1..] == [b, c, d];
    assert a + [LF] + (b + [LF] + c + [LF] + d) == a + [LF] + b + [LF] + c + [LF] + d;
  }

  ghost predicate EndorsementText(body: Bytes, endorser: Bytes, xText: Bytes, yText: Bytes, k: nat) {
    && LF !in endorser && LF !in xText && LF !in yText
    && body == Ascii("honest-ear/endorsement/v1") + [LF] + endorser + [LF] + xText + [LF] + yText + Newlines(k)
  }

  /** An endorsement parses exactly when it has its schema on the first line, the endorser on the
      second, and two 32-byte coordinates in hex on the third and fourth. */
  lemma {:induction false} EndorsementExactly(body: Bytes, e: Endorsement)
    ensures ParseEndorsement(body) == Some(e)
       <==> |e.pubX| == 32 && |e.pubY| == 32
            && exists xText, yText, k ::
                 EndorsementText(body, e.endorser, xText, yText, k)
                 && HexDec(xText) == Some(e.pubX) && HexDec(yText) == Some(e.pubY)
  {
    SchemaText();
    hide HexDec, SplitLF, TrimLF, Joined, Ascii;
    if ParseEndorsement(body) == Some(e) {
      var lines := SplitLF(TrimLF(body));
      PartsHaveNoLF(body);
      TrimmedParts(body, lines);
      var k: nat :| body == Joined(lines) + Newlines(k);
      assert lines == [lines[0], lines[1], lines[2], lines[3]];
      JoinedFour(lines[0], lines[1], lines[2], lines[3]);
      assert EndorsementText(body, e.endorser, lines[2], lines[3], k);
    }
    if xText, yText, k :| (&& EndorsementText(body, e.endorser, xText, yText, k)
                           && HexDec(xText) == Some(e.pubX) && HexDec(yText) == Some(e.pubY)) {
      if |e.pubX| == 32 && |e.pubY| == 32 {
        var lines := [Ascii("honest-ear/endorsement/v1"), e.endorser, xText, yText];
        JoinedFour(Ascii("honest-ear/endorsement/v1"), e.endorser, xText, yText);
        TrimmedParts(body, lines);
      }
    }
  }

  lemma SchemaText()
    ensures LF !in Ascii("honest-ear/endorsement/v1")
    ensures LF !in Ascii("honest-ear/restraint-receipt/v1")
  {
  }

  /** The seven lines of a receipt body. */
  ghost predicate ReceiptText(body: Bytes, session: Bytes, batchText: Bytes, inText: Bytes, outText: Bytes,
                              retained: bool, prevText: Bytes)
  {
    && LF !in session && LF !in batchText && LF !in inText && LF !in outText && LF !in prevText
    && body == Lines([Ascii("honest-ear/restraint-receipt/v1"), session, batchText, inText, outText,
                      [if retained then '1' as int else '0' as int], prevText])
  }

  lemma {:induction false} LinesJoined(parts: seq<Bytes>)
    ensures Lines(parts) == Joined(parts + [[]])
  {
    if parts != [] {
      LinesJoined(parts[1..]);
      assert (parts + [[]])[1..] == parts[1..] + [[]];
    }
  }

  /** A receipt parses exactly when its seven lines, each closed by one newline, are the receipt
      origin, the session, a 64-bit numeral, two 32-byte digests in hex, 0 or 1, and a digest. */
  lemma {:induction false} ReceiptExactly(body: Bytes, r: Receipt)
    ensures ReceiptOfParts(SplitLF(body)) == Some(r)
       <==> && r.origin == Ascii("honest-ear/restraint-receipt/v1")
            && |r.inputHash| == 32 && |r.outputHash| == 32 && |r.prevDigest| == 32
            && exists batchText, inText, outText, prevText ::
                 ReceiptText(body, r.session, batchText, inText, outText, r.retained, prevText)
                 && ParseUint(batchText) == Some(r.batch) && HexDec(inText) == Some(r.inputHash)
                 && HexDec(outText) == Some(r.outputHash) && HexDec(prevText) == Some(r.prevDigest)
  {
    SchemaText();
    hide HexDec, ParseUint, SplitLF, Joined, Ascii, Lines;
    if ReceiptOfParts(SplitLF(body)) == Some(r) {
      var p := SplitLF(body);
      SplitExactly(body, p);
      var parts := [p[0], p[1], p[2], p[3], p[4], p[5], p[6]];
      assert p == parts + [[]];
      LinesJoined(parts);
      assert ReceiptText(body, r.session, p[2], p[3], p[4], r.retained, p[6]);
    }
    if batchText, inText, outText, prevText :|
        (&& ReceiptText(body, r.session, batchText, inText, outText, r.retained, prevText)
         && ParseUint(batchText) == Some(r.batch) && HexDec(inText) == Some(r.inputHash)
         && HexDec(outText) == Some(r.outputHash) && HexDec(prevText) == Some(r.prevDigest)) {
      var parts := [Ascii("honest-ear/restraint-receipt/v1"), r.session, batchText, inText, outText,
                    [if r.retained then '1' as int else '0' as int], prevText];
      LinesJoined(parts);
      SplitExactly(body, parts + [[]]);
    }
  }

  /** The printed forms, line by line. */
  lemma PrintedNotes(c: Checkpoint, e: Endorsement)
    ensures CheckpointBody(c) == c.origin + [LF] + Dec(c.size) + [LF] + B64Enc(c.root) + [LF]
    ensures EndorsementBody(e).Some? <==> LF !in e.endorser && |e.pubX| == 32 && |e.pubY| == 32
    ensures EndorsementBody(e).Some? ==>
              EndorsementBody(e).value == Ascii("honest-ear/endorsement/v1") + [LF] + e.endorser + [LF]
                                          + HexEnc(e.pubX) + [LF] + HexEnc(e.pubY) + [LF]
  {
    hide Dec, B64Enc, HexEnc, Ascii;
    var s := Ascii("honest-ear/endorsement/v1");
    LinesOf(c.origin, Dec(c.size), [B64Enc(c.root)]);
    LinesOf(s, e.endorser, [HexEnc(e.pubX), HexEnc(e.pubY)]);
    LinesOf(HexEnc(e.pubX), HexEnc(e.pubY), []);
    assert [s, e.endorser] + [HexEnc(e.pubX), HexEnc(e.pubY)] == [s, e.endorser, HexEnc(e.pubX), HexEnc(e.pubY)];
    assert [HexEnc(e.pubX), HexEnc(e.pubY)] + [] == [HexEnc(e.pubX), HexEnc(e.pubY)];
    assert [c.origin, Dec(c.size)] + [B64Enc(c.root)] == [c.origin, Dec(c.size), B64Enc(c.root)];
    assert Lines([B64Enc(c.root)]) == B64Enc(c.root) + [LF] by { LinesSnoc([], B64Enc(c.root)); }
  }

  lemma LinesOf(a: Bytes, b: Bytes, rest: seq<Bytes>)
    ensures Lines([a, b] + rest) == a + [LF] + b + [LF] + Lines(rest)
  {
    assert ([a, b] + rest)[1..] == [b] + rest && ([b] + rest)[1..] == rest;
  }
}
