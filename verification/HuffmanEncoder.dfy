/** The sequential Huffman encoder. */
module HuffmanEncoder {
  import opened Bytes
  import opened BitStrings
  import opened BitWriter
  import opened CanonicalCode
  import opened HuffmanTables
  import opened CoefficientModel
  import opened ScanSetup
  import opened HuffmanModel
  import opened RestartSegments

  // ----- one block

  lemma RunOfSixteen(tbl: nat, z: zigzag, k: nat, n: nat)
    requires k + 15 < n < 64 && NextNonzero(z, k) == n
    ensures AcTokens(tbl, z, k) == [Token(false, tbl, ZRL, 0, 0)] + AcTokens(tbl, z, k + 16)
    ensures NextNonzero(z, k + 16) == n
  {
    hide AcTokens;
    NextNonzeroIs(z, k + 16, n);
    AcTokensAre(tbl, z, k);
  }

  lemma AcTokensAre(tbl: nat, z: zigzag, k: nat)
    requires k <= 64
    ensures AcTokens(tbl, z, k) == (
      var n := NextNonzero(z, k);
      if k == 64 then []
      else if n == 64 then [Token(false, tbl, EOB, 0, 0)]
      else if n - k > 15 then [Token(false, tbl, ZRL, 0, 0)] + AcTokens(tbl, z, k + 16)
      else [AcToken(tbl, n - k, z[n])] + AcTokens(tbl, z, n + 1))
  {
  }

  /** What is still to be sent of a block when the coefficients before k are done. */
  ghost predicate Remaining(ts: HuffTables, tbl: nat, z: zigzag, k: nat, log: seq<bool>, total: seq<bool>)
    requires k <= 64
  {
    AllSendable(ts, AcTokens(tbl, z, k)) && log + TokensBits(ts, AcTokens(tbl, z, k)) == total
  }

  lemma SendOne(ts: HuffTables, tbl: nat, z: zigzag, k: nat, x: Token, j: nat, log: seq<bool>, total: seq<bool>)
    requires k <= 64 && j <= 64 && Remaining(ts, tbl, z, k, log, total)
    requires AcTokens(tbl, z, k) == [x] + AcTokens(tbl, z, j)
    ensures Sendable(ts, x) && Remaining(ts, tbl, z, j, log + TokenBits(ts, x), total)
  {
    hide AcTokens, Sendable, TokenBits, TokensBits;
    TokensHead(ts, x, AcTokens(tbl, z, j));
    assert log + (TokenBits(ts, x) + TokensBits(ts, AcTokens(tbl, z, j)))
      == (log + TokenBits(ts, x)) + TokensBits(ts, AcTokens(tbl, z, j));
  }

  lemma FirstToken(ts: HuffTables, x: Token, tbl: nat, z: zigzag, log: seq<bool>, total: seq<bool>)
    requires AllSendable(ts, [x] + AcTokens(tbl, z, 1)) && Sendable(ts, x)
    requires total == log + TokensBits(ts, [x] + AcTokens(tbl, z, 1))
    ensures Remaining(ts, tbl, z, 1, log + TokenBits(ts, x), total)
  {
    hide AcTokens, Sendable, TokenBits, TokensBits;
    TokensHead(ts, x, AcTokens(tbl, z, 1));
    assert log + (TokenBits(ts, x) + TokensBits(ts, AcTokens(tbl, z, 1)))
      == (log + TokenBits(ts, x)) + TokensBits(ts, AcTokens(tbl, z, 1));
  }

  /** The tables of a block: the encoder's, and what they were derived from. */
  ghost predicate BlockTables(ts: HuffTables, c: Component, dctbl: CDerived, actbl: CDerived)
  {
    && GoodTables(ts) && c.dcTbl < NUM_HUFF_TBLS && c.acTbl < NUM_HUFF_TBLS
    && CodeCount(ts.dc[c.dcTbl]) <= 256 && Encodes(ts.dc[c.dcTbl], dctbl)
    && CodeCount(ts.ac[c.acTbl]) <= 256 && Encodes(ts.ac[c.acTbl], actbl)
  }

  lemma TokenTable(ts: HuffTables, c: Component, dctbl: CDerived, actbl: CDerived, x: Token)
    requires BlockTables(ts, c, dctbl, actbl) && Sendable(ts, x)
    requires x.tbl == if x.dc then c.dcTbl else c.acTbl
    ensures x.sym < 256 && Legal(TableOf(ts, x).bits) && Encodes(TableOf(ts, x), if x.dc then dctbl else actbl)
  {
    hide Legal, Encodes, ValidSymbols, Start;
    assert GoodTable(TableOf(ts, x), x.dc);
  }

  lemma NothingLeft(ts: HuffTables, tbl: nat, z: zigzag, log: seq<bool>, total: seq<bool>)
    requires Remaining(ts, tbl, z, 64, log, total)
    ensures log == total
  {
    AcTokensAre(tbl, z, 64);
    assert log + [] == log;
  }

  /** Emit a symbol and its extra bits: the macros EMIT_CODE and CHECKBUF15. */
  method EmitToken(w: Writer, d: CDerived, sym: nat, temp2: int, nbits: nat, ghost ts: HuffTables, ghost x: Token)
    requires w.Valid() && Sendable(ts, x) && Legal(TableOf(ts, x).bits) && Encodes(TableOf(ts, x), d)
    requires x.sym == sym < 256 && x.size == nbits && x.extra == temp2 % Pow2(nbits)
    modifies w`putBuffer, w`putBits, w`out, w`payload, w`log
    ensures w.Valid() && w.log == old(w.log) + TokenBits(ts, x)
  {
    hide w.Valid, Pow2, Bits, Legal, HasCode, CodeBits, Encodes;
    DerivedCode(TableOf(ts, x), d, sym);
    EncodesSize(TableOf(ts, x), d);
    w.EmitBits(d.ehufco[sym], d.ehufsi[sym]);
    w.EmitBits(temp2 % Pow2(nbits), nbits);
    assert w.log == old(w.log) + CodeBits(TableOf(ts, x), sym) + Bits(x.extra, x.size);
  }

  lemma EncodesSize(t: table, d: CDerived)
    requires CodeCount(t) <= 256 && Encodes(t, d)
    ensures |d.ehufco| == |d.ehufsi| == 256
  {
  }

  /** While the run is longer than 15, send the symbol for 16 zeros. */
  method EmitLongRuns(w: Writer, run: nat, k: nat, ghost dctbl: CDerived, actbl: CDerived, ghost ts: HuffTables,
      ghost c: Component, ghost z: zigzag, ghost total: seq<bool>) returns (r: nat)
    requires w.Valid() && BlockTables(ts, c, dctbl, actbl) && run < k < 64 && NextNonzero(z, k - run) == k
    requires Remaining(ts, c.acTbl, z, k - run, w.log, total)
    modifies w`putBuffer, w`putBits, w`out, w`payload, w`log
    ensures w.Valid() && r <= 15 && r < k && NextNonzero(z, k - r) == k
    ensures Remaining(ts, c.acTbl, z, k - r, w.log, total)
  {
    hide w.Valid, Legal, Encodes, Sendable, TokenBits, TokensBits, AcTokens, NextNonzero, BlockTables, Remaining;
    r := run;
    while r > 15
      invariant w.Valid() && 0 <= r < k && NextNonzero(z, k - r) == k
      invariant Remaining(ts, c.acTbl, z, k - r, w.log, total)
    {
      ghost var zrl := Token(false, c.acTbl, ZRL, 0, 0);
      RunOfSixteen(c.acTbl, z, k - r, k);
      SendOne(ts, c.acTbl, z, k - r, zrl, k - r + 16, w.log, total);
      TokenTable(ts, c, dctbl, actbl, zrl);
      EmitToken(w, actbl, ZRL, 0, 0, ts, zrl);
      r := r - 16;
    }
  }

  /** Send a nonzero coefficient and the zeros before it. */
  method EmitNonzero(w: Writer, run: nat, k: nat, temp: int, ghost dctbl: CDerived, actbl: CDerived,
      ghost ts: HuffTables, ghost c: Component, ghost z: zigzag, ghost total: seq<bool>)
    requires w.Valid() && BlockTables(ts, c, dctbl, actbl) && run < k < 64 && NextNonzero(z, k - run) == k
    requires z[k] == temp && Remaining(ts, c.acTbl, z, k - run, w.log, total)
    modifies w`putBuffer, w`putBits, w`out, w`payload, w`log
    ensures w.Valid() && Remaining(ts, c.acTbl, z, k + 1, w.log, total)
  {
    hide w.Valid, Legal, Encodes, Sendable, TokenBits, TokensBits, AcTokens, NextNonzero, BlockTables, Remaining, Pow2;
    var nbits := BitLength(Abs(temp));
    var r := EmitLongRuns(w, run, k, dctbl, actbl, ts, c, z, total);
    ghost var x := AcToken(c.acTbl, r, temp);
    AcTokensAre(c.acTbl, z, k - r);
    SendOne(ts, c.acTbl, z, k - r, x, k + 1, w.log, total);
    TokenTable(ts, c, dctbl, actbl, x);
    EmitToken(w, actbl, 16 * r + nbits, if temp < 0 then temp - 1 else temp, nbits, ts, x);
  }

  method EncodeOneBlock(w: Writer, b: block, lastDcVal: int, o: order, dctbl: CDerived, actbl: CDerived,
      ghost ts: HuffTables, ghost c: Component)
    requires w.Valid() && BlockTables(ts, c, dctbl, actbl)
    requires AllSendable(ts, BlockTokens(c, b[0] - lastDcVal, Zigzag(b, o)))
    modifies w`putBuffer, w`putBits, w`out, w`payload, w`log
    ensures w.Valid()
    ensures w.log == old(w.log) + TokensBits(ts, BlockTokens(c, b[0] - lastDcVal, Zigzag(b, o)))
  {
    hide w.Valid, Pow2, Bits, Legal, HasCode, CodeBits, Encodes, Sendable, TokenBits, TokensBits, AcTokens, NextNonzero,
      ValidSymbols, BlockTables, GoodTables, Remaining, Zigzag;
    ghost var z := Zigzag(b, o);
    ghost var total := w.log + TokensBits(ts, BlockTokens(c, b[0] - lastDcVal, z));
    var temp := b[0] - lastDcVal;
    var nbits := BitLength(Abs(temp));
    ghost var first := DcToken(c.dcTbl, temp);
    TokensHead(ts, first, AcTokens(c.acTbl, z, 1));
    TokenTable(ts, c, dctbl, actbl, first);
    EmitToken(w, dctbl, nbits, if temp < 0 then temp - 1 else temp, nbits, ts, first);
    FirstToken(ts, first, c.acTbl, z, old(w.log), total);
    var r, k := 0, 1;
    while k < 64
      invariant w.Valid() && r < k <= 64
      invariant forall j :: k - r <= j < k ==> z[j] == 0
      invariant Remaining(ts, c.acTbl, z, k - r, w.log, total)
    {
      temp := b[o[k]];
      ZigzagAt(b, o, k);
      if temp == 0 {
        r := r + 1;
      } else {
        NextNonzeroIs(z, k - r, k);
        EmitNonzero(w, r, k, temp, dctbl, actbl, ts, c, z, total);
        r := 0;
      }
      k := k + 1;
    }
    AcTokensAre(c.acTbl, z, 64 - r);
    AcTokensAre(c.acTbl, z, 64);
    if r > 0 {
      ghost var eob := Token(false, c.acTbl, EOB, 0, 0);
      NextNonzeroIs(z, 64 - r, 64);
      SendOne(ts, c.acTbl, z, 64 - r, eob, 64, w.log, total);
      TokenTable(ts, c, dctbl, actbl, eob);
      EmitToken(w, actbl, EOB, 0, 0, ts, eob);
    }
    NothingLeft(ts, c.acTbl, z, w.log, total);
  }

  // ----- MCUs and restart intervals

  /** The finished segments hold the bits of all intervals but the last. */
  ghost predicate Delivered(ts: HuffTables, x: Sent, segments: seq<seq<byte>>)
    requires ScanSendable(ts, x)
  {
    && |segments| == |x.intervals| - 1
    && forall i :: 0 <= i < |segments| ==> Padded(TokensBits(ts, x.intervals[i]), BytesBits(segments[i]))
  }

  lemma DeliveredOneMore(ts: HuffTables, x: Sent, y: Sent, segments: seq<seq<byte>>, payload: seq<byte>)
    requires ScanSendable(ts, x) && ScanSendable(ts, y) && x.intervals != []
    requires y.intervals == x.intervals + [[]] && Delivered(ts, x, segments)
    requires Padded(TokensBits(ts, x.intervals[|x.intervals| - 1]), BytesBits(payload))
    ensures Delivered(ts, y, segments + [payload])
    ensures Spliced(segments + [payload]) == Spliced(segments) + Stuff(payload) + [0xFF, RST0 + |segments| % 8]
  {
    hide TokensBits, BytesBits, Padded, Sendable, Stuff;
    assert (segments + [payload])[..|segments|] == segments;
  }

  lemma DeliveredSame(ts: HuffTables, x: Sent, y: Sent, segments: seq<seq<byte>>)
    requires ScanSendable(ts, x) && ScanSendable(ts, y) && Delivered(ts, x, segments)
    requires |x.intervals| == |y.intervals| && forall i :: (0 <= i < |x.intervals| - 1
      ==> x.intervals[i] == y.intervals[i])
    ensures Delivered(ts, y, segments)
  {
    hide TokensBits, BytesBits, Padded, Sendable;
  }

  class Encoder {
    const w: Writer
    const scan: HuffScan
    const dcDerived: seq<CDerived>
    const acDerived: seq<CDerived>
    var lastDc: seq<int>
    var restartsToGo: nat
    var nextRestartNum: nat
    ghost const tables: HuffTables
    ghost var segments: seq<seq<byte>>
    ghost var sent: Sent
    ghost var mcuCount: nat

    ghost predicate Derived()
    {
      && GoodHuffScan(scan) && GoodTables(tables)
      && |dcDerived| == NUM_HUFF_TBLS && |acDerived| == NUM_HUFF_TBLS
      && forall i :: 0 <= i < NUM_HUFF_TBLS ==> (
        && CodeCount(tables.dc[i]) <= 256 && Encodes(tables.dc[i], dcDerived[i])
        && CodeCount(tables.ac[i]) <= 256 && Encodes(tables.ac[i], acDerived[i]))
    }

    /** MCUs left in the restart interval, and the number of the next marker. */
    ghost predicate Counting()
      reads this`restartsToGo, this`nextRestartNum, this`segments, this`mcuCount
    {
      && nextRestartNum == |segments| % 8
      && (scan.restartInterval > 0 ==> restartsToGo == ToGo(scan.restartInterval, mcuCount))
    }

    /** The output and the writer hold exactly the tokens sent. */
    ghost predicate Holding()
      reads this`lastDc, this`segments, this`sent, w
    {
      && w.Valid() && lastDc == sent.last && |sent.last| == |scan.components|
      && ScanSendable(tables, sent) && sent.intervals != []
      && Delivered(tables, sent, segments) && w.before == Spliced(segments)
      && w.log == TokensBits(tables, sent.intervals[|sent.intervals| - 1])
    }

    ghost predicate Valid()
      reads this, w
    {
      Derived() && Counting() && Holding()
    }

    constructor (s: HuffScan, dc: seq<CDerived>, ac: seq<CDerived>, ghost ts: HuffTables)
      requires GoodHuffScan(s) && GoodTables(ts) && |dc| == NUM_HUFF_TBLS && |ac| == NUM_HUFF_TBLS
      requires forall i :: 0 <= i < NUM_HUFF_TBLS ==> (
        && CodeCount(ts.dc[i]) <= 256 && Encodes(ts.dc[i], dc[i])
        && CodeCount(ts.ac[i]) <= 256 && Encodes(ts.ac[i], ac[i]))
      ensures Valid() && fresh(w) && scan == s && tables == ts
      ensures sent == ScanSent(s, []) && mcuCount == 0
    {
      w := new Writer();
      scan, dcDerived, acDerived, tables := s, dc, ac, ts;
      lastDc := seq(|s.components|, _ => 0);
      restartsToGo, nextRestartNum := s.restartInterval, 0;
      segments, sent, mcuCount := [], ScanSent(s, []), 0;
    }

    /** emit_restart: the data are flushed, the marker follows, and the DC values are
        forgotten. */
    method EmitRestart()
      requires Derived() && Holding() && nextRestartNum == |segments| % 8 && Restarts(scan, mcuCount)
      modifies w, this`lastDc, this`segments, this`sent
      ensures Derived() && Holding() && |segments| == |old(segments)| + 1
        && sent == Restarted(scan, old(sent), mcuCount)
    {
      hide w.Valid, TokensBits, BytesBits, Padded, Sendable, Delivered, Encodes, GoodTables, GoodHuffScan;
      ghost var x, y := sent, Restarted(scan, sent, mcuCount);
      w.FlushBits();
      ghost var payload := w.payload;
      FlushedOutput(w);
      w.EmitMarker(RST0 + nextRestartNum);
      lastDc := seq(|scan.components|, _ => 0);
      NewInterval(tables, x, y);
      DeliveredOneMore(tables, x, y, segments, payload);
      segments, sent := segments + [payload], y;
    }

    /** The blocks of an MCU. */
    method EncodeBlocks(mcu: seq<block>)
      requires Derived() && Holding() && |mcu| == |scan.membership|
      requires ScanSendable(tables, Extended(scan, sent, mcu))
      modifies this`lastDc, this`sent, w`putBuffer, w`putBits, w`out, w`payload, w`log
      ensures Derived() && Holding() && sent == Extended(scan, old(sent), mcu)
    {
      hide w.Valid, TokensBits, Padded, Sendable, Delivered, Encodes, GoodTables, GoodHuffScan, McuTokens, LastDc,
        BlockTokens;
      ghost var x, y := sent, Extended(scan, sent, mcu);
      ghost var k := |x.intervals| - 1;
      ghost var all := McuTokens(scan, x.last, mcu);
      CurrentSendable(tables, x, y, all);
      BeforeBlocks(scan, x.last, mcu, tables);
      for blkn := 0 to |mcu|
        invariant w.Valid() && lastDc == LastDc(scan, x.last, mcu[..blkn]) && w.before == old(w.before)
        invariant |lastDc| == |scan.components| && AllSendable(tables, McuTokens(scan, x.last, mcu[..blkn]))
        invariant w.log == old(w.log) + TokensBits(tables, McuTokens(scan, x.last, mcu[..blkn]))
      {
        MemberOf(scan, blkn);
        var ci := scan.membership[blkn];
        var c := scan.components[ci];
        BlockSendable(tables, scan, x.last, mcu, blkn);
        TablesForBlock(ci);
        EncodeOneBlock(w, mcu[blkn], lastDc[ci], scan.naturalOrder, dcDerived[c.dcTbl], acDerived[c.acTbl], tables, c);
        lastDc := lastDc[ci := mcu[blkn][0]];
      }
      assert mcu[..|mcu|] == mcu;
      SendableParts(tables, x.intervals[k], all);
      sent := y;
      DeliveredSame(tables, x, y, segments);
    }

    lemma TablesForBlock(ci: nat)
      requires Derived() && ci < |scan.components|
      ensures var c := scan.components[ci];
        c.dcTbl < |dcDerived| && c.acTbl < |acDerived| && BlockTables(tables, c, dcDerived[c.dcTbl], acDerived[c.acTbl])
    {
      hide Encodes, GoodTable;
    }

    /** Encode an MCU, after a restart marker if the interval is over. */
    method EncodeMcu(mcu: seq<block>)
      requires Valid() && |mcu| == |scan.membership|
      requires ScanSendable(tables, Extended(scan, Restarted(scan, sent, mcuCount), mcu))
      modifies this, w
      ensures Valid() && mcuCount == old(mcuCount) + 1
      ensures sent == Extended(scan, Restarted(scan, old(sent), old(mcuCount)), mcu)
    {
      hide Holding, Derived, ScanSendable, GoodHuffScan, ToGo, Extended, Restarts, Restarted;
      if scan.restartInterval > 0 {
        CountsDown(scan, mcuCount);
      }
      NoRestart(scan, sent, mcuCount);
      if scan.restartInterval > 0 && restartsToGo == 0 {
        EmitRestart();
      }
      EncodeBlocks(mcu);
      if scan.restartInterval > 0 {
        if restartsToGo == 0 {
          restartsToGo := scan.restartInterval;
          nextRestartNum := (nextRestartNum + 1) % 8;
        }
        restartsToGo := restartsToGo - 1;
      }
      mcuCount := mcuCount + 1;
    }

    /** finish_pass_huff: flush the last segment. */
    method FinishPass() returns (out: seq<byte>, ghost segs: seq<seq<byte>>)
      requires Valid()
      modifies w
      ensures |segs| == |sent.intervals| && ScanSendable(tables, sent)
      ensures forall i :: 0 <= i < |segs| ==> Padded(TokensBits(tables, sent.intervals[i]), BytesBits(segs[i]))
      ensures out == Spliced(segs[..|segs| - 1]) + Stuff(segs[|segs| - 1])
    {
      hide w.Valid, TokensBits, BytesBits, Padded, Sendable, Stuff, Encodes, GoodTables, GoodHuffScan;
      w.FlushBits();
      FlushedOutput(w);
      out, segs := w.out, segments + [w.payload];
      assert segs[..|segs| - 1] == segments;
    }
  }

  lemma CurrentSendable(ts: HuffTables, x: Sent, y: Sent, xs: seq<Token>)
    requires x.intervals != [] && y.intervals == (var k := |x.intervals| - 1; x.intervals[k := x.intervals[k] + xs])
    requires ScanSendable(ts, y)
    ensures AllSendable(ts, xs)
  {
    hide Sendable;
    var k := |x.intervals| - 1;
    assert AllSendable(ts, y.intervals[k]);
    SendableParts(ts, x.intervals[k], xs);
  }

  lemma BeforeBlocks(s: HuffScan, last: seq<int>, mcu: seq<block>, ts: HuffTables)
    requires GoodHuffScan(s) && |last| == |s.components| && |mcu| == |s.membership|
    ensures LastDc(s, last, mcu[..0]) == last && McuTokens(s, last, mcu[..0]) == [] && TokensBits(ts, []) == []
  {
  }

  /** The tokens of the next block of an MCU can be sent. */
  lemma BlockSendable(ts: HuffTables, s: HuffScan, last: seq<int>, mcu: seq<block>, n: nat)
    requires GoodHuffScan(s) && |last| == |s.components| && n < |mcu| == |s.membership|
    requires AllSendable(ts, McuTokens(s, last, mcu))
    ensures var before, now := LastDc(s, last, mcu[..n]), LastDc(s, last, mcu[..n + 1]);
      var own := NthBlockTokens(s, before, n, mcu[n]);
      && now == before[s.membership[n] := mcu[n][0]]
      && AllSendable(ts, own) && AllSendable(ts, McuTokens(s, last, mcu[..n]))
      && AllSendable(ts, McuTokens(s, last, mcu[..n + 1]))
      && TokensBits(ts, McuTokens(s, last, mcu[..n + 1])) == TokensBits(ts,
        McuTokens(s, last, mcu[..n])) + TokensBits(ts, own)
  {
    hide Sendable, TokensBits, NthBlockTokens;
    McuTokensPrefix(s, last, mcu, n + 1);
    assert mcu[..n + 1][..n] == mcu[..n];
    var own := NthBlockTokens(s, LastDc(s, last, mcu[..n]), n, mcu[n]);
    SendablePrefix(ts, McuTokens(s, last, mcu[..n + 1]), McuTokens(s, last, mcu));
    SendableParts(ts, McuTokens(s, last, mcu[..n]), own);
  }

  lemma FlushedOutput(w: Writer)
    requires w.Valid() && w.putBits == 0
    ensures w.out == w.before + Stuff(w.payload)
  {
  }

  lemma NewInterval(ts: HuffTables, x: Sent, y: Sent)
    requires ScanSendable(ts, x) && y.intervals == x.intervals + [[]]
    ensures ScanSendable(ts, y) && TokensBits(ts, []) == []
  {
    hide Sendable;
  }
}
