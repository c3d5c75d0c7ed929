/** The progressive Huffman decoder between blocks: runs of ends of blocks, DC values. */
module ProgressiveMcuDecoder {
  import opened Bytes
  import opened BitStrings
  import opened BitReader
  import opened HuffmanTables
  import opened CoefficientModel
  import opened ScanSetup
  import opened HuffmanModel
  import opened ProgressiveModel
  import opened ProgressiveDecoder
  import H = HuffmanDecoder

  /** What the reader has before it when n blocks are decoded and m more belong to the
      current run: their correction bits, then the rest of the scan. */
  ghost predicate ScanAhead(ts: seq<table>, tbl: nat, cs: seq<CodedBlock>, n: nat, m: nat, stream: seq<bool>,
      taken: nat)
  {
    && n + m <= |cs| && AllEnd(cs, n, m)
    && PiecesAhead(ts, [Raw(Tails(cs, n, m))] + Rest(tbl, cs, n + m, NONE), stream, taken)
  }

  lemma EmptyRaw(ts: seq<table>, xs: seq<Piece>, stream: seq<bool>, taken: nat)
    ensures PiecesAhead(ts, [Raw([])] + xs, stream, taken) <==> PiecesAhead(ts, xs, stream, taken)
  {
    hide PiecesBits;
    OnePiece(ts, Raw([]));
    CodedParts(ts, [Raw([])], xs);
    if AllCoded(ts, xs) {
      PiecesConcat(ts, [Raw([])], xs);
      assert [] + PiecesBits(ts, xs) == PiecesBits(ts, xs);
    }
  }

  /** Outside a run, the codes of the next block and then its end. */
  lemma OutsideRun(ts: seq<table>, tbl: nat, cs: seq<CodedBlock>, n: nat, stream: seq<bool>, taken: nat)
    requires GoodBlocks(cs) && n < |cs| && ScanAhead(ts, tbl, cs, n, 0, stream, taken)
    ensures PiecesAhead(ts, cs[n].body + AfterCodes(tbl, cs, n), stream, taken)
    ensures 1 + RunAfter(cs, n) <= 0x7FFF && AllEnd(cs, n + 1, RunAfter(cs, n))
  {
    hide PiecesAhead, GoodBlocks, Rest;
    EmptyRaw(ts, Rest(tbl, cs, n, NONE), stream, taken);
    BlockSplits(tbl, cs, n);
  }

  /** After the codes of a block that does not end early, the next block follows. */
  lemma NextBlock(ts: seq<table>, tbl: nat, cs: seq<CodedBlock>, n: nat, stream: seq<bool>, taken: nat)
    requires n < |cs| && !cs[n].eob && PiecesAhead(ts, AfterCodes(tbl, cs, n), stream, taken)
    ensures ScanAhead(ts, tbl, cs, n + 1, 0, stream, taken)
  {
    hide PiecesAhead, Rest;
    EmptyRaw(ts, Rest(tbl, cs, n + 1, NONE), stream, taken);
  }

  /** The end of a block as the block decoders expect it. */
  lemma EndAsClosing(tbl: nat, cs: seq<CodedBlock>, n: nat)
    requires n < |cs|
    ensures var c, g := cs[n], RunAfter(cs, n);
      var rest := if c.eob then Rest(tbl, cs, n + 1 + g, NONE) else Rest(tbl, cs, n + 1, NONE);
      var more := if c.eob then [Raw(c.tail + Tails(cs, n + 1, g))] + rest else rest;
      AfterCodes(tbl, cs, n) == Closing(tbl, c.eob, 1 + g, more)
  {
    hide Rest, Tails, Bits, BitLength;
    var c, g := cs[n], RunAfter(cs, n);
    if c.eob {
      var p := Pending(1 + g, c.tail + Tails(cs, n + 1, g));
      RunThree(tbl, p, Rest(tbl, cs, n + 1 + g, NONE));
    }
  }

  lemma RunThree(tbl: nat, p: Pending, rest: seq<Piece>)
    requires p.run > 0
    ensures RunPieces(tbl, p) + rest == Closing(tbl, true, p.run, [Raw(p.bits)] + rest)
  {
    hide Bits;
  }

  class Decoder {
    const r: Reader
    const scan: Scan
    const derived: seq<DDerived>
    var lastDc: seq<int>
    var eobRun: nat
    ghost const tables: seq<table>
    ghost const codes: seq<CodedBlock>  // those of the whole scan
    ghost var progress: Progress

    ghost predicate Fixed()
    {
      && DerivedTables(tables, derived) && GoodProgressive(scan) && GoodOrder(scan.naturalOrder)
      && (ModeOf(scan) == DcFirst ==> forall i :: 0 <= i < |tables| ==> GoodTable(tables[i], true))
    }

    ghost predicate Valid()
      reads this`lastDc, r
    {
      r.Valid() && Fixed() && |lastDc| == |scan.components|
    }

    /** The reader has taken exactly what the blocks decoded so far amount to. */
    ghost predicate InStep()
      reads this`lastDc, this`eobRun, this`progress, r
    {
      && GoodBlocks(codes) && progress.codes <= codes && lastDc == progress.last && !r.insufficientData
      && ScanAhead(tables, RunTable(scan), codes, |progress.codes|, eobRun, r.stream, r.taken)
    }

    constructor (input: seq<byte>, s: Scan, ds: seq<DDerived>, ghost ts: seq<table>, ghost all: seq<CodedBlock>)
      requires MarkerAhead(input) && DerivedTables(ts, ds) && GoodProgressive(s) && GoodOrder(s.naturalOrder)
      requires ModeOf(s) == DcFirst ==> forall i :: 0 <= i < |ts| ==> GoodTable(ts[i], true)
      ensures Valid() && fresh(r) && scan == s && tables == ts && codes == all && progress == NoProgress(s)
      ensures r.ending == MarkerOf(input)
      ensures GoodBlocks(all) && PiecesAhead(ts, Rest(RunTable(s), all, 0, NONE), BytesBits(Segment(input)), 0)
        ==> InStep()
    {
      hide PiecesAhead, DerivedTables, GoodOrder, GoodTable, MarkerAhead, MarkerOf, Segment, BytesBits, Rest;
      r := new Reader(input);
      scan, derived, tables, codes := s, ds, ts, all;
      lastDc := seq(|s.components|, _ => 0);
      eobRun, progress := 0, NoProgress(s);
      new;
      EmptyRaw(ts, Rest(RunTable(s), all, 0, NONE), BytesBits(Segment(input)), 0);
    }

    /** The decoder behind a restart marker: a reader that has gone on, and nothing else. */
    constructor Restarted(reader: Reader, s: Scan, ds: seq<DDerived>, ghost ts: seq<table>, ghost all: seq<CodedBlock>)
      requires reader.Valid() && DerivedTables(ts, ds) && GoodProgressive(s) && GoodOrder(s.naturalOrder)
      requires ModeOf(s) == DcFirst ==> forall i :: 0 <= i < |ts| ==> GoodTable(ts[i], true)
      ensures Valid() && r == reader && scan == s && tables == ts && codes == all && progress == NoProgress(s)
      ensures (GoodBlocks(all) && reader.taken == 0 && !reader.insufficientData
        && PiecesAhead(ts, Rest(RunTable(s), all, 0, NONE), reader.stream, 0)) ==> InStep()
    {
      hide PiecesAhead, DerivedTables, GoodOrder, GoodTable, Rest, Reader.Valid;
      r := reader;
      scan, derived, tables, codes := s, ds, ts, all;
      lastDc := seq(|s.components|, _ => 0);
      eobRun, progress := 0, NoProgress(s);
      new;
      EmptyRaw(ts, Rest(RunTable(s), all, 0, NONE), reader.stream, 0);
    }

    /** The next block to decode is b. */
    ghost predicate BlockComes(x: Progress, ci: nat, prior: block, b: block)
      requires GoodScan(scan) && ci < |scan.components| && |x.last| == |scan.components|
    {
      && AddBlock(scan, x, ci, b).codes <= codes && AddBlock(scan, x, ci, b).inRange && SmallBlock(b)
      && ReadyFor(scan, Zigzag(prior, scan.naturalOrder), b)
    }

    lemma ComesAt(x: Progress, ci: nat, prior: block, b: block)
      requires GoodScan(scan) && ci < |scan.components| && |x.last| == |scan.components| && BlockComes(x, ci, prior, b)
        && GoodBlocks(codes)
      ensures |x.codes| < |codes| && codes[|x.codes|] == BlockCodes(scan, scan.components[ci], x.last[ci], b)
      ensures GoodBlock(codes[|x.codes|]) && x.inRange && BlockInRange(scan, x.last[ci], b)
    {
      hide BlockCodes, BlockInRange, GoodBlock;
      var n := |x.codes|;
      assert AddBlock(scan, x, ci, b).codes[n] == codes[n];
    }

    /** The reader is right before block b of component ci. */
    ghost predicate Before(ci: nat, prior: block, b: block)
      requires GoodScan(scan) && ci < |scan.components| && |progress.last| == |scan.components|
      reads this`lastDc, this`eobRun, this`progress, r
    {
      InStep() && BlockComes(progress, ci, prior, b)
    }

    /** And right after it. */
    ghost predicate Behind(ci: nat, prior: block, b: block, out: block)
      requires GoodScan(scan) && ci < |scan.components| && |progress.last| == |scan.components|
      reads this`lastDc, this`eobRun, this`progress, r
    {
      && Zigzag(out, scan.naturalOrder) == Received(scan, Zigzag(prior, scan.naturalOrder), b)
      && lastDc == AddBlock(scan, progress, ci, b).last && !r.insufficientData
      && ScanAhead(tables, RunTable(scan), codes, |progress.codes| + 1, eobRun, r.stream, r.taken)
    }

    method DecodeDcFirst(ci: nat, prior: block, ghost b: block) returns (out: block)
      requires Valid() && ModeOf(scan) == DcFirst && ci < |scan.components| && |progress.last| == |scan.components|
      modifies this`lastDc, r`pos, r`unreadMarker, r`getBuffer, r`bitsLeft, r`insufficientData, r`taken
      ensures Valid()
      ensures old(Before(ci, prior, b)) ==> Behind(ci, prior, b, out)
    {
      hide r.Valid, PiecesAhead, Zigzag, Magnitude, ExtraBits, Bits, Pow2, Extend, Jcoef, GoodTable, NoRepeats, Rest,
        ReadyFor, SmallBlock, GoodBlocks,
        BlockCodes, AddBlock, BlockInRange, DerivedTables, DcValue;
      var tbl := scan.components[ci].dcTbl;
      ghost var n := |progress.codes|;
      ghost var f := Before(ci, prior, b);
      ghost var diff, xs, symbol, after := 0, [], Symbol(tbl, 0), [];
      if f {
        ComesAt(progress, ci, prior, b);
        DcFirstCodes(ci, progress.last[ci], b);
        NotInRun(codes, n, eobRun);
        OutsideRun(tables, RunTable(scan), codes, n, r.stream, r.taken);
        diff := DcValue(scan, b) - progress.last[ci];
        xs := AfterCodes(RunTable(scan), codes, n);
        symbol, after := Symbol(tbl, Magnitude(diff)), [Raw(Bits(ExtraBits(diff), Magnitude(diff)))] + xs;
        assert codes[n].body + xs == [symbol] + after;
      }
      DcTableIsGood(ci);
      var s := GetSymbol(r, derived, tbl, tables, symbol, after);
      var d := 0;
      if f {
        ExtraBound(diff);
        H.DcDifference(diff);
      }
      if s != 0 {
        var raw := GetRaw(r, s, tables, ExtraBits(diff), xs);
        d := Extend(raw, s);
      } else if f {
        EmptyRawBits(tables, diff, xs, r.stream, r.taken);
      }
      var value := d + lastDc[ci];
      lastDc := lastDc[ci := value];
      out := prior[0 := Jcoef(value * Pow2(scan.Al))];
      if f {
        DcFirstReceived(ci, progress, prior, b, out, value);
        NextBlock(tables, RunTable(scan), codes, n, r.stream, r.taken);
      }
    }

    lemma DcTableIsGood(ci: nat)
      requires Fixed() && ModeOf(scan) == DcFirst && ci < |scan.components|
      ensures scan.components[ci].dcTbl < |tables| && GoodTable(tables[scan.components[ci].dcTbl], true)
    {
      hide GoodTable;
    }

    /** Blocks of DC scans are not in runs. */
    lemma NotInRun(cs: seq<CodedBlock>, n: nat, m: nat)
      requires n < |cs| && n + m <= |cs| && AllEnd(cs, n, m) && cs[n].body != []
      ensures m == 0
    {
    }

    lemma DcFirstCodes(ci: nat, last: int, b: block)
      requires Fixed() && ModeOf(scan) == DcFirst && ci < |scan.components| && BlockInRange(scan, last, b)
      ensures var diff := DcValue(scan, b) - last;
        && BlockCodes(scan, scan.components[ci], last, b)
          == CodedBlock([Symbol(scan.components[ci].dcTbl, Magnitude(diff)),
            Raw(Bits(ExtraBits(diff), Magnitude(diff)))], false, [])
        && Magnitude(diff) <= 15
    {
      hide Magnitude, ExtraBits, Bits, DcValue;
    }

    lemma DcFirstReceived(ci: nat, x: Progress, prior: block, b: block, out: block, value: int)
      requires Fixed() && ModeOf(scan) == DcFirst && ci < |scan.components| && |x.last| == |scan.components|
      requires value == DcValue(scan, b) && out == prior[0 := Jcoef(value * Pow2(scan.Al))]
      ensures Zigzag(out, scan.naturalOrder) == Received(scan, Zigzag(prior, scan.naturalOrder), b)
      ensures AddBlock(scan, x, ci, b).last == x.last[ci := value]
    {
      hide Jcoef, Pow2, Zigzag;
      ZigzagUpdate(prior, scan.naturalOrder, 0, out[0]);
    }

    method DecodeDcRefine(ci: nat, prior: block, ghost b: block) returns (out: block)
      requires Valid() && ModeOf(scan) == DcRefine && ci < |scan.components| && |progress.last| == |scan.components|
      modifies r`pos, r`unreadMarker, r`getBuffer, r`bitsLeft, r`insufficientData, r`taken
      ensures Valid()
      ensures old(Before(ci, prior, b)) ==> Behind(ci, prior, b, out)
    {
      hide r.Valid, PiecesAhead, Zigzag, Bits, Pow2, NoRepeats, Rest, ReadyFor, SmallBlock, GoodBlocks, BlockCodes,
        AddBlock, BlockInRange,
        DerivedTables, DcValue, WithBit;
      ghost var n := |progress.codes|;
      ghost var f := Before(ci, prior, b);
      ghost var sent, xs := false, [];
      if f {
        ComesAt(progress, ci, prior, b);
        DcRefineCodes(ci, progress.last[ci], b);
        NotInRun(codes, n, eobRun);
        OutsideRun(tables, RunTable(scan), codes, n, r.stream, r.taken);
        sent := DcValue(scan, b) % 2 == 1;
        OneBitOf(sent);
        xs := AfterCodes(RunTable(scan), codes, n);
      }
      var bit := GetRaw(r, 1, tables, if sent then 1 else 0, xs);
      out := prior;
      if bit == 1 {
        out := prior[0 := WithBit(prior[0], Pow2(scan.Al))];
      }
      if f {
        DcRefineReceived(ci, progress, prior, b, out);
        NextBlock(tables, RunTable(scan), codes, n, r.stream, r.taken);
      }
    }

    lemma DcRefineCodes(ci: nat, last: int, b: block)
      requires Fixed() && ModeOf(scan) == DcRefine && ci < |scan.components|
      ensures BlockCodes(scan, scan.components[ci], last, b) == CodedBlock([Raw([DcValue(scan, b) % 2 == 1])], false,
        [])
    {
      hide DcValue;
    }

    lemma DcRefineReceived(ci: nat, x: Progress, prior: block, b: block, out: block)
      requires Fixed() && ModeOf(scan) == DcRefine && ci < |scan.components| && |x.last| == |scan.components|
      requires out == if DcValue(scan, b) % 2 == 1 then prior[0 := WithBit(prior[0], Pow2(scan.Al))] else prior
      ensures Zigzag(out, scan.naturalOrder) == Received(scan, Zigzag(prior, scan.naturalOrder), b)
      ensures AddBlock(scan, x, ci, b).last == x.last
    {
      hide Pow2, DcValue, WithBit;
      var z := Zigzag(prior, scan.naturalOrder);
      hide Zigzag;
      ZigzagAt(prior, scan.naturalOrder, 0);
      ZigzagUpdate(prior, scan.naturalOrder, 0, WithBit(prior[0], Pow2(scan.Al)));
      assert z[0 := z[0]] == z;
    }

    method DecodeAcFirst(ci: nat, prior: block, ghost b: block) returns (out: block)
      requires Valid() && ModeOf(scan) == AcFirst && ci < |scan.components| && |progress.last| == |scan.components|
      modifies this`eobRun, r`pos, r`unreadMarker, r`getBuffer, r`bitsLeft, r`insufficientData, r`taken
      ensures Valid()
      ensures old(Before(ci, prior, b)) ==> Behind(ci, prior, b, out)
    {
      hide r.Valid, PiecesAhead, Zigzag, Rest, ReadyFor, SmallBlock, GoodBlocks, BlockCodes, AddBlock, BlockInRange,
        DerivedTables,
        FirstCodes, Transform, Placed, BandInRange, Received, Tails, FirstAhead, Closing, GoodOrder, GoodTable,
        RunAfter, GoodBlock;
      out := prior;
      ghost var n, tbl := |progress.codes|, RunTable(scan);
      ghost var f := Before(ci, prior, b);
      ghost var w, z0, g, rest, more := seq(64, _ => 0), Zigzag(prior, scan.naturalOrder), 0, [], [];
      OneComponent(ci);
      if f {
        ComesAt(progress, ci, prior, b);
        w := Transform(Zigzag(b, scan.naturalOrder), scan.Al);
        AcFirstCodes(ci, progress, b);
        if eobRun > 0 {
          TailsFirst(codes, n, eobRun);
          NoTail(codes, n, eobRun);
          EmptyFirst(ci, z0, b);
        } else {
          OutsideRun(tables, tbl, codes, n, r.stream, r.taken);
          EndAsClosing(tbl, codes, n);
          g := RunAfter(codes, n);
          rest := if codes[n].eob then Rest(tbl, codes, n + 1 + g, NONE) else Rest(tbl, codes, n + 1, NONE);
          more := if codes[n].eob then [Raw(codes[n].tail + Tails(codes, n + 1, g))] + rest else rest;
          FirstComes(tables, tbl, w, scan.Ss, scan.Se, 1 + g, more, r.stream, r.taken);
        }
      }
      if !r.insufficientData {
        if eobRun > 0 {
          eobRun := eobRun - 1;
        } else {
          var tableNumber := scan.components[ci].acTbl;
          out, eobRun := GetAcFirst(r, prior, scan.naturalOrder, derived, tableNumber, scan.Ss, scan.Se, scan.Al,
            tables, w, z0, 1 + g, more);
          if f {
            AcFirstReceived(ci, z0, b);
            EmptyRaw(tables, Rest(tbl, codes, n + 1, NONE), r.stream, r.taken);
            NoneEnd(codes, n + 1);
            assert [] + Tails(codes, n + 1, g) == Tails(codes, n + 1, g);
          }
        }
      }
    }

    lemma OneComponent(ci: nat)
      requires Fixed() && (ModeOf(scan) == AcFirst || ModeOf(scan) == AcRefine) && ci < |scan.components|
      ensures ci == 0 && scan.components[ci].acTbl == RunTable(scan) < NUM_HUFF_TBLS && 1 <= scan.Ss <= scan.Se < 64
    {
    }

    lemma AcFirstCodes(ci: nat, x: Progress, b: block)
      requires Fixed() && ModeOf(scan) == AcFirst && ci < |scan.components| && |x.last| == |scan.components|
      requires BlockInRange(scan, x.last[ci], b)
      ensures var w := Transform(Zigzag(b, scan.naturalOrder), scan.Al);
        && BlockCodes(scan, scan.components[ci], x.last[ci], b) == FirstCodes(scan.components[ci].acTbl, w, scan.Ss,
          scan.Se, 0)
        && BlockCodes(scan, scan.components[ci], x.last[ci], b).tail == []
        && BandInRange(w, scan.Ss, scan.Se + 1) && AddBlock(scan, x, ci, b).last == x.last
    {
      hide FirstCodes, Transform, Zigzag, BandInRange;
      BlockIsGood(scan, scan.components[ci], x.last[ci], b);
    }

    lemma NoTail(cs: seq<CodedBlock>, n: nat, m: nat)
      requires 0 < m && n + m <= |cs| && AllEnd(cs, n, m) && cs[n].tail == []
      ensures Tails(cs, n, m) == Tails(cs, n + 1, m - 1)
    {
      assert [] + Tails(cs, n + 1, m - 1) == Tails(cs, n + 1, m - 1);
    }

    lemma NoneEnd(cs: seq<CodedBlock>, n: nat)
      requires n <= |cs|
      ensures AllEnd(cs, n, 0) && Tails(cs, n, 0) == []
    {
    }

    lemma EmptyFirst(ci: nat, z0: zigzag, b: block)
      requires Fixed() && ModeOf(scan) == AcFirst && ci < |scan.components|
      requires FirstCodes(scan.components[ci].acTbl, Transform(Zigzag(b, scan.naturalOrder), scan.Al), scan.Ss,
        scan.Se, 0).body == []
      ensures Received(scan, z0, b) == z0
    {
      hide Transform, Zigzag, FirstCodes, Placed;
      var w := Transform(Zigzag(b, scan.naturalOrder), scan.Al);
      FirstTail(scan.components[ci].acTbl, w, scan.Ss, scan.Se, 0);
      PlacedNothing(z0, w, scan.Ss, scan.Al);
      PlacedZeros(z0, w, scan.Ss, scan.Ss, scan.Se + 1, scan.Al);
    }

    lemma AcFirstReceived(ci: nat, z0: zigzag, b: block)
      requires Fixed() && ModeOf(scan) == AcFirst
      ensures scan.Ss <= scan.Se < 64
      ensures Received(scan, z0, b) == Placed(z0, Transform(Zigzag(b, scan.naturalOrder), scan.Al), scan.Ss,
        scan.Se + 1, scan.Al)
    {
      hide Transform, Zigzag, Placed;
    }

    lemma FirstComes(ts: seq<table>, tbl: nat, w: zigzag, ss: nat, se: nat, run: nat, more: seq<Piece>,
        stream: seq<bool>, taken: nat)
      requires se < 64 && 0 < run <= 0x7FFF
      requires var c := FirstCodes(tbl, w, ss, se, 0);
        PiecesAhead(ts, c.body + Closing(tbl, c.eob, run, more), stream, taken)
      ensures FirstAhead(ts, tbl, w, ss, se, run, more, stream, taken)
    {
    }

    method DecodeAcRefine(ci: nat, prior: block, ghost b: block) returns (out: block)
      requires Valid() && ModeOf(scan) == AcRefine && ci < |scan.components| && |progress.last| == |scan.components|
      modifies this`eobRun, r`pos, r`unreadMarker, r`getBuffer, r`bitsLeft, r`insufficientData, r`taken
      ensures Valid()
      ensures old(Before(ci, prior, b)) ==> Behind(ci, prior, b, out)
    {
      hide r.Valid, PiecesAhead, Zigzag, Rest, ReadyFor, SmallBlock, GoodBlocks, BlockCodes, AddBlock, BlockInRange,
        DerivedTables,
        RefineCodes, FromCode, LastNew, Received, Tails, RefineAhead, Closing, RefinedTo, Corrections, NoneNew,
        GoodOrder, GoodTable, RunAfter, GoodBlock;
      out := prior;
      ghost var n, tbl, eob := |progress.codes|, RunTable(scan), 0;
      ghost var f := Before(ci, prior, b);
      ghost var c, z0, g, rest := seq(64, _ => 0), Zigzag(prior, scan.naturalOrder), 0, [];
      ghost var tails: seq<bool> := [];
      OneComponent(ci);
      if f {
        ComesAt(progress, ci, prior, b);
        c := Zigzag(b, scan.naturalOrder);
        eob := LastNew(c, scan.Al, scan.Ss, scan.Se);
        AcRefineCodes(ci, progress, b);
        RefinementStarts(prior, b);
        if eobRun > 0 {
          TailsFirst(codes, n, eobRun);
          tails := Tails(codes, n + 1, eobRun - 1);
          rest := Rest(tbl, codes, n + eobRun, NONE);
        } else {
          OutsideRun(tables, tbl, codes, n, r.stream, r.taken);
          EndAsClosing(tbl, codes, n);
          g := RunAfter(codes, n);
          tails := Tails(codes, n + 1, g);
          rest := if codes[n].eob then Rest(tbl, codes, n + 1 + g, NONE) else Rest(tbl, codes, n + 1, NONE);
          RefineComes(tables, tbl, c, scan.Al, scan.Ss, scan.Se, eob, 1 + g,
            if codes[n].eob then [Raw(codes[n].tail + tails)] + rest else rest, r.stream, r.taken);
        }
      }
      if !r.insufficientData {
        if eobRun > 0 {
          out := CorrectRest(r, prior, scan.naturalOrder, scan.Ss, scan.Se, scan.Al, tables, c, z0, scan.Ss, tails,
            rest);
          eobRun := eobRun - 1;
        } else {
          var tableNumber := scan.components[ci].acTbl;
          out, eobRun := GetAcRefine(r, prior, scan.naturalOrder, derived, tableNumber, scan.Ss, scan.Se, scan.Al,
            tables, c, z0, 1 + g, tails, rest);
          if f {
            EmptyRaw(tables, Rest(tbl, codes, n + 1, NONE), r.stream, r.taken);
            NoneEnd(codes, n + 1);
          }
        }
        if f {
          RefinementDone(prior, b, out);
        }
      }
    }

    lemma AcRefineCodes(ci: nat, x: Progress, b: block)
      requires Fixed() && ModeOf(scan) == AcRefine && ci < |scan.components| && |x.last| == |scan.components|
      ensures 1 <= scan.Ss <= scan.Se < 64
      ensures var c := Zigzag(b, scan.naturalOrder);
        var tbl, eob := scan.components[ci].acTbl, LastNew(c, scan.Al, scan.Ss, scan.Se);
        var code := FromCode(tbl, c, scan.Al, scan.Ss, scan.Se, eob);
        && BlockCodes(scan, scan.components[ci], x.last[ci], b) == code && AddBlock(scan, x, ci, b).last == x.last
        && (code.body == [] ==> (NoneNew(c, scan.Al, scan.Ss, scan.Se + 1)
          && code.tail == Corrections(c, scan.Al, scan.Ss, scan.Se + 1)))
    {
      hide Zigzag, RefineCodes, LastNew, Corrections, NoneNew;
      RefineWithoutCodes(scan.components[ci].acTbl, Zigzag(b, scan.naturalOrder), scan.Al, scan.Ss, scan.Se);
    }

    lemma RefinementStarts(prior: block, b: block)
      requires Fixed() && ModeOf(scan) == AcRefine && SmallBlock(b)
        && ReadyFor(scan, Zigzag(prior, scan.naturalOrder), b)
      ensures 1 <= scan.Ss <= scan.Se < 64
      ensures RefinedTo(prior, scan.naturalOrder, Zigzag(prior, scan.naturalOrder), Zigzag(b, scan.naturalOrder),
        scan.Ss, scan.Ss, scan.Se, scan.Al)
    {
      RefinedNothing(Zigzag(prior, scan.naturalOrder), Zigzag(b, scan.naturalOrder), scan.Ss, scan.Al);
    }

    lemma RefinementDone(prior: block, b: block, out: block)
      requires Fixed() && ModeOf(scan) == AcRefine && 1 <= scan.Ss <= scan.Se < 64
      requires var z0, c := Zigzag(prior, scan.naturalOrder), Zigzag(b, scan.naturalOrder);
        RefinedTo(out, scan.naturalOrder, z0, c, scan.Ss, scan.Se + 1, scan.Se, scan.Al)
      ensures Zigzag(out, scan.naturalOrder) == Received(scan, Zigzag(prior, scan.naturalOrder), b)
    {
      hide Zigzag, Refined;
    }

    lemma RefineComes(ts: seq<table>, tbl: nat, c: zigzag, al: nat, ss: nat, se: nat, eob: nat, run: nat,
        more: seq<Piece>, stream: seq<bool>, taken: nat)
      requires se < 64 && 0 < run <= 0x7FFF
      requires var x := FromCode(tbl, c, al, ss, se, eob);
        PiecesAhead(ts, x.body + Closing(tbl, x.eob, run, more), stream, taken)
      ensures RefineAhead(ts, tbl, c, al, ss, se, eob, run, more, stream, taken)
    {
    }

    // ----- blocks and MCUs

    method DecodeBlock(ci: nat, prior: block, ghost b: block) returns (out: block)
      requires Valid() && ci < |scan.components| && |progress.last| == |scan.components|
      modifies this`lastDc, this`eobRun, this`progress,
        r`pos, r`unreadMarker, r`getBuffer, r`bitsLeft, r`insufficientData, r`taken
      ensures Valid() && |progress.last| == |scan.components|
      ensures old(Before(ci, prior, b)) ==> (
        && InStep() && progress == AddBlock(scan, old(progress), ci, b)
        && Zigzag(out, scan.naturalOrder) == Received(scan, Zigzag(prior, scan.naturalOrder), b))
    {
      hide r.Valid, DerivedTables, GoodBlocks, ScanAhead, AddBlock, Received, Zigzag, ReadyFor, SmallBlock, GoodTable,
        NoRepeats;
      ghost var f := Before(ci, prior, b);
      ghost var x := progress;
      match ModeOf(scan) {
        case DcFirst =>
          out := DecodeDcFirst(ci, prior, b);
        case DcRefine =>
          out := DecodeDcRefine(ci, prior, b);
        case AcFirst =>
          out := DecodeAcFirst(ci, prior, b);
        case AcRefine =>
          out := DecodeAcRefine(ci, prior, b);
        case Sequential =>
          assert false;
      }
      if f {
        OneMoreCode(x, ci, b);
        progress := AddBlock(scan, x, ci, b);
      }
    }

    lemma OneMoreCode(x: Progress, ci: nat, b: block)
      requires GoodScan(scan) && ci < |scan.components| && |x.last| == |scan.components|
      ensures |AddBlock(scan, x, ci, b).codes| == |x.codes| + 1
    {
      hide BlockCodes, BlockInRange;
    }

    /** The blocks of this MCU come next. */
    ghost predicate McuComes(x: Progress, priors: seq<block>, mcu: seq<block>)
      requires GoodScan(scan) && |x.last| == |scan.components| && |mcu| == |scan.membership| == |priors|
    {
      && AddMcu(scan, x, mcu).codes <= codes && AddMcu(scan, x, mcu).inRange
      && (forall i :: 0 <= i < |mcu| ==> (SmallBlock(mcu[i])
        && ReadyFor(scan, Zigzag(priors[i], scan.naturalOrder), mcu[i])))
    }

    lemma InStepHasData()
      requires Valid() && |progress.last| == |scan.components|
      ensures InStep() ==> !r.insufficientData
    {
    }

    /** decode_mcu. */
    method DecodeMcu(priors: seq<block>, ghost mcu: seq<block>) returns (out: seq<block>)
      requires Valid() && |priors| == |mcu| == |scan.membership| && |progress.last| == |scan.components|
      modifies this`lastDc, this`eobRun, this`progress,
        r`pos, r`unreadMarker, r`getBuffer, r`bitsLeft, r`insufficientData, r`taken
      ensures Valid() && |out| == |priors| && |progress.last| == |scan.components|
      ensures old(InStep()) && McuComes(old(progress), priors, mcu) ==> (
        && InStep() && progress == AddMcu(scan, old(progress), mcu)
        && forall i :: 0 <= i < |mcu| ==>
          Zigzag(out[i], scan.naturalOrder) == Received(scan, Zigzag(priors[i], scan.naturalOrder), mcu[i]))
    {
      hide Valid, InStep, AddBlock, SmallBlock, ReadyFor, Received, Zigzag, BlockInRange;
      ghost var x := progress;
      ValidScan();
      ghost var f := InStep() && McuComes(x, priors, mcu);
      if ModeOf(scan) == DcFirst && r.insufficientData {  // the rest of the segment is left as it is
        InStepHasData();
        return priors;
      }
      out := [];
      assert mcu[..0] == [];
      for blkn := 0 to |priors|
        invariant Valid() && |out| == blkn && |progress.last| == |scan.components|
        invariant f ==> InStep() && progress == AddMcu(scan, x, mcu[..blkn])
        invariant f ==> forall i :: 0 <= i < blkn ==>
          Zigzag(out[i], scan.naturalOrder) == Received(scan, Zigzag(priors[i], scan.naturalOrder), mcu[i])
      {
        if f {
          McuPrefix(x, priors, mcu, blkn);
        }
        var b := DecodeBlock(scan.membership[blkn], priors[blkn], mcu[blkn]);
        out := out + [b];
      }
      assert mcu[..|mcu|] == mcu;
    }

    lemma ValidScan()
      requires Valid()
      ensures GoodScan(scan)
    {
    }

    lemma {:induction false} StagesOfMcu(x: Progress, mcu: seq<block>, n: nat)
      requires GoodScan(scan) && |x.last| == |scan.components| && n <= |mcu| <= |scan.membership|
      ensures AddMcu(scan, x, mcu[..n]).codes <= AddMcu(scan, x, mcu).codes
      ensures AddMcu(scan, x, mcu).inRange ==> AddMcu(scan, x, mcu[..n]).inRange
      decreases |mcu|
    {
      hide BlockCodes, BlockInRange;
      if n == |mcu| {
        assert mcu[..n] == mcu;
      } else {
        var k := |mcu| - 1;
        StagesOfMcu(x, mcu[..k], n);
        assert mcu[..k][..n] == mcu[..n];
      }
    }

    lemma McuPrefix(x: Progress, priors: seq<block>, mcu: seq<block>, n: nat)
      requires GoodScan(scan) && |x.last| == |scan.components| && n < |mcu| == |scan.membership| == |priors|
        && McuComes(x, priors, mcu)
      ensures AddMcu(scan, x, mcu[..n + 1]) == AddBlock(scan, AddMcu(scan, x, mcu[..n]), scan.membership[n], mcu[n])
      ensures BlockComes(AddMcu(scan, x, mcu[..n]), scan.membership[n], priors[n], mcu[n])
    {
      hide AddBlock, SmallBlock, ReadyFor;
      StagesOfMcu(x, mcu, n + 1);
      assert mcu[..n + 1][..n] == mcu[..n];
    }
  }

  /** No difference, no extra bits. */
  lemma EmptyRawBits(ts: seq<table>, diff: int, xs: seq<Piece>, stream: seq<bool>, taken: nat)
    ensures Magnitude(diff) == 0 && PiecesAhead(ts, [Raw(Bits(ExtraBits(diff), Magnitude(diff)))] + xs, stream, taken)
      ==> PiecesAhead(ts, xs, stream, taken)
  {
    hide PiecesAhead;
    if Magnitude(diff) == 0 {
      EmptyBits(ExtraBits(diff));
      EmptyRaw(ts, xs, stream, taken);
    }
  }
}
