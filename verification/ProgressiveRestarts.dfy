/**
 Progressive Huffman-coded scans with restart markers: the pending run is sent before each
 marker, and every interval is a segment of its own, with fresh predictions.
 */
module ProgressiveRestarts {
  import opened Bytes
  import opened BitStrings
  import opened HuffmanTables
  import opened ScanSetup
  import opened HuffmanModel
  import opened RestartIntervals
  import opened RestartSegments
  import opened ProgressiveModel
  import opened ProgressiveTransmission
  import A = ArithScan
  import B = BitWriter
  import D = ProgressiveMcuDecoder
  import E = ProgressiveEncoder
  import M = ArithMcuDecoder
  import P = ProgressiveDecoder
  import R = BitReader

  type mcuBlocks = seq<block>

  /** Every symbol of the interval has a code, and its coefficients are in range. */
  ghost predicate Codes(s: Scan, ts: seq<table>, iv: seq<mcuBlocks>)
  {
    GoodProgressive(s) && SizedMcus(s, iv) && AllCoded(ts, ScanPieces(s, iv)) && ScanProgress(s, iv).inRange
  }

  ghost predicate AllCode(s: Scan, ts: seq<table>, ivs: seq<seq<mcuBlocks>>)
  {
    forall i :: 0 <= i < |ivs| ==> Codes(s, ts, ivs[i])
  }

  /** A segment is the code of an interval. */
  ghost predicate SegmentHolds(s: Scan, ts: seq<table>, seg: seq<byte>, iv: seq<mcuBlocks>)
  {
    Codes(s, ts, iv) && B.Padded(PiecesBits(ts, ScanPieces(s, iv)), BytesBits(seg))
  }

  ghost predicate SegmentsHold(s: Scan, ts: seq<table>, segs: seq<seq<byte>>, ivs: seq<seq<mcuBlocks>>)
  {
    |segs| == |ivs| && forall i :: 0 <= i < |segs| ==> SegmentHolds(s, ts, segs[i], ivs[i])
  }

  /** Without restarts there is one interval, the scan. */
  lemma WithoutRestarts(s: Scan, ts: seq<table>, mcus: seq<mcuBlocks>)
    ensures AllCode(s, ts, All(Divide(0, mcus))) <==> Codes(s, ts, mcus)
  {
    hide Codes;
    OneInterval(mcus);
    assert All(Divide(0, mcus)) == [mcus];
    assert [mcus][0] == mcus;
  }

  lemma OneMoreCodes(s: Scan, ts: seq<table>, ivs: seq<seq<mcuBlocks>>, iv: seq<mcuBlocks>)
    ensures AllCode(s, ts, ivs + [iv]) <==> AllCode(s, ts, ivs) && Codes(s, ts, iv)
  {
    hide Codes;
    var all := ivs + [iv];
    assert all[|ivs|] == iv && forall i :: 0 <= i < |ivs| ==> all[i] == ivs[i];
  }

  lemma SameCount(s: Scan, ts: seq<table>, segs: seq<seq<byte>>, ivs: seq<seq<mcuBlocks>>)
    requires SegmentsHold(s, ts, segs, ivs)
    ensures |segs| == |ivs|
  {
  }

  lemma NoProgressYet(s: Scan)
    requires GoodScan(s)
    ensures SizedMcus(s, []) && ScanProgress(s, []) == NoProgress(s)
  {
  }

  // ----- the encoder

  class RestartEncoder {
    const scan: Scan
    const restartInterval: nat
    const derived: seq<CDerived>
    var coder: E.Encoder
    var out: seq<byte>        // the finished segments and their markers
    var restartsToGo: nat
    var nextRestartNum: nat
    var failed: bool          // in a finished segment
    ghost const tables: seq<table>
    ghost var parts: Intervals<mcuBlocks>
    ghost var segs: seq<seq<byte>>

    /** The coder has been given the current interval. */
    ghost predicate Coding()
      reads this`coder, this`parts, coder, coder.w, coder.stats, coder.stats.dc, coder.stats.ac, coder.bitBuffer
    {
      && GoodProgressive(scan) && E.DerivedTables(tables, derived) && coder.scan == scan && coder.tables == tables
      && !coder.gather && coder.Valid() && SizedMcus(scan, parts.current)
      && coder.progress == ScanProgress(scan, parts.current)
    }

    /** The complete intervals have been written, unless one of them cannot be coded. */
    ghost predicate Delivered()
      reads this`out, this`failed, this`parts, this`segs
    {
      && failed == !AllCode(scan, tables, parts.done)
      && (!failed ==> SegmentsHold(scan, tables, segs, parts.done) && out == Spliced(segs))
    }

    ghost predicate Counting()
      reads this`restartsToGo, this`nextRestartNum, this`parts
    {
      nextRestartNum == |parts.done| % 8
        && (restartInterval > 0 ==> |parts.current| + restartsToGo == restartInterval)
    }

    ghost predicate Valid()
      reads this, coder, coder.w, coder.stats, coder.stats.dc, coder.stats.ac, coder.bitBuffer
    {
      Coding() && Delivered() && Counting()
    }

    constructor (s: Scan, interval: nat, ds: seq<CDerived>, ghost ts: seq<table>)
      requires GoodProgressive(s) && E.DerivedTables(ts, ds)
      ensures Valid() && scan == s && restartInterval == interval && tables == ts && parts == Intervals([], [])
      ensures fresh(coder) && fresh(coder.w) && fresh(coder.bitBuffer) && fresh(coder.stats)
        && fresh(coder.stats.dc) && fresh(coder.stats.ac)
    {
      hide E.Encoder.Valid, E.DerivedTables;
      scan, restartInterval, derived, tables := s, interval, ds, ts;
      restartsToGo, nextRestartNum, out, failed := interval, 0, [], false;
      coder := new E.Encoder(s, ds, ts);
      parts, segs := Intervals([], []), [];
      new;
      Starts(coder);
    }

    /** emit_restart: send the pending run, end the segment, write RSTn, and forget the
        predictions. */
    method EmitRestart()
      requires Coding() && Delivered() && nextRestartNum == |parts.done| % 8
      modifies this`coder, this`out, this`failed, this`parts, this`segs, coder, coder.w,
        coder.stats, coder.stats.dc, coder.stats.ac
      ensures Coding() && fresh(coder) && fresh(coder.w) && fresh(coder.bitBuffer) && fresh(coder.stats)
        && fresh(coder.stats.dc) && fresh(coder.stats.ac)
      ensures Delivered() && parts == Intervals(old(parts.done) + [old(parts.current)], [])
    {
      hide E.Encoder.Valid, E.DerivedTables, GoodProgressive, AllCode, SegmentsHold, Spliced, ScanProgress;
      ScanIsGood(scan);
      EndSegment();
      coder := new E.Encoder(scan, derived, tables);
      Starts(coder);
      NoProgressYet(scan);
    }

    /** emit_eobrun, flush_bits and the marker.  Nothing is sent for good after an error. */
    method EndSegment()
      requires Coding() && Delivered() && nextRestartNum == |parts.done| % 8
      modifies this`out, this`failed, this`parts, this`segs, coder, coder.w,
        coder.stats, coder.stats.dc, coder.stats.ac
      ensures Delivered() && parts == Intervals(old(parts.done) + [old(parts.current)], [])
    {
      hide E.Encoder.Valid, E.DerivedTables, AddMcu, Coded, PiecesBits, BytesBits, B.Padded, Stuff, Spliced, Rest,
        GoodProgressive, ScanProgress, AllCode, SegmentsHold;
      var bytes, p := coder.FinishPass();
      OneMoreCodes(scan, tables, parts.done, parts.current);
      if !failed && !coder.failed {
        IntervalDone(segs, parts, p);
        SplicedNext(segs + [p], |segs|);
        assert (segs + [p])[..|segs|] == segs && (segs + [p])[..|segs| + 1] == segs + [p];
        SameCount(scan, tables, segs, parts.done);
      }
      out := out + bytes + [0xFF, RST0 + nextRestartNum];
      failed := failed || coder.failed;
      segs, parts := segs + [p], Intervals(parts.done + [parts.current], []);
    }

    lemma IntervalDone(segs: seq<seq<byte>>, x: Intervals<mcuBlocks>, p: seq<byte>)
      requires SegmentsHold(scan, tables, segs, x.done) && Codes(scan, tables, x.current)
      requires B.Padded(PiecesBits(tables, ScanPieces(scan, x.current)), BytesBits(p))
      ensures SegmentsHold(scan, tables, segs + [p], x.done + [x.current])
    {
      hide Codes, PiecesBits, BytesBits, B.Padded;
    }

    /** encode_mcu, after a restart where one is due. */
    method EncodeMcu(mcu: mcuBlocks)
      requires Valid() && |mcu| == |scan.membership| && forall i :: 0 <= i < |mcu| ==> SmallBlock(mcu[i])
      modifies this, coder, coder.w, coder.stats, coder.stats.dc, coder.stats.ac, coder.bitBuffer
      ensures Valid() && parts == AddToInterval(restartInterval, old(parts), mcu)
      ensures coder == old(coder) || (fresh(coder) && fresh(coder.w) && fresh(coder.bitBuffer) && fresh(coder.stats)
        && fresh(coder.stats.dc) && fresh(coder.stats.ac))
    {
      hide RestartEncoder.Coding, RestartEncoder.Delivered, SmallBlock;
      if restartInterval > 0 && restartsToGo == 0 {
        EmitRestart();
      }
      PutMcu(mcu);
      if restartInterval > 0 {
        if restartsToGo == 0 {
          restartsToGo := restartInterval;
          nextRestartNum := (nextRestartNum + 1) % 8;
        }
        restartsToGo := restartsToGo - 1;
      }
    }

    method PutMcu(mcu: mcuBlocks)
      requires Coding() && Delivered() && |mcu| == |scan.membership|
      requires forall i :: 0 <= i < |mcu| ==> SmallBlock(mcu[i])
      modifies this`parts, coder, coder.w, coder.stats, coder.stats.dc, coder.stats.ac, coder.bitBuffer
      ensures Coding() && Delivered() && parts == old(parts).(current := old(parts.current) + [mcu])
    {
      hide E.Encoder.Valid, SmallBlock, AddMcu, GoodProgressive, AllCode, SegmentsHold, Spliced;
      coder.EncodeMcu(mcu);
      OneMcuMore(scan, parts.current, mcu);
      parts := parts.(current := parts.current + [mcu]);
    }

    /** finish_pass. */
    method FinishPass() returns (ok: bool, bytes: seq<byte>, ghost all: seq<seq<byte>>)
      requires Valid()
      modifies coder, coder.w, coder.stats, coder.stats.dc, coder.stats.ac
      ensures ok == AllCode(scan, tables, All(parts))
      ensures ok ==> all != [] && SegmentsHold(scan, tables, all, All(parts))
      ensures ok ==> bytes == Spliced(all[..|all| - 1]) + Stuff(all[|all| - 1])
    {
      hide E.Encoder.Valid, E.DerivedTables, AddMcu, Coded, PiecesBits, BytesBits, B.Padded, Stuff, Spliced, Rest,
        GoodProgressive;
      var last, p := coder.FinishPass();
      OneMoreCodes(scan, tables, parts.done, parts.current);
      ok, bytes, all := !failed && !coder.failed, out + last, segs + [p];
      if ok {
        IntervalDone(segs, parts, p);
        assert all[..|all| - 1] == segs;
      }
    }
  }

  lemma OneMcuMore(s: Scan, current: seq<mcuBlocks>, mcu: mcuBlocks)
    requires GoodProgressive(s) && SizedMcus(s, current) && |mcu| == |s.membership|
    ensures SizedMcus(s, current + [mcu])
    ensures ScanProgress(s, current + [mcu]) == AddMcu(s, ScanProgress(s, current), mcu)
  {
    var now := current + [mcu];
    assert now[..|current|] == current && now[..|now| - 1] == current;
  }

  lemma ScanIsGood(s: Scan)
    requires GoodProgressive(s)
    ensures GoodScan(s) && forall ci :: 0 <= ci < |s.components| ==>
      s.components[ci].dcTbl < NUM_HUFF_TBLS && s.components[ci].acTbl < NUM_HUFF_TBLS
  {
  }

  // ----- the decoder

  class RestartDecoder {
    const scan: Scan
    const restartInterval: nat
    const derived: seq<DDerived>
    var coder: D.Decoder
    var restartsToGo: nat
    var nextRestartNum: nat
    var lost: bool                      // a marker was not the expected one
    ghost const tables: seq<table>
    ghost const segs: seq<seq<byte>>
    ghost const ivs: seq<seq<mcuBlocks>>
    ghost const marker: byte
    ghost var k: nat                    // the interval being decoded
    ghost var n: nat                    // its MCUs so far

    ghost predicate Fixed()
    {
      && P.DerivedTables(tables, derived) && GoodProgressive(scan) && GoodOrder(scan.naturalOrder)
      && (ModeOf(scan) == DcFirst ==> forall i :: 0 <= i < |tables| ==> GoodTable(tables[i], true))
    }

    ghost predicate Reading()
      reads this`coder, coder, coder.r
    {
      && coder.scan == scan && coder.Valid() && |coder.progress.last| == |scan.components|
      && (IsRestart(coder.r.ending.0) ==> EndsProperly(coder.r.ending.1))
    }

    ghost predicate Valid()
      reads this`coder, this`nextRestartNum, this`lost, coder, coder.r
    {
      Fixed() && nextRestartNum < 8 && (!lost ==> Reading())
    }

    /** The coder has decoded n MCUs of interval i, from its segment. */
    ghost predicate InInterval(i: nat, n: nat)
      reads this`coder, coder, coder.r
    {
      && SegmentsHold(scan, tables, segs, ivs) && i < |segs| && n <= |ivs[i]| && marker != 0 && marker != 0xFF
      && GoodProgressive(scan) && SizedMcus(scan, ivs[i]) && SizedMcus(scan, ivs[i][..n])
      && coder.scan == scan && coder.tables == tables && coder.codes == ScanProgress(scan, ivs[i]).codes
      && coder.progress == ScanProgress(scan, ivs[i][..n]) && coder.InStep()
      && coder.r.ending == (MarkerAfter(segs, i, marker), SegmentsFrom(segs, i + 1, marker))
    }

    ghost predicate InStep()
      reads this, coder, coder.r
    {
      && !lost && InInterval(k, n) && nextRestartNum == k % 8
      && (restartInterval > 0 ==> n + restartsToGo == restartInterval)
    }

    constructor (s: Scan, interval: nat, ds: seq<DDerived>, ghost ts: seq<table>, ghost segs: seq<seq<byte>>,
        ghost ivs: seq<seq<mcuBlocks>>, ghost marker: byte, input: seq<byte>)
      requires P.DerivedTables(ts, ds) && GoodProgressive(s) && GoodOrder(s.naturalOrder)
      requires ModeOf(s) == DcFirst ==> forall i :: 0 <= i < |ts| ==> GoodTable(ts[i], true)
      requires SegmentsHold(s, ts, segs, ivs) && segs != [] && marker != 0 && marker != 0xFF && !IsRestart(marker)
      requires input == SegmentsFrom(segs, 0, marker)
      ensures Valid() && InStep() && scan == s && restartInterval == interval && tables == ts && k == n == 0
      ensures this.segs == segs && this.ivs == ivs && fresh(coder) && fresh(coder.r)
    {
      hide D.Decoder.Valid, D.Decoder.InStep, P.DerivedTables, GoodOrder, GoodTable, MarkerAhead, Segment, MarkerOf,
        SegmentsFrom, BytesBits, Rest, P.PiecesAhead, EndsProperly, GoodBlocks, ScanProgress;
      SegmentAt(segs, 0, marker);
      SegmentsEndProperly(segs, 0, marker);
      IntervalAhead(s, ts, segs, ivs, 0);
      EndOfSegment(input);
      scan, restartInterval, derived, tables := s, interval, ds, ts;
      restartsToGo, nextRestartNum, lost := interval, 0, false;
      this.segs, this.ivs, this.marker, k, n := segs, ivs, marker, 0, 0;
      coder := new D.Decoder(input, s, ds, ts, ScanProgress(s, ivs[0]).codes);
      new;
      BeginsInterval(s, ivs[0]);
    }

    /** process_restart. */
    method ProcessRestart()
      requires Valid() && !lost && restartInterval > 0
      modifies this`coder, this`restartsToGo, this`nextRestartNum, this`lost, this`k, this`n, coder.r
      ensures Valid() && (!lost ==> restartsToGo == restartInterval)
      ensures coder.r == old(coder.r) && (coder == old(coder) || fresh(coder))
      ensures old(InStep()) && old(k) + 1 < |segs| ==> InStep() && k == old(k) + 1 && n == 0
    {
      hide D.Decoder.InStep, P.DerivedTables, GoodOrder, GoodTable, MarkerAhead, Segment, MarkerOf, SegmentsFrom,
        BytesBits, Rest, GoodProgressive, P.PiecesAhead, EndsProperly, GoodBlocks, ScanProgress, SegmentsHold,
        R.Reader.Valid, SizedMcus;
      ghost var f := InStep() && k + 1 < |segs|;
      ghost var all: seq<CodedBlock> := [];
      ghost var ending := coder.r.ending;
      EndsSays(ending);
      if f {
        NextSegment(scan, tables, segs, ivs, k, marker);
        all := ScanProgress(scan, ivs[k + 1]).codes;
      }
      var ok := coder.r.ReadRestartMarker(nextRestartNum);
      if !ok {
        lost := true;
        return;
      }
      BeginSegment(all, f);
    }

    /** The reader is behind the marker, where interval k + 1 begins. */
    ghost predicate AtSegment(all: seq<CodedBlock>)
      reads this`coder, this`nextRestartNum, this`k, coder, coder.r
    {
      && SegmentsHold(scan, tables, segs, ivs) && k + 1 < |segs| && marker != 0 && marker != 0xFF
      && GoodProgressive(scan) && SizedMcus(scan, ivs[k + 1]) && all == ScanProgress(scan, ivs[k + 1]).codes
      && GoodBlocks(all) && P.PiecesAhead(tables, Rest(RunTable(scan), all, 0, NONE), coder.r.stream, 0)
      && coder.r.ending == (MarkerAfter(segs, k + 1, marker), SegmentsFrom(segs, k + 2, marker))
      && nextRestartNum == k % 8
    }

    /** The predictions, the run and the counters of the interval that begins. */
    method BeginSegment(ghost all: seq<CodedBlock>, ghost f: bool)
      requires Fixed() && !lost && nextRestartNum < 8 && coder.r.Valid() && coder.r.taken == 0
      requires !coder.r.insufficientData && (IsRestart(coder.r.ending.0) ==> EndsProperly(coder.r.ending.1))
      requires f ==> AtSegment(all)
      modifies this`coder, this`restartsToGo, this`nextRestartNum, this`k, this`n
      ensures Valid() && !lost && restartsToGo == restartInterval && coder.r == old(coder.r) && fresh(coder)
      ensures f ==> InStep() && k == old(k) + 1 && n == 0
    {
      hide D.Decoder.InStep, P.DerivedTables, GoodOrder, GoodTable, SegmentsFrom, Rest, GoodProgressive, P.PiecesAhead,
        EndsProperly, GoodBlocks, ScanProgress, SegmentsHold, R.Reader.Valid, SizedMcus;
      coder := new D.Decoder.Restarted(coder.r, scan, derived, tables, all);
      NextNumber(k);
      nextRestartNum := (nextRestartNum + 1) % 8;
      restartsToGo := restartInterval;
      if f {
        SameCount(scan, tables, segs, ivs);
        BeginsInterval(scan, ivs[k + 1]);
        k, n := k + 1, 0;
      }
    }

    /** The MCU comes next in the stream: at the end of an interval a restart is due. */
    ghost predicate Comes(mcu: mcuBlocks)
      reads this`k, this`n
    {
      if restartInterval > 0 && n == restartInterval then
        k + 1 < |segs| && |segs| == |ivs| && HasMcu(ivs[k + 1], 0, mcu)
      else k < |ivs| && HasMcu(ivs[k], n, mcu)
    }

    /** The next MCU of the interval. */
    method NextMcu(priors: mcuBlocks, ghost mcu: mcuBlocks, ghost f: bool) returns (out: mcuBlocks)
      requires Valid() && !lost && (restartInterval > 0 ==> restartsToGo > 0)
      requires |priors| == |mcu| == |scan.membership| && forall i :: 0 <= i < |mcu| ==> SmallBlock(mcu[i])
      requires f ==> InStep() && k < |ivs| && HasMcu(ivs[k], n, mcu) && scan.Se < 64 && M.AllReady(scan, priors, mcu)
      modifies this`restartsToGo, this`n, coder, coder.r
      ensures Valid() && |out| == |priors|
      ensures f ==> InStep() && n == old(n) + 1 && scan.Ss <= scan.Se < 64 && M.AllReceived(scan, priors, mcu, out)
    {
      hide D.Decoder.Valid, D.Decoder.InStep, P.DerivedTables, GoodOrder, GoodTable, EndsProperly, SegmentsHold,
        SegmentsFrom, ScanProgress, SmallBlock, ReadyFor, AddMcu, SizedMcus;
      if f {
        IntervalAhead(scan, tables, segs, ivs, k);
        McuInInterval(scan, ivs[k], n);
        AreReady(scan, priors, mcu);
      }
      out := coder.DecodeMcu(priors, mcu);
      if restartInterval > 0 {
        restartsToGo := restartsToGo - 1;
      }
      if f {
        ReceivedMcu(scan, priors, mcu, out);
        n := n + 1;
      }
    }

    /** decode_mcu, after any restart. */
    method DecodeMcu(priors: mcuBlocks, ghost mcu: mcuBlocks) returns (out: mcuBlocks)
      requires Valid() && |priors| == |mcu| == |scan.membership| && forall i :: 0 <= i < |mcu| ==> SmallBlock(mcu[i])
      modifies this`coder, this`restartsToGo, this`nextRestartNum, this`lost, this`k, this`n, coder, coder.r
      ensures Valid() && |out| == |priors|
      ensures coder.r == old(coder.r) && (coder == old(coder) || fresh(coder))
      ensures old(InStep()) && old(Comes(mcu)) && scan.Ss <= scan.Se < 64 && M.AllReady(scan, priors, mcu) ==>
        InStep() && M.AllReceived(scan, priors, mcu, out)
        && (if restartInterval > 0 && old(n) == restartInterval then k == old(k) + 1 && n == 1
          else k == old(k) && n == old(n) + 1)
    {
      hide RestartDecoder.Reading, RestartDecoder.InInterval, RestartDecoder.Fixed, SmallBlock, M.AllReady,
        M.AllReceived;
      ghost var f := InStep() && Comes(mcu) && scan.Ss <= scan.Se < 64 && M.AllReady(scan, priors, mcu);
      if !lost && restartInterval > 0 && restartsToGo == 0 {
        ProcessRestart();
      }
      if lost {
        return priors;
      }
      out := NextMcu(priors, mcu, f);
    }
  }

  lemma EndOfSegment(d: seq<byte>)
    requires EndsProperly(d)
    ensures MarkerAhead(d) && (IsRestart(MarkerOf(d).0) ==> EndsProperly(MarkerOf(d).1))
  {
  }

  lemma EndsSays(ending: (byte, seq<byte>))
    requires IsRestart(ending.0) ==> EndsProperly(ending.1)
    ensures IsRestart(ending.0) ==> (MarkerAhead(ending.1)
      && (IsRestart(MarkerOf(ending.1).0) ==> EndsProperly(MarkerOf(ending.1).1)))
  {
  }

  /** Segment i holds what the decoder needs of interval i. */
  lemma IntervalAhead(s: Scan, ts: seq<table>, segs: seq<seq<byte>>, ivs: seq<seq<mcuBlocks>>, i: nat)
    requires SegmentsHold(s, ts, segs, ivs) && i < |segs|
    ensures i < |ivs| && GoodProgressive(s) && GoodScan(s) && SizedMcus(s, ivs[i])
    ensures ScanProgress(s, ivs[i]).inRange && GoodBlocks(ScanProgress(s, ivs[i]).codes)
    ensures P.PiecesAhead(ts, Rest(RunTable(s), ScanProgress(s, ivs[i]).codes, 0, NONE), BytesBits(segs[i]), 0)
  {
    hide PiecesBits, BytesBits, Rest, GoodBlocks, ScanProgress, SizedMcus, B.Padded, AllCoded, P.PiecesAhead;
    assert SegmentHolds(s, ts, segs[i], ivs[i]);
    StreamHolds(s, ivs[i], ts, BytesBits(segs[i]));
    assert ivs[i][..|ivs[i]|] == ivs[i];
    CodesAreGood(s, ivs[i], |ivs[i]|);
  }

  lemma BeginsInterval(s: Scan, iv: seq<mcuBlocks>)
    requires GoodProgressive(s)
    ensures SizedMcus(s, iv[..0]) && ScanProgress(s, iv[..0]) == NoProgress(s)
  {
    assert iv[..0] == [];
  }

  /** What the input holds behind segment k. */
  lemma NextSegment(s: Scan, ts: seq<table>, segs: seq<seq<byte>>, ivs: seq<seq<mcuBlocks>>, k: nat, marker: byte)
    requires SegmentsHold(s, ts, segs, ivs) && k + 1 < |segs| && marker != 0 && marker != 0xFF
    ensures k + 1 < |ivs| && GoodProgressive(s) && GoodScan(s) && SizedMcus(s, ivs[k + 1])
    ensures GoodBlocks(ScanProgress(s, ivs[k + 1]).codes) && MarkerAfter(segs, k, marker) == RST0 + k % 8
    ensures var d := SegmentsFrom(segs, k + 1, marker);
      && MarkerAhead(d) && MarkerOf(d) == (MarkerAfter(segs, k + 1, marker), SegmentsFrom(segs, k + 2, marker))
      && P.PiecesAhead(ts, Rest(RunTable(s), ScanProgress(s, ivs[k + 1]).codes, 0, NONE), BytesBits(Segment(d)), 0)
  {
    hide PiecesBits, BytesBits, Rest, GoodBlocks, ScanProgress, SizedMcus, GoodProgressive, SegmentsFrom, MarkerOf,
      Segment, MarkerAhead, P.PiecesAhead, SegmentsHold;
    SegmentAt(segs, k + 1, marker);
    IntervalAhead(s, ts, segs, ivs, k + 1);
  }

  /** MCU n of an interval is what the coder expects. */
  lemma McuInInterval(s: Scan, iv: seq<mcuBlocks>, n: nat)
    requires GoodProgressive(s) && SizedMcus(s, iv) && n < |iv| && ScanProgress(s, iv).inRange
    ensures SizedMcus(s, iv[..n]) && SizedMcus(s, iv[..n + 1]) && |iv[n]| == |s.membership|
    ensures var y := AddMcu(s, ScanProgress(s, iv[..n]), iv[n]);
      ScanProgress(s, iv[..n + 1]) == y && y.codes <= ScanProgress(s, iv).codes && y.inRange
  {
    hide AddMcu, ScanProgress;
    ProgressNext(s, iv, n);
    ProgressPrefix(s, iv, n + 1, |iv|);
    assert iv[..|iv|] == iv;
  }

  lemma AreReady(s: Scan, priors: mcuBlocks, mcu: mcuBlocks)
    requires |priors| == |mcu| && s.Se < 64 && M.AllReady(s, priors, mcu)
    ensures forall i :: 0 <= i < |mcu| ==> ReadyFor(s, Zigzag(priors[i], s.naturalOrder), mcu[i])
  {
  }

  // ----- whole scans

  /** Encode a scan in restart intervals of r MCUs; 0 is for no restarts. */
  method EncodeScan(s: Scan, r: nat, ts: seq<table>, cs: seq<CDerived>, mcus: seq<mcuBlocks>)
    returns (ok: bool, sent: seq<byte>, ghost segs: seq<seq<byte>>)
    requires GoodProgressive(s) && GoodMcus(s, mcus) && E.DerivedTables(ts, cs)
    ensures ok == AllCode(s, ts, All(Divide(r, mcus)))
    ensures ok ==> segs != [] && SegmentsHold(s, ts, segs, All(Divide(r, mcus)))
    ensures ok ==> sent == Spliced(segs[..|segs| - 1]) + Stuff(segs[|segs| - 1])
  {
    hide RestartEncoder.Valid, E.DerivedTables, AllCode, SegmentsHold, Spliced, Stuff, Divide, SmallBlock,
      GoodProgressive;
    var e := new RestartEncoder(s, r, cs, ts);
    NothingDivided(r, mcus);
    for m := 0 to |mcus|
      invariant e.Valid() && fresh(e) && fresh(e.coder) && fresh(e.coder.w) && fresh(e.coder.bitBuffer)
      invariant fresh(e.coder.stats) && fresh(e.coder.stats.dc) && fresh(e.coder.stats.ac)
      invariant e.scan == s && e.restartInterval == r && e.tables == ts && e.parts == Divide(r, mcus[..m])
    {
      DivideNext(r, mcus, m);
      e.EncodeMcu(mcus[m]);
    }
    assert mcus[..|mcus|] == mcus;
    ok, sent, segs := e.FinishPass();
  }

  /** After some MCUs the decoder is where the division into intervals says. */
  ghost predicate IsAt(d: RestartDecoder, x: Intervals<mcuBlocks>)
    reads d
  {
    d.k == |x.done| && d.n == |x.current|
  }

  /** The next MCU of the scan is the next of the stream. */
  lemma NextComes(d: RestartDecoder, mcus: seq<mcuBlocks>, m: nat)
    requires m < |mcus| && d.ivs == All(Divide(d.restartInterval, mcus)) && |d.segs| == |d.ivs|
    requires IsAt(d, Divide(d.restartInterval, mcus[..m]))
    ensures d.Comes(mcus[m])
  {
    hide Divide, All, HasMcu;
    NextOfDivision(d.restartInterval, mcus, m);
  }

  /** Decode a scan over the blocks of `priors`. */
  method DecodeScan(s: Scan, r: nat, ts: seq<table>, ds: seq<DDerived>, input: seq<byte>, priors: seq<mcuBlocks>,
      ghost mcus: seq<mcuBlocks>, ghost segs: seq<seq<byte>>, ghost marker: byte) returns (out: seq<mcuBlocks>)
    requires GoodProgressive(s) && GoodMcus(s, mcus) && GoodOrder(s.naturalOrder) && A.GoodPriors(s, priors, mcus)
    requires P.DerivedTables(ts, ds) && (ModeOf(s) == DcFirst ==> forall i :: 0 <= i < |ts| ==> GoodTable(ts[i], true))
    requires segs != [] && SegmentsHold(s, ts, segs, All(Divide(r, mcus)))
    requires marker != 0 && marker != 0xFF && !IsRestart(marker) && input == SegmentsFrom(segs, 0, marker)
    ensures |out| == |priors| && A.ScanReceived(s, priors, mcus, out)
  {
    hide RestartDecoder.Valid, RestartDecoder.InStep, RestartDecoder.Comes, SegmentsHold, SegmentsFrom, Divide, All,
      SmallBlock, GoodOrder, M.AllReady, M.AllReceived, AddToInterval, P.DerivedTables, GoodTable;
    ghost var ivs := All(Divide(r, mcus));
    SameCount(s, ts, segs, ivs);
    var d := new RestartDecoder(s, r, ds, ts, segs, ivs, marker, input);
    NothingDivided(r, mcus);
    out := [];
    for m := 0 to |priors|
      invariant d.Valid() && d.InStep() && fresh(d) && fresh(d.coder) && fresh(d.coder.r)
      invariant d.scan == s && d.restartInterval == r && d.segs == segs && d.ivs == ivs
      invariant IsAt(d, Divide(r, mcus[..m])) && |out| == m
      invariant forall i :: 0 <= i < m ==>
        |priors[i]| == |mcus[i]| == |out[i]| && M.AllReceived(s, priors[i], mcus[i], out[i])
    {
      NextComes(d, mcus, m);
      DivideNext(r, mcus, m);
      AddedLast(r, Divide(r, mcus[..m]), mcus[m]);
      var blocks := d.DecodeMcu(priors[m], mcus[m]);
      out := out + [blocks];
    }
  }

  /** The scan is received exactly when all symbols have codes and all coefficients are in
      range; otherwise the encoder reports an error. */
  method TransmitScan(s: Scan, r: nat, ts: seq<table>, mcus: seq<mcuBlocks>, priors: seq<mcuBlocks>, marker: byte)
    returns (ok: bool, out: seq<mcuBlocks>)
    requires GoodProgressive(s) && GoodMcus(s, mcus) && GoodOrder(s.naturalOrder) && A.GoodPriors(s, priors, mcus)
    requires |ts| == NUM_HUFF_TBLS && marker != 0 && marker != 0xFF && !IsRestart(marker)
    ensures ok <==> ProgressiveTransmission.GoodTables(ts, s.Ss == 0) && AllCode(s, ts, All(Divide(r, mcus)))
    ensures ok ==> |out| == |priors| && A.ScanReceived(s, priors, mcus, out)
  {
    hide GoodProgressive, GoodMcus, GoodOrder, A.GoodPriors, A.ScanReceived, GoodTable, AllCode, SegmentsHold,
      SegmentsFrom, Spliced, Stuff, E.DerivedTables, P.DerivedTables, Divide, All;
    ok, out := false, priors;
    var derived, cs, ds := DeriveTables(ts, s.Ss == 0);
    if derived {
      var encoded, sent, segs := EncodeScan(s, r, ts, cs, mcus);
      if encoded {
        OutputThenMarker(segs, sent, marker);
        DcTables(s, ts);
        out := DecodeScan(s, r, ts, ds, sent + [0xFF, marker], priors, mcus, segs, marker);
        ok := true;
      }
    }
  }
}
