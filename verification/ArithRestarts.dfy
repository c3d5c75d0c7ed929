/**
 Arithmetic-coded scans with restart markers: every interval is a segment of its own, with
 fresh statistics and predictions, so an error in one interval ends at the next marker.
 */
module ArithRestarts {
  import opened Bytes
  import opened IntervalCoder
  import opened CoefficientModel
  import opened ScanSetup
  import opened RestartIntervals
  import opened RestartSegments
  import opened ArithMcuEncoder
  import opened ArithMcuDecoder
  import opened ArithScan

  type mcuBlocks = seq<block>

  /** A segment is the code of an interval. */
  ghost predicate SegmentHolds(s: Scan, seg: seq<byte>, iv: seq<mcuBlocks>)
  {
    && GoodScan(s) && GoodMcus(s, iv)
    && InBins(Sent(s, iv), BIN_COUNT) && Inside(seg, Run(InitialCoder(), Sent(s, iv)).iv)
  }

  ghost predicate SegmentsHold(s: Scan, segs: seq<seq<byte>>, ivs: seq<seq<mcuBlocks>>)
  {
    |segs| == |ivs| && forall i :: 0 <= i < |segs| ==> SegmentHolds(s, segs[i], ivs[i])
  }

  // ----- the encoder

  class RestartEncoder {
    const scan: Scan
    const restartInterval: nat
    var coder: McuEncoder
    var out: seq<byte>        // the finished segments and their markers
    var restartsToGo: nat
    var nextRestartNum: nat
    ghost var parts: Intervals<mcuBlocks>
    ghost var segs: seq<seq<byte>>

    /** The coder has sent the current interval. */
    ghost predicate Coding()
      reads this`coder, this`parts, coder, coder.coder, coder.coder.bins
    {
      && GoodScan(scan) && coder.scan == scan && coder.Valid() && coder.start == InitialCoder()
      && GoodMcus(scan, parts.current) && coder.log == Sent(scan, parts.current)
      && coder.Preds() == AfterScan(scan, NoPredictions(scan), parts.current)
      && (SendsDc(scan) ==> forall ci :: 0 <= ci < |coder.lastDc| ==> -0x8000 <= coder.lastDc[ci] < 0x8000)
    }

    /** The complete intervals have been written. */
    ghost predicate Delivered()
      reads this`out, this`nextRestartNum, this`parts, this`segs
    {
      SegmentsHold(scan, segs, parts.done) && out == Spliced(segs) && nextRestartNum == |segs| % 8
    }

    ghost predicate Counting()
      reads this`restartsToGo, this`parts
    {
      restartInterval > 0 ==> |parts.current| + restartsToGo == restartInterval
    }

    ghost predicate Valid()
      reads this, coder, coder.coder, coder.coder.bins
    {
      Coding() && Delivered() && Counting()
    }

    constructor (s: Scan, interval: nat)
      requires GoodScan(s)
      ensures Valid() && scan == s && restartInterval == interval && parts == Intervals([], [])
      ensures fresh(coder) && fresh(coder.coder) && fresh(coder.coder.bins)
    {
      hide McuEncoder.Coding, ScanDecisions, AfterScan, Inside, Run;
      scan, restartInterval, restartsToGo, nextRestartNum, out := s, interval, interval, 0, [];
      coder := new McuEncoder(s);
      parts, segs := Intervals([], []), [];
      new;
      Begins();
    }

    lemma Begins()
      requires GoodScan(scan) && coder.scan == scan && coder.Valid() && coder.start == InitialCoder() && coder.log == []
      requires coder.lastDc == seq(|scan.components|, _ => 0) && coder.dcContext == seq(|scan.components|, _ => 0)
      requires parts.current == []
      ensures Coding()
    {
      hide McuEncoder.Coding;
      FreshPredictions(scan);
      ScanStart(scan, NoPredictions(scan));
    }

    /** emit_restart: end the segment, write RSTn, and begin with nothing learned. */
    method EmitRestart()
      requires Coding() && Delivered()
      modifies this`coder, this`out, this`parts, this`segs, coder.coder
      ensures Coding() && fresh(coder) && fresh(coder.coder) && fresh(coder.coder.bins)
      ensures parts == Intervals(old(parts.done) + [old(parts.current)], [])
      ensures |segs| == |old(segs)| + 1 && SegmentsHold(scan, segs, parts.done) && out == Spliced(segs)
    {
      hide McuEncoder.Coding, Inside, Run, GoodMcus, ScanDecisions, AfterScan, Spliced, Stuff;
      var bytes, p := coder.FinishPass();
      out := out + bytes + [0xFF, RST0 + nextRestartNum];
      IntervalDone(segs, parts, p, coder.log);
      SplicedNext(segs + [p], |segs|);
      assert (segs + [p])[..|segs|] == segs && (segs + [p])[..|segs| + 1] == segs + [p];
      segs, parts := segs + [p], Intervals(parts.done + [parts.current], []);
      coder := new McuEncoder(scan);
      Begins();
    }

    lemma IntervalDone(segs: seq<seq<byte>>, x: Intervals<mcuBlocks>, p: seq<byte>, log: seq<Decision>)
      requires SegmentsHold(scan, segs, x.done) && GoodScan(scan) && GoodMcus(scan, x.current)
      requires log == Sent(scan, x.current)
      requires InBins(log, BIN_COUNT) && Inside(p, Run(InitialCoder(), log).iv)
      ensures SegmentsHold(scan, segs + [p], x.done + [x.current])
    {
    }

    /** encode_mcu, after a restart where one is due. */
    method EncodeMcu(mcu: mcuBlocks)
      requires Valid() && |mcu| == |scan.membership| && forall i :: 0 <= i < |mcu| ==> SmallBlock(mcu[i])
      modifies this, coder, coder.coder, coder.coder.bins
      ensures Valid() && parts == AddToInterval(restartInterval, old(parts), mcu)
      ensures coder == old(coder) || (fresh(coder) && fresh(coder.coder) && fresh(coder.coder.bins))
    {
      hide RestartEncoder.Coding, SegmentsHold, Spliced, SmallBlock;
      if restartInterval > 0 {
        if restartsToGo == 0 {
          EmitRestart();
          restartsToGo := restartInterval;
          nextRestartNum := (nextRestartNum + 1) % 8;
        }
        restartsToGo := restartsToGo - 1;
      }
      PutMcu(mcu);
    }

    method PutMcu(mcu: mcuBlocks)
      requires Coding() && |mcu| == |scan.membership| && forall i :: 0 <= i < |mcu| ==> SmallBlock(mcu[i])
      modifies this`parts, coder`log, coder`lastDc, coder`dcContext, coder.coder, coder.coder.bins
      ensures Coding() && parts == old(parts).(current := old(parts.current) + [mcu])
    {
      hide McuEncoder.Coding, SmallBlock, McuDecisions, AfterMcu, ScanDecisions, AfterScan, GoodMcus;
      NextMcu(scan, parts.current, mcu);
      coder.EncodeMcu(mcu);
      parts := parts.(current := parts.current + [mcu]);
    }

    /** finish_pass. */
    method FinishPass() returns (bytes: seq<byte>, ghost all: seq<seq<byte>>)
      requires Valid()
      modifies coder.coder
      ensures all != [] && SegmentsHold(scan, all, All(parts))
      ensures bytes == Spliced(all[..|all| - 1]) + Stuff(all[|all| - 1])
    {
      hide McuEncoder.Coding, Inside, Run, GoodMcus, ScanDecisions, AfterScan, Spliced, Stuff;
      var last, p := coder.FinishPass();
      IntervalDone(segs, parts, p, coder.log);
      bytes, all := out + last, segs + [p];
      assert all[..|all| - 1] == segs;
    }
  }

  /** One MCU more in an interval. */
  lemma NextMcu(s: Scan, current: seq<mcuBlocks>, mcu: mcuBlocks)
    requires GoodScan(s) && GoodMcus(s, current) && |mcu| == |s.membership|
    requires forall i :: 0 <= i < |mcu| ==> SmallBlock(mcu[i])
    ensures GoodMcus(s, current + [mcu])
    ensures var ps := NoPredictions(s); var before := AfterScan(s, ps, current);
      && ScanDecisions(s, ps, current + [mcu]) == ScanDecisions(s, ps, current) + McuDecisions(s, before, mcu)
      && AfterScan(s, ps, current + [mcu]) == AfterMcu(s, before, mcu)
      && ScanFits(s, ps, current + [mcu]) == (ScanFits(s, ps, current) && McuFits(s, before, mcu))
  {
    hide ScanDecisions, McuDecisions, AfterScan, AfterMcu, ScanFits, McuFits, SmallBlock;
    var now := current + [mcu];
    assert now[..|current|] == current && now[..|current| + 1] == now;
    ScanNext(s, NoPredictions(s), now, |current|);
  }

  // ----- the decoder

  class RestartDecoder {
    const scan: Scan
    const restartInterval: nat
    var coder: McuDecoder
    var restartsToGo: nat
    var nextRestartNum: nat
    var lost: bool                      // a marker was not the expected one
    ghost const segs: seq<seq<byte>>
    ghost const ivs: seq<seq<mcuBlocks>>
    ghost const marker: byte
    ghost var k: nat                    // the interval being decoded
    ghost var n: nat                    // its MCUs so far

    ghost predicate Valid()
      reads this`coder, this`nextRestartNum, this`lost, coder, coder.coder, coder.coder.bins
    {
      && GoodScan(scan) && GoodOrder(scan.naturalOrder) && nextRestartNum < 8 && coder.scan == scan
      && (!lost ==> coder.Predictions() && coder.Coding() && EndsProperly(coder.coder.data))
    }

    /** The input holds the intervals, and the coder is in interval k after n MCUs. */
    ghost predicate InStep()
      reads this, coder
    {
      && !lost && marker != 0 && marker != 0xFF && SegmentsHold(scan, segs, ivs) && k < |segs|
      && n <= |ivs[k]| && coder.sent == Sent(scan, ivs[k]) && coder.coder.data == SegmentsFrom(segs, k, marker)
      && nextRestartNum == k % 8 && (restartInterval > 0 ==> n + restartsToGo == restartInterval)
      && Follows(ivs[k][..n])
    }

    /** The coder has decoded these MCUs of its interval, or failed in them. */
    ghost predicate Follows(mcus: seq<mcuBlocks>)
      reads coder, this`coder
    {
      && GoodScan(scan) && GoodMcus(scan, mcus) && |coder.lastDc| == |coder.dcContext|
      && coder.failed == !ScanFits(scan, NoPredictions(scan), mcus)
      && (coder.failed || (coder.log == Sent(scan, mcus)
        && coder.Preds() == AfterScan(scan, NoPredictions(scan), mcus)))
    }

    constructor (s: Scan, interval: nat, ghost segs: seq<seq<byte>>, ghost ivs: seq<seq<mcuBlocks>>,
        ghost marker: byte, input: seq<byte>)
      requires GoodScan(s) && GoodOrder(s.naturalOrder) && SegmentsHold(s, segs, ivs) && segs != []
      requires marker != 0 && marker != 0xFF && !IsRestart(marker) && input == SegmentsFrom(segs, 0, marker)
      ensures Valid() && InStep() && scan == s && restartInterval == interval && k == n == 0
      ensures this.segs == segs && this.ivs == ivs && fresh(coder) && fresh(coder.coder) && fresh(coder.coder.bins)
    {
      hide McuDecoder.Coding, SegmentsFrom, Inside, Run, Segment, MarkerAhead, MarkerOf, ScanDecisions, GoodMcus,
        GoodOrder, Spliced,
        EndsProperly;
      SegmentAt(segs, 0, marker);
      SegmentsEndProperly(segs, 0, marker);
      scan, restartInterval, restartsToGo, nextRestartNum, lost := s, interval, interval, 0, false;
      this.segs, this.ivs, this.marker, k, n := segs, ivs, marker, 0, 0;
      assert SegmentHolds(s, segs[0], ivs[0]);
      coder := new McuDecoder(input, s, Sent(s, ivs[0]));
      new;
      BeginsInterval();
      assert ivs[0][..0] == [];
    }

    lemma BeginsInterval()
      requires GoodScan(scan) && coder.scan == scan && !coder.failed && coder.log == []
      requires coder.lastDc == seq(|scan.components|, _ => 0) && coder.dcContext == seq(|scan.components|, _ => 0)
      ensures Follows([])
    {
      FreshPredictions(scan);
      ScanStart(scan, NoPredictions(scan));
    }

    /** Any input is inside the interval of no decisions. */
    static lemma NothingSent(code: seq<byte>)
      ensures InBins([], BIN_COUNT) && Inside(code, Run(InitialCoder(), []).iv)
    {
      InsideWhole(code);
    }

    static lemma ProperEnd(d: seq<byte>)
      requires EndsProperly(d)
      ensures MarkerAhead(d) && (IsRestart(MarkerOf(d).0) ==> EndsProperly(MarkerOf(d).1) && MarkerAhead(MarkerOf(d).1))
    {
    }

    /** What the input holds behind the current segment. */
    lemma NextSegment()
      requires InStep() && k + 1 < |segs|
      ensures |segs| == |ivs| && k + 1 < |ivs|
      ensures var d := SegmentsFrom(segs, k + 1, marker); var sent := Sent(scan, ivs[k + 1]);
        && GoodMcus(scan, ivs[k + 1]) && MarkerAhead(coder.coder.data)
          && MarkerOf(coder.coder.data) == (RST0 + k % 8, d)
        && MarkerAhead(d) && InBins(sent, BIN_COUNT) && Inside(Segment(d), Run(InitialCoder(), sent).iv)
    {
      hide Inside, Run, Segment, MarkerAhead, MarkerOf, ScanDecisions, GoodMcus, SegmentsFrom, RestartDecoder.Follows,
        InBins;
      SegmentAt(segs, k, marker);
      SegmentAt(segs, k + 1, marker);
      assert SegmentHolds(scan, segs[k + 1], ivs[k + 1]);
    }

    lemma CoderIsValid()
      requires coder.Coding()
      ensures coder.coder.Valid()
    {
    }

    /** process_restart: the decoder begins anew behind the marker. */
    method ProcessRestart()
      requires Valid() && !lost && restartInterval > 0
      modifies this`coder, this`restartsToGo, this`nextRestartNum, this`lost, this`k, this`n, coder.coder
      ensures Valid() && (!lost ==> restartsToGo == restartInterval)
      ensures coder == old(coder) || (fresh(coder) && fresh(coder.coder) && fresh(coder.coder.bins))
      ensures old(InStep()) && old(k) + 1 < |segs| ==> InStep() && k == old(k) + 1 && n == 0
    {
      hide Inside, Run, Segment, MarkerAhead, MarkerOf, ScanDecisions, GoodMcus, GoodOrder, SegmentsFrom, SegmentsHold,
        RestartDecoder.Follows, InBins, EndsProperly, McuDecoder.Coding, McuDecoder.Predictions;
      CoderIsValid();
      ghost var f := InStep() && k + 1 < |segs|;
      ghost var sent: seq<Decision> := [];
      ProperEnd(coder.coder.data);
      if f {
        NextSegment();
        sent := Sent(scan, ivs[k + 1]);
      }
      var ok, rest := coder.coder.ReadRestartMarker(nextRestartNum);
      if !ok {
        lost := true;
        return;
      }
      NothingSent(Segment(rest));
      hide MarkerOf, RestartDecoder.InStep, IsRestart;
      BeginSegment(rest, sent);
      StartCounting(f);
    }

    /** The counters of the interval that has begun. */
    method StartCounting(ghost f: bool)
      requires Valid() && !lost && restartInterval > 0
      requires f ==> marker != 0 && marker != 0xFF && SegmentsHold(scan, segs, ivs) && k + 1 < |segs| == |ivs|
      requires f ==> coder.sent == Sent(scan, ivs[k + 1]) && coder.coder.data == SegmentsFrom(segs, k + 1, marker)
      requires f ==> nextRestartNum == k % 8 && Follows([])
      modifies this`restartsToGo, this`nextRestartNum, this`k, this`n
      ensures Valid() && !lost && restartsToGo == restartInterval
      ensures f ==> InStep() && k == old(k) + 1 && n == 0
    {
      hide Inside, Run, Segment, MarkerAhead, ScanDecisions, GoodMcus, GoodOrder, SegmentsFrom, SegmentsHold,
        RestartDecoder.Follows, InBins, EndsProperly, McuDecoder.Coding, McuDecoder.Predictions;
      NextNumber(k);
      nextRestartNum := (nextRestartNum + 1) % 8;
      restartsToGo := restartInterval;
      if f {
        assert ivs[k + 1][..0] == [];
        k, n := k + 1, 0;
      }
    }

    /** A segment, of which `sent` is the code. */
    method BeginSegment(rest: seq<byte>, ghost sent: seq<Decision>)
      requires MarkerAhead(rest) && GoodScan(scan) && InBins(sent, BIN_COUNT)
      requires Inside(Segment(rest), Run(InitialCoder(), sent).iv)
      modifies this`coder
      ensures fresh(coder) && fresh(coder.coder) && fresh(coder.coder.bins) && coder.scan == scan && coder.sent == sent
      ensures coder.coder.data == rest && coder.Predictions() && coder.Coding() && Follows([])
    {
      hide McuDecoder.Coding, Inside, Run, Segment, MarkerAhead, RestartDecoder.Follows;
      coder := new McuDecoder(rest, scan, sent);
      BeginsInterval();
    }

    /** The MCU comes next in the stream: at the end of an interval a restart is due. */
    ghost predicate Comes(mcu: mcuBlocks)
      reads this`k, this`n
    {
      if restartInterval > 0 && n == restartInterval then k + 1 < |segs| && |segs| == |ivs| &&
        HasMcu(ivs[k + 1], 0, mcu)
      else k < |ivs| && HasMcu(ivs[k], n, mcu)
    }

    lemma IntervalIsGood(mcu: mcuBlocks)
      requires InStep() && k < |ivs| && HasMcu(ivs[k], n, mcu)
      ensures GoodMcus(scan, ivs[k]) && coder.sent == Sent(scan, ivs[k]) && Follows(ivs[k][..n])
    {
      hide Inside, Run, ScanDecisions, GoodMcus, SegmentsFrom, RestartDecoder.Follows;
      assert SegmentHolds(scan, segs[k], ivs[k]);
    }

    /** The next MCU of the interval. */
    method GetMcu(priors: mcuBlocks, ghost mcu: mcuBlocks, ghost f: bool) returns (out: mcuBlocks)
      requires coder.Predictions() && coder.Coding() && coder.scan == scan && GoodOrder(scan.naturalOrder)
      requires |priors| == |mcu| == |scan.membership| && forall i :: 0 <= i < |mcu| ==> SmallBlock(mcu[i])
      requires f ==> k < |ivs| && HasMcu(ivs[k], n, mcu) && GoodMcus(scan, ivs[k]) && AllReady(scan, priors, mcu)
      requires f ==> coder.sent == Sent(scan, ivs[k]) && Follows(ivs[k][..n])
      modifies coder`log, coder`lastDc, coder`dcContext, coder`failed, coder.coder, coder.coder.bins
      ensures coder.Predictions() && coder.Coding() && |out| == |priors|
      ensures f ==> Follows(ivs[k][..n + 1]) && (!coder.failed ==> AllReceived(scan, priors, mcu, out))
    {
      hide McuDecoder.Coding, McuDecisions, McuFits, AfterMcu, AllReady, AllReceived, SmallBlock, GoodOrder,
        ScanDecisions,
        AfterScan, ScanFits, DcFits;
      if f {
        ScanPrefix(scan, NoPredictions(scan), ivs[k], n + 1);
        ScanNext(scan, NoPredictions(scan), ivs[k], n);
        assert !coder.failed ==> coder.Follows(McuDecisions(scan, coder.Preds(), mcu));
      }
      out := coder.DecodeMcu(priors, mcu);
    }

    /** decode_mcu, after any restart. */
    method NextMcu(priors: mcuBlocks, ghost mcu: mcuBlocks, ghost f: bool) returns (out: mcuBlocks)
      requires Valid() && !lost && (restartInterval > 0 ==> restartsToGo > 0)
      requires |priors| == |mcu| == |scan.membership| && forall i :: 0 <= i < |mcu| ==> SmallBlock(mcu[i])
      requires f ==> InStep() && k < |ivs| && HasMcu(ivs[k], n, mcu) && AllReady(scan, priors, mcu)
      modifies this`restartsToGo, this`n, coder`log, coder`lastDc, coder`dcContext, coder`failed,
        coder.coder, coder.coder.bins
      ensures Valid() && |out| == |priors|
      ensures f ==> InStep() && n == old(n) + 1 && (!coder.failed ==> AllReceived(scan, priors, mcu, out))
    {
      hide McuDecoder.Coding, SmallBlock, GoodOrder, EndsProperly, AllReady, AllReceived, SegmentsHold, SegmentsFrom,
        GoodMcus,
        RestartDecoder.Follows;
      if f {
        IntervalIsGood(mcu);
      }
      out := GetMcu(priors, mcu, f);
      if restartInterval > 0 {
        restartsToGo := restartsToGo - 1;
      }
      if f {
        n := n + 1;
      }
    }

    /** decode_mcu.  The blocks are received unless a DC difference of the interval has
        been too large; in the next interval they are received again. */
    method DecodeMcu(priors: mcuBlocks, ghost mcu: mcuBlocks) returns (out: mcuBlocks)
      requires Valid() && |priors| == |mcu| == |scan.membership| && forall i :: 0 <= i < |mcu| ==> SmallBlock(mcu[i])
      modifies this`coder, this`restartsToGo, this`nextRestartNum, this`lost, this`k, this`n,
        coder`log, coder`lastDc, coder`dcContext, coder`failed, coder.coder, coder.coder.bins
      ensures Valid() && |out| == |priors|
      ensures coder == old(coder) || (fresh(coder) && fresh(coder.coder) && fresh(coder.coder.bins))
      ensures old(InStep()) && old(Comes(mcu)) && AllReady(scan, priors, mcu) ==>
        InStep() && (if restartInterval > 0 && old(n) == restartInterval then k == old(k) + 1 && n == 1
          else k == old(k) && n == old(n) + 1)
      ensures old(InStep()) && old(Comes(mcu)) && AllReady(scan, priors, mcu) && !coder.failed ==>
        AllReceived(scan, priors, mcu, out)
    {
      hide McuDecoder.Coding, SmallBlock, GoodOrder, EndsProperly, AllReady, AllReceived, SegmentsHold, SegmentsFrom,
        RestartDecoder.Follows;
      ghost var f := InStep() && Comes(mcu) && AllReady(scan, priors, mcu);
      if !lost && restartInterval > 0 && restartsToGo == 0 {
        ProcessRestart();
      }
      if lost {
        return priors;
      }
      out := NextMcu(priors, mcu, f);
    }
  }

  // ----- whole scans

  /** No DC difference of the interval is too large up to MCU m: it can be received. */
  ghost predicate Arrives(s: Scan, r: nat, mcus: seq<mcuBlocks>, m: nat)
    requires GoodScan(s) && m < |mcus|
  {
    var iv := Divide(r, mcus[..m + 1]).current;
    GoodMcus(s, iv) && ScanFits(s, NoPredictions(s), iv)
  }

  /** Encode a scan in restart intervals of r MCUs; 0 is for no restarts. */
  method EncodeScan(s: Scan, r: nat, mcus: seq<mcuBlocks>) returns (sent: seq<byte>, ghost segs: seq<seq<byte>>)
    requires GoodScan(s) && GoodMcus(s, mcus)
    ensures segs != [] && SegmentsHold(s, segs, All(Divide(r, mcus)))
    ensures sent == Spliced(segs[..|segs| - 1]) + Stuff(segs[|segs| - 1])
  {
    hide RestartEncoder.Valid, SegmentsHold, Spliced, Stuff, Divide, SmallBlock;
    var e := new RestartEncoder(s, r);
    NothingDivided(r, mcus);
    for m := 0 to |mcus|
      invariant e.Valid() && fresh(e) && fresh(e.coder) && fresh(e.coder.coder) && fresh(e.coder.coder.bins)
      invariant e.scan == s && e.restartInterval == r && e.parts == Divide(r, mcus[..m])
    {
      DivideNext(r, mcus, m);
      e.EncodeMcu(mcus[m]);
    }
    assert mcus[..|mcus|] == mcus;
    sent, segs := e.FinishPass();
  }

  /** After m MCUs the decoder is where the division into intervals says. */
  ghost predicate IsAt(d: RestartDecoder, x: Intervals<mcuBlocks>)
    reads d
  {
    d.k == |x.done| && d.n == |x.current|
  }

  /** The next MCU of the scan is the next of the stream. */
  lemma NextComes(d: RestartDecoder, mcus: seq<mcuBlocks>, m: nat)
    requires m < |mcus| && d.ivs == All(Divide(d.restartInterval, mcus)) && |d.segs| == |d.ivs|
    requires IsAt(d, Divide(d.restartInterval, mcus[..m]))
    ensures d.Comes(mcus[m])
  {
    hide Divide, All, HasMcu;
    NextOfDivision(d.restartInterval, mcus, m);
  }

  /** What an interval says of the decoder's error. */
  lemma FailsWith(d: RestartDecoder, mcus: seq<mcuBlocks>, m: nat)
    requires m < |mcus| && d.InStep() && d.ivs == All(Divide(d.restartInterval, mcus)) && |d.ivs| == |d.segs|
    requires IsAt(d, Divide(d.restartInterval, mcus[..m + 1]))
    ensures GoodScan(d.scan) && d.coder.failed == !Arrives(d.scan, d.restartInterval, mcus, m)
  {
    hide Divide, SegmentsHold, SegmentsFrom, ScanFits, ScanDecisions, AfterScan;
    var r := d.restartInterval;
    DivideInOrder(r, mcus, m + 1);
    CurrentIs(Divide(r, mcus[..m + 1]), Divide(r, mcus));
  }

  /** What has been received of the first MCUs. */
  ghost predicate ReceivedOf(s: Scan, r: nat, mcus: seq<mcuBlocks>, priors: seq<mcuBlocks>, out: seq<mcuBlocks>, n: nat)
    requires GoodScan(s) && |priors| == |mcus| && n <= |mcus| && n <= |out|
  {
    forall m :: 0 <= m < n && Arrives(s, r, mcus, m) ==>
      |priors[m]| == |mcus[m]| == |out[m]| && AllReceived(s, priors[m], mcus[m], out[m])
  }

  lemma OneMoreReceived(s: Scan, r: nat, mcus: seq<mcuBlocks>, priors: seq<mcuBlocks>, out: seq<mcuBlocks>,
      blocks: mcuBlocks)
    requires GoodScan(s) && |priors| == |mcus| && |out| < |mcus| && ReceivedOf(s, r, mcus, priors, out, |out|)
    requires |priors[|out|]| == |mcus[|out|]| == |blocks|
    requires Arrives(s, r, mcus, |out|) ==> AllReceived(s, priors[|out|], mcus[|out|], blocks)
    ensures ReceivedOf(s, r, mcus, priors, out + [blocks], |out| + 1)
  {
    hide Arrives, AllReceived;
  }

  /** Decode a scan over the blocks of `priors`; ok if no error has been met. */
  method DecodeScan(s: Scan, r: nat, input: seq<byte>, priors: seq<mcuBlocks>, ghost mcus: seq<mcuBlocks>,
      ghost segs: seq<seq<byte>>, ghost marker: byte) returns (ok: bool, out: seq<mcuBlocks>)
    requires GoodScan(s) && GoodMcus(s, mcus) && GoodOrder(s.naturalOrder) && GoodPriors(s, priors, mcus)
    requires segs != [] && SegmentsHold(s, segs, All(Divide(r, mcus)))
    requires marker != 0 && marker != 0xFF && !IsRestart(marker) && input == SegmentsFrom(segs, 0, marker)
    ensures |out| == |mcus| && ReceivedOf(s, r, mcus, priors, out, |mcus|)
    ensures ok <==> forall m :: 0 <= m < |mcus| ==> Arrives(s, r, mcus, m)
  {
    hide RestartDecoder.Valid, RestartDecoder.InStep, RestartDecoder.Comes, SegmentsHold, SegmentsFrom, Divide,
      SmallBlock, GoodOrder,
      AllReady, AllReceived, ReceivedOf, Arrives, All, AddToInterval;
    ghost var ivs := All(Divide(r, mcus));
    SameCount(s, segs, ivs);
    var d := new RestartDecoder(s, r, segs, ivs, marker, input);
    NothingDivided(r, mcus);
    NothingReceived(s, r, mcus, priors);
    ok, out := true, [];
    for m := 0 to |priors|
      invariant d.Valid() && d.InStep() && fresh(d) && fresh(d.coder) && fresh(d.coder.coder)
      invariant fresh(d.coder.coder.bins)
      invariant d.scan == s && d.restartInterval == r && d.segs == segs && d.ivs == ivs
      invariant IsAt(d, Divide(r, mcus[..m])) && |out| == m && ReceivedOf(s, r, mcus, priors, out, m)
      invariant ok <==> forall i :: 0 <= i < m ==> Arrives(s, r, mcus, i)
    {
      NextComes(d, mcus, m);
      DivideNext(r, mcus, m);
      AddedLast(r, Divide(r, mcus[..m]), mcus[m]);
      var blocks := d.DecodeMcu(priors[m], mcus[m]);
      FailsWith(d, mcus, m);
      OneMoreReceived(s, r, mcus, priors, out, blocks);
      ok := ok && !d.coder.failed;
      out := out + [blocks];
    }
  }

  lemma SameCount(s: Scan, segs: seq<seq<byte>>, ivs: seq<seq<mcuBlocks>>)
    requires SegmentsHold(s, segs, ivs)
    ensures |segs| == |ivs|
  {
  }

  lemma NothingReceived(s: Scan, r: nat, mcus: seq<mcuBlocks>, priors: seq<mcuBlocks>)
    requires GoodScan(s) && |priors| == |mcus|
    ensures ReceivedOf(s, r, mcus, priors, [], 0)
  {
  }

  /** A scan with restart markers, of any mode: an MCU is received unless a DC difference
      before it in its own interval, or in it, is too large. */
  method TransmitScan(s: Scan, r: nat, mcus: seq<mcuBlocks>, priors: seq<mcuBlocks>, marker: byte)
    returns (ok: bool, out: seq<mcuBlocks>)
    requires GoodScan(s) && GoodMcus(s, mcus) && GoodOrder(s.naturalOrder) && GoodPriors(s, priors, mcus)
    requires marker != 0 && marker != 0xFF && !IsRestart(marker)
    ensures |out| == |mcus| && ReceivedOf(s, r, mcus, priors, out, |mcus|)
    ensures ok <==> forall m :: 0 <= m < |mcus| ==> Arrives(s, r, mcus, m)
  {
    hide GoodScan, GoodMcus, GoodOrder, GoodPriors, SegmentsHold, Spliced, SegmentsFrom, Divide, ReceivedOf, Arrives,
      Stuff;
    var sent, segs := EncodeScan(s, r, mcus);
    OutputThenMarker(segs, sent, marker);
    ok, out := DecodeScan(s, r, sent + [0xFF, marker], priors, mcus, segs, marker);
  }
}
