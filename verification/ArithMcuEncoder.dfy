/**
 The arithmetic MCU encoder: walks the coefficients of each block and hands their
 binary decisions to the arithmetic encoder.
 */
module ArithMcuEncoder {
  import opened Bytes
  import opened IntervalCoder
  import opened CoefficientModel
  import opened ScanSetup
  import opened ArithEncoder
  import opened ArithRoundTrip
  import opened Nonlinear

  class McuEncoder {
    const coder: Encoder
    const scan: Scan
    var lastDc: seq<int>       // last DC value of each component
    var dcContext: seq<nat>    // conditioning index of each component
    ghost const start: Coder
    ghost var log: seq<Decision>  // everything coded since the start of the scan

    ghost predicate Predictions()
      reads this`lastDc, this`dcContext
    {
      && GoodScan(scan) && |lastDc| == |dcContext| == |scan.components|
      && forall ci :: 0 <= ci < |dcContext| ==> GoodPrediction(Prediction(lastDc[ci], dcContext[ci]))
    }

    /** The coder has coded exactly the logged decisions. */
    ghost predicate Coding()
      reads this`log, coder, coder.bins
    {
      && coder.Valid() && coder.bins.Length == BIN_COUNT
      && Ready(start) && |start.bins| == BIN_COUNT && InBins(log, BIN_COUNT)
      && coder.State() == Run(start, log)
    }

    ghost predicate Valid()
      reads this, coder, coder.bins
    {
      Predictions() && Coding()
    }

    constructor (scan: Scan)
      requires GoodScan(scan)
      ensures Valid() && fresh(coder) && fresh(coder.bins) && this.scan == scan
      ensures log == [] && start == InitialCoder()
      ensures lastDc == seq(|scan.components|, _ => 0) && dcContext == seq(|scan.components|, _ => 0)
    {
      var e := new Encoder(BIN_COUNT);
      e.bins[FIXED_BIN] := 113;
      coder := e;
      this.scan := scan;
      lastDc := seq(|scan.components|, _ => 0);
      dcContext := seq(|scan.components|, _ => 0);
      start, log := InitialCoder(), [];
    }

    /** Code one decision. */
    method Put(st: nat, bit: bool)
      requires Coding() && st < BIN_COUNT
      modifies this`log, coder, coder.bins
      ensures Coding() && log == old(log) + [Decision(st, bit)]
    {
      hide Encoder.Valid, Encoder.State, Code, Run;
      RunSnoc(start, log, Decision(st, bit));
      coder.ArithEncode(st, bit);
      log := log + [Decision(st, bit)];
    }

    /** Figure F.8 from category m0 on: returns the last bin used and the category. */
    method PutRungs(st0: nat, m0: nat, v: nat) returns (st: nat, m: nat)
      requires Coding() && 1 <= m0 <= v && LastRung(st0, m0, v) < BIN_COUNT
      modifies this`log, coder, coder.bins
      ensures Coding() && log == old(log) + Rungs(st0, m0, v)
      ensures st == LastRung(st0, m0, v) && m == Category(m0, v)
    {
      hide McuEncoder.Coding, Over;
      st, m := st0, m0;
      var v2 := Over(v, m0);
      v2 := v2 / 2;
      NestedHalf(v, m);
      RungsStart(st, m, v);
      while v2 != 0
        invariant Coding() && 1 <= m && v2 == Over(v, 2 * m) && (v2 != 0 <==> 2 * m <= v)
        invariant LastRung(st, m, v) == LastRung(st0, m0, v) && Category(m, v) == Category(m0, v)
        invariant st <= LastRung(st, m, v)
        invariant log + Rungs(st, m, v) == old(log) + Rungs(st0, m0, v)
        decreases v2
      {
        RungsStart(st, m, v);
        RungsStart(st + 1, 2 * m, v);
        ghost var before := log;
        Put(st, true);
        m := 2 * m;
        st := st + 1;
        assert before + ([Decision(st - 1, true)] + Rungs(st, m, v)) == log + Rungs(st, m, v);
        v2 := v2 / 2;
        NestedHalf(v, m);
      }
      Put(st, false);
    }

    /** Figure F.9: the bits of v below m. */
    method PutPattern(st: nat, m0: nat, v: nat)
      requires Coding() && st < BIN_COUNT
      modifies this`log, coder, coder.bins
      ensures Coding() && log == old(log) + Pattern(st, m0, v)
    {
      hide McuEncoder.Coding, BitOf;
      var m: nat := m0 / 2;
      PatternHalf(st, m0, v);
      while m != 0
        invariant Coding() && log + Pattern(st, 2 * m, v) == old(log) + Pattern(st, m0, v)
      {
        PatternHalf(st, m, v);
        ghost var before := log;
        var bit := BitOf(v, m);
        Put(st, bit);
        m := m / 2;
        assert before + ([Decision(st, bit)] + Pattern(st, 2 * m, v)) == log + Pattern(st, 2 * m, v);
      }
      assert log + [] == log;
    }

    method PutLadder(st0: nat, m0: nat, v: nat) returns (m: nat)
      requires Coding() && 1 <= m0 <= v && LastRung(st0, m0, v) + 14 < BIN_COUNT
      modifies this`log, coder, coder.bins
      ensures Coding() && log == old(log) + Ladder(st0, m0, v) && m == Category(m0, v)
    {
      hide McuEncoder.Coding, Rungs, Pattern, LastRung, Category;
      var st;
      st, m := PutRungs(st0, m0, v);
      PutPattern(st + 14, m, v);
    }

    /** Figures F.8 and F.9 for a DC difference; returns its magnitude category. */
    method PutDcMagnitude(tbl: nat, st: nat, v: nat) returns (m: nat)
      requires Coding() && tbl < NUM_ARITH_TBLS && st < BIN_COUNT && v < 0x10000
      modifies this`log, coder, coder.bins
      ensures Coding() && log == old(log) + DcMagnitude(tbl, st, v)
      ensures m == if v == 0 then 0 else Category(1, v)
    {
      hide McuEncoder.Coding, Ladder, Category;
      m := 0;
      if v != 0 {
        DcLadderFits(tbl, v);
        Put(st, true);
        m := PutLadder(DcBin(tbl, 20), 1, v);
      } else {
        Put(st, false);
      }
    }

    /** Code the DC value of component ci as a difference (figures F.4 to F.9). */
    method PutDc(ci: nat, value: int)
      requires Valid() && ci < |scan.components| && Abs(value - lastDc[ci]) < 0x10000
      modifies this`log, this`lastDc, this`dcContext, coder, coder.bins
      ensures Valid()
      ensures var tbl := scan.components[ci].dcTbl; var d := Prediction(old(lastDc)[ci], old(dcContext)[ci]);
        && log == old(log) + DcDecisions(tbl, d, value)
        && lastDc == old(lastDc)[ci := value]
        && dcContext == old(dcContext)[ci := NextContext(value - d.last, scan.dcCond[tbl])]
    {
      hide McuEncoder.Coding, DcMagnitude, Category, Pow2;
      var tbl := scan.components[ci].dcTbl;
      var st := DcBin(tbl, dcContext[ci]);
      var v := value - lastDc[ci];
      if v == 0 {
        Put(st, false);
        dcContext := dcContext[ci := 0];
      } else {
        lastDc := lastDc[ci := value];
        Put(st, true);
        var context;
        if v > 0 {
          Put(st + 1, false);
          st := st + 2;
          context := 4;
        } else {
          v := -v;
          Put(st + 1, true);
          st := st + 3;
          context := 8;
        }
        var m := PutDcMagnitude(tbl, st, v - 1);
        if m < Pow2(scan.dcCond[tbl].lower) / 2 {
          context := 0;
        } else if m > Pow2(scan.dcCond[tbl].upper) / 2 {
          context := context + 8;
        }
        dcContext := dcContext[ci := context];
      }
    }

    /** Figures F.8 and F.9 for an AC coefficient. */
    method PutAcMagnitude(st: nat, x: nat, v: nat)
      requires Coding() && st < BIN_COUNT && v < 0x8000 && x + 14 + 13 < BIN_COUNT
      modifies this`log, coder, coder.bins
      ensures Coding() && log == old(log) + AcMagnitude(st, x, v)
    {
      hide McuEncoder.Coding, Ladder, Category;
      if v != 0 {
        Put(st, true);
        if v / 2 != 0 {
          AcLadderFits(x, v);
          Put(st, true);
          var m := PutLadder(x, 2, v);
        } else {
          Put(st, false);
        }
      } else {
        Put(st, false);
      }
    }

    /** The end-of-block index after the point transform. */
    method FindEnd(b: block, se: nat, al: nat) returns (ke: nat)
      requires GoodScan(scan) && se < 64
      ensures ke == LastNonzero(Transform(Zigzag(b, scan.naturalOrder), al), se)
    {
      ghost var w := Transform(Zigzag(b, scan.naturalOrder), al);
      ke := se;
      while ke > 0 && ShiftRight(Abs(b[scan.naturalOrder[ke]]), al) == 0
        invariant ke <= se && LastNonzero(w, ke) == LastNonzero(w, se)
      {
        TransformedSize(b[scan.naturalOrder[ke]], al);
        ke := ke - 1;
      }
      TransformedSize(b[scan.naturalOrder[ke]], al);
    }

    /** Code the decisions "zero" up to the next nonzero coefficient. */
    method PutZeroRun(tbl: nat, b: block, k0: nat, ghost ke: nat, ghost se: nat, al: nat) returns (k: nat)
      requires Coding() && |scan.acK| == NUM_ARITH_TBLS && tbl < NUM_ARITH_TBLS && 1 <= k0 <= ke <= se < 64
      requires Transformed(b[scan.naturalOrder[ke]], al) != 0
      modifies this`log, coder, coder.bins
      ensures Coding() && k0 <= k <= ke && Transformed(b[scan.naturalOrder[k]], al) != 0
      ensures var w := Transform(Zigzag(b, scan.naturalOrder), al);
        log + AcDecisions(tbl, scan.acK[tbl], w, k, ke, se, true)
          == old(log) + AcDecisions(tbl, scan.acK[tbl], w, k0, ke, se, true)
    {
      hide McuEncoder.Coding, AcDecisions, Transform, Transformed, Zigzag, ShiftRight, AcBin;
      ghost var w, kx := Transform(Zigzag(b, scan.naturalOrder), al), scan.acK[tbl];
      TransformAt(b, scan.naturalOrder, al);
      k := k0;
      var st := AcBase(tbl, k);
      TransformedSize(b[scan.naturalOrder[k]], al);
      while ShiftRight(Abs(b[scan.naturalOrder[k]]), al) == 0
        invariant Coding() && k0 <= k <= ke && st == AcBase(tbl, k)
        invariant Abs(w[k]) == ShiftRight(Abs(b[scan.naturalOrder[k]]), al)
        invariant log + AcDecisions(tbl, kx, w, k, ke, se, true) == old(log) + AcDecisions(tbl, kx, w, k0, ke, se, true)
        decreases ke - k
      {
        AcBinsFit(tbl, scan.acK[tbl], k);
        ZeroDecision(tbl, kx, w, k, ke, se, log);
        Put(st + 1, false);
        st := st + 3;
        k := k + 1;
        TransformedSize(b[scan.naturalOrder[k]], al);
      }
    }

    /** Code a coefficient that is not zero after the point transform. */
    method PutNonzero(tbl: nat, k: nat, c: int, al: nat)
      requires Coding() && |scan.acK| == NUM_ARITH_TBLS && tbl < NUM_ARITH_TBLS && 1 <= k < 64
      requires Transformed(c, al) != 0 && Abs(c) <= 0x8000
      modifies this`log, coder, coder.bins
      ensures Coding()
      ensures log == old(log) + [Decision(AcBase(tbl, k) + 1, true)] + [Decision(FIXED_BIN, Transformed(c, al) < 0)]
        + AcMagnitude(AcBase(tbl, k) + 2, Threshold(tbl, scan.acK[tbl], k), Abs(Transformed(c, al)) - 1)
    {
      hide McuEncoder.Coding, AcMagnitude, Transformed, ShiftRight, AcBin;
      AcBinsFit(tbl, scan.acK[tbl], k);
      TransformedSize(c, al);
      Put(AcBase(tbl, k) + 1, true);
      Put(FIXED_BIN, c < 0);
      PutAcMagnitude(AcBase(tbl, k) + 2, Threshold(tbl, scan.acK[tbl], k), ShiftRight(Abs(c), al) - 1);
    }

    /** Code the coefficients ss..se of a block, divided by 2^al (figure F.5). */
    method PutAc(tbl: nat, b: block, ss: nat, se: nat, al: nat)
      requires Coding() && GoodScan(scan) && tbl < NUM_ARITH_TBLS && 1 <= ss <= se < 64
      requires forall i :: 0 <= i < 64 ==> Abs(b[i]) <= 0x8000
      modifies this`log, coder, coder.bins
      ensures Coding()
      ensures var w := Transform(Zigzag(b, scan.naturalOrder), al);
        log == old(log) + AcDecisions(tbl, scan.acK[tbl], w, ss, LastNonzero(w, se), se, false)
    {
      hide McuEncoder.Coding, AcMagnitude, LastNonzero, AcDecisions, Transform, Transformed, Zigzag, AcBin;
      ghost var w, kx := Transform(Zigzag(b, scan.naturalOrder), al), scan.acK[tbl];
      TransformAt(b, scan.naturalOrder, al);
      var ke := FindEnd(b, se, al);
      var k := ss;
      ghost var goal := old(log) + AcDecisions(tbl, kx, w, ss, ke, se, false);
      while k <= ke
        invariant Coding() && ss <= k <= se + 1
        invariant log + AcDecisions(tbl, kx, w, k, ke, se, false) == goal
      {
        AcBinsFit(tbl, scan.acK[tbl], k);
        EndDecision(tbl, kx, w, k, ke, se, log);
        Put(AcBase(tbl, k), false);
        k := PutZeroRun(tbl, b, k, ke, se, al);
        NonzeroDecisions(tbl, kx, w, k, ke, se, log);
        PutNonzero(tbl, k, b[scan.naturalOrder[k]], al);
        k := k + 1;
      }
      FinalDecision(tbl, kx, w, k, ke, se);
      AcBinsFit(tbl, scan.acK[tbl], k);
      if k <= se {
        Put(AcBase(tbl, k), true);
      } else {
        assert log + [] == log;
      }
    }

    /** Code one decision of a refinement scan for coefficient k; returns whether it
        ends the run (a coefficient that is not zero at this stage). */
    method PutRefinement(tbl: nat, k: nat, c: int, al: nat) returns (done: bool)
      requires Coding() && tbl < NUM_ARITH_TBLS && 1 <= k < 64
      modifies this`log, coder, coder.bins
      ensures Coding() && done == (ShiftRight(Abs(c), al) != 0)
      ensures log == old(log) + CoefficientRefinement(tbl, k, c, al)
    {
      hide McuEncoder.Coding, ShiftRight, AcBin;
      AcBinsFit(tbl, 0, k);
      var st := AcBase(tbl, k);
      var v := ShiftRight(Abs(c), al);
      if v != 0 {
        if v / 2 != 0 {
          Put(st + 2, v % 2 == 1);   // previously nonzero
        } else {
          Put(st + 1, true);         // newly nonzero
          Put(FIXED_BIN, c < 0);
        }
        done := true;
      } else {
        Put(st + 1, false);
        done := false;
      }
    }

    /** Code bit al of the coefficients ss..se of a block (figure G.10). */
    method PutAcRefine(tbl: nat, b: block, ss: nat, se: nat, ah: nat, al: nat)
      requires Coding() && GoodScan(scan) && tbl < NUM_ARITH_TBLS && 1 <= ss <= se < 64
      modifies this`log, coder, coder.bins
      ensures Coding()
      ensures var z := Zigzag(b, scan.naturalOrder); var ke := LastNonzero(Transform(z, al), se);
        log == old(log) + RefineDecisions(tbl, z, al, ss, ke, LastNonzero(Transform(z, ah), ke), se, false)
    {
      hide McuEncoder.Coding, LastNonzero, RefineDecisions, CoefficientRefinement, Transform, Transformed, Zigzag,
        AcBin;
      ghost var z := Zigzag(b, scan.naturalOrder);
      TransformAt(b, scan.naturalOrder, al);
      var ke := FindEnd(b, se, al);
      TransformedSize(b[scan.naturalOrder[ke]], al);
      var kex := FindEnd(b, ke, ah);
      var k := ss;
      ghost var goal := old(log) + RefineDecisions(tbl, z, al, ss, ke, kex, se, false);
      while k <= ke
        invariant Coding() && ss <= k <= se + 1
        invariant log + RefineDecisions(tbl, z, al, k, ke, kex, se, false) == goal
      {
        AcBinsFit(tbl, 0, k);
        RefineEnd(tbl, z, al, k, ke, kex, se, log);
        if k > kex {
          Put(AcBase(tbl, k), false);
        }
        RefineRun(tbl, z, al, k, ke, kex, se, log);
        ZigzagAt(b, scan.naturalOrder, k);
        var done := PutRefinement(tbl, k, b[scan.naturalOrder[k]], al);
        k := k + 1;
        while !done
          invariant Coding() && ss < k <= ke + 1
          invariant !done ==> k <= ke
          invariant log + RefineDecisions(tbl, z, al, k, ke, kex, se, !done) == goal
          decreases ke - k + 1, !done
        {
          RefineRun(tbl, z, al, k, ke, kex, se, log);
          ZigzagAt(b, scan.naturalOrder, k);
          done := PutRefinement(tbl, k, b[scan.naturalOrder[k]], al);
          k := k + 1;
        }
      }
      RefineFinal(tbl, z, al, k, ke, kex, se);
      AcBinsFit(tbl, 0, k);
      if k <= se {
        Put(AcBase(tbl, k), true);
      } else {
        assert log + [] == log;
      }
    }

    ghost function Preds(): (ps: seq<Prediction>)
      requires |lastDc| == |dcContext|
      reads this`lastDc, this`dcContext
      ensures |ps| == |lastDc|
    {
      PairUp(lastDc, dcContext)
    }

    /** Code one block of component ci the way the scan asks for. */
    method PutBlock(ci: nat, b: block)
      requires Valid() && ci < |scan.components| && SmallBlock(b)
      requires SendsDc(scan) ==> -0x8000 <= lastDc[ci] < 0x8000
      modifies this`log, this`lastDc, this`dcContext, coder, coder.bins
      ensures Valid() && Preds() == AfterBlock(scan, old(Preds()), ci, b)
      ensures log == old(log) + BlockDecisions(scan, scan.components[ci], old(Preds())[ci], b)
      ensures SendsDc(scan) ==> lastDc == old(lastDc)[ci := DcValue(scan, b)]
      ensures !SendsDc(scan) ==> lastDc == old(lastDc)
    {
      hide McuEncoder.Coding, AcDecisions, RefineDecisions, DcDecisions, LastNonzero, Transform, Zigzag, NextContext;
      var c := scan.components[ci];
      match ModeOf(scan)
      case Sequential =>
        PutDc(ci, b[0]);
        PutAc(c.acTbl, b, 1, 63, 0);
      case DcFirst =>
        DcValueFits(scan, b);
        PutDc(ci, b[0] / Pow2(scan.Al));
      case AcFirst =>
        PutAc(c.acTbl, b, scan.Ss, scan.Se, scan.Al);
      case DcRefine =>
        Put(FIXED_BIN, b[0] / Pow2(scan.Al) % 2 == 1);
      case AcRefine =>
        PutAcRefine(c.acTbl, b, scan.Ss, scan.Se, scan.Ah, scan.Al);
    }

    /** Code all blocks of an MCU. */
    method EncodeMcu(mcu: seq<block>)
      requires Valid() && |mcu| == |scan.membership| && forall i :: 0 <= i < |mcu| ==> SmallBlock(mcu[i])
      requires SendsDc(scan) ==> forall ci :: 0 <= ci < |lastDc| ==> -0x8000 <= lastDc[ci] < 0x8000
      modifies this`log, this`lastDc, this`dcContext, coder, coder.bins
      ensures Valid() && Preds() == AfterMcu(scan, old(Preds()), mcu)
      ensures log == old(log) + McuDecisions(scan, old(Preds()), mcu)
      ensures SendsDc(scan) ==> forall ci :: 0 <= ci < |lastDc| ==> -0x8000 <= lastDc[ci] < 0x8000
    {
      hide McuEncoder.Coding, BlockDecisions, AfterBlock, SmallBlock;
      ghost var ps := Preds();
      for blkn := 0 to |mcu|
        invariant Valid() && Preds() == AfterMcu(scan, ps, mcu[..blkn])
        invariant log == old(log) + McuDecisions(scan, ps, mcu[..blkn])
        invariant SendsDc(scan) ==> forall ci :: 0 <= ci < |lastDc| ==> -0x8000 <= lastDc[ci] < 0x8000
      {
        assert mcu[..blkn + 1][..blkn] == mcu[..blkn];
        DcValueFits(scan, mcu[blkn]);
        PutBlock(scan.membership[blkn], mcu[blkn]);
      }
      assert mcu[..|mcu|] == mcu;
    }

    /** End the scan: the bytes written spell a code of everything logged. */
    method FinishPass() returns (bytes: seq<byte>, ghost p: seq<byte>)
      requires Coding()
      modifies coder
      ensures bytes == Stuff(p) && NoFinalZero(p)
      ensures InBins(log, |start.bins|) && Ready(start) && Inside(p, Run(start, log).iv)
    {
      hide Run, Spells, Inside, Terminator, NoFinalZero;
      ghost var iv := coder.Iv();
      coder.FinishPass();
      bytes, p := coder.out, coder.payload;
      TerminatorIsInside(p, iv);
    }
  }

  lemma FinalDecision(tbl: nat, kx: nat, w: zigzag, k: nat, ke: nat, se: nat)
    requires 1 <= k <= 64 && ke < k && ke <= se < 64
    ensures AcDecisions(tbl, kx, w, k, ke, se, false) == if k <= se then [Decision(AcBase(tbl, k), true)] else []
  {
  }

  lemma EndDecision(tbl: nat, kx: nat, w: zigzag, k: nat, ke: nat, se: nat, log: seq<Decision>)
    requires 1 <= k <= ke <= se < 64
    ensures log + AcDecisions(tbl, kx, w, k, ke, se, false)
      == log + [Decision(AcBase(tbl, k), false)] + AcDecisions(tbl, kx, w, k, ke, se, true)
  {
  }

  lemma ZeroDecision(tbl: nat, kx: nat, w: zigzag, k: nat, ke: nat, se: nat, log: seq<Decision>)
    requires 1 <= k <= ke <= se < 64 && w[k] == 0
    ensures log + AcDecisions(tbl, kx, w, k, ke, se, true)
      == log + [Decision(AcBase(tbl, k) + 1, false)] + AcDecisions(tbl, kx, w, k + 1, ke, se, true)
  {
    assert [] + [Decision(AcBase(tbl, k) + 1, false)] == [Decision(AcBase(tbl, k) + 1, false)];
  }

  lemma NonzeroDecisions(tbl: nat, kx: nat, w: zigzag, k: nat, ke: nat, se: nat, log: seq<Decision>)
    requires 1 <= k <= ke <= se < 64 && w[k] != 0
    ensures log + AcDecisions(tbl, kx, w, k, ke, se, true)
      == log + [Decision(AcBase(tbl, k) + 1, true)] + [Decision(FIXED_BIN, w[k] < 0)]
         + AcMagnitude(AcBase(tbl, k) + 2, Threshold(tbl, kx, k), Abs(w[k]) - 1)
         + AcDecisions(tbl, kx, w, k + 1, ke, se, false)
  {
    hide AcMagnitude;
  }

  lemma AcLadderFits(x: nat, v: nat)
    requires v < 0x8000
    ensures LastRung(x, 2, v) <= x + 13
  {
    assert 2 * Pow2(14) == 0x8000 by { Pow2Values(); }
    RungBound(x, 2, v, 13);
  }

  lemma DcLadderFits(tbl: nat, v: nat)
    requires tbl < NUM_ARITH_TBLS && v < 0x10000
    ensures LastRung(DcBin(tbl, 20), 1, v) + 14 <= DcBin(tbl, 49) < DcBin(tbl, DC_STAT_BINS)
    ensures v < 0x8000 ==> LastRung(DcBin(tbl, 20), 1, v) + 14 <= DcBin(tbl, 48)
    ensures LastRung(DcBin(tbl, 20), 1, v) < BIN_COUNT - 14
  {
    assert Pow2(16) == 0x10000 && Pow2(15) == 0x8000 by { Pow2Values(); }
    RungBound(DcBin(tbl, 20), 1, v, 15);
    if v < 0x8000 {
      RungBound(DcBin(tbl, 20), 1, v, 14);
    }
  }

  lemma PatternHalf(st: nat, m: nat, v: nat)
    ensures Pattern(st, 2 * (m / 2), v) == Pattern(st, m, v)
  {
    hide BitOf;
  }

  function Over(v: nat, m: nat): nat
    requires 1 <= m
  {
    v / m
  }

  lemma NestedHalf(v: nat, m: nat)
    requires 1 <= m
    ensures Over(v, m) / 2 == Over(v, 2 * m)
    ensures Over(v, 2 * m) != 0 <==> 2 * m <= v
  {
    NestedDivision(v, m, 2);
  }

  lemma RungsStart(st: nat, m: nat, v: nat)
    requires 1 <= m
    ensures st <= LastRung(st, m, v)
    decreases v - m
  {
    if 2 * m <= v {
      RungsStart(st + 1, 2 * m, v);
    }
  }
}
