/**
 The arithmetic MCU decoder: asks the arithmetic decoder for one decision after
 the other and rebuilds the coefficients.  It accepts every byte stream; what it
 promises beyond staying in its tables is for streams that agree with a list of
 coded decisions, `sent`, for as long as they agree.
 */
module ArithMcuDecoder {
  import opened Bytes
  import opened IntervalCoder
  import opened CoefficientModel
  import opened ScanSetup
  import opened ArithDecoder
  import opened Nonlinear

  predicate IsPow2(m: nat)
  {
    m == 1 || (m >= 2 && m % 2 == 0 && IsPow2(m / 2))
  }

  lemma Pow2Positive(m: nat)
    ensures IsPow2(m) ==> 1 <= m
    ensures m % 2 == 0 && IsPow2(m / 2) ==> IsPow2(m)
  {
  }

  /** x | h, for a power of two h. */
  function OrBit(x: nat, h: nat): nat
    requires 1 <= h
  {
    if x / h % 2 == 0 then x + h else x
  }

  /** The bits of v from the power of two m upwards. */
  function UpperBits(v: nat, m: nat): nat
    requires 1 <= m
  {
    v / m * m
  }

  /** Reading one more bit of v extends the known upper bits. */
  lemma NextBit(v: nat, h: nat)
    requires 1 <= h
    ensures UpperBits(v, h) == if BitOf(v, h) then OrBit(UpperBits(v, 2 * h), h) else UpperBits(v, 2 * h)
  {
    var q := v / (2 * h);
    NestedDivision(v, h, 2);
    assert v / h == 2 * q + v / h % 2;
    Reassociate(2, q, h);
    DivisionUnique(q * (2 * h), h, 2 * q, 0);
  }

  /** Doubling m n times gives 0x8000. */
  predicate DoublesTo(m: nat, n: nat)
  {
    m * Pow2(n) == 0x8000
  }

  class McuDecoder {
    const coder: Decoder
    const scan: Scan
    var lastDc: seq<int>
    var dcContext: seq<nat>
    var failed: bool              // the bit counter's error value, -1
    ghost const start: Coder
    ghost const sent: seq<Decision>
    ghost var log: seq<Decision>  // everything decoded since the start of the scan

    ghost predicate Predictions()
      reads this`lastDc, this`dcContext
    {
      && GoodScan(scan) && |lastDc| == |dcContext| == |scan.components|
      && forall ci :: 0 <= ci < |dcContext| ==> GoodPrediction(Prediction(lastDc[ci], dcContext[ci]))
    }

    ghost predicate Coding()
      reads this`log, coder, coder.bins
    {
      && coder.Valid() && coder.bins.Length == BIN_COUNT
      && Ready(start) && |start.bins| == BIN_COUNT && InBins(log, BIN_COUNT) && InBins(sent, BIN_COUNT)
      && coder.State() == Run(start, log)
      && Inside(coder.code, Run(start, sent).iv)
    }

    /** The next decisions of the stream are ds. */
    ghost predicate Follows(ds: seq<Decision>)
      reads this`log
    {
      log + ds <= sent
    }

    /** Any list that the stream's code lies inside of may be given as `sent`; the
        empty list always qualifies. */
    constructor (input: seq<byte>, scan: Scan, ghost sent: seq<Decision>)
      requires MarkerAhead(input) && GoodScan(scan) && InBins(sent, BIN_COUNT)
      requires Inside(Segment(input), Run(InitialCoder(), sent).iv)
      ensures Predictions() && Coding() && fresh(coder) && fresh(coder.bins) && coder.data == input
      ensures this.scan == scan && this.sent == sent && log == [] && start == InitialCoder() && !failed
      ensures lastDc == seq(|scan.components|, _ => 0) && dcContext == seq(|scan.components|, _ => 0)
    {
      var d := new Decoder(input, BIN_COUNT);
      d.bins[FIXED_BIN] := 113;
      coder := d;
      this.scan := scan;
      lastDc := seq(|scan.components|, _ => 0);
      dcContext := seq(|scan.components|, _ => 0);
      failed := false;
      start, this.sent, log := InitialCoder(), sent, [];
    }

    /** Decode one decision; rest is what is expected to come. */
    method Get(st: nat, ghost rest: seq<Decision>) returns (bit: bool)
      requires Coding() && st < BIN_COUNT
      modifies this`log, coder, coder.bins
      ensures Coding() && log == old(log) + [Decision(st, bit)]
      ensures old(Follows(rest)) && rest != [] && rest[0].ctx == st ==>
        rest[0] == Decision(st, bit) && Follows(rest[1..])
    {
      hide Decoder.Valid, Decoder.State, Code, Run, Inside, Decoded;
      ghost var before := log;
      if Follows(rest) && rest != [] && rest[0].ctx == st {
        DecodesNext(coder.code, start, sent, |log|);
        assert sent[..|log|] == log && sent[|log|] == rest[0];
      }
      bit := coder.ArithDecode(st);
      RunSnoc(start, log, Decision(st, bit));
      log := log + [Decision(st, bit)];
      if rest != [] && rest[0] == Decision(st, bit) {
        assert before + rest == before + [Decision(st, bit)] + rest[1..];
      }
    }

    /** One decision of figure F.23: is the magnitude v at least 2m? */
    method GetRung(st: nat, m: nat, ghost v: nat) returns (bit: bool)
      requires Coding() && st < BIN_COUNT && 1 <= m
      modifies this`log, coder, coder.bins
      ensures Coding()
      ensures old(Follows(Rungs(st, m, v))) ==> bit == (2 * m <= v)
      ensures old(Follows(Rungs(st, m, v))) && bit ==>
        Follows(Rungs(st + 1, 2 * m, v)) && log + Rungs(st + 1, 2 * m, v) == old(log) + Rungs(st, m, v)
      ensures old(Follows(Rungs(st, m, v))) && !bit ==> log == old(log) + Rungs(st, m, v)
    {
      hide McuDecoder.Coding, McuDecoder.Follows, Rungs, LastRung, Category;
      RungsNext(st, m, v, log);
      bit := Get(st, Rungs(st, m, v));
    }

    /** Figure F.23: read the magnitude category, doubling m from m0.  0x8000 is too
        large to be one.  v is the magnitude expected. */
    method GetRungs(st0: nat, m0: nat, ghost n: nat, ghost v: nat) returns (ok: bool, st: nat, m: nat)
      requires Coding() && IsPow2(m0) && m0 < 0x8000 && DoublesTo(m0, n) && st0 + n < BIN_COUNT
      modifies this`log, coder, coder.bins
      ensures Coding() && IsPow2(m) && st0 <= st < st0 + n
      ensures old(Follows(Rungs(st0, m0, v))) && m0 <= v ==> ok == (v < 0x8000)
      ensures old(Follows(Rungs(st0, m0, v))) && m0 <= v < 0x8000 ==>
        log == old(log) + Rungs(st0, m0, v) && st == LastRung(st0, m0, v) && m == Category(m0, v)
    {
      hide McuDecoder.Coding, McuDecoder.Follows, DoublesTo, Rungs, LastRung, Category, IsPow2;
      Pow2Positive(m0);
      RungRoom(m0, n);
      ok, st, m := true, st0, m0;
      ghost var f, all := Follows(Rungs(st0, m0, v)) && m0 <= v, log + Rungs(st0, m0, v);
      ghost var st1, m1 := LastRung(st0, m0, v), Category(m0, v);
      var bit := GetRung(st, m, v);
      while bit
        invariant Coding() && IsPow2(m) && 1 <= m && st0 <= st < st0 + n && 2 * m <= 0x8000
        invariant DoublesTo(m, st0 + n - st)
        invariant f ==> m <= v && bit == (2 * m <= v) && st1 == LastRung(st, m, v) && m1 == Category(m, v)
        invariant f && bit ==> Follows(Rungs(st + 1, 2 * m, v)) && log + Rungs(st + 1, 2 * m, v) == all
        invariant f && !bit ==> log == all
        decreases st0 + n - st
      {
        RungsNext(st, m, v, log);
        RungDouble(m, st0 + n - st);
        Pow2Positive(2 * m);
        m := 2 * m;
        if m == 0x8000 {
          ok := false;
          return;
        }
        st := st + 1;
        RungRoom(m, st0 + n - st);
        bit := GetRung(st, m, v);
      }
      RungsNext(st, m, v, log);
    }

    /** Figure F.24: read the bits below the power of two m0. */
    method GetPattern(st: nat, m0: nat, ghost v: nat) returns (x: nat)
      requires Coding() && st < BIN_COUNT && (m0 == 0 || IsPow2(m0))
      modifies this`log, coder, coder.bins
      ensures Coding()
      ensures old(Follows(Pattern(st, m0, v))) && m0 <= v < 2 * m0 ==> x == v && log == old(log) + Pattern(st, m0, v)
      ensures m0 == 0 ==> x == 0 && log == old(log)
    {
      hide McuDecoder.Coding, OrBit, UpperBits, Pattern, BitOf;
      ghost var f := Follows(Pattern(st, m0, v)) && m0 <= v < 2 * m0;
      x := m0;
      var m := m0;
      if f {
        UpperStart(v, m0);
        PatternNext(st, m, v, log);
      }
      m := m / 2;
      while m != 0
        invariant Coding() && (m == 0 || IsPow2(m))
        invariant m0 == 0 ==> m == 0 && x == 0 && log == old(log)
        invariant f && m != 0 ==> x == UpperBits(v, 2 * m) && Follows(Pattern(st, 2 * m, v))
        invariant f && m != 0 ==> log + Pattern(st, 2 * m, v) == old(log) + Pattern(st, m0, v)
        invariant f && m == 0 ==> x == v && log == old(log) + Pattern(st, m0, v)
      {
        NextBit(v, m);
        PatternNext(st, 2 * m, v, log);
        var bit := Get(st, Pattern(st, 2 * m, v));
        if bit {
          x := OrBit(x, m);
        }
        PatternNext(st, m, v, log);
        UpperEnd(v);
        assert log + [] == log;
        m := m / 2;
      }
    }

    method GetLadder(st0: nat, m0: nat, ghost n: nat, ghost v: nat) returns (ok: bool, m: nat, x: nat)
      requires Coding() && IsPow2(m0) && m0 < 0x8000 && DoublesTo(m0, n) && st0 + n + 14 < BIN_COUNT
      modifies this`log, coder, coder.bins
      ensures Coding()
      ensures old(Follows(Ladder(st0, m0, v))) && m0 <= v ==> ok == (v < 0x8000)
      ensures old(Follows(Ladder(st0, m0, v))) && m0 <= v < 0x8000 ==>
        log == old(log) + Ladder(st0, m0, v) && m == Category(m0, v) && x == v
    {
      hide McuDecoder.Coding, Rungs, Pattern, LastRung, Category, IsPow2, DoublesTo;
      Pow2Positive(m0);
      ghost var rungs, pattern := Rungs(st0, m0, v), Pattern(LastRung(st0, m0, v) + 14, Category(m0, v), v);
      SplitFollow(log, rungs, pattern, sent);
      var st;
      ok, st, m := GetRungs(st0, m0, n, v);
      x := 0;
      if ok {
        x := GetPattern(st + 14, m, v);
      }
    }

    /** Figures F.23 and F.24 for a DC difference: category m, magnitude x. */
    method GetDcMagnitude(tbl: nat, st: nat, ghost v: nat) returns (ok: bool, m: nat, x: nat)
      requires Coding() && tbl < NUM_ARITH_TBLS && st < BIN_COUNT
      modifies this`log, coder, coder.bins
      ensures Coding()
      ensures old(Follows(DcMagnitude(tbl, st, v))) ==> ok == (v < 0x8000)
      ensures old(Follows(DcMagnitude(tbl, st, v))) && v < 0x8000 ==>
        log == old(log) + DcMagnitude(tbl, st, v) && m == (if v == 0 then 0 else Category(1, v)) && x == v
    {
      hide McuDecoder.Coding, Ladder, Category, DoublesTo;
      LadderStarts();
      var bit := Get(st, DcMagnitude(tbl, st, v));
      if bit {
        ok, m, x := GetLadder(DcBin(tbl, 20), 1, 15, v);
      } else {
        ok, m, x := true, 0, 0;
      }
    }

    /** Decode the DC value of component ci; false on a magnitude overflow. */
    method GetDc(ci: nat, ghost value: int) returns (ok: bool)
      requires Predictions() && Coding() && ci < |scan.components|
      modifies this`log, this`lastDc, this`dcContext, coder, coder.bins
      ensures Predictions() && Coding()
      ensures var tbl := scan.components[ci].dcTbl; var d := old(Preds())[ci];
        old(Follows(DcDecisions(tbl, d, value))) ==> (
          && ok == (Abs(value - d.last) <= 0x8000)
          && (ok ==> (
            && log == old(log) + DcDecisions(tbl, d, value) && lastDc[ci] == value
            && Preds() == old(Preds())[ci := NextPrediction(d, value, scan.dcCond[tbl])])))
    {
      hide McuDecoder.Coding, McuDecoder.Follows, DcMagnitude, DcDecisions, Category, Pow2, PairUp;
      var tbl := scan.components[ci].dcTbl;
      var st := DcBin(tbl, dcContext[ci]);
      PairUpUpdate(lastDc, dcContext, ci, value, NextContext(value - lastDc[ci], scan.dcCond[tbl]));
      PairUpUpdate(lastDc, dcContext, ci, lastDc[ci], 0);
      ghost var diff := value - lastDc[ci];
      ghost var ds := DcDecisions(tbl, Prediction(lastDc[ci], dcContext[ci]), value);
      ghost var v: nat := if diff == 0 then 0 else Abs(diff) - 1;
      DcDecisionsFrom(tbl, Prediction(lastDc[ci], dcContext[ci]), value, log);
      var bit := Get(st, ds);
      if !bit {
        dcContext := dcContext[ci := 0];
        assert lastDc[ci := lastDc[ci]] == lastDc;
        return true;
      }
      var sign := Get(st + 1, ds[1..]);
      st := st + 2 + (if sign then 1 else 0);
      var m, x;
      ok, m, x := GetDcMagnitude(tbl, st, v);
      if !ok {
        return;
      }
      var signed := if sign then 4 else 0;
      var context :=
        if m < Pow2(scan.dcCond[tbl].lower) / 2 then 0
        else if m > Pow2(scan.dcCond[tbl].upper) / 2 then 12 + signed
        else 4 + signed;
      dcContext := dcContext[ci := context];
      x := x + 1;
      lastDc := lastDc[ci := lastDc[ci] + (if sign then -x else x)];
    }

    /** Magnitude of an AC coefficient, less one. */
    method GetAcMagnitude(st: nat, x: nat, ghost v: nat) returns (ok: bool, size: nat)
      requires Coding() && st < BIN_COUNT && x + 28 < BIN_COUNT
      modifies this`log, coder, coder.bins
      ensures Coding()
      ensures old(Follows(AcMagnitude(st, x, v))) ==> ok == (v < 0x8000)
      ensures old(Follows(AcMagnitude(st, x, v))) && ok ==> log == old(log) + AcMagnitude(st, x, v) && size == v
    {
      hide McuDecoder.Coding, Ladder, Category, DoublesTo, IsPow2;
      LadderStarts();
      ghost var ds := AcMagnitude(st, x, v);
      ok, size := true, 0;
      var bit := Get(st, ds);
      if bit {
        bit := Get(st, ds[1..]);
        if bit {
          var m;
          ok, m, size := GetLadder(x, 2, 14, v);
        } else {
          size := 1;
        }
      }
    }

    /** Sign and magnitude of a nonzero AC coefficient c. */
    method GetNonzero(tbl: nat, k: nat, ghost c: int) returns (ok: bool, value: int)
      requires Coding() && |scan.acK| == NUM_ARITH_TBLS && tbl < NUM_ARITH_TBLS && 1 <= k < 64 && c != 0
      modifies this`log, coder, coder.bins
      ensures Coding()
      ensures old(Follows(NonzeroValue(tbl, scan.acK[tbl], k, c))) ==> ok == (Abs(c) <= 0x8000)
      ensures old(Follows(NonzeroValue(tbl, scan.acK[tbl], k, c))) && ok ==>
        log == old(log) + NonzeroValue(tbl, scan.acK[tbl], k, c) && value == c
    {
      hide McuDecoder.Coding, AcMagnitude, AcBin;
      AcBinsFit(tbl, scan.acK[tbl], k);
      ghost var ds := NonzeroValue(tbl, scan.acK[tbl], k, c);
      var sign := Get(FIXED_BIN, ds);
      var size;
      ok, size := GetAcMagnitude(AcBase(tbl, k) + 2, Threshold(tbl, scan.acK[tbl], k), Abs(c) - 1);
      value := size + 1;
      if sign {
        value := -value;
      }
    }

    /** Read zeros until a coefficient is announced as nonzero, and return its
        position; false if none is left. */
    method GetZeroRun(tbl: nat, k0: nat, se: nat, ghost w: zigzag, ghost ke: nat) returns (ok: bool, k: nat)
      requires Coding() && tbl < NUM_ARITH_TBLS && 1 <= k0 <= se < 64 && |scan.acK| == NUM_ARITH_TBLS
      requires ke <= se
      modifies this`log, coder, coder.bins
      ensures Coding() && (ok ==> k0 <= k <= se)
      ensures k0 <= ke && w[ke] != 0 && old(Follows(AcDecisions(tbl, scan.acK[tbl], w, k0, ke, se, true))) ==>
        ok && k <= ke && w[k] != 0 && (forall j :: k0 <= j < k ==> w[j] == 0)
          && log + (NonzeroValue(tbl, scan.acK[tbl], k, w[k]) + AcDecisions(tbl, scan.acK[tbl], w, k + 1, ke, se,
          false))
          == old(log) + AcDecisions(tbl, scan.acK[tbl], w, k0, ke, se, true)
    {
      hide McuDecoder.Coding, AcDecisions, NonzeroValue, AcBin;
      ghost var kx, all := scan.acK[tbl], log + AcDecisions(tbl, scan.acK[tbl], w, k0, ke, se, true);
      ghost var f := k0 <= ke && w[ke] != 0 && Follows(AcDecisions(tbl, kx, w, k0, ke, se, true));
      ok, k := true, k0;
      var st := AcBase(tbl, k);
      AcBinsFit(tbl, kx, k);
      if f {
        AcRunStep(tbl, kx, w, k, ke, se, log);
      }
      var found := Get(st + 1, AcDecisions(tbl, kx, w, k, ke, se, true));
      while !found
        invariant Coding() && k0 <= k <= se && st == AcBase(tbl, k)
        invariant f ==> k <= ke && found == (w[k] != 0) && forall j :: k0 <= j < k ==> w[j] == 0
        invariant f && !found ==> k < ke && log + AcDecisions(tbl, kx, w, k + 1, ke, se, true) == all
        invariant f && found ==> (log + (NonzeroValue(tbl, kx, k, w[k]) +
          AcDecisions(tbl, kx, w, k + 1, ke, se, false)) == all)
        decreases se - k
      {
        AcBinsFit(tbl, kx, k);
        st := st + 3;
        k := k + 1;
        if k > se {
          ok := false;
          return;
        }
        AcBinsFit(tbl, kx, k);
        if f {
          AcRunStep(tbl, kx, w, k, ke, se, log);
        }
        found := Get(st + 1, if k <= ke then AcDecisions(tbl, kx, w, k, ke, se, true) else []);
      }
    }

    /** Decode the coefficients ss..se into a block, multiplied by 2^al (figure F.20);
        false on a spectral or magnitude overflow.  w is what is expected. */
    method GetAc(tbl: nat, b0: block, ss: nat, se: nat, al: nat, ghost w: zigzag) returns (ok: bool, b: block)
      requires Coding() && tbl < NUM_ARITH_TBLS && 1 <= ss <= se < 64 && |scan.acK| == NUM_ARITH_TBLS
      requires NoRepeats(scan.naturalOrder) && (forall k :: 0 <= k < 64 ==> Abs(w[k]) <= 0x8000)
      modifies this`log, coder, coder.bins
      ensures Coding()
      ensures var ds := AcDecisions(tbl, scan.acK[tbl], w, ss, LastNonzero(w, se), se, false);
        old(Follows(ds)) ==> (
          && ok && log == old(log) + ds
          && Zigzag(b, scan.naturalOrder) == Placed(Zigzag(b0, scan.naturalOrder), w, ss, se + 1, al))
    {
      hide McuDecoder.Coding, AcDecisions, NonzeroValue, AcBin, Zigzag, Placed, NoRepeats;
      ghost var kx, ke, z0 := scan.acK[tbl], LastNonzero(w, se), Zigzag(b0, scan.naturalOrder);
      ghost var all := log + AcDecisions(tbl, kx, w, ss, ke, se, false);
      ghost var f := Follows(AcDecisions(tbl, kx, w, ss, ke, se, false));
      ok, b := true, b0;
      var k := ss;
      PlacedNothing(z0, w, ss, al);
      while k <= se
        invariant Coding() && ss <= k <= se + 1
        invariant f ==> k <= ke + 1 || ke < ss == k
        invariant f ==> log + AcDecisions(tbl, kx, w, k, ke, se, false) == all
        invariant f ==> Zigzag(b, scan.naturalOrder) == Placed(z0, w, ss, k, al)
      {
        AcBinsFit(tbl, kx, k);
        AcBlockStep(tbl, kx, w, k, ke, se, log);
        var end := Get(AcBase(tbl, k), AcDecisions(tbl, kx, w, k, ke, se, false));
        if end {
          PlacedZeros(z0, w, ss, k, se + 1, al);
          return;
        }
        ghost var k1 := k;
        ok, k := GetZeroRun(tbl, k, se, w, ke);
        if !ok {
          return;
        }
        var c;
        ok, c := GetNonzero(tbl, k, if w[k] != 0 then w[k] else 1);
        if !ok {
          return;
        }
        PlacedZeros(z0, w, ss, k1, k, al);
        PlacedNext(z0, w, ss, k, al, b, scan.naturalOrder);
        b := b[scan.naturalOrder[k] := Jcoef(c * Pow2(al))];
        k := k + 1;
      }
      AcBlockEnd(tbl, kx, w, k, ke, se);
    }

    /** Refine one coefficient by bit al; c is the full coefficient.  Returns whether
        it is nonzero now. */
    method GetRefinement(tbl: nat, k: nat, coef: int, al: nat, ghost c: int) returns (value: int, done: bool)
      requires Coding() && tbl < NUM_ARITH_TBLS && 1 <= k < 64
      modifies this`log, coder, coder.bins
      ensures Coding()
      ensures old(Follows(CoefficientRefinement(tbl, k, c, al))) && coef == Approx(c, al + 1) ==> (
        && value == Approx(c, al) && done == (ShiftRight(Abs(c), al) != 0)
        && log == old(log) + CoefficientRefinement(tbl, k, c, al))
    {
      hide McuDecoder.Coding, ShiftRight, AcBin, Approx;
      AcBinsFit(tbl, 0, k);
      ApproxNext(c, al);
      ghost var ds := CoefficientRefinement(tbl, k, c, al);
      var st := AcBase(tbl, k);
      var p1: int := Pow2(al);
      var m1: int := -p1;
      value, done := coef, true;
      if coef != 0 {
        var bit := Get(st + 2, ds);
        if bit {
          value := coef + if coef < 0 then m1 else p1;
        }
      } else {
        var bit := Get(st + 1, ds);
        if bit {
          var sign := Get(FIXED_BIN, ds[1..]);
          value := if sign then m1 else p1;
        } else {
          done := false;
        }
      }
    }

    /** The last nonzero coefficient of a block up to se. */
    method FindLast(b: block, se: nat) returns (k: nat)
      requires se < 64
      ensures k == LastNonzero(Zigzag(b, scan.naturalOrder), se)
    {
      ghost var z := Zigzag(b, scan.naturalOrder);
      k := se;
      while k > 0 && b[scan.naturalOrder[k]] == 0
        invariant k <= se && LastNonzero(z, k) == LastNonzero(z, se)
      {
        k := k - 1;
      }
    }

    /** Refine the coefficients ss..se of a block by bit al; false on a spectral
        overflow.  c holds the full coefficients. */
    method GetAcRefine(tbl: nat, b0: block, ss: nat, se: nat, al: nat, ghost c: zigzag) returns (ok: bool, b: block)
      requires Coding() && tbl < NUM_ARITH_TBLS && 1 <= ss <= se < 64 && NoRepeats(scan.naturalOrder)
      modifies this`log, coder, coder.bins
      ensures Coding()
      ensures var ke := LastNonzero(Transform(c, al), se);
        var ds := RefineDecisions(tbl, c, al, ss, ke, LastNonzero(Transform(c, al + 1), ke), se, false);
        old(Follows(ds)) && Prepared(Zigzag(b0, scan.naturalOrder), c, ss, se, al) ==> (
          && ok && log == old(log) + ds
          && Zigzag(b, scan.naturalOrder) == Refined(Zigzag(b0, scan.naturalOrder), c, ss, se + 1, al))
    {
      hide McuDecoder.Coding, RefineDecisions, CoefficientRefinement, AcBin, Zigzag, Refined, NoRepeats, LastNonzero,
        Transform, Prepared, Approx, ShiftRight;
      ghost var ke := LastNonzero(Transform(c, al), se);
      ghost var kexSent := LastNonzero(Transform(c, al + 1), ke);
      ghost var z0, all := Zigzag(b0, scan.naturalOrder), log + RefineDecisions(tbl, c, al, ss, ke, kexSent, se, false);
      ghost var f := Follows(RefineDecisions(tbl, c, al, ss, ke, kexSent, se, false)) && Prepared(z0, c, ss, se, al);
      var kex := FindLast(b0, se);
      ok, b := true, b0;
      var k := ss;
      RefinedNothing(z0, c, ss, al);
      while k <= se
        invariant Coding() && ss <= k <= se + 1
        invariant f ==> ((k <= ke + 1 || ke < ss == k)
          && log + RefineDecisions(tbl, c, al, k, ke, kexSent, se, false) == all)
        invariant f ==> Zigzag(b, scan.naturalOrder) == Refined(z0, c, ss, k, al)
        decreases se - k
      {
        AcBinsFit(tbl, 0, k);
        if f {
          SameStage(z0, c, ss, se, al, k);
          RefineBlockStep(tbl, c, al, k, ke, kexSent, se, log);
        }
        if k > kex {
          var end := Get(AcBase(tbl, k), RefineDecisions(tbl, c, al, k, ke, kexSent, se, false));
          if end {
            if f {
              RefinedZeros(z0, c, ss, k, ke, se, al);
            }
            return;
          }
        }
        ok, b, k := GetRefinementRun(tbl, b, z0, ss, k, se, al, c, ke, kexSent);
        if !ok {
          return;
        }
      }
      if f {
        RefineFinal(tbl, c, al, k, ke, kexSent, se);
      }
    }

    /** Refine coefficients from k0 up to and including the next that is nonzero at
        this stage; k is the position after it. */
    method GetRefinementRun(tbl: nat, b0: block, ghost z0: zigzag, ghost ss: nat, k0: nat, se: nat, al: nat,
        ghost c: zigzag, ghost ke: nat, ghost kex: nat)
      returns (ok: bool, b: block, k: nat)
      requires Coding() && tbl < NUM_ARITH_TBLS && 1 <= ss <= k0 <= se < 64 && NoRepeats(scan.naturalOrder) && ke <= se
      modifies this`log, coder, coder.bins
      ensures Coding() && k0 < k <= se + 1
      ensures (
        && k0 <= ke && ke == LastNonzero(Transform(c, al), se)
          && old(Follows(RefineDecisions(tbl, c, al, k0, ke, kex, se, true)))
        && Prepared(z0, c, ss, se, al) && Zigzag(b0, scan.naturalOrder) == Refined(z0, c, ss, k0, al)) ==> (
          && ok && k <= ke + 1 && Zigzag(b, scan.naturalOrder) == Refined(z0, c, ss, k, al)
          && log + RefineDecisions(tbl, c, al, k, ke, kex, se, false)
            == old(log) + RefineDecisions(tbl, c, al, k0, ke, kex, se, true))
    {
      hide McuDecoder.Coding, RefineDecisions, CoefficientRefinement, AcBin, Zigzag, Refined, NoRepeats, LastNonzero,
        Transform, Prepared, Approx, ShiftRight;
      ghost var all := log + RefineDecisions(tbl, c, al, k0, ke, kex, se, true);
      ghost var f := k0 <= ke && ke == LastNonzero(Transform(c, al), se)
        && Follows(RefineDecisions(tbl, c, al, k0, ke, kex, se, true))
        && Prepared(z0, c, ss, se, al) && Zigzag(b0, scan.naturalOrder) == Refined(z0, c, ss, k0, al);
      ok, b, k := true, b0, k0;
      if f {
        NonzeroAtEnd(c, al, se);
      }
      while true
        invariant Coding() && k0 <= k <= se
        invariant f ==> k <= ke && log + RefineDecisions(tbl, c, al, k, ke, kex, se, true) == all
        invariant f ==> Zigzag(b, scan.naturalOrder) == Refined(z0, c, ss, k, al)
        decreases se - k
      {
        if f {
          RefineRun(tbl, c, al, k, ke, kex, se, log);
          ZigzagAt(b, scan.naturalOrder, k);
          RefinedNext(z0, c, ss, k, se, al, b, scan.naturalOrder);
          assert log + CoefficientRefinement(tbl, k, c[k], al) <= log + CoefficientRefinement(tbl, k, c[k], al)
            + RefineDecisions(tbl, c, al, k + 1, ke, kex, se, ShiftRight(Abs(c[k]), al) == 0);
        }
        var value, done := GetRefinement(tbl, k, b[scan.naturalOrder[k]], al, c[k]);
        b := b[scan.naturalOrder[k] := value];
        k := k + 1;
        if done {
          return;
        }
        if k > se {
          ok := false;
          return;
        }
      }
    }

    ghost function Preds(): (ps: seq<Prediction>)
      requires |lastDc| == |dcContext|
      reads this`lastDc, this`dcContext
      ensures |ps| == |lastDc|
    {
      PairUp(lastDc, dcContext)
    }

    /** Decode one block of component ci the way the scan asks for; b is what was sent. */
    method GetBlock(ci: nat, prior: block, ghost b: block) returns (ok: bool, out: block)
      requires Predictions() && Coding() && ci < |scan.components| && GoodOrder(scan.naturalOrder) && SmallBlock(b)
      modifies this`log, this`lastDc, this`dcContext, coder, coder.bins
      ensures Predictions() && Coding()
      ensures var z, ds := Zigzag(prior, scan.naturalOrder),
        BlockDecisions(scan, scan.components[ci], old(Preds())[ci], b);
        old(Follows(ds)) && ReadyFor(scan, z, b) ==> (
          && ok == DcFits(scan, old(Preds())[ci], b)
          && (ok ==> (
            && log == old(log) + ds && Preds() == AfterBlock(scan, old(Preds()), ci, b)
            && Zigzag(out, scan.naturalOrder) == Received(scan, z, b))))
    {
      hide McuDecoder.Coding, AcDecisions, RefineDecisions, DcDecisions, LastNonzero, Transform, Zigzag, NextContext,
        NoRepeats, Placed, Refined, Prepared, Pow2, Jcoef, SmallBlock;
      var c, o := scan.components[ci], scan.naturalOrder;
      ghost var z := Zigzag(b, o);
      out := prior;
      match ModeOf(scan) {
        case Sequential =>
          ok, out := GetWholeBlock(ci, prior, b);
        case DcFirst =>
          ok := GetDc(ci, DcValue(scan, b));
          if ok {
            out := prior[0 := Jcoef(lastDc[ci] * Pow2(scan.Al))];
            ZigzagUpdate(prior, o, 0, out[0]);
          }
        case AcFirst =>
          TransformedSmall(b, o, scan.Al);
          ok, out := GetAc(c.acTbl, prior, scan.Ss, scan.Se, scan.Al, Transform(z, scan.Al));
        case DcRefine =>
          var bit := Get(FIXED_BIN, [Decision(FIXED_BIN, DcValue(scan, b) % 2 == 1)]);
          ok := true;
          ZigzagAt(prior, o, 0);
          if bit {
            out := prior[0 := WithBit(prior[0], Pow2(scan.Al))];
          }
          ZigzagUpdate(prior, o, 0, out[0]);
        case AcRefine =>
          ok, out := GetAcRefine(c.acTbl, prior, scan.Ss, scan.Se, scan.Al, z);
      }
    }

    method GetWholeBlock(ci: nat, prior: block, ghost b: block) returns (ok: bool, out: block)
      requires Predictions() && Coding() && ci < |scan.components| && GoodOrder(scan.naturalOrder) && SmallBlock(b)
      requires ModeOf(scan) == Sequential
      modifies this`log, this`lastDc, this`dcContext, coder, coder.bins
      ensures Predictions() && Coding()
      ensures var z, ds := Zigzag(prior, scan.naturalOrder),
        BlockDecisions(scan, scan.components[ci], old(Preds())[ci], b);
        old(Follows(ds)) ==> (
          && ok == DcFits(scan, old(Preds())[ci], b)
          && (ok ==> (
            && log == old(log) + ds && Preds() == AfterBlock(scan, old(Preds()), ci, b)
            && Zigzag(out, scan.naturalOrder) == Received(scan, z, b))))
    {
      hide McuDecoder.Coding, AcDecisions, DcDecisions, LastNonzero, Transform, Zigzag, NextContext, NoRepeats,
        Placed, Jcoef, SmallBlock, PairUp;
      var c, o := scan.components[ci], scan.naturalOrder;
      TransformedSmall(b, o, 0);
      SplitFollow(log, DcDecisions(c.dcTbl, Preds()[ci], b[0]), BandDecisions(scan, c, b, 1, 63, 0), sent);
      out := prior;
      ok := GetDc(ci, b[0]);
      if ok {
        out := out[0 := Jcoef(lastDc[ci])];
        ZigzagUpdate(prior, o, 0, out[0]);
        ok, out := GetAc(c.acTbl, out, 1, 63, 0, Transform(Zigzag(b, o), 0));
      }
    }

    /** Decode an MCU into the blocks of `priors`; after an error nothing more is
        decoded.  mcu is what was sent. */
    method DecodeMcu(priors: seq<block>, ghost mcu: seq<block>) returns (out: seq<block>)
      requires Predictions() && Coding() && GoodOrder(scan.naturalOrder)
      requires |priors| == |mcu| == |scan.membership| && forall i :: 0 <= i < |mcu| ==> SmallBlock(mcu[i])
      modifies this`log, this`lastDc, this`dcContext, this`failed, coder, coder.bins
      ensures Predictions() && Coding() && |out| == |priors|
      ensures old(failed) ==> failed && out == priors
      ensures var ds := McuDecisions(scan, old(Preds()), mcu);
        !old(failed) && old(Follows(ds)) && AllReady(scan, priors, mcu) ==> (
          && failed == !McuFits(scan, old(Preds()), mcu)
          && (!failed ==> (
            && log == old(log) + ds && Preds() == AfterMcu(scan, old(Preds()), mcu)
            && AllReceived(scan, priors, mcu, out))))
    {
      hide McuDecoder.Coding, BlockDecisions, AfterBlock, SmallBlock, GoodOrder, DcFits, Received, ReadyFor, PairUp,
        GoodPrediction, Zigzag,
        McuDecisions, McuFits, AfterMcu, AllReceived;
      if failed {
        return priors;
      }
      ghost var ps, ds := Preds(), McuDecisions(scan, Preds(), mcu);
      ghost var f := Follows(ds) && AllReady(scan, priors, mcu);
      out := [];
      McuStart(scan, ps, mcu, priors);
      for blkn := 0 to |priors|
        invariant Predictions() && Coding() && !failed && |out| == blkn
        invariant f ==> (log == old(log) + McuDecisions(scan, ps, mcu[..blkn])
          && Preds() == AfterMcu(scan, ps, mcu[..blkn]))
        invariant f ==> McuFits(scan, ps, mcu[..blkn]) && AllReceived(scan, priors[..blkn], mcu[..blkn], out)
      {
        McuPrefix(scan, ps, mcu, blkn + 1);
        McuNext(scan, ps, mcu, blkn);
        ghost var bs := BlockDecisions(scan, scan.components[scan.membership[blkn]],
          Preds()[scan.membership[blkn]], mcu[blkn]);
        SplitFollow(old(log), McuDecisions(scan, ps, mcu[..blkn]), bs, sent);
        assert f ==> old(log) + McuDecisions(scan, ps, mcu[..blkn + 1]) <= old(log) + ds;
        var ok, b := GetBlock(scan.membership[blkn], priors[blkn], mcu[blkn]);
        if ok && f {
          ReceivedNext(scan, priors, mcu, out, b, blkn);
        }
        out := out + [b];
        if !ok {
          failed := true;
          out := out + priors[blkn + 1..];
          return;
        }
      }
      assert mcu[..|mcu|] == mcu && priors[..|priors|] == priors;
    }
  }

  lemma McuStart(s: Scan, ps: seq<Prediction>, mcu: seq<block>, priors: seq<block>)
    requires GoodScan(s) && |ps| == |s.components| && |mcu| == |priors| == |s.membership|
    ensures McuDecisions(s, ps, mcu[..0]) == [] && AfterMcu(s, ps, mcu[..0]) == ps && McuFits(s, ps, mcu[..0])
    ensures AllReceived(s, priors[..0], mcu[..0], [])
  {
  }

  lemma McuNext(s: Scan, ps: seq<Prediction>, mcu: seq<block>, n: nat)
    requires GoodScan(s) && |ps| == |s.components| && n < |mcu| <= |s.membership|
    ensures var ci, before := s.membership[n], AfterMcu(s, ps, mcu[..n]);
      && McuDecisions(s, ps, mcu[..n + 1])
        == McuDecisions(s, ps, mcu[..n]) + BlockDecisions(s, s.components[ci], before[ci], mcu[n])
      && AfterMcu(s, ps, mcu[..n + 1]) == AfterBlock(s, before, ci, mcu[n])
      && McuFits(s, ps, mcu[..n + 1]) == (McuFits(s, ps, mcu[..n]) && DcFits(s, before[ci], mcu[n]))
  {
    hide BlockDecisions, AfterBlock, DcFits;
    assert mcu[..n + 1][..n] == mcu[..n];
  }

  lemma ReceivedNext(s: Scan, priors: seq<block>, mcu: seq<block>, out: seq<block>, b: block, n: nat)
    requires n < |priors| == |mcu| && |out| == n && s.Ss <= s.Se < 64
    requires AllReceived(s, priors[..n], mcu[..n], out)
    requires Zigzag(b, s.naturalOrder) == Received(s, Zigzag(priors[n], s.naturalOrder), mcu[n])
    ensures AllReceived(s, priors[..n + 1], mcu[..n + 1], out + [b])
  {
    hide Zigzag, Received;
  }

  predicate AllReady(s: Scan, priors: seq<block>, mcu: seq<block>)
    requires |priors| == |mcu| && s.Se < 64
  {
    forall i :: 0 <= i < |mcu| ==> ReadyFor(s, Zigzag(priors[i], s.naturalOrder), mcu[i])
  }

  predicate AllReceived(s: Scan, priors: seq<block>, mcu: seq<block>, out: seq<block>)
    requires |priors| == |mcu| == |out| && s.Ss <= s.Se < 64
  {
    forall i :: 0 <= i < |mcu| ==>
      Zigzag(out[i], s.naturalOrder) == Received(s, Zigzag(priors[i], s.naturalOrder), mcu[i])
  }

  lemma TransformedSmall(b: block, o: order, al: nat)
    requires SmallBlock(b)
    ensures forall k :: 0 <= k < 64 ==> Abs(Transform(Zigzag(b, o), al)[k]) <= 0x8000
  {
    forall k | 0 <= k < 64 ensures Abs(Transform(Zigzag(b, o), al)[k]) <= 0x8000 {
      TransformedSize(b[o[k]], al);
    }
  }

  /** After the end of block the coefficients are zero before and after. */
  lemma RefinedZeros(z: zigzag, c: zigzag, ss: nat, k: nat, ke: nat, se: nat, al: nat)
    requires ss <= k <= se < 64 && ke < k && ke == LastNonzero(Transform(c, al), se) && Prepared(z, c, ss, se, al)
    ensures Refined(z, c, ss, se + 1, al) == Refined(z, c, ss, k, al)
  {
    forall j | k <= j <= se ensures z[j] == Approx(c[j], al) {
      assert Transform(c, al)[j] == 0;
      ApproxNext(c[j], al);
    }
  }

  lemma NonzeroAtEnd(c: zigzag, al: nat, se: nat)
    requires se < 64 && 1 <= LastNonzero(Transform(c, al), se)
    ensures ShiftRight(Abs(c[LastNonzero(Transform(c, al), se)]), al) != 0
  {
    TransformedSize(c[LastNonzero(Transform(c, al), se)], al);
  }

  /** The decoder finds the previous stage's end of block from its own coefficients. */
  lemma SameStage(z: zigzag, c: zigzag, ss: nat, se: nat, al: nat, k: nat)
    requires 1 <= ss <= k <= se < 64 && Prepared(z, c, ss, se, al)
    ensures var ke := LastNonzero(Transform(c, al), se);
      k <= LastNonzero(Transform(c, al + 1), ke) <==> k <= LastNonzero(z, se)
  {
    hide LastNonzero;
    var ke := LastNonzero(Transform(c, al), se);
    var sent, seen := LastNonzero(Transform(c, al + 1), ke), LastNonzero(z, se);
    if k <= seen {
      StageAt(z, c, ss, se, al, seen);
    }
    if k <= sent {
      StageAt(z, c, ss, se, al, sent);
    }
  }

  lemma StageAt(z: zigzag, c: zigzag, ss: nat, se: nat, al: nat, j: nat)
    requires ss <= j <= se < 64 && Prepared(z, c, ss, se, al)
    ensures z[j] != 0 <==> Transform(c, al + 1)[j] != 0
    ensures z[j] != 0 ==> Transform(c, al)[j] != 0
  {
    ApproxNext(c[j], al);
    NextShift(Abs(c[j]), al);
    TransformedSize(c[j], al);
    TransformedSize(c[j], al + 1);
  }

  /** The next decision between runs of a refinement scan. */
  lemma RefineBlockStep(tbl: nat, c: zigzag, al: nat, k: nat, ke: nat, kex: nat, se: nat, log: seq<Decision>)
    requires 1 <= k <= se < 64 && ke <= se && kex <= ke
    ensures var ds := RefineDecisions(tbl, c, al, k, ke, kex, se, false);
      && (k > kex ==> ds != [] && ds[0] == Decision(AcBase(tbl, k), ke < k))
      && (ke < k ==> ds == [ds[0]])
      && (kex < k <= ke ==> log + ds == log + [ds[0]] + RefineDecisions(tbl, c, al, k, ke, kex, se, true))
      && (k <= kex ==> ds == RefineDecisions(tbl, c, al, k, ke, kex, se, true))
  {
    hide CoefficientRefinement;
    Regroup(log, [Decision(AcBase(tbl, k), false)], CoefficientRefinement(tbl, k, c[k], al),
      RefineDecisions(tbl, c, al, k + 1, ke, kex, se, ShiftRight(Abs(c[k]), al) == 0));
  }

  /** The next decision between runs says whether the block ends. */
  lemma AcBlockStep(tbl: nat, kx: nat, w: zigzag, k: nat, ke: nat, se: nat, log: seq<Decision>)
    requires 1 <= k <= se < 64 && ke <= se
    ensures var ds := AcDecisions(tbl, kx, w, k, ke, se, false);
      && ds != [] && ds[0] == Decision(AcBase(tbl, k), ke < k)
      && (ke < k ==> ds == [ds[0]])
      && (k <= ke ==> log + ds == log + [ds[0]] + AcDecisions(tbl, kx, w, k, ke, se, true))
  {
    hide AcMagnitude;
  }

  lemma AcBlockEnd(tbl: nat, kx: nat, w: zigzag, k: nat, ke: nat, se: nat)
    requires 1 <= k <= 64 && ke <= se < k && se < 64
    ensures AcDecisions(tbl, kx, w, k, ke, se, false) == []
  {
  }

  /** The next decision inside a run says whether coefficient k is nonzero. */
  lemma AcRunStep(tbl: nat, kx: nat, w: zigzag, k: nat, ke: nat, se: nat, log: seq<Decision>)
    requires 1 <= k <= ke <= se < 64 && w[ke] != 0
    ensures var ds := AcDecisions(tbl, kx, w, k, ke, se, true);
      && ds != [] && ds[0] == Decision(AcBase(tbl, k) + 1, w[k] != 0)
      && (w[k] == 0 ==> k < ke && log + ds == log + [ds[0]] + AcDecisions(tbl, kx, w, k + 1, ke, se, true))
      && (w[k] != 0 ==> log + ds == log + [ds[0]] + (NonzeroValue(tbl, kx, k, w[k]) + AcDecisions(tbl, kx, w, k + 1,
        ke, se, false)))
  {
    hide AcMagnitude;
    var ds := AcDecisions(tbl, kx, w, k, ke, se, true);
    if w[k] == 0 {
      Regroup(log, [Decision(AcBase(tbl, k) + 1, false)], [], AcDecisions(tbl, kx, w, k + 1, ke, se, true));
    } else {
      var own, rest := NonzeroValue(tbl, kx, k, w[k]), AcDecisions(tbl, kx, w, k + 1, ke, se, false);
      assert ds == [Decision(AcBase(tbl, k) + 1, true)] + (own + rest);
    }
  }

  /** What tells the value of a coefficient known to be nonzero. */
  function NonzeroValue(tbl: nat, kx: nat, k: nat, c: int): seq<Decision>
    requires 1 <= k && c != 0
  {
    [Decision(FIXED_BIN, c < 0)] + AcMagnitude(AcBase(tbl, k) + 2, Threshold(tbl, kx, k), Abs(c) - 1)
  }

  lemma DcDecisionsFrom(tbl: nat, d: Prediction, value: int, log: seq<Decision>)
    ensures var ds := DcDecisions(tbl, d, value); var diff := value - d.last; var s0 := DcBin(tbl, d.context);
      && ds != [] && ds[0] == Decision(s0, diff != 0)
      && (diff == 0 ==> log + ds == log + [ds[0]])
      && (diff != 0 ==> (
        && |ds| >= 2 && ds[1] == Decision(s0 + 1, diff < 0)
        && ds[2..] == DcMagnitude(tbl, s0 + (if diff > 0 then 2 else 3), Abs(diff) - 1)
        && ds[1..][1..] == ds[2..]
        && log + ds == log + [ds[0]] + [ds[1]] + ds[2..]))
  {
    hide DcMagnitude;
  }

  lemma SplitFollow(log: seq<Decision>, a: seq<Decision>, b: seq<Decision>, sent: seq<Decision>)
    ensures log + (a + b) <= sent ==> log + a <= sent && log + a + b <= sent
    ensures log + (a + b) == log + a + b
  {
    assert log + (a + b) == log + a + b;
  }

  lemma LadderStarts()
    ensures IsPow2(1) && DoublesTo(1, 15) && IsPow2(2) && DoublesTo(2, 14)
  {
    Pow2Values();
    assert Pow2(15) == 2 * Pow2(14);
  }

  lemma UpperStart(v: nat, m: nat)
    requires 1 <= m <= v < 2 * m
    ensures UpperBits(v, m) == m
  {
    DivisionUnique(v, m, 1, v - m);
  }

  lemma UpperEnd(v: nat)
    ensures UpperBits(v, 1) == v
  {
  }

  lemma PatternNext(st: nat, m: nat, v: nat, log: seq<Decision>)
    ensures m / 2 == 0 ==> Pattern(st, m, v) == []
    ensures var h := m / 2; h != 0 ==> (var d := Decision(st, BitOf(v, h));
      && Pattern(st, m, v) != [] && Pattern(st, m, v)[0] == d && Pattern(st, m, v)[1..] == Pattern(st, h, v)
      && log + Pattern(st, m, v) == log + [d] + Pattern(st, h, v))
  {
    hide BitOf;
    var h := m / 2;
    if h != 0 {
      HeadAndTail(Decision(st, BitOf(v, h)), Pattern(st, h, v), log);
    }
  }

  lemma HeadAndTail(d: Decision, rest: seq<Decision>, log: seq<Decision>)
    ensures var ds := [d] + rest; ds[0] == d && ds[1..] == rest && log + ds == log + [d] + rest
  {
  }

  lemma RungRoom(m: nat, n: nat)
    requires 1 <= m < 0x8000 && DoublesTo(m, n)
    ensures 1 <= n && 2 * m <= 0x8000
  {
    if n > 0 {
      Reassociate(2, m, Pow2(n - 1));
      MulMonotone(1, Pow2(n - 1), 2 * m);
    }
  }

  lemma RungDouble(m: nat, n: nat)
    requires 1 <= n && DoublesTo(m, n)
    ensures DoublesTo(2 * m, n - 1)
  {
    Reassociate(2, m, Pow2(n - 1));
  }

  lemma RungsNext(st: nat, m: nat, v: nat, log: seq<Decision>)
    requires 1 <= m
    ensures Rungs(st, m, v) != [] && Rungs(st, m, v)[0] == Decision(st, 2 * m <= v)
    ensures Rungs(st, m, v)[1..] == (if 2 * m <= v then Rungs(st + 1, 2 * m, v) else [])
    ensures log + Rungs(st, m, v) == log + [Decision(st, 2 * m <= v)] + Rungs(st, m, v)[1..]
    ensures LastRung(st, m, v) == (if 2 * m <= v then LastRung(st + 1, 2 * m, v) else st)
    ensures Category(m, v) == (if 2 * m <= v then Category(2 * m, v) else m)
  {
  }

  /** A code of the whole list decodes to its next decision after any prefix. */
  lemma DecodesNext(p: seq<byte>, s: Coder, sent: seq<Decision>, n: nat)
    requires Ready(s) && InBins(sent, |s.bins|) && Inside(p, Run(s, sent).iv) && n < |sent|
    ensures InBins(sent[..n], |s.bins|)
    ensures Decoded(p, Run(s, sent[..n]), sent[n].ctx) == sent[n].bit
  {
    var head, tail := sent[..n], sent[n..];
    assert sent == head + tail;
    RunConcat(s, head, tail);
    var t := Run(s, head);
    RunNests(p, Code(t, tail[0].ctx, tail[0].bit), tail[1..]);
    CodeKeeps(p, t, tail[0].ctx, tail[0].bit);
  }
}
