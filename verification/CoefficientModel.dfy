/**
 How DCT coefficients become binary decisions: the statistical models of
 sections F.1.4 and G.1.3 of T.81, as lists of (statistics bin, bit) pairs.
 Coefficients are indexed in zigzag order here.
 */
module CoefficientModel {
  import opened Bytes
  import opened IntervalCoder
  import opened Nonlinear
  import opened AritTable

  const DC_STAT_BINS := 64
  const AC_STAT_BINS := 256
  const NUM_ARITH_TBLS := 16

  // ----- where the statistics areas lie

  function DcBin(tbl: nat, i: nat): nat
  {
    tbl * DC_STAT_BINS + i
  }

  function AcBin(tbl: nat, i: nat): nat
  {
    NUM_ARITH_TBLS * DC_STAT_BINS + tbl * AC_STAT_BINS + i
  }

  /** All areas cleared, and the fixed-probability bin in its absorbing state. */
  function InitialCoder(): (s: Coder)
    ensures Ready(s) && |s.bins| == BIN_COUNT
  {
    Coder(WHOLE, Repeat(0, BIN_COUNT)[FIXED_BIN := 113], ARITAB)
  }

  const FIXED_BIN := NUM_ARITH_TBLS * (DC_STAT_BINS + AC_STAT_BINS)
  const BIN_COUNT := FIXED_BIN + 4

  /** Two bins coincide only if they are the same bin of the same area. */
  lemma AreasAreDisjoint(t: nat, i: nat, u: nat, j: nat)
    requires t < NUM_ARITH_TBLS && u < NUM_ARITH_TBLS
    ensures i < DC_STAT_BINS && j < DC_STAT_BINS && DcBin(t, i) == DcBin(u, j) ==> t == u && i == j
    ensures i < AC_STAT_BINS && j < AC_STAT_BINS && AcBin(t, i) == AcBin(u, j) ==> t == u && i == j
    ensures i < DC_STAT_BINS && j < AC_STAT_BINS ==> DcBin(t, i) < AcBin(u, j) < FIXED_BIN
  {
  }

  // ----- magnitudes

  /** The highest power of two not above v, searched upwards from m. */
  function Category(m: nat, v: nat): (top: nat)
    requires 1 <= m
    ensures m <= v ==> m <= top <= v < 2 * top
    ensures v < m ==> top == m
    decreases v - m
  {
    if 2 * m <= v then Category(2 * m, v) else m
  }

  /** Figure F.8: one "larger still" decision per doubling, each in its own bin. */
  function Rungs(st: nat, m: nat, v: nat): seq<Decision>
    requires 1 <= m
    decreases v - m
  {
    if 2 * m <= v then [Decision(st, true)] + Rungs(st + 1, 2 * m, v) else [Decision(st, false)]
  }

  function LastRung(st: nat, m: nat, v: nat): nat
    requires 1 <= m
    decreases v - m
  {
    if 2 * m <= v then LastRung(st + 1, 2 * m, v) else st
  }

  /** (v & h) != 0, for a power of two h. */
  predicate BitOf(v: nat, h: nat)
    requires 1 <= h
  {
    v / h % 2 == 1
  }

  /** Figure F.9: the bits of v below the power of two m, high to low. */
  function Pattern(st: nat, m: nat, v: nat): seq<Decision>
  {
    var h := m / 2;
    if h == 0 then [] else [Decision(st, BitOf(v, h))] + Pattern(st, h, v)
  }

  lemma {:induction false} RungBound(st: nat, m: nat, v: nat, n: nat)
    requires 1 <= m && v < m * Pow2(n + 1)
    ensures st <= LastRung(st, m, v) <= st + n
    decreases n
  {
    if 2 * m <= v {
      Reassociate(2, m, Pow2(n));
      if n > 0 {
        RungBound(st + 1, 2 * m, v, n - 1);
      }
    }
  }

  function Ladder(st: nat, m: nat, v: nat): seq<Decision>
    requires 1 <= m
  {
    Rungs(st, m, v) + Pattern(LastRung(st, m, v) + 14, Category(m, v), v)
  }

  // ----- DC differences

  /** Prediction state of one component: the last DC value and the conditioning
      category, which is the index of the bin S0. */
  datatype Prediction = Prediction(last: int, context: nat)

  predicate GoodPrediction(d: Prediction)
  {
    d.context <= 16 && d.context % 4 == 0
  }

  datatype DcConditioning = DcConditioning(lower: nat, upper: nat)

  function Abs(x: int): nat
  {
    if x < 0 then -x else x
  }

  function DcCategory(diff: int): nat
    requires diff != 0
  {
    if Abs(diff) == 1 then 0 else Category(1, Abs(diff) - 1)
  }

  /** Section F.1.4.4.1.2. */
  function NextContext(diff: int, cond: DcConditioning): nat
  {
    if diff == 0 || DcCategory(diff) < Pow2(cond.lower) / 2 then 0
    else (if diff > 0 then 4 else 8) + (if DcCategory(diff) > Pow2(cond.upper) / 2 then 8 else 0)
  }

  function NextPrediction(d: Prediction, value: int, cond: DcConditioning): Prediction
  {
    Prediction(value, NextContext(value - d.last, cond))
  }

  function DcMagnitude(tbl: nat, st: nat, v: nat): seq<Decision>
  {
    if v == 0 then [Decision(st, false)] else [Decision(st, true)] + Ladder(DcBin(tbl, 20), 1, v)
  }

  /** Figures F.4 to F.9. */
  function DcDecisions(tbl: nat, d: Prediction, value: int): seq<Decision>
  {
    var diff, s0 := value - d.last, DcBin(tbl, d.context);
    if diff == 0 then [Decision(s0, false)]
    else
      var v, st := Abs(diff) - 1, s0 + (if diff > 0 then 2 else 3);
      [Decision(s0, true)] + [Decision(s0 + 1, diff < 0)] + DcMagnitude(tbl, st, v)
  }

  // ----- AC coefficients

  /** A coefficient after the point transform: divided by 2^al, towards zero. */
  function Transformed(c: int, al: nat): int
  {
    var size: int := ShiftRight(Abs(c), al);
    if c >= 0 then size else -size
  }

  lemma TransformedSize(c: int, al: nat)
    ensures Abs(Transformed(c, al)) == ShiftRight(Abs(c), al)
    ensures Transformed(c, al) != 0 ==> (Transformed(c, al) < 0 <==> c < 0)
  {
  }

  /** What a scan at bit al leaves of a coefficient: its lower al bits are dropped,
      towards zero. */
  function Approx(c: int, al: nat): int
  {
    Transformed(c, al) * Pow2(al)
  }

  /** It is the multiple of 2^al next to the coefficient, on the side of zero. */
  lemma ApproxIsNearest(c: int, al: nat) returns (q: int)
    ensures Approx(c, al) == q * Pow2(al)
    ensures c >= 0 ==> 0 <= Approx(c, al) <= c < Approx(c, al) + Pow2(al)
    ensures c <= 0 ==> Approx(c, al) - Pow2(al) < c <= Approx(c, al) <= 0
  {
    hide Pow2;
    var v, p := Abs(c), Pow2(al);
    q := Transformed(c, al);
    var m: int := ShiftRight(v, al);
    assert v == p * m + v % p;
    MulMonotone(0, m, p);
    assert (-m) * p == -(m * p);
  }

  type zigzag = z: seq<int> | |z| == 64 witness seq(64, _ => 0)

  function Transform(z: zigzag, al: nat): zigzag
  {
    seq(64, k requires 0 <= k < 64 => Transformed(z[k], al))
  }

  /** The end-of-block index: the last nonzero coefficient not after se, else 0. */
  function LastNonzero(w: zigzag, se: nat): (ke: nat)
    requires se < 64
    ensures ke <= se && (ke > 0 ==> w[ke] != 0)
    ensures forall k :: ke < k <= se ==> w[k] == 0
  {
    if se == 0 || w[se] != 0 then se else LastNonzero(w, se - 1)
  }

  function Threshold(tbl: nat, kx: nat, k: nat): nat
  {
    AcBin(tbl, if k <= kx then 189 else 217)
  }

  function AcMagnitude(st: nat, x: nat, v: nat): seq<Decision>
  {
    if v == 0 then [Decision(st, false)]
    else if v == 1 then [Decision(st, true), Decision(st, false)]
    else [Decision(st, true), Decision(st, true)] + Ladder(x, 2, v)
  }

  function AcBase(tbl: nat, k: nat): nat
    requires 1 <= k
  {
    AcBin(tbl, 3 * (k - 1))
  }

  /** All bins of coefficient k lie in the table's own area. */
  lemma AcBinsFit(tbl: nat, kx: nat, k: nat)
    requires tbl < NUM_ARITH_TBLS && 1 <= k <= 64
    ensures AcBin(tbl, 0) <= AcBase(tbl, k) && AcBase(tbl, k) + 2 < AcBin(tbl, AC_STAT_BINS) <= FIXED_BIN
    ensures AcBase(tbl, k + 1) == AcBase(tbl, k) + 3
    ensures Threshold(tbl, kx, k) + 27 <= AcBin(tbl, 244) < AcBin(tbl, AC_STAT_BINS)
    ensures k < 64 ==> AcBase(tbl, k) + 2 < Threshold(tbl, kx, k)
  {
  }

  /** Figure F.5 from coefficient k on.  Inside a run of zeros the end-of-block
      decision is not repeated. */
  function AcDecisions(tbl: nat, kx: nat, w: zigzag, k: nat, ke: nat, se: nat, inRun: bool): seq<Decision>
    requires 1 <= k <= 64 && ke <= se < 64
    decreases 64 - k
  {
    if k > ke then
      if k <= se then [Decision(AcBase(tbl, k), true)] else []
    else
      var st := AcBase(tbl, k);
      (if inRun then [] else [Decision(st, false)]) +
      if w[k] == 0 then
        [Decision(st + 1, false)] + AcDecisions(tbl, kx, w, k + 1, ke, se, true)
      else
        [Decision(st + 1, true)] + [Decision(FIXED_BIN, w[k] < 0)] +
        AcMagnitude(st + 2, Threshold(tbl, kx, k), Abs(w[k]) - 1) +
        AcDecisions(tbl, kx, w, k + 1, ke, se, false)
  }

  /** What a refinement scan at bit al sends for one coefficient: a correction bit if
      it was sent before, else whether it becomes nonzero now, and then its sign. */
  function CoefficientRefinement(tbl: nat, k: nat, c: int, al: nat): seq<Decision>
    requires 1 <= k
  {
    var st, v := AcBase(tbl, k), ShiftRight(Abs(c), al);
    if v == 0 then [Decision(st + 1, false)]
    else if v / 2 != 0 then [Decision(st + 2, v % 2 == 1)]
    else [Decision(st + 1, true)] + [Decision(FIXED_BIN, c < 0)]
  }

  /** Figure G.10 from coefficient k on: z holds the full coefficients, al the bit
      being sent, ke the end of block, kex the end of block of the previous stage,
      before which no end-of-block decision is needed. */
  function RefineDecisions(tbl: nat, z: zigzag, al: nat, k: nat, ke: nat, kex: nat, se: nat, inRun: bool): seq<Decision>
    requires 1 <= k <= 64 && ke <= se < 64
    decreases 64 - k
  {
    if k > ke then
      if k <= se then [Decision(AcBase(tbl, k), true)] else []
    else
      (if inRun || k <= kex then [] else [Decision(AcBase(tbl, k), false)]) +
      CoefficientRefinement(tbl, k, z[k], al) +
      RefineDecisions(tbl, z, al, k + 1, ke, kex, se, ShiftRight(Abs(z[k]), al) == 0)
  }

  lemma RefineEnd(tbl: nat, z: zigzag, al: nat, k: nat, ke: nat, kex: nat, se: nat, log: seq<Decision>)
    requires 1 <= k <= ke <= se < 64
    ensures log + RefineDecisions(tbl, z, al, k, ke, kex, se, false)
      == log + (if k > kex then [Decision(AcBase(tbl, k), false)] else []) + RefineDecisions(tbl, z, al, k, ke, kex,
        se, true)
  {
    hide CoefficientRefinement;
    var head := if k > kex then [Decision(AcBase(tbl, k), false)] else [];
    var own := CoefficientRefinement(tbl, k, z[k], al);
    var rest := RefineDecisions(tbl, z, al, k + 1, ke, kex, se, ShiftRight(Abs(z[k]), al) == 0);
    Regroup(log, head, own, rest);
  }

  lemma Regroup(log: seq<Decision>, head: seq<Decision>, own: seq<Decision>, rest: seq<Decision>)
    ensures log + (head + own + rest) == log + head + ([] + own + rest)
    ensures log + ([] + own + rest) == log + own + rest
  {
    assert [] + own == own;
  }

  lemma RefineRun(tbl: nat, z: zigzag, al: nat, k: nat, ke: nat, kex: nat, se: nat, log: seq<Decision>)
    requires 1 <= k <= ke <= se < 64
    ensures log + RefineDecisions(tbl, z, al, k, ke, kex, se, true)
      == log + CoefficientRefinement(tbl, k, z[k], al)
         + RefineDecisions(tbl, z, al, k + 1, ke, kex, se, ShiftRight(Abs(z[k]), al) == 0)
  {
    hide CoefficientRefinement;
    Regroup(log, [], CoefficientRefinement(tbl, k, z[k], al),
      RefineDecisions(tbl, z, al, k + 1, ke, kex, se, ShiftRight(Abs(z[k]), al) == 0));
  }

  lemma RefineFinal(tbl: nat, z: zigzag, al: nat, k: nat, ke: nat, kex: nat, se: nat)
    requires 1 <= k <= 64 && ke < k && ke <= se < 64
    ensures RefineDecisions(tbl, z, al, k, ke, kex, se,
      false) == if k <= se then [Decision(AcBase(tbl, k), true)] else []
  {
  }
}
