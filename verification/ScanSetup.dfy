/** What a scan's MCU encoder and decoder are told beforehand, alike on both sides. */
module ScanSetup {
  import opened Bytes
  import opened IntervalCoder
  import opened CoefficientModel
  import opened Nonlinear

  /** A zigzag order: position k of the scan is coefficient o[k] of the block. */
  type order = o: seq<nat> | |o| == 64 && forall k :: 0 <= k < 64 ==> o[k] < 64
    witness seq(64, i => i)

  predicate NoRepeats(o: order)
  {
    forall j, k :: 0 <= j < k < 64 ==> o[j] != o[k]
  }

  predicate GoodOrder(o: order)
  {
    o[0] == 0 && NoRepeats(o)
  }

  /** A block of coefficients in natural order. */
  type block = b: seq<int> | |b| == 64 witness seq(64, _ => 0)

  function Blank(): block
  {
    seq(64, _ => 0)
  }

  function Zigzag(b: block, o: order): zigzag
  {
    seq(64, k requires 0 <= k < 64 => b[o[k]])
  }

  lemma TransformAt(b: block, o: order, al: nat)
    ensures forall k :: 0 <= k < 64 ==> Transform(Zigzag(b, o), al)[k] == Transformed(b[o[k]], al)
  {
  }

  lemma ZigzagAt(b: block, o: order, k: nat)
    requires k < 64
    ensures Zigzag(b, o)[k] == b[o[k]]
  {
  }

  function Indices(n: nat): (s: set<nat>)
    ensures |s| == n && forall i: nat :: i in s <==> i < n
  {
    if n == 0 then {} else Indices(n - 1) + {n - 1}
  }

  function FirstOf(o: order, n: nat): (s: set<nat>)
    requires n <= 64
    ensures forall i :: i in s <==> exists k :: 0 <= k < n && o[k] == i
  {
    if n == 0 then {} else FirstOf(o, n - 1) + {o[n - 1]}
  }

  lemma {:induction false} DistinctCount(o: order, n: nat)
    requires NoRepeats(o) && n <= 64
    ensures |FirstOf(o, n)| == n
  {
    hide NoRepeats;
    if n > 0 {
      DistinctCount(o, n - 1);
      NewInOrder(o, n - 1);
    }
  }

  lemma NewInOrder(o: order, n: nat)
    requires NoRepeats(o) && n < 64
    ensures o[n] !in FirstOf(o, n)
  {
    hide FirstOf;
  }

  lemma SubsetSize(a: set<nat>, b: set<nat>)
    requires a <= b
    ensures |a| <= |b|
    decreases b
  {
    if b != {} {
      var x :| x in b;
      SubsetSize(a - {x}, b - {x});
      assert x in a ==> a == (a - {x}) + {x};
    }
  }

  /** An order without repeats reaches every coefficient. */
  lemma OrderIsOnto(o: order, i: nat)
    requires NoRepeats(o) && i < 64
    ensures exists k :: 0 <= k < 64 && o[k] == i
  {
    hide NoRepeats, Indices;
    var s := FirstOf(o, 64);
    DistinctCount(o, 64);
    hide FirstOf;
    if i !in s {
      assert s <= Indices(64) - {i};
      SubsetSize(s, Indices(64) - {i});
    }
  }

  lemma ZigzagInjective(a: block, b: block, o: order)
    requires NoRepeats(o) && Zigzag(a, o) == Zigzag(b, o)
    ensures a == b
  {
    forall i | 0 <= i < 64 ensures a[i] == b[i] {
      OrderIsOnto(o, i);
      var k :| 0 <= k < 64 && o[k] == i;
      assert Zigzag(a, o)[k] == a[i] && Zigzag(b, o)[k] == b[i];
    }
  }

  datatype Component = Component(dcTbl: nat, acTbl: nat)

  datatype Scan = Scan(
    progressive: bool,
    components: seq<Component>,    // the components of the scan
    membership: seq<nat>,          // component of each block of an MCU
    dcCond: seq<DcConditioning>,   // conditioning by DC table number
    acK: seq<nat>,                 // conditioning by AC table number
    Ss: nat, Se: nat, Ah: nat, Al: nat,
    naturalOrder: order)

  ghost predicate GoodScan(s: Scan)
  {
    && |s.components| <= 4 && |s.dcCond| == NUM_ARITH_TBLS && |s.acK| == NUM_ARITH_TBLS
    && s.Ss <= s.Se < 64
    && (forall ci :: 0 <= ci < |s.components| ==>
      s.components[ci].dcTbl < NUM_ARITH_TBLS && s.components[ci].acTbl < NUM_ARITH_TBLS)
    && (forall b :: 0 <= b < |s.membership| ==> s.membership[b] < |s.components|)
  }

  /** The routine that codes the MCUs of a scan, selected when the scan starts. */
  datatype Mode = Sequential | DcFirst | AcFirst | DcRefine | AcRefine

  function ModeOf(s: Scan): (m: Mode)
    ensures m == AcFirst || m == AcRefine ==> s.Ss > 0
  {
    if !s.progressive then Sequential
    else if s.Ah == 0 then if s.Ss == 0 then DcFirst else AcFirst
    else if s.Ss == 0 then DcRefine else AcRefine
  }

  // ----- the decisions of blocks and MCUs

  /** The DC value a scan sends for a block: an arithmetic shift by Al. */
  function DcValue(s: Scan, b: block): int
  {
    if ModeOf(s) == Sequential then b[0] else b[0] / Pow2(s.Al)
  }

  /** A block's coefficients ss..se, divided by 2^al. */
  function BandDecisions(s: Scan, c: Component, b: block, ss: nat, se: nat, al: nat): seq<Decision>
    requires c.acTbl < |s.acK| && 1 <= ss <= se < 64
  {
    var w := Transform(Zigzag(b, s.naturalOrder), al);
    AcDecisions(c.acTbl, s.acK[c.acTbl], w, ss, LastNonzero(w, se), se, false)
  }

  function BlockDecisions(s: Scan, c: Component, d: Prediction, b: block): seq<Decision>
    requires c.dcTbl < |s.dcCond| && c.acTbl < |s.acK| && s.Ss <= s.Se < 64
  {
    var z := Zigzag(b, s.naturalOrder);
    match ModeOf(s)
    case Sequential =>
      DcDecisions(c.dcTbl, d, DcValue(s, b)) + BandDecisions(s, c, b, 1, 63, 0)
    case DcFirst =>
      DcDecisions(c.dcTbl, d, DcValue(s, b))
    case AcFirst =>
      BandDecisions(s, c, b, s.Ss, s.Se, s.Al)
    case DcRefine =>
      [Decision(FIXED_BIN, DcValue(s, b) % 2 == 1)]
    case AcRefine =>
      var ke := LastNonzero(Transform(z, s.Al), s.Se);
      RefineDecisions(c.acTbl, z, s.Al, s.Ss, ke, LastNonzero(Transform(z, s.Ah), ke), s.Se, false)
  }

  predicate SendsDc(s: Scan)
  {
    ModeOf(s) == Sequential || ModeOf(s) == DcFirst
  }

  /** Prediction state after a block of component ci. */
  function AfterBlock(s: Scan, ps: seq<Prediction>, ci: nat, b: block): (qs: seq<Prediction>)
    requires ci < |ps| && ci < |s.components| && s.components[ci].dcTbl < |s.dcCond|
    ensures |qs| == |ps|
  {
    if SendsDc(s) then
      ps[ci := NextPrediction(ps[ci], DcValue(s, b), s.dcCond[s.components[ci].dcTbl])]
    else ps
  }

  /** Prediction state after the first blocks of an MCU. */
  function AfterMcu(s: Scan, ps: seq<Prediction>, mcu: seq<block>): (qs: seq<Prediction>)
    requires GoodScan(s) && |ps| == |s.components| && |mcu| <= |s.membership|
    ensures |qs| == |ps|
  {
    if mcu == [] then ps
    else
      var n := |mcu| - 1;
      AfterBlock(s, AfterMcu(s, ps, mcu[..n]), s.membership[n], mcu[n])
  }

  function McuDecisions(s: Scan, ps: seq<Prediction>, mcu: seq<block>): seq<Decision>
    requires GoodScan(s) && |ps| == |s.components| && |mcu| <= |s.membership|
  {
    if mcu == [] then []
    else
      var n := |mcu| - 1;
      var ci := s.membership[n];
      McuDecisions(s, ps, mcu[..n]) + BlockDecisions(s, s.components[ci], AfterMcu(s, ps, mcu[..n])[ci], mcu[n])
  }

  function PairUp(last: seq<int>, contexts: seq<nat>): (ps: seq<Prediction>)
    requires |last| == |contexts|
    ensures |ps| == |last|
  {
    seq(|last|, i requires 0 <= i < |last| => Prediction(last[i], contexts[i]))
  }

  lemma PairUpUpdate(last: seq<int>, contexts: seq<nat>, i: nat, value: int, context: nat)
    requires |last| == |contexts| && i < |last|
    ensures PairUp(last, contexts)[i] == Prediction(last[i], contexts[i])
    ensures PairUp(last[i := value], contexts[i := context]) == PairUp(last, contexts)[i := Prediction(value, context)]
  {
  }

  predicate SmallBlock(b: block)
  {
    forall i :: 0 <= i < 64 ==> -0x8000 <= b[i] < 0x8000
  }

  lemma DcValueFits(s: Scan, b: block)
    requires SmallBlock(b)
    ensures -0x8000 <= DcValue(s, b) < 0x8000
  {
    FloorFits(b[0], Pow2(s.Al), 0x8000);
  }

  lemma FloorFits(x: int, d: nat, n: int)
    requires 1 <= d && 0 <= n && -n <= x < n
    ensures -n <= x / d < n
  {
    if x / d >= n {
      MulMonotone(n, x / d, d);
      MulMonotone(1, d, n);
    } else if x / d < -n {
      MulMonotone(x / d, -n - 1, d);
      MulMonotone(1, d, n);
    }
  }

  // ----- what the decoder makes of a block

  /** The conversion to a 16-bit coefficient. */
  function Jcoef(x: int): int
  {
    (x + 0x8000) % 0x10000 - 0x8000
  }

  /** z with w[j] stored, multiplied by 2^al, where it is nonzero, for ss <= j < k. */
  function Placed(z: zigzag, w: zigzag, ss: nat, k: nat, al: nat): zigzag
  {
    seq(64, j requires 0 <= j < 64 => if ss <= j < k && w[j] != 0 then Jcoef(w[j] * Pow2(al)) else z[j])
  }

  /** z with the coefficients ss <= j < k refined to bit al of c. */
  function Refined(z: zigzag, c: zigzag, ss: nat, k: nat, al: nat): zigzag
  {
    seq(64, j requires 0 <= j < 64 => if ss <= j < k then Approx(c[j], al) else z[j])
  }

  /** Before a refinement scan the coefficients it sends are known to the bit above. */
  predicate Prepared(z: zigzag, c: zigzag, ss: nat, se: nat, al: nat)
    requires se < 64
  {
    forall j :: ss <= j <= se ==> z[j] == Approx(c[j], al + 1)
  }

  /** x with the bit h (a power of two) set, in two's complement. */
  function WithBit(x: int, h: nat): int
    requires 1 <= h
  {
    if x / h % 2 == 0 then x + h else x
  }

  /** A block, in zigzag order, after a scan that sends b; z is what it was before. */
  function Received(s: Scan, z: zigzag, b: block): zigzag
    requires s.Ss <= s.Se < 64
  {
    var c := Zigzag(b, s.naturalOrder);
    match ModeOf(s)
    case Sequential => Placed(z[0 := Jcoef(DcValue(s, b))], Transform(c, 0), 1, 64, 0)
    case DcFirst => z[0 := Jcoef(DcValue(s, b) * Pow2(s.Al))]
    case AcFirst => Placed(z, Transform(c, s.Al), s.Ss, s.Se + 1, s.Al)
    case DcRefine => z[0 := if DcValue(s, b) % 2 == 1 then WithBit(z[0], Pow2(s.Al)) else z[0]]
    case AcRefine => Refined(z, c, s.Ss, s.Se + 1, s.Al)
  }

  // ----- how blocks grow coefficient by coefficient

  lemma RefinedNothing(z: zigzag, c: zigzag, ss: nat, al: nat)
    ensures Refined(z, c, ss, ss, al) == z
  {
  }

  lemma RefinedNext(z: zigzag, c: zigzag, ss: nat, k: nat, se: nat, al: nat, b: block, o: order)
    requires ss <= k <= se < 64 && NoRepeats(o) && Prepared(z, c, ss, se, al)
      && Zigzag(b, o) == Refined(z, c, ss, k, al)
    ensures b[o[k]] == Approx(c[k], al + 1)
    ensures Zigzag(b[o[k] := Approx(c[k], al)], o) == Refined(z, c, ss, k + 1, al)
  {
    ZigzagAt(b, o, k);
    ZigzagUpdate(b, o, k, Approx(c[k], al));
  }

  /** How one more bit extends an approximation. */
  lemma ApproxNext(c: int, al: nat)
    ensures var v := ShiftRight(Abs(c), al); var before := Approx(c, al + 1);
      && (before != 0 <==> v / 2 != 0) && (before < 0 ==> c < 0) && (before > 0 ==> c > 0)
      && Approx(c, al) == before + (v % 2) * (if c < 0 then -1 else 1) * Pow2(al)
      && (v == 0 ==> Approx(c, al) == 0)
  {
    NextShift(Abs(c), al);
    ApproxNextFrom(c, al, ShiftRight(Abs(c), al));
  }

  lemma NextShift(a: nat, al: nat)
    ensures ShiftRight(a, al + 1) == ShiftRight(a, al) / 2
  {
    NestedDivision(a, Pow2(al), 2);
  }

  lemma ApproxNextFrom(c: int, al: nat, v: nat)
    requires ShiftRight(Abs(c), al) == v && ShiftRight(Abs(c), al + 1) == v / 2
    ensures var before := Approx(c, al + 1);
      && (before != 0 <==> v / 2 != 0) && (before < 0 ==> c < 0) && (before > 0 ==> c > 0)
      && Approx(c, al) == before + (v % 2) * (if c < 0 then -1 else 1) * Pow2(al)
  {
    hide ShiftRight;
    var q, p := v / 2, Pow2(al);
    assert Pow2(al + 1) == 2 * p;
    Reassociate(q, 2, p);
    Distribute(2 * q, v % 2, p);
    if q > 0 {
      MulPositive(q, 2 * p);
    }
    NegateProduct(v, p);
    NegateProduct(q, 2 * p);
    NegateProduct(v % 2, p);
  }

  lemma NegateProduct(x: int, y: int)
    ensures (-x) * y == -(x * y)
  {
  }

  lemma PlacedNothing(z: zigzag, w: zigzag, ss: nat, al: nat)
    ensures Placed(z, w, ss, ss, al) == z
  {
  }

  lemma PlacedZeros(z: zigzag, w: zigzag, ss: nat, k: nat, n: nat, al: nat)
    requires ss <= k <= n <= 64
    ensures (forall j :: k <= j < n ==> w[j] == 0) ==> Placed(z, w, ss, n, al) == Placed(z, w, ss, k, al)
  {
  }

  lemma PlacedNext(z: zigzag, w: zigzag, ss: nat, k: nat, al: nat, b: block, o: order)
    requires ss <= k < 64 && NoRepeats(o)
    ensures Zigzag(b, o) == Placed(z, w, ss, k, al) && w[k] != 0 ==>
      Zigzag(b[o[k] := Jcoef(w[k] * Pow2(al))], o) == Placed(z, w, ss, k + 1, al)
  {
    ZigzagUpdate(b, o, k, Jcoef(w[k] * Pow2(al)));
  }

  lemma ZigzagUpdate(b: block, o: order, k: nat, v: int)
    requires k < 64 && NoRepeats(o)
    ensures Zigzag(b[o[k] := v], o) == Zigzag(b, o)[k := v]
  {
    assert forall j :: 0 <= j < 64 && j != k ==> o[j] != o[k];
  }

  /** What an AC refinement scan needs to find in the block. */
  predicate ReadyFor(s: Scan, z: zigzag, b: block)
    requires s.Se < 64
  {
    ModeOf(s) == AcRefine ==> s.Ah == s.Al + 1 && Prepared(z, Zigzag(b, s.naturalOrder), s.Ss, s.Se, s.Al)
  }

  /** The DC difference of a block fits the largest magnitude category. */
  predicate DcFits(s: Scan, d: Prediction, b: block)
  {
    SendsDc(s) ==> Abs(DcValue(s, b) - d.last) <= 0x8000
  }

  /** All DC differences of an MCU fit. */
  predicate McuFits(s: Scan, ps: seq<Prediction>, mcu: seq<block>)
    requires GoodScan(s) && |ps| == |s.components| && |mcu| <= |s.membership|
  {
    mcu == [] ||
    var n := |mcu| - 1;
    McuFits(s, ps, mcu[..n]) && DcFits(s, AfterMcu(s, ps, mcu[..n])[s.membership[n]], mcu[n])
  }

  lemma {:induction false} McuPrefix(s: Scan, ps: seq<Prediction>, mcu: seq<block>, n: nat)
    requires GoodScan(s) && |ps| == |s.components| && n <= |mcu| <= |s.membership|
    ensures McuDecisions(s, ps, mcu[..n]) <= McuDecisions(s, ps, mcu)
    ensures McuFits(s, ps, mcu) ==> McuFits(s, ps, mcu[..n])
    decreases |mcu|
  {
    hide BlockDecisions, DcFits, AfterMcu, SmallBlock;
    if n == |mcu| {
      assert mcu[..n] == mcu;
    } else {
      var k := |mcu| - 1;
      McuPrefix(s, ps, mcu[..k], n);
      assert mcu[..k][..n] == mcu[..n];
    }
  }

  // ----- whole scans: a sequence of MCUs

  predicate GoodMcus(s: Scan, mcus: seq<seq<block>>)
  {
    forall m :: 0 <= m < |mcus| ==> (|mcus[m]| == |s.membership|
      && forall i :: 0 <= i < |mcus[m]| ==> SmallBlock(mcus[m][i]))
  }

  function AfterScan(s: Scan, ps: seq<Prediction>, mcus: seq<seq<block>>): (qs: seq<Prediction>)
    requires GoodScan(s) && |ps| == |s.components| && GoodMcus(s, mcus)
    ensures |qs| == |ps|
  {
    if mcus == [] then ps
    else AfterMcu(s, AfterScan(s, ps, mcus[..|mcus| - 1]), mcus[|mcus| - 1])
  }

  function ScanDecisions(s: Scan, ps: seq<Prediction>, mcus: seq<seq<block>>): seq<Decision>
    requires GoodScan(s) && |ps| == |s.components| && GoodMcus(s, mcus)
  {
    if mcus == [] then []
    else
      var n := |mcus| - 1;
      ScanDecisions(s, ps, mcus[..n]) + McuDecisions(s, AfterScan(s, ps, mcus[..n]), mcus[n])
  }

  predicate ScanFits(s: Scan, ps: seq<Prediction>, mcus: seq<seq<block>>)
    requires GoodScan(s) && |ps| == |s.components| && GoodMcus(s, mcus)
  {
    mcus == [] ||
    var n := |mcus| - 1;
    ScanFits(s, ps, mcus[..n]) && McuFits(s, AfterScan(s, ps, mcus[..n]), mcus[n])
  }

  lemma {:induction false} ScanPrefix(s: Scan, ps: seq<Prediction>, mcus: seq<seq<block>>, n: nat)
    requires GoodScan(s) && |ps| == |s.components| && GoodMcus(s, mcus) && n <= |mcus|
    ensures ScanDecisions(s, ps, mcus[..n]) <= ScanDecisions(s, ps, mcus)
    ensures ScanFits(s, ps, mcus) ==> ScanFits(s, ps, mcus[..n])
    decreases |mcus|
  {
    hide McuDecisions, McuFits, AfterScan, SmallBlock;
    if n == |mcus| {
      assert mcus[..n] == mcus;
    } else {
      var k := |mcus| - 1;
      ScanPrefix(s, ps, mcus[..k], n);
      assert mcus[..k][..n] == mcus[..n];
    }
  }

  lemma ScanNext(s: Scan, ps: seq<Prediction>, mcus: seq<seq<block>>, m: nat)
    requires GoodScan(s) && |ps| == |s.components| && GoodMcus(s, mcus) && m < |mcus|
    ensures var before := AfterScan(s, ps, mcus[..m]);
      && ScanDecisions(s, ps, mcus[..m + 1]) == ScanDecisions(s, ps, mcus[..m]) + McuDecisions(s, before, mcus[m])
      && AfterScan(s, ps, mcus[..m + 1]) == AfterMcu(s, before, mcus[m])
      && ScanFits(s, ps, mcus[..m + 1]) == (ScanFits(s, ps, mcus[..m]) && McuFits(s, before, mcus[m]))
  {
    hide McuDecisions, McuFits, AfterMcu, SmallBlock;
    assert mcus[..m + 1][..m] == mcus[..m];
  }

  lemma ScanStart(s: Scan, ps: seq<Prediction>)
    requires GoodScan(s) && |ps| == |s.components|
    ensures ScanDecisions(s, ps, []) == [] && AfterScan(s, ps, []) == ps && ScanFits(s, ps, [])
  {
  }
}
