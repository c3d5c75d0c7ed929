/**
 The binary decisions of the arithmetic coder, stated once more coefficient by
 coefficient, with the numbers of their statistics bins (tables F.3 to F.5 and G.2 of
 ITU-T T.81).  Each DC table has 64 bins from 64t on, each AC table 256 bins from
 1024 + 256t on, and bin 5120 has a fixed probability.
 */
module ArithmeticFormat {
  import opened Bytes
  import opened BitStrings
  import opened IntervalCoder
  import opened CoefficientModel
  import opened ScanSetup
  import opened ArithScan
  import opened Nonlinear

  /** Coding starts with the whole interval, every bin at state 0 with sense 0 and bin 5120
      at state 113, whose estimate is 1/2 and never changes; DC prediction starts at 0 in the
      zero category. */
  lemma StartIs(s: Scan)
    ensures var c := InitialCoder();
      && c.iv == Interval(0, 0x10000, 0) && |c.bins| == 5124
      && forall i :: 0 <= i < 5124 ==> c.bins[i] == if i == 5120 then 113 else 0
    ensures |NoPredictions(s)| == |s.components|
    ensures forall ci :: 0 <= ci < |s.components| ==> NoPredictions(s)[ci] == Prediction(0, 0)
  {
  }

  // ----- magnitudes

  /** n decisions that the value is larger still, in bins st, st + 1, ..., and one that it
      is not. */
  function Larger(st: nat, n: nat): seq<Decision>
  {
    seq(n, i requires 0 <= i < n => Decision(st + i, true)) + [Decision(st + n, false)]
  }

  /** The e low bits of v, high to low, in one bin. */
  function LowBits(st: nat, e: nat, v: nat): seq<Decision>
  {
    seq(e, j requires 0 <= j < e => Decision(st, v / Pow2(e - 1 - j) % 2 == 1))
  }

  lemma {:induction false} RungsAre(st: nat, m: nat, e: nat, v: nat)
    requires m <= e && Pow2(e) <= v < Pow2(e + 1)
    ensures Rungs(st, Pow2(m), v) == Larger(st, e - m) && LastRung(st, Pow2(m), v) == st + (e - m)
    ensures Category(Pow2(m), v) == Pow2(e)
    decreases e - m
  {
    hide Pow2;
    Doubled(m);
    if m < e {
      Pow2Monotone(m + 1, e);
      RungsAre(st + 1, m + 1, e, v);
      assert Larger(st, e - m) == [Decision(st, true)] + Larger(st + 1, e - m - 1);
    }
  }

  lemma Doubled(m: nat)
    ensures Pow2(m + 1) == 2 * Pow2(m) && Pow2(0) == 1
  {
  }

  lemma {:induction false} PatternIs(st: nat, e: nat, v: nat)
    ensures Pattern(st, Pow2(e), v) == LowBits(st, e, v)
  {
    hide Pow2;
    Doubled(0);
    if e > 0 {
      Doubled(e - 1);
      PatternIs(st, e - 1, v);
      assert Pow2(e) / 2 == Pow2(e - 1);
      assert LowBits(st, e, v) == [Decision(st, v / Pow2(e - 1) % 2 == 1)] + LowBits(st, e - 1, v);
    }
  }

  /** The ladder of figures F.8 and F.9 for 2^m <= 2^e <= v < 2^(e + 1). */
  lemma LadderIs(st: nat, m: nat, e: nat, v: nat)
    requires m <= e && Pow2(e) <= v < Pow2(e + 1)
    ensures Ladder(st, Pow2(m), v) == Larger(st, e - m) + LowBits(st + (e - m) + 14, e, v)
  {
    hide Rungs, LastRung, Category, Pattern, Larger, LowBits, Pow2;
    RungsAre(st, m, e, v);
    PatternIs(st + (e - m) + 14, e, v);
  }

  // ----- DC

  /** A DC value, coded as its difference from the last one: whether it is nonzero, its
      sign, whether its size exceeds 1, and then the ladder of its size less 1, from bin 20
      of the table on. */
  lemma DcDecisionsAre(tbl: nat, d: Prediction, value: int, e: nat)
    requires var v := Abs(value - d.last) - 1; v >= 1 ==> Pow2(e) <= v < Pow2(e + 1)
    ensures var diff, st := value - d.last, 64 * tbl + d.context; var v := Abs(diff) - 1;
      var head := [Decision(st, true)] + [Decision(st + 1, diff < 0)];
      && (diff == 0 ==> DcDecisions(tbl, d, value) == [Decision(st, false)])
      && (Abs(diff) == 1 ==>
        DcDecisions(tbl, d, value) == head + [Decision(st + if diff < 0 then 3 else 2, false)])
      && (Abs(diff) > 1 ==>
        DcDecisions(tbl, d, value) == head + ([Decision(st + if diff < 0 then 3 else 2, true)]
          + (Larger(64 * tbl + 20, e) + LowBits(64 * tbl + 34 + e, e, v))))
  {
    hide Larger, LowBits, Ladder, Pow2;
    var v := Abs(value - d.last) - 1;
    if v >= 1 {
      LadderIs(DcBin(tbl, 20), 0, e, v);
      Doubled(0);
    }
  }

  lemma CategoryIs(v: nat) returns (e: nat)
    requires v >= 1
    ensures Category(1, v) == Pow2(e) && Pow2(e) <= v < Pow2(e + 1)
  {
    e := BitLength(v) - 1;
    BitLengthBounds(v);
    Doubled(0);
    RungsAre(0, 0, e, v);
  }

  lemma {:induction false} Pow2Order(a: nat, b: nat)
    ensures a < b <==> Pow2(a) < Pow2(b)
  {
    if a < b {
      Pow2Monotone(a + 1, b);
      Doubled(a);
    } else {
      Pow2Monotone(b, a);
    }
  }

  /** Section F.1.4.4.1.2: a difference is in the zero category up to 2^(L - 1) in size (for
      L = 0 only 0 itself), small up to 2^U, and large beyond; the bins of the next difference
      start at 0, 4 and 8 for the sign of a small one, 12 and 16 for a large one. */
  lemma ConditioningIs(diff: int, cond: DcConditioning)
    ensures var zero := Abs(diff) <= (if cond.lower == 0 then 0 else Pow2(cond.lower - 1));
      NextContext(diff, cond) == if zero then 0 else if Abs(diff) <= Pow2(cond.upper) then
        (if diff > 0 then 4 else 8) else if diff > 0 then 12 else 16
  {
    hide Pow2, Category;
    var l, u := cond.lower, cond.upper;
    HalfPow2(l);
    HalfPow2(u);
    Doubled(0);
    if Abs(diff) > 1 {
      var v := Abs(diff) - 1;
      var e := CategoryIs(v);
      if l > 0 {
        Pow2Order(e, l - 1);
        BelowPow2(v, e, l - 1);
      }
      if u > 0 {
        Pow2Order(u - 1, e);
        BelowPow2(v, e, u);
      }
    } else {
      AtLeastOne(l);
      AtLeastOne(u);
    }
  }

  lemma AtLeastOne(n: nat)
    ensures Pow2(n) >= 1 && (n > 0 ==> Pow2(n - 1) >= 1)
  {
  }

  lemma HalfPow2(n: nat)
    ensures Pow2(n) / 2 == if n == 0 then 0 else Pow2(n - 1)
  {
  }

  lemma BelowPow2(v: nat, e: nat, n: nat)
    requires Pow2(e) <= v < Pow2(e + 1)
    ensures v < Pow2(n) <==> e < n
  {
    hide Pow2;
    if e < n {
      Pow2Monotone(e + 1, n);
    } else {
      Pow2Monotone(n, e);
    }
  }

  /** A scan that sends DC values predicts from the last block of the component. */
  lemma {:induction false} PredictionIs(s: Scan, ps: seq<Prediction>, mcu: seq<block>, ci: nat, j: int)
    requires GoodScan(s) && |ps| == |s.components| && |mcu| <= |s.membership| && ci < |s.components| && SendsDc(s)
    requires -1 <= j < |mcu| && (j >= 0 ==> s.membership[j] == ci)
    requires forall i :: j < i < |mcu| ==> s.membership[i] != ci
    ensures j < 0 ==> AfterMcu(s, ps, mcu)[ci] == ps[ci]
    ensures j >= 0 ==> var diff := DcValue(s, mcu[j]) - AfterMcu(s, ps, mcu[..j])[ci].last;
      AfterMcu(s, ps, mcu)[ci]
        == Prediction(DcValue(s, mcu[j]), NextContext(diff, s.dcCond[s.components[ci].dcTbl]))
    decreases |mcu|
  {
    hide DcValue, NextContext;
    if mcu != [] && j < |mcu| - 1 {
      PredictionIs(s, ps, mcu[..|mcu| - 1], ci, j);
      assert j >= 0 ==> mcu[..|mcu| - 1][..j] == mcu[..j];
    }
  }

  /** A block in the modes that send DC values or a first approximation: the DC value, in
      progressive scans shifted down by Al, and the band of the scan. */
  lemma BlockIs(s: Scan, c: Component, d: Prediction, b: block)
    requires c.dcTbl < |s.dcCond| && c.acTbl < |s.acK| && s.Ss <= s.Se < 64
    ensures !s.progressive ==>
      BlockDecisions(s, c, d, b) == DcDecisions(c.dcTbl, d, b[0]) + BandDecisions(s, c, b, 1, 63, 0)
    ensures s.progressive && s.Ah == 0 && s.Ss == 0 ==>
      BlockDecisions(s, c, d, b) == DcDecisions(c.dcTbl, d, b[0] / Pow2(s.Al))
    ensures s.progressive && s.Ah == 0 && s.Ss > 0 ==>
      BlockDecisions(s, c, d, b) == BandDecisions(s, c, b, s.Ss, s.Se, s.Al)
    ensures s.progressive && s.Ah > 0 && s.Ss == 0 ==>
      BlockDecisions(s, c, d, b) == [Decision(5120, b[0] / Pow2(s.Al) % 2 == 1)]
  {
    hide DcDecisions, BandDecisions, RefineDecisions;
  }

  // ----- AC

  /** Lists of decisions, one after the other. */
  function Joined(parts: seq<seq<Decision>>): seq<Decision>
  {
    if parts == [] then [] else parts[0] + Joined(parts[1..])
  }

  /** The size v + 1 of coefficient k: whether it exceeds 1, and 2, and the ladder from bin
      189 of the table on for the coefficients up to kx, from bin 217 on for the others. */
  function SizeDecisions(tbl: nat, kx: nat, k: nat, e: nat, v: nat): seq<Decision>
    requires k >= 1
  {
    var st := 1024 + 256 * tbl + 3 * (k - 1) + 2;
    var x := 1024 + 256 * tbl + if k <= kx then 189 else 217;
    var ladder := Larger(x, if e > 0 then e - 1 else 0) + LowBits(x + e + 13, e, v);
    if v == 0 then [Decision(st, false)]
    else if v == 1 then [Decision(st, true), Decision(st, false)]
    else [Decision(st, true), Decision(st, true)] + ladder
  }

  lemma SizeDecisionsAre(tbl: nat, kx: nat, k: nat, e: nat, v: nat)
    requires k >= 1 && (v >= 1 ==> Pow2(e) <= v < Pow2(e + 1))
    ensures AcMagnitude(AcBase(tbl, k) + 2, Threshold(tbl, kx, k), v) == SizeDecisions(tbl, kx, k, e, v)
  {
    hide Larger, LowBits, Ladder, Pow2;
    if v >= 2 {
      Doubled(0);
      assert e >= 1;
      LadderIs(Threshold(tbl, kx, k), 1, e, v);
    }
  }

  /** The exponent of the highest bit of v. */
  function TopBit(v: nat): (e: nat)
    ensures v >= 1 ==> Pow2(e) <= v < Pow2(e + 1)
  {
    BitLengthBounds(v);
    if v == 0 then 0 else BitLength(v) - 1
  }

  /** What coefficient j of a band from ss on says: after a nonzero coefficient, that the
      band goes on; then whether it is nonzero, its sign with even odds, and its size. */
  function AcPart(tbl: nat, kx: nat, w: zigzag, ss: nat, j: nat): seq<Decision>
    requires 1 <= ss <= j < 64
  {
    var st := 1024 + 256 * tbl + 3 * (j - 1);
    var goesOn := if j == ss || w[j - 1] != 0 then [Decision(st, false)] else [];
    if w[j] == 0 then goesOn + [Decision(st + 1, false)]
    else
      var v := Abs(w[j]) - 1;
      goesOn + ([Decision(st + 1, true)] + [Decision(5120, w[j] < 0)] + SizeDecisions(tbl, kx, j, TopBit(v), v))
  }

  function AcParts(tbl: nat, kx: nat, w: zigzag, ss: nat, k: nat, ke: nat): seq<seq<Decision>>
    requires 1 <= ss <= k && ke < 64
  {
    seq(if k <= ke then ke + 1 - k else 0, i requires 0 <= i && k + i < 64 => AcPart(tbl, kx, w, ss, k + i))
  }

  /** The end of the band is said once, when it comes before se. */
  function BandEnd(tbl: nat, k: nat, se: nat): seq<Decision>
    requires k >= 1
  {
    if k <= se then [Decision(1024 + 256 * tbl + 3 * (k - 1), true)] else []
  }

  lemma {:induction false} AcFrom(tbl: nat, kx: nat, w: zigzag, ss: nat, k: nat, ke: nat, se: nat)
    requires 1 <= ss <= k <= 64 && ke <= se < 64
    ensures AcDecisions(tbl, kx, w, k, ke, se, k > ss && w[k - 1] == 0)
      == Joined(AcParts(tbl, kx, w, ss, k, ke)) + BandEnd(tbl, if k <= ke then ke + 1 else k, se)
    decreases 64 - k
  {
    hide AcPart, AcParts, Joined, AcDecisions, BandEnd;
    if k <= ke {
      AcFrom(tbl, kx, w, ss, k + 1, ke, se);
      FirstAcPart(tbl, kx, w, ss, k, ke);
      AcNext(tbl, kx, w, ss, k, ke, se);
      Associates(AcPart(tbl, kx, w, ss, k), Joined(AcParts(tbl, kx, w, ss, k + 1, ke)), BandEnd(tbl, ke + 1, se));
    } else {
      AcEnd(tbl, kx, w, ss, k, ke, se);
    }
  }

  lemma FirstAcPart(tbl: nat, kx: nat, w: zigzag, ss: nat, k: nat, ke: nat)
    requires 1 <= ss <= k <= ke < 64
    ensures Joined(AcParts(tbl, kx, w, ss, k, ke))
      == AcPart(tbl, kx, w, ss, k) + Joined(AcParts(tbl, kx, w, ss, k + 1, ke))
  {
    hide AcPart, Joined;
    var parts := AcParts(tbl, kx, w, ss, k, ke);
    assert parts[1..] == AcParts(tbl, kx, w, ss, k + 1, ke);
    JoinedHead(parts);
  }

  lemma AcEnd(tbl: nat, kx: nat, w: zigzag, ss: nat, k: nat, ke: nat, se: nat)
    requires 1 <= ss <= k <= 64 && ke < k && ke <= se < 64
    ensures AcDecisions(tbl, kx, w, k, ke, se, k > ss && w[k - 1] == 0)
      == Joined(AcParts(tbl, kx, w, ss, k, ke)) + BandEnd(tbl, k, se)
  {
    hide AcPart;
    assert Joined(AcParts(tbl, kx, w, ss, k, ke)) == [];
    assert [] + BandEnd(tbl, k, se) == BandEnd(tbl, k, se);
  }

  lemma JoinedHead(parts: seq<seq<Decision>>)
    requires parts != []
    ensures Joined(parts) == parts[0] + Joined(parts[1..])
  {
  }

  lemma Associates(a: seq<Decision>, b: seq<Decision>, c: seq<Decision>)
    ensures (a + b) + c == a + (b + c)
  {
  }

  lemma AcNext(tbl: nat, kx: nat, w: zigzag, ss: nat, k: nat, ke: nat, se: nat)
    requires 1 <= ss <= k <= ke <= se < 64
    ensures AcDecisions(tbl, kx, w, k, ke, se, k > ss && w[k - 1] == 0)
      == AcPart(tbl, kx, w, ss, k) + AcDecisions(tbl, kx, w, k + 1, ke, se, w[k] == 0)
  {
    hide SizeDecisions, AcMagnitude, TopBit, AcDecisions, AcPart, AcBase;
    var st, inRun := AcBase(tbl, k), k > ss && w[k - 1] == 0;
    var goesOn := if inRun then [] else [Decision(st, false)];
    var rest := AcDecisions(tbl, kx, w, k + 1, ke, se, w[k] == 0);
    AcPartIs(tbl, kx, w, ss, k);
    if w[k] == 0 {
      AcZero(tbl, kx, w, k, ke, se, inRun);
      Associates(goesOn, [Decision(st + 1, false)], rest);
    } else {
      AcValue(tbl, kx, w, k, ke, se, inRun);
      var v := Abs(w[k]) - 1;
      var size := SizeDecisions(tbl, kx, k, TopBit(v), v);
      Regrouped(goesOn, [Decision(st + 1, true)] + [Decision(FIXED_BIN, w[k] < 0)], size, rest);
    }
  }

  lemma AcPartIs(tbl: nat, kx: nat, w: zigzag, ss: nat, k: nat)
    requires 1 <= ss <= k < 64
    ensures var st := AcBase(tbl, k);
      var goesOn := if k > ss && w[k - 1] == 0 then [] else [Decision(st, false)];
      && (w[k] == 0 ==> AcPart(tbl, kx, w, ss, k) == goesOn + [Decision(st + 1, false)])
      && (w[k] != 0 ==>
        var v := Abs(w[k]) - 1;
        AcPart(tbl, kx, w, ss, k) == goesOn + ([Decision(st + 1, true)] + [Decision(FIXED_BIN, w[k] < 0)]
          + SizeDecisions(tbl, kx, k, TopBit(v), v)))
  {
    hide SizeDecisions, TopBit, AcBase;
    AcBaseIs(tbl, k);
    assert FIXED_BIN == 5120;
    var st := AcBase(tbl, k);
    var goesOn := if k > ss && w[k - 1] == 0 then [] else [Decision(st, false)];
    assert goesOn == if k == ss || w[k - 1] != 0 then [Decision(st, false)] else [];
  }

  lemma AcBaseIs(tbl: nat, k: nat)
    requires k >= 1
    ensures AcBase(tbl, k) == 1024 + 256 * tbl + 3 * (k - 1)
  {
  }

  lemma AcZero(tbl: nat, kx: nat, w: zigzag, k: nat, ke: nat, se: nat, inRun: bool)
    requires 1 <= k <= ke <= se < 64 && w[k] == 0
    ensures var st := AcBase(tbl, k);
      AcDecisions(tbl, kx, w, k, ke, se, inRun) == (if inRun then [] else [Decision(st, false)])
        + ([Decision(st + 1, false)] + AcDecisions(tbl, kx, w, k + 1, ke, se, true))
  {
  }

  lemma AcValue(tbl: nat, kx: nat, w: zigzag, k: nat, ke: nat, se: nat, inRun: bool)
    requires 1 <= k <= ke <= se < 64 && w[k] != 0
    ensures var st, v := AcBase(tbl, k), Abs(w[k]) - 1;
      AcDecisions(tbl, kx, w, k, ke, se, inRun) == (if inRun then [] else [Decision(st, false)])
        + (([Decision(st + 1, true)] + [Decision(FIXED_BIN, w[k] < 0)]) + SizeDecisions(tbl, kx, k, TopBit(v), v)
          + AcDecisions(tbl, kx, w, k + 1, ke, se, false))
  {
    hide AcMagnitude, SizeDecisions, TopBit;
    var v := Abs(w[k]) - 1;
    SizeDecisionsAre(tbl, kx, k, TopBit(v), v);
  }

  lemma Regrouped(a: seq<Decision>, b: seq<Decision>, c: seq<Decision>, d: seq<Decision>)
    ensures a + (b + c + d) == (a + (b + c)) + d
  {
  }

  /** A band of transformed coefficients w: each one up to the last that is nonzero, and the
      end of the band. */
  lemma BandIs(s: Scan, c: Component, b: block, ss: nat, se: nat, al: nat, ke: nat)
    requires c.acTbl < |s.acK| && 1 <= ss <= se < 64
    requires ss - 1 <= ke <= se && forall k :: ke < k <= se ==> Transform(Zigzag(b, s.naturalOrder), al)[k] == 0
    requires ke >= ss ==> Transform(Zigzag(b, s.naturalOrder), al)[ke] != 0
    ensures var w := Transform(Zigzag(b, s.naturalOrder), al);
      BandDecisions(s, c, b, ss, se, al)
        == Joined(AcParts(c.acTbl, s.acK[c.acTbl], w, ss, ss, ke)) + BandEnd(c.acTbl, ke + 1, se)
  {
    hide AcDecisions, AcParts, Joined, BandEnd, Transform, Zigzag;
    var w := Transform(Zigzag(b, s.naturalOrder), al);
    var last := LastNonzero(w, se);
    AcFrom(c.acTbl, s.acK[c.acTbl], w, ss, ss, last, se);
    if ke < ss {
      assert last < ss;
      NoParts(c.acTbl, s.acK[c.acTbl], w, ss, last);
      NoParts(c.acTbl, s.acK[c.acTbl], w, ss, ke);
    } else {
      assert last == ke;
    }
  }

  lemma NoParts(tbl: nat, kx: nat, w: zigzag, ss: nat, ke: nat)
    requires 1 <= ss && ke < ss <= 63
    ensures AcParts(tbl, kx, w, ss, ss, ke) == []
  {
  }

  // ----- refinement

  /** The size of coefficient j after the point transform. */
  function SizeAfter(z: zigzag, al: nat, j: nat): nat
    requires j < 64
  {
    ShiftRight(Abs(z[j]), al)
  }

  /** What coefficient j of a refinement band says.  That the band goes on is said only
      behind the last coefficient that was sent before, kex, and only after a coefficient
      that is nonzero now. */
  function RefinePart(tbl: nat, z: zigzag, al: nat, ss: nat, kex: nat, j: nat): seq<Decision>
    requires 1 <= ss <= j < 64
  {
    var st, v := 1024 + 256 * tbl + 3 * (j - 1), SizeAfter(z, al, j);
    (if j > kex && (j == ss || SizeAfter(z, al, j - 1) != 0) then [Decision(st, false)] else []) +
    if v == 0 then [Decision(st + 1, false)]
    else if v == 1 then [Decision(st + 1, true)] + [Decision(5120, z[j] < 0)]
    else [Decision(st + 2, v % 2 == 1)]
  }

  function RefineParts(tbl: nat, z: zigzag, al: nat, ss: nat, kex: nat, k: nat, ke: nat): seq<seq<Decision>>
    requires 1 <= ss <= k && ke < 64
  {
    seq(if k <= ke then ke + 1 - k else 0, i requires 0 <= i && k + i < 64 => RefinePart(tbl, z, al, ss, kex, k + i))
  }

  lemma {:induction false} RefineFrom(tbl: nat, z: zigzag, al: nat, ss: nat, kex: nat, k: nat, ke: nat, se: nat)
    requires 1 <= ss <= k <= 64 && ke <= se < 64
    ensures RefineDecisions(tbl, z, al, k, ke, kex, se, k > ss && SizeAfter(z, al, k - 1) == 0)
      == Joined(RefineParts(tbl, z, al, ss, kex, k, ke)) + BandEnd(tbl, if k <= ke then ke + 1 else k, se)
    decreases 64 - k
  {
    hide SizeAfter, CoefficientRefinement, RefinePart, RefineParts, Joined, RefineDecisions, BandEnd;
    if k <= ke {
      RefineFrom(tbl, z, al, ss, kex, k + 1, ke, se);
      FirstRefinePart(tbl, z, al, ss, kex, k, ke);
      RefineNext(tbl, z, al, ss, kex, k, ke, se);
      Associates(RefinePart(tbl, z, al, ss, kex, k), Joined(RefineParts(tbl, z, al, ss, kex, k + 1, ke)),
        BandEnd(tbl, ke + 1, se));
    } else {
      RefineEnds(tbl, z, al, ss, kex, k, ke, se);
    }
  }

  lemma FirstRefinePart(tbl: nat, z: zigzag, al: nat, ss: nat, kex: nat, k: nat, ke: nat)
    requires 1 <= ss <= k <= ke < 64
    ensures Joined(RefineParts(tbl, z, al, ss, kex, k, ke))
      == RefinePart(tbl, z, al, ss, kex, k) + Joined(RefineParts(tbl, z, al, ss, kex, k + 1, ke))
  {
    hide RefinePart, Joined;
    var parts := RefineParts(tbl, z, al, ss, kex, k, ke);
    assert parts[1..] == RefineParts(tbl, z, al, ss, kex, k + 1, ke);
    JoinedHead(parts);
  }

  lemma RefineEnds(tbl: nat, z: zigzag, al: nat, ss: nat, kex: nat, k: nat, ke: nat, se: nat)
    requires 1 <= ss <= k <= 64 && ke < k && ke <= se < 64
    ensures RefineDecisions(tbl, z, al, k, ke, kex, se, k > ss && SizeAfter(z, al, k - 1) == 0)
      == Joined(RefineParts(tbl, z, al, ss, kex, k, ke)) + BandEnd(tbl, k, se)
  {
    hide RefinePart;
    assert Joined(RefineParts(tbl, z, al, ss, kex, k, ke)) == [];
    assert [] + BandEnd(tbl, k, se) == BandEnd(tbl, k, se);
  }

  lemma RefineNext(tbl: nat, z: zigzag, al: nat, ss: nat, kex: nat, k: nat, ke: nat, se: nat)
    requires 1 <= ss <= k <= ke <= se < 64
    ensures RefineDecisions(tbl, z, al, k, ke, kex, se, k > ss && SizeAfter(z, al, k - 1) == 0)
      == RefinePart(tbl, z, al, ss, kex, k)
        + RefineDecisions(tbl, z, al, k + 1, ke, kex, se, SizeAfter(z, al, k) == 0)
  {
    var v := SizeAfter(z, al, k);
    assert v >= 2 <==> v / 2 != 0;
  }

  /** The decisions of a block in an AC refinement scan: ke is the last coefficient of the
      band that is nonzero at bit Al, kex the last that was at bit Ah. */
  lemma RefinementIs(s: Scan, c: Component, d: Prediction, b: block, ke: nat, kex: nat)
    requires GoodScan(s) && ModeOf(s) == AcRefine && s.Al <= s.Ah && c.dcTbl < NUM_ARITH_TBLS
      && c.acTbl < NUM_ARITH_TBLS
    requires var z := Zigzag(b, s.naturalOrder);
      && s.Ss - 1 <= ke <= s.Se && (forall k :: ke < k <= s.Se ==> SizeAfter(z, s.Al, k) == 0)
      && (ke >= s.Ss ==> SizeAfter(z, s.Al, ke) != 0)
      && s.Ss - 1 <= kex <= s.Se && (forall k :: kex < k <= s.Se ==> SizeAfter(z, s.Ah, k) == 0)
      && (kex >= s.Ss ==> SizeAfter(z, s.Ah, kex) != 0)
    ensures var z := Zigzag(b, s.naturalOrder);
      BlockDecisions(s, c, d, b)
        == Joined(RefineParts(c.acTbl, z, s.Al, s.Ss, kex, s.Ss, ke)) + BandEnd(c.acTbl, ke + 1, s.Se)
  {
    hide RefineDecisions, RefineParts, Joined, BandEnd, Zigzag, SizeAfter, Transform, GoodScan;
    var z := Zigzag(b, s.naturalOrder);
    ScanBounds(s);
    var last := LastNonzero(Transform(z, s.Al), s.Se);
    var before := LastNonzero(Transform(z, s.Ah), last);
    SizesOf(z, s.Al);
    SizesOf(z, s.Ah);
    KnownEarlier(z, s.Al, s.Ah);
    RefineFrom(c.acTbl, z, s.Al, s.Ss, before, s.Ss, last, s.Se);
    if ke < s.Ss {
      assert last < s.Ss;
      NothingToRefine(c.acTbl, z, s.Al, s.Ss, before, last);
      NothingToRefine(c.acTbl, z, s.Al, s.Ss, kex, ke);
    } else {
      assert last == ke;
      assert kex <= ke;
      assert before == kex || (before < s.Ss && kex < s.Ss);
      EarlierEnd(c.acTbl, z, s.Al, s.Ss, before, kex, ke);
    }
  }

  lemma ScanBounds(s: Scan)
    requires GoodScan(s)
    ensures s.Ss <= s.Se < 64 && |s.dcCond| == |s.acK| == NUM_ARITH_TBLS
  {
  }

  lemma SizesOf(z: zigzag, al: nat)
    ensures forall k :: 0 <= k < 64 ==> (Transform(z, al)[k] == 0 <==> SizeAfter(z, al, k) == 0)
  {
    forall k | 0 <= k < 64 ensures Transform(z, al)[k] == 0 <==> SizeAfter(z, al, k) == 0 {
      TransformedSize(z[k], al);
    }
  }

  /** What was nonzero at a higher bit is nonzero now. */
  lemma KnownEarlier(z: zigzag, al: nat, ah: nat)
    requires al <= ah
    ensures forall k :: 0 <= k < 64 && SizeAfter(z, ah, k) != 0 ==> SizeAfter(z, al, k) != 0
  {
    hide Pow2;
    Pow2Monotone(al, ah);
    forall k | 0 <= k < 64 && SizeAfter(z, ah, k) != 0 ensures SizeAfter(z, al, k) != 0 {
      QuotientOrder(Abs(z[k]), Pow2(al), Pow2(ah));
    }
  }

  lemma QuotientOrder(v: nat, p: nat, q: nat)
    requires 1 <= p <= q && v / q != 0
    ensures v / p != 0
  {
    if v < p {
      DivisionUnique(v, q, 0, v);
    } else {
      QuotientPositive(v, p);
    }
  }

  lemma QuotientPositive(v: nat, p: nat)
    requires 1 <= p <= v
    ensures v / p >= 1
  {
  }

  lemma NothingToRefine(tbl: nat, z: zigzag, al: nat, ss: nat, kex: nat, ke: nat)
    requires 1 <= ss && ke < ss <= 63
    ensures RefineParts(tbl, z, al, ss, kex, ss, ke) == []
  {
  }

  lemma EarlierEnd(tbl: nat, z: zigzag, al: nat, ss: nat, x: nat, y: nat, ke: nat)
    requires 1 <= ss && ke < 64 && (x == y || (x < ss && y < ss))
    ensures RefineParts(tbl, z, al, ss, x, ss, ke) == RefineParts(tbl, z, al, ss, y, ss, ke)
  {
    forall j | ss <= j <= ke ensures RefinePart(tbl, z, al, ss, x, j) == RefinePart(tbl, z, al, ss, y, j) {
    }
  }
}
