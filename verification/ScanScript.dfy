/**
 Progressive scan scripts: which ones are accepted, and what the coefficients of a
 block are worth after each scan of an accepted script.
 */
module ScanScript {
  import opened Bytes
  import opened CoefficientModel
  import opened ScanSetup
  import opened Nonlinear

  datatype ScanInfo = ScanInfo(components: seq<int>, Ss: int, Se: int, Ah: int, Al: int)

  const MAX_COMPONENTS := 10
  const MAX_COMPS_IN_SCAN := 4
  const MAX_AH_AL := 10

  /** For one component, the bit to which each coefficient has been sent; -1 if never. */
  type positions = p: seq<int> | |p| == 64 witness seq(64, _ => -1)

  function NothingSent(): positions
  {
    seq(64, _ => -1)
  }

  /** The component list names existing components in frame order. */
  predicate GoodComponents(info: ScanInfo, n: nat)
  {
    && 0 < |info.components| <= MAX_COMPS_IN_SCAN
    && (forall i :: 0 <= i < |info.components| ==> 0 <= info.components[i] < n)
    && (forall i :: 0 < i < |info.components| ==> info.components[i - 1] < info.components[i])
  }

  predicate GoodParameters(info: ScanInfo)
  {
    && 0 <= info.Ss <= info.Se < 64 && 0 <= info.Ah <= MAX_AH_AL && 0 <= info.Al <= MAX_AH_AL
    && (info.Ss == 0 ==> info.Se == 0)
    && (info.Ss != 0 ==> |info.components| == 1)
  }

  /** Coefficient k may be sent next as the scan sends it. */
  predicate CoefficientFollows(info: ScanInfo, pos: int)
  {
    if pos < 0 then info.Ah == 0 else info.Ah == pos && info.Al == info.Ah - 1
  }

  predicate Follows(info: ScanInfo, p: positions)
    requires GoodParameters(info)
  {
    && (info.Ss != 0 ==> p[0] >= 0)
    && forall k :: info.Ss <= k <= info.Se ==> CoefficientFollows(info, p[k])
  }

  function Sends(info: ScanInfo, p: positions): positions
  {
    seq(64, k requires 0 <= k < 64 => if info.Ss <= k <= info.Se then info.Al else p[k])
  }

  function After(info: ScanInfo, ci: int, p: positions): positions
  {
    if ci in info.components then Sends(info, p) else p
  }

  /** Progress of component ci after the first scans of a progressive script. */
  function Progress(scans: seq<ScanInfo>, ci: int): positions
  {
    if scans == [] then NothingSent()
    else
      After(scans[|scans| - 1], ci, Progress(scans[..|scans| - 1], ci))
  }

  /** The scan may come next, after the scans in `before`. */
  predicate MayFollow(info: ScanInfo, before: seq<ScanInfo>, n: nat)
  {
    && GoodComponents(info, n) && GoodParameters(info)
    && forall i :: 0 <= i < |info.components| ==> Follows(info, Progress(before, info.components[i]))
  }

  predicate IsProgressive(scans: seq<ScanInfo>)
    requires scans != []
  {
    scans[0].Ss != 0 || scans[0].Se != 63
  }

  predicate LegalProgressive(scans: seq<ScanInfo>, n: nat)
  {
    && (forall i :: 0 <= i < |scans| ==> MayFollow(scans[i], scans[..i], n))
    && (forall ci :: 0 <= ci < n ==> Progress(scans, ci)[0] >= 0)
  }

  // ----- accepted scripts, told from the scans alone

  /** The scan sends coefficient k of component ci. */
  predicate Carries(info: ScanInfo, ci: int, k: int)
  {
    ci in info.components && info.Ss <= k <= info.Se
  }

  /** One to four components of the frame, in its order; either the DC coefficients of
      these components or a band of AC coefficients of one. */
  predicate WellFormed(info: ScanInfo, n: nat)
  {
    && 1 <= |info.components| <= 4
    && (forall i :: 0 <= i < |info.components| ==> 0 <= info.components[i] < n)
    && (forall i, j :: 0 <= i < j < |info.components| ==> info.components[i] < info.components[j])
    && 0 <= info.Ah <= 10 && 0 <= info.Al <= 10
    && ((info.Ss == 0 && info.Se == 0) || (1 <= info.Ss <= info.Se <= 63 && |info.components| == 1))
  }

  /** Scan j is the last one before scan i to send coefficient k of component ci. */
  predicate LastBefore(scans: seq<ScanInfo>, i: nat, ci: int, k: int, j: nat)
    requires i <= |scans|
  {
    j < i && Carries(scans[j], ci, k) && forall m :: j < m < i ==> !Carries(scans[m], ci, k)
  }

  /** The first scan of a coefficient starts at any bit; a later one sends the bit below the
      one that was sent last. */
  ghost predicate InTurn(scans: seq<ScanInfo>, i: nat, ci: int, k: int)
    requires i < |scans|
  {
    if forall j :: 0 <= j < i ==> !Carries(scans[j], ci, k) then scans[i].Ah == 0
    else exists j: nat :: LastBefore(scans, i, ci, k, j) && scans[i].Ah == scans[j].Al && scans[i].Al == scans[j].Al - 1
  }

  /** Some scan before i sends the DC coefficients of component ci. */
  predicate DcBefore(scans: seq<ScanInfo>, i: nat, ci: int)
    requires i <= |scans|
  {
    exists j :: 0 <= j < i && scans[j].Ss == 0 && ci in scans[j].components
  }

  ghost predicate AcceptedProgressive(scans: seq<ScanInfo>, n: nat)
  {
    && (forall i :: 0 <= i < |scans| ==> WellFormed(scans[i], n))
    && (forall i, ci, k :: 0 <= i < |scans| && Carries(scans[i], ci, k) ==> InTurn(scans, i, ci, k))
    && (forall i, ci :: 0 <= i < |scans| && scans[i].Ss != 0 && ci in scans[i].components ==> DcBefore(scans, i, ci))
    && (forall ci :: 0 <= ci < n ==> DcBefore(scans, |scans|, ci))
  }

  lemma WellFormedIs(info: ScanInfo, n: nat)
    ensures WellFormed(info, n) <==> GoodComponents(info, n) && GoodParameters(info)
  {
    if GoodComponents(info, n) {
      forall i, j | 0 <= i < j < |info.components| ensures info.components[i] < info.components[j] {
        Increase(info, n, i, j);
      }
    }
  }

  lemma {:induction false} Increase(info: ScanInfo, n: nat, i: nat, j: nat)
    requires GoodComponents(info, n) && i < j < |info.components|
    ensures info.components[i] < info.components[j]
  {
    if i + 1 < j {
      Increase(info, n, i, j - 1);
    }
  }

  /** The progress of a coefficient is the bit of the last scan that sent it. */
  lemma {:induction false} ProgressIs(scans: seq<ScanInfo>, ci: int, k: nat) returns (j: int)
    requires k < 64
    ensures -1 <= j < |scans|
    ensures if j < 0 then Progress(scans, ci)[k] == -1 && forall m :: 0 <= m < |scans| ==> !Carries(scans[m], ci, k)
      else Progress(scans, ci)[k] == scans[j].Al && LastBefore(scans, |scans|, ci, k, j)
  {
    j := -1;
    if scans != [] {
      var n := |scans| - 1;
      if Carries(scans[n], ci, k) {
        j := n;
      } else {
        j := ProgressIs(scans[..n], ci, k);
      }
    }
  }

  /** Whether coefficient k may be sent next, by the progress and by the scans. */
  lemma TurnIs(scans: seq<ScanInfo>, i: nat, ci: int, k: nat)
    requires i < |scans| && k < 64 && forall j :: 0 <= j < i ==> scans[j].Al >= 0
    ensures InTurn(scans, i, ci, k) <==> CoefficientFollows(scans[i], Progress(scans[..i], ci)[k])
  {
    var j := ProgressIs(scans[..i], ci, k);
    if j >= 0 {
      LastIsUnique(scans, i, ci, k, j);
    } else {
      assert forall m :: 0 <= m < i ==> scans[..i][m] == scans[m];
    }
  }

  lemma LastIsUnique(scans: seq<ScanInfo>, i: nat, ci: int, k: int, j: nat)
    requires i <= |scans| && LastBefore(scans[..i], i, ci, k, j)
    ensures forall m :: LastBefore(scans, i, ci, k, m) <==> m == j
  {
    assert forall m :: 0 <= m < i ==> scans[..i][m] == scans[m];
  }

  lemma DcBeforeIs(scans: seq<ScanInfo>, i: nat, ci: int, n: nat)
    requires i <= |scans| && forall j :: 0 <= j < i ==> WellFormed(scans[j], n)
    ensures DcBefore(scans, i, ci) <==> Progress(scans[..i], ci)[0] >= 0
  {
    var j := ProgressIs(scans[..i], ci, 0);
    assert forall m :: 0 <= m < i ==> scans[..i][m] == scans[m];
    if DcBefore(scans, i, ci) {
      var m :| 0 <= m < i && scans[m].Ss == 0 && ci in scans[m].components;
      assert WellFormed(scans[m], n) && Carries(scans[..i][m], ci, 0);
    }
  }

  /** Accepted are exactly the scripts whose scans are well formed and send every
      coefficient bit by bit from the top, DC before AC, and some DC of every component. */
  lemma AcceptedExactly(scans: seq<ScanInfo>, n: nat)
    ensures LegalProgressive(scans, n) <==> AcceptedProgressive(scans, n)
  {
    forall i | 0 <= i < |scans|
      ensures WellFormed(scans[i], n) <==> (GoodComponents(scans[i], n) && GoodParameters(scans[i])) {
      WellFormedIs(scans[i], n);
    }
    if forall i :: 0 <= i < |scans| ==> WellFormed(scans[i], n) {
      forall i | 0 <= i < |scans| ensures MayFollow(scans[i], scans[..i], n) <==> Joins(scans, i) {
        MayFollowIs(scans, i, n);
      }
      forall ci | 0 <= ci < n ensures DcBefore(scans, |scans|, ci) <==> Progress(scans, ci)[0] >= 0 {
        DcBeforeIs(scans, |scans|, ci, n);
        assert scans[..|scans|] == scans;
      }
      AllJoin(scans);
    } else {
      var i :| 0 <= i < |scans| && !WellFormed(scans[i], n);
      assert !MayFollow(scans[i], scans[..i], n);
    }
  }

  /** Scan i continues the scans before it. */
  ghost predicate Joins(scans: seq<ScanInfo>, i: nat)
    requires i < |scans|
  {
    && (forall ci, k :: Carries(scans[i], ci, k) ==> InTurn(scans, i, ci, k))
    && (scans[i].Ss != 0 ==> forall ci :: ci in scans[i].components ==> DcBefore(scans, i, ci))
  }

  lemma AllJoin(scans: seq<ScanInfo>)
    ensures (forall i :: 0 <= i < |scans| ==> Joins(scans, i)) <==>
      ((forall i, ci, k :: 0 <= i < |scans| && Carries(scans[i], ci, k) ==> InTurn(scans, i, ci, k))
      && (forall i, ci :: 0 <= i < |scans| && scans[i].Ss != 0 && ci in scans[i].components ==> DcBefore(scans, i, ci)))
  {
    hide Carries, InTurn, DcBefore;
    if forall i :: 0 <= i < |scans| ==> Joins(scans, i) {
      forall i, ci, k | 0 <= i < |scans| && Carries(scans[i], ci, k) ensures InTurn(scans, i, ci, k) {
        assert Joins(scans, i);
      }
      forall i, ci | 0 <= i < |scans| && scans[i].Ss != 0 && ci in scans[i].components
        ensures DcBefore(scans, i, ci) {
        assert Joins(scans, i);
      }
    }
  }

  /** One component of scan i. */
  ghost predicate ComponentJoins(scans: seq<ScanInfo>, i: nat, ci: int)
    requires i < |scans|
  {
    && (forall k :: scans[i].Ss <= k <= scans[i].Se ==> InTurn(scans, i, ci, k))
    && (scans[i].Ss != 0 ==> DcBefore(scans, i, ci))
  }

  lemma FollowsIs(scans: seq<ScanInfo>, i: nat, n: nat, ci: int)
    requires i < |scans| && (forall j :: 0 <= j < |scans| ==> WellFormed(scans[j], n)) && GoodParameters(scans[i])
    ensures Follows(scans[i], Progress(scans[..i], ci)) <==> ComponentJoins(scans, i, ci)
  {
    hide InTurn, DcBefore, CoefficientFollows;
    forall k | scans[i].Ss <= k <= scans[i].Se
      ensures InTurn(scans, i, ci, k) <==> CoefficientFollows(scans[i], Progress(scans[..i], ci)[k]) {
      TurnIs(scans, i, ci, k);
    }
    DcBeforeIs(scans, i, ci, n);
  }

  lemma MayFollowIs(scans: seq<ScanInfo>, i: nat, n: nat)
    requires i < |scans| && forall j :: 0 <= j < |scans| ==> WellFormed(scans[j], n)
    ensures MayFollow(scans[i], scans[..i], n) <==> Joins(scans, i)
  {
    hide Follows, ComponentJoins, Joins, WellFormed;
    var info := scans[i];
    WellFormedIs(info, n);
    forall c | 0 <= c < |info.components|
      ensures Follows(info, Progress(scans[..i], info.components[c]))
        <==> ComponentJoins(scans, i, info.components[c]) {
      FollowsIs(scans, i, n, info.components[c]);
    }
    JoinsByPlace(scans, i);
  }

  lemma JoinsByPlace(scans: seq<ScanInfo>, i: nat)
    requires i < |scans|
    ensures Joins(scans, i) <==> forall c :: 0 <= c < |scans[i].components| ==>
      ComponentJoins(scans, i, scans[i].components[c])
  {
    hide InTurn, DcBefore;
    var info := scans[i];
    if Joins(scans, i) {
      forall c | 0 <= c < |info.components|
        ensures ComponentJoins(scans, i, info.components[c]) {
        assert info.components[c] in info.components;
        assert forall k :: info.Ss <= k <= info.Se ==> Carries(info, info.components[c], k);
      }
    }
  }

  /** In particular an AC scan has a DC scan of its component before it. */
  lemma DcComesFirst(scans: seq<ScanInfo>, n: nat, i: nat, ci: int)
    requires LegalProgressive(scans, n) && i < |scans| && scans[i].Ss != 0 && ci in scans[i].components
    ensures exists j :: 0 <= j < i && scans[j].Ss == 0 && ci in scans[j].components
  {
    AcceptedExactly(scans, n);
    assert DcBefore(scans, i, ci);
  }

  /** A script that sends the AC coefficients first is refused. */
  lemma AcFirstIsRefused()
    ensures !LegalProgressive([ScanInfo([0], 1, 63, 0, 0), ScanInfo([0], 0, 0, 0, 0)], 1)
  {
    var scans := [ScanInfo([0], 1, 63, 0, 0), ScanInfo([0], 0, 0, 0, 0)];
    if LegalProgressive(scans, 1) {
      DcComesFirst(scans, 1, 0, 0);
    }
  }

  // ----- the meaning of progress

  /** What is known of coefficient k, whose value is c, when it has been sent to bit pos. */
  function Known(k: nat, c: int, pos: int): int
  {
    if pos < 0 then 0 else if k == 0 then c / Pow2(pos) * Pow2(pos) else Approx(c, pos)
  }

  /** What has not been sent is 0; otherwise less than 2^pos is missing: a DC value is known
      from below, any other coefficient from the side of zero. */
  lemma KnownIsNear(k: nat, c: int, pos: int)
    ensures pos < 0 ==> Known(k, c, pos) == 0
    ensures pos >= 0 && (k == 0 || c >= 0) ==> Known(k, c, pos) <= c < Known(k, c, pos) + Pow2(pos)
    ensures pos >= 0 && k > 0 && c <= 0 ==> Known(k, c, pos) - Pow2(pos) < c <= Known(k, c, pos) <= 0
  {
    hide Pow2, Approx;
    if pos >= 0 {
      if k == 0 {
        assert c == Pow2(pos) * (c / Pow2(pos)) + c % Pow2(pos);
      } else {
        var q := ApproxIsNearest(c, pos);
      }
    }
  }

  predicate Knows(z: zigzag, c: zigzag, p: positions)
  {
    forall k :: 0 <= k < 64 ==> z[k] == Known(k, c[k], p[k])
  }

  predicate Progresses(s: Scan, info: ScanInfo)
  {
    s.progressive && s.Ss == info.Ss && s.Se == info.Se && s.Ah == info.Ah && s.Al == info.Al
  }

  lemma JcoefFits(x: int)
    requires -0x8000 <= x < 0x8000
    ensures Jcoef(x) == x
  {
  }

  /** Dropping low bits keeps a 16-bit number a 16-bit number. */
  lemma FloorKeepsRange(c: int, n: nat)
    requires -0x8000 <= c < 0x8000 && n <= 15
    ensures -0x8000 <= c / Pow2(n) * Pow2(n) <= c
  {
    assert Pow2(n) * Pow2(15 - n) == 0x8000 by { Pow2Add(n, 15 - n); Pow2Values(); }
    FloorBounds(c, Pow2(n), Pow2(15 - n));
  }

  lemma FloorBounds(c: int, p: int, m: int)
    requires 1 <= p && -(p * m) <= c
    ensures -(p * m) <= c / p * p <= c
  {
    var q := c / p;
    assert q * p == c - c % p;
    Reassociate(-1, m, p);
    if q < -m {
      MulMonotone(q + 1, -m, p);
      Distribute(q, 1, p);
    }
    MulMonotone(-m, q, p);
  }

  lemma ApproxKeepsRange(c: int, n: nat)
    requires -0x8000 <= c < 0x8000
    ensures -0x8000 <= Approx(c, n) < 0x8000
  {
    var q := ShiftRight(Abs(c), n);
    QuotientTimes(Abs(c), Pow2(n));
    assert (-q) * Pow2(n) == -(q * Pow2(n));
  }

  lemma QuotientTimes(x: nat, d: nat)
    requires 1 <= d
    ensures 0 <= x / d * d <= x
  {
  }

  lemma ApproxZeroBits(c: int)
    ensures Approx(c, 0) == c && Transformed(c, 0) == c
  {
  }

  /** The bit a DC refinement scan sends, added to what was known. */
  lemma FloorNextBit(c: int, n: nat)
    ensures c / Pow2(n) * Pow2(n) == (var before := c / Pow2(n + 1) * Pow2(n + 1);
      if c / Pow2(n) % 2 == 1 then WithBit(before, Pow2(n)) else before)
  {
    var p := Pow2(n);
    var q, h := c / p, c / (2 * p);
    FloorHalf(c, p);
    assert q == 2 * h + q % 2;
    Reassociate(h, 2, p);
    Distribute(2 * h, q % 2, p);
    DivisionUnique(h * (2 * p), p, 2 * h, 0);
  }

  lemma FloorHalf(c: int, p: nat)
    requires 1 <= p
    ensures c / p / 2 == c / (2 * p)
  {
    var q := c / p;
    var h, r := q / 2, q % 2;
    Reassociate(p, 2, h);
    MulMonotone(r, 1, p);
    assert c == (2 * p) * h + (p * r + c % p);
    DivisionUnique(c, 2 * p, h, p * r + c % p);
  }

  /** A scan that follows the progress made so far can be decoded, and takes what is
      known of the block to the scan's bit. */
  lemma ScanAdvances(s: Scan, info: ScanInfo, z: zigzag, b: block, p: positions)
    requires GoodParameters(info) && Progresses(s, info) && Follows(info, p)
    requires SmallBlock(b) && GoodOrder(s.naturalOrder) && Knows(z, Zigzag(b, s.naturalOrder), p)
    ensures ReadyFor(s, z, b)
    ensures Knows(Received(s, z, b), Zigzag(b, s.naturalOrder), Sends(info, p))
  {
    var c := Zigzag(b, s.naturalOrder);
    var r := Received(s, z, b);
    if ModeOf(s) == AcRefine {
      forall k | s.Ss <= k <= s.Se ensures s.Ah == s.Al + 1 && z[k] == Approx(c[k], s.Al + 1) {
        assert CoefficientFollows(info, p[k]);
      }
      assert s.Ah == s.Al + 1 by { assert CoefficientFollows(info, p[s.Ss]); }
    }
    forall k | 0 <= k < 64 ensures r[k] == Known(k, c[k], Sends(info, p)[k]) {
      CoefficientAdvances(s, info, z, b, p, k);
    }
  }

  lemma CoefficientAdvances(s: Scan, info: ScanInfo, z: zigzag, b: block, p: positions, k: nat)
    requires GoodParameters(info) && Progresses(s, info) && Follows(info, p)
    requires SmallBlock(b) && GoodOrder(s.naturalOrder) && Knows(z, Zigzag(b, s.naturalOrder), p) && k < 64
    ensures Received(s, z, b)[k] == Known(k, Zigzag(b, s.naturalOrder)[k], Sends(info, p)[k])
  {
    hide Pow2, Jcoef, Approx, Transformed, WithBit, NoRepeats;
    var c := Zigzag(b, s.naturalOrder);
    if info.Ss <= k <= info.Se {
      assert CoefficientFollows(info, p[k]);
      FloorKeepsRange(c[k], s.Al);
      ApproxKeepsRange(c[k], s.Al);
      JcoefFits(c[k] / Pow2(s.Al) * Pow2(s.Al));
      JcoefFits(Approx(c[k], s.Al));
      match ModeOf(s)
      case DcFirst =>
      case DcRefine =>
        FloorNextBit(c[0], s.Al);
      case AcFirst =>
        ApproxOfTransformed(c[k], s.Al);
      case AcRefine =>
    }
  }

  lemma ApproxOfTransformed(c: int, al: nat)
    ensures Approx(c, al) == Transformed(c, al) * Pow2(al)
    ensures Transformed(c, al) == 0 ==> Approx(c, al) == 0
  {
  }

  /** A block, in zigzag order, after the scans of a script that include its component;
      setups[i] is the setup in force during scan i. */
  function BlockAfter(scans: seq<ScanInfo>, setups: seq<Scan>, ci: int, b: block): zigzag
    requires |setups| == |scans| && forall i :: 0 <= i < |setups| ==> setups[i].Ss <= setups[i].Se < 64
  {
    if scans == [] then seq(64, _ => 0)
    else
      var n := |scans| - 1;
      var z := BlockAfter(scans[..n], setups[..n], ci, b);
      if ci in scans[n].components then Received(setups[n], z, b) else z
  }

  predicate SetupsMatch(scans: seq<ScanInfo>, setups: seq<Scan>, o: order)
  {
    && |setups| == |scans|
    && forall i :: 0 <= i < |scans| ==> Progresses(setups[i], scans[i]) && setups[i].naturalOrder == o
  }

  /** After every scan of an accepted script each coefficient is known to exactly the
      bit the script has reached, and the next scan finds what it needs. */
  lemma {:induction false} ScriptApproximates(scans: seq<ScanInfo>, setups: seq<Scan>, n: nat, ci: int, b: block,
      o: order)
    requires forall i :: 0 <= i < |scans| ==> MayFollow(scans[i], scans[..i], n)
    requires SetupsMatch(scans, setups, o) && GoodOrder(o) && SmallBlock(b)
    ensures forall i :: 0 <= i < |setups| ==> setups[i].Ss <= setups[i].Se < 64
    ensures Knows(BlockAfter(scans, setups, ci, b), Zigzag(b, o), Progress(scans, ci))
    decreases |scans|
  {
    hide Received, Sends, Known, SmallBlock, GoodOrder, GoodComponents;
    forall i | 0 <= i < |setups| ensures setups[i].Ss <= setups[i].Se < 64 {
      assert MayFollow(scans[i], scans[..i], n);
    }
    if scans == [] {
      NothingKnown(Zigzag(b, o));
    } else {
      var k := |scans| - 1;
      var before, info := scans[..k], scans[k];
      forall i | 0 <= i < k ensures MayFollow(before[i], before[..i], n) {
        assert scans[..i] == before[..i];
      }
      ScriptApproximates(before, setups[..k], n, ci, b, o);
      assert MayFollow(info, before, n);
      if ci in info.components {
        var i :| 0 <= i < |info.components| && info.components[i] == ci;
        ScanAdvances(setups[k], info, BlockAfter(before, setups[..k], ci, b), b, Progress(before, ci));
      }
    }
  }

  lemma NothingKnown(c: zigzag)
    ensures Knows(seq(64, _ => 0), c, NothingSent())
  {
  }

  /** A coefficient sent down to bit 0 is restored. */
  lemma SentToBitZeroIsRestored(scans: seq<ScanInfo>, setups: seq<Scan>, n: nat, ci: int, b: block, o: order, k: nat)
    requires forall i :: 0 <= i < |scans| ==> MayFollow(scans[i], scans[..i], n)
    requires SetupsMatch(scans, setups, o) && GoodOrder(o) && SmallBlock(b)
    requires k < 64 && Progress(scans, ci)[k] == 0
    requires forall i :: 0 <= i < |setups| ==> setups[i].Ss <= setups[i].Se < 64
    ensures BlockAfter(scans, setups, ci, b)[k] == b[o[k]]
  {
    ScriptApproximates(scans, setups, n, ci, b, o);
    ApproxZeroBits(b[o[k]]);
  }
}
