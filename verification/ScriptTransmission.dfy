/**
 A whole picture sent by a progressive script: every scan is laid out, its MCUs are sent
 from the stored blocks of the picture, coded and decoded, and stored in the decoder's
 arrays.  Afterwards the decoder knows every coefficient to the bit that the script has
 reached.
 */
module ScriptTransmission {
  import opened Bytes
  import opened CoefficientModel
  import opened ScanSetup
  import opened ScanScript
  import opened ScriptValidation
  import opened ImageGeometry
  import opened McuTraversal
  import opened CoefController
  import opened CoefBuffer
  import opened ArithScan
  import opened DecodedPicture
  import HT = HuffmanTables
  import H = HuffmanModel
  import PM = ProgressiveModel
  import PO = ProgressiveOptimization
  import PR = ProgressiveRestarts
  import PT = ProgressiveTransmission
  import RI = RestartIntervals
  import AD = ArithMcuDecoder
  import AR = ArithRestarts

  /** A frame with its sizes and restart settings, and the quantised blocks of every
      component. */
  datatype Image = Image(width: nat, maxH: nat, total: nat, restartInRows: nat, restartInterval: nat,
    frame: seq<ComponentInfo>, picture: seq<grid>)

  ghost predicate GoodImage(im: Image)
  {
    && im.width > 0 && im.maxH > 0 && im.total > 0 && |im.frame| == |im.picture|
    && forall i :: 0 <= i < |im.frame| ==>
      GoodComponent(im.frame[i], im.picture[i], im.total) && im.frame[i].componentIndex == i
  }

  ghost predicate GoodComponent(c: ComponentInfo, g: grid, total: nat)
  {
    InFrame(c, total) && c.heightInBlocks > 0 && Fits(c, g) && SmallGrid(g)
  }

  /** The setup code holds the sizes of the image. */
  ghost predicate Matches(m: Master, im: Image)
    reads m
  {
    && m.Ready() && m.imageWidth == im.width && m.maxH == im.maxH && m.totalIMcuRows == im.total
    && m.restartInRows == im.restartInRows && (im.restartInRows == 0 ==> m.restartInterval == im.restartInterval)
    && SameFrame(m.compInfo, im.frame)
  }

  function ImageOf(m: Master, picture: seq<grid>): Image
    requires m.imageWidth >= 0 && m.maxH >= 0
    reads m
  {
    Image(m.imageWidth, m.maxH, m.totalIMcuRows, m.restartInRows, m.restartInterval, m.compInfo, picture)
  }

  lemma ReadyImage(m: Master, picture: seq<grid>)
    requires m.Ready() && |picture| == |m.compInfo|
    requires forall i :: 0 <= i < |picture| ==> Fits(m.compInfo[i], picture[i]) && SmallGrid(picture[i])
    ensures m.imageWidth >= 0 && m.maxH >= 0 && GoodImage(ImageOf(m, picture)) && Matches(m, ImageOf(m, picture))
  {
    hide SmallGrid, Fits, IsLargest, Tiles, Covers;
    forall i | 0 <= i < |picture| ensures InFrame(m.compInfo[i], m.totalIMcuRows) && m.compInfo[i].heightInBlocks > 0 {
      m.Extents(m.compInfo[i]);
    }
    m.AtLeastOne(m.totalIMcuRows, DCTSIZE * m.maxV, m.imageHeight);
  }

  // ----- the layout of a scan

  /** The components of a scan, by their numbers. */
  function Numbers(info: ScanInfo, n: nat): (cur: seq<nat>)
    requires GoodComponents(info, n)
    ensures |cur| == |info.components| && forall i :: 0 <= i < |cur| ==> cur[i] == info.components[i] && cur[i] < n
  {
    seq(|info.components|, i requires 0 <= i < |info.components| && GoodComponents(info, n) => info.components[i])
  }

  lemma {:induction false} NumbersIncrease(info: ScanInfo, n: nat, i: nat, j: nat)
    requires GoodComponents(info, n) && i < j < |info.components|
    ensures info.components[i] < info.components[j]
  {
    if i + 1 < j {
      NumbersIncrease(info, n, i, j - 1);
    }
  }

  lemma NumbersDiffer(info: ScanInfo, n: nat)
    requires GoodComponents(info, n)
    ensures var cur := Numbers(info, n); forall i, j :: 0 <= i < j < |cur| ==> cur[i] != cur[j]
  {
    var cur := Numbers(info, n);
    forall i, j | 0 <= i < j < |cur| ensures cur[i] != cur[j] {
      NumbersIncrease(info, n, i, j);
    }
  }

  function Layout(im: Image, cur: seq<nat>): (cs: seq<ComponentInfo>)
    requires AllHaveFactors(im.frame) && forall i :: 0 <= i < |cur| ==> cur[i] < |im.frame|
    ensures |cs| == |cur| && forall i :: 0 <= i < |cur| ==> cs[i] == InScan(im.frame[cur[i]], |cur| == 1)
  {
    seq(|cur|, i requires 0 <= i < |cur| && AllHaveFactors(im.frame) && cur[i] < |im.frame| =>
      InScan(im.frame[cur[i]], |cur| == 1))
  }

  function McusAcross(im: Image, cur: seq<nat>): nat
    requires im.maxH > 0 && forall i :: 0 <= i < |cur| ==> cur[i] < |im.frame|
  {
    if |cur| == 1 then im.frame[cur[0]].widthInBlocks else DivRoundUp(im.width, DCTSIZE * im.maxH)
  }

  function McusDown(im: Image, cur: seq<nat>): nat
    requires forall i :: 0 <= i < |cur| ==> cur[i] < |im.frame|
  {
    if |cur| == 1 then im.frame[cur[0]].heightInBlocks else im.total
  }

  /** The restart interval of a scan: so many rows of MCUs, if that is what is asked for. */
  function IntervalOf(im: Image, cur: seq<nat>): nat
    requires im.maxH > 0 && forall i :: 0 <= i < |cur| ==> cur[i] < |im.frame|
  {
    if im.restartInRows == 0 then im.restartInterval else Smaller(im.restartInRows * McusAcross(im, cur), 65535)
  }

  function Smaller(a: nat, b: nat): nat
  {
    if a < b then a else b
  }

  lemma HasFactors(im: Image)
    requires GoodImage(im)
    ensures AllHaveFactors(im.frame)
  {
    hide Tiles, SmallGrid, Fits;
  }

  /** per_scan_setup finds this layout. */
  lemma LayoutIsSetUp(m: Master, im: Image, cur: seq<nat>)
    requires Matches(m, im) && GoodImage(im) && m.ScanReady(cur)
    ensures AllHaveFactors(im.frame) && forall i :: 0 <= i < |cur| ==> cur[i] < |im.frame|
    ensures m.Scanned(cur) == Layout(im, cur)
    ensures m.mcusPerRow == McusAcross(im, cur) && m.mcuRowsInScan == McusDown(im, cur)
    ensures ScanTiles(Layout(im, cur), McusAcross(im, cur), McusDown(im, cur), im.total)
    ensures |Membership(Layout(im, cur))| <= C_MAX_BLOCKS_IN_MCU
  {
    hide GoodImage, Membership, IsLargest, Sized, InScan, Master.Ready, Tiles;
    HasFactors(im);
    var cs := m.Scanned(cur);
    forall i | 0 <= i < |cur| ensures cs[i] == Layout(im, cur)[i] {
      assert IsInScan(m.compInfo[cur[i]], |cur| == 1);
      InScanCleared(m.compInfo[cur[i]], im.frame[cur[i]], |cur| == 1);
    }
    assert cs == Layout(im, cur);
    assert im.width > 0 && im.maxH > 0 by { Positive(im); }
    if |cur| == 1 {
      assert Cleared(m.compInfo[cur[0]]) == Cleared(im.frame[cur[0]]);
      SameSize(m.compInfo[cur[0]], im.frame[cur[0]]);
    } else {
      CoverIsUnique(m.mcusPerRow, McusAcross(im, cur), DCTSIZE * im.maxH, im.width);
    }
  }

  lemma Positive(im: Image)
    requires GoodImage(im)
    ensures im.width > 0 && im.maxH > 0 && im.total > 0 && |im.frame| == |im.picture|
  {
  }

  lemma SameSize(a: ComponentInfo, b: ComponentInfo)
    requires Cleared(a) == Cleared(b)
    ensures a.h == b.h && a.v == b.v && a.widthInBlocks == b.widthInBlocks && a.heightInBlocks == b.heightInBlocks
    ensures a.componentIndex == b.componentIndex
  {
    assert Cleared(a).h == a.h && Cleared(a).v == a.v && Cleared(a).widthInBlocks == a.widthInBlocks
      && Cleared(a).heightInBlocks == a.heightInBlocks && Cleared(a).componentIndex == a.componentIndex;
    assert Cleared(b).h == b.h && Cleared(b).v == b.v && Cleared(b).widthInBlocks == b.widthInBlocks
      && Cleared(b).heightInBlocks == b.heightInBlocks && Cleared(b).componentIndex == b.componentIndex;
  }

  /** What a layout keeps of the frame. */
  lemma LayoutKeeps(im: Image, cur: seq<nat>, i: nat)
    requires GoodImage(im) && AllHaveFactors(im.frame) && (forall i :: 0 <= i < |cur| ==> cur[i] < |im.frame|)
    requires i < |cur|
    ensures var c := Layout(im, cur)[i]; c.componentIndex == cur[i] && Stored(c, im.frame[cur[i]])
  {
    SameSize(InScan(im.frame[cur[i]], |cur| == 1), im.frame[cur[i]]);
  }

  /** A scan of these components can be laid out over the image. */
  ghost predicate LaysOut(im: Image, cur: seq<nat>)
  {
    && GoodImage(im) && AllHaveFactors(im.frame) && (forall i :: 0 <= i < |cur| ==> cur[i] < |im.frame|)
    && ScanTiles(Layout(im, cur), McusAcross(im, cur), McusDown(im, cur), im.total)
  }

  lemma LayoutFits(im: Image, cur: seq<nat>)
    requires LaysOut(im, cur)
    ensures var cs := Layout(im, cur);
      && AllSolid(cs) && (forall i :: 0 <= i < |cs| ==> cs[i].componentIndex < |im.picture| == |im.frame|)
      && AllFit(cs, Select(im.picture, cs)) && AllSmall(Select(im.picture, cs))
  {
    hide ScanTiles, SmallGrid, InScan, Tiles;
    var cs := Layout(im, cur);
    ScanIsSolid(cs, McusAcross(im, cur), McusDown(im, cur), im.total);
    forall i | 0 <= i < |cs|
      ensures cs[i].componentIndex == cur[i] && Fits(cs[i], im.picture[cur[i]]) && SmallGrid(im.picture[cur[i]]) {
      LayoutKeeps(im, cur, i);
      assert GoodComponent(im.frame[cur[i]], im.picture[cur[i]], im.total);
    }
  }

  /** The MCUs of a scan of the image. */
  ghost function ScanMcus(im: Image, cur: seq<nat>): (mcus: seq<seq<block>>)
    requires LaysOut(im, cur)
  {
    LayoutFits(im, cur);
    Raster(Layout(im, cur), Select(im.picture, Layout(im, cur)), McusAcross(im, cur), McusDown(im, cur))
  }

  // ----- sending the MCUs of a scan

  /** The compressor's arrays are for the blocks of the image. */
  ghost predicate ArraysHold(full: FullImage, im: Image)
  {
    && |full.arrays| == |im.frame| == |im.picture| && full.total == im.total && full.Apart()
    && full.mcuBuffer.Length == C_MAX_BLOCKS_IN_MCU
    && forall i :: 0 <= i < |full.arrays| ==> ArrayHolds(full.arrays[i], im.frame[i], im.picture[i], im.total)
  }

  ghost predicate ArrayHolds(a: CoefArray, c: ComponentInfo, g: grid, total: nat)
  {
    a.c == c && a.g == g && a.total == total && a.Setting()
  }

  ghost predicate Shows(full: FullImage, inputs: seq<seq<grid>>)
  {
    |inputs| == full.total && forall k :: 0 <= k < |inputs| ==> full.Strips(inputs[k], k)
  }

  lemma SameFactors(a: seq<ComponentInfo>, b: seq<ComponentInfo>)
    requires SameFrame(a, b)
    ensures Hs(a) == Hs(b) && Vs(a) == Vs(b)
  {
    forall i | 0 <= i < |a| ensures a[i].h == b[i].h && a[i].v == b[i].v {
      SameSize(a[i], b[i]);
    }
  }

  lemma SameFrameAgain(a: seq<ComponentInfo>, b: seq<ComponentInfo>, c: seq<ComponentInfo>)
    requires SameFrame(a, b) && SameFrame(b, c)
    ensures SameFrame(a, c)
  {
  }

  /** per_scan_setup, for the components of a scan. */
  method SetUpScan(m: Master, ghost im: Image, info: ScanInfo) returns (r: Setup)
    requires Matches(m, im) && GoodImage(im) && GoodComponents(info, |im.frame|)
    modifies m
    ensures Matches(m, im) && r == ScanCheck(Hs(im.frame), Vs(im.frame), Numbers(info, |im.frame|))
    ensures var cur := Numbers(info, |im.frame|);
      r == Done ==> (LaysOut(im, cur) && m.ScanReady(cur) && m.Scanned(cur) == Layout(im, cur)
        && m.mcusPerRow == McusAcross(im, cur) && m.mcuRowsInScan == McusDown(im, cur)
        && m.restartInterval == IntervalOf(im, cur))
  {
    hide Master.Ready, Master.ScanReady, GoodImage, GoodComponents, ScanTiles, ScanCheck, Cleared;
    ghost var before := m.compInfo;
    SameFactors(m.compInfo, im.frame);
    NumbersDiffer(info, |m.compInfo|);
    r := m.PerScanSetup(Numbers(info, |m.compInfo|));
    SameFrameAgain(m.compInfo, before, im.frame);
    if r == Done {
      LayoutIsSetUp(m, im, Numbers(info, |im.frame|));
    }
  }

  /** A pass of the compressor over the stored blocks. */
  method SendScan(full: FullImage, ghost im: Image, cs: seq<ComponentInfo>, mcusPerRow: nat, mcuRows: nat,
      ghost cur: seq<nat>,
      first: bool, inputs: seq<seq<grid>>) returns (mcus: seq<seq<block>>)
    requires ArraysHold(full, im) && LaysOut(im, cur) && cs == Layout(im, cur)
    requires |Membership(cs)| <= C_MAX_BLOCKS_IN_MCU
    requires mcusPerRow == McusAcross(im, cur) && mcuRows == McusDown(im, cur)
    requires if first then full.AllLoaded(0) && Shows(full, inputs) else full.AllLoaded(full.total)
    modifies full, full.dest, full.mcuBuffer, set i | 0 <= i < |full.arrays| :: full.arrays[i].image
    ensures full.AllLoaded(full.total) && mcus == ScanMcus(im, cur)
  {
    hide GoodImage, ScanTiles, Membership, InScan, FullImage.AllLoaded, FullImage.Apart, FullImage.Valid, AllSolid,
      AllFit,
      Raster, CoefArray.Setting, FullImage.Strips, FullImage.Setting;
    LayoutFits(im, cur);
    forall i | 0 <= i < |cs| ensures cs[i].componentIndex == cur[i] && Stored(cs[i], im.frame[cur[i]]) {
      LayoutKeeps(im, cur, i);
    }
    full.dest.StartScan();
    full.StartPass(cs, mcusPerRow, mcuRows);
    assert full.Picture() == Select(im.picture, cs);
    if first {
      full.SendFirstPass(inputs);
    } else {
      full.SendPass();
    }
    mcus := full.dest.mcus;
  }

  // ----- coding a scan

  /** What the coders are told of an image: the tables of its components, the conditioning
      and the order of the coefficients. */
  datatype Coding = Coding(components: seq<Component>, dcCond: seq<DcConditioning>, acK: seq<nat>, naturalOrder: order)

  ghost predicate GoodCoding(coding: Coding, n: nat)
  {
    && |coding.components| == n && |coding.dcCond| == NUM_ARITH_TBLS && |coding.acK| == NUM_ARITH_TBLS
    && GoodOrder(coding.naturalOrder)
    && forall ci :: 0 <= ci < n ==>
      coding.components[ci].dcTbl < NUM_ARITH_TBLS && coding.components[ci].acTbl < NUM_ARITH_TBLS
  }

  function SetupOf(info: ScanInfo, cs: seq<ComponentInfo>, coding: Coding): Scan
    requires GoodParameters(info) && forall i :: 0 <= i < |cs| ==> cs[i].componentIndex < |coding.components|
  {
    Scan(true,
      seq(|cs|, i requires 0 <= i < |cs| && cs[i].componentIndex < |coding.components| =>
        coding.components[cs[i].componentIndex]),
      Membership(cs), coding.dcCond, coding.acK, info.Ss, info.Se, info.Ah, info.Al, coding.naturalOrder)
  }

  /** A scan of the script over the image. */
  ghost predicate Scans(im: Image, info: ScanInfo, coding: Coding)
  {
    && GoodImage(im) && GoodCoding(coding, |im.frame|) && GoodComponents(info, |im.frame|) && GoodParameters(info)
    && LaysOut(im, Numbers(info, |im.frame|))
  }

  ghost function SetupFor(im: Image, info: ScanInfo, coding: Coding): Scan
    requires Scans(im, info, coding)
  {
    LayoutFits(im, Numbers(info, |im.frame|));
    SetupOf(info, Layout(im, Numbers(info, |im.frame|)), coding)
  }

  ghost function McusFor(im: Image, info: ScanInfo, coding: Coding): seq<seq<block>>
    requires Scans(im, info, coding)
  {
    ScanMcus(im, Numbers(info, |im.frame|))
  }

  ghost function IntervalFor(im: Image, info: ScanInfo, coding: Coding): nat
    requires Scans(im, info, coding)
  {
    IntervalOf(im, Numbers(info, |im.frame|))
  }

  lemma SetupIsGood(im: Image, info: ScanInfo, coding: Coding)
    requires Scans(im, info, coding)
    ensures var s := SetupFor(im, info, coding);
      GoodScan(s) && GoodMcus(s, McusFor(im, info, coding)) && Progresses(s, info) && GoodOrder(s.naturalOrder)
  {
    hide GoodImage, SmallBlocks, AllSmall, AllFit, AllSolid, InScan, GoodOrder, Tiles, Raster, TilesComponent,
      Membership;
    var cur := Numbers(info, |im.frame|);
    LayoutFits(im, cur);
    Positive(im);
    var cs := Layout(im, cur);
    forall i | 0 <= i < |cs| ensures cs[i].componentIndex < |im.frame| {
      LayoutKeeps(im, cur, i);
    }
    MembersAreInScan(cs);
    RasterIsSmall(cs, Select(im.picture, cs), McusAcross(im, cur), McusDown(im, cur));
    AreGoodMcus(SetupFor(im, info, coding), McusFor(im, info, coding));
  }

  lemma AreGoodMcus(s: Scan, mcus: seq<seq<block>>)
    requires forall m :: 0 <= m < |mcus| ==> |mcus[m]| == |s.membership| && SmallBlocks(mcus[m])
    ensures GoodMcus(s, mcus)
  {
  }

  /** The layout of a scan is of different components of the frame. */
  lemma LayoutOfFrame(im: Image, info: ScanInfo)
    requires GoodImage(im) && AllHaveFactors(im.frame) && GoodComponents(info, |im.frame|)
    ensures var cs := Layout(im, Numbers(info, |im.frame|));
      && OfFrame(info, cs, im.frame) && Different(cs) && |im.frame| == |im.picture|
      && forall i :: 0 <= i < |cs| ==> cs[i].componentIndex < |im.frame|
  {
    hide GoodImage, InScan;
    var cur := Numbers(info, |im.frame|);
    var cs := Layout(im, cur);
    Positive(im);
    forall i | 0 <= i < |cs| ensures cs[i].componentIndex == cur[i] && Stored(cs[i], im.frame[cur[i]]) {
      LayoutKeeps(im, cur, i);
    }
    NumbersDiffer(info, |im.frame|);
  }

  lemma HeldFits(info: ScanInfo, cs: seq<ComponentInfo>, frame: seq<ComponentInfo>, held: seq<grid>)
    requires OfFrame(info, cs, frame) && AllHaveFactors(cs) && AllHaveFactors(frame) && Shaped(frame, held)
    requires AllSolid(cs) && AllSolid(Wides(cs))
    ensures CanGather(cs, held)
  {
    hide RoundUp;
    forall i | 0 <= i < |cs| ensures Fits(Wides(cs)[i], Select(held, cs)[i]) {
      var j := cs[i].componentIndex;
      assert Fits(Wides(frame)[j], held[j]) && Stored(cs[i], frame[j]);
    }
  }

  /** The arrays of the decoder as the scan finds them. */
  lemma ScanIsOver(im: Image, info: ScanInfo, coding: Coding, held: seq<grid>)
    requires Scans(im, info, coding) && AllHaveFactors(im.frame) && Shaped(im.frame, held)
    ensures var cur := Numbers(info, |im.frame|);
      ScanOver(SetupFor(im, info, coding), info, Layout(im, cur), held, im.picture,
        McusAcross(im, cur), McusDown(im, cur), im.total)
  {
    hide GoodOrder, Raster, Membership, GoodMcus, GoodScan, GoodImage, AllFit, AllSolid, ScanTiles, OfFrame, Different,
      GoodParameters, AllHaveFactors, Wides, Shaped;
    var cur := Numbers(info, |im.frame|);
    var cs := Layout(im, cur);
    Positive(im);
    LayoutFits(im, cur);
    LayoutOfFrame(im, info);
    SetupIsGood(im, info, coding);
    WidesAreSolid(cs, McusAcross(im, cur), McusDown(im, cur), im.total);
    HeldFits(info, cs, im.frame, held);
    ShapedSize(im.frame, held);
  }

  lemma ShapedSize(frame: seq<ComponentInfo>, held: seq<grid>)
    requires AllHaveFactors(frame) && Shaped(frame, held)
    ensures |held| == |frame|
  {
  }

  /** The arrays keep their sizes. */
  lemma StaysShaped(frame: seq<ComponentInfo>, held: seq<grid>, after: seq<grid>, cs: seq<ComponentInfo>,
      mcusPerRow: nat, mcuRows: nat, out: seq<seq<block>>)
    requires AllHaveFactors(frame) && Shaped(frame, held) && CanGather(cs, held)
    requires IsStored(cs, mcusPerRow, mcuRows, held, out, after)
    ensures Shaped(frame, after)
  {
    hide Wide, StoredComponent;
    forall j | 0 <= j < |frame| ensures Fits(Wides(frame)[j], after[j]) {
      assert Fits(Wides(frame)[j], held[j]);
      if i :| 0 <= i < |cs| && cs[i].componentIndex == j {
        assert after[j] == StoredComponent(cs, i, mcusPerRow, mcuRows, held[j], out);
      }
    }
  }

  /** The empty arrays of the decoder. */
  method BlankArrays(frame: seq<ComponentInfo>, ghost picture: seq<grid>, ghost o: order) returns (held: seq<grid>)
    requires AllHaveFactors(frame) && |picture| == |frame|
    requires forall j :: 0 <= j < |frame| ==> Fits(frame[j], picture[j])
    requires forall j :: 0 <= j < |frame| ==> frame[j].widthInBlocks > 0 && frame[j].heightInBlocks > 0
    ensures Shaped(frame, held) && |held| == |frame| && KnowsPicture(frame, held, picture, [], o)
  {
    hide RoundUp, Knows;
    held := [];
    for j := 0 to |frame|
      invariant |held| == j && forall i :: 0 <= i < j ==> Fits(Wides(frame)[i], held[i])
      invariant forall i :: 0 <= i < j ==> KnowsComponent(frame[i], held[i], picture[i], NothingSent(), o)
    {
      var c := frame[j];
      var row := seq(Across(c), _ => Blank());
      var h := seq(Down(c), _ => row);
      AtLeastAll(c.widthInBlocks, c.h);
      AtLeastAll(c.heightInBlocks, c.v);
      forall y, x | 0 <= y < c.heightInBlocks && 0 <= x < c.widthInBlocks
        ensures KnowsBlock(h, picture[j], y, x, NothingSent(), o) {
        BlankIsKnown(picture[j][y][x], o);
      }
      held := held + [h];
    }
  }

  lemma BlankIsKnown(b: block, o: order)
    ensures Knows(Zigzag(Blank(), o), Zigzag(b, o), NothingSent())
  {
    NothingKnown(Zigzag(b, o));
    assert Zigzag(Blank(), o) == seq(64, _ => 0);
  }

  // ----- one scan through the decoder

  /** What the decoder has of the image after the scans in `before`. */
  ghost predicate Holding(im: Image, held: seq<grid>, before: seq<ScanInfo>, coding: Coding)
  {
    && AllHaveFactors(im.frame) && Shaped(im.frame, held) && |held| == |im.frame| == |im.picture|
    && KnowsPicture(im.frame, held, im.picture, before, coding.naturalOrder)
  }

  /** The layout of a scan, and the setup of its coders. */
  ghost predicate IsLaidOut(im: Image, info: ScanInfo, coding: Coding, s: Scan, cs: seq<ComponentInfo>, across: nat,
      down: nat)
  {
    && Scans(im, info, coding) && s == SetupFor(im, info, coding)
    && var cur := Numbers(info, |im.frame|);
      im.maxH > 0 && cs == Layout(im, cur)
      && across == McusAcross(im, cur) && down == McusDown(im, cur)
  }

  /** The entropy decoder finds what it needs in the arrays. */
  lemma PriorsAreGood(im: Image, info: ScanInfo, coding: Coding, s: Scan, cs: seq<ComponentInfo>, across: nat,
      down: nat,
      before: seq<ScanInfo>, held: seq<grid>)
    requires IsLaidOut(im, info, coding, s, cs, across, down)
    requires Holding(im, held, before, coding) && MayFollow(info, before, |im.frame|)
    ensures CanGather(cs, held) && Different(cs) && s.Ss <= s.Se < 64
    ensures |McusFor(im, info, coding)| == down * across
    ensures GoodPriors(s, Gathered(cs, held, across, down), McusFor(im, info, coding))
  {
    hide GoodImage, GoodOrder, Raster, Gathered, AllFit, AllSolid, ScanTiles, Membership, GoodParameters, Shaped,
      KnowsBlock,
      Progress, ScanScript.Follows, ScanOver, GoodPriors, InScan, GoodScan, GoodMcus, CanGather;
    Positive(im);
    LayoutFits(im, Numbers(info, |im.frame|));
    LayoutOfFrame(im, info);
    ScanIsOver(im, info, coding, held);
    SendsBand(s, info, cs, held, im.picture, across, down, im.total);
    var j := cs[0].componentIndex;
    assert KnowsComponent(im.frame[j], held[j], im.picture[j], Progress(before, j), coding.naturalOrder);
    assert Stored(cs[0], im.frame[j]);
    PriorsAreReady(s, info, cs, held, im.picture, across, down, im.total, Progress(before, j));
  }

  /** The arrays after the scan. */
  lemma ScanIsKnown(im: Image, info: ScanInfo, coding: Coding, s: Scan, cs: seq<ComponentInfo>, across: nat, down: nat,
      before: seq<ScanInfo>, held: seq<grid>, out: seq<seq<block>>, after: seq<grid>)
    requires IsLaidOut(im, info, coding, s, cs, across, down)
    requires Holding(im, held, before, coding) && MayFollow(info, before, |im.frame|)
    requires CanGather(cs, held) && s.Ss <= s.Se < 64 && |out| == |McusFor(im, info, coding)| == down * across
    requires ScanReceived(s, Gathered(cs, held, across, down), McusFor(im, info, coding), out)
    requires IsStored(cs, across, down, held, out, after)
    ensures Holding(im, after, before + [info], coding)
  {
    hide GoodImage, GoodOrder, Raster, Gathered, AllFit, ScanTiles, Membership, GoodParameters, Shaped, KnowsBlock,
      AllSolid,
      KnowsComponent, KnowsPicture, Progress, ScanScript.Follows, ScanOver, InScan, GoodScan, GoodMcus,
        ScanReceived, CanGather,
      GoodCoding, OfFrame;
    Positive(im);
    LayoutFits(im, Numbers(info, |im.frame|));
    LayoutOfFrame(im, info);
    ScanIsOver(im, info, coding, held);
    StaysShaped(im.frame, held, after, cs, across, down, out);
    ShapedSize(im.frame, after);
    FollowsProgress(info, before, |im.frame|, cs);
    PictureAdvances(s, info, cs, held, im.picture, across, down, im.total, out, im.frame, before, after);
  }

  lemma FollowsProgress(info: ScanInfo, before: seq<ScanInfo>, n: nat, cs: seq<ComponentInfo>)
    requires MayFollow(info, before, n) && |cs| == |info.components|
    ensures forall i :: 0 <= i < |cs| ==> ScanScript.Follows(info, Progress(before, info.components[i]))
  {
  }

  /** per_scan_setup and a pass of the compressor. */
  method PrepareScan(m: Master, full: FullImage, ghost im: Image, info: ScanInfo, coding: Coding, first: bool,
      inputs: seq<seq<grid>>)
    returns (r: Setup, s: Scan, cs: seq<ComponentInfo>, across: nat, down: nat, interval: nat, mcus: seq<seq<block>>)
    requires Matches(m, im) && GoodImage(im) && ArraysHold(full, im) && GoodCoding(coding, |im.frame|)
    requires GoodComponents(info, |im.frame|) && GoodParameters(info)
    requires if first then full.AllLoaded(0) && Shows(full, inputs) else full.AllLoaded(full.total)
    modifies m, full, full.dest, full.mcuBuffer, set i | 0 <= i < |full.arrays| :: full.arrays[i].image
    ensures Matches(m, im) && r == ScanCheck(Hs(im.frame), Vs(im.frame), Numbers(info, |im.frame|))
    ensures r == Done ==> (IsLaidOut(im, info, coding, s, cs, across, down)
      && interval == IntervalFor(im, info, coding) && mcus == McusFor(im, info, coding) && full.AllLoaded(full.total))
  {
    hide GoodImage, GoodCoding, ArraysHold, Matches, FullImage.AllLoaded, Shows, ScanTiles, Master.ScanReady, Raster,
      AllSolid, AllFit, GoodParameters, Membership, Layout, McusAcross, McusDown, Hs, Vs, ScanCheck, GoodComponents;
    s := Scan(true, [], [], [], [], 0, 0, 0, 0, coding.naturalOrder);
    cs, across, down, interval, mcus := [], 0, 0, 0, [];
    r := SetUpScan(m, im, info);
    if r == Done {
      ghost var cur := Numbers(info, |im.frame|);
      MembershipFits(m, cur);
      SameNumbers(m, im);
      cs, across, down := m.Scanned(Numbers(info, |m.compInfo|)), m.mcusPerRow, m.mcuRowsInScan;
      interval := m.restartInterval;
      mcus := SendScan(full, im, cs, across, down, cur, first, inputs);
      Positive(im);
      LayoutOfFrame(im, info);
      CodingSize(coding, |im.frame|);
      s := SetupOf(info, cs, coding);
    }
  }

  lemma SameNumbers(m: Master, im: Image)
    requires Matches(m, im)
    ensures |m.compInfo| == |im.frame|
  {
  }

  lemma CodingSize(coding: Coding, n: nat)
    requires GoodCoding(coding, n)
    ensures |coding.components| == n && GoodOrder(coding.naturalOrder)
  {
  }

  lemma MembershipFits(m: Master, cur: seq<nat>)
    requires m.ScanReady(cur)
    ensures |Membership(m.Scanned(cur))| <= C_MAX_BLOCKS_IN_MCU
  {
  }

  // ----- through the entropy coder

  /** The entropy coder of an image: a Huffman coder has its own tables for every scan,
      which are given or made from the scan's statistics. */
  datatype Coder = Arithmetic | Huffman(tables: seq<seq<HT.table>>) | OptimalHuffman

  ghost predicate GoodCoder(coder: Coder, coding: Coding, n: nat)
  {
    && (coder.Huffman? ==>
      |coder.tables| == n && forall i :: 0 <= i < n ==> |coder.tables[i]| == H.NUM_HUFF_TBLS)
    && (!coder.Arithmetic? ==> forall ci :: 0 <= ci < |coding.components| ==>
      coding.components[ci].dcTbl < H.NUM_HUFF_TBLS && coding.components[ci].acTbl < H.NUM_HUFF_TBLS)
  }

  /** Scan i, in restart intervals of r MCUs, can be coded and decoded: no DC difference
      inside an interval exceeds 2^15, or the tables are legal and have a code for every
      symbol, and every coefficient is in range.  Tables made from the statistics only
      need the range, unless a code length exceeds 32; surely none does when there are
      few symbols. */
  ghost predicate Codable(coder: Coder, surely: bool, i: nat, s: Scan, r: nat, mcus: seq<seq<block>>)
    requires GoodScan(s) && GoodMcus(s, mcus)
  {
    match coder
    case Arithmetic => AllArrive(s, r, mcus)
    case Huffman(tables) =>
      i < |tables| && PT.GoodTables(tables[i], s.Ss == 0) && PR.AllCode(s, tables[i], RI.All(RI.Divide(r, mcus)))
    case OptimalHuffman =>
      PO.AllInRange(s, RI.All(RI.Divide(r, mcus))) && (surely ==> PO.FewSymbols(s, r, mcus))
  }

  /** Only with tables made from statistics there is a doubt. */
  lemma NoDoubt(im: Image, info: ScanInfo, coding: Coding, coder: Coder, i: nat)
    requires !coder.OptimalHuffman?
    ensures Passes(im, info, coding, coder, i, true) == Passes(im, info, coding, coder, i, false)
  {
    hide GoodScan, GoodMcus, Scans, ScanCheck, Hs, Vs;
  }

  /** What a statistics pass takes for granted: every component has blocks, and the counts
      stay below 10^9. */
  ghost predicate CanCount(s: Scan, r: nat, mcus: seq<seq<block>>)
  {
    (forall ci :: 0 <= ci < |s.components| ==> ci in s.membership) && mcus != [] && PO.Countable(s, r, mcus)
  }

  ghost predicate AllArrive(s: Scan, r: nat, mcus: seq<seq<block>>)
    requires GoodScan(s)
  {
    forall m :: 0 <= m < |mcus| ==> AR.Arrives(s, r, mcus, m)
  }

  lemma AllAreReceived(s: Scan, r: nat, mcus: seq<seq<block>>, priors: seq<seq<block>>, out: seq<seq<block>>)
    requires GoodScan(s) && |priors| == |mcus| == |out| && AllArrive(s, r, mcus)
    requires AR.ReceivedOf(s, r, mcus, priors, out, |mcus|)
    ensures ScanReceived(s, priors, mcus, out)
  {
    hide AR.Arrives, AD.AllReceived;
  }

  method CodeScan(coder: Coder, i: nat, ghost n: nat, ghost coding: Coding, s: Scan, r: nat, mcus: seq<seq<block>>,
      priors: seq<seq<block>>, marker: byte)
    returns (ok: bool, out: seq<seq<block>>)
    requires GoodCoder(coder, coding, n) && i < n && (!coder.Arithmetic? ==> PM.GoodProgressive(s))
    requires coder.OptimalHuffman? ==> CanCount(s, r, mcus)
    requires GoodScan(s) && GoodMcus(s, mcus) && GoodOrder(s.naturalOrder) && GoodPriors(s, priors, mcus)
    requires marker != 0 && marker != 0xFF && !IsRestart(marker)
    ensures (ok ==> Codable(coder, false, i, s, r, mcus)) && (Codable(coder, true, i, s, r, mcus) ==> ok)
    ensures ok ==> |out| == |priors| && ScanReceived(s, priors, mcus, out)
  {
    hide GoodScan, GoodMcus, GoodOrder, GoodPriors, AR.Arrives, AR.ReceivedOf, ScanReceived, PT.GoodTables, PR.AllCode,
      PM.GoodProgressive, RI.All, RI.Divide, PO.AllInRange, PO.FewSymbols, PO.Countable, PO.ScanTokens, PO.SizedAll,
      PO.SomeTooLong;
    match coder
    case Arithmetic =>
      ok, out := AR.TransmitScan(s, r, mcus, priors, marker);
      PriorsAreMany(s, priors, mcus);
      if ok {
        AllAreReceived(s, r, mcus, priors, out);
      }
    case Huffman(tables) =>
      ok, out := PR.TransmitScan(s, r, tables[i], mcus, priors, marker);
    case OptimalHuffman =>
      var inRange;
      inRange, ok, out := PO.OptimizeAndTransmit(s, r, mcus, priors, marker);
      ok := ok && inRange;
  }

  lemma PriorsAreMany(s: Scan, priors: seq<seq<block>>, mcus: seq<seq<block>>)
    requires GoodScan(s) && GoodPriors(s, priors, mcus)
    ensures |priors| == |mcus|
  {
  }

  lemma ProgressiveSetup(im: Image, info: ScanInfo, coding: Coding, coder: Coder, n: nat)
    requires Scans(im, info, coding) && GoodScan(SetupFor(im, info, coding)) && GoodCoder(coder, coding, n)
    requires !coder.Arithmetic?
    ensures PM.GoodProgressive(SetupFor(im, info, coding))
  {
    hide GoodImage, GoodOrder, Tiles, Membership;
    var cs, s := Layout(im, Numbers(info, |im.frame|)), SetupFor(im, info, coding);
    LayoutOfFrame(im, info);
    forall ci | 0 <= ci < |s.components|
      ensures s.components[ci].dcTbl < H.NUM_HUFF_TBLS && s.components[ci].acTbl < H.NUM_HUFF_TBLS {
      assert s.components[ci] == coding.components[cs[ci].componentIndex];
    }
    if s.Ss > 0 {
      OneBlock(cs[0]);
      assert cs == [cs[0]];
    }
  }

  /** Every component of a scan has blocks in its MCUs. */
  lemma HasBlocks(im: Image, info: ScanInfo, coding: Coding)
    requires Scans(im, info, coding)
    ensures var s := SetupFor(im, info, coding);
      (forall ci :: 0 <= ci < |s.components| ==> ci in s.membership) && McusFor(im, info, coding) != []
  {
    hide GoodImage, Raster, Membership, TilesComponent, AllFit, GoodCoding, GoodParameters, InScan;
    var cur := Numbers(info, |im.frame|);
    LayoutFits(im, cur);
    Positive(im);
    var cs := Layout(im, cur);
    forall ci | 0 <= ci < |cs| ensures ci in Membership(cs) {
      MembershipHas(cs, ci);
    }
    ScanHasMcus(cs, McusAcross(im, cur), McusDown(im, cur), im.total);
  }

  /** The statistics of scan i can be counted, if that is to be done. */
  ghost predicate ScanCounts(im: Image, info: ScanInfo, coding: Coding, coder: Coder)
  {
    coder.OptimalHuffman? && Scans(im, info, coding) ==>
      PO.Countable(SetupFor(im, info, coding), IntervalFor(im, info, coding), McusFor(im, info, coding))
  }

  /** Scan i passes: it can be laid out and coded. */
  ghost predicate Passes(im: Image, info: ScanInfo, coding: Coding, coder: Coder, i: nat, surely: bool)
  {
    && GoodComponents(info, |im.frame|)
    && ScanCheck(Hs(im.frame), Vs(im.frame), Numbers(info, |im.frame|)) == Done && Scans(im, info, coding)
    && GoodScan(SetupFor(im, info, coding)) && GoodMcus(SetupFor(im, info, coding), McusFor(im, info, coding))
    && Codable(coder, surely, i, SetupFor(im, info, coding), IntervalFor(im, info, coding),
      McusFor(im, info, coding))
  }

  /** One scan of the script. */
  method TransmitOne(m: Master, full: FullImage, ghost im: Image, info: ScanInfo, ghost before: seq<ScanInfo>,
      ghost n: nat,
      coding: Coding, coder: Coder, inputs: seq<seq<grid>>, held: seq<grid>, i: nat, marker: byte)
        returns (ok: bool, after: seq<grid>)
    requires Matches(m, im) && GoodImage(im) && ArraysHold(full, im) && GoodCoding(coding, |im.frame|)
    requires GoodCoder(coder, coding, n) && i < n && marker != 0 && marker != 0xFF && !IsRestart(marker)
    requires MayFollow(info, before, |im.frame|) && Holding(im, held, before, coding)
    requires ScanCounts(im, info, coding, coder)
    requires if i == 0 then full.AllLoaded(0) && Shows(full, inputs) else full.AllLoaded(full.total)
    modifies m, full, full.dest, full.mcuBuffer, set i | 0 <= i < |full.arrays| :: full.arrays[i].image
    ensures Matches(m, im)
    ensures (ok ==> Passes(im, info, coding, coder, i, false)) && (Passes(im, info, coding, coder, i, true) ==> ok)
    ensures ok ==> Holding(im, after, before + [info], coding) && full.AllLoaded(full.total)
  {
    hide GoodImage, GoodCoding, Holding, ArraysHold, Matches, FullImage.AllLoaded, Shows, Raster, Codable, ScanReceived,
      GoodPriors, GoodScan, GoodMcus, GoodParameters, GoodComponents, Gathered, Membership, Hs, Vs, ScanCheck,
        Scans, CanGather,
      Different, IsStored, SetupFor, McusFor, GoodOrder, Layout, GoodCoder, PM.GoodProgressive, PO.Countable,
      IntervalFor;
    ok, after := false, held;
    ParametersOf(info, before, |im.frame|);
    var r, s, cs, across, down, interval, mcus := PrepareScan(m, full, im, info, coding, i == 0, inputs);
    if r == Done {
      SetupIsGood(im, info, coding);
      PriorsAreGood(im, info, coding, s, cs, across, down, before, held);
      if !coder.Arithmetic? {
        ProgressiveSetup(im, info, coding, coder, n);
        HasBlocks(im, info, coding);
      }
      var out;
      ok, out := CodeScan(coder, i, n, coding, s, interval, mcus, Gathered(cs, held, across, down), marker);
      if ok {
        GatherSizes(cs, held);
        after := StoreScan(cs, across, down, held, out);
        ScanIsKnown(im, info, coding, s, cs, across, down, before, held, out, after);
      }
    }
  }

  lemma ParametersOf(info: ScanInfo, before: seq<ScanInfo>, n: nat)
    requires MayFollow(info, before, n)
    ensures GoodComponents(info, n) && GoodParameters(info)
  {
  }

  lemma GatherSizes(cs: seq<ComponentInfo>, held: seq<grid>)
    requires CanGather(cs, held)
    ensures AllSolid(cs) && forall i :: 0 <= i < |cs| ==> cs[i].componentIndex < |held|
  {
  }

  // ----- whole scripts

  /** The coefficients of a block that have been sent to bit 0 are restored. */
  predicate RestoresSent(h: grid, g: grid, y: nat, x: nat, p: positions, o: order)
  {
    && y < |h| && x < |h[y]| && y < |g| && x < |g[y]|
    && forall k :: 0 <= k < 64 && p[k] == 0 ==> h[y][x][o[k]] == g[y][x][o[k]]
  }

  ghost predicate Restored(frame: seq<ComponentInfo>, held: seq<grid>, picture: seq<grid>, scans: seq<ScanInfo>,
      o: order)
    requires |frame| == |held| == |picture|
  {
    forall j, y, x :: 0 <= j < |frame| && 0 <= y < frame[j].heightInBlocks && 0 <= x < frame[j].widthInBlocks ==>
      RestoresSent(held[j], picture[j], y, x, Progress(scans, j), o)
  }

  lemma KnownIsRestored(h: grid, g: grid, y: nat, x: nat, p: positions, o: order)
    requires KnowsBlock(h, g, y, x, p, o)
    ensures RestoresSent(h, g, y, x, p, o)
  {
    hide Knows, Known;
    forall k | 0 <= k < 64 && p[k] == 0 ensures h[y][x][o[k]] == g[y][x][o[k]] {
      KnownToBitZero(Zigzag(h[y][x], o), Zigzag(g[y][x], o), p, k);
    }
  }

  lemma KnownToBitZero(z: zigzag, c: zigzag, p: positions, k: nat)
    requires Knows(z, c, p) && k < 64 && p[k] == 0
    ensures z[k] == c[k]
  {
    ApproxZeroBits(c[k]);
  }

  lemma KnownPictureIsRestored(frame: seq<ComponentInfo>, held: seq<grid>, picture: seq<grid>, scans: seq<ScanInfo>,
      o: order)
    requires |frame| == |held| == |picture| && KnowsPicture(frame, held, picture, scans, o)
    ensures Restored(frame, held, picture, scans, o)
  {
    hide KnowsBlock, RestoresSent, Progress;
    forall j, y, x | 0 <= j < |frame| && 0 <= y < frame[j].heightInBlocks && 0 <= x < frame[j].widthInBlocks
      ensures RestoresSent(held[j], picture[j], y, x, Progress(scans, j), o) {
      assert KnowsComponent(frame[j], held[j], picture[j], Progress(scans, j), o);
      KnownIsRestored(held[j], picture[j], y, x, Progress(scans, j), o);
    }
  }

  /** A block whose coefficients have all been sent to bit 0 is the block that was sent. */
  lemma WholeBlockRestored(h: grid, g: grid, y: nat, x: nat, p: positions, o: order)
    requires RestoresSent(h, g, y, x, p, o) && GoodOrder(o) && forall k :: 0 <= k < 64 ==> p[k] == 0
    ensures h[y][x] == g[y][x]
  {
    forall i | 0 <= i < 64 ensures h[y][x][i] == g[y][x][i] {
      OrderIsOnto(o, i);
      var k :| 0 <= k < 64 && o[k] == i;
      assert p[k] == 0;
    }
  }

  /** The iMCU rows that the first pass is given are those of the picture. */
  ghost predicate ShowsPicture(frame: seq<ComponentInfo>, picture: seq<grid>, total: nat, inputs: seq<seq<grid>>)
  {
    && |inputs| == total && |frame| == |picture|
    && forall k, j :: 0 <= k < |inputs| && 0 <= j < |frame| ==>
      ShowsStrip(frame[j], picture[j], k, inputs[k], j, |frame|)
  }

  ghost predicate ShowsStrip(c: ComponentInfo, g: grid, k: nat, input: seq<grid>, j: nat, n: nat)
    requires j < n
  {
    |input| == n && c.v >= 0 && Fits(c, g) && IsStrip(c, g, k, input[j])
  }

  /** The script as validate_script accepts it for progressive mode. */
  predicate LegalScript(scans: seq<ScanInfo>, n: nat)
  {
    scans != [] && IsProgressive(scans) && LegalProgressive(scans, n)
  }

  method NewArrays(m: Master, ghost im: Image, answers: seq<bool>, inputs: seq<seq<grid>>) returns (full: FullImage)
    requires Matches(m, im) && GoodImage(im) && im.frame == m.compInfo
    requires ShowsPicture(im.frame, im.picture, im.total, inputs)
    requires |im.frame| > 0
    ensures fresh(full) && fresh(full.dest) && fresh(full.mcuBuffer)
    ensures forall i :: 0 <= i < |full.arrays| ==> fresh(full.arrays[i].image)
    ensures ArraysHold(full, im) && full.AllLoaded(0) && Shows(full, inputs)
  {
    hide SmallGrid, Tiles, Master.Ready, IsStrip, CoefArray.Loaded;
    var dest := new Destination(answers);
    full := new FullImage(m.compInfo, m.totalIMcuRows, dest, im.picture);
    forall k | 0 <= k < |inputs| ensures full.Strips(inputs[k], k) {
      assert ShowsStrip(im.frame[0], im.picture[0], k, inputs[k], 0, |im.frame|);
      forall i | 0 <= i < |full.arrays| ensures full.arrays[i].TakesStrip(k, inputs[k][i]) {
        assert ShowsStrip(im.frame[i], im.picture[i], k, inputs[k], i, |im.frame|);
      }
    }
  }

  /** A picture, sent by the scans of a script and read by the decoder.  All scans pass
      exactly when each can be laid out and coded; then every coefficient is known to the
      bit that the script has reached, and those that have reached bit 0 are restored.
      Only for tables made from statistics a code length may leave a doubt. */
  method TransmitScript(m: Master, ghost picture: seq<grid>, inputs: seq<seq<grid>>, scans: seq<ScanInfo>,
      coding: Coding,
      coder: Coder, answers: seq<bool>, marker: byte) returns (legal: bool, ok: bool, held: seq<grid>)
    requires m.Ready() && |picture| == |m.compInfo| && GoodCoding(coding, |picture|)
    requires GoodCoder(coder, coding, |scans|)
    requires marker != 0 && marker != 0xFF && !IsRestart(marker)
    requires forall j :: 0 <= j < |picture| ==> Fits(m.compInfo[j], picture[j]) && SmallGrid(picture[j])
    requires ShowsPicture(m.compInfo, picture, m.totalIMcuRows, inputs)
    requires forall i :: 0 <= i < |scans| ==> ScanCounts(ImageOf(m, picture), scans[i], coding, coder)
    modifies m
    ensures legal == LegalScript(scans, |picture|) && (ok ==> legal)
    ensures legal == (scans != [] && !(scans[0].Ss == 0 && scans[0].Se == 63)
      && AcceptedProgressive(scans, |picture|))
    ensures ok ==> forall i :: 0 <= i < |scans| ==> Passes(old(ImageOf(m, picture)), scans[i], coding, coder, i, false)
    ensures (legal && forall i :: 0 <= i < |scans| ==>
      Passes(old(ImageOf(m, picture)), scans[i], coding, coder, i, true)) ==> ok
    ensures legal && !coder.OptimalHuffman? ==> (ok <==> forall i :: 0 <= i < |scans| ==>
      Passes(old(ImageOf(m, picture)), scans[i], coding, coder, i, false))
    ensures ok ==> |held| == |picture| && KnowsPicture(old(m.compInfo), held, picture, scans, coding.naturalOrder)
    ensures ok ==> Restored(old(m.compInfo), held, picture, scans, coding.naturalOrder)
  {
    hide GoodImage, GoodCoding, Holding, ArraysHold, Matches, FullImage.AllLoaded, Shows, Passes, KnowsPicture,
      Restored, ShowsPicture, MayFollow, SmallGrid, Fits, Progress, GoodCoder, ScanCounts, AcceptedProgressive,
      AcceptedSequential;
    ReadyImage(m, picture);
    FrameSize(m);
    ghost var im := ImageOf(m, picture);
    var progressive;
    ok, held := false, [];
    legal, progressive := ValidateScript(scans, |m.compInfo|);
    if !legal || !progressive {
      return false, false, [];
    }
    var full := NewArrays(m, im, answers, inputs);
    held := StartArrays(m, im, coding);
    ok, held := TransmitAll(m, full, im, scans, coding, coder, inputs, held, marker);
    if !coder.OptimalHuffman? {
      forall i | 0 <= i < |scans| ensures Passes(im, scans[i], coding, coder, i, true)
        == Passes(im, scans[i], coding, coder, i, false) {
        NoDoubt(im, scans[i], coding, coder, i);
      }
    }
    if ok {
      HoldsAll(im, held, scans, coding);
      KnownPictureIsRestored(im.frame, held, picture, scans, coding.naturalOrder);
    }
  }

  /** The scans of an accepted script, one after the other. */
  method TransmitAll(m: Master, full: FullImage, ghost im: Image, scans: seq<ScanInfo>, coding: Coding, coder: Coder,
      inputs: seq<seq<grid>>, blank: seq<grid>, marker: byte) returns (ok: bool, held: seq<grid>)
    requires Matches(m, im) && GoodImage(im) && ArraysHold(full, im) && GoodCoding(coding, |im.frame|)
    requires LegalProgressive(scans, |im.frame|) && Holding(im, blank, [], coding)
    requires marker != 0 && marker != 0xFF && !IsRestart(marker)
    requires full.AllLoaded(0) && Shows(full, inputs) && GoodCoder(coder, coding, |scans|)
    requires forall i :: 0 <= i < |scans| ==> ScanCounts(im, scans[i], coding, coder)
    modifies m, full, full.dest, full.mcuBuffer, set i | 0 <= i < |full.arrays| :: full.arrays[i].image
    ensures ok ==> forall i :: 0 <= i < |scans| ==> Passes(im, scans[i], coding, coder, i, false)
    ensures (forall i :: 0 <= i < |scans| ==> Passes(im, scans[i], coding, coder, i, true)) ==> ok
    ensures ok ==> Holding(im, held, scans, coding)
  {
    hide GoodImage, GoodCoding, Holding, ArraysHold, Matches, FullImage.AllLoaded, Shows, Passes, MayFollow, GoodCoder,
      ScanCounts;
    held := blank;
    assert scans[..0] == [];
    for i := 0 to |scans|
      invariant Matches(m, im) && Holding(im, held, scans[..i], coding)
      invariant if i == 0 then full.AllLoaded(0) && Shows(full, inputs) else full.AllLoaded(full.total)
      invariant forall j :: 0 <= j < i ==> Passes(im, scans[j], coding, coder, j, false)
    {
      ghost var before := scans[..i];
      assert MayFollow(scans[i], before, |im.frame|);
      assert before + [scans[i]] == scans[..i + 1];
      ok, held := TransmitOne(m, full, im, scans[i], before, |scans|, coding, coder, inputs, held, i, marker);
      if !ok {
        return;
      }
    }
    assert scans[..|scans|] == scans;
    ok := true;
  }

  lemma FrameSize(m: Master)
    requires m.Ready()
    ensures 0 < |m.compInfo| <= ImageGeometry.MAX_COMPONENTS
  {
  }

  lemma HoldsAll(im: Image, held: seq<grid>, scans: seq<ScanInfo>, coding: Coding)
    requires Holding(im, held, scans, coding)
    ensures |held| == |im.frame| == |im.picture| && KnowsPicture(im.frame, held, im.picture, scans, coding.naturalOrder)
  {
  }

  method StartArrays(m: Master, ghost im: Image, coding: Coding) returns (held: seq<grid>)
    requires Matches(m, im) && GoodImage(im) && im.frame == m.compInfo
    ensures Holding(im, held, [], coding)
  {
    hide SmallGrid, Tiles, Master.Ready, KnowsPicture, Shaped, Fits;
    HasFactors(im);
    held := BlankArrays(m.compInfo, im.picture, coding.naturalOrder);
    ShapedSize(im.frame, held);
  }
}
