/**
 A whole image in one sequential scan: from scanlines through preprocessing, forward DCT
 and MCU traversal to the entropy coder, and back from the decoder's MCUs to the blocks
 of the image.
 */
module ImageCompression {
  import opened Nonlinear
  import opened ScanSetup
  import opened ImageGeometry
  import opened McuTraversal
  import opened CoefController
  import opened Preprocessing
  import opened MainController
  import opened Bytes
  import opened CoefficientModel
  import opened ArithScan
  import T = ScanTransmission
  import HM = HuffmanModel
  import HS = HuffmanStatistics
  import HO = HuffmanOptimization
  import HD = HuffmanDepth
  import HT = HuffmanTree

  /** forward_DCT with quantisation: the block at row y and column x of a component in
      an iMCU row. */
  type transform = (seq<group>, nat, nat, nat) -> block

  function StripOf(d: transform, cs: seq<ComponentInfo>, gs: seq<group>): (strips: seq<grid>)
    ensures |strips| == |cs| && forall ci :: 0 <= ci < |cs| ==> strips[ci] == PlaneOf(d, cs[ci], gs, ci)
  {
    seq(|cs|, ci requires 0 <= ci < |cs| => PlaneOf(d, cs[ci], gs, ci))
  }

  function PlaneOf(d: transform, c: ComponentInfo, gs: seq<group>, ci: nat): (g: grid)
    ensures c.v >= 0 ==> |g| == c.v && forall y :: 0 <= y < |g| ==> g[y] == RowOf(d, gs, ci, y, c.widthInBlocks)
  {
    seq(if c.v >= 0 then c.v else 0, y requires 0 <= y => RowOf(d, gs, ci, y, c.widthInBlocks))
  }

  function RowOf(d: transform, gs: seq<group>, ci: nat, y: nat, n: nat): (row: seq<block>)
    ensures |row| == n
  {
    seq<block>(n, x requires 0 <= x => d(gs, ci, y, x))
  }

  /** The blocks of component ci of an image. */
  function ComponentOf(d: transform, s: Stages, image: seq<scanline>, r: nat, context: bool, c: ComponentInfo,
      ci: nat): (g: grid)
    requires |image| > 0 && r > 0 && c.v > 0
    ensures |g| == c.heightInBlocks && forall y :: 0 <= y < |g| ==>
      g[y] == RowOf(d, GroupsOf(s, image, r, context, y / c.v), ci, y % c.v, c.widthInBlocks)
  {
    seq(c.heightInBlocks, y requires 0 <= y && |image| > 0 && r > 0 && c.v > 0 =>
      RowOf(d, GroupsOf(s, image, r, context, y / c.v), ci, y % c.v, c.widthInBlocks))
  }

  function PictureOf(d: transform, s: Stages, image: seq<scanline>, r: nat, context: bool,
      cs: seq<ComponentInfo>): (p: seq<grid>)
    requires |image| > 0 && r > 0 && forall i :: 0 <= i < |cs| ==> cs[i].v > 0
    ensures |p| == |cs| && forall ci :: 0 <= ci < |cs| ==> p[ci] == ComponentOf(d, s, image, r, context, cs[ci], ci)
  {
    seq(|cs|, ci requires 0 <= ci < |cs| && |image| > 0 && r > 0
      && cs[ci].v > 0 => ComponentOf(d, s, image, r, context, cs[ci], ci))
  }

  /** Row y of iMCU row k of a component, of v block rows, comes from the 8 row groups of that
      iMCU row. */
  lemma PictureHas(d: transform, s: Stages, image: seq<scanline>, r: nat, context: bool, cs: seq<ComponentInfo>,
      ci: nat, k: nat, y: nat, x: nat, gs: seq<group>)
    requires |image| > 0 && r > 0 && (forall i :: 0 <= i < |cs| ==> cs[i].v > 0)
    requires ci < |cs| && y < cs[ci].v && k * cs[ci].v + y < cs[ci].heightInBlocks && x < cs[ci].widthInBlocks
    requires |gs| == 8 && forall j :: 0 <= j < 8 ==> gs[j] == WantGroup(s, image, r, context, 8 * k + j)
    ensures PictureOf(d, s, image, r, context, cs)[ci][k * cs[ci].v + y][x] == d(gs, ci, y, x)
  {
    hide WantGroup;
    DivisionUnique(k * cs[ci].v + y, cs[ci].v, k, y);
    assert gs == GroupsOf(s, image, r, context, k);
  }

  lemma PictureFits(d: transform, s: Stages, image: seq<scanline>, r: nat, context: bool, cs: seq<ComponentInfo>)
    requires |image| > 0 && r > 0 && forall i :: 0 <= i < |cs| ==> cs[i].v > 0
    ensures AllFit(cs, PictureOf(d, s, image, r, context, cs))
  {
    hide GroupsOf, RowOf;
  }

  /** The strips of an image are rows of its picture. */
  lemma StripFits(d: transform, s: Stages, image: seq<scanline>, r: nat, context: bool, c: ComponentInfo, ci: nat,
      k: nat)
    requires |image| > 0 && r > 0 && c.v > 0 && Fits(c, ComponentOf(d, s, image, r, context, c, ci))
    ensures IsStrip(c, ComponentOf(d, s, image, r, context, c, ci), k,
      PlaneOf(d, c, GroupsOf(s, image, r, context, k), ci))
  {
    hide GroupsOf, RowOf;
    var g, plane := ComponentOf(d, s, image, r, context, c, ci), PlaneOf(d, c, GroupsOf(s, image, r, context, k), ci);
    forall y | 0 <= y < c.v ensures |plane[y]| == c.widthInBlocks
      && (k * c.v + y < |g| ==> plane[y] == g[k * c.v + y]) {
      DivisionUnique(k * c.v + y, c.v, k, y);
    }
  }

  lemma StripsFit(d: transform, s: Stages, image: seq<scanline>, r: nat, context: bool, cs: seq<ComponentInfo>,
      total: nat)
    requires |image| > 0 && r > 0 && forall i :: 0 <= i < |cs| ==> cs[i].v > 0 && cs[i].componentIndex == i
    ensures AllFit(cs, PictureOf(d, s, image, r, context, cs))
    ensures IsPicture(gs => StripOf(d, cs, gs), s, image, r, context, cs, PictureOf(d, s, image, r, context, cs), total)
  {
    hide GroupsOf, PlaneOf, ComponentOf, IsStrip, Fits;
    PictureFits(d, s, image, r, context, cs);
    var picture := PictureOf(d, s, image, r, context, cs);
    forall k | 0 <= k < total ensures AreStrips(cs, picture, k, StripOf(d, cs, GroupsOf(s, image, r, context, k))) {
      forall i | 0 <= i < |cs| ensures IsStrip(cs[i], picture[i], k,
        StripOf(d, cs, GroupsOf(s, image, r, context, k))[i]) {
        StripFits(d, s, image, r, context, cs[i], i, k);
      }
    }
  }

  /** A scan as the compressor has laid it out, and the MCUs that it has sent. */
  datatype Sent = Sent(cs: seq<ComponentInfo>, maxH: nat, maxV: nat, mcusPerRow: nat, mcuRows: nat, total: nat,
      membership: seq<nat>, mcus: seq<seq<block>>)

  /** The image in its parts: its blocks in raster order of the MCUs. */
  ghost predicate IsSent(d: transform, s: Stages, image: seq<scanline>, context: bool, x: Sent)
    requires |image| > 0
  {
    && IsLayout(x)
    && AllFit(x.cs, PictureOf(d, s, image, x.maxV, context, x.cs))
    && x.mcus == Raster(x.cs, PictureOf(d, s, image, x.maxV, context, x.cs), x.mcusPerRow, x.mcuRows)
  }

  /** The scan holds the components of the frame, each with its size for an image of
      `width` by `height` samples. */
  ghost predicate LaidOut(x: Sent, comps: seq<ComponentInfo>, width: int, height: int)
  {
    && width > 0 && height > 0 && Hs(x.cs) == Hs(comps) && Vs(x.cs) == Vs(comps)
    && IsLargest(x.maxH, Hs(comps)) && IsLargest(x.maxV, Vs(comps)) && Covers(x.total, DCTSIZE * x.maxV, height)
    && forall i :: 0 <= i < |x.cs| ==> Sized(x.cs[i], width, height, x.maxH, x.maxV)
  }

  /** How the setup of an image in one scan ends. */
  function SetupResult(width: int, height: int, inputs: int, comps: seq<ComponentInfo>): Setup
  {
    var r := FrameCheck(width, height, inputs, 8, comps);
    if r != Done then r else ScanCheck(Hs(comps), Vs(comps), AllComponents(|comps|))
  }

  function AllComponents(n: nat): (cur: seq<nat>)
    ensures |cur| == n && forall i :: 0 <= i < n ==> cur[i] == i
  {
    seq(n, i => if i >= 0 then i else 0)
  }

  /** Compress an image, its scanlines offered in batches of `batch`, into one scan of
      all components; `answers` says which attempts to write an MCU are refused. */
  method CompressImage(image: seq<scanline>, width: int, inputs: int, comps: seq<ComponentInfo>, s: Stages,
      context: bool, d: transform,
      batch: nat, answers: seq<bool>) returns (r: Setup, x: Sent)
    requires |image| > 0 && batch > 0
    ensures r == SetupResult(width, |image|, inputs, comps)
    ensures r == Done ==> LaidOut(x, comps, width, |image|) && IsSent(d, s, image, context, x)
  {
    hide PictureOf, AllFit, ScanTiles, Raster, SetupResult;
    r, x := LayOut(width, |image|, inputs, comps);
    if r == Done {
      PictureFits(d, s, image, x.maxV, context, x.cs);
      var mcus := SendImage(image, x.cs, x.maxV, x.mcusPerRow, x.mcuRows, x.total, s, context, d, batch, answers);
      x := x.(mcus := mcus);
    }
  }

  /** initial_setup and per_scan_setup for all components. */
  method LayOut(width: int, height: nat, inputs: int, comps: seq<ComponentInfo>) returns (r: Setup, x: Sent)
    ensures r == SetupResult(width, height, inputs, comps)
    ensures r == Done ==> LaidOut(x, comps, width, height) && IsLayout(x)
  {
    hide Master.Ready, Master.ScanReady, ScanTiles, FrameCheck, ScanCheck, Hs, Vs, LaidOut, IsLayout;
    x := Sent([], 0, 0, 0, 0, 0, [], []);
    var m := new Master(width, height, inputs, 8, comps, 0);
    r := m.InitialSetup();
    if r != Done {
      return;
    }
    var cur := AllComponents(|m.compInfo|);
    r := m.PerScanSetup(cur);
    if r == Done {
      PositiveFactors(m);
      x := Sent(m.Scanned(cur), m.maxH, m.maxV, m.mcusPerRow, m.mcuRowsInScan, m.totalIMcuRows, m.membership, []);
      Layout(m, x, cur);
      IsLaidOut(m, comps, x);
    }
  }

  lemma PositiveFactors(m: Master)
    requires m.Ready()
    ensures m.maxH > 0 && m.maxV > 0
  {
  }

  lemma IsLaidOut(m: Master, comps: seq<ComponentInfo>, x: Sent)
    requires m.Ready() && Hs(m.compInfo) == Hs(comps) && Vs(m.compInfo) == Vs(comps)
    requires x.cs == m.Scanned(AllComponents(|m.compInfo|)) && x.maxH == m.maxH && x.maxV == m.maxV
      && x.total == m.totalIMcuRows
    ensures LaidOut(x, comps, m.imageWidth, m.imageHeight)
  {
    hide Covers, IsLargest, Sized;
    assert x.cs == m.compInfo;
  }

  /** Send an image whose scan has been laid out. */
  method SendImage(image: seq<scanline>, cs: seq<ComponentInfo>, maxV: nat, mcusPerRow: nat, mcuRows: nat, total: nat,
      s: Stages, context: bool, d: transform, batch: nat, answers: seq<bool>) returns (mcus: seq<seq<block>>)
    requires |image| > 0 && batch > 0 && maxV > 0 && total > 0 && Covers(total, DCTSIZE * maxV, |image|)
    requires ScanTiles(cs, mcusPerRow, mcuRows, total) && AllSolid(cs) && |Membership(cs)| <= C_MAX_BLOCKS_IN_MCU
    requires forall i :: 0 <= i < |cs| ==> cs[i].v > 0 && cs[i].componentIndex == i
    requires AllFit(cs, PictureOf(d, s, image, maxV, context, cs))
    ensures mcus == Raster(cs, PictureOf(d, s, image, maxV, context, cs), mcusPerRow, mcuRows)
  {
    hide PictureOf, GroupsOf, StripOf, AllFit, IsPicture, ScanTiles, Raster, SentUpTo, Prep.Valid, Main.Valid, Covers;
    StripsFit(d, s, image, maxV, context, cs, total);
    var dest := new Destination(answers);
    var coef := new SinglePass(cs, mcusPerRow, mcuRows, total, dest, PictureOf(d, s, image, maxV, context, cs));
    var prep := new Prep(s, maxV, context, image, |image|);
    Fresh(prep, coef);
    var main := new Main(prep, coef, gs => StripOf(d, cs, gs));
    mcus := WriteImage(image, main, batch);
  }

  lemma Fresh(prep: Prep, coef: SinglePass)
    requires prep.Valid() && coef.Valid()
    ensures prep.imageHeight == |prep.image| > 0 && prep.maxV > 0 && coef.Setting()
  {
  }

  /** The layout is one that the coefficient controller can work with. */
  ghost predicate IsLayout(x: Sent)
  {
    && x.maxV > 0 && x.total > 0 && (forall i :: 0 <= i < |x.cs| ==> x.cs[i].v > 0 && x.cs[i].componentIndex == i)
    && ScanTiles(x.cs, x.mcusPerRow, x.mcuRows, x.total) && AllSolid(x.cs)
    && x.membership == Membership(x.cs) && |x.membership| <= C_MAX_BLOCKS_IN_MCU
  }

  /** What the setup says of the components of the scan. */
  lemma Layout(m: Master, x: Sent, cur: seq<nat>)
    requires m.Ready() && m.ScanReady(cur) && cur == AllComponents(|m.compInfo|)
    requires x.cs == m.Scanned(cur) && x.maxV == m.maxV && x.mcusPerRow == m.mcusPerRow && x.mcuRows == m.mcuRowsInScan
    requires x.total == m.totalIMcuRows && x.membership == m.membership
    ensures IsLayout(x)
  {
    hide Covers;
    ScanIsSolid(m.Scanned(cur), m.mcusPerRow, m.mcuRowsInScan, m.totalIMcuRows);
    m.AtLeastOne(m.totalIMcuRows, DCTSIZE * m.maxV, m.imageHeight);
  }

  /** The application's loop: offer the rows that come next until all are taken. */
  method WriteImage(image: seq<scanline>, main: Main, batch: nat) returns (mcus: seq<seq<block>>)
    requires |image| > 0 && batch > 0 && main.Valid() && main.Waiting() && !main.suspended
    requires main.prep.image == image && main.prep.rowsToGo == main.prep.imageHeight == |image|
    modifies main, main.buffer, main.prep, main.prep.rows, main.coef, main.coef.dest, main.coef.mcuBuffer
    ensures main.coef.Setting() && mcus == Raster(main.coef.cs, main.coef.picture, main.coef.mcusPerRow,
      main.coef.mcuRowsInScan)
  {
    hide Main.Valid, Raster;
    var c := new Compressor(main, |image|);
    while c.nextScanline < |image|
      invariant c.Valid() && fresh(c) && c.main == main && c.imageHeight == |image| && c.nextScanline <= |image|
      decreases |main.coef.dest.answers|, |image| - c.nextScanline
    {
      var rest := image[c.nextScanline..];
      var lines := if batch < |rest| then batch else |rest|;
      var taken, warning := c.WriteScanlines(rest, lines);
    }
    c.ImageIsSent();
    mcus := main.coef.dest.mcus;
  }

  // ----- from the decoder's MCUs back to the blocks of the image

  /** The MCUs hold every block of the picture at its place. */
  ghost predicate Restores(cs: seq<ComponentInfo>, picture: seq<grid>, mcusPerRow: nat, mcus: seq<seq<block>>)
    requires AllFit(cs, picture) && AllSolid(cs)
  {
    forall ci, y, x :: 0 <= ci < |cs| && 0 <= y < cs[ci].heightInBlocks && 0 <= x < cs[ci].widthInBlocks ==>
      RestoresBlock(cs, picture, mcusPerRow, mcus, ci, y, x)
  }

  ghost predicate RestoresBlock(cs: seq<ComponentInfo>, picture: seq<grid>, mcusPerRow: nat, mcus: seq<seq<block>>,
      ci: nat, y: nat, x: nat)
    requires AllFit(cs, picture) && AllSolid(cs) && ci < |cs| && y < cs[ci].heightInBlocks && x < cs[ci].widthInBlocks
  {
    var m := McuIndex(cs[ci], mcusPerRow, y, x);
    m < |mcus| && Holds(mcus[m], PlaceInMcu(cs, ci, y, x), picture[ci][y][x])
  }

  lemma RasterRestores(cs: seq<ComponentInfo>, picture: seq<grid>, mcusPerRow: nat, mcuRows: nat, total: nat)
    requires ScanTiles(cs, mcusPerRow, mcuRows, total) && AllSolid(cs) && AllFit(cs, picture)
    ensures Restores(cs, picture, mcusPerRow, Raster(cs, picture, mcusPerRow, mcuRows))
  {
    hide AllFit, AllSolid, ScanTiles, Raster, Holds, McuIndex, PlaceInMcu;
    forall ci, y, x | 0 <= ci < |cs| && 0 <= y < cs[ci].heightInBlocks && 0 <= x < cs[ci].widthInBlocks
      ensures RestoresBlock(cs, picture, mcusPerRow, Raster(cs, picture, mcusPerRow, mcuRows), ci, y, x) {
      EveryBlockIsSent(cs, picture, mcusPerRow, mcuRows, total, ci, y, x);
    }
  }

  // ----- through the entropy coder

  /** How a sequential scan of a laid-out image is coded. */
  function ScanOf(x: Sent, coding: seq<Component>, dcCond: seq<DcConditioning>, acK: seq<nat>,
      naturalOrder: order): Scan
  {
    Scan(false, coding, x.membership, dcCond, acK, 0, 63, 0, 0, naturalOrder)
  }

  lemma ScanIsGood(d: transform, s: Stages, image: seq<scanline>, context: bool, x: Sent,
      coding: seq<Component>, dcCond: seq<DcConditioning>, acK: seq<nat>, naturalOrder: order)
    requires |image| > 0 && IsSent(d, s, image, context, x) && AllSmall(PictureOf(d, s, image, x.maxV, context, x.cs))
    requires |coding| == |x.cs| && |dcCond| == NUM_ARITH_TBLS && |acK| == NUM_ARITH_TBLS
    requires forall ci :: 0 <= ci < |coding| ==> coding[ci].dcTbl < NUM_ARITH_TBLS && coding[ci].acTbl < NUM_ARITH_TBLS
    ensures var scan := ScanOf(x, coding, dcCond, acK, naturalOrder);
      GoodScan(scan) && GoodMcus(scan, x.mcus) && ModeOf(scan) == Sequential
  {
    hide SmallBlock, AllSmall, PictureOf, AllFit, AllSolid, Raster, Membership;
    MembersAreInScan(x.cs);
    RasterIsSmall(x.cs, PictureOf(d, s, image, x.maxV, context, x.cs), x.mcusPerRow, x.mcuRows);
  }

  lemma TransformIsSmall(d: transform, s: Stages, image: seq<scanline>, r: nat, context: bool, cs: seq<ComponentInfo>)
    requires |image| > 0 && r > 0 && forall i :: 0 <= i < |cs| ==> cs[i].v > 0
    requires forall gs, ci, y, x :: SmallBlock(d(gs, ci, y, x))
    ensures AllSmall(PictureOf(d, s, image, r, context, cs))
  {
    hide SmallBlock, GroupsOf;
    var p := PictureOf(d, s, image, r, context, cs);
    forall i, y, x | 0 <= i < |p| && 0 <= y < |p[i]| && 0 <= x < |p[i][y]| ensures SmallBlock(p[i][y][x]) {
      assert p[i][y] == RowOf(d, GroupsOf(s, image, r, context, y / cs[i].v), i, y % cs[i].v, cs[i].widthInBlocks);
    }
  }

  /** Send a laid-out image through the arithmetic coder and decode it: every quantised
      block of every component comes back at its place, provided that no DC difference
      exceeds 2^15. */
  method TransmitSent(image: seq<scanline>, s: Stages, context: bool, d: transform, x: Sent,
      coding: seq<Component>, dcCond: seq<DcConditioning>, acK: seq<nat>, naturalOrder: order, marker: byte)
    returns (ok: bool, out: seq<seq<block>>)
    requires |image| > 0 && IsSent(d, s, image, context, x)
    requires |coding| == |x.cs| && |dcCond| == NUM_ARITH_TBLS && |acK| == NUM_ARITH_TBLS
    requires forall ci :: 0 <= ci < |coding| ==> coding[ci].dcTbl < NUM_ARITH_TBLS && coding[ci].acTbl < NUM_ARITH_TBLS
    requires GoodOrder(naturalOrder) && marker != 0 && marker != 0xFF
    requires forall gs, ci, y, x :: SmallBlock(d(gs, ci, y, x))
    ensures GoodScan(ScanOf(x, coding, dcCond, acK, naturalOrder))
      && GoodMcus(ScanOf(x, coding, dcCond, acK, naturalOrder), x.mcus)
    ensures ok == Decodable(ScanOf(x, coding, dcCond, acK, naturalOrder), x.mcus)
    ensures ok ==> Restores(x.cs, PictureOf(d, s, image, x.maxV, context, x.cs), x.mcusPerRow, out)
  {
    hide SmallBlock, AllSmall, PictureOf, AllFit, AllSolid, Raster, Membership, ScanTiles, Restores, Decodable,
      GoodOrder, GoodScan, GoodMcus;
    TransformIsSmall(d, s, image, x.maxV, context, x.cs);
    ScanIsGood(d, s, image, context, x, coding, dcCond, acK, naturalOrder);
    RasterRestores(x.cs, PictureOf(d, s, image, x.maxV, context, x.cs), x.mcusPerRow, x.mcuRows, x.total);
    ok, out := T.TransmitSequential(ScanOf(x, coding, dcCond, acK, naturalOrder), x.mcus, marker);
  }

  /** How that scan is Huffman-coded. */
  function HuffmanScanOf(x: Sent, coding: seq<Component>, naturalOrder: order, restartInterval: nat): HM.HuffScan
  {
    HM.HuffScan(coding, x.membership, naturalOrder, restartInterval)
  }

  lemma HuffmanScanIsGood(d: transform, s: Stages, image: seq<scanline>, context: bool, x: Sent,
      coding: seq<Component>, naturalOrder: order, restartInterval: nat)
    requires |image| > 0 && IsSent(d, s, image, context, x) && AllSmall(PictureOf(d, s, image, x.maxV, context, x.cs))
    requires |coding| == |x.cs|
    requires forall ci :: 0 <= ci < |coding| ==>
      coding[ci].dcTbl < HM.NUM_HUFF_TBLS && coding[ci].acTbl < HM.NUM_HUFF_TBLS
    ensures var scan := HuffmanScanOf(x, coding, naturalOrder, restartInterval);
      && HM.GoodHuffScan(scan) && HM.GoodHuffMcus(scan, x.mcus) && HO.AllComponentsCoded(scan) && x.mcus != []
    ensures forall m, i :: 0 <= m < |x.mcus| && 0 <= i < |x.mcus[m]| ==> SmallBlock(x.mcus[m][i])
  {
    hide SmallBlock, AllSmall, PictureOf, AllFit, AllSolid, Raster, Membership;
    MembersAreInScan(x.cs);
    RasterIsSmall(x.cs, PictureOf(d, s, image, x.maxV, context, x.cs), x.mcusPerRow, x.mcuRows);
    forall ci | 0 <= ci < |coding| ensures ci in x.membership {
      MembershipHas(x.cs, ci);
    }
    ScanHasMcus(x.cs, x.mcusPerRow, x.mcuRows, x.total);
  }

  /** Send a laid-out image in two passes through the Huffman coder, with tables made from
      its statistics: every quantised block comes back at its place, for every restart
      interval, when all coefficients are in range. */
  method TransmitSentHuffman(image: seq<scanline>, s: Stages, context: bool, d: transform, x: Sent,
      coding: seq<Component>, naturalOrder: order, restartInterval: nat, marker: byte)
    returns (inRange: bool, ok: bool, out: seq<seq<block>>)
    requires |image| > 0 && IsSent(d, s, image, context, x) && |coding| == |x.cs| && GoodOrder(naturalOrder)
    requires forall ci :: 0 <= ci < |coding| ==>
      coding[ci].dcTbl < HM.NUM_HUFF_TBLS && coding[ci].acTbl < HM.NUM_HUFF_TBLS
    requires marker != 0 && marker != 0xFF && !IsRestart(marker)
    requires forall gs, ci, y, x :: SmallBlock(d(gs, ci, y, x))
    requires var scan := HuffmanScanOf(x, coding, naturalOrder, restartInterval);
      HM.GoodHuffScan(scan) && HM.GoodHuffMcus(scan, x.mcus) ==> |HO.AllTokens(scan, x.mcus)| <= HT.LARGEST
    ensures var scan := HuffmanScanOf(x, coding, naturalOrder, restartInterval);
      && HM.GoodHuffScan(scan) && HM.GoodHuffMcus(scan, x.mcus)
      && (inRange <==> HS.TokensInRange(HO.AllTokens(scan, x.mcus)))
      && (inRange && |HO.AllTokens(scan, x.mcus)| + 1 < HD.LONG_CODE_WEIGHT ==> ok)
    ensures inRange && ok ==> Restores(x.cs, PictureOf(d, s, image, x.maxV, context, x.cs), x.mcusPerRow, out)
  {
    hide SmallBlock, AllSmall, PictureOf, AllFit, AllSolid, Raster, Membership, ScanTiles, Restores, GoodOrder,
      HM.GoodHuffScan, HM.GoodHuffMcus, HO.AllTokens, HS.TokensInRange, HO.AllComponentsCoded, HO.TooLong;
    TransformIsSmall(d, s, image, x.maxV, context, x.cs);
    HuffmanScanIsGood(d, s, image, context, x, coding, naturalOrder, restartInterval);
    RasterRestores(x.cs, PictureOf(d, s, image, x.maxV, context, x.cs), x.mcusPerRow, x.mcuRows, x.total);
    inRange, ok, out := HO.OptimizeAndTransmit(HuffmanScanOf(x, coding, naturalOrder, restartInterval), x.mcus, marker);
  }
}
