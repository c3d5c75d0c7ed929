/**
 The decoder's coefficient arrays (jdcoefct.c, consume_data): which of their blocks a scan
 hands to the entropy decoder, where it puts them back, and what the decoder knows of a
 picture after each scan of a script.
 */
module DecodedPicture {
  import opened Nonlinear
  import opened ScanSetup
  import opened ScanScript
  import opened ImageGeometry
  import opened McuTraversal
  import opened CoefBuffer
  import opened ArithMcuDecoder
  import opened ArithScan

  /** The array of a component is padded to whole MCUs of an interleaved scan. */
  function Across(c: ComponentInfo): nat
    requires c.h > 0
  {
    RoundUp(c.widthInBlocks, c.h)
  }

  function Down(c: ComponentInfo): nat
    requires c.v > 0
  {
    RoundUp(c.heightInBlocks, c.v)
  }

  /** A component as large as its array. */
  function Wide(c: ComponentInfo): ComponentInfo
    requires c.h > 0 && c.v > 0
  {
    c.(widthInBlocks := Across(c), heightInBlocks := Down(c))
  }

  predicate AllHaveFactors(cs: seq<ComponentInfo>)
  {
    forall i :: 0 <= i < |cs| ==> cs[i].h > 0 && cs[i].v > 0
  }

  function Wides(cs: seq<ComponentInfo>): (ws: seq<ComponentInfo>)
    requires AllHaveFactors(cs)
    ensures |ws| == |cs| && forall i :: 0 <= i < |cs| ==> ws[i] == Wide(cs[i])
  {
    seq(|cs|, i requires 0 <= i < |cs| && AllHaveFactors(cs) => Wide(cs[i]))
  }

  /** The arrays of the components of a scan. */
  function Select(held: seq<grid>, cs: seq<ComponentInfo>): (hs: seq<grid>)
    requires forall i :: 0 <= i < |cs| ==> cs[i].componentIndex < |held|
    ensures |hs| == |cs| && forall i :: 0 <= i < |cs| ==> hs[i] == held[cs[i].componentIndex]
  {
    seq(|cs|, i requires 0 <= i < |cs| && cs[i].componentIndex < |held| => held[cs[i].componentIndex])
  }

  // ----- the padded sizes

  lemma WholeTiles(n: nat, f: nat, last: nat, blocks: nat)
    requires Tiles(n, f, last, blocks)
    ensures RoundUp(blocks, f) == n * f
  {
    Distribute(n - 1, 1, f);
    if last == f {
      DivisionUnique(blocks + f - 1, f, n, f - 1);
    } else {
      DivisionUnique(blocks + f - 1, f, n, last - 1);
    }
  }

  lemma AtLeastAll(blocks: nat, f: nat)
    requires f > 0 && blocks > 0
    ensures blocks <= RoundUp(blocks, f)
  {
    RoundUpIs(blocks, f);
  }

  /** The scan stays inside the array of component i. */
  lemma ScanInsideArray(cs: seq<ComponentInfo>, mcusPerRow: nat, mcuRows: nat, total: nat, i: nat)
    requires ScanTiles(cs, mcusPerRow, mcuRows, total) && AllSolid(cs) && i < |cs|
    ensures cs[i].h > 0 && cs[i].v > 0
    ensures cs[i].widthInBlocks <= Across(cs[i]) && cs[i].heightInBlocks <= Down(cs[i])
    ensures mcusPerRow * cs[i].mcuWidth <= Across(cs[i]) && mcuRows * cs[i].mcuHeight <= Down(cs[i])
  {
    hide RoundUp;
    var c := cs[i];
    ScanHas(cs, mcusPerRow, mcuRows, total, i);
    assert Solid(c);
    AtLeastAll(c.widthInBlocks, c.h);
    AtLeastAll(c.heightInBlocks, c.v);
    WholeTiles(mcusPerRow, c.mcuWidth, c.lastColWidth, c.widthInBlocks);
    WholeTiles(total, c.v, c.lastRowHeight, c.heightInBlocks);
    if |cs| == 1 {
      AloneAcross(mcusPerRow, c.lastColWidth, c.widthInBlocks);
    }
  }

  lemma AloneAcross(n: nat, last: nat, blocks: nat)
    requires Tiles(n, 1, last, blocks)
    ensures n == blocks
  {
  }

  lemma WidesAreSolid(cs: seq<ComponentInfo>, mcusPerRow: nat, mcuRows: nat, total: nat)
    requires ScanTiles(cs, mcusPerRow, mcuRows, total) && AllSolid(cs)
    ensures AllHaveFactors(cs) && AllSolid(Wides(cs))
  {
    hide RoundUp, ScanTiles;
    forall i | 0 <= i < |cs| ensures cs[i].h > 0 && cs[i].v > 0 && Solid(Wide(cs[i])) {
      ScanInsideArray(cs, mcusPerRow, mcuRows, total, i);
    }
  }

  lemma {:induction false} SameMembership(cs: seq<ComponentInfo>, ds: seq<ComponentInfo>, n: nat)
    requires |cs| == |ds| && n <= |cs| && forall i :: 0 <= i < |cs| ==> cs[i].mcuBlocks == ds[i].mcuBlocks
    ensures Membership(cs[..n]) == Membership(ds[..n])
  {
    hide Membership;
    if n > 0 {
      SameMembership(cs, ds, n - 1);
      MembershipNext(cs, n - 1);
      MembershipNext(ds, n - 1);
    } else {
      assert cs[..0] == ds[..0];
    }
  }

  /** A block of the array has its place in the MCUs of the scan like a block of the
      image. */
  lemma WidePlace(cs: seq<ComponentInfo>, ci: nat, mcusPerRow: nat, y: nat, x: nat)
    requires AllHaveFactors(cs) && AllSolid(cs) && ci < |cs|
    ensures |Membership(Wides(cs))| == |Membership(cs)|
    ensures McuIndex(Wides(cs)[ci], mcusPerRow, y, x) == McuIndex(cs[ci], mcusPerRow, y, x)
    ensures PlaceInMcu(Wides(cs), ci, y, x) == PlaceInMcu(cs, ci, y, x)
  {
    hide Membership, RoundUp;
    var ws := Wides(cs);
    SameMembership(cs, ws, ci);
    SameMembership(cs, ws, |cs|);
    assert cs[..|cs|] == cs && ws[..|cs|] == ws;
  }

  // ----- the blocks of a scan

  /** The components of a scan have arrays of their padded sizes. */
  predicate CanGather(cs: seq<ComponentInfo>, held: seq<grid>)
  {
    && AllHaveFactors(cs) && AllSolid(cs) && AllSolid(Wides(cs))
    && (forall i :: 0 <= i < |cs| ==> cs[i].componentIndex < |held|) && AllFit(Wides(cs), Select(held, cs))
  }

  /** The blocks that the MCUs of a scan refer to, MCU by MCU. */
  function Gathered(cs: seq<ComponentInfo>, held: seq<grid>, mcusPerRow: nat, mcuRows: nat): (priors: seq<seq<block>>)
    requires CanGather(cs, held)
    ensures |priors| == mcuRows * mcusPerRow
  {
    Raster(Wides(cs), Select(held, cs), mcusPerRow, mcuRows)
  }

  lemma GatheredBlock(cs: seq<ComponentInfo>, held: seq<grid>, mcusPerRow: nat, mcuRows: nat, total: nat,
      ci: nat, y: nat, x: nat)
    requires ScanTiles(cs, mcusPerRow, mcuRows, total) && CanGather(cs, held)
    requires ci < |cs| && y < cs[ci].heightInBlocks && x < cs[ci].widthInBlocks
    ensures y < |held[cs[ci].componentIndex]| && x < |held[cs[ci].componentIndex][y]|
    ensures McuIndex(cs[ci], mcusPerRow, y, x) < mcuRows * mcusPerRow
    ensures Holds(Gathered(cs, held, mcusPerRow, mcuRows)[McuIndex(cs[ci], mcusPerRow, y, x)],
      PlaceInMcu(cs, ci, y, x), held[cs[ci].componentIndex][y][x])
  {
    hide Raster, Mcu, McuBlocks, Membership, ScanTiles, AllSolid, IndexInMcu, Holds, RoundUp;
    var ws, hs, c := Wides(cs), Select(held, cs), cs[ci];
    SolidAt(cs, ci);
    ScanInsideArray(cs, mcusPerRow, mcuRows, total, ci);
    ScanHas(cs, mcusPerRow, mcuRows, total, ci);
    ColumnInside(c, mcusPerRow, total, x);
    RowInside(cs, mcusPerRow, mcuRows, total, ci, y);
    var r, col, yi, xi := y / c.mcuHeight, x / c.mcuWidth, y % c.mcuHeight, x % c.mcuWidth;
    RasterAt(ws, hs, mcusPerRow, mcuRows, r, col);
    WholeMcu(ws, hs, r, col);
    BlockAt(ws, hs, r, col, |ws|, ci, yi, xi);
    Recombined(y, c.mcuHeight);
    Recombined(x, c.mcuWidth);
    assert Fits(ws[ci], hs[ci]);
    CellInside(ws[ci], hs[ci], y, x);
    WidePlace(cs, ci, mcusPerRow, y, x);
  }

  // ----- storing the blocks

  function BlockOf(out: seq<seq<block>>, m: nat, p: nat): block
  {
    if m < |out| && p < |out[m]| then out[m][p] else Blank()
  }

  /** Component ci of the scan covers block (y, x) of its array. */
  predicate InMcus(c: ComponentInfo, mcusPerRow: nat, mcuRows: nat, y: nat, x: nat)
    requires c.mcuHeight > 0 && c.mcuWidth > 0
  {
    y / c.mcuHeight < mcuRows && x / c.mcuWidth < mcusPerRow
  }

  /** The array of component ci of a scan after the scan. */
  function StoredComponent(cs: seq<ComponentInfo>, ci: nat, mcusPerRow: nat, mcuRows: nat, h: grid,
      out: seq<seq<block>>): (after: grid)
    requires ci < |cs| && cs[ci].mcuHeight > 0 && cs[ci].mcuWidth > 0
    ensures |after| == |h| && forall y :: 0 <= y < |h| ==> |after[y]| == |h[y]|
    ensures forall y, x :: 0 <= y < |h| && 0 <= x < |h[y]| ==>
      after[y][x] == if InMcus(cs[ci], mcusPerRow, mcuRows, y, x)
        then BlockOf(out, McuIndex(cs[ci], mcusPerRow, y, x), PlaceInMcu(cs, ci, y, x)) else h[y][x]
  {
    seq(|h|, y requires 0 <= y < |h| && ci < |cs| && cs[ci].mcuHeight > 0 && cs[ci].mcuWidth > 0 =>
      StoredRow(cs, ci, mcusPerRow, mcuRows, h[y], y, out))
  }

  function StoredRow(cs: seq<ComponentInfo>, ci: nat, mcusPerRow: nat, mcuRows: nat, row: seq<block>, y: nat,
      out: seq<seq<block>>): (after: seq<block>)
    requires ci < |cs| && cs[ci].mcuHeight > 0 && cs[ci].mcuWidth > 0
    ensures |after| == |row| && forall x :: 0 <= x < |row| ==>
      after[x] == if InMcus(cs[ci], mcusPerRow, mcuRows, y, x)
        then BlockOf(out, McuIndex(cs[ci], mcusPerRow, y, x), PlaceInMcu(cs, ci, y, x)) else row[x]
  {
    seq<block>(|row|, x requires 0 <= x < |row| && ci < |cs| && cs[ci].mcuHeight > 0 && cs[ci].mcuWidth > 0 =>
      if InMcus(cs[ci], mcusPerRow, mcuRows, y, x)
      then BlockOf(out, McuIndex(cs[ci], mcusPerRow, y, x), PlaceInMcu(cs, ci, y, x)) else row[x])
  }

  /** The arrays of the scan's components have taken the decoded blocks; the others have
      stayed. */
  predicate IsStored(cs: seq<ComponentInfo>, mcusPerRow: nat, mcuRows: nat, held: seq<grid>, out: seq<seq<block>>,
      after: seq<grid>)
    requires AllSolid(cs) && forall i :: 0 <= i < |cs| ==> cs[i].componentIndex < |held|
  {
    && |after| == |held|
    && (forall i :: 0 <= i < |cs| ==> (
      && Solid(cs[i])
      && after[cs[i].componentIndex] == StoredComponent(cs, i, mcusPerRow, mcuRows, held[cs[i].componentIndex], out)))
    && (forall j :: 0 <= j < |held| && (forall i :: 0 <= i < |cs| ==> cs[i].componentIndex != j) ==>
      after[j] == held[j])
  }

  predicate Different(cs: seq<ComponentInfo>)
  {
    forall i, j :: 0 <= i < j < |cs| ==> cs[i].componentIndex != cs[j].componentIndex
  }

  /** The arrays of the scan's components take the decoded blocks; the others stay. */
  method StoreScan(cs: seq<ComponentInfo>, mcusPerRow: nat, mcuRows: nat, held: seq<grid>, out: seq<seq<block>>)
    returns (after: seq<grid>)
    requires Different(cs) && AllSolid(cs) && forall i :: 0 <= i < |cs| ==> cs[i].componentIndex < |held|
    ensures IsStored(cs, mcusPerRow, mcuRows, held, out, after)
  {
    hide StoredComponent;
    assert forall i :: 0 <= i < |cs| ==> Solid(cs[i]);
    after := held;
    for ci := 0 to |cs|
      invariant |after| == |held|
      invariant forall i :: 0 <= i < ci ==>
        after[cs[i].componentIndex] == StoredComponent(cs, i, mcusPerRow, mcuRows, held[cs[i].componentIndex], out)
      invariant forall j :: 0 <= j < |held| && (forall i :: 0 <= i < ci ==> cs[i].componentIndex != j) ==>
        after[j] == held[j]
    {
      var j := cs[ci].componentIndex;
      after := after[j := StoredComponent(cs, ci, mcusPerRow, mcuRows, after[j], out)];
    }
  }

  // ----- what the decoder knows

  /** The arrays have the sizes of the frame's components. */
  predicate Shaped(frame: seq<ComponentInfo>, held: seq<grid>)
    requires AllHaveFactors(frame)
  {
    AllFit(Wides(frame), held)
  }

  predicate KnowsBlock(h: grid, g: grid, y: nat, x: nat, p: positions, o: order)
  {
    y < |h| && x < |h[y]| && y < |g| && x < |g[y]| && Knows(Zigzag(h[y][x], o), Zigzag(g[y][x], o), p)
  }

  /** Every block of a component is known to the bits in p. */
  predicate KnowsComponent(c: ComponentInfo, h: grid, g: grid, p: positions, o: order)
  {
    forall y, x :: 0 <= y < c.heightInBlocks && 0 <= x < c.widthInBlocks ==> KnowsBlock(h, g, y, x, p, o)
  }

  /** Every block of the picture is known to the bits that the scans have sent. */
  predicate KnowsPicture(frame: seq<ComponentInfo>, held: seq<grid>, picture: seq<grid>, scans: seq<ScanInfo>, o: order)
    requires |frame| == |held| == |picture|
  {
    forall j :: 0 <= j < |frame| ==> KnowsComponent(frame[j], held[j], picture[j], Progress(scans, j), o)
  }

  // ----- one scan of a script

  /** A scan of the components `cs` over the arrays: its geometry, and its parameters. */
  ghost predicate ScanOver(s: Scan, info: ScanInfo, cs: seq<ComponentInfo>, held: seq<grid>, picture: seq<grid>,
      mcusPerRow: nat, mcuRows: nat, total: nat)
  {
    && ScanTiles(cs, mcusPerRow, mcuRows, total) && CanGather(cs, held) && |held| == |picture|
    && AllFit(cs, Select(picture, cs))
    && s.membership == Membership(cs) && GoodMcus(s, Raster(cs, Select(picture, cs), mcusPerRow, mcuRows))
    && GoodParameters(info) && Progresses(s, info) && |cs| == |info.components| && GoodOrder(s.naturalOrder)
  }

  lemma OneBlock(c: ComponentInfo)
    requires c.mcuBlocks == 1
    ensures Membership([c]) == [0]
  {
    assert [c][..0] == [];
  }

  lemma OnlyBlock(cs: seq<ComponentInfo>, mcusPerRow: nat, mcuRows: nat, total: nat, m: nat)
    requires ScanTiles(cs, mcusPerRow, mcuRows, total) && AllSolid(cs) && |cs| == 1 && m < mcuRows * mcusPerRow
    ensures mcusPerRow > 0 && |Membership(cs)| == 1
    ensures var y, x := m / mcusPerRow, m % mcusPerRow;
      && y < cs[0].heightInBlocks && x < cs[0].widthInBlocks
      && McuIndex(cs[0], mcusPerRow, y, x) == m && PlaceInMcu(cs, 0, y, x) == 0
  {
    var c := cs[0];
    ScanHas(cs, mcusPerRow, mcuRows, total, 0);
    OneBlock(c);
    assert cs == [c] && cs[..0] == [];
    assert Solid(c) && c.mcuBlocks == 1;
    AloneAcross(mcusPerRow, c.lastColWidth, c.widthInBlocks);
    Recombined(m, mcusPerRow);
    if m / mcusPerRow >= mcuRows {
      MulMonotone(mcuRows, m / mcusPerRow, mcusPerRow);
    }
  }

  /** The entropy decoder finds in the arrays what the scan needs. */
  lemma PriorsAreReady(s: Scan, info: ScanInfo, cs: seq<ComponentInfo>, held: seq<grid>, picture: seq<grid>,
      mcusPerRow: nat, mcuRows: nat, total: nat, p: positions)
    requires ScanOver(s, info, cs, held, picture, mcusPerRow, mcuRows, total) && ScanScript.Follows(info, p)
    requires KnowsComponent(cs[0], Select(held, cs)[0], Select(picture, cs)[0], p, s.naturalOrder)
    ensures s.Se < 64 && GoodPriors(s, Gathered(cs, held, mcusPerRow, mcuRows),
      Raster(cs, Select(picture, cs), mcusPerRow, mcuRows))
  {
    hide ScanOver, GoodOrder, SmallBlock, ReadyFor, ScanScript.Follows, KnowsComponent, AllReady, Raster, AllFit,
      AllSolid, Gathered;
    SendsBand(s, info, cs, held, picture, mcusPerRow, mcuRows, total);
    var priors, mcus := Gathered(cs, held, mcusPerRow, mcuRows), Raster(cs, Select(picture, cs), mcusPerRow, mcuRows);
    forall m | 0 <= m < |mcus| ensures |priors[m]| == |mcus[m]| && AllReady(s, priors[m], mcus[m]) {
      ScanSizes(s, info, cs, held, picture, mcusPerRow, mcuRows, total, m);
      if ModeOf(s) == AcRefine {
        RefinedMcuIsReady(s, info, cs, held, picture, mcusPerRow, mcuRows, total, p, m);
      } else {
        NothingNeeded(s, priors[m], mcus[m]);
      }
    }
  }

  lemma SendsBand(s: Scan, info: ScanInfo, cs: seq<ComponentInfo>, held: seq<grid>, picture: seq<grid>,
      mcusPerRow: nat, mcuRows: nat, total: nat)
    requires ScanOver(s, info, cs, held, picture, mcusPerRow, mcuRows, total)
    ensures s.Ss <= s.Se < 64 && |cs| > 0 && (ModeOf(s) == AcRefine ==> |cs| == 1)
    ensures CanGather(cs, held) && |held| == |picture| && AllFit(cs, Select(picture, cs))
  {
  }

  lemma ScanSizes(s: Scan, info: ScanInfo, cs: seq<ComponentInfo>, held: seq<grid>, picture: seq<grid>,
      mcusPerRow: nat, mcuRows: nat, total: nat, m: nat)
    requires ScanOver(s, info, cs, held, picture, mcusPerRow, mcuRows, total) && m < mcuRows * mcusPerRow
    ensures |Gathered(cs, held, mcusPerRow, mcuRows)[m]| == |Membership(cs)|
    ensures var mcu := Raster(cs, Select(picture, cs), mcusPerRow, mcuRows)[m];
      |mcu| == |Membership(cs)| && forall i :: 0 <= i < |mcu| ==> SmallBlock(mcu[i])
  {
    hide Membership, Raster, SmallBlock, AllFit, AllSolid, GoodOrder, Tiles, Gathered;
    GatheredSize(cs, held, mcusPerRow, mcuRows, m);
  }

  lemma RefinedMcuIsReady(s: Scan, info: ScanInfo, cs: seq<ComponentInfo>, held: seq<grid>, picture: seq<grid>,
      mcusPerRow: nat, mcuRows: nat, total: nat, p: positions, m: nat)
    requires ScanOver(s, info, cs, held, picture, mcusPerRow, mcuRows, total) && ScanScript.Follows(info, p)
    requires KnowsComponent(cs[0], Select(held, cs)[0], Select(picture, cs)[0], p, s.naturalOrder)
    requires m < mcuRows * mcusPerRow && ModeOf(s) == AcRefine && s.Se < 64
    ensures var prior, mcu := Gathered(cs, held, mcusPerRow, mcuRows)[m],
      Raster(cs, Select(picture, cs), mcusPerRow, mcuRows)[m];
      |prior| == |mcu| && AllReady(s, prior, mcu)
  {
    hide ScanTiles, Solid, Fits, RoundUp, Membership, KnowsBlock, GoodOrder, SmallBlock, ReadyFor, ScanScript.Follows,
      McuIndex, PlaceInMcu, Raster, Gathered, GoodMcus, AllSolid;
    OnlyBlock(cs, mcusPerRow, mcuRows, total, m);
    ScanSizes(s, info, cs, held, picture, mcusPerRow, mcuRows, total, m);
    var y, x := m / mcusPerRow, m % mcusPerRow;
    EveryBlockIsSent(cs, Select(picture, cs), mcusPerRow, mcuRows, total, 0, y, x);
    GatheredBlock(cs, held, mcusPerRow, mcuRows, total, 0, y, x);
    BlockIsReady(s, info, Select(held, cs)[0], Select(picture, cs)[0], y, x, p,
      Gathered(cs, held, mcusPerRow, mcuRows)[m][0], Raster(cs, Select(picture, cs), mcusPerRow, mcuRows)[m][0]);
  }

  lemma NothingNeeded(s: Scan, priors: seq<block>, mcu: seq<block>)
    requires |priors| == |mcu| && s.Se < 64 && ModeOf(s) != AcRefine
    ensures AllReady(s, priors, mcu)
  {
  }

  lemma GatheredSize(cs: seq<ComponentInfo>, held: seq<grid>, mcusPerRow: nat, mcuRows: nat, m: nat)
    requires CanGather(cs, held) && |cs| > 0 && m < mcuRows * mcusPerRow
    ensures |Gathered(cs, held, mcusPerRow, mcuRows)[m]| == |Membership(cs)|
  {
    hide Membership, AllFit, AllSolid, Mcu;
    Recombined(m, mcusPerRow);
    if m / mcusPerRow >= mcuRows {
      MulMonotone(mcuRows, m / mcusPerRow, mcusPerRow);
    }
    RasterAt(Wides(cs), Select(held, cs), mcusPerRow, mcuRows, m / mcusPerRow, m % mcusPerRow);
    WidePlace(cs, 0, mcusPerRow, 0, 0);
  }

  lemma BlockIsReady(s: Scan, info: ScanInfo, h: grid, g: grid, y: nat, x: nat, p: positions, prior: block, b: block)
    requires GoodParameters(info) && Progresses(s, info) && ScanScript.Follows(info, p) && GoodOrder(s.naturalOrder)
    requires KnowsBlock(h, g, y, x, p, s.naturalOrder) && prior == h[y][x] && b == g[y][x] && SmallBlock(b)
    ensures s.Se < 64 && ReadyFor(s, Zigzag(prior, s.naturalOrder), b)
  {
    ScanAdvances(s, info, Zigzag(prior, s.naturalOrder), b, p);
  }

  /** A block of a component of the scan, in the arrays after the scan. */
  lemma BlockAdvances(s: Scan, info: ScanInfo, cs: seq<ComponentInfo>, held: seq<grid>, picture: seq<grid>,
      mcusPerRow: nat, mcuRows: nat, total: nat, p: positions, out: seq<seq<block>>, ci: nat, y: nat, x: nat)
    requires ScanOver(s, info, cs, held, picture, mcusPerRow, mcuRows, total) && ScanScript.Follows(info, p)
    requires s.Ss <= s.Se < 64 && |out| == mcuRows * mcusPerRow
    requires ScanReceived(s, Gathered(cs, held, mcusPerRow, mcuRows),
      Raster(cs, Select(picture, cs), mcusPerRow, mcuRows), out)
    requires ci < |cs| && y < cs[ci].heightInBlocks && x < cs[ci].widthInBlocks
    requires KnowsBlock(Select(held, cs)[ci], Select(picture, cs)[ci], y, x, p, s.naturalOrder)
    ensures cs[ci].mcuHeight > 0 && cs[ci].mcuWidth > 0
    ensures KnowsBlock(StoredComponent(cs, ci, mcusPerRow, mcuRows, Select(held, cs)[ci], out), Select(picture, cs)[ci],
      y, x, Sends(info, p), s.naturalOrder)
  {
    hide ScanOver, GoodOrder, SmallBlock, ScanScript.Follows, Raster, Gathered, AllFit, AllSolid, McuIndex, PlaceInMcu,
      GoodParameters, Sends, Received, Membership, ScanReceived;
    ScanBasics(s, info, cs, held, picture, mcusPerRow, mcuRows, total, ci);
    EveryBlockIsSent(cs, Select(picture, cs), mcusPerRow, mcuRows, total, ci, y, x);
    GatheredBlock(cs, held, mcusPerRow, mcuRows, total, ci, y, x);
    ColumnInside(cs[ci], mcusPerRow, total, x);
    RowInside(cs, mcusPerRow, mcuRows, total, ci, y);
    var m, k := McuIndex(cs[ci], mcusPerRow, y, x), PlaceInMcu(cs, ci, y, x);
    ScanSizes(s, info, cs, held, picture, mcusPerRow, mcuRows, total, m);
    ReceivedAt(s, Gathered(cs, held, mcusPerRow, mcuRows), Raster(cs, Select(picture, cs), mcusPerRow, mcuRows),
      out, m, k);
    ScanAdvances(s, info, Zigzag(Select(held, cs)[ci][y][x], s.naturalOrder), Select(picture, cs)[ci][y][x], p);
  }

  lemma ScanBasics(s: Scan, info: ScanInfo, cs: seq<ComponentInfo>, held: seq<grid>, picture: seq<grid>,
      mcusPerRow: nat, mcuRows: nat, total: nat, ci: nat)
    requires ScanOver(s, info, cs, held, picture, mcusPerRow, mcuRows, total) && ci < |cs|
    ensures ScanTiles(cs, mcusPerRow, mcuRows, total) && CanGather(cs, held) && |held| == |picture|
    ensures AllFit(cs, Select(picture, cs))
    ensures GoodParameters(info) && Progresses(s, info) && GoodOrder(s.naturalOrder)
    ensures TilesComponent(cs[ci], mcusPerRow, total) && cs[ci].mcuHeight > 0 && cs[ci].mcuWidth > 0
  {
    assert Solid(cs[ci]);
  }

  lemma ReceivedAt(s: Scan, priors: seq<seq<block>>, mcus: seq<seq<block>>, out: seq<seq<block>>, m: nat, k: nat)
    requires s.Ss <= s.Se < 64 && |priors| == |mcus| == |out| && ScanReceived(s, priors, mcus, out)
    requires m < |mcus| && k < |mcus[m]|
    ensures k < |priors[m]| && k < |out[m]|
    ensures Zigzag(out[m][k], s.naturalOrder) == Received(s, Zigzag(priors[m][k], s.naturalOrder), mcus[m][k])
  {
  }

  /** The scan is of the components that info lists, as the frame has them. */
  predicate OfFrame(info: ScanInfo, cs: seq<ComponentInfo>, frame: seq<ComponentInfo>)
  {
    |cs| == |info.components| && forall i :: 0 <= i < |cs| ==> var j := cs[i].componentIndex;
      j == info.components[i] && j < |frame| && Stored(cs[i], frame[j])
  }

  /** After a scan the whole picture is known to the bits that the scan has sent. */
  lemma PictureAdvances(s: Scan, info: ScanInfo, cs: seq<ComponentInfo>, held: seq<grid>, picture: seq<grid>,
      mcusPerRow: nat, mcuRows: nat, total: nat, out: seq<seq<block>>, frame: seq<ComponentInfo>, before: seq<ScanInfo>,
      after: seq<grid>)
    requires ScanOver(s, info, cs, held, picture, mcusPerRow, mcuRows, total) && OfFrame(info, cs, frame)
    requires s.Ss <= s.Se < 64 && |out| == mcuRows * mcusPerRow && |frame| == |held| == |picture| == |after|
    requires ScanReceived(s, Gathered(cs, held, mcusPerRow, mcuRows),
      Raster(cs, Select(picture, cs), mcusPerRow, mcuRows), out)
    requires forall i :: 0 <= i < |cs| ==> ScanScript.Follows(info, Progress(before, info.components[i]))
    requires KnowsPicture(frame, held, picture, before, s.naturalOrder)
    requires IsStored(cs, mcusPerRow, mcuRows, held, out, after)
    ensures KnowsPicture(frame, after, picture, before + [info], s.naturalOrder)
  {
    hide ScanOver, Raster, Gathered, StoredComponent, ScanReceived, KnowsComponent, Sends, ScanScript.Follows;
    assert (before + [info])[..|before|] == before;
    forall j | 0 <= j < |frame|
      ensures KnowsComponent(frame[j], after[j], picture[j], Progress(before + [info], j), s.naturalOrder) {
      if j in info.components {
        var i :| 0 <= i < |info.components| && info.components[i] == j;
        ComponentAdvances(s, info, cs, held, picture, mcusPerRow, mcuRows, total, Progress(before, j),
          out, i, frame[j]);
      }
    }
  }

  lemma ComponentAdvances(s: Scan, info: ScanInfo, cs: seq<ComponentInfo>, held: seq<grid>, picture: seq<grid>,
      mcusPerRow: nat, mcuRows: nat, total: nat, p: positions, out: seq<seq<block>>, ci: nat, c: ComponentInfo)
    requires ScanOver(s, info, cs, held, picture, mcusPerRow, mcuRows, total) && ScanScript.Follows(info, p)
    requires s.Ss <= s.Se < 64 && |out| == mcuRows * mcusPerRow && ci < |cs| && Stored(cs[ci], c)
    requires ScanReceived(s, Gathered(cs, held, mcusPerRow, mcuRows),
      Raster(cs, Select(picture, cs), mcusPerRow, mcuRows), out)
    requires KnowsComponent(c, Select(held, cs)[ci], Select(picture, cs)[ci], p, s.naturalOrder)
    ensures cs[ci].mcuHeight > 0 && cs[ci].mcuWidth > 0
    ensures KnowsComponent(c, StoredComponent(cs, ci, mcusPerRow, mcuRows, Select(held, cs)[ci], out),
      Select(picture, cs)[ci], Sends(info, p), s.naturalOrder)
  {
    hide ScanOver, Raster, Gathered, StoredComponent, ScanReceived, KnowsBlock, Sends, ScanScript.Follows;
    ScanBasics(s, info, cs, held, picture, mcusPerRow, mcuRows, total, ci);
    forall y, x | 0 <= y < c.heightInBlocks && 0 <= x < c.widthInBlocks
      ensures KnowsBlock(StoredComponent(cs, ci, mcusPerRow, mcuRows, Select(held, cs)[ci], out),
        Select(picture, cs)[ci], y, x, Sends(info, p), s.naturalOrder) {
      BlockAdvances(s, info, cs, held, picture, mcusPerRow, mcuRows, total, p, out, ci, y, x);
    }
  }
}
