/** Sizes of components in blocks and MCUs (jcmaster.c, initial_setup and
    per_scan_setup). */
module ImageGeometry {
  import opened Nonlinear

  const DCTSIZE := 8
  const JPEG_MAX_DIMENSION := 65500
  const MAX_COMPONENTS := 10
  const MAX_COMPS_IN_SCAN := 4
  const MAX_SAMP_FACTOR := 4
  const C_MAX_BLOCKS_IN_MCU := 10

  datatype ComponentInfo = ComponentInfo(
    h: int, v: int,                              // sampling factors
    componentIndex: nat,
    widthInBlocks: nat, heightInBlocks: nat,
    downsampledWidth: nat, downsampledHeight: nat,
    mcuWidth: nat, mcuHeight: nat, mcuBlocks: nat, mcuSampleWidth: nat,
    lastColWidth: nat, lastRowHeight: nat)       // real blocks in the last MCU column and row

  datatype Setup = Done | EmptyImage | ImageTooBig | WidthOverflow | BadPrecision | ComponentCount
    | BadSampling | BadMcuSize

  // ----- division rounding up

  /** n units of size b just cover a. */
  predicate Covers(n: int, b: int, a: int)
  {
    (n - 1) * b < a <= n * b
  }

  /** jdiv_round_up. */
  function DivRoundUp(a: nat, b: nat): (n: nat)
    requires b > 0
    ensures a > 0 ==> Covers(n, b, a) && n > 0
  {
    var n := (a + b - 1) / b;
    assert a + b - 1 == b * n + (a + b - 1) % b;
    assert (n - 1) * b == n * b - b;
    if n == 0 then assert a > 0 ==> false; n else n
  }

  lemma CoverIsUnique(m: int, n: int, b: int, a: int)
    requires b > 0 && Covers(m, b, a) && Covers(n, b, a)
    ensures m == n
  {
    if m < n {
      MulMonotone(m, n - 1, b);
    } else if n < m {
      MulMonotone(n, m - 1, b);
    }
  }

  // ----- tiling

  /** `total` tiles of `size` blocks, the last holding `last`, make up `blocks`. */
  predicate Tiles(total: nat, size: nat, last: nat, blocks: nat)
  {
    total >= 1 && 1 <= last <= size && (total - 1) * size + last == blocks
  }

  function LastTile(blocks: nat, size: nat): (last: nat)
    requires size > 0
  {
    if blocks % size == 0 then size else blocks % size
  }

  /** An extent of `n` samples at full resolution is covered by `total` tiles of `unit`
      samples; a component with `f` blocks in each tile has `blocks` blocks, and they
      tile it. */
  lemma BlocksTile(n: nat, unit: nat, f: nat, total: nat, blocks: nat)
    requires n > 0 && unit > 0 && f > 0 && Covers(total, unit, n) && Covers(blocks, unit, n * f)
    ensures Tiles(total, f, LastTile(blocks, f), blocks)
  {
    EnoughTiles(n, unit, f, total, blocks);
    NoSpareTile(n, unit, f, total, blocks);
    NotNothing(total, unit, n);
    var rest := blocks - (total - 1) * f;
    Distribute(total - 1, 1, f);
    if rest == f {
      DivisionUnique(blocks, f, total, 0);
    } else {
      DivisionUnique(blocks, f, total - 1, rest);
    }
  }

  lemma NotNothing(total: nat, unit: nat, n: nat)
    requires n > 0 && Covers(total, unit, n)
    ensures total > 0
  {
  }

  lemma EnoughTiles(n: nat, unit: nat, f: nat, total: nat, blocks: nat)
    requires unit > 0 && f > 0 && Covers(total, unit, n) && Covers(blocks, unit, n * f)
    ensures blocks <= total * f
  {
    MulMonotone(n, total * unit, f);
    Reassociate(total, unit, f);
    if blocks > total * f {
      MulMonotone(total * f, blocks - 1, unit);
    }
  }

  lemma NoSpareTile(n: nat, unit: nat, f: nat, total: nat, blocks: nat)
    requires unit > 0 && f > 0 && Covers(total, unit, n) && Covers(blocks, unit, n * f)
    ensures (total - 1) * f < blocks
  {
    MulStrict((total - 1) * unit, n, f);
    Reassociate(total - 1, unit, f);
    if blocks <= (total - 1) * f {
      MulMonotone(blocks, (total - 1) * f, unit);
    }
  }

  // ----- what the setup establishes

  /** m is the largest of the factors, and at least 1. */
  predicate IsLargest(m: int, factors: seq<int>)
  {
    && (forall i :: 0 <= i < |factors| ==> factors[i] <= m)
    && (m == 1 || m in factors)
  }

  function Hs(cs: seq<ComponentInfo>): (fs: seq<int>)
    ensures |fs| == |cs| && forall i :: 0 <= i < |cs| ==> fs[i] == cs[i].h
  {
    seq(|cs|, i requires 0 <= i < |cs| => cs[i].h)
  }

  function Vs(cs: seq<ComponentInfo>): (fs: seq<int>)
    ensures |fs| == |cs| && forall i :: 0 <= i < |cs| ==> fs[i] == cs[i].v
  {
    seq(|cs|, i requires 0 <= i < |cs| => cs[i].v)
  }

  predicate GoodFactors(c: ComponentInfo)
  {
    1 <= c.h <= MAX_SAMP_FACTOR && 1 <= c.v <= MAX_SAMP_FACTOR
  }

  /** The size of a component of an image of w by h samples. */
  predicate Sized(c: ComponentInfo, w: nat, h: nat, maxH: int, maxV: int)
  {
    && GoodFactors(c) && c.h <= maxH && c.v <= maxV
    && Covers(c.widthInBlocks, DCTSIZE * maxH, w * c.h) && Covers(c.heightInBlocks, DCTSIZE * maxV, h * c.v)
    && Covers(c.downsampledWidth, maxH, w * c.h) && Covers(c.downsampledHeight, maxV, h * c.v)
  }

  /** The MCUs of a scan tile a component in both directions.  In the vertical direction
      the tile is an iMCU row, of which a noninterleaved scan has `v` MCU rows. */
  predicate TilesComponent(c: ComponentInfo, mcusPerRow: nat, totalIMcuRows: nat)
  {
    && GoodFactors(c)
    && Tiles(mcusPerRow, c.mcuWidth, c.lastColWidth, c.widthInBlocks)
    && Tiles(totalIMcuRows, c.v, c.lastRowHeight, c.heightInBlocks)
    && c.mcuBlocks == c.mcuWidth * c.mcuHeight && c.mcuSampleWidth == c.mcuWidth * DCTSIZE
  }

  /** The geometry of a scan of the components `cs`. */
  predicate ScanTiles(cs: seq<ComponentInfo>, mcusPerRow: nat, mcuRows: nat, totalIMcuRows: nat)
  {
    && 1 <= |cs| <= MAX_COMPS_IN_SCAN
    && (forall i :: 0 <= i < |cs| ==> TilesComponent(cs[i], mcusPerRow, totalIMcuRows))
    && (if |cs| == 1 then cs[0].mcuWidth == cs[0].mcuHeight == 1 && mcuRows == cs[0].heightInBlocks
        else mcuRows == totalIMcuRows && forall i :: 0 <= i < |cs| ==> (cs[i].mcuWidth == cs[i].h
          && cs[i].mcuHeight == cs[i].v))
  }

  /** Which component each block of an MCU belongs to. */
  function Membership(cs: seq<ComponentInfo>): (m: seq<nat>)
  {
    if cs == [] then []
    else Membership(cs[..|cs| - 1]) + seq(cs[|cs| - 1].mcuBlocks, _ => |cs| - 1)
  }

  lemma MembershipNext(cs: seq<ComponentInfo>, i: nat)
    requires i < |cs|
    ensures Membership(cs[..i + 1]) == Membership(cs[..i]) + seq(cs[i].mcuBlocks, _ => i)
  {
    assert cs[..i + 1][..i] == cs[..i];
  }

  lemma {:induction false} MembershipGrows(cs: seq<ComponentInfo>, i: nat)
    requires i <= |cs|
    ensures Membership(cs[..i]) <= Membership(cs)
    decreases |cs| - i
  {
    if i == |cs| {
      assert cs[..i] == cs;
    } else {
      MembershipNext(cs, i);
      MembershipGrows(cs, i + 1);
    }
  }

  function Chosen(all: seq<ComponentInfo>, cur: seq<nat>): (cs: seq<ComponentInfo>)
    requires forall i :: 0 <= i < |cur| ==> cur[i] < |all|
    ensures |cs| == |cur| && forall i :: 0 <= i < |cur| ==> cs[i] == all[cur[i]]
  {
    seq(|cur|, i requires 0 <= i < |cur| && cur[i] < |all| => all[cur[i]])
  }

  // ----- the checks

  /** The checks of initial_setup, in their order. */
  function FrameCheck(width: int, height: int, inputs: int, precision: int, comps: seq<ComponentInfo>): Setup
  {
    if height <= 0 || width <= 0 || |comps| == 0 || inputs <= 0 then EmptyImage
    else if height > JPEG_MAX_DIMENSION || width > JPEG_MAX_DIMENSION then ImageTooBig
    else if width * inputs >= 0x1_0000_0000 then WidthOverflow
    else if precision != 8 then BadPrecision
    else if |comps| > MAX_COMPONENTS then ComponentCount
    else if exists i :: 0 <= i < |comps| && !GoodFactors(comps[i]) then BadSampling
    else Done
  }

  /** The blocks in an MCU of several components. */
  function BlocksIn(hs: seq<int>, vs: seq<int>, cur: seq<nat>): int
    requires |hs| == |vs| && forall i :: 0 <= i < |cur| ==> cur[i] < |hs|
  {
    if cur == [] then 0
    else BlocksIn(hs, vs, cur[..|cur| - 1]) + hs[cur[|cur| - 1]] * vs[cur[|cur| - 1]]
  }

  lemma BlocksNext(hs: seq<int>, vs: seq<int>, cur: seq<nat>, i: nat)
    requires |hs| == |vs| && i < |cur| && forall i :: 0 <= i < |cur| ==> cur[i] < |hs|
    ensures BlocksIn(hs, vs, cur[..i + 1]) == BlocksIn(hs, vs, cur[..i]) + hs[cur[i]] * vs[cur[i]]
  {
    assert cur[..i + 1][..i] == cur[..i];
  }

  lemma {:induction false} BlocksGrow(hs: seq<int>, vs: seq<int>, cur: seq<nat>, i: nat)
    requires |hs| == |vs| && i <= |cur| && forall i :: 0 <= i < |cur| ==> cur[i] < |hs|
    requires forall i :: 0 <= i < |hs| ==> hs[i] > 0 && vs[i] > 0
    ensures BlocksIn(hs, vs, cur[..i]) <= BlocksIn(hs, vs, cur)
    decreases |cur| - i
  {
    if i == |cur| {
      assert cur[..i] == cur;
    } else {
      BlocksNext(hs, vs, cur, i);
      MulPositive(hs[cur[i]], vs[cur[i]]);
      BlocksGrow(hs, vs, cur, i + 1);
    }
  }

  /** The checks of per_scan_setup. */
  function ScanCheck(hs: seq<int>, vs: seq<int>, cur: seq<nat>): Setup
    requires |hs| == |vs| && forall i :: 0 <= i < |cur| ==> cur[i] < |hs|
  {
    if |cur| == 1 then Done
    else if |cur| == 0 || |cur| > MAX_COMPS_IN_SCAN then ComponentCount
    else if BlocksIn(hs, vs, cur) > C_MAX_BLOCKS_IN_MCU then BadMcuSize
    else Done
  }

  /** A frame is accepted just when it is not empty, at most 65500 samples wide and high, its
      input rows are shorter than 2^32 samples, its samples have 8 bits, and it has at most 10
      components, all with sampling factors from 1 to 4. */
  lemma FrameIsAccepted(width: int, height: int, inputs: int, precision: int, comps: seq<ComponentInfo>)
    ensures FrameCheck(width, height, inputs, precision, comps) == Done <==>
      && 1 <= height <= 65500 && 1 <= width <= 65500 && inputs > 0 && width * inputs < 0x1_0000_0000
      && precision == 8 && 1 <= |comps| <= 10
      && forall i :: 0 <= i < |comps| ==> 1 <= comps[i].h <= 4 && 1 <= comps[i].v <= 4
  {
    if 1 <= |comps| && inputs > 0 && FrameCheck(width, height, inputs, precision, comps) == Done {
      forall i | 0 <= i < |comps| ensures GoodFactors(comps[i]) {
      }
    }
  }

  /** A scan is accepted just when it has one component, or up to 4 with at most 10 blocks in
      an MCU. */
  lemma ScanIsAccepted(hs: seq<int>, vs: seq<int>, cur: seq<nat>)
    requires |hs| == |vs| && forall i :: 0 <= i < |cur| ==> cur[i] < |hs|
    ensures ScanCheck(hs, vs, cur) == Done <==>
      |cur| == 1 || (2 <= |cur| <= 4 && BlocksIn(hs, vs, cur) <= 10)
  {
  }

  // ----- the layout of a scan

  /** A component without what per_scan_setup says of it. */
  function Cleared(c: ComponentInfo): ComponentInfo
  {
    c.(mcuWidth := 0, mcuHeight := 0, mcuBlocks := 0, mcuSampleWidth := 0, lastColWidth := 0, lastRowHeight := 0)
  }

  /** The components have the same sizes, whatever scan they were last set up for. */
  predicate SameFrame(a: seq<ComponentInfo>, b: seq<ComponentInfo>)
  {
    |a| == |b| && forall i :: 0 <= i < |a| ==> Cleared(a[i]) == Cleared(b[i])
  }

  /** A component in a scan, alone or with others. */
  function InScan(c: ComponentInfo, alone: bool): (r: ComponentInfo)
    requires c.h > 0 && c.v > 0
    ensures Cleared(r) == Cleared(c)
  {
    if alone then
      c.(mcuWidth := 1, mcuHeight := 1, mcuBlocks := 1, mcuSampleWidth := DCTSIZE,
         lastColWidth := 1, lastRowHeight := LastTile(c.heightInBlocks, c.v))
    else
      c.(mcuWidth := c.h, mcuHeight := c.v, mcuBlocks := c.h * c.v, mcuSampleWidth := c.h * DCTSIZE,
         lastColWidth := LastTile(c.widthInBlocks, c.h), lastRowHeight := LastTile(c.heightInBlocks, c.v))
  }

  /** The component is set up as the scan needs it. */
  predicate IsInScan(c: ComponentInfo, alone: bool)
  {
    c.h > 0 && c.v > 0 && c == InScan(c, alone)
  }

  lemma InScanCleared(a: ComponentInfo, b: ComponentInfo, alone: bool)
    requires Cleared(a) == Cleared(b) && a.h > 0 && a.v > 0
    ensures b.h > 0 && b.v > 0 && InScan(a, alone) == InScan(b, alone)
  {
    assert Cleared(a).h == a.h && Cleared(a).v == a.v && Cleared(b).h == b.h && Cleared(b).v == b.v;
  }

  class Master {
    const imageWidth: int
    const imageHeight: int
    const inputComponents: int
    const dataPrecision: int
    const restartInRows: nat
    var compInfo: seq<ComponentInfo>
    var maxH: int
    var maxV: int
    var totalIMcuRows: nat
    var mcusPerRow: nat
    var mcuRowsInScan: nat
    var membership: seq<nat>
    var restartInterval: nat

    constructor (width: int, height: int, inputs: int, precision: int, comps: seq<ComponentInfo>, restartRows: nat)
      ensures imageWidth == width && imageHeight == height && inputComponents == inputs && dataPrecision == precision
      ensures compInfo == comps && restartInRows == restartRows
    {
      imageWidth, imageHeight, inputComponents, dataPrecision := width, height, inputs, precision;
      compInfo, restartInRows := comps, restartRows;
      maxH, maxV, totalIMcuRows, mcusPerRow, mcuRowsInScan, membership, restartInterval := 1, 1, 0, 0, 0, [], 0;
    }

    /** What initial_setup has established. */
    ghost predicate Ready()
      reads `compInfo, `maxH, `maxV, `totalIMcuRows
    {
      && 0 < imageWidth <= JPEG_MAX_DIMENSION && 0 < imageHeight <= JPEG_MAX_DIMENSION
      && 0 < |compInfo| <= MAX_COMPONENTS
      && IsLargest(maxH, Hs(compInfo)) && IsLargest(maxV, Vs(compInfo)) && maxH >= 1 && maxV >= 1
      && Covers(totalIMcuRows, DCTSIZE * maxV, imageHeight)
      && forall i :: 0 <= i < |compInfo| ==>
        Sized(compInfo[i], imageWidth, imageHeight, maxH, maxV) && compInfo[i].componentIndex == i
    }

    method InitialSetup() returns (r: Setup)
      modifies this
      ensures r == FrameCheck(imageWidth, imageHeight, inputComponents, dataPrecision, old(compInfo))
        && (r == Done ==> Ready())
      ensures |compInfo| == |old(compInfo)| && Hs(compInfo) == Hs(old(compInfo)) && Vs(compInfo) == Vs(old(compInfo))
    {
      if imageHeight <= 0 || imageWidth <= 0 || |compInfo| == 0 || inputComponents <= 0 {
        return EmptyImage;
      }
      if imageHeight > JPEG_MAX_DIMENSION || imageWidth > JPEG_MAX_DIMENSION {
        return ImageTooBig;
      }
      if imageWidth * inputComponents % 0x1_0000_0000 != imageWidth * inputComponents {
        WidthTooLarge(imageWidth * inputComponents);
        return WidthOverflow;
      }
      WidthTooLarge(imageWidth * inputComponents);
      if dataPrecision != 8 {
        return BadPrecision;
      }
      if |compInfo| > MAX_COMPONENTS {
        return ComponentCount;
      }
      r := MaximumFactors();
      if r == Done {
        ComponentSizes();
        totalIMcuRows := DivRoundUp(imageHeight, maxV * DCTSIZE);
      }
    }

    lemma WidthTooLarge(n: int)
      requires imageWidth > 0 && inputComponents > 0 && n == imageWidth * inputComponents
      ensures n % 0x1_0000_0000 == n <==> n < 0x1_0000_0000
    {
      MulPositive(imageWidth, inputComponents);
    }

    method MaximumFactors() returns (r: Setup)
      requires |compInfo| > 0
      modifies this
      ensures r == if exists i :: 0 <= i < |compInfo| && !GoodFactors(compInfo[i]) then BadSampling else Done
      ensures compInfo == old(compInfo) && totalIMcuRows == old(totalIMcuRows)
      ensures r == Done ==> IsLargest(maxH, Hs(compInfo)) && IsLargest(maxV, Vs(compInfo)) && maxH >= 1 && maxV >= 1
    {
      maxH, maxV := 1, 1;
      for ci := 0 to |compInfo|
        invariant compInfo == old(compInfo) && totalIMcuRows == old(totalIMcuRows) && maxH >= 1 && maxV >= 1
        invariant forall i :: 0 <= i < ci ==> GoodFactors(compInfo[i]) && compInfo[i].h <= maxH && compInfo[i].v <= maxV
        invariant maxH == 1 || exists i :: 0 <= i < ci && compInfo[i].h == maxH
        invariant maxV == 1 || exists i :: 0 <= i < ci && compInfo[i].v == maxV
      {
        var c := compInfo[ci];
        if c.h <= 0 || c.h > MAX_SAMP_FACTOR || c.v <= 0 || c.v > MAX_SAMP_FACTOR {
          assert !GoodFactors(compInfo[ci]);
          return BadSampling;
        }
        maxH := if c.h > maxH then c.h else maxH;
        maxV := if c.v > maxV then c.v else maxV;
      }
      r := Done;
      ghost var hs, vs := Hs(compInfo), Vs(compInfo);
      assert forall i :: 0 <= i < |compInfo| ==> hs[i] == compInfo[i].h && vs[i] == compInfo[i].v;
    }

    method ComponentSizes()
      requires 0 < imageWidth && 0 < imageHeight && IsLargest(maxH, Hs(compInfo)) && IsLargest(maxV, Vs(compInfo))
        && maxH >= 1 && maxV >= 1
      requires forall i :: 0 <= i < |compInfo| ==> GoodFactors(compInfo[i])
      modifies `compInfo
      ensures |compInfo| == |old(compInfo)| && Hs(compInfo) == Hs(old(compInfo)) && Vs(compInfo) == Vs(old(compInfo))
      ensures forall i :: 0 <= i < |compInfo| ==>
        Sized(compInfo[i], imageWidth, imageHeight, maxH, maxV) && compInfo[i].componentIndex == i
    {
      hide Covers;
      ghost var before := compInfo;
      assert forall i :: 0 <= i < |before| ==> Hs(before)[i] <= maxH && Vs(before)[i] <= maxV;
      for ci := 0 to |compInfo|
        invariant |compInfo| == |before|
        invariant forall i :: 0 <= i < |before| ==> (compInfo[i].h == before[i].h && compInfo[i].v == before[i].v
          && GoodFactors(compInfo[i]))
        invariant forall i :: 0 <= i < ci ==> (Sized(compInfo[i], imageWidth, imageHeight, maxH, maxV)
          && compInfo[i].componentIndex == i)
      {
        var c := compInfo[ci];
        MulPositive(imageWidth, c.h);
        MulPositive(imageHeight, c.v);
        assert c.h == Hs(before)[ci] && c.v == Vs(before)[ci];
        compInfo := compInfo[ci := c.(
          componentIndex := ci,
          widthInBlocks := DivRoundUp(imageWidth * c.h, maxH * DCTSIZE),
          heightInBlocks := DivRoundUp(imageHeight * c.v, maxV * DCTSIZE),
          downsampledWidth := DivRoundUp(imageWidth * c.h, maxH),
          downsampledHeight := DivRoundUp(imageHeight * c.v, maxV))];
      }
    }

    /** The components of a scan as they stand. */
    function Scanned(cur: seq<nat>): (cs: seq<ComponentInfo>)
      requires forall i :: 0 <= i < |cur| ==> cur[i] < |compInfo|
      reads `compInfo
    {
      Chosen(compInfo, cur)
    }

    /** The scan tiles its components, and every block of an MCU has its component. */
    ghost predicate ScanReady(cur: seq<nat>)
      reads this
    {
      && (forall i :: 0 <= i < |cur| ==> cur[i] < |compInfo|)
      && ScanTiles(Scanned(cur), mcusPerRow, mcuRowsInScan, totalIMcuRows)
      && membership == Membership(Scanned(cur)) && |membership| <= C_MAX_BLOCKS_IN_MCU
      && (forall i :: 0 <= i < |cur| ==> IsInScan(compInfo[cur[i]], |cur| == 1))
      && (if |cur| == 1 then mcusPerRow == compInfo[cur[0]].widthInBlocks
          else Covers(mcusPerRow, DCTSIZE * maxH, imageWidth))
    }

    /** The restart interval for a number of rows, limited to 16 bits. */
    static predicate IsInterval(interval: nat, rows: nat, mcusPerRow: nat)
    {
      var nominal := rows * mcusPerRow;
      0 < interval <= 65535 && (interval == nominal || interval == 65535 < nominal)
    }

    /** per_scan_setup for the components `cur` of the frame. */
    method PerScanSetup(cur: seq<nat>) returns (r: Setup)
      requires Ready() && forall i :: 0 <= i < |cur| ==> cur[i] < |compInfo|
      requires forall i, j :: 0 <= i < j < |cur| ==> cur[i] != cur[j]
      modifies this
      ensures Ready() && |compInfo| == |old(compInfo)| && totalIMcuRows == old(totalIMcuRows)
      ensures Hs(compInfo) == Hs(old(compInfo)) && Vs(compInfo) == Vs(old(compInfo))
      ensures SameFrame(compInfo, old(compInfo))
      ensures maxH == old(maxH) && maxV == old(maxV)
      ensures r == ScanCheck(Hs(old(compInfo)), Vs(old(compInfo)), cur)
      ensures r == Done ==> (ScanReady(cur)
        && (restartInRows > 0 ==> IsInterval(restartInterval, restartInRows, mcusPerRow)))
      ensures restartInRows == 0 ==> restartInterval == old(restartInterval)
    {
      hide Master.Ready, TilesComponent, Membership;
      if |cur| == 1 {
        r := Done;
        SingleComponent(cur[0]);
        OneMember(Scanned(cur));
      } else {
        if |cur| <= 0 || |cur| > MAX_COMPS_IN_SCAN {
          return ComponentCount;
        }
        r := Interleaved(cur);
        if r != Done {
          return;
        }
      }
      if restartInRows > 0 {
        var nominal := restartInRows * mcusPerRow;
        MulPositive(restartInRows, mcusPerRow);
        restartInterval := if nominal < 65535 then nominal else 65535;
      }
    }

    lemma OneMember(cs: seq<ComponentInfo>)
      requires |cs| == 1 && cs[0].mcuBlocks == 1
      ensures Membership(cs) == [0]
    {
      assert Membership(cs[..0]) == [];
    }

    lemma Extents(c: ComponentInfo)
      requires Ready() && c in compInfo
      ensures c.h > 0 && c.v > 0 && c.widthInBlocks > 0 && c.heightInBlocks > 0
      ensures Tiles(totalIMcuRows, c.v, LastTile(c.heightInBlocks, c.v), c.heightInBlocks)
      ensures forall m: nat :: (Covers(m, DCTSIZE * maxH, imageWidth)
        ==> Tiles(m, c.h, LastTile(c.widthInBlocks, c.h), c.widthInBlocks))
    {
      hide Covers, Tiles, LastTile, IsLargest;
      BlocksTile(imageHeight, DCTSIZE * maxV, c.v, totalIMcuRows, c.heightInBlocks);
      forall m: nat | Covers(m, DCTSIZE * maxH, imageWidth)
        ensures Tiles(m, c.h, LastTile(c.widthInBlocks, c.h), c.widthInBlocks) {
        BlocksTile(imageWidth, DCTSIZE * maxH, c.h, m, c.widthInBlocks);
      }
      MulPositive(imageWidth, c.h);
      MulPositive(imageHeight, c.v);
      AtLeastOne(c.widthInBlocks, DCTSIZE * maxH, imageWidth * c.h);
      AtLeastOne(c.heightInBlocks, DCTSIZE * maxV, imageHeight * c.v);
    }

    lemma AtLeastOne(n: nat, b: int, a: int)
      requires a > 0 && Covers(n, b, a)
      ensures n > 0
    {
    }

    method SingleComponent(i: nat)
      requires Ready() && i < |compInfo|
      modifies `compInfo, `membership, `mcusPerRow, `mcuRowsInScan
      ensures Ready() && |compInfo| == |old(compInfo)|
      ensures Hs(compInfo) == Hs(old(compInfo)) && Vs(compInfo) == Vs(old(compInfo))
      ensures SameFrame(compInfo, old(compInfo))
      ensures TilesComponent(compInfo[i], mcusPerRow, totalIMcuRows) && mcuRowsInScan == compInfo[i].heightInBlocks
        && mcusPerRow == compInfo[i].widthInBlocks > 0 && IsInScan(compInfo[i], true)
      ensures compInfo[i].mcuWidth == compInfo[i].mcuHeight == compInfo[i].mcuBlocks == 1 && membership == [0]
    {
      hide Covers, Tiles, IsLargest;
      var c := compInfo[i];
      Extents(c);
      mcusPerRow := c.widthInBlocks;
      mcuRowsInScan := c.heightInBlocks;
      var tmp := c.heightInBlocks % c.v;
      if tmp == 0 {
        tmp := c.v;
      }
      OneEach(mcusPerRow);
      compInfo := compInfo[i := c.(mcuWidth := 1, mcuHeight := 1, mcuBlocks := 1, mcuSampleWidth := DCTSIZE,
        lastColWidth := 1, lastRowHeight := tmp)];
      assert Hs(compInfo) == Hs(old(compInfo)) && Vs(compInfo) == Vs(old(compInfo));
      membership := [0];
    }

    lemma OneEach(n: nat)
      requires n > 0
      ensures Tiles(n, 1, 1, n)
    {
    }

    /** Component i of the scan is set up. */
    ghost predicate SetUp(c: ComponentInfo)
      reads `mcusPerRow, `totalIMcuRows
    {
      TilesComponent(c, mcusPerRow, totalIMcuRows) && c.mcuWidth == c.h && c.mcuHeight == c.v && IsInScan(c, false)
    }

    lemma BlocksOf(c: ComponentInfo)
      requires SetUp(c)
      ensures c.mcuBlocks == c.h * c.v
    {
    }

    method Interleaved(cur: seq<nat>) returns (r: Setup)
      requires Ready() && 1 < |cur| <= MAX_COMPS_IN_SCAN && forall i :: 0 <= i < |cur| ==> cur[i] < |compInfo|
      requires forall i, j :: 0 <= i < j < |cur| ==> cur[i] != cur[j]
      modifies `compInfo, `membership, `mcusPerRow, `mcuRowsInScan
      ensures Ready() && |compInfo| == |old(compInfo)|
      ensures Hs(compInfo) == Hs(old(compInfo)) && Vs(compInfo) == Vs(old(compInfo))
      ensures SameFrame(compInfo, old(compInfo))
      ensures r == if BlocksIn(Hs(old(compInfo)), Vs(old(compInfo)),
        cur) > C_MAX_BLOCKS_IN_MCU then BadMcuSize else Done
      ensures r == Done ==> ScanReady(cur) && mcusPerRow > 0
    {
      hide Covers, Tiles, IsLargest, Sized, TilesComponent, Membership, Chosen, Hs, Vs, BlocksIn;
      ghost var hs, vs := Hs(compInfo), Vs(compInfo);
      PositiveFactors();
      mcusPerRow := DivRoundUp(imageWidth, maxH * DCTSIZE);
      mcuRowsInScan := DivRoundUp(imageHeight, maxV * DCTSIZE);
      CoverIsUnique(mcuRowsInScan, totalIMcuRows, DCTSIZE * maxV, imageHeight);
      membership := [];
      NoMembers(Scanned(cur));
      assert BlocksIn(hs, vs, cur[..0]) == 0 by { NoBlocks(hs, vs, cur); }
      for ci := 0 to |cur|
        invariant Ready() && |compInfo| == |old(compInfo)| && mcuRowsInScan == totalIMcuRows
        invariant Hs(compInfo) == Hs(old(compInfo)) && Vs(compInfo) == Vs(old(compInfo))
        invariant SameFrame(compInfo, old(compInfo))
        invariant Covers(mcusPerRow, DCTSIZE * maxH, imageWidth) && mcusPerRow > 0
        invariant forall i :: 0 <= i < ci ==> SetUp(compInfo[cur[i]])
        invariant membership == Membership(Scanned(cur)[..ci])
          && |membership| == BlocksIn(hs, vs, cur[..ci]) <= C_MAX_BLOCKS_IN_MCU
      {
        r := AddComponent(cur, ci, hs, vs);
        if r != Done {
          BlocksGrow(hs, vs, cur, ci + 1);
          return;
        }
      }
      assert Scanned(cur)[..|cur|] == Scanned(cur) && cur[..|cur|] == cur;
      r := Done;
    }

    /** Component ci of an interleaved scan. */
    method AddComponent(cur: seq<nat>, ci: nat, ghost hs: seq<int>, ghost vs: seq<int>) returns (r: Setup)
      requires Ready() && hs == Hs(compInfo) && vs == Vs(compInfo) && Covers(mcusPerRow, DCTSIZE * maxH, imageWidth)
      requires ci < |cur| && forall i :: 0 <= i < |cur| ==> cur[i] < |compInfo|
      requires forall i, j :: 0 <= i < j < |cur| ==> cur[i] != cur[j]
      requires forall i :: 0 <= i < ci ==> SetUp(compInfo[cur[i]])
      requires membership == Membership(Scanned(cur)[..ci]) && |membership| == BlocksIn(hs, vs, cur[..ci])
      modifies `compInfo, `membership
      ensures Ready() && SameFrame(compInfo, old(compInfo)) && hs == Hs(compInfo) && vs == Vs(compInfo)
      ensures forall i :: 0 <= i <= ci ==> SetUp(compInfo[cur[i]])
      ensures r == if BlocksIn(hs, vs, cur[..ci + 1]) > C_MAX_BLOCKS_IN_MCU then BadMcuSize else Done
      ensures r == Done ==> (membership == Membership(Scanned(cur)[..ci + 1])
        && |membership| == BlocksIn(hs, vs, cur[..ci + 1]))
    {
      hide Master.Ready, Covers, Tiles, IsLargest, Sized, TilesComponent, Membership, Chosen, Hs, Vs, BlocksIn;
      ghost var earlier := Scanned(cur);
      SetUpComponent(cur[ci]);
      assert Scanned(cur)[..ci] == earlier[..ci];
      MembershipNext(Scanned(cur), ci);
      BlocksNext(hs, vs, cur, ci);
      BlocksOf(compInfo[cur[ci]]);
      var mcublks := compInfo[cur[ci]].mcuBlocks;
      if |membership| + mcublks > C_MAX_BLOCKS_IN_MCU {
        return BadMcuSize;
      }
      AddMembers(ci, mcublks);
      r := Done;
    }

    method AddMembers(ci: nat, n: nat)
      modifies `membership
      ensures membership == old(membership) + seq(n, _ => ci)
    {
      var mcublks: nat := n;
      while mcublks > 0
        invariant mcublks <= n && membership == old(membership) + seq(n - mcublks, _ => ci)
      {
        membership := membership + [ci];
        mcublks := mcublks - 1;
      }
    }

    lemma PositiveFactors()
      requires Ready()
      ensures forall i :: 0 <= i < |compInfo| ==> Hs(compInfo)[i] > 0 && Vs(compInfo)[i] > 0
    {
      hide Covers, IsLargest;
    }

    lemma NoBlocks(hs: seq<int>, vs: seq<int>, cur: seq<nat>)
      requires |hs| == |vs|
      ensures BlocksIn(hs, vs, cur[..0]) == 0
    {
    }

    lemma NoMembers(cs: seq<ComponentInfo>)
      ensures Membership(cs[..0]) == []
    {
    }

    method SetUpComponent(i: nat)
      requires Ready() && i < |compInfo| && Covers(mcusPerRow, DCTSIZE * maxH, imageWidth)
      modifies `compInfo
      ensures Ready() && SameFrame(compInfo, old(compInfo)) && SetUp(compInfo[i])
      ensures forall j :: 0 <= j < |compInfo| && j != i ==> compInfo[j] == old(compInfo[j])
      ensures Hs(compInfo) == Hs(old(compInfo)) && Vs(compInfo) == Vs(old(compInfo))
    {
      hide Covers, Tiles, IsLargest;
      var c := compInfo[i];
      Extents(c);
      var tmp := c.widthInBlocks % c.h;
      if tmp == 0 {
        tmp := c.h;
      }
      var tmp' := c.heightInBlocks % c.v;
      if tmp' == 0 {
        tmp' := c.v;
      }
      compInfo := compInfo[i := c.(mcuWidth := c.h, mcuHeight := c.v, mcuBlocks := c.h * c.v,
        mcuSampleWidth := c.h * DCTSIZE,
        lastColWidth := tmp, lastRowHeight := tmp')];
      assert Hs(compInfo) == Hs(old(compInfo)) && Vs(compInfo) == Vs(old(compInfo));
    }
  }
}
