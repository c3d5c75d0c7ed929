/** The order in which the blocks of a picture are sent (section A.2 of ITU-T T.81):
    what each MCU of a scan holds, and that the MCUs hold every block once. */
module McuTraversal {
  import opened Nonlinear
  import opened ScanSetup
  import opened ImageGeometry

  /** The quantised blocks of one component, row by row. */
  type grid = seq<seq<block>>

  predicate Fits(c: ComponentInfo, g: grid)
  {
    |g| == c.heightInBlocks && forall y :: 0 <= y < |g| ==> |g[y]| == c.widthInBlocks
  }

  predicate AllFit(cs: seq<ComponentInfo>, picture: seq<grid>)
  {
    |picture| == |cs| && forall i :: 0 <= i < |cs| ==> Fits(cs[i], picture[i])
  }

  function DcOnly(dc: int): (b: block)
    ensures b[0] == dc
  {
    Blank()[0 := dc]
  }

  function Min(a: nat, b: nat): nat
  {
    if a < b then a else b
  }

  /** The block at row y and column x.  Outside the component it is a dummy block with
      the DC value of the last block of the same MCU that is inside. */
  function Cell(c: ComponentInfo, g: grid, y: nat, x: nat): block
    requires Fits(c, g) && c.heightInBlocks > 0 && c.widthInBlocks > 0 && c.mcuWidth > 0
  {
    var h, w := c.heightInBlocks, c.widthInBlocks;
    if y < h && x < w then g[y][x]
    else if y < h then DcOnly(g[y][w - 1][0])
    else DcOnly(g[h - 1][Min(x / c.mcuWidth * c.mcuWidth + c.mcuWidth - 1, w - 1)][0])
  }

  function CellRow(c: ComponentInfo, g: grid, y: nat, x: nat, n: nat): (bs: seq<block>)
    requires Fits(c, g) && c.heightInBlocks > 0 && c.widthInBlocks > 0 && c.mcuWidth > 0
    ensures |bs| == n
  {
    seq<block>(n, i requires 0 <= i < n && Fits(c, g) && c.heightInBlocks > 0 && c.widthInBlocks > 0
      && c.mcuWidth > 0 => Cell(c, g, y, x + i))
  }

  predicate Solid(c: ComponentInfo)
  {
    c.heightInBlocks > 0 && c.widthInBlocks > 0 && c.mcuWidth > 0 && c.mcuHeight > 0
      && c.mcuBlocks == c.mcuWidth * c.mcuHeight
  }

  /** The first n rows of a component's blocks in an MCU. */
  function ComponentRows(c: ComponentInfo, g: grid, r: nat, col: nat, n: nat): (bs: seq<block>)
    requires Fits(c, g) && Solid(c)
    ensures |bs| == n * c.mcuWidth
  {
    if n == 0 then []
    else
      Distribute(n - 1, 1, c.mcuWidth);
      ComponentRows(c, g, r, col, n - 1) + CellRow(c, g, r * c.mcuHeight + (n - 1), col * c.mcuWidth, c.mcuWidth)
  }

  predicate AllSolid(cs: seq<ComponentInfo>)
  {
    forall i :: 0 <= i < |cs| ==> Solid(cs[i])
  }

  lemma ScanIsSolid(cs: seq<ComponentInfo>, mcusPerRow: nat, mcuRows: nat, total: nat)
    requires ScanTiles(cs, mcusPerRow, mcuRows, total)
    ensures AllSolid(cs)
  {
    forall i | 0 <= i < |cs| ensures Solid(cs[i]) {
      assert TilesComponent(cs[i], mcusPerRow, total);
      if total > 1 {
        MulPositive(total - 1, cs[i].v);
      }
      if mcusPerRow > 1 {
        MulPositive(mcusPerRow - 1, cs[i].mcuWidth);
      }
    }
  }

  lemma MembershipSize(cs: seq<ComponentInfo>, n: nat)
    requires 0 < n <= |cs| && AllSolid(cs)
    ensures Solid(cs[n - 1])
    ensures |Membership(cs[..n])| == |Membership(cs[..n - 1])| + cs[n - 1].mcuHeight * cs[n - 1].mcuWidth
  {
    MembershipNext(cs, n - 1);
    assert Solid(cs[n - 1]);
  }

  /** The blocks of the first n components in the MCU at row r and column col. */
  function McuBlocks(cs: seq<ComponentInfo>, picture: seq<grid>, r: nat, col: nat, n: nat): (bs: seq<block>)
    requires AllFit(cs, picture) && AllSolid(cs) && n <= |cs|
    ensures |bs| == |Membership(cs[..n])|
  {
    if n == 0 then []
    else
      MembershipSize(cs, n);
      McuBlocks(cs, picture, r, col, n - 1) + ComponentRows(cs[n - 1], picture[n - 1], r, col, cs[n - 1].mcuHeight)
  }

  function Mcu(cs: seq<ComponentInfo>, picture: seq<grid>, r: nat, col: nat): (bs: seq<block>)
    requires AllFit(cs, picture) && AllSolid(cs)
    ensures |bs| == |Membership(cs)|
  {
    assert cs[..|cs|] == cs;
    McuBlocks(cs, picture, r, col, |cs|)
  }

  /** The first n MCUs of row r. */
  function McuRow(cs: seq<ComponentInfo>, picture: seq<grid>, r: nat, n: nat): (ms: seq<seq<block>>)
    requires AllFit(cs, picture) && AllSolid(cs)
    ensures |ms| == n && forall col :: 0 <= col < n ==> ms[col] == Mcu(cs, picture, r, col)
  {
    seq(n, col requires 0 <= col < n && AllFit(cs, picture) && AllSolid(cs) => Mcu(cs, picture, r, col))
  }

  /** All MCUs of the first r rows, row by row. */
  function Raster(cs: seq<ComponentInfo>, picture: seq<grid>, mcusPerRow: nat, r: nat): (ms: seq<seq<block>>)
    requires AllFit(cs, picture) && AllSolid(cs)
    ensures |ms| == r * mcusPerRow
  {
    if r == 0 then []
    else
      Distribute(r - 1, 1, mcusPerRow);
      Raster(cs, picture, mcusPerRow, r - 1) + McuRow(cs, picture, r - 1, mcusPerRow)
  }

  lemma {:induction false} RasterAt(cs: seq<ComponentInfo>, picture: seq<grid>, mcusPerRow: nat, rows: nat, r: nat,
      col: nat)
    requires AllFit(cs, picture) && AllSolid(cs) && r < rows && col < mcusPerRow
    ensures r * mcusPerRow + col < rows * mcusPerRow
    ensures Raster(cs, picture, mcusPerRow, rows)[r * mcusPerRow + col] == Mcu(cs, picture, r, col)
  {
    hide AllFit, AllSolid, Mcu;
    Distribute(rows - 1, 1, mcusPerRow);
    MulMonotone(r, rows - 1, mcusPerRow);
    if r < rows - 1 {
      RasterAt(cs, picture, mcusPerRow, rows - 1, r, col);
    }
  }

  // ----- where a block is sent

  /** The index within an MCU of block (yi, xi) of component ci. */
  function IndexInMcu(cs: seq<ComponentInfo>, ci: nat, yi: nat, xi: nat): nat
    requires ci < |cs|
  {
    |Membership(cs[..ci])| + yi * cs[ci].mcuWidth + xi
  }

  /** The block at that index is coded as one of component ci. */
  lemma MembershipAt(cs: seq<ComponentInfo>, ci: nat, yi: nat, xi: nat)
    requires ci < |cs| && yi < cs[ci].mcuHeight && xi < cs[ci].mcuWidth
    requires cs[ci].mcuBlocks == cs[ci].mcuWidth * cs[ci].mcuHeight
    ensures IndexInMcu(cs, ci, yi, xi) < |Membership(cs)| && Membership(cs)[IndexInMcu(cs, ci, yi, xi)] == ci
  {
    hide Membership;
    var before, n := Membership(cs[..ci]), cs[ci].mcuBlocks;
    MembershipNext(cs, ci);
    MembershipGrows(cs, ci + 1);
    MulMonotone(yi + 1, cs[ci].mcuHeight, cs[ci].mcuWidth);
    Distribute(yi, 1, cs[ci].mcuWidth);
    var p := IndexInMcu(cs, ci, yi, xi);
    assert |before| <= p < |before| + n;
    assert Membership(cs[..ci + 1])[p] == ci;
  }

  lemma {:induction false} RowsAt(c: ComponentInfo, g: grid, r: nat, col: nat, n: nat, yi: nat, xi: nat)
    requires Fits(c, g) && Solid(c) && yi < n && xi < c.mcuWidth
    ensures yi * c.mcuWidth + xi < n * c.mcuWidth
    ensures ComponentRows(c, g, r, col, n)[yi * c.mcuWidth + xi] == Cell(c, g, r * c.mcuHeight + yi,
      col * c.mcuWidth + xi)
  {
    hide Cell, Fits, Solid;
    Distribute(n - 1, 1, c.mcuWidth);
    MulMonotone(yi, n - 1, c.mcuWidth);
    if yi < n - 1 {
      RowsAt(c, g, r, col, n - 1, yi, xi);
    }
  }

  /** Block p of bs. */
  predicate Holds(bs: seq<block>, p: nat, b: block)
  {
    p < |bs| && bs[p] == b
  }

  lemma {:induction false} BlockAt(cs: seq<ComponentInfo>, picture: seq<grid>, r: nat, col: nat, n: nat, ci: nat,
      yi: nat, xi: nat)
    requires AllFit(cs, picture) && AllSolid(cs) && ci < n <= |cs| && yi < cs[ci].mcuHeight && xi < cs[ci].mcuWidth
    ensures Holds(McuBlocks(cs, picture, r, col, n), IndexInMcu(cs, ci, yi, xi),
      Cell(cs[ci], picture[ci], r * cs[ci].mcuHeight + yi, col * cs[ci].mcuWidth + xi))
  {
    hide Cell, Fits, ComponentRows, Membership, McuBlocks;
    McuBlocksNext(cs, picture, r, col, n);
    if ci < n - 1 {
      BlockAt(cs, picture, r, col, n - 1, ci, yi, xi);
    } else {
      RowsAt(cs[ci], picture[ci], r, col, cs[ci].mcuHeight, yi, xi);
    }
  }

  lemma McuBlocksNext(cs: seq<ComponentInfo>, picture: seq<grid>, r: nat, col: nat, n: nat)
    requires AllFit(cs, picture) && AllSolid(cs) && 0 < n <= |cs|
    ensures McuBlocks(cs, picture, r, col, n) ==
      McuBlocks(cs, picture, r, col, n - 1) + ComponentRows(cs[n - 1], picture[n - 1], r, col, cs[n - 1].mcuHeight)
    ensures McuBlocks(cs, picture, r, col, 0) == []
  {
  }

  /** The index of the MCU that holds block (y, x) of a component. */
  function McuIndex(c: ComponentInfo, mcusPerRow: nat, y: nat, x: nat): nat
    requires c.mcuHeight > 0 && c.mcuWidth > 0
  {
    y / c.mcuHeight * mcusPerRow + x / c.mcuWidth
  }

  /** The index of that block within the MCU. */
  function PlaceInMcu(cs: seq<ComponentInfo>, ci: nat, y: nat, x: nat): nat
    requires ci < |cs| && cs[ci].mcuHeight > 0 && cs[ci].mcuWidth > 0
  {
    IndexInMcu(cs, ci, y % cs[ci].mcuHeight, x % cs[ci].mcuWidth)
  }

  /** Every block of every component is sent, at a place that is computed from its
      position by division. */
  lemma EveryBlockIsSent(cs: seq<ComponentInfo>, picture: seq<grid>, mcusPerRow: nat, mcuRows: nat, total: nat,
      ci: nat, y: nat, x: nat)
    requires ScanTiles(cs, mcusPerRow, mcuRows, total) && AllSolid(cs) && AllFit(cs, picture)
    requires ci < |cs| && y < cs[ci].heightInBlocks && x < cs[ci].widthInBlocks
    ensures McuIndex(cs[ci], mcusPerRow, y, x) < mcuRows * mcusPerRow
    ensures Holds(Raster(cs, picture, mcusPerRow, mcuRows)[McuIndex(cs[ci], mcusPerRow, y, x)],
      PlaceInMcu(cs, ci, y, x), picture[ci][y][x])
  {
    hide Raster, Mcu, McuBlocks, Membership, ScanTiles, AllSolid, IndexInMcu, Holds;
    SolidAt(cs, ci);
    var c := cs[ci];
    ScanHas(cs, mcusPerRow, mcuRows, total, ci);
    ColumnInside(c, mcusPerRow, total, x);
    RowInside(cs, mcusPerRow, mcuRows, total, ci, y);
    var r, col, yi, xi := y / c.mcuHeight, x / c.mcuWidth, y % c.mcuHeight, x % c.mcuWidth;
    RasterAt(cs, picture, mcusPerRow, mcuRows, r, col);
    WholeMcu(cs, picture, r, col);
    BlockAt(cs, picture, r, col, |cs|, ci, yi, xi);
    Recombined(y, c.mcuHeight);
    Recombined(x, c.mcuWidth);
    CellInside(c, picture[ci], y, x);
  }

  lemma Recombined(n: nat, d: nat)
    requires d > 0
    ensures n / d * d + n % d == n
  {
  }

  lemma CellInside(c: ComponentInfo, g: grid, y: nat, x: nat)
    requires Fits(c, g) && y < c.heightInBlocks && x < c.widthInBlocks && c.mcuWidth > 0
    ensures Cell(c, g, y, x) == g[y][x]
  {
  }

  lemma ScanHas(cs: seq<ComponentInfo>, mcusPerRow: nat, mcuRows: nat, total: nat, ci: nat)
    requires ScanTiles(cs, mcusPerRow, mcuRows, total) && ci < |cs|
    ensures TilesComponent(cs[ci], mcusPerRow, total)
  {
  }

  lemma SolidAt(cs: seq<ComponentInfo>, ci: nat)
    requires AllSolid(cs) && ci < |cs|
    ensures cs[ci].mcuHeight > 0 && cs[ci].mcuWidth > 0
  {
  }

  lemma WholeMcu(cs: seq<ComponentInfo>, picture: seq<grid>, r: nat, col: nat)
    requires AllFit(cs, picture) && AllSolid(cs)
    ensures Mcu(cs, picture, r, col) == McuBlocks(cs, picture, r, col, |cs|)
  {
  }

  lemma ColumnInside(c: ComponentInfo, mcusPerRow: nat, total: nat, x: nat)
    requires TilesComponent(c, mcusPerRow, total) && x < c.widthInBlocks
    ensures c.mcuWidth > 0 && x / c.mcuWidth < mcusPerRow
  {
    TileInside(mcusPerRow, c.mcuWidth, c.lastColWidth, c.widthInBlocks, x);
  }

  lemma TileInside(total: nat, size: nat, last: nat, blocks: nat, x: nat)
    requires Tiles(total, size, last, blocks) && x < blocks
    ensures x / size < total
  {
    if x / size >= total {
      MulMonotone(total, x / size, size);
      Distribute(total - 1, 1, size);
    }
  }

  lemma RowInside(cs: seq<ComponentInfo>, mcusPerRow: nat, mcuRows: nat, total: nat, ci: nat, y: nat)
    requires ScanTiles(cs, mcusPerRow, mcuRows, total) && ci < |cs| && y < cs[ci].heightInBlocks && cs[ci].mcuHeight > 0
    ensures y / cs[ci].mcuHeight < mcuRows
  {
    hide Tiles;
    var c := cs[ci];
    if |cs| > 1 {
      assert TilesComponent(c, mcusPerRow, total);
      TileInside(total, c.v, c.lastRowHeight, c.heightInBlocks, y);
    }
  }

  // ----- no block is sent twice

  /** Blocks sent at one place are the same block. */
  lemma SentOnce(cs: seq<ComponentInfo>, mcusPerRow: nat, ci: nat, y: nat, x: nat, ci': nat, y': nat, x': nat)
    requires AllSolid(cs) && ci < |cs| && ci' < |cs|
    requires x / cs[ci].mcuWidth < mcusPerRow && x' / cs[ci'].mcuWidth < mcusPerRow
    requires McuIndex(cs[ci], mcusPerRow, y, x) == McuIndex(cs[ci'], mcusPerRow, y', x')
    requires PlaceInMcu(cs, ci, y, x) == PlaceInMcu(cs, ci', y', x')
    ensures ci == ci' && y == y' && x == x'
  {
    hide Membership;
    SameDigits(mcusPerRow, y / cs[ci].mcuHeight, x / cs[ci].mcuWidth, y' / cs[ci'].mcuHeight, x' / cs[ci'].mcuWidth);
    if ci < ci' {
      LaterComponent(cs, ci, ci', y % cs[ci].mcuHeight, x % cs[ci].mcuWidth);
    } else if ci' < ci {
      LaterComponent(cs, ci', ci, y' % cs[ci'].mcuHeight, x' % cs[ci'].mcuWidth);
    } else {
      var c := cs[ci];
      SameDigits(c.mcuWidth, y % c.mcuHeight, x % c.mcuWidth, y' % c.mcuHeight, x' % c.mcuWidth);
      Recombined(y, c.mcuHeight);
      Recombined(y', c.mcuHeight);
      Recombined(x, c.mcuWidth);
      Recombined(x', c.mcuWidth);
    }
  }

  lemma SameDigits(base: nat, hi: nat, lo: nat, hi': nat, lo': nat)
    requires lo < base && lo' < base && hi * base + lo == hi' * base + lo'
    ensures hi == hi' && lo == lo'
  {
    if hi < hi' {
      MulMonotone(hi + 1, hi', base);
      Distribute(hi, 1, base);
    } else if hi' < hi {
      MulMonotone(hi' + 1, hi, base);
      Distribute(hi', 1, base);
    }
  }

  lemma LaterComponent(cs: seq<ComponentInfo>, i: nat, j: nat, yi: nat, xi: nat)
    requires AllSolid(cs) && i < j < |cs| && yi < cs[i].mcuHeight && xi < cs[i].mcuWidth
    ensures IndexInMcu(cs, i, yi, xi) < |Membership(cs[..j])|
  {
    var c := cs[i];
    hide Membership;
    MembershipNext(cs, i);
    assert cs[..j][..i + 1] == cs[..i + 1];
    MembershipGrows(cs[..j], i + 1);
    MulMonotone(yi + 1, c.mcuHeight, c.mcuWidth);
    Distribute(yi, 1, c.mcuWidth);
    assert c.mcuBlocks == c.mcuHeight * c.mcuWidth;
  }

  /** Inside an MCU the blocks go by component, then by row, then by column. */
  lemma PlacesInOrder(cs: seq<ComponentInfo>, ci: nat, yi: nat, xi: nat, ci': nat, yi': nat, xi': nat)
    requires AllSolid(cs) && ci < |cs| && yi < cs[ci].mcuHeight && xi < cs[ci].mcuWidth
    requires ci' < |cs| && yi' < cs[ci'].mcuHeight && xi' < cs[ci'].mcuWidth
    ensures IndexInMcu(cs, ci, yi, xi) < IndexInMcu(cs, ci', yi', xi') <==>
      ci < ci' || (ci == ci' && (yi < yi' || (yi == yi' && xi < xi')))
  {
    hide Membership;
    if ci < ci' {
      LaterComponent(cs, ci, ci', yi, xi);
    } else if ci' < ci {
      LaterComponent(cs, ci', ci, yi', xi');
    } else {
      DigitsInOrder(cs[ci].mcuWidth, yi, xi, yi', xi');
    }
  }

  /** The MCUs go row by row. */
  lemma McusInOrder(mcusPerRow: nat, r: nat, col: nat, r': nat, col': nat)
    requires col < mcusPerRow && col' < mcusPerRow
    ensures r * mcusPerRow + col < r' * mcusPerRow + col' <==> r < r' || (r == r' && col < col')
  {
    DigitsInOrder(mcusPerRow, r, col, r', col');
  }

  lemma DigitsInOrder(base: nat, hi: nat, lo: nat, hi': nat, lo': nat)
    requires lo < base && lo' < base
    ensures hi * base + lo < hi' * base + lo' <==> hi < hi' || (hi == hi' && lo < lo')
  {
    if hi < hi' {
      MulMonotone(hi + 1, hi', base);
      Distribute(hi, 1, base);
    } else if hi' < hi {
      MulMonotone(hi' + 1, hi, base);
      Distribute(hi', 1, base);
    }
  }

  // ----- dummy blocks

  /** The block at (y, x) lies outside the component. */
  predicate IsDummy(c: ComponentInfo, y: nat, x: nat)
  {
    y >= c.heightInBlocks || x >= c.widthInBlocks
  }

  /** A dummy block repeats the DC value of the block before it in the MCU: the block on
      its left, */
  lemma DummyRepeatsLeft(c: ComponentInfo, g: grid, mcusPerRow: nat, total: nat, y: nat, col: nat, xi: nat)
    requires Fits(c, g) && Solid(c) && TilesComponent(c, mcusPerRow, total) && 0 < xi < c.mcuWidth && col < mcusPerRow
    requires IsDummy(c, y, col * c.mcuWidth + xi)
    ensures Cell(c, g, y, col * c.mcuWidth + xi) == DcOnly(Cell(c, g, y, col * c.mcuWidth + xi - 1)[0])
  {
    ColumnStart(c, mcusPerRow, total, col);
    InTile(c.mcuWidth, col, xi);
    InTile(c.mcuWidth, col, xi - 1);
  }

  /** or at the left edge of the MCU the last block of the row above. */
  lemma DummyRepeatsAbove(c: ComponentInfo, g: grid, mcusPerRow: nat, total: nat, y: nat, col: nat)
    requires Fits(c, g) && Solid(c) && TilesComponent(c, mcusPerRow, total) && col < mcusPerRow
    requires IsDummy(c, y, col * c.mcuWidth)
    ensures y > 0 && Cell(c, g, y,
      col * c.mcuWidth) == DcOnly(Cell(c, g, y - 1, col * c.mcuWidth + (c.mcuWidth - 1))[0])
  {
    ColumnStart(c, mcusPerRow, total, col);
    InTile(c.mcuWidth, col, 0);
    InTile(c.mcuWidth, col, c.mcuWidth - 1);
  }

  lemma ColumnStart(c: ComponentInfo, mcusPerRow: nat, total: nat, col: nat)
    requires TilesComponent(c, mcusPerRow, total) && col < mcusPerRow
    ensures col * c.mcuWidth < c.widthInBlocks
  {
    MulMonotone(col, mcusPerRow - 1, c.mcuWidth);
  }

  lemma InTile(size: nat, col: nat, xi: nat)
    requires xi < size
    ensures (col * size + xi) / size * size == col * size
  {
    DivisionUnique(col * size + xi, size, col, xi);
  }

  /** Nothing but the DC value of a dummy block is other than zero. */
  lemma DummyIsFlat(c: ComponentInfo, g: grid, y: nat, x: nat)
    requires Fits(c, g) && Solid(c) && IsDummy(c, y, x)
    ensures forall k :: 1 <= k < 64 ==> Cell(c, g, y, x)[k] == 0
  {
  }

  /** The first row of blocks of an MCU is inside the component. */
  lemma RowStart(cs: seq<ComponentInfo>, mcusPerRow: nat, mcuRows: nat, total: nat, ci: nat, r: nat)
    requires ScanTiles(cs, mcusPerRow, mcuRows, total) && ci < |cs| && r < mcuRows
    ensures r * cs[ci].mcuHeight < cs[ci].heightInBlocks
  {
    ScanHas(cs, mcusPerRow, mcuRows, total, ci);
    if |cs| > 1 {
      MulMonotone(r, total - 1, cs[ci].v);
    }
  }

  /** Wherever an MCU reaches beyond its component it holds a dummy block: the DC value is
      that of the block sent just before it in the same MCU, and all other coefficients
      are zero. */
  lemma DummiesAreSent(cs: seq<ComponentInfo>, picture: seq<grid>, mcusPerRow: nat, mcuRows: nat, total: nat,
      r: nat, col: nat, ci: nat, yi: nat, xi: nat)
    requires ScanTiles(cs, mcusPerRow, mcuRows, total) && AllSolid(cs) && AllFit(cs, picture)
    requires r < mcuRows && col < mcusPerRow && ci < |cs| && yi < cs[ci].mcuHeight && xi < cs[ci].mcuWidth
    requires r * cs[ci].mcuHeight + yi >= cs[ci].heightInBlocks || col * cs[ci].mcuWidth + xi >= cs[ci].widthInBlocks
    ensures r * mcusPerRow + col < mcuRows * mcusPerRow
    ensures var mcu, p := Raster(cs, picture, mcusPerRow, mcuRows)[r * mcusPerRow + col], IndexInMcu(cs, ci, yi, xi);
      && 0 < p < |mcu| && mcu[p][0] == mcu[p - 1][0]
      && forall k :: 1 <= k < 64 ==> mcu[p][k] == 0
  {
    hide Raster, Mcu, McuBlocks, Membership, AllSolid, ScanTiles, Cell, DcOnly;
    var c, g, y, x := cs[ci], picture[ci], r * cs[ci].mcuHeight + yi, col * cs[ci].mcuWidth + xi;
    assert Solid(c) by { SolidScan(cs, ci); }
    ScanHas(cs, mcusPerRow, mcuRows, total, ci);
    RasterAt(cs, picture, mcusPerRow, mcuRows, r, col);
    WholeMcu(cs, picture, r, col);
    BlockAt(cs, picture, r, col, |cs|, ci, yi, xi);
    DummyIsFlat(c, g, y, x);
    if xi > 0 {
      BlockAt(cs, picture, r, col, |cs|, ci, yi, xi - 1);
      DummyRepeatsLeft(c, g, mcusPerRow, total, y, col, xi);
    } else {
      RowStart(cs, mcusPerRow, mcuRows, total, ci, r);
      ColumnStart(c, mcusPerRow, total, col);
      BlockAt(cs, picture, r, col, |cs|, ci, yi - 1, c.mcuWidth - 1);
      DummyRepeatsAbove(c, g, mcusPerRow, total, y, col);
      Distribute(yi - 1, 1, c.mcuWidth);
    }
  }

  lemma SolidScan(cs: seq<ComponentInfo>, ci: nat)
    requires AllSolid(cs) && ci < |cs|
    ensures Solid(cs[ci])
  {
  }

  // ----- blocks of 16-bit coefficients

  ghost predicate SmallGrid(g: grid)
  {
    forall y, x :: 0 <= y < |g| && 0 <= x < |g[y]| ==> SmallBlock(g[y][x])
  }

  ghost predicate AllSmall(picture: seq<grid>)
  {
    forall i :: 0 <= i < |picture| ==> SmallGrid(picture[i])
  }

  predicate SmallBlocks(bs: seq<block>)
  {
    forall i :: 0 <= i < |bs| ==> SmallBlock(bs[i])
  }

  lemma CellIsSmall(c: ComponentInfo, g: grid, y: nat, x: nat)
    requires Fits(c, g) && c.heightInBlocks > 0 && c.widthInBlocks > 0 && c.mcuWidth > 0 && SmallGrid(g)
    ensures SmallBlock(Cell(c, g, y, x))
  {
    hide SmallBlock;
    var h, w := c.heightInBlocks, c.widthInBlocks;
    if y >= h || x >= w {
      var y', x' := if y < h then y else h - 1,
        if y < h then w - 1 else Min(x / c.mcuWidth * c.mcuWidth + c.mcuWidth - 1, w - 1);
      assert SmallBlock(g[y'][x']);
      DcIsSmall(g[y'][x']);
    }
  }

  lemma DcIsSmall(b: block)
    requires SmallBlock(b)
    ensures SmallBlock(DcOnly(b[0]))
  {
  }

  lemma {:induction false} RowsAreSmall(c: ComponentInfo, g: grid, r: nat, col: nat, n: nat)
    requires Fits(c, g) && Solid(c) && SmallGrid(g)
    ensures SmallBlocks(ComponentRows(c, g, r, col, n))
  {
    hide SmallBlock, SmallGrid, Cell, Fits;
    if n > 0 {
      RowsAreSmall(c, g, r, col, n - 1);
      var row := CellRow(c, g, r * c.mcuHeight + (n - 1), col * c.mcuWidth, c.mcuWidth);
      forall i | 0 <= i < |row| ensures SmallBlock(row[i]) {
        CellIsSmall(c, g, r * c.mcuHeight + (n - 1), col * c.mcuWidth + i);
      }
    }
  }

  lemma ScanHasMcus(cs: seq<ComponentInfo>, mcusPerRow: nat, mcuRows: nat, total: nat)
    requires ScanTiles(cs, mcusPerRow, mcuRows, total) && AllSolid(cs)
    ensures mcuRows * mcusPerRow > 0
  {
    ScanHas(cs, mcusPerRow, mcuRows, total, 0);
    assert Solid(cs[0]);
    MulPositive(mcuRows, mcusPerRow);
  }

  /** Every component has a block in each MCU. */
  lemma MembershipHas(cs: seq<ComponentInfo>, ci: nat)
    requires AllSolid(cs) && ci < |cs|
    ensures ci in Membership(cs)
  {
    hide Membership;
    var c := cs[ci];
    assert Solid(c);
    MulPositive(c.mcuWidth, c.mcuHeight);
    MembershipNext(cs, ci);
    MembershipGrows(cs, ci + 1);
    var n := |Membership(cs[..ci])|;
    assert Membership(cs[..ci + 1])[n] == ci;
    assert Membership(cs)[n] == Membership(cs[..ci + 1])[n];
  }

  lemma {:induction false} McuIsSmall(cs: seq<ComponentInfo>, picture: seq<grid>, r: nat, col: nat, n: nat)
    requires AllFit(cs, picture) && AllSolid(cs) && n <= |cs| && AllSmall(picture)
    ensures SmallBlocks(McuBlocks(cs, picture, r, col, n))
  {
    hide SmallBlock, SmallGrid, Fits, Solid, ComponentRows, Membership;
    if n > 0 {
      McuIsSmall(cs, picture, r, col, n - 1);
      RowsAreSmall(cs[n - 1], picture[n - 1], r, col, cs[n - 1].mcuHeight);
    }
  }

  lemma {:induction false} RasterIsSmall(cs: seq<ComponentInfo>, picture: seq<grid>, mcusPerRow: nat, r: nat)
    requires AllFit(cs, picture) && AllSolid(cs) && AllSmall(picture)
    ensures forall m :: 0 <= m < |Raster(cs, picture, mcusPerRow, r)| ==>
      |Raster(cs, picture, mcusPerRow, r)[m]| == |Membership(cs)| && SmallBlocks(Raster(cs, picture, mcusPerRow, r)[m])
  {
    hide SmallBlocks, AllSmall, AllFit, AllSolid, Mcu, Membership;
    if r > 0 {
      RasterIsSmall(cs, picture, mcusPerRow, r - 1);
      var row := McuRow(cs, picture, r - 1, mcusPerRow);
      forall col | 0 <= col < |row| ensures |row[col]| == |Membership(cs)| && SmallBlocks(row[col]) {
        WholeMcu(cs, picture, r - 1, col);
        McuIsSmall(cs, picture, r - 1, col, |cs|);
      }
    }
  }

  lemma {:induction false} MembersAreInScan(cs: seq<ComponentInfo>)
    ensures forall i :: 0 <= i < |Membership(cs)| ==> Membership(cs)[i] < |cs|
  {
    if cs != [] {
      MembersAreInScan(cs[..|cs| - 1]);
    }
  }
}
