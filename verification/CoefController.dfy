/** The coefficient controllers of the compressor (jccoefct.c): iMCU rows in, MCUs out,
    whatever the suspensions. */
module CoefController {
  import opened Nonlinear
  import opened ScanSetup
  import opened ImageGeometry
  import opened McuTraversal

  /** An entropy encoder that can refuse an MCU: `answers` says what it will do, and
      after that it refuses no more. */
  class Destination {
    var answers: seq<bool>
    var mcus: seq<seq<block>>

    constructor (answers: seq<bool>)
      ensures this.answers == answers && mcus == []
    {
      this.answers, mcus := answers, [];
    }

    /** A scan begins. */
    method StartScan()
      modifies `mcus
      ensures mcus == []
    {
      mcus := [];
    }

    method EncodeMcu(mcu: seq<block>) returns (ok: bool)
      modifies this
      ensures ok == (old(answers) == [] || old(answers)[0])
      ensures mcus == if ok then old(mcus) + [mcu] else old(mcus)
      ensures answers == if old(answers) == [] then [] else old(answers)[1..]
    {
      ok := true;
      if answers != [] {
        ok, answers := answers[0], answers[1..];
      }
      if ok {
        mcus := mcus + [mcu];
      }
    }
  }

  /** Rows k * v and on of a component, as one iMCU row presents them.  At the bottom
      it has rows that are not part of the image. */
  predicate IsStrip(c: ComponentInfo, g: grid, k: nat, plane: grid)
    requires c.v >= 0 && Fits(c, g)
  {
    |plane| == c.v && forall y :: 0 <= y < c.v ==>
      |plane[y]| == c.widthInBlocks && (k * c.v + y < |g| ==> plane[y] == g[k * c.v + y])
  }

  predicate AreStrips(cs: seq<ComponentInfo>, picture: seq<grid>, k: nat, input: seq<grid>)
    requires AllFit(cs, picture)
  {
    forall i :: 0 <= i < |cs| ==>
      cs[i].v >= 0 && cs[i].componentIndex < |input| && IsStrip(cs[i], picture[i], k, input[cs[i].componentIndex])
  }

  /** MCU rows in an iMCU row, but for the last one. */
  function RowsPer(cs: seq<ComponentInfo>): nat
    requires |cs| > 0 && cs[0].v > 0
  {
    if |cs| == 1 then cs[0].v else 1
  }

  /** Where the counters of a controller stand: k iMCU rows are done, then `vert` MCU
      rows and `ctr` MCUs. */
  datatype Position = Position(k: nat, vert: nat, ctr: nat)

  /** MCU rows before iMCU row k. */
  function RowsBefore(cs: seq<ComponentInfo>, mcuRows: nat, total: nat, k: nat): nat
    requires |cs| > 0 && cs[0].v > 0
  {
    if k < total then k * RowsPer(cs) else mcuRows
  }

  /** MCU rows in iMCU row k. */
  function RowsIn(cs: seq<ComponentInfo>, total: nat, k: nat): nat
    requires |cs| > 0 && cs[0].v > 0
  {
    if |cs| > 1 then 1 else if k < total - 1 then cs[0].v else cs[0].lastRowHeight
  }

  /** The MCUs sent so far are the first ones in raster order. */
  predicate SentUpTo(cs: seq<ComponentInfo>, picture: seq<grid>, mcusPerRow: nat, mcuRows: nat, total: nat,
      p: Position, mcus: seq<seq<block>>)
    requires AllFit(cs, picture) && AllSolid(cs) && |cs| > 0 && cs[0].v > 0
  {
    var r := RowsBefore(cs, mcuRows, total, p.k) + p.vert;
    mcus == Raster(cs, picture, mcusPerRow, r) + McuRow(cs, picture, r, p.ctr)
  }

  // ----- moving on

  lemma McuSent(cs: seq<ComponentInfo>, picture: seq<grid>, mcusPerRow: nat, mcuRows: nat, total: nat, p: Position,
      mcus: seq<seq<block>>)
    requires AllFit(cs, picture) && AllSolid(cs) && |cs| > 0 && cs[0].v > 0
    requires SentUpTo(cs, picture, mcusPerRow, mcuRows, total, p, mcus)
    ensures SentUpTo(cs, picture, mcusPerRow, mcuRows, total, p.(ctr := p.ctr + 1),
      mcus + [Mcu(cs, picture, RowsBefore(cs, mcuRows, total, p.k) + p.vert, p.ctr)])
  {
    hide AllFit, AllSolid, Mcu, Raster;
    var r := RowsBefore(cs, mcuRows, total, p.k) + p.vert;
    assert McuRow(cs, picture, r, p.ctr + 1) == McuRow(cs, picture, r, p.ctr) + [Mcu(cs, picture, r, p.ctr)];
  }

  lemma RowSent(cs: seq<ComponentInfo>, picture: seq<grid>, mcusPerRow: nat, mcuRows: nat, total: nat, p: Position,
      mcus: seq<seq<block>>)
    requires AllFit(cs, picture) && AllSolid(cs) && |cs| > 0 && cs[0].v > 0
    requires SentUpTo(cs, picture, mcusPerRow, mcuRows, total, p, mcus) && p.ctr == mcusPerRow
    ensures SentUpTo(cs, picture, mcusPerRow, mcuRows, total, Position(p.k, p.vert + 1, 0), mcus)
  {
    hide AllFit, AllSolid, Mcu;
    var r := RowsBefore(cs, mcuRows, total, p.k) + p.vert;
    assert McuRow(cs, picture, r + 1, 0) == [];
  }

  lemma RowsAddUp(cs: seq<ComponentInfo>, mcusPerRow: nat, mcuRows: nat, total: nat, k: nat)
    requires ScanTiles(cs, mcusPerRow, mcuRows, total) && k < total
    ensures cs[0].v > 0 && RowsBefore(cs, mcuRows, total, k) + RowsIn(cs, total, k) == RowsBefore(cs, mcuRows, total,
      k + 1)
  {
    var c := cs[0];
    assert TilesComponent(c, mcusPerRow, total);
    Distribute(k, 1, RowsPer(cs));
    MulMonotone(k, total - 1, RowsPer(cs));
    if k < total - 1 {
      MulMonotone(k + 1, total - 1, RowsPer(cs));
    }
  }

  lemma IMcuRowSent(cs: seq<ComponentInfo>, picture: seq<grid>, mcusPerRow: nat, mcuRows: nat, total: nat, k: nat,
      mcus: seq<seq<block>>)
    requires ScanTiles(cs, mcusPerRow, mcuRows, total) && AllFit(cs, picture) && AllSolid(cs) && cs[0].v > 0
      && k < total
    requires SentUpTo(cs, picture, mcusPerRow, mcuRows, total, Position(k, RowsIn(cs, total, k), 0), mcus)
    ensures SentUpTo(cs, picture, mcusPerRow, mcuRows, total, Position(k + 1, 0, 0), mcus)
  {
    hide AllFit, AllSolid, Mcu, Raster, ScanTiles, RowsBefore, RowsIn;
    RowsAddUp(cs, mcusPerRow, mcuRows, total, k);
  }

  // ----- the blocks of an MCU

  /** Where rows of an MCU row lie in the strip and in the component. */
  lemma RowOfStrip(cs: seq<ComponentInfo>, mcusPerRow: nat, mcuRows: nat, total: nat, k: nat, vert: nat, ci: nat,
      yi: nat)
    requires ScanTiles(cs, mcusPerRow, mcuRows, total) && k < total && cs[0].v > 0 && vert < RowsIn(cs, total, k)
    requires ci < |cs| && yi < cs[ci].mcuHeight
    ensures vert + yi < cs[ci].v
    ensures (RowsBefore(cs, mcuRows, total, k) + vert) * cs[ci].mcuHeight + yi == k * cs[ci].v + (vert + yi)
    ensures k * cs[ci].v + (vert + yi) < cs[ci].heightInBlocks <==> k < total - 1 || vert + yi < cs[ci].lastRowHeight
  {
    var c := cs[ci];
    assert TilesComponent(c, mcusPerRow, total);
    if k < total - 1 {
      MulMonotone(k + 1, total - 1, c.v);
      Distribute(k, 1, c.v);
    }
  }

  class SinglePass {
    const cs: seq<ComponentInfo>
    const mcusPerRow: nat
    const mcuRowsInScan: nat
    const totalIMcuRows: nat
    const dest: Destination
    const mcuBuffer: array<block>
    ghost const picture: seq<grid>
    var iMcuRowNum: nat
    var mcuCtr: nat
    var mcuVertOffset: nat
    var mcuRowsPerIMcuRow: nat

    /** What does not change. */
    ghost predicate Setting()
    {
      && ScanTiles(cs, mcusPerRow, mcuRowsInScan, totalIMcuRows) && |cs| > 0 && cs[0].v > 0
      && AllFit(cs, picture) && AllSolid(cs)
      && |Membership(cs)| <= C_MAX_BLOCKS_IN_MCU == mcuBuffer.Length
    }

    ghost function Here(): Position
      reads this
    {
      Position(iMcuRowNum, mcuVertOffset, mcuCtr)
    }

    /** The counters say how many MCUs have been sent. */
    ghost predicate Valid()
      reads this, dest
    {
      && Setting()
      && iMcuRowNum <= totalIMcuRows && mcuRowsPerIMcuRow == RowsIn(cs, totalIMcuRows, iMcuRowNum)
      && (mcuVertOffset < mcuRowsPerIMcuRow && mcuCtr < mcusPerRow)
      && SentUpTo(cs, picture, mcusPerRow, mcuRowsInScan, totalIMcuRows, Here(), dest.mcus)
    }

    /** start_pass_coef. */
    constructor (cs: seq<ComponentInfo>, mcusPerRow: nat, mcuRows: nat, total: nat, dest: Destination,
        ghost picture: seq<grid>)
      requires ScanTiles(cs, mcusPerRow, mcuRows, total) && AllFit(cs, picture)
      requires |Membership(cs)| <= C_MAX_BLOCKS_IN_MCU && dest.mcus == []
      ensures Valid() && fresh(mcuBuffer) && Here() == Position(0, 0, 0)
      ensures this.cs == cs && this.mcusPerRow == mcusPerRow && this.mcuRowsInScan == mcuRows
        && this.totalIMcuRows == total
      ensures this.dest == dest && this.picture == picture
    {
      this.cs, this.mcusPerRow, this.mcuRowsInScan, this.totalIMcuRows := cs, mcusPerRow, mcuRows, total;
      this.dest, this.picture := dest, picture;
      mcuBuffer := new block[C_MAX_BLOCKS_IN_MCU](_ => Blank());
      iMcuRowNum := 0;
      mcuRowsPerIMcuRow, mcuCtr, mcuVertOffset := 0, 0, 0;
      new;
      StartsInside();
      StartIMcuRow();
    }

    lemma StartsInside()
      requires ScanTiles(cs, mcusPerRow, mcuRowsInScan, totalIMcuRows)
      ensures AllSolid(cs) && cs[0].v > 0 && mcusPerRow > 0 && totalIMcuRows > 0
      ensures forall k: nat :: RowsIn(cs, totalIMcuRows, k) > 0
    {
      ScanIsSolid(cs, mcusPerRow, mcuRowsInScan, totalIMcuRows);
      assert TilesComponent(cs[0], mcusPerRow, totalIMcuRows);
    }

    /** start_iMCU_row. */
    method StartIMcuRow()
      requires ScanTiles(cs, mcusPerRow, mcuRowsInScan, totalIMcuRows) && cs[0].v > 0
      modifies this
      ensures iMcuRowNum == old(iMcuRowNum) && mcuCtr == mcuVertOffset == 0
      ensures mcuRowsPerIMcuRow == RowsIn(cs, totalIMcuRows, iMcuRowNum)
    {
      if |cs| > 1 {
        mcuRowsPerIMcuRow := 1;
      } else if iMcuRowNum < totalIMcuRows - 1 {
        mcuRowsPerIMcuRow := cs[0].v;
      } else {
        mcuRowsPerIMcuRow := cs[0].lastRowHeight;
      }
      mcuCtr, mcuVertOffset := 0, 0;
    }

    /** forward_DCT of n blocks, whose coefficients `plane` holds. */
    method ForwardDct(plane: grid, blkn: nat, startRow: nat, startCol: nat, n: nat)
      requires var y, x := startRow / DCTSIZE, startCol / DCTSIZE; y < |plane| && x + n <= |plane[y]|
      requires blkn + n <= mcuBuffer.Length
      modifies mcuBuffer
      ensures mcuBuffer[..blkn] == old(mcuBuffer[..blkn])
      ensures mcuBuffer[blkn..blkn + n] == plane[startRow / DCTSIZE][startCol / DCTSIZE..startCol / DCTSIZE + n]
    {
      var y, x := startRow / DCTSIZE, startCol / DCTSIZE;
      for bi := 0 to n
        invariant mcuBuffer[..blkn] == old(mcuBuffer[..blkn])
        invariant mcuBuffer[blkn..blkn + bi] == plane[y][x..x + bi]
      {
        mcuBuffer[blkn + bi] := plane[y][x + bi];
        assert mcuBuffer[blkn..blkn + bi + 1] == mcuBuffer[blkn..blkn + bi] + [plane[y][x + bi]];
      }
    }

    /** jzero_far. */
    method ZeroBlocks(first: nat, n: nat)
      requires first + n <= mcuBuffer.Length
      modifies mcuBuffer
      ensures mcuBuffer[..first] == old(mcuBuffer[..first])
      ensures forall j :: first <= j < first + n ==> mcuBuffer[j] == Blank()
    {
      for j := first to first + n
        invariant mcuBuffer[..first] == old(mcuBuffer[..first])
        invariant forall i :: first <= i < j ==> mcuBuffer[i] == Blank()
      {
        mcuBuffer[j] := Blank();
      }
    }

    /** Dummy blocks at the right edge: each repeats the DC value of the one before. */
    method DummiesRight(first: nat, n: nat)
      requires 0 < first && first + n <= mcuBuffer.Length
      modifies mcuBuffer
      ensures mcuBuffer[..first] == old(mcuBuffer[..first])
      ensures forall j :: first <= j < first + n ==> mcuBuffer[j] == DcOnly(mcuBuffer[first - 1][0])
    {
      ZeroBlocks(first, n);
      for j := first to first + n
        invariant mcuBuffer[..first] == old(mcuBuffer[..first])
        invariant forall i :: first <= i < j ==> mcuBuffer[i] == DcOnly(mcuBuffer[first - 1][0])
        invariant forall i :: j <= i < first + n ==> mcuBuffer[i] == Blank()
      {
        mcuBuffer[j] := mcuBuffer[j][0 := mcuBuffer[j - 1][0]];
      }
    }

    /** A row of dummy blocks at the bottom: all repeat the DC value of the last block
        of the row above. */
    method DummiesBelow(first: nat, n: nat)
      requires 0 < first && first + n <= mcuBuffer.Length
      modifies mcuBuffer
      ensures mcuBuffer[..first] == old(mcuBuffer[..first])
      ensures forall j :: first <= j < first + n ==> mcuBuffer[j] == DcOnly(mcuBuffer[first - 1][0])
    {
      ZeroBlocks(first, n);
      for j := first to first + n
        invariant mcuBuffer[..first] == old(mcuBuffer[..first])
        invariant forall i :: first <= i < j ==> mcuBuffer[i] == DcOnly(mcuBuffer[first - 1][0])
        invariant forall i :: j <= i < first + n ==> mcuBuffer[i] == Blank()
      {
        mcuBuffer[j] := mcuBuffer[j][0 := mcuBuffer[first - 1][0]];
      }
    }

    /** The blocks of one component in one row of an MCU, inside the image. */
    method FillRealRow(c: ComponentInfo, ghost g: grid, plane: grid, blkn: nat, row: nat, col: nat)
      requires Fits(c, g) && Solid(c) && TilesComponent(c, mcusPerRow, totalIMcuRows)
        && IsStrip(c, g, iMcuRowNum, plane)
      requires blkn + c.mcuWidth <= mcuBuffer.Length && row < c.v && col < mcusPerRow
        && iMcuRowNum * c.v + row < c.heightInBlocks
      modifies mcuBuffer
      ensures mcuBuffer[..blkn] == old(mcuBuffer[..blkn])
      ensures mcuBuffer[blkn..blkn + c.mcuWidth] == CellRow(c, g, iMcuRowNum * c.v + row, col * c.mcuWidth, c.mcuWidth)
    {
      hide TilesComponent, Blank, Cell, CellRow, DcOnly;
      ghost var y, x := iMcuRowNum * c.v + row, col * c.mcuWidth;
      var blockcnt := if col < mcusPerRow - 1 then c.mcuWidth else c.lastColWidth;
      ColumnOfStrip(c, col);
      assert plane[row] == g[y];
      ForwardDct(plane, blkn, row * DCTSIZE, col * c.mcuSampleWidth, blockcnt);
      ghost var done := mcuBuffer[..blkn + blockcnt];
      assert done[blkn..] == g[y][x..x + blockcnt];
      if blockcnt < c.mcuWidth {
        DummiesRight(blkn + blockcnt, c.mcuWidth - blockcnt);
        assert done == mcuBuffer[..blkn + blockcnt];
      }
      ghost var bs := mcuBuffer[blkn..blkn + c.mcuWidth];
      assert bs[..blockcnt] == done[blkn..];
      assert bs[blockcnt - 1] == mcuBuffer[blkn + blockcnt - 1];
      RealRow(c, g, y, x, bs, blockcnt);
      assert done[..blkn] == mcuBuffer[..blkn];
    }

    /** The blocks of one component in one row of an MCU. */
    method FillRow(c: ComponentInfo, ghost g: grid, plane: grid, blkn: nat, yoffset: nat, yindex: nat, col: nat)
      requires Fits(c, g) && Solid(c) && TilesComponent(c, mcusPerRow, totalIMcuRows)
        && IsStrip(c, g, iMcuRowNum, plane)
      requires blkn + c.mcuWidth <= mcuBuffer.Length && yoffset + yindex < c.v && col < mcusPerRow
        && iMcuRowNum < totalIMcuRows
      requires var y := iMcuRowNum * c.v + (yoffset + yindex);
        && (y < c.heightInBlocks <==> iMcuRowNum < totalIMcuRows - 1 || yoffset + yindex < c.lastRowHeight)
        && (y >= c.heightInBlocks ==> (blkn > 0 && y > 0
          && mcuBuffer[blkn - 1] == Cell(c, g, y - 1, col * c.mcuWidth + (c.mcuWidth - 1))))
      modifies mcuBuffer
      ensures mcuBuffer[..blkn] == old(mcuBuffer[..blkn])
      ensures mcuBuffer[blkn..blkn + c.mcuWidth] ==
        CellRow(c, g, iMcuRowNum * c.v + (yoffset + yindex), col * c.mcuWidth, c.mcuWidth)
    {
      hide TilesComponent, Blank, Cell, CellRow, DcOnly;
      if iMcuRowNum < totalIMcuRows - 1 || yoffset + yindex < c.lastRowHeight {
        FillRealRow(c, g, plane, blkn, yoffset + yindex, col);
      } else {
        DummiesBelow(blkn, c.mcuWidth);
        assert mcuBuffer[..blkn][blkn - 1] == old(mcuBuffer[..blkn])[blkn - 1];
        DummyRow(c, g, iMcuRowNum * c.v + (yoffset + yindex), col, col * c.mcuWidth,
          mcuBuffer[blkn..blkn + c.mcuWidth]);
      }
    }

    lemma ColumnOfStrip(c: ComponentInfo, col: nat)
      requires Solid(c) && TilesComponent(c, mcusPerRow, totalIMcuRows) && col < mcusPerRow
      ensures col * c.mcuSampleWidth / DCTSIZE == col * c.mcuWidth && 1 <= c.lastColWidth <= c.mcuWidth
      ensures var blockcnt := if col < mcusPerRow - 1 then c.mcuWidth else c.lastColWidth;
        && col * c.mcuWidth + blockcnt <= c.widthInBlocks
        && (blockcnt < c.mcuWidth ==> col * c.mcuWidth + blockcnt == c.widthInBlocks)
    {
      Reassociate(col, c.mcuWidth, DCTSIZE);
      MulMonotone(col, mcusPerRow - 1, c.mcuWidth);
      if col < mcusPerRow - 1 {
        MulMonotone(col + 1, mcusPerRow - 1, c.mcuWidth);
        Distribute(col, 1, c.mcuWidth);
      }
    }

    lemma RealRow(c: ComponentInfo, g: grid, y: nat, x: nat, bs: seq<block>, blockcnt: nat)
      requires Fits(c, g) && Solid(c) && y < c.heightInBlocks && 1 <= blockcnt <= c.mcuWidth == |bs|
      requires x + blockcnt <= c.widthInBlocks && (blockcnt < c.mcuWidth ==> x + blockcnt == c.widthInBlocks)
      requires bs[..blockcnt] == g[y][x..x + blockcnt]
      requires forall j :: blockcnt <= j < |bs| ==> bs[j] == DcOnly(bs[blockcnt - 1][0])
      ensures bs == CellRow(c, g, y, x, c.mcuWidth)
    {
      hide DcOnly;
      forall j | 0 <= j < |bs| ensures bs[j] == Cell(c, g, y, x + j) {
        if j < blockcnt {
          assert bs[j] == bs[..blockcnt][j];
        } else {
          assert bs[blockcnt - 1] == bs[..blockcnt][blockcnt - 1];
        }
      }
    }

    lemma DummyRow(c: ComponentInfo, g: grid, y: nat, col: nat, x: nat, bs: seq<block>)
      requires Fits(c, g) && Solid(c) && y >= c.heightInBlocks && y > 0 && col < mcusPerRow && |bs| == c.mcuWidth
      requires TilesComponent(c, mcusPerRow, totalIMcuRows) && x == col * c.mcuWidth
      requires forall j :: 0 <= j < |bs| ==> bs[j] == DcOnly(Cell(c, g, y - 1, x + (c.mcuWidth - 1))[0])
      ensures bs == CellRow(c, g, y, x, c.mcuWidth)
    {
      hide Cell, CellRow, DcOnly, TilesComponent, Fits;
      DummyRepeatsAbove(c, g, mcusPerRow, totalIMcuRows, y, col);
      forall xi | 0 <= xi < |bs| ensures bs[xi] == Cell(c, g, y, x + xi) {
        BelowAlike(c, g, y, col, x, xi);
      }
      RowIsCells(c, g, y, x, bs);
    }

    static lemma RowIsCells(c: ComponentInfo, g: grid, y: nat, x: nat, bs: seq<block>)
      requires Fits(c, g) && Solid(c) && forall xi :: 0 <= xi < |bs| ==> bs[xi] == Cell(c, g, y, x + xi)
      ensures bs == CellRow(c, g, y, x, |bs|)
    {
      hide Cell, Fits;
    }

    /** Below the image the blocks of an MCU row are alike. */
    static lemma BelowAlike(c: ComponentInfo, g: grid, y: nat, col: nat, x: nat, xi: nat)
      requires Fits(c, g) && Solid(c) && y >= c.heightInBlocks && xi < c.mcuWidth && x == col * c.mcuWidth
      ensures Cell(c, g, y, x + xi) == Cell(c, g, y, x)
    {
      InTile(c.mcuWidth, col, 0);
      InTile(c.mcuWidth, col, xi);
    }

    /** The row of MCUs that starts yoffset block rows into the strip. */
    ghost function McuRowNum(yoffset: nat): nat
      requires |cs| > 0 && cs[0].v > 0
      reads this
    {
      RowsBefore(cs, mcuRowsInScan, totalIMcuRows, iMcuRowNum) + yoffset
    }

    /** The place in the strip of row yi of component ci in an MCU. */
    lemma RowIs(ci: nat, yoffset: nat, yi: nat)
      requires Setting() && iMcuRowNum < totalIMcuRows && yoffset < RowsIn(cs, totalIMcuRows, iMcuRowNum) && ci < |cs|
      requires yi < cs[ci].mcuHeight
      ensures cs[ci].v > 0 && yoffset + yi < cs[ci].v
      ensures var y := iMcuRowNum * cs[ci].v + (yoffset + yi);
        && y == McuRowNum(yoffset) * cs[ci].mcuHeight + yi
        && (y < cs[ci].heightInBlocks <==> iMcuRowNum < totalIMcuRows - 1 || yoffset + yi < cs[ci].lastRowHeight)
    {
      hide RowsIn, RowsBefore, AllFit, AllSolid, Membership;
      assert TilesComponent(cs[ci], mcusPerRow, totalIMcuRows);
      RowOfStrip(cs, mcusPerRow, mcuRowsInScan, totalIMcuRows, iMcuRowNum, yoffset, ci, yi);
    }

    /** At the left edge of an MCU a dummy has the row above before it. */
    lemma AboveIsLast(c: ComponentInfo, g: grid, r: nat, col: nat, yi: nat, bs: seq<block>)
      requires Fits(c, g) && Solid(c) && TilesComponent(c, mcusPerRow, totalIMcuRows) && col < mcusPerRow
        && yi < c.mcuHeight
      requires bs == ComponentRows(c, g, r, col, yi) && r * c.mcuHeight + yi >= c.heightInBlocks
      requires r * c.mcuHeight < c.heightInBlocks
      ensures r * c.mcuHeight + yi > 0 && |bs| > 0
      ensures bs[|bs| - 1] == Cell(c, g, r * c.mcuHeight + yi - 1, col * c.mcuWidth + (c.mcuWidth - 1))
    {
      hide Cell, Fits, TilesComponent;
      Distribute(yi - 1, 1, c.mcuWidth);
      RowsAt(c, g, r, col, yi, yi - 1, c.mcuWidth - 1);
    }

    lemma FirstRowReal(ci: nat, yoffset: nat)
      requires Setting() && iMcuRowNum < totalIMcuRows && yoffset < RowsIn(cs, totalIMcuRows, iMcuRowNum) && ci < |cs|
      ensures McuRowNum(yoffset) * cs[ci].mcuHeight < cs[ci].heightInBlocks
    {
      assert TilesComponent(cs[ci], mcusPerRow, totalIMcuRows);
      RowIs(ci, yoffset, 0);
      RowsAddUp(cs, mcusPerRow, mcuRowsInScan, totalIMcuRows, iMcuRowNum);
    }

    /** One row more of a component's blocks. */
    method FillNextRow(ci: nat, plane: grid, ghost blkn: nat, next: nat, yoffset: nat, yindex: nat, col: nat)
      requires Setting() && iMcuRowNum < totalIMcuRows && yoffset < RowsIn(cs, totalIMcuRows, iMcuRowNum) && ci < |cs|
        && col < mcusPerRow
      requires yindex < cs[ci].mcuHeight && next == blkn + yindex * cs[ci].mcuWidth
        && next + cs[ci].mcuWidth <= mcuBuffer.Length
      requires IsStrip(cs[ci], picture[ci], iMcuRowNum, plane) && Solid(cs[ci])
      requires mcuBuffer[blkn..next] == ComponentRows(cs[ci], picture[ci], McuRowNum(yoffset), col, yindex)
      modifies mcuBuffer
      ensures mcuBuffer[..blkn] == old(mcuBuffer[..blkn])
      ensures mcuBuffer[blkn..next + cs[ci].mcuWidth] == ComponentRows(cs[ci], picture[ci], McuRowNum(yoffset), col,
        yindex + 1)
    {
      hide RowsIn, Membership, Cell, Fits, ScanTiles, TilesComponent, IsStrip, ComponentRows, CellRow;
      var c := cs[ci];
      ghost var g, r := picture[ci], McuRowNum(yoffset);
      ComponentIs(ci);
      FirstRowReal(ci, yoffset);
      RowIs(ci, yoffset, yindex);
      ghost var done := mcuBuffer[..next];
      if r * c.mcuHeight + yindex >= c.heightInBlocks {
        AboveIsLast(c, g, r, col, yindex, mcuBuffer[blkn..next]);
      }
      FillRow(c, g, plane, next, yoffset, yindex, col);
      RowsNext(c, g, r, col, yindex);
      assert mcuBuffer[..next] == done;
      assert mcuBuffer[..blkn] == done[..blkn];
      assert mcuBuffer[blkn..next + c.mcuWidth] == done[blkn..] + mcuBuffer[next..next + c.mcuWidth];
    }

    method FillComponent(ci: nat, plane: grid, blkn: nat, yoffset: nat, col: nat) returns (next: nat)
      requires Setting() && iMcuRowNum < totalIMcuRows && yoffset < RowsIn(cs, totalIMcuRows, iMcuRowNum) && ci < |cs|
        && col < mcusPerRow
      requires IsStrip(cs[ci], picture[ci], iMcuRowNum, plane) && blkn + cs[ci].mcuBlocks <= mcuBuffer.Length
      modifies mcuBuffer
      ensures next == blkn + cs[ci].mcuHeight * cs[ci].mcuWidth <= mcuBuffer.Length
        && mcuBuffer[..blkn] == old(mcuBuffer[..blkn])
      ensures mcuBuffer[blkn..next] == ComponentRows(cs[ci], picture[ci], McuRowNum(yoffset), col, cs[ci].mcuHeight)
    {
      hide RowsIn, Membership, Cell, Fits, ScanTiles, TilesComponent, IsStrip, ComponentRows;
      var c := cs[ci];
      ComponentIs(ci);
      next := blkn;
      NoRows(c, picture[ci], McuRowNum(yoffset), col);
      for yindex := 0 to c.mcuHeight
        invariant next == blkn + yindex * c.mcuWidth <= mcuBuffer.Length && mcuBuffer[..blkn] == old(mcuBuffer[..blkn])
        invariant mcuBuffer[blkn..next] == ComponentRows(c, picture[ci], McuRowNum(yoffset), col, yindex)
      {
        RowRoom(c, blkn, yindex);
        FillNextRow(ci, plane, blkn, next, yoffset, yindex, col);
        next := next + c.mcuWidth;
      }
    }

    lemma ComponentIs(ci: nat)
      requires Setting() && ci < |cs|
      ensures TilesComponent(cs[ci], mcusPerRow, totalIMcuRows) && Solid(cs[ci]) && Fits(cs[ci], picture[ci])
    {
      hide Membership;
    }

    lemma NoRows(c: ComponentInfo, g: grid, r: nat, col: nat)
      requires Fits(c, g) && Solid(c)
      ensures ComponentRows(c, g, r, col, 0) == []
    {
    }

    lemma RowsNext(c: ComponentInfo, g: grid, r: nat, col: nat, n: nat)
      requires Fits(c, g) && Solid(c)
      ensures ComponentRows(c, g, r, col, n + 1) ==
        ComponentRows(c, g, r, col, n) + CellRow(c, g, r * c.mcuHeight + n, col * c.mcuWidth, c.mcuWidth)
    {
      hide CellRow;
    }

    lemma RowRoom(c: ComponentInfo, blkn: nat, yindex: nat)
      requires Solid(c) && yindex < c.mcuHeight && blkn + c.mcuBlocks <= mcuBuffer.Length
      ensures blkn + yindex * c.mcuWidth + c.mcuWidth <= mcuBuffer.Length
      ensures (yindex + 1) * c.mcuWidth == yindex * c.mcuWidth + c.mcuWidth
    {
      MulMonotone(yindex + 1, c.mcuHeight, c.mcuWidth);
      Distribute(yindex, 1, c.mcuWidth);
    }

    /** The blocks of one MCU. */
    method FillMcu(input: seq<grid>, yoffset: nat, col: nat) returns (blkn: nat)
      requires Setting() && iMcuRowNum < totalIMcuRows && yoffset < RowsIn(cs, totalIMcuRows, iMcuRowNum)
        && col < mcusPerRow
      requires AreStrips(cs, picture, iMcuRowNum, input)
      modifies mcuBuffer
      ensures blkn <= mcuBuffer.Length && mcuBuffer[..blkn] == Mcu(cs, picture, McuRowNum(yoffset), col)
    {
      hide RowsIn, Membership, Cell, Fits, ScanTiles, TilesComponent, IsStrip, ComponentRows, McuBlocks, RowsBefore;
      ghost var r := McuRowNum(yoffset);
      blkn := 0;
      NoBlocks(r, col);
      for ci := 0 to |cs|
        invariant blkn == |Membership(cs[..ci])| <= mcuBuffer.Length
          && mcuBuffer[..blkn] == McuBlocks(cs, picture, r, col, ci)
      {
        ComponentIs(ci);
        MembershipNext(cs, ci);
        MembershipGrows(cs, ci + 1);
        assert IsStrip(cs[ci], picture[ci], iMcuRowNum, input[cs[ci].componentIndex]);
        ghost var done := mcuBuffer[..blkn];
        var next := FillComponent(ci, input[cs[ci].componentIndex], blkn, yoffset, col);
        McuBlocksNext(cs, picture, r, col, ci + 1);
        assert mcuBuffer[..next] == done + mcuBuffer[blkn..next];
        blkn := next;
      }
      WholeMcu(cs, picture, r, col);
    }

    lemma NoBlocks(r: nat, col: nat)
      requires AllFit(cs, picture) && AllSolid(cs)
      ensures McuBlocks(cs, picture, r, col, 0) == [] && Membership(cs[..0]) == []
    {
    }

    /** compress_data: one iMCU row, or as much of it as the encoder takes.  A call after
        a suspension must present the same strip, and takes up where the last one
        stopped. */
    method CompressData(input: seq<grid>) returns (done: bool)
      requires Valid() && iMcuRowNum < totalIMcuRows && AreStrips(cs, picture, iMcuRowNum, input)
      modifies this, dest, mcuBuffer
      ensures Valid() && iMcuRowNum == old(iMcuRowNum) + (if done then 1 else 0)
      ensures done ==> mcuCtr == mcuVertOffset == 0
      ensures |dest.answers| <= |old(dest.answers)| && (!done ==> |dest.answers| < |old(dest.answers)|)
    {
      hide RowsIn, RowsBefore, Membership, ScanTiles, AreStrips, AllFit, AllSolid, Mcu, SentUpTo;
      var k := iMcuRowNum;
      var yoffset := mcuVertOffset;
      while yoffset < mcuRowsPerIMcuRow
        invariant Setting() && iMcuRowNum == k && mcuRowsPerIMcuRow == RowsIn(cs, totalIMcuRows, k)
        invariant yoffset <= mcuRowsPerIMcuRow && mcuCtr < mcusPerRow && (yoffset == mcuRowsPerIMcuRow ==> mcuCtr == 0)
        invariant SentUpTo(cs, picture, mcusPerRow, mcuRowsInScan, totalIMcuRows, Position(k, yoffset, mcuCtr),
          dest.mcus)
        invariant |dest.answers| <= |old(dest.answers)|
      {
        var col := mcuCtr;
        while col < mcusPerRow
          invariant Setting() && iMcuRowNum == k && mcuRowsPerIMcuRow == RowsIn(cs, totalIMcuRows, k)
            && col <= mcusPerRow
          invariant SentUpTo(cs, picture, mcusPerRow, mcuRowsInScan, totalIMcuRows, Position(k, yoffset, col),
            dest.mcus)
          invariant |dest.answers| <= |old(dest.answers)|
        {
          var blkn := FillMcu(input, yoffset, col);
          McuSent(cs, picture, mcusPerRow, mcuRowsInScan, totalIMcuRows, Position(k, yoffset, col), dest.mcus);
          var ok := dest.EncodeMcu(mcuBuffer[..blkn]);
          if !ok {
            mcuVertOffset, mcuCtr := yoffset, col;
            return false;
          }
          col := col + 1;
        }
        RowSent(cs, picture, mcusPerRow, mcuRowsInScan, totalIMcuRows, Position(k, yoffset, col), dest.mcus);
        mcuCtr := 0;
        yoffset := yoffset + 1;
      }
      IMcuRowSent(cs, picture, mcusPerRow, mcuRowsInScan, totalIMcuRows, k, dest.mcus);
      StartsInside();
      iMcuRowNum := iMcuRowNum + 1;
      StartIMcuRow();
      done := true;
    }

    /** After the last iMCU row all MCUs of the picture have been sent in order. */
    lemma AllSent()
      requires Valid() && iMcuRowNum == totalIMcuRows && mcuVertOffset == mcuCtr == 0
      ensures dest.mcus == Raster(cs, picture, mcusPerRow, mcuRowsInScan)
    {
      hide Raster, Mcu;
    }
  }
}
