/** Compression in several passes (jccoefct.c): the first pass stores the blocks of the
    whole image with their dummy blocks, and every pass sends from the stored blocks. */
module CoefBuffer {
  import opened Nonlinear
  import opened ScanSetup
  import opened ImageGeometry
  import opened McuTraversal
  import opened CoefController

  /** The component as an interleaved scan divides it. */
  function Padded(c: ComponentInfo): ComponentInfo
    requires c.h >= 0
  {
    c.(mcuWidth := c.h)
  }

  /** What initial_setup knows of a component. */
  predicate InFrame(c: ComponentInfo, total: nat)
  {
    GoodFactors(c) && c.widthInBlocks > 0 && Tiles(total, c.v, LastTile(c.heightInBlocks, c.v), c.heightInBlocks)
  }

  /** jround_up. */
  function RoundUp(a: nat, b: nat): nat
    requires b > 0
  {
    var s := a + b - 1;
    s - s % b
  }

  lemma RoundUpIs(a: nat, b: nat)
    requires b > 0 && a > 0
    ensures exists n: nat :: Enough(n, a, b)
    ensures RoundUp(a, b) == a + (if a % b > 0 then b - a % b else 0) && RoundUp(a, b) / b * b == RoundUp(a, b)
  {
    var q, r := a / b, a % b;
    assert a == b * q + r;
    if r == 0 {
      DivisionUnique(a + b - 1, b, q, b - 1);
      assert Enough(q, a, b);
      DivisionUnique(a, b, q, 0);
    } else {
      DivisionUnique(a + b - 1, b, q + 1, r - 1);
      assert Enough(q + 1, a, b);
      DivisionUnique(b * (q + 1), b, q + 1, 0);
    }
  }

  predicate Enough(n: nat, a: nat, b: nat)
    requires b > 0
  {
    RoundUp(a, b) == n * b
  }

  /** The virtual array of one component, an array of block rows. */
  class CoefArray {
    const c: ComponentInfo
    const total: nat
    const across: nat
    const image: array<seq<block>>
    ghost const g: grid

    ghost predicate Setting()
    {
      && InFrame(c, total) && Fits(c, g) && c.heightInBlocks > 0
      && image.Length == total * c.v && across == RoundUp(c.widthInBlocks, c.h)
    }

    ghost predicate Valid()
      reads image
    {
      Setting() && forall y :: 0 <= y < image.Length ==> |image[y]| == across
    }

    constructor (c: ComponentInfo, total: nat, ghost g: grid)
      requires InFrame(c, total) && Fits(c, g)
      ensures Valid() && Loaded(0) && fresh(image) && this.c == c && this.total == total && this.g == g
    {
      var width := RoundUp(c.widthInBlocks, c.h);
      this.c, this.total, this.g, across := c, total, g, width;
      var blank := seq(width, _ => Blank());
      image := new seq<block>[total * c.v](_ => blank);
      new;
      HasRows();
    }

    lemma HasRows()
      requires InFrame(c, total)
      ensures c.heightInBlocks > 0
    {
      if total > 1 {
        MulPositive(total - 1, c.v);
      }
    }

    lemma Widths()
      requires Setting()
      ensures c.h > 0 && c.v > 0 && c.heightInBlocks > 0 && 0 < c.widthInBlocks <= across
      ensures across == c.widthInBlocks + (if c.widthInBlocks % c.h > 0 then c.h - c.widthInBlocks % c.h else 0)
      ensures across / c.h * c.h == across
    {
      RoundUpIs(c.widthInBlocks, c.h);
    }

    /** The plane shows iMCU row k of the image. */
    ghost predicate TakesStrip(k: nat, plane: grid)
    {
      InFrame(c, total) && Fits(c, g) && IsStrip(c, g, k, plane)
    }

    /** Row y as it is sent. */
    ghost function RowOf(y: nat): (bs: seq<block>)
      requires Setting()
      ensures |bs| == across
    {
      Widths();
      CellRow(Padded(c), g, y, 0, across)
    }

    lemma RowOfAt(y: nat, x: nat)
      requires Setting() && x < across
      ensures c.h > 0 && RowOf(y)[x] == Cell(Padded(c), g, y, x)
    {
      hide InFrame, RoundUp, Cell;
      Widths();
    }

    lemma RealCells(y: nat)
      requires Setting() && y < c.heightInBlocks
      ensures RowOf(y)[..c.widthInBlocks] == g[y] && c.widthInBlocks <= across
      ensures forall x :: c.widthInBlocks <= x < across ==> RowOf(y)[x] == DcOnly(g[y][c.widthInBlocks - 1][0])
    {
      hide InFrame, RoundUp;
      Widths();
    }

    /** A block row inside the image, with its dummy blocks at the right. */
    method LoadRow(plane: grid, ghost k: nat, row: nat, y: nat)
      requires Valid() && IsStrip(c, g, k, plane) && row < c.v && y == k * c.v + row && y < c.heightInBlocks
        && y < image.Length
      modifies image
      ensures Valid() && image[y] == RowOf(y)
      ensures forall i :: 0 <= i < image.Length && i != y ==> image[i] == old(image[i])
    {
      hide InFrame, RoundUp, RowOf;
      Widths();
      var blocksAcross := c.widthInBlocks;
      var ndummy := blocksAcross % c.h;
      if ndummy > 0 {
        ndummy := c.h - ndummy;
      }
      var thisRow := image[y];
      for x := 0 to blocksAcross
        invariant |thisRow| == across && thisRow[..x] == plane[row][..x]
      {
        thisRow := thisRow[x := plane[row][x]];
        assert plane[row][..x + 1] == plane[row][..x] + [plane[row][x]];
      }
      assert thisRow[..blocksAcross] == g[y];
      if ndummy > 0 {
        var lastDC := thisRow[blocksAcross - 1][0];
        thisRow := FillDummies(thisRow, blocksAcross, ndummy, lastDC);
      }
      RealCells(y);
      assert forall x :: (0 <= x < blocksAcross
        ==> thisRow[x] == thisRow[..blocksAcross][x] == RowOf(y)[..blocksAcross][x]);
      assert thisRow == RowOf(y);
      image[y] := thisRow;
    }

    /** jzero_far on n blocks, which then get a DC value. */
    static method FillDummies(blocks: seq<block>, first: nat, n: nat, dc: int) returns (filled: seq<block>)
      requires first + n <= |blocks|
      ensures |filled| == |blocks| && filled[..first] == blocks[..first] && filled[first + n..] == blocks[first + n..]
      ensures forall x :: first <= x < first + n ==> filled[x] == DcOnly(dc)
    {
      filled := blocks;
      for x := first to first + n
        invariant |filled| == |blocks| && filled[..first] == blocks[..first]
          && filled[first + n..] == blocks[first + n..]
        invariant forall j :: first <= j < x ==> filled[j] == Blank()
      {
        filled := filled[x := Blank()];
      }
      for x := first to first + n
        invariant |filled| == |blocks| && filled[..first] == blocks[..first]
          && filled[first + n..] == blocks[first + n..]
        invariant forall j :: first <= j < x ==> filled[j] == DcOnly(dc)
        invariant forall j :: x <= j < first + n ==> filled[j] == Blank()
      {
        filled := filled[x := filled[x][0 := dc]];
      }
    }

    /** A row of dummy blocks: in each MCU they repeat the DC value of the last block
        above. */
    method LoadDummyRow(y: nat)
      requires Valid() && c.heightInBlocks <= y < image.Length && 0 < y && image[y - 1] == RowOf(y - 1)
      modifies image
      ensures Valid() && image[y] == RowOf(y)
      ensures forall i :: 0 <= i < image.Length && i != y ==> image[i] == old(image[i])
    {
      hide InFrame, RoundUp, RowOf, DcOnly, Fits, CoefArray.Setting;
      Widths();
      var thisRow, lastRow := image[y], image[y - 1];
      var mcusAcross := across / c.h;
      ghost var start := 0;
      for m := 0 to mcusAcross
        modifies {}
        invariant start == m * c.h <= across && |thisRow| == across && thisRow[..start] == RowOf(y)[..start]
      {
        NextMcu(m, c.h, mcusAcross);
        thisRow := DummyMcu(thisRow, lastRow, y, m);
        start := start + c.h;
      }
      assert thisRow[..across] == thisRow && RowOf(y)[..across] == RowOf(y);
      image[y] := thisRow;
    }

    /** The dummy blocks of one MCU. */
    method DummyMcu(row: seq<block>, lastRow: seq<block>, ghost y: nat, m: nat) returns (filled: seq<block>)
      requires Setting() && c.heightInBlocks <= y && 0 < y && 0 < c.h && m * c.h + c.h <= across
      requires |row| == across && row[..m * c.h] == RowOf(y)[..m * c.h] && lastRow == RowOf(y - 1)
      ensures |filled| == across && filled[..m * c.h + c.h] == RowOf(y)[..m * c.h + c.h]
    {
      hide CoefArray.Setting, RowOf, DcOnly;
      var start := m * c.h;
      filled := FillDummies(row, start, c.h, lastRow[start + (c.h - 1)][0]);
      DummyCells(y, m, start);
      assert filled[..start + c.h][..start] == filled[..start] && RowOf(y)[..start + c.h][..start] == RowOf(y)[..start];
      Joined(filled[..start + c.h], RowOf(y)[..start + c.h], start);
    }

    static lemma Joined(a: seq<block>, b: seq<block>, n: nat)
      requires |a| == |b| && n <= |a| && a[..n] == b[..n] && forall x :: n <= x < |a| ==> a[x] == b[x]
      ensures a == b
    {
      forall x | 0 <= x < |a| ensures a[x] == b[x] {
        if x < n {
          assert a[..n][x] == b[..n][x];
        }
      }
    }

    lemma NextMcu(m: nat, h: nat, n: nat)
      requires m < n
      ensures (m + 1) * h == m * h + h <= n * h
    {
      Distribute(m, 1, h);
      MulMonotone(m + 1, n, h);
    }

    lemma DummyCells(y: nat, m: nat, start: nat)
      requires Setting() && c.heightInBlocks <= y && 0 < y && start == m * c.h && start + c.h <= across && 0 < c.h
      ensures forall x :: start <= x < start + c.h ==> RowOf(y)[x] == DcOnly(RowOf(y - 1)[start + (c.h - 1)][0])
    {
      hide DcOnly, CoefArray.Setting, CoefArray.RowOf;
      forall x | start <= x < start + c.h ensures RowOf(y)[x] == DcOnly(RowOf(y - 1)[start + (c.h - 1)][0]) {
        DummyCell(y, m, start, x - start);
      }
    }

    lemma DummyCell(y: nat, m: nat, start: nat, bi: nat)
      requires Setting() && c.heightInBlocks <= y && 0 < y && start == m * c.h && start + c.h <= across && bi < c.h
      ensures RowOf(y)[start + bi] == DcOnly(RowOf(y - 1)[start + (c.h - 1)][0])
    {
      hide CoefArray.RowOf, DcOnly, Cell, InFrame, RoundUp;
      RowOfAt(y, start + bi);
      RowOfAt(y - 1, start + (c.h - 1));
      Widths();
      SameDc(y, m, start, bi);
    }

    lemma SameDc(y: nat, m: nat, start: nat, bi: nat)
      requires Fits(c, g) && c.heightInBlocks <= y && 0 < y && 0 < c.h && bi < c.h && 0 < c.widthInBlocks
        && 0 < c.heightInBlocks && start == m * c.h
      ensures Cell(Padded(c), g, y, start + bi) == DcOnly(Cell(Padded(c), g, y - 1, start + (c.h - 1))[0])
    {
      InTile(c.h, m, bi);
      InTile(c.h, m, c.h - 1);
    }

    /** The rows of the first n iMCU rows are stored. */
    ghost predicate Loaded(n: nat)
      requires Setting()
      reads image
    {
      LoadedRows(n * c.v)
    }

    ghost predicate LoadedRows(n: nat)
      requires Setting()
      reads image
    {
      forall y :: 0 <= y < n && y < image.Length ==> image[y] == RowOf(y)
    }

    /** One iMCU row of the first pass, which may be repeated. */
    method LoadStrip(plane: grid, k: nat)
      requires Valid() && k < total && IsStrip(c, g, k, plane) && Loaded(k)
      modifies image
      ensures Valid() && Loaded(k + 1)
    {
      hide InFrame, RoundUp, IsStrip, LastTile, RowOf;
      Widths();
      StripRows(k);
      var blockRows := c.v;
      if k >= total - 1 {
        blockRows := c.heightInBlocks % c.v;
        if blockRows == 0 {
          blockRows := c.v;
        }
      }
      LastTileIs();
      var base := k * c.v;
      for row := 0 to blockRows
        invariant Valid() && LoadedRows(base + row)
      {
        LoadRow(plane, k, row, base + row);
      }
      if k == total - 1 {
        for row := blockRows to c.v
          invariant Valid() && LoadedRows(base + row)
        {
          LoadDummyRow(base + row);
        }
      }
    }

    lemma LastTileIs()
      requires Setting() && c.v > 0
      ensures LastTile(c.heightInBlocks, c.v) == if c.heightInBlocks % c.v == 0 then c.v else c.heightInBlocks % c.v
    {
    }

    lemma StripRows(k: nat)
      requires Setting() && k < total
      ensures k * c.v + c.v == (k + 1) * c.v <= image.Length && c.v > 0
      ensures var rows := if k >= total - 1 then LastTile(c.heightInBlocks, c.v) else c.v;
        0 < rows <= c.v && k * c.v + rows <= c.heightInBlocks && (k == total - 1 ==> k * c.v + rows == c.heightInBlocks)
    {
      Distribute(k, 1, c.v);
      MulMonotone(k + 1, total, c.v);
      if k < total - 1 {
        MulMonotone(k + 1, total - 1, c.v);
      }
    }
  }

  /** A component of a scan is the one whose blocks an array holds. */
  predicate Stored(c: ComponentInfo, f: ComponentInfo)
  {
    c.h == f.h && c.v == f.v && c.widthInBlocks == f.widthInBlocks && c.heightInBlocks == f.heightInBlocks
  }

  ghost function Grids(arrays: seq<CoefArray>, cs: seq<ComponentInfo>): (p: seq<grid>)
    requires forall i :: 0 <= i < |cs| ==> cs[i].componentIndex < |arrays|
    ensures |p| == |cs| && forall i :: 0 <= i < |cs| ==> p[i] == arrays[cs[i].componentIndex].g
  {
    seq(|cs|, i requires 0 <= i < |cs| && cs[i].componentIndex < |arrays| => arrays[cs[i].componentIndex].g)
  }

  /** From x on, `row` has the blocks bs. */
  predicate Shows(row: seq<block>, x: nat, bs: seq<block>)
  {
    x + |bs| <= |row| && row[x..x + |bs|] == bs
  }

  /** Block row y lies in iMCU row k. */
  predicate InStrip(c: ComponentInfo, k: nat, y: nat)
  {
    k * c.v <= y < k * c.v + c.v
  }

  /** The blocks of row y in MCU column col. */
  function SentRow(c: ComponentInfo, g: grid, y: nat, col: nat): (bs: seq<block>)
    requires Fits(c, g) && Solid(c)
    ensures |bs| == c.mcuWidth
  {
    CellRow(c, g, y, StartCol(c, col), c.mcuWidth)
  }

  function RowOfMcu(c: ComponentInfo, r: nat, yi: nat): nat
  {
    r * c.mcuHeight + yi
  }

  function StartCol(c: ComponentInfo, col: nat): nat
  {
    col * c.mcuWidth
  }

  class FullImage {
    const total: nat
    const arrays: seq<CoefArray>
    const dest: Destination
    const mcuBuffer: array<block>
    var cs: seq<ComponentInfo>
    var mcusPerRow: nat
    var mcuRowsInScan: nat
    var iMcuRowNum: nat
    var mcuCtr: nat
    var mcuVertOffset: nat
    var mcuRowsPerIMcuRow: nat

    ghost function Picture(): (p: seq<grid>)
      requires forall i :: 0 <= i < |cs| ==> cs[i].componentIndex < |arrays|
      reads `cs
    {
      Grids(arrays, cs)
    }

    /** The components of the scan have arrays, and the scan tiles them. */
    ghost predicate Setting()
      reads `cs, `mcusPerRow, `mcuRowsInScan
    {
      && ScanTiles(cs, mcusPerRow, mcuRowsInScan, total) && |cs| > 0 && cs[0].v > 0 && AllSolid(cs)
      && |Membership(cs)| <= C_MAX_BLOCKS_IN_MCU == mcuBuffer.Length
      && (forall i :: 0 <= i < |cs| ==> cs[i].componentIndex < |arrays|)
      && forall i :: 0 <= i < |cs| ==> var a := arrays[cs[i].componentIndex];
        a.Setting() && a.total == total && Stored(cs[i], a.c)
    }

    ghost function Here(): Position
      reads this
    {
      Position(iMcuRowNum, mcuVertOffset, mcuCtr)
    }

    ghost predicate Valid()
      reads this, dest
    {
      && Setting() && AllFit(cs, Picture())
      && iMcuRowNum <= total && mcuRowsPerIMcuRow == RowsIn(cs, total, iMcuRowNum)
      && mcuVertOffset < mcuRowsPerIMcuRow && mcuCtr < mcusPerRow
      && SentUpTo(cs, Picture(), mcusPerRow, mcuRowsInScan, total, Here(), dest.mcus)
    }

    /** The block rows of iMCU row iMcuRowNum are stored. */
    ghost predicate Ready()
      requires Setting()
      reads `cs, `mcusPerRow, `mcuRowsInScan, `iMcuRowNum, set i | 0 <= i < |cs|
        && cs[i].componentIndex < |arrays| :: arrays[cs[i].componentIndex].image
    {
      forall i :: 0 <= i < |cs| ==> var a := arrays[cs[i].componentIndex]; a.Valid() && a.Loaded(iMcuRowNum + 1)
    }

    /** The arrays of an image. */
    constructor (frame: seq<ComponentInfo>, total: nat, dest: Destination, ghost picture: seq<grid>)
      requires total > 0 && |picture| == |frame| && forall i :: 0 <= i < |frame| ==> (InFrame(frame[i], total)
        && Fits(frame[i], picture[i]))
      ensures |arrays| == |frame| && this.total == total && this.dest == dest
        && mcuBuffer.Length == C_MAX_BLOCKS_IN_MCU && fresh(mcuBuffer)
      ensures forall i :: 0 <= i < |frame| ==> var a := arrays[i];
        a.Valid() && a.Loaded(0) && a.c == frame[i] && a.g == picture[i] && a.total == total && fresh(a.image)
      ensures forall i, j :: 0 <= i < j < |frame| ==> arrays[i].image != arrays[j].image
    {
      this.total, this.dest := total, dest;
      cs, mcusPerRow, mcuRowsInScan, iMcuRowNum, mcuCtr, mcuVertOffset, mcuRowsPerIMcuRow := [], 0, 0, 0, 0, 0, 0;
      var made: seq<CoefArray> := [];
      for i := 0 to |frame|
        invariant |made| == i
        invariant forall j :: 0 <= j < i ==> var a := made[j];
          a.Valid() && a.Loaded(0) && a.c == frame[j] && a.g == picture[j] && a.total == total && fresh(a.image)
        invariant forall j, l :: 0 <= j < l < i ==> made[j].image != made[l].image
      {
        var a := new CoefArray(frame[i], total, picture[i]);
        made := made + [a];
      }
      arrays := made;
      mcuBuffer := new block[C_MAX_BLOCKS_IN_MCU](_ => Blank());
    }

    /** start_pass_coef for the scan of `cs`. */
    method StartPass(cs: seq<ComponentInfo>, mcusPerRow: nat, mcuRows: nat)
      requires ScanTiles(cs, mcusPerRow, mcuRows, total) && |Membership(cs)| <= C_MAX_BLOCKS_IN_MCU == mcuBuffer.Length
      requires forall i :: 0 <= i < |cs| ==> cs[i].componentIndex < |arrays|
      requires forall i :: 0 <= i < |cs| ==> var a := arrays[cs[i].componentIndex];
        a.Setting() && a.total == total && Stored(cs[i], a.c)
      requires dest.mcus == []
      modifies this
      ensures Valid() && Here() == Position(0, 0, 0) && this.cs == cs && this.mcusPerRow == mcusPerRow
        && this.mcuRowsInScan == mcuRows
    {
      hide CoefArray.Setting, ScanTiles, Solid, Membership;
      this.cs, this.mcusPerRow, this.mcuRowsInScan := cs, mcusPerRow, mcuRows;
      iMcuRowNum := 0;
      StartsInside();
      StartIMcuRow();
      PictureFits();
    }

    lemma PictureFits()
      requires Setting()
      ensures AllFit(cs, Picture())
    {
      forall i | 0 <= i < |cs| ensures Fits(cs[i], Picture()[i]) {
        assert Stored(cs[i], arrays[cs[i].componentIndex].c);
      }
    }

    lemma StartsInside()
      requires ScanTiles(cs, mcusPerRow, mcuRowsInScan, total)
      ensures AllSolid(cs) && |cs| > 0 && cs[0].v > 0 && mcusPerRow > 0 && total > 0
      ensures forall k: nat :: RowsIn(cs, total, k) > 0
    {
      ScanIsSolid(cs, mcusPerRow, mcuRowsInScan, total);
      assert TilesComponent(cs[0], mcusPerRow, total);
    }

    /** start_iMCU_row. */
    method StartIMcuRow()
      requires ScanTiles(cs, mcusPerRow, mcuRowsInScan, total) && cs[0].v > 0
      modifies `mcuRowsPerIMcuRow, `mcuCtr, `mcuVertOffset
      ensures mcuCtr == mcuVertOffset == 0 && mcuRowsPerIMcuRow == RowsIn(cs, total, iMcuRowNum)
    {
      if |cs| > 1 {
        mcuRowsPerIMcuRow := 1;
      } else if iMcuRowNum < total - 1 {
        mcuRowsPerIMcuRow := cs[0].v;
      } else {
        mcuRowsPerIMcuRow := cs[0].lastRowHeight;
      }
      mcuCtr, mcuVertOffset := 0, 0;
    }

    /** compress_first_pass, up to the call of compress_output: load the strip of every
        component. */
    method LoadStrips(input: seq<grid>)
      requires iMcuRowNum < total && |input| == |arrays|
      requires forall i :: 0 <= i < |arrays| ==> var a := arrays[i];
        a.Valid() && a.total == total && a.Loaded(iMcuRowNum) && IsStrip(a.c, a.g, iMcuRowNum, input[i])
      requires forall i, j :: 0 <= i < j < |arrays| ==> arrays[i].image != arrays[j].image
      modifies set i | 0 <= i < |arrays| :: arrays[i].image
      ensures forall i :: 0 <= i < |arrays| ==> arrays[i].Valid() && arrays[i].Loaded(iMcuRowNum + 1)
    {
      hide CoefArray.Setting, IsStrip, CoefArray.LoadedRows, Fits;
      for ci := 0 to |arrays|
        invariant forall i :: 0 <= i < ci ==> arrays[i].Valid() && arrays[i].Loaded(iMcuRowNum + 1)
        invariant forall i :: ci <= i < |arrays| ==> arrays[i].Valid() && arrays[i].Loaded(iMcuRowNum)
      {
        arrays[ci].LoadStrip(input[ci], iMcuRowNum);
      }
    }

    ghost function McuRowNum(yoffset: nat): nat
      requires |cs| > 0 && cs[0].v > 0
      reads this
    {
      RowsBefore(cs, mcuRowsInScan, total, iMcuRowNum) + yoffset
    }

    /** The stored blocks are those that are sent, dummy blocks included. */
    lemma StoredRow(ci: nat, y: nat, col: nat)
      requires Setting() && Ready() && iMcuRowNum < total && ci < |cs| && col < mcusPerRow
        && Fits(cs[ci], arrays[cs[ci].componentIndex].g)
      requires InStrip(cs[ci], iMcuRowNum, y) && (|cs| == 1 ==> y < cs[ci].heightInBlocks)
      ensures Solid(cs[ci]) && y < arrays[cs[ci].componentIndex].image.Length
      ensures var c, a := cs[ci], arrays[cs[ci].componentIndex];
        Shows(a.image[y], StartCol(c, col), SentRow(c, a.g, y, col))
    {
      hide RowsIn, RowsBefore, Membership, Fits, InFrame, SentRow, StartCol, RoundUp, ScanTiles, Shows, AllSolid,
        Solid, Tiles, TilesComponent;
      var c, a := cs[ci], arrays[cs[ci].componentIndex];
      FrameOf(ci);
      a.StripRows(iMcuRowNum);
      assert a.image[y] == a.RowOf(y);
      SliceOfRow(c, a, y, col);
    }

    lemma FrameOf(ci: nat)
      requires Setting() && ci < |cs|
      ensures TilesComponent(cs[ci], mcusPerRow, total) && Solid(cs[ci])
        && Stored(cs[ci], arrays[cs[ci].componentIndex].c)
      ensures |cs| > 1 ==> cs[ci].mcuWidth == cs[ci].h
      ensures |cs| == 1 ==> cs[ci].mcuWidth == cs[ci].mcuHeight == 1
    {
    }

    lemma FirstRowOnly(yoffset: nat)
      requires Setting() && |cs| == 1 && iMcuRowNum < total && yoffset < RowsIn(cs, total, iMcuRowNum)
      ensures iMcuRowNum * cs[0].v + yoffset < cs[0].heightInBlocks
    {
      hide TilesComponent, Solid, Stored, Fits, ScanTiles, AllSolid, Membership, CoefArray.Setting;
      FrameOf(0);
      RowInside(cs[0], iMcuRowNum, yoffset);
    }

    lemma RowInside(c: ComponentInfo, k: nat, y: nat)
      requires TilesComponent(c, mcusPerRow, total) && k < total
      requires y < if k < total - 1 then c.v else c.lastRowHeight
      ensures k * c.v + y < c.heightInBlocks
    {
      Distribute(k, 1, c.v);
      MulMonotone(k, total - 1, c.v);
      if k < total - 1 {
        MulMonotone(k + 1, total - 1, c.v);
      }
    }

    lemma SliceOfRow(c: ComponentInfo, a: CoefArray, y: nat, col: nat)
      requires a.Setting() && Stored(c, a.c) && Solid(c) && TilesComponent(c, mcusPerRow, total) && col < mcusPerRow
        && Fits(c, a.g)
      requires c.mcuWidth == c.h || (c.mcuWidth == 1 && y < c.heightInBlocks)
      ensures Shows(a.RowOf(y), StartCol(c, col), SentRow(c, a.g, y, col))
    {
      hide InFrame, RoundUp, Cell, TilesComponent, CoefArray.RowOf, Fits;
      a.Widths();
      hide StartCol;
      var x := StartCol(c, col);
      InsideArray(c, a, col);
      var bs := SentRow(c, a.g, y, col);
      forall i | 0 <= i < |bs| ensures bs[i] == a.RowOf(y)[x + i] {
        a.RowOfAt(y, x + i);
        SameCell(c, a.c, a.g, y, x + i);
      }
    }

    lemma SameCell(c: ComponentInfo, f: ComponentInfo, g: grid, y: nat, x: nat)
      requires Stored(c, f) && Solid(c) && Fits(c, g) && c.h > 0
      requires c.mcuWidth == c.h || (y < c.heightInBlocks && x < c.widthInBlocks)
      ensures Cell(Padded(f), g, y, x) == Cell(c, g, y, x)
    {
    }

    lemma InsideArray(c: ComponentInfo, a: CoefArray, col: nat)
      requires a.Setting() && Stored(c, a.c) && Solid(c) && TilesComponent(c, mcusPerRow, total) && col < mcusPerRow
      requires c.mcuWidth == c.h || c.mcuWidth == 1
      ensures StartCol(c, col) + c.mcuWidth <= a.across && (c.mcuWidth == 1 ==> StartCol(c, col) < c.widthInBlocks)
    {
      a.Widths();
      MulMonotone(col, mcusPerRow - 1, c.mcuWidth);
      if c.mcuWidth == c.h {
        var n := a.across / c.h;
        if col + 1 > n {
          MulMonotone(n, col, c.h);
        }
        MulMonotone(col + 1, n, c.h);
        Distribute(col, 1, c.h);
      }
    }

    /** The row of the image that holds row yi of component ci in an MCU. */
    lemma RowIs(ci: nat, yoffset: nat, yi: nat)
      requires Setting() && iMcuRowNum < total && yoffset < RowsIn(cs, total, iMcuRowNum) && ci < |cs|
        && yi < cs[ci].mcuHeight
      ensures var y := RowOfMcu(cs[ci], McuRowNum(yoffset), yi);
        y == iMcuRowNum * cs[ci].v + (yi + yoffset) && InStrip(cs[ci], iMcuRowNum, y)
          && (|cs| == 1 ==> y < cs[ci].heightInBlocks)
    {
      hide RowsIn, RowsBefore, Membership, AllSolid, Tiles;
      FrameOf(ci);
      RowOfStrip(cs, mcusPerRow, mcuRowsInScan, total, iMcuRowNum, yoffset, ci, yi);
      if |cs| == 1 {
        FirstRowOnly(yoffset);
      }
    }

    /** A row of blocks of one component in an MCU. */
    method FillRow(row: seq<block>, blkn: nat, startCol: nat, n: nat, ghost bs: seq<block>)
      requires |bs| == n && Shows(row, startCol, bs) && blkn + n <= mcuBuffer.Length
      modifies mcuBuffer
      ensures mcuBuffer[..blkn + n] == old(mcuBuffer[..blkn]) + bs
    {
      for xindex := 0 to n
        invariant mcuBuffer[..blkn + xindex] == old(mcuBuffer[..blkn]) + bs[..xindex]
      {
        assert row[startCol..startCol + n][xindex] == row[startCol + xindex];
        mcuBuffer[blkn + xindex] := row[startCol + xindex];
        assert bs[..xindex + 1] == bs[..xindex] + [bs[xindex]];
      }
    }

    lemma RowRoom(c: ComponentInfo, blkn: nat, yindex: nat)
      requires Solid(c) && yindex < c.mcuHeight && blkn + c.mcuBlocks <= mcuBuffer.Length
      ensures blkn + yindex * c.mcuWidth + c.mcuWidth <= mcuBuffer.Length
      ensures (yindex + 1) * c.mcuWidth == yindex * c.mcuWidth + c.mcuWidth
    {
      MulMonotone(yindex + 1, c.mcuHeight, c.mcuWidth);
      Distribute(yindex, 1, c.mcuWidth);
    }

    lemma RowsNext(c: ComponentInfo, g: grid, r: nat, col: nat, n: nat)
      requires Fits(c, g) && Solid(c)
      ensures ComponentRows(c, g, r, col, 0) == []
      ensures ComponentRows(c, g, r, col, n + 1) ==
        ComponentRows(c, g, r, col, n) + SentRow(c, g, RowOfMcu(c, r, n), col)
    {
      hide CellRow;
    }

    /** One row more of a component's blocks. */
    method FillNextRow(ci: nat, next: nat, y: nat, col: nat)
      requires Setting() && Ready() && iMcuRowNum < total && ci < |cs| && col < mcusPerRow
        && next + cs[ci].mcuWidth <= mcuBuffer.Length
      requires cs[ci].componentIndex < |arrays| && Fits(cs[ci], arrays[cs[ci].componentIndex].g) && Solid(cs[ci])
      requires InStrip(cs[ci], iMcuRowNum, y) && (|cs| == 1 ==> y < cs[ci].heightInBlocks)
      modifies mcuBuffer
      ensures Ready() && mcuBuffer[..next + cs[ci].mcuWidth] == old(mcuBuffer[..next]) + SentRow(cs[ci],
        arrays[cs[ci].componentIndex].g, y, col)
    {
      hide Fits, SentRow, StartCol, Shows, Solid, Stored, FullImage.Setting, InStrip, CoefArray.Loaded, CoefArray.Valid;
      var c := cs[ci];
      var a := arrays[c.componentIndex];
      StoredRow(ci, y, col);
      FillRow(a.image[y], next, StartCol(c, col), c.mcuWidth, SentRow(c, a.g, y, col));
    }

    method FillComponent(ci: nat, blkn: nat, yoffset: nat, col: nat) returns (next: nat)
      requires Setting() && Ready() && AllFit(cs, Picture()) && iMcuRowNum < total
        && yoffset < RowsIn(cs, total, iMcuRowNum)
      requires ci < |cs| && col < mcusPerRow && blkn + cs[ci].mcuBlocks <= mcuBuffer.Length
      modifies mcuBuffer
      ensures Ready() && next == blkn + cs[ci].mcuBlocks
      ensures mcuBuffer[..next] == old(mcuBuffer[..blkn]) + ComponentRows(cs[ci], Picture()[ci], McuRowNum(yoffset),
        col, cs[ci].mcuHeight)
    {
      hide RowsIn, Membership, Fits, ScanTiles, TilesComponent, ComponentRows, SentRow, Solid, Stored, RowOfMcu,
        InStrip, FullImage.Ready;
      var c := cs[ci];
      FrameOf(ci);
      SolidBlocks(c);
      RowsNext(c, Picture()[ci], McuRowNum(yoffset), col, 0);
      next := blkn;
      for yindex := 0 to c.mcuHeight
        invariant next == blkn + yindex * c.mcuWidth <= mcuBuffer.Length && Ready()
        invariant mcuBuffer[..next] == old(mcuBuffer[..blkn]) + ComponentRows(c, Picture()[ci], McuRowNum(yoffset),
          col, yindex)
      {
        RowRoom(c, blkn, yindex);
        RowsNext(c, Picture()[ci], McuRowNum(yoffset), col, yindex);
        RowIs(ci, yoffset, yindex);
        FillNextRow(ci, next, iMcuRowNum * c.v + (yindex + yoffset), col);
        next := next + c.mcuWidth;
      }
    }

    lemma SolidBlocks(c: ComponentInfo)
      requires Solid(c)
      ensures c.mcuBlocks == c.mcuHeight * c.mcuWidth
    {
    }

    method FillMcu(yoffset: nat, col: nat) returns (blkn: nat)
      requires Setting() && Ready() && AllFit(cs, Picture()) && iMcuRowNum < total
        && yoffset < RowsIn(cs, total, iMcuRowNum) && col < mcusPerRow
      modifies mcuBuffer
      ensures Ready() && blkn <= mcuBuffer.Length && mcuBuffer[..blkn] == Mcu(cs, Picture(), McuRowNum(yoffset), col)
    {
      hide RowsIn, Membership, Cell, Fits, ScanTiles, TilesComponent, ComponentRows, McuBlocks, RowsBefore;
      ghost var r := McuRowNum(yoffset);
      blkn := 0;
      NoBlocks(r, col);
      for ci := 0 to |cs|
        invariant Ready() && blkn == |Membership(cs[..ci])| <= mcuBuffer.Length
        invariant mcuBuffer[..blkn] == McuBlocks(cs, Picture(), r, col, ci)
      {
        MembershipNext(cs, ci);
        MembershipGrows(cs, ci + 1);
        blkn := FillComponent(ci, blkn, yoffset, col);
        McuBlocksNext(cs, Picture(), r, col, ci + 1);
      }
      WholeMcu(cs, Picture(), r, col);
    }

    lemma NoBlocks(r: nat, col: nat)
      requires forall i :: 0 <= i < |cs| ==> cs[i].componentIndex < |arrays|
      requires AllFit(cs, Picture()) && AllSolid(cs)
      ensures McuBlocks(cs, Picture(), r, col, 0) == [] && Membership(cs[..0]) == []
    {
    }

    /** The MCUs of one row, from column mcuCtr on. */
    method SendMcuRow(yoffset: nat) returns (ok: bool)
      requires Setting() && Ready() && AllFit(cs, Picture()) && iMcuRowNum < total
        && yoffset < RowsIn(cs, total, iMcuRowNum) && mcuCtr < mcusPerRow
      requires SentUpTo(cs, Picture(), mcusPerRow, mcuRowsInScan, total, Position(iMcuRowNum, yoffset, mcuCtr),
        dest.mcus)
      modifies `mcuCtr, `mcuVertOffset, dest, mcuBuffer
      ensures Ready() && mcuCtr < mcusPerRow
      ensures |dest.answers| <= |old(dest.answers)| && (!ok ==> |dest.answers| < |old(dest.answers)|)
      ensures ok ==> mcuCtr == 0
      ensures ok ==> SentUpTo(cs, Picture(), mcusPerRow, mcuRowsInScan, total, Position(iMcuRowNum, yoffset + 1, 0),
        dest.mcus)
      ensures !ok ==> (mcuVertOffset == yoffset
        && SentUpTo(cs, Picture(), mcusPerRow, mcuRowsInScan, total, Here(), dest.mcus))
    {
      hide RowsIn, RowsBefore, Membership, ScanTiles, AllFit, AllSolid, Mcu, SentUpTo, FullImage.Setting,
        FullImage.Ready;
      Basics();
      var col := mcuCtr;
      while col < mcusPerRow
        invariant Ready() && col <= mcusPerRow && mcuCtr < mcusPerRow && |dest.answers| <= |old(dest.answers)|
        invariant SentUpTo(cs, Picture(), mcusPerRow, mcuRowsInScan, total, Position(iMcuRowNum, yoffset, col),
          dest.mcus)
      {
        var blkn := FillMcu(yoffset, col);
        McuSent(cs, Picture(), mcusPerRow, mcuRowsInScan, total, Position(iMcuRowNum, yoffset, col), dest.mcus);
        ok := dest.EncodeMcu(mcuBuffer[..blkn]);
        if !ok {
          mcuVertOffset, mcuCtr := yoffset, col;
          return;
        }
        col := col + 1;
      }
      RowSent(cs, Picture(), mcusPerRow, mcuRowsInScan, total, Position(iMcuRowNum, yoffset, col), dest.mcus);
      mcuCtr := 0;
      ok := true;
    }

    /** compress_output: one iMCU row, or as much of it as the encoder takes. */
    method CompressOutput() returns (done: bool)
      requires Valid() && iMcuRowNum < total && Ready()
      modifies `iMcuRowNum, `mcuCtr, `mcuVertOffset, `mcuRowsPerIMcuRow, dest, mcuBuffer
      ensures Valid() && iMcuRowNum == old(iMcuRowNum) + (if done then 1 else 0)
      ensures done ==> mcuCtr == mcuVertOffset == 0
      ensures |dest.answers| <= |old(dest.answers)| && (!done ==> |dest.answers| < |old(dest.answers)|)
      ensures !done ==> Ready()
    {
      hide RowsIn, RowsBefore, Membership, ScanTiles, AllFit, AllSolid, Mcu, SentUpTo, FullImage.Setting,
        FullImage.Ready;
      ghost var k := iMcuRowNum;
      var yoffset := mcuVertOffset;
      Basics();
      while yoffset < mcuRowsPerIMcuRow
        invariant Ready() && iMcuRowNum == k && mcuRowsPerIMcuRow == RowsIn(cs, total, k)
          && |dest.answers| <= |old(dest.answers)|
        invariant yoffset <= mcuRowsPerIMcuRow && mcuCtr < mcusPerRow && (yoffset == mcuRowsPerIMcuRow ==> mcuCtr == 0)
        invariant SentUpTo(cs, Picture(), mcusPerRow, mcuRowsInScan, total, Position(k, yoffset, mcuCtr), dest.mcus)
      {
        var ok := SendMcuRow(yoffset);
        if !ok {
          return false;
        }
        yoffset := yoffset + 1;
      }
      IMcuRowSent(cs, Picture(), mcusPerRow, mcuRowsInScan, total, k, dest.mcus);
      StartsInside();
      iMcuRowNum := iMcuRowNum + 1;
      StartIMcuRow();
      done := true;
    }

    lemma Basics()
      requires Setting()
      ensures ScanTiles(cs, mcusPerRow, mcuRowsInScan, total) && |cs| > 0 && cs[0].v > 0 && AllSolid(cs)
        && |Membership(cs)| <= C_MAX_BLOCKS_IN_MCU
      ensures forall i :: 0 <= i < |cs| ==> cs[i].componentIndex < |arrays|
    {
    }

    // ----- whole passes

    /** The first n iMCU rows of every component are stored. */
    ghost predicate AllLoaded(n: nat)
      reads set i | 0 <= i < |arrays| :: arrays[i].image
    {
      forall i :: 0 <= i < |arrays| ==> arrays[i].Valid() && arrays[i].total == total && arrays[i].Loaded(n)
    }

    ghost predicate Apart()
    {
      forall i, j :: 0 <= i < j < |arrays| ==> arrays[i].image != arrays[j].image
    }

    ghost predicate Strips(input: seq<grid>, k: nat)
    {
      |input| == |arrays| && forall i :: 0 <= i < |arrays| ==> arrays[i].TakesStrip(k, input[i])
    }

    lemma IsReady()
      requires Setting() && iMcuRowNum < total && (AllLoaded(iMcuRowNum + 1) || AllLoaded(total))
      ensures Ready()
    {
      hide ScanTiles, Membership, AllSolid, RoundUp, InFrame, CoefArray.RowOf;
      forall i | 0 <= i < |cs|
        ensures arrays[cs[i].componentIndex].Valid() && arrays[cs[i].componentIndex].Loaded(iMcuRowNum + 1) {
        var a := arrays[cs[i].componentIndex];
        MulMonotone(iMcuRowNum + 1, total, a.c.v);
      }
    }

    /** compress_first_pass: an iMCU row is stored, then sent like any other. */
    method CompressFirstPass(input: seq<grid>) returns (done: bool)
      requires Valid() && iMcuRowNum < total && AllLoaded(iMcuRowNum) && Apart() && Strips(input, iMcuRowNum)
      modifies `iMcuRowNum, `mcuCtr, `mcuVertOffset, `mcuRowsPerIMcuRow, dest, mcuBuffer,
        set i | 0 <= i < |arrays| :: arrays[i].image
      ensures Valid() && iMcuRowNum == old(iMcuRowNum) + (if done then 1 else 0) && AllLoaded(old(iMcuRowNum) + 1)
      ensures done ==> mcuCtr == mcuVertOffset == 0
      ensures |dest.answers| <= |old(dest.answers)| && (!done ==> |dest.answers| < |old(dest.answers)|)
    {
      hide FullImage.Setting, SentUpTo, AllFit, RowsIn, CoefArray.Valid, CoefArray.Loaded, IsStrip, Fits, InFrame;
      LoadStrips(input);
      IsReady();
      done := CompressOutput();
    }

    /** After a pass the MCUs sent are those of a single-pass controller. */
    lemma AllSent()
      requires Valid() && iMcuRowNum == total && mcuVertOffset == mcuCtr == 0
      ensures dest.mcus == Raster(cs, Picture(), mcusPerRow, mcuRowsInScan)
    {
      hide Raster, Mcu;
    }

    lemma LoadedBefore(k: nat)
      requires AllLoaded(k + 1)
      ensures AllLoaded(k)
    {
      forall i | 0 <= i < |arrays| ensures arrays[i].Loaded(k) {
        MulMonotone(k, k + 1, arrays[i].c.v);
      }
    }

    /** The first pass over an image whose iMCU rows are `inputs`: it leaves every block
        stored. */
    method SendFirstPass(inputs: seq<seq<grid>>)
      requires Valid() && Here() == Position(0, 0, 0) && AllLoaded(0) && Apart()
      requires |inputs| == total && forall k :: 0 <= k < total ==> Strips(inputs[k], k)
      modifies `iMcuRowNum, `mcuCtr, `mcuVertOffset, `mcuRowsPerIMcuRow, dest, mcuBuffer,
        set i | 0 <= i < |arrays| :: arrays[i].image
      ensures Setting() && AllLoaded(total) && AllFit(cs, Picture())
      ensures dest.mcus == Raster(cs, Picture(), mcusPerRow, mcuRowsInScan)
    {
      hide FullImage.Valid, FullImage.Setting, FullImage.Strips, FullImage.AllLoaded, FullImage.Apart, AllFit, Raster;
      while iMcuRowNum < total
        invariant Valid() && iMcuRowNum <= total && AllLoaded(iMcuRowNum)
        invariant iMcuRowNum == total ==> mcuCtr == mcuVertOffset == 0
        decreases total - iMcuRowNum + |dest.answers|
      {
        ghost var k := iMcuRowNum;
        var done := CompressFirstPass(inputs[iMcuRowNum]);
        if !done {
          LoadedBefore(k);
        }
      }
      PassSent();
    }

    /** A further pass. */
    method SendPass()
      requires Valid() && Here() == Position(0, 0, 0) && AllLoaded(total)
      modifies `iMcuRowNum, `mcuCtr, `mcuVertOffset, `mcuRowsPerIMcuRow, dest, mcuBuffer
      ensures Setting() && AllLoaded(total) && AllFit(cs, Picture())
      ensures dest.mcus == Raster(cs, Picture(), mcusPerRow, mcuRowsInScan)
    {
      hide FullImage.Valid, FullImage.Setting, FullImage.AllLoaded, AllFit, Raster;
      while iMcuRowNum < total
        invariant Valid() && iMcuRowNum <= total && AllLoaded(total)
        invariant iMcuRowNum == total ==> mcuCtr == mcuVertOffset == 0
        decreases total - iMcuRowNum + |dest.answers|
      {
        HasSetting();
        IsReady();
        var done := CompressOutput();
      }
      PassSent();
    }

    lemma HasSetting()
      requires Valid()
      ensures Setting() && iMcuRowNum <= total
    {
    }

    lemma PassSent()
      requires Valid() && iMcuRowNum == total && mcuVertOffset == mcuCtr == 0
      ensures Setting() && AllFit(cs, Picture()) && dest.mcus == Raster(cs, Picture(), mcusPerRow, mcuRowsInScan)
    {
      AllSent();
    }
  }
}
