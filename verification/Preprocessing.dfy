/**
 The preprocessing controller (jcprepct.c): colour conversion and downsampling of row
 groups, padding the image at its edges.  With context rows the conversion buffer is a
 ring of three row groups, seen through an array of row pointers that wraps around.
 */
module Preprocessing {
  import opened Bytes
  import opened Nonlinear

  type scanline = seq<byte>        // one row of pixels as the application gives it
  type line = seq<seq<byte>>       // that row in every component after conversion
  type group = seq<seq<seq<byte>>> // a row group: in every component, its sample rows

  /** Every row of the group becomes a copy of its last row. */
  function LastRows(g: group): group
  {
    seq(|g|, ci requires 0 <= ci < |g| => Last(g[ci]))
  }

  function Last(rows: seq<seq<byte>>): seq<seq<byte>>
  {
    if rows == [] then [] else seq(|rows|, _ => rows[|rows| - 1])
  }

  function Clamp(a: int, h: nat): nat
    requires h > 0
  {
    if a < 0 then 0 else if a >= h then h - 1 else a
  }

  /** What a colour converter and a downsampler do. */
  datatype Stages = Stages(convert: scanline -> line, downsample: seq<line> -> group)

  /** The image as it should look to the downsampler: clamped at its edges. */
  function Want(s: Stages, image: seq<scanline>, a: int): line
    requires |image| > 0
  {
    s.convert(image[Clamp(a, |image|)])
  }

  function Window(s: Stages, image: seq<scanline>, a: int, n: nat): (w: seq<line>)
    requires |image| > 0
    ensures |w| == n
  {
    seq(n, i requires 0 <= i < n && |image| > 0 => Want(s, image, a + i))
  }

  /** Row group g with context: a row group more on either side. */
  function ContextGroup(s: Stages, image: seq<scanline>, r: nat, g: nat): group
    requires |image| > 0
  {
    s.downsample(Window(s, image, g * r - r, 3 * r))
  }

  /** Row group g without context.  Groups below the image repeat the last row of the
      last group that has a row of the image. */
  function PlainGroup(s: Stages, image: seq<scanline>, r: nat, g: nat): group
    requires |image| > 0 && r > 0
  {
    if g * r < |image| then s.downsample(Window(s, image, g * r, r))
    else LastRows(s.downsample(Window(s, image, (|image| - 1) / r * r, r)))
  }

  function WantGroup(s: Stages, image: seq<scanline>, r: nat, context: bool, g: nat): group
    requires |image| > 0 && r > 0
  {
    if context then ContextGroup(s, image, r, g) else PlainGroup(s, image, r, g)
  }

  /** The downsampler sees, for row group g of r rows, the image rows from (g - 1)r to
      (g + 2)r - 1 with context and from gr to (g + 1)r - 1 without; the first row stands for
      rows above the image and the last one for rows below it. */
  lemma DownsamplerSees(s: Stages, image: seq<scanline>, r: nat, context: bool, g: nat, w: seq<line>)
    requires |image| > 0 && r > 0 && (context || g * r < |image|)
    requires |w| == (if context then 3 * r else r)
    requires forall i :: 0 <= i < |w| ==> var y := (if context then g * r - r else g * r) + i;
      w[i] == s.convert(if y < 0 then image[0] else if y < |image| then image[y] else image[|image| - 1])
    ensures WantGroup(s, image, r, context, g) == s.downsample(w)
  {
    var a := if context then g * r - r else g * r;
    var v := Window(s, image, a, |w|);
    forall i | 0 <= i < |w| ensures w[i] == v[i] {
      assert v[i] == Want(s, image, a + i);
    }
    assert w == v;
  }

  /** Without context, a group below the image repeats the last row of the group that holds
      the last row of the image. */
  lemma BelowTheImage(s: Stages, image: seq<scanline>, r: nat, g: nat, last: nat)
    requires |image| > 0 && r > 0 && g * r >= |image| && last * r < |image| <= (last + 1) * r
    ensures var sent, below := WantGroup(s, image, r, false, last), WantGroup(s, image, r, false, g);
      |below| == |sent| && forall ci :: 0 <= ci < |sent| ==>
        |below[ci]| == |sent[ci]| && forall y :: 0 <= y < |sent[ci]| ==> below[ci][y] == sent[ci][|sent[ci]| - 1]
  {
    var h := |image|;
    Distribute(last, 1, r);
    DivisionUnique(h - 1, r, last, h - 1 - last * r);
  }

  /** The real row behind row u of a ring of n rows, one third above and below. */
  function Wrap(u: int, n: nat): int
  {
    if u < 0 then u + n else if u >= n then u - n else u
  }

  /** Rows from..to of the ring hold the image rows of the lap that began at `lap`. */
  ghost predicate Ring(rows: seq<line>, r: nat, s: Stages, image: seq<scanline>, lap: int, from: int, to: int)
    requires |image| > 0 && |rows| == 3 * r && 0 - r <= from && to <= 4 * r
  {
    forall u :: from <= u < to ==> rows[Wrap(u, 3 * r)] == Want(s, image, lap + u)
  }

  /** n rows are stored behind row t. */
  lemma RingTakes(before: seq<line>, after: seq<line>, r: nat, s: Stages, image: seq<scanline>, lap: int, from: int,
      t: int, n: nat)
    requires |image| > 0 && |before| == |after| == 3 * r && 0 - r <= from <= t && t + n <= from + 3 * r
      && t + n <= 4 * r && t >= 0
    requires t < 3 * r ==> t + n <= 3 * r
    requires Ring(before, r, s, image, lap, from, t)
    requires var b := Wrap(t, 3 * r); forall v :: 0 <= v < 3 * r ==>
      after[v] == if b <= v < b + n then Want(s, image, lap + t + (v - b)) else before[v]
    ensures Ring(after, r, s, image, lap, from, t + n)
  {
    hide Want;
    var b := Wrap(t, 3 * r);
    forall u | from <= u < t + n ensures after[Wrap(u, 3 * r)] == Want(s, image, lap + u) {
      if u < t {
        assert before[Wrap(u, 3 * r)] == Want(s, image, lap + u);
      }
    }
  }

  /** The ring begins a new lap. */
  lemma RingTurns(rows: seq<line>, r: nat, s: Stages, image: seq<scanline>, lap: int, to: int)
    requires |image| > 0 && |rows| == 3 * r && 3 * r <= to <= 4 * r && Ring(rows, r, s, image, lap, r, to)
    ensures Ring(rows, r, s, image, lap + 3 * r, 0 - r, to - 3 * r)
  {
    hide Want;
    forall u | 0 - r <= u < to - 3 * r ensures rows[Wrap(u, 3 * r)] == Want(s, image, lap + 3 * r + u) {
      assert rows[Wrap(u + 3 * r, 3 * r)] == Want(s, image, lap + (u + 3 * r));
    }
  }

  lemma RingPart(rows: seq<line>, r: nat, s: Stages, image: seq<scanline>, lap: int, from: int, from': int, to: int)
    requires |image| > 0 && |rows| == 3 * r && 0 - r <= from <= from' && to <= 4 * r
      && Ring(rows, r, s, image, lap, from, to)
    ensures Ring(rows, r, s, image, lap, from', to)
  {
  }

  class Prep {
    const stages: Stages
    const maxV: nat               // rows in a row group
    const context: bool
    const imageHeight: nat
    const rows: array<line>       // the conversion buffer
    const pointers: array<nat>    // row pointers into it
    var rowsToGo: nat
    var nextBufRow: nat
    var thisRowGroup: nat
    var nextBufStop: nat
    ghost const image: seq<scanline>
    ghost var groups: nat         // row groups given out
    ghost var lap: int            // image row of ring row 0
    ghost var filled: nat         // rows stored, with padding
    ghost var converted: seq<scanline>

    /** What does not change. */
    ghost predicate Setting()
      reads pointers
    {
      && maxV > 0 && |image| == imageHeight > 0 && rows.Length == (if context then 3 * maxV else maxV)
      && pointers.Length == (if context then 5 * maxV else maxV)
      && forall p :: 0 <= p < pointers.Length ==> pointers[p] == if context then Wrap(p - maxV, 3 * maxV) else p
    }

    ghost predicate Counted()
      reads this
    {
      rowsToGo <= imageHeight == |image| && converted == image[..imageHeight - rowsToGo]
    }

    /** Without context: the rows of the current group stored so far. */
    ghost predicate PlainState()
      requires |image| > 0 && maxV > 0
      reads this, rows
    {
      && nextBufRow < maxV <= rows.Length
      && (rowsToGo > 0 ==> imageHeight - rowsToGo == groups * maxV + nextBufRow)
      && (rowsToGo == 0 ==> nextBufRow == 0 && groups * maxV >= imageHeight)
      && forall i :: 0 <= i < nextBufRow ==> rows[i] == Want(stages, image, groups * maxV + i)
    }

    /** With context: the ring holds the group before the current one and all rows after
        that as far as they are stored. */
    ghost predicate RingState()
      requires |image| > 0
      reads this, rows
    {
      && RingCounters() && rows.Length == 3 * maxV
      && (rowsToGo > 0 ==> filled == imageHeight - rowsToGo) && (rowsToGo == 0 ==> filled >= imageHeight)
      && RingHolds(thisRowGroup - maxV, filled - lap)
    }

    ghost predicate RingCounters()
      reads this
    {
      && (thisRowGroup == 0 || thisRowGroup == maxV || thisRowGroup == 2 * maxV) && lap + thisRowGroup == groups * maxV
      && (if groups == 0 then 0 else thisRowGroup + maxV) <= filled - lap <= thisRowGroup + 2 * maxV
      && nextBufStop == (if thisRowGroup == 2 * maxV then maxV else thisRowGroup + 2 * maxV)
      && nextBufStop - nextBufRow == thisRowGroup + 2 * maxV - (filled - lap)
      && (groups == 0 ==> thisRowGroup == lap == 0)
    }

    /** Ring rows from..to hold the image rows of this lap, once there are any. */
    ghost predicate RingHolds(from: int, to: int)
      requires |image| > 0 && rows.Length == 3 * maxV && 0 - maxV <= from && to <= 4 * maxV
      reads this, rows
    {
      filled > 0 ==> Ring(rows[..], maxV, stages, image, lap, from, to)
    }

    ghost predicate Valid()
      reads this, rows, pointers
    {
      Setting() && Counted() && (if context then RingState() && nextBufRow < nextBufStop else PlainState())
    }

    /** create_context_buffer: five row groups of pointers to three of rows. */
    static method CreateContextBuffer(maxV: nat) returns (fake: array<nat>)
      ensures fresh(fake) && fake.Length == 5 * maxV
      ensures forall p :: 0 <= p < fake.Length ==> fake[p] == Wrap(p - maxV, 3 * maxV)
    {
      fake := new nat[5 * maxV];
      for i := 0 to 3 * maxV
        invariant forall p :: maxV <= p < maxV + i ==> fake[p] == p - maxV
      {
        fake[maxV + i] := i;
      }
      for i := 0 to maxV
        invariant forall p :: maxV <= p < 4 * maxV ==> fake[p] == p - maxV
        invariant forall p :: 0 <= p < i ==> fake[p] == 2 * maxV + p
        invariant forall p :: 4 * maxV <= p < 4 * maxV + i ==> fake[p] == p - 4 * maxV
      {
        fake[i] := 2 * maxV + i;
        fake[4 * maxV + i] := i;
      }
    }

    /** jinit_c_prep_controller and start_pass_prep. */
    constructor (stages: Stages, maxV: nat, context: bool, ghost image: seq<scanline>, height: nat)
      requires maxV > 0 && |image| == height > 0
      ensures Valid() && fresh(rows) && fresh(pointers) && groups == 0 && rowsToGo == height
      ensures this.stages == stages && this.maxV == maxV && this.context == context && this.image == image
    {
      this.stages, this.maxV, this.context, this.image, imageHeight := stages, maxV, context, image, height;
      if context {
        var fake := Prep.CreateContextBuffer(maxV);
        pointers := fake;
      } else {
        pointers := new nat[maxV](i => i);
      }
      rows := new line[if context then 3 * maxV else maxV](_ => []);
      rowsToGo := height;
      nextBufRow := 0;
      thisRowGroup := 0;
      nextBufStop := 2 * maxV;
      groups, lap, filled, converted := 0, 0, 0, [];
      new;
      assert image[..0] == [];
    }

    /** Row u of the conversion buffer as code sees it, from one row group above it to
        one below when there is context. */
    function At(u: int): nat
      requires Setting() && if context then 0 - maxV <= u < 4 * maxV else 0 <= u < maxV
      reads pointers
      ensures At(u) < rows.Length && At(u) == if context then Wrap(u, 3 * maxV) else u
    {
      pointers[if context then maxV + u else u]
    }

    /** color_convert of n rows into the buffer from row nextBufRow on. */
    method ColorConvert(input: seq<scanline>, from: nat, n: nat)
      requires Setting() && Counted() && n <= rowsToGo && from + n <= |input| && nextBufRow + n <= rows.Length
      requires input[from..from + n] == image[imageHeight - rowsToGo..imageHeight - rowsToGo + n]
      modifies rows, `converted
      ensures forall u :: 0 <= u < rows.Length && !(nextBufRow <= u < nextBufRow + n) ==> rows[u] == old(rows[u])
      ensures forall u :: (nextBufRow <= u < nextBufRow + n
        ==> rows[u] == Want(stages, image, imageHeight - rowsToGo + (u - nextBufRow)))
      ensures converted == image[..imageHeight - rowsToGo + n]
    {
      for i := 0 to n
        invariant forall u :: 0 <= u < rows.Length && !(nextBufRow <= u < nextBufRow + i) ==> rows[u] == old(rows[u])
        invariant forall u :: (nextBufRow <= u < nextBufRow + i
          ==> rows[u] == Want(stages, image, imageHeight - rowsToGo + (u - nextBufRow)))
        invariant converted == image[..imageHeight - rowsToGo + i]
      {
        assert input[from + i] == input[from..from + n][i] == image[imageHeight - rowsToGo + i];
        rows[At(nextBufRow + i)] := stages.convert(input[from + i]);
        converted := converted + [input[from + i]];
      }
    }

    /** expand_bottom_edge of the conversion buffer. */
    method ExpandBottomEdge(inputRows: nat, outputRows: nat)
      requires Setting() && inputRows <= outputRows <= (if context then 3 * maxV else maxV)
        && (!context ==> inputRows > 0)
      modifies rows
      ensures forall u :: 0 <= u < rows.Length && !(inputRows <= u < outputRows) ==> rows[u] == old(rows[u])
      ensures forall u :: inputRows <= u < outputRows ==>
        rows[u] == old(rows[if inputRows > 0 then inputRows - 1 else rows.Length - 1])
    {
      for row := inputRows to outputRows
        invariant forall u :: 0 <= u < rows.Length && !(inputRows <= u < row) ==> rows[u] == old(rows[u])
        invariant forall u :: inputRows <= u < row ==>
          rows[u] == old(rows[if inputRows > 0 then inputRows - 1 else rows.Length - 1])
      {
        rows[At(row)] := rows[At(inputRows - 1)];
      }
    }

    /** The first n row groups of the output buffer are those from group `base` on. */
    ghost predicate Outputs(output: array<group>, n: nat, base: nat)
      requires maxV > 0 && |image| > 0 && n <= output.Length
      reads output
    {
      forall j :: 0 <= j < n ==> output[j] == WantGroup(stages, image, maxV, context, base + j)
    }

    /** The input from row ctr to row avail comes next in the image. */
    ghost predicate ComesNext(input: seq<scanline>, ctr: nat, avail: nat)
      requires Counted()
      reads this
    {
      ctr < avail ==>
        avail <= |input| && avail - ctr <= rowsToGo
          && input[ctr..avail] == image[imageHeight - rowsToGo..][..avail - ctr]
    }

    // ----- with context

    /** Copies of the first row in the row group above it. */
    method PadTop()
      requires Setting() && context
      modifies rows
      ensures forall u :: 0 <= u < 2 * maxV ==> rows[u] == old(rows[u])
      ensures forall u :: 2 * maxV <= u < 3 * maxV ==> rows[u] == rows[0]
    {
      for row := 1 to maxV + 1
        invariant forall u :: 0 <= u < 2 * maxV ==> rows[u] == old(rows[u])
        invariant forall u :: 3 * maxV - row < u < 3 * maxV ==> rows[u] == rows[0]
      {
        rows[At(-row)] := rows[At(0)];
      }
    }

    /** Convert n rows; before the first row of the image come copies of it. */
    method StoreRows(input: seq<scanline>, ctr: nat, n: nat)
      requires Setting() && context && Counted() && RingState() && 0 < n <= nextBufStop - nextBufRow && n <= rowsToGo
        && ctr + n <= |input|
      requires input[ctr..ctr + n] == image[imageHeight - rowsToGo..imageHeight - rowsToGo + n]
      modifies rows, `converted
      ensures converted == image[..imageHeight - rowsToGo + n]
      ensures Ring(rows[..], maxV, stages, image, lap, thisRowGroup - maxV, filled - lap + n)
    {
      hide Want, Wrap, Ring;
      ghost var before := rows[..];
      ColorConvert(input, ctr, n);
      if rowsToGo == imageHeight {
        PadTop();
        FirstRows(rows[..], n);
      } else {
        MoreRows(before, rows[..], n);
      }
    }

    /** Rows stored behind those that are there. */
    lemma MoreRows(before: seq<line>, after: seq<line>, n: nat)
      requires |image| > 0 && maxV > 0 && RingCounters() && 0 < n <= nextBufStop - nextBufRow
        && |before| == |after| == 3 * maxV
      requires rowsToGo <= imageHeight && filled == imageHeight - rowsToGo > 0
      requires Ring(before, maxV, stages, image, lap, thisRowGroup - maxV, filled - lap)
      requires forall v :: 0 <= v < 3 * maxV && !(nextBufRow <= v < nextBufRow + n) ==> after[v] == before[v]
      requires forall v :: (nextBufRow <= v < nextBufRow + n
        ==> after[v] == Want(stages, image, imageHeight - rowsToGo + (v - nextBufRow)))
      ensures Ring(after, maxV, stages, image, lap, thisRowGroup - maxV, filled - lap + n)
    {
      hide Want, Wrap, Ring;
      BufferRowIs();
      RingTakes(before, after, maxV, stages, image, lap, thisRowGroup - maxV, filled - lap, n);
    }

    method TakeRows(input: seq<scanline>, ctr: nat, n: nat)
      requires Setting() && context && Counted() && RingState() && 0 < n <= nextBufStop - nextBufRow && n <= rowsToGo
        && ctr + n <= |input|
      requires input[ctr..ctr + n] == image[imageHeight - rowsToGo..imageHeight - rowsToGo + n]
      modifies this, rows
      ensures Setting() && Counted() && RingState() && rowsToGo == old(rowsToGo) - n && groups == old(groups)
      ensures nextBufRow == old(nextBufRow) + n && nextBufStop == old(nextBufStop)
    {
      hide Ring;
      StoreRows(input, ctr, n);
      nextBufRow := nextBufRow + n;
      rowsToGo := rowsToGo - n;
      filled := filled + n;
    }

    /** The next row to store, seen from the ring. */
    lemma BufferRowIs()
      requires RingCounters() && nextBufRow < nextBufStop
      ensures 0 <= filled - lap && nextBufRow == Wrap(filled - lap, 3 * maxV)
      ensures filled - lap < 3 * maxV ==> filled - lap + (nextBufStop - nextBufRow) <= 3 * maxV
    {
    }

    /** The first rows of the image and what comes before them. */
    lemma FirstRows(ring: seq<line>, n: nat)
      requires |image| > 0 && 0 < n <= 2 * maxV && |ring| == 3 * maxV
      requires forall u :: 0 <= u < n ==> ring[u] == Want(stages, image, u)
      requires forall u :: 2 * maxV <= u < 3 * maxV ==> ring[u] == ring[0]
      ensures Ring(ring, maxV, stages, image, 0, 0 - maxV, n)
    {
      TopIsClamped();
      hide Want;
      forall u | 0 - maxV <= u < n ensures ring[Wrap(u, 3 * maxV)] == Want(stages, image, 0 + u) {
      }
    }

    lemma TopIsClamped()
      requires |image| > 0
      ensures forall a :: a < 0 ==> Want(stages, image, a) == Want(stages, image, 0)
    {
    }

    /** At the bottom of the image the last row is repeated. */
    method PadBottom()
      requires Setting() && context && Counted() && RingState() && rowsToGo == 0 && nextBufRow < nextBufStop
      modifies this, rows
      ensures Setting() && Counted() && RingState() && rowsToGo == 0 && groups == old(groups)
      ensures nextBufRow == nextBufStop
    {
      hide Want, Wrap, Ring;
      ghost var t, before := filled - lap, rows[..];
      BufferRowIs();
      LastStored();
      ExpandBottomEdge(nextBufRow, nextBufStop);
      BottomIsClamped();
      RingTakes(before, rows[..], maxV, stages, image, lap, thisRowGroup - maxV, t, nextBufStop - nextBufRow);
      filled := filled + (nextBufStop - nextBufRow);
      nextBufRow := nextBufStop;
    }

    /** The row before the next one to store is the last row of the image. */
    lemma LastStored()
      requires |image| > 0 && context && RingState() && filled >= |image| && maxV > 0
      requires nextBufRow < nextBufStop
      ensures rows[if nextBufRow > 0 then nextBufRow - 1 else rows.Length - 1] == Want(stages, image, filled - 1)
    {
      hide Want;
      var u := filled - lap - 1;
      assert rows[..][Wrap(u, 3 * maxV)] == Want(stages, image, lap + u);
    }

    lemma BottomIsClamped()
      requires |image| > 0
      ensures forall a :: a >= |image| - 1 ==> Want(stages, image, a) == Want(stages, image, |image| - 1)
    {
    }

    /** The row group and its context, read through the pointers. */
    method ReadContext() returns (window: seq<line>)
      requires Setting() && context && RingState() && nextBufRow == nextBufStop && filled > 0
      ensures window == Window(stages, image, groups * maxV - maxV, 3 * maxV)
    {
      hide Want;
      window := [];
      for i := 0 to 3 * maxV
        invariant window == Window(stages, image, groups * maxV - maxV, i)
      {
        var u := thisRowGroup - maxV + i;
        assert rows[..][Wrap(u, 3 * maxV)] == Want(stages, image, lap + u);
        window := window + [rows[At(u)]];
      }
    }

    /** Downsample a row group and move on around the ring. */
    method PutContextGroup(output: array<group>, outCtr: nat)
      requires Setting() && context && Counted() && RingState() && nextBufRow == nextBufStop && outCtr < output.Length
      requires outCtr <= groups && Outputs(output, outCtr, groups - outCtr)
      modifies this, output
      ensures Valid() && groups == old(groups) + 1 && rowsToGo == old(rowsToGo)
      ensures Outputs(output, outCtr + 1, groups - (outCtr + 1))
    {
      hide Want, Window, Ring;
      var window := ReadContext();
      output[outCtr] := stages.downsample(window);
      AdvancePointers();
    }

    /** Advance pointers with wraparound as necessary. */
    method AdvancePointers()
      requires Setting() && context && Counted() && RingState() && nextBufRow == nextBufStop && filled > 0
      modifies `thisRowGroup, `nextBufRow, `nextBufStop, `lap, `groups
      ensures Valid() && groups == old(groups) + 1
    {
      hide Want, Ring;
      ghost var ring := rows[..];
      RingPart(ring, maxV, stages, image, lap, thisRowGroup - maxV, thisRowGroup, filled - lap);
      if thisRowGroup == 2 * maxV {
        RingPart(ring, maxV, stages, image, lap, thisRowGroup - maxV, maxV, filled - lap);
        RingTurns(ring, maxV, stages, image, lap, filled - lap);
      }
      thisRowGroup := thisRowGroup + maxV;
      if thisRowGroup >= 3 * maxV {
        thisRowGroup := 0;
        lap := lap + 3 * maxV;
      }
      if nextBufRow >= 3 * maxV {
        nextBufRow := 0;
      }
      nextBufStop := nextBufRow + maxV;
      Distribute(groups, 1, maxV);
      groups := groups + 1;
    }

    /** Taking n rows of the input leaves the rest of the image. */
    lemma RestComesNext(input: seq<scanline>, ctr: nat, n: nat, avail: nat, gone: nat)
      requires gone + (avail - ctr) <= |image| && ctr + n <= avail <= |input|
        && input[ctr..avail] == image[gone..][..avail - ctr]
      ensures input[ctr..ctr + n] == image[gone..gone + n]
      ensures input[ctr + n..avail] == image[gone + n..][..avail - (ctr + n)]
    {
      assert input[ctr..ctr + n] == input[ctr..avail][..n];
      assert input[ctr + n..avail] == input[ctr..avail][n..];
    }

    /** What a call of either preprocessing routine has done. */
    twostate predicate Progressed(inCtr: nat, inCtr': nat, avail: nat, outCtr: nat, outCtr': nat, outAvail: nat)
      reads this
    {
      && inCtr <= inCtr' && inCtr' <= (if avail < inCtr then inCtr else avail) && outCtr <= outCtr' <= outAvail
      && rowsToGo == old(rowsToGo) - (inCtr' - inCtr) && groups == old(groups) + (outCtr' - outCtr)
      && (outCtr' < outAvail ==> inCtr' >= avail && rowsToGo > 0)
      && (outCtr < outCtr' && old(rowsToGo) > 0 ==> inCtr < inCtr')
    }

    /** Take as many rows as there are and as fit. */
    method TakeInput(input: seq<scanline>, inCtr: nat, avail: nat) returns (inCtr': nat)
      requires Valid() && context && ComesNext(input, inCtr, avail) && inCtr < avail
      modifies this, rows
      ensures Setting() && Counted() && RingState() && nextBufRow <= nextBufStop && ComesNext(input, inCtr', avail)
      ensures rowsToGo == old(rowsToGo) - (inCtr' - inCtr) && groups == old(groups) && inCtr < inCtr' <= avail
    {
      hide Prep.RingState, Prep.Setting;
      Positive();
      var inrows := avail - inCtr;
      var numrows := nextBufStop - nextBufRow;
      numrows := if numrows < inrows then numrows else inrows;
      RestComesNext(input, inCtr, numrows, avail, imageHeight - rowsToGo);
      TakeRows(input, inCtr, numrows);
      inCtr' := inCtr + numrows;
    }

    /** Take rows, or pad at the bottom of the image.  It waits when rows are missing that
        the image still has. */
    method FillBuffer(input: seq<scanline>, inCtr: nat, avail: nat) returns (wait: bool, inCtr': nat)
      requires Valid() && context && ComesNext(input, inCtr, avail)
      modifies this, rows
      ensures Setting() && Counted() && RingState() && nextBufRow <= nextBufStop && ComesNext(input, inCtr', avail)
      ensures rowsToGo == old(rowsToGo) - (inCtr' - inCtr) && groups == old(groups)
      ensures wait ==> inCtr' == inCtr && inCtr >= avail && rowsToGo > 0 && nextBufRow < nextBufStop
      ensures !wait ==> if inCtr < avail then inCtr < inCtr' <= avail else inCtr' == inCtr && nextBufRow == nextBufStop
      ensures !wait && inCtr >= avail ==> old(rowsToGo) == 0
    {
      hide Prep.RingState, Prep.Setting;
      wait, inCtr' := false, inCtr;
      if inCtr < avail {
        inCtr' := TakeInput(input, inCtr, avail);
      } else {
        if rowsToGo != 0 {
          wait := true;
          return;
        }
        if nextBufRow < nextBufStop {
          PadBottom();
        }
      }
    }

    /** One round of pre_process_context: a row group is given out if there are enough
        rows. */
    method ContextRound(input: seq<scanline>, inCtr: nat, avail: nat, output: array<group>, outCtr: nat)
      returns (wait: bool, inCtr': nat, outCtr': nat)
      requires Valid() && context && ComesNext(input, inCtr, avail)
      requires outCtr <= groups && outCtr < output.Length && Outputs(output, outCtr, groups - outCtr)
      modifies this, rows, output
      ensures Valid() && ComesNext(input, inCtr', avail)
      ensures outCtr' <= groups && outCtr' <= output.Length && Outputs(output, outCtr', groups - outCtr')
      ensures rowsToGo == old(rowsToGo) - (inCtr' - inCtr) && groups == old(groups) + (outCtr' - outCtr)
      ensures wait ==> inCtr' == inCtr && outCtr' == outCtr && inCtr >= avail && rowsToGo > 0
      ensures !wait ==> (outCtr <= outCtr' <= outCtr + 1
        && if inCtr < avail then inCtr < inCtr' <= avail else inCtr' == inCtr && outCtr' == outCtr + 1)
      ensures !wait && inCtr >= avail ==> old(rowsToGo) == 0
    {
      hide Ring, Want, WantGroup, Wrap, Prep.RingState, Prep.Setting;
      Positive();
      outCtr' := outCtr;
      wait, inCtr' := FillBuffer(input, inCtr, avail);
      if !wait && nextBufRow == nextBufStop {
        PutContextGroup(output, outCtr);
        outCtr' := outCtr + 1;
      }
    }

    lemma Positive()
      requires Setting()
      ensures maxV > 0 && |image| == imageHeight > 0
    {
    }

    /** pre_process_context. */
    method PreProcessContext(input: seq<scanline>, inRowCtr: nat, avail: nat, output: array<group>, outRowCtr: nat,
        outAvail: nat)
      returns (inCtr: nat, outCtr: nat)
      requires Valid() && context && ComesNext(input, inRowCtr, avail)
      requires outRowCtr <= groups && outRowCtr <= outAvail <= output.Length
        && Outputs(output, outRowCtr, groups - outRowCtr)
      modifies this, rows, output
      ensures Valid() && Progressed(inRowCtr, inCtr, avail, outRowCtr, outCtr, outAvail)
        && ComesNext(input, inCtr, avail)
      ensures outCtr <= groups && Outputs(output, outCtr, groups - outCtr)
    {
      hide Ring, Want, WantGroup, Wrap, Prep.RingState, Prep.Setting, Prep.ComesNext, Prep.Outputs;
      inCtr, outCtr := inRowCtr, outRowCtr;
      Positive();
      while outCtr < outAvail
        invariant Valid() && ComesNext(input, inCtr, avail)
        invariant inRowCtr <= inCtr && inCtr <= (if avail < inRowCtr then inRowCtr else avail)
          && outRowCtr <= outCtr <= outAvail
        invariant rowsToGo == old(rowsToGo) - (inCtr - inRowCtr) && groups == old(groups) + (outCtr - outRowCtr)
        invariant outRowCtr < outCtr && old(rowsToGo) > 0 ==> inRowCtr < inCtr
        invariant outCtr <= groups && Outputs(output, outCtr, groups - outCtr)
        decreases outAvail - outCtr, if inCtr < avail then avail - inCtr else 0
      {
        var wait;
        wait, inCtr, outCtr := ContextRound(input, inCtr, avail, output, outCtr);
        if wait {
          break;
        }
      }
    }

    // ----- without context

    /** The rows stored so far, and the rest of the group while the image lasts. */
    method TakePlainRows(input: seq<scanline>, ctr: nat, n: nat)
      requires Valid() && !context && 0 < n <= maxV - nextBufRow && n <= rowsToGo && ctr + n <= |input|
      requires input[ctr..ctr + n] == image[imageHeight - rowsToGo..imageHeight - rowsToGo + n]
      modifies this, rows
      ensures Setting() && Counted() && rowsToGo == old(rowsToGo) - n && groups == old(groups)
      ensures nextBufRow <= maxV && groups * maxV < imageHeight
      ensures rowsToGo > 0 ==> nextBufRow == old(nextBufRow) + n && imageHeight - rowsToGo == groups * maxV + nextBufRow
      ensures rowsToGo == 0 ==> nextBufRow == maxV && imageHeight <= groups * maxV + maxV
      ensures forall i :: 0 <= i < nextBufRow ==> rows[i] == Want(stages, image, groups * maxV + i)
    {
      hide Want;
      ColorConvert(input, ctr, n);
      nextBufRow := nextBufRow + n;
      rowsToGo := rowsToGo - n;
      if rowsToGo == 0 && nextBufRow < maxV {
        BottomIsClamped();
        ExpandBottomEdge(nextBufRow, maxV);
        nextBufRow := maxV;
      }
    }

    /** Downsample the group in the buffer. */
    method PutPlainGroup(output: array<group>, outCtr: nat)
      requires Setting() && Counted() && !context && nextBufRow == maxV && groups * maxV < imageHeight
      requires rowsToGo > 0 ==> imageHeight - rowsToGo == groups * maxV + maxV
      requires rowsToGo == 0 ==> imageHeight <= groups * maxV + maxV
      requires forall i :: 0 <= i < maxV ==> rows[i] == Want(stages, image, groups * maxV + i)
      requires outCtr <= groups && outCtr < output.Length && Outputs(output, outCtr, groups - outCtr)
      modifies this, output
      ensures Valid() && rowsToGo == old(rowsToGo) && groups == old(groups) + 1
      ensures Outputs(output, outCtr + 1, groups - (outCtr + 1))
      ensures rowsToGo == 0 ==> (imageHeight - 1) / maxV == groups - 1
    {
      hide Want;
      assert rows[..] == Window(stages, image, groups * maxV, maxV);
      output[outCtr] := stages.downsample(rows[..]);
      Distribute(groups, 1, maxV);
      if rowsToGo == 0 {
        DivisionUnique(imageHeight - 1, maxV, groups, imageHeight - 1 - groups * maxV);
      }
      nextBufRow := 0;
      groups := groups + 1;
    }

    /** expand_bottom_edge of the output. */
    method ExpandOutput(output: array<group>, outCtr: nat, outAvail: nat)
      requires 0 < outCtr <= outAvail <= output.Length
      modifies output
      ensures forall j :: 0 <= j < outCtr ==> output[j] == old(output[j])
      ensures forall j :: outCtr <= j < outAvail ==> output[j] == LastRows(old(output[outCtr - 1]))
    {
      hide LastRows;
      for j := outCtr to outAvail
        invariant forall i :: 0 <= i < outCtr ==> output[i] == old(output[i])
        invariant forall i :: outCtr <= i < j ==> output[i] == LastRows(old(output[outCtr - 1]))
      {
        output[j] := LastRows(output[outCtr - 1]);
      }
    }

    /** Pad the output to a full iMCU row. */
    method PadOutput(output: array<group>, outCtr: nat, outAvail: nat)
      requires Valid() && !context && rowsToGo == 0 && 0 < outCtr <= outAvail <= output.Length && outCtr <= groups
      requires Outputs(output, outCtr, groups - outCtr) && (imageHeight - 1) / maxV == groups - 1
      modifies `groups, output
      ensures Valid() && groups == old(groups) + (outAvail - outCtr) && Outputs(output, outAvail, groups - outAvail)
    {
      hide Want, LastRows, PlainGroup;
      ghost var base, more := groups - outCtr, groups + (outAvail - outCtr);
      ExpandOutput(output, outCtr, outAvail);
      forall j | 0 <= j < outAvail ensures output[j] == WantGroup(stages, image, maxV, context, base + j) {
        if j >= outCtr {
          BelowImage(groups - 1, base + j);
        }
      }
      MulMonotone(groups, more, maxV);
      groups := more;
    }

    lemma LastGroup(last: nat)
      requires maxV > 0 && |image| > 0 && last == (|image| - 1) / maxV
      ensures last * maxV < |image|
    {
    }

    lemma BelowImage(last: nat, g: nat)
      requires maxV > 0 && |image| > 0 && last == (|image| - 1) / maxV && g > last
      ensures PlainGroup(stages, image, maxV, g) == LastRows(PlainGroup(stages, image, maxV, last))
    {
      hide Want, Window, LastRows;
      LastGroup(last);
      MulMonotone(last + 1, g, maxV);
      Distribute(last, 1, maxV);
    }

    lemma BufferHasRoom()
      requires Valid() && !context
      ensures nextBufRow < maxV
    {
    }

    /** Take n rows and give out the group if it is complete. */
    method PlainRound(input: seq<scanline>, ctr: nat, n: nat, output: array<group>, outCtr: nat) returns (full: bool)
      requires Valid() && !context && 0 < n <= maxV - nextBufRow && n <= rowsToGo && ctr + n <= |input|
      requires input[ctr..ctr + n] == image[imageHeight - rowsToGo..imageHeight - rowsToGo + n]
      requires outCtr <= groups && outCtr < output.Length && Outputs(output, outCtr, groups - outCtr)
      modifies this, rows, output
      ensures Valid() && rowsToGo == old(rowsToGo) - n
      ensures var done := outCtr + (if full then 1 else 0);
        groups == old(groups) + (if full then 1 else 0) && done <= groups && Outputs(output, done, groups - done)
      ensures rowsToGo == 0 ==> full && (imageHeight - 1) / maxV == groups - 1
    {
      hide Want, WantGroup;
      TakePlainRows(input, ctr, n);
      full := nextBufRow == maxV;
      if full {
        PutPlainGroup(output, outCtr);
      }
    }

    /** pre_process_data. */
    method PreProcessPlain(input: seq<scanline>, inRowCtr: nat, avail: nat, output: array<group>, outRowCtr: nat,
        outAvail: nat)
      returns (inCtr: nat, outCtr: nat)
      requires Valid() && !context && rowsToGo > 0 && ComesNext(input, inRowCtr, avail)
      requires outRowCtr <= groups && outRowCtr <= outAvail <= output.Length
        && Outputs(output, outRowCtr, groups - outRowCtr)
      modifies this, rows, output
      ensures Valid() && Progressed(inRowCtr, inCtr, avail, outRowCtr, outCtr, outAvail)
        && ComesNext(input, inCtr, avail)
      ensures outCtr <= groups && Outputs(output, outCtr, groups - outCtr)
    {
      hide Want, WantGroup, Prep.Outputs, Prep.Setting, Prep.PlainState;
      inCtr, outCtr := inRowCtr, outRowCtr;
      Positive();
      while inCtr < avail && outCtr < outAvail
        invariant Valid() && (rowsToGo > 0 || outCtr == outAvail) && ComesNext(input, inCtr, avail)
        invariant inRowCtr <= inCtr && inCtr <= (if avail < inRowCtr then inRowCtr else avail)
          && outRowCtr <= outCtr <= outAvail
        invariant rowsToGo == old(rowsToGo) - (inCtr - inRowCtr) && groups == old(groups) + (outCtr - outRowCtr)
        invariant outRowCtr < outCtr ==> inRowCtr < inCtr
        invariant outCtr <= groups && Outputs(output, outCtr, groups - outCtr)
        decreases if inCtr < avail then avail - inCtr else 0
      {
        BufferHasRoom();
        var inrows := avail - inCtr;
        var numrows := maxV - nextBufRow;
        numrows := if numrows < inrows then numrows else inrows;
        RestComesNext(input, inCtr, numrows, avail, imageHeight - rowsToGo);
        var full := PlainRound(input, inCtr, numrows, output, outCtr);
        inCtr := inCtr + numrows;
        if full {
          outCtr := outCtr + 1;
        }
        if rowsToGo == 0 && outCtr < outAvail {
          PadOutput(output, outCtr, outAvail);
          outCtr := outAvail;
          break;
        }
      }
    }

    /** The preprocessing routine that was chosen. */
    method PreProcess(input: seq<scanline>, inRowCtr: nat, avail: nat, output: array<group>, outRowCtr: nat,
        outAvail: nat)
      returns (inCtr: nat, outCtr: nat)
      requires Valid() && ComesNext(input, inRowCtr, avail) && (!context ==> rowsToGo > 0)
      requires outRowCtr <= groups && outRowCtr <= outAvail <= output.Length
        && Outputs(output, outRowCtr, groups - outRowCtr)
      modifies this, rows, output
      ensures Valid() && Progressed(inRowCtr, inCtr, avail, outRowCtr, outCtr, outAvail)
        && ComesNext(input, inCtr, avail)
      ensures outCtr <= groups && Outputs(output, outCtr, groups - outCtr)
    {
      if context {
        inCtr, outCtr := PreProcessContext(input, inRowCtr, avail, output, outRowCtr, outAvail);
      } else {
        inCtr, outCtr := PreProcessPlain(input, inRowCtr, avail, output, outRowCtr, outAvail);
      }
    }
  }
}
