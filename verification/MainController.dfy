/**
 From scanlines to MCUs (jcapistd.c, jcmainct.c): the main controller gathers iMCU rows
 and passes them on, and a suspension of the encoder shows only in the number of
 scanlines the application is told have been taken.
 */
module MainController {
  import opened Nonlinear
  import opened ImageGeometry
  import opened McuTraversal
  import opened CoefController
  import opened Preprocessing

  /** The row groups of iMCU row k. */
  function GroupsOf(s: Stages, image: seq<scanline>, r: nat, context: bool, k: nat): (gs: seq<group>)
    requires |image| > 0 && r > 0
    ensures |gs| == DCTSIZE
  {
    seq(DCTSIZE, j requires 0 <= j < DCTSIZE && |image| > 0
      && r > 0 => WantGroup(s, image, r, context, DCTSIZE * k + j))
  }

  /** The picture is what the forward DCT makes of the image. */
  ghost predicate IsPicture(forwardDct: seq<group> -> seq<grid>, s: Stages, image: seq<scanline>, r: nat, context: bool,
      cs: seq<ComponentInfo>, picture: seq<grid>, total: nat)
    requires |image| > 0 && r > 0 && AllFit(cs, picture)
  {
    forall k :: 0 <= k < total ==> AreStrips(cs, picture, k, forwardDct(GroupsOf(s, image, r, context, k)))
  }

  class Main {
    const prep: Prep
    const coef: SinglePass
    const buffer: array<group>            // one iMCU row
    const forwardDct: seq<group> -> seq<grid>
    const totalIMcuRows: nat
    var curIMcuRow: nat
    var rowgroupCtr: nat
    var suspended: bool

    /** What the parts have to do with each other. */
    ghost predicate Setting()
      reads prep.pointers
    {
      && prep.Setting() && coef.Setting() && buffer.Length == DCTSIZE
      && coef.totalIMcuRows == totalIMcuRows > 0 && Covers(totalIMcuRows, DCTSIZE * prep.maxV, prep.imageHeight)
      && IsPicture(forwardDct, prep.stages, prep.image, prep.maxV, prep.context, coef.cs, coef.picture, totalIMcuRows)
    }

    /** The parts agree on how far they are. */
    ghost predicate InStep()
      reads this, buffer, prep, prep.rows, prep.pointers, coef, coef.dest
    {
      && Setting() && prep.Valid() && coef.Valid()
      && curIMcuRow == coef.iMcuRowNum && rowgroupCtr <= DCTSIZE
      && prep.groups == DCTSIZE * curIMcuRow + rowgroupCtr && prep.Outputs(buffer, rowgroupCtr, DCTSIZE * curIMcuRow)
    }

    ghost predicate Valid()
      reads this, buffer, prep, prep.rows, prep.pointers, coef, coef.dest
    {
      && InStep()
      && (rowgroupCtr == DCTSIZE <==> suspended)
      && (!suspended ==> coef.mcuVertOffset == coef.mcuCtr == 0)
      && (suspended ==> curIMcuRow < totalIMcuRows)
      && (curIMcuRow == totalIMcuRows ==> rowgroupCtr == 0)
    }

    /** Between calls rows are missing unless the encoder is. */
    ghost predicate Waiting()
      reads this, prep
    {
      curIMcuRow < totalIMcuRows && !suspended ==> prep.rowsToGo > 0
    }

    /** jinit_c_main_controller and start_pass_main. */
    constructor (prep: Prep, coef: SinglePass, forwardDct: seq<group> -> seq<grid>)
      requires prep.Valid() && coef.Valid() && prep.groups == 0 && prep.rowsToGo == prep.imageHeight
        && coef.Here() == Position(0, 0, 0)
      requires Covers(coef.totalIMcuRows, DCTSIZE * prep.maxV, prep.imageHeight) && coef.totalIMcuRows > 0
      requires IsPicture(forwardDct, prep.stages, prep.image, prep.maxV, prep.context, coef.cs, coef.picture,
        coef.totalIMcuRows)
      ensures Valid() && Waiting() && fresh(buffer) && !suspended
      ensures this.prep == prep && this.coef == coef && this.forwardDct == forwardDct
    {
      this.prep, this.coef, this.forwardDct := prep, coef, forwardDct;
      totalIMcuRows := coef.totalIMcuRows;
      buffer := new group[DCTSIZE](_ => []);
      curIMcuRow, rowgroupCtr, suspended := 0, 0, false;
    }

    /** An iMCU row begins above the bottom of the image. */
    lemma BeginsInside()
      requires Setting() && curIMcuRow < totalIMcuRows
      ensures DCTSIZE * curIMcuRow * prep.maxV < prep.imageHeight
    {
      Reassociate(DCTSIZE, curIMcuRow, prep.maxV);
      Reassociate(DCTSIZE, prep.maxV, curIMcuRow);
      MulMonotone(curIMcuRow, totalIMcuRows - 1, DCTSIZE * prep.maxV);
    }

    /** Without context rows an empty buffer means that rows are missing. */
    lemma RowsAreMissing()
      requires Valid() && curIMcuRow < totalIMcuRows && rowgroupCtr == 0 && !prep.context
      ensures prep.rowsToGo > 0
    {
      BeginsInside();
    }

    /** All rows have been taken when all iMCU rows are done. */
    lemma NothingToGo()
      requires Valid() && curIMcuRow == totalIMcuRows
      ensures prep.rowsToGo == 0
    {
      Reassociate(DCTSIZE, totalIMcuRows, prep.maxV);
      Reassociate(DCTSIZE, prep.maxV, totalIMcuRows);
      if prep.context {
        Distribute(prep.groups, 1, prep.maxV);
      }
    }

    /** The buffer holds the strip that comes next. */
    lemma StripIsNext(contents: seq<group>)
      requires InStep() && rowgroupCtr == DCTSIZE && curIMcuRow < totalIMcuRows && contents == buffer[..]
      ensures AreStrips(coef.cs, coef.picture, curIMcuRow, forwardDct(contents))
    {
      hide AreStrips, WantGroup, Prep.RingState, Prep.PlainState, Prep.Setting, SinglePass.Valid;
      MakesSense();
      assert contents == GroupsOf(prep.stages, prep.image, prep.maxV, prep.context, curIMcuRow);
    }

    /** Read input data while the main buffer is not full. */
    method FillMainBuffer(input: seq<scanline>, inRowCtr: nat, avail: nat) returns (inCtr: nat)
      requires Valid() && curIMcuRow < totalIMcuRows && rowgroupCtr < DCTSIZE && prep.ComesNext(input, inRowCtr, avail)
      requires !prep.context ==> prep.rowsToGo > 0
      modifies `rowgroupCtr, buffer, prep, prep.rows
      ensures InStep()
      ensures inRowCtr <= inCtr && inCtr <= (if avail < inRowCtr then inRowCtr else avail)
      ensures prep.rowsToGo == old(prep.rowsToGo) - (inCtr - inRowCtr) && prep.ComesNext(input, inCtr, avail)
      ensures rowgroupCtr < DCTSIZE ==> inCtr >= avail && prep.rowsToGo > 0
      ensures rowgroupCtr == DCTSIZE && old(prep.rowsToGo) > 0 ==> inRowCtr < inCtr
    {
      hide Prep.Valid, SinglePass.Valid, Prep.Setting, SinglePass.Setting, WantGroup, IsPicture, Covers;
      MakesSense();
      var out;
      inCtr, out := prep.PreProcess(input, inRowCtr, avail, buffer, rowgroupCtr, DCTSIZE);
      rowgroupCtr := out;
    }

    lemma MakesSense()
      requires Setting()
      ensures prep.maxV > 0 && |prep.image| > 0 && |coef.cs| > 0
    {
    }

    /** Send the buffered iMCU row to the compressor. */
    method SendIMcuRow() returns (done: bool)
      requires InStep() && rowgroupCtr == DCTSIZE && curIMcuRow < totalIMcuRows
      modifies coef, coef.dest, coef.mcuBuffer
      ensures Setting() && prep.Valid() && coef.Valid() && coef.iMcuRowNum == curIMcuRow + (if done then 1 else 0)
      ensures done ==> coef.mcuVertOffset == coef.mcuCtr == 0
      ensures !done ==> InStep()
      ensures |coef.dest.answers| <= |old(coef.dest.answers)|
        && (!done ==> |coef.dest.answers| < |old(coef.dest.answers)|)
    {
      hide Prep.Valid, SinglePass.Valid, Prep.Setting, SinglePass.Setting, WantGroup, IsPicture, Covers;
      MakesSense();
      StripIsNext(buffer[..]);
      var strip := forwardDct(buffer[..]);
      SameCount();
      done := coef.CompressData(strip);
    }

    lemma NoOutputs()
      requires prep.maxV > 0 && |prep.image| > 0 && prep.Counted()
      ensures prep.Outputs(buffer, 0, DCTSIZE * curIMcuRow)
    {
    }

    lemma SameCount()
      requires Setting()
      ensures coef.totalIMcuRows == totalIMcuRows
    {
    }

    lemma NoMore()
      requires InStep()
      ensures curIMcuRow <= totalIMcuRows
    {
    }

    /** What the application has been told, with the row that is held back. */
    ghost function Taken(inRowCtr: nat): nat
      reads this
    {
      inRowCtr + (if suspended then 1 else 0)
    }

    /** The row counter agrees with the rows converted. */
    ghost predicate Accounts(input: seq<scanline>, inRowCtr: nat, avail: nat, total: nat, was: nat)
      requires prep.Counted()
      reads this, prep
    {
      && Taken(inRowCtr) + prep.rowsToGo == total && prep.ComesNext(input, Taken(inRowCtr), avail)
      && Taken(inRowCtr) <= if avail < was then was else avail
    }

    /** One iMCU row of process_data_simple_main; false means that it returns. */
    method NextIMcuRow(input: seq<scanline>, ctr: nat, avail: nat, ghost total: nat, ghost was: nat)
        returns (more: bool, inRowCtr: nat)
      requires Valid() && curIMcuRow < totalIMcuRows && Accounts(input, ctr, avail, total, was)
      requires !suspended ==> prep.rowsToGo > 0 || (ctr > 0 && rowgroupCtr == 0)
      modifies this, buffer, prep, prep.rows, coef, coef.dest, coef.mcuBuffer
      ensures Valid() && Accounts(input, inRowCtr, avail, total, was)
      ensures more ==> curIMcuRow == old(curIMcuRow) + 1 && rowgroupCtr == 0 && inRowCtr > 0
      ensures !more ==> Waiting() && (!suspended && inRowCtr < avail ==> prep.rowsToGo == 0)
      ensures |coef.dest.answers| <= |old(coef.dest.answers)|
        && (suspended ==> |coef.dest.answers| < |old(coef.dest.answers)|)
    {
      hide Prep.RingState, Prep.PlainState, Prep.Setting, Prep.Outputs, SinglePass.Valid, WantGroup, Main.Setting,
        Prep.ComesNext;
      inRowCtr := ctr;
      MakesSense();
      if rowgroupCtr < DCTSIZE {
        if rowgroupCtr == 0 && !prep.context {
          RowsAreMissing();
        }
        inRowCtr := FillMainBuffer(input, inRowCtr, avail);
      }
      if rowgroupCtr != DCTSIZE {
        return false, inRowCtr;
      }
      more := SendIMcuRow();
      if !more {
        if !suspended {
          inRowCtr := inRowCtr - 1;
          suspended := true;
        }
        return;
      }
      if suspended {
        inRowCtr := inRowCtr + 1;
        suspended := false;
      }
      rowgroupCtr := 0;
      curIMcuRow := curIMcuRow + 1;
      NoOutputs();
    }

    /** process_data_simple_main.  While the encoder is suspended the last row taken
        counts as not taken. */
    method ProcessData(input: seq<scanline>, avail: nat) returns (inRowCtr: nat)
      requires Valid() && Waiting() && prep.ComesNext(input, if suspended then 1 else 0, avail)
      modifies this, buffer, prep, prep.rows, coef, coef.dest, coef.mcuBuffer
      ensures Valid() && Waiting()
      ensures inRowCtr + (if suspended then 1 else 0) + prep.rowsToGo
        == old(prep.rowsToGo) + (if old(suspended) then 1 else 0)
      ensures inRowCtr + (if suspended then 1 else 0) <= if avail == 0 && old(suspended) then 1 else avail
      ensures !suspended && inRowCtr < avail ==> prep.rowsToGo == 0
      ensures |coef.dest.answers| <= |old(coef.dest.answers)|
        && (suspended ==> |coef.dest.answers| < |old(coef.dest.answers)|)
    {
      hide Prep.RingState, Prep.PlainState, Prep.Setting, Prep.Outputs, SinglePass.Valid, WantGroup, Main.Setting,
        Prep.ComesNext;
      inRowCtr := 0;
      ghost var total, was := Taken(0) + prep.rowsToGo, Taken(0);
      MakesSense();
      while curIMcuRow < totalIMcuRows
        invariant Valid() && Accounts(input, inRowCtr, avail, total, was)
        invariant curIMcuRow < totalIMcuRows && !suspended ==> prep.rowsToGo > 0 || (inRowCtr > 0 && rowgroupCtr == 0)
        invariant |coef.dest.answers| <= |old(coef.dest.answers)|
          && (suspended ==> (coef.dest.answers == old(coef.dest.answers)
          && curIMcuRow == old(curIMcuRow) < totalIMcuRows))
        decreases totalIMcuRows - curIMcuRow
      {
        var more;
        more, inRowCtr := NextIMcuRow(input, inRowCtr, avail, total, was);
        if !more {
          return;
        }
      }
      NoMore();
      NothingToGo();
    }
  }

  /** The application's view (jcapistd.c). */
  class Compressor {
    const main: Main
    const imageHeight: nat
    var nextScanline: nat

    /** Rows converted are rows accepted, but for the one held back by a suspension. */
    ghost predicate Valid()
      reads this, main, main.buffer, main.prep, main.prep.rows, main.prep.pointers, main.coef, main.coef.dest
    {
      && main.Valid() && main.Waiting() && imageHeight == main.prep.imageHeight
      && imageHeight - main.prep.rowsToGo == nextScanline + (if main.suspended then 1 else 0)
    }

    constructor (main: Main, height: nat)
      requires main.Valid() && main.Waiting() && !main.suspended
        && main.prep.rowsToGo == height == main.prep.imageHeight
      ensures Valid() && nextScanline == 0 && this.main == main
    {
      this.main, imageHeight, nextScanline := main, height, 0;
    }

    /** jpeg_write_scanlines.  The application offers the rows that come next.  Fewer are
        taken only at the bottom of the image or when the encoder is suspended. */
    method WriteScanlines(scanlines: seq<scanline>, numLines: nat) returns (rowCtr: nat, warning: bool)
      requires Valid() && numLines <= |scanlines|
      requires forall i :: (0 <= i < numLines && nextScanline + i < imageHeight
        ==> scanlines[i] == main.prep.image[nextScanline + i])
      modifies this, main, main.buffer, main.prep, main.prep.rows, main.coef, main.coef.dest, main.coef.mcuBuffer
      ensures Valid() && nextScanline == old(nextScanline) + rowCtr <= imageHeight
      ensures rowCtr <= numLines || (numLines == 0 && rowCtr == 1 && old(main.suspended))
      ensures rowCtr < numLines ==> nextScanline == imageHeight || main.suspended
      ensures |main.coef.dest.answers| <= |old(main.coef.dest.answers)|
      ensures main.suspended ==> |main.coef.dest.answers| < |old(main.coef.dest.answers)|
      ensures warning == (old(nextScanline) >= imageHeight)
    {
      hide Main.Valid, Prep.RingState, Prep.PlainState;
      warning := nextScanline >= imageHeight;
      Sizes();
      var lines := numLines;
      var rowsLeft := imageHeight - nextScanline;
      if lines > rowsLeft {
        lines := rowsLeft;
      }
      NextRows(scanlines, lines);
      rowCtr := main.ProcessData(scanlines, lines);
      nextScanline := nextScanline + rowCtr;
      Sizes();
    }

    lemma Sizes()
      requires main.Valid()
      ensures main.prep.Counted() && main.prep.imageHeight == |main.prep.image|
        && main.prep.rowsToGo <= main.prep.imageHeight
    {
    }

    /** The rows offered are those that the preprocessor has not seen. */
    lemma NextRows(scanlines: seq<scanline>, lines: nat)
      requires Valid() && lines <= |scanlines| && lines <= imageHeight - nextScanline
      requires main.prep.Counted() && imageHeight == |main.prep.image|
      requires forall i :: 0 <= i < lines ==> scanlines[i] == main.prep.image[nextScanline + i]
      ensures main.prep.ComesNext(scanlines, if main.suspended then 1 else 0, lines)
    {
      hide Main.Valid, Main.Waiting;
      var gone := imageHeight - main.prep.rowsToGo;
      var ctr := if main.suspended then 1 else 0;
      if ctr < lines {
        var offered, image := scanlines[ctr..lines], main.prep.image[gone..][..lines - ctr];
        forall i | 0 <= i < |offered| ensures offered[i] == image[i] {
          assert offered[i] == scanlines[ctr + i];
        }
      }
    }

    /** When the application has been told that all rows are taken, the encoder has all
        MCUs of the picture, in order, whatever suspensions there were. */
    lemma ImageIsSent()
      requires Valid() && nextScanline == imageHeight
      ensures main.coef.Setting()
      ensures main.coef.dest.mcus == Raster(main.coef.cs, main.coef.picture, main.coef.mcusPerRow,
        main.coef.mcuRowsInScan)
      ensures main.prep.converted == main.prep.image
    {
      hide Prep.RingState, Prep.PlainState, Raster, SentUpTo, WantGroup;
      main.NoMore();
      main.coef.AllSent();
    }
  }
}
