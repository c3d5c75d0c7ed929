/**
 Two-pass Huffman coding of progressive scans: the statistics pass counts the symbols of
 blocks and runs, and the tables made from the counts have a code for each of them.
 */
module ProgressiveOptimization {
  import opened Bytes
  import opened BitStrings
  import opened CanonicalCode
  import opened HuffmanTables
  import opened CoefficientModel
  import opened ScanSetup
  import opened HuffmanModel
  import opened HuffmanTree
  import opened RestartIntervals
  import opened ProgressiveModel
  import opened ProgressiveRestarts
  import A = ArithScan
  import E = ProgressiveEncoder
  import HD = HuffmanDepth
  import HO = HuffmanOptimization
  import HS = HuffmanStatistics
  import OT = OptimalTable
  import PT = ProgressiveTransmission

  // ----- what the symbols of a scan look like

  /** The table of component ci in this scan. */
  function TableNo(s: Scan, ci: nat): nat
    requires ci < |s.components|
  {
    if s.Ss == 0 then s.components[ci].dcTbl else s.components[ci].acTbl
  }

  function LargestSymbol(s: Scan): nat
  {
    if s.Ss == 0 then 11 else 250
  }

  /** A symbol is small and belongs to a component; DC refinement has none. */
  ghost predicate Proper(s: Scan, x: Piece)
  {
    x.Symbol? ==>
      && ModeOf(s) != DcRefine && x.sym <= LargestSymbol(s)
      && exists ci :: 0 <= ci < |s.components| && x.tbl == TableNo(s, ci)
  }

  ghost predicate AllProper(s: Scan, xs: seq<Piece>)
  {
    forall i :: 0 <= i < |xs| ==> Proper(s, xs[i])
  }

  lemma ProperParts(s: Scan, xs: seq<Piece>, ys: seq<Piece>)
    requires AllProper(s, xs) && AllProper(s, ys)
    ensures AllProper(s, xs + ys)
  {
    hide Proper;
  }

  /** An AC scan has one component. */
  ghost predicate AcTable(s: Scan, tbl: nat)
  {
    s.Ss > 0 && ModeOf(s) != DcRefine && |s.components| > 0 && tbl == s.components[0].acTbl
  }

  lemma AcProper(s: Scan, tbl: nat, sym: nat)
    requires AcTable(s, tbl) && sym <= 250
    ensures Proper(s, Symbol(tbl, sym))
  {
    assert TableNo(s, 0) == tbl;
  }

  lemma {:induction false} FirstProper(s: Scan, tbl: nat, w: zigzag, k: nat, se: nat, r: nat)
    requires AcTable(s, tbl) && se < 64 && BandInRange(w, k, se + 1)
    ensures AllProper(s, FirstCodes(tbl, w, k, se, r).body)
    decreases 64 - k, r
  {
    hide Proper, Magnitude, ExtraBits, Bits;
    if k > se {
    } else if w[k] == 0 {
      FirstProper(s, tbl, w, k + 1, se, r + 1);
    } else if r > 15 {
      FirstProper(s, tbl, w, k, se, r - 16);
      AcProper(s, tbl, ZRL);
      ProperParts(s, [Symbol(tbl, ZRL)], FirstCodes(tbl, w, k, se, r - 16).body);
    } else {
      FirstProper(s, tbl, w, k + 1, se, 0);
      AcProper(s, tbl, 16 * r + Magnitude(w[k]));
      RawProper(s, Bits(ExtraBits(w[k]), Magnitude(w[k])));
      ProperParts(s, [Symbol(tbl, 16 * r + Magnitude(w[k])), Raw(Bits(ExtraBits(w[k]), Magnitude(w[k])))],
        FirstCodes(tbl, w, k + 1, se, 0).body);
    }
  }

  lemma RawProper(s: Scan, bits: seq<bool>)
    ensures Proper(s, Raw(bits))
  {
  }

  lemma {:induction false} RefineProper(s: Scan, tbl: nat, c: zigzag, al: nat, k: nat, se: nat, eob: nat, r: nat,
      corr: seq<bool>)
    requires AcTable(s, tbl) && se < 64 && forall m :: k <= m <= se && SizeAt(c, al, m) == 1 ==> m <= eob
    ensures AllProper(s, RefineCodes(tbl, c, al, k, se, eob, r, corr).body)
    decreases 64 - k, r
  {
    hide Proper, SizeAt;
    if k <= se {
      var v := SizeAt(c, al, k);
      if v == 0 {
        RefineProper(s, tbl, c, al, k + 1, se, eob, r + 1, corr);
      } else if r > 15 && k <= eob {
        RefineProper(s, tbl, c, al, k, se, eob, r - 16, []);
        AcProper(s, tbl, ZRL);
        RawProper(s, corr);
        ProperParts(s, [Symbol(tbl, ZRL), Raw(corr)], RefineCodes(tbl, c, al, k, se, eob, r - 16, []).body);
      } else if v > 1 {
        RefineProper(s, tbl, c, al, k + 1, se, eob, r, corr + [v % 2 == 1]);
      } else {
        RefineProper(s, tbl, c, al, k + 1, se, eob, 0, []);
        AcProper(s, tbl, 16 * r + 1);
        RawProper(s, [c[k] >= 0]);
        RawProper(s, corr);
        ProperParts(s, [Symbol(tbl, 16 * r + 1), Raw([c[k] >= 0]), Raw(corr)],
          RefineCodes(tbl, c, al, k + 1, se, eob, 0, []).body);
      }
    }
  }

  /** A block whose symbols are proper; only in AC scans it can end early. */
  ghost predicate ProperBlock(s: Scan, c: CodedBlock)
  {
    AllProper(s, c.body) && (c.eob ==> s.Ss > 0)
  }

  lemma BlockProper(s: Scan, ci: nat, last: int, b: block)
    requires GoodProgressive(s) && ci < |s.components| && (s.Ss > 0 ==> ci == 0) && BlockInRange(s, last, b)
    ensures ProperBlock(s, BlockCodes(s, s.components[ci], last, b))
  {
    hide Proper, Magnitude, ExtraBits, Bits, Zigzag, Transform, FirstCodes, RefineCodes, LastNew;
    var c, z := s.components[ci], Zigzag(b, s.naturalOrder);
    BlockIsGood(s, c, last, b);
    match ModeOf(s)
    case DcRefine =>
      RawProper(s, [DcValue(s, b) % 2 == 1]);
    case AcFirst =>
      FirstProper(s, c.acTbl, Transform(z, s.Al), s.Ss, s.Se, 0);
    case AcRefine =>
      RefineProper(s, c.acTbl, z, s.Al, s.Ss, s.Se, LastNew(z, s.Al, s.Ss, s.Se), 0, []);
    case _ =>
      DcProper(s, ci, Magnitude(DcValue(s, b) - last));
      RawProper(s, Bits(ExtraBits(DcValue(s, b) - last), Magnitude(DcValue(s, b) - last)));
  }

  lemma DcProper(s: Scan, ci: nat, sym: nat)
    requires s.Ss == 0 && ModeOf(s) != DcRefine && ci < |s.components| && sym <= 11
    ensures Proper(s, Symbol(s.components[ci].dcTbl, sym))
  {
    assert TableNo(s, ci) == s.components[ci].dcTbl;
  }

  lemma RunProper(s: Scan, p: Pending)
    requires p.run <= 0x7FFF && (p.run > 0 ==> AcTable(s, RunTable(s)))
    ensures AllProper(s, RunPieces(RunTable(s), p))
  {
    hide Proper, Pow2, Bits;
    if p.run > 0 {
      BitLengthBounds(p.run);
      Pow2Values();
      if BitLength(p.run) > 15 {
        Pow2Monotone(15, BitLength(p.run) - 1);
      }
      var n := BitLength(p.run) - 1;
      AcProper(s, RunTable(s), 16 * n);
      RawProper(s, Bits(p.run, n));
      RawProper(s, p.bits);
    }
  }

  lemma {:induction false} RestProper(s: Scan, cs: seq<CodedBlock>, i: nat, p: Pending)
    requires i <= |cs| && (forall j :: 0 <= j < |cs| ==> ProperBlock(s, cs[j])) && p.run < 0x7FFF
    requires (s.Ss > 0 ==> AcTable(s, RunTable(s))) && (s.Ss == 0 ==> p.run == 0)
    ensures AllProper(s, Rest(RunTable(s), cs, i, p))
    decreases |cs| - i
  {
    hide Proper, RunPieces, AllProper;
    RunProper(s, p);
    if i < |cs| {
      assert ProperBlock(s, cs[i]);
      var tbl, c := RunTable(s), cs[i];
      var st := Step(tbl, p, c);
      NothingProper(s);
      ProperParts(s, RunPieces(tbl, p), c.body);
      if c.eob {
        var q := AddEob(if c.body == [] then p else NONE, c.tail);
        RunProper(s, q);
        ProperParts(s, if c.body == [] then [] else RunPieces(tbl, p) + c.body, RunPieces(tbl, q));
      }
      RestProper(s, cs, i + 1, st.1);
      ProperParts(s, st.0, Rest(tbl, cs, i + 1, st.1));
    }
  }

  lemma NothingProper(s: Scan)
    ensures AllProper(s, [])
  {
  }

  ghost predicate ProperCodes(s: Scan, cs: seq<CodedBlock>)
  {
    forall j :: 0 <= j < |cs| ==> ProperBlock(s, cs[j])
  }

  lemma {:induction false} McuProper(s: Scan, x: Progress, mcu: seq<block>)
    requires GoodProgressive(s) && |x.last| == |s.components| && |mcu| <= |s.membership|
    requires ProperCodes(s, x.codes) && AddMcu(s, x, mcu).inRange
    ensures ProperCodes(s, AddMcu(s, x, mcu).codes)
    decreases |mcu|
  {
    hide BlockCodes, BlockInRange, ProperBlock;
    if mcu != [] {
      var n := |mcu| - 1;
      McuProper(s, x, mcu[..n]);
      var y := AddMcu(s, x, mcu[..n]);
      BlockProper(s, s.membership[n], y.last[s.membership[n]], mcu[n]);
    }
  }

  lemma {:induction false} CodesProper(s: Scan, iv: seq<mcuBlocks>)
    requires GoodProgressive(s) && SizedMcus(s, iv) && ScanProgress(s, iv).inRange
    ensures ProperCodes(s, ScanProgress(s, iv).codes)
  {
    hide AddMcu, ProperBlock;
    if iv != [] {
      var n := |iv| - 1;
      PT.McuCodesGrow(s, ScanProgress(s, iv[..n]), iv[n]);
      CodesProper(s, iv[..n]);
      McuProper(s, ScanProgress(s, iv[..n]), iv[n]);
    }
  }

  lemma IntervalProper(s: Scan, iv: seq<mcuBlocks>)
    requires GoodProgressive(s) && SizedMcus(s, iv) && ScanProgress(s, iv).inRange
    ensures AllProper(s, PT.ScanPieces(s, iv))
  {
    hide Proper, ScanProgress, Rest;
    CodesProper(s, iv);
    RestProper(s, ScanProgress(s, iv).codes, 0, NONE);
  }

  // ----- every table of the scan is used

  ghost predicate Uses(xs: seq<Piece>, tbl: nat)
  {
    exists i :: 0 <= i < |xs| && xs[i].Symbol? && xs[i].tbl == tbl
  }

  lemma UsesParts(xs: seq<Piece>, ys: seq<Piece>, tbl: nat)
    requires Uses(xs, tbl) || Uses(ys, tbl)
    ensures Uses(xs + ys, tbl)
  {
    if Uses(xs, tbl) {
      var i :| 0 <= i < |xs| && xs[i].Symbol? && xs[i].tbl == tbl;
      assert (xs + ys)[i] == xs[i];
    } else {
      var i :| 0 <= i < |ys| && ys[i].Symbol? && ys[i].tbl == tbl;
      assert (xs + ys)[|xs| + i] == ys[i];
    }
  }

  lemma FirstUses(x: Piece, xs: seq<Piece>)
    requires x.Symbol?
    ensures Uses([x] + xs, x.tbl)
  {
    assert ([x] + xs)[0] == x;
  }

  /** A run is sent in the end. */
  lemma {:induction false} RunIsSent(tbl: nat, cs: seq<CodedBlock>, i: nat, p: Pending)
    requires i <= |cs| && GoodBlocks(cs) && p.run > 0
    ensures Uses(Rest(tbl, cs, i, p), tbl)
    decreases |cs| - i
  {
    hide Uses, MustSend, Bits;
    RunUses(tbl, p);
    if i < |cs| {
      assert GoodBlock(cs[i]);
      var c, st := cs[i], Step(tbl, p, cs[i]);
      if c.body == [] {
        var q := AddEob(p, c.tail);
        if MustSend(q) {
          RunUses(tbl, q);
          UsesParts([], RunPieces(tbl, q), tbl);
          UsesParts(st.0, Rest(tbl, cs, i + 1, st.1), tbl);
        } else {
          RunIsSent(tbl, cs, i + 1, q);
          UsesParts(st.0, Rest(tbl, cs, i + 1, q), tbl);
        }
      } else {
        CodesAreSent(tbl, p, c, tbl);
        UsesParts(st.0, Rest(tbl, cs, i + 1, st.1), tbl);
      }
    }
  }

  lemma RunUses(tbl: nat, p: Pending)
    requires p.run > 0
    ensures Uses(RunPieces(tbl, p), tbl)
  {
    hide Bits;
    assert RunPieces(tbl, p)[0].tbl == tbl;
  }

  /** A block with codes sends the pending run and the codes. */
  lemma CodesAreSent(tbl: nat, p: Pending, c: CodedBlock, t: nat)
    requires c.body != [] && (Uses(c.body, t) || (p.run > 0 && t == tbl))
    ensures Uses(Step(tbl, p, c).0, t)
  {
    hide Uses, RunPieces, MustSend;
    if p.run > 0 && t == tbl {
      RunUses(tbl, p);
    }
    UsesParts(RunPieces(tbl, p), c.body, t);
    if c.eob {
      UsesParts(RunPieces(tbl, p) + c.body, RunPieces(tbl, AddEob(NONE, c.tail)), t);
    }
  }

  /** Block j uses the table in its codes, or in the run that it joins. */
  lemma {:induction false} BlockUses(tbl: nat, cs: seq<CodedBlock>, i: nat, p: Pending, j: nat, t: nat)
    requires i <= j < |cs| && GoodBlocks(cs) && (if cs[j].body == [] then t == tbl else Uses(cs[j].body, t))
    ensures Uses(Rest(tbl, cs, i, p), t)
    decreases j - i
  {
    hide Uses, MustSend, RunPieces;
    assert GoodBlock(cs[i]);
    var c, st := cs[i], Step(tbl, p, cs[i]);
    if i < j {
      BlockUses(tbl, cs, i + 1, st.1, j, t);
    } else if c.body != [] {
      CodesAreSent(tbl, p, c, t);
    } else {
      var q := AddEob(p, c.tail);
      if MustSend(q) {
        RunUses(tbl, q);
        UsesParts([], RunPieces(tbl, q), t);
      } else {
        RunIsSent(tbl, cs, i + 1, q);
      }
    }
    UsesParts(st.0, Rest(tbl, cs, i + 1, st.1), t);
  }

  lemma {:induction false} FirstBegins(tbl: nat, w: zigzag, k: nat, se: nat, r: nat)
    requires se < 64
    ensures var xs := FirstCodes(tbl, w, k, se, r).body; xs != [] ==> Uses(xs, tbl)
    decreases 64 - k, r
  {
    hide Uses, Magnitude, ExtraBits, Bits;
    if k > se {
    } else if w[k] == 0 {
      FirstBegins(tbl, w, k + 1, se, r + 1);
    } else if r > 15 {
      FirstUses(Symbol(tbl, ZRL), FirstCodes(tbl, w, k, se, r - 16).body);
    } else {
      var x, y := Symbol(tbl, 16 * r + Magnitude(w[k])), Raw(Bits(ExtraBits(w[k]), Magnitude(w[k])));
      FirstUses(x, [y]);
      assert [x] + [y] == [x, y];
      UsesParts([x, y], FirstCodes(tbl, w, k + 1, se, 0).body, tbl);
    }
  }

  lemma {:induction false} RefineBegins(tbl: nat, c: zigzag, al: nat, k: nat, se: nat, eob: nat, r: nat,
      corr: seq<bool>)
    requires se < 64
    ensures var xs := RefineCodes(tbl, c, al, k, se, eob, r, corr).body; xs != [] ==> Uses(xs, tbl)
    decreases 64 - k, r
  {
    hide Uses, SizeAt;
    if k <= se {
      var v := SizeAt(c, al, k);
      if v == 0 {
        RefineBegins(tbl, c, al, k + 1, se, eob, r + 1, corr);
      } else if r > 15 && k <= eob {
        FirstUses(Symbol(tbl, ZRL), [Raw(corr)]);
        assert [Symbol(tbl, ZRL)] + [Raw(corr)] == [Symbol(tbl, ZRL), Raw(corr)];
        UsesParts([Symbol(tbl, ZRL), Raw(corr)], RefineCodes(tbl, c, al, k, se, eob, r - 16, []).body, tbl);
      } else if v > 1 {
        RefineBegins(tbl, c, al, k + 1, se, eob, r, corr + [v % 2 == 1]);
      } else {
        var x, rest := Symbol(tbl, 16 * r + 1), [Raw([c[k] >= 0]), Raw(corr)];
        FirstUses(x, rest);
        assert [x] + rest == [Symbol(tbl, 16 * r + 1), Raw([c[k] >= 0]), Raw(corr)];
        UsesParts([x] + rest, RefineCodes(tbl, c, al, k + 1, se, eob, 0, []).body, tbl);
      }
    }
  }

  /** The codes of a block use its component's table; without codes it joins a run. */
  lemma CodesUse(s: Scan, ci: nat, last: int, b: block)
    requires GoodProgressive(s) && ModeOf(s) != DcRefine && ci < |s.components|
    ensures var c := BlockCodes(s, s.components[ci], last, b);
      if c.body == [] then s.Ss > 0 else Uses(c.body, TableNo(s, ci))
  {
    hide Uses, Magnitude, ExtraBits, Bits, Zigzag, Transform, FirstCodes, RefineCodes, LastNew;
    var c, z := s.components[ci], Zigzag(b, s.naturalOrder);
    BlockIsGood(s, c, last, b);
    match ModeOf(s)
    case AcFirst =>
      FirstBegins(c.acTbl, Transform(z, s.Al), s.Ss, s.Se, 0);
    case AcRefine =>
      RefineBegins(c.acTbl, z, s.Al, s.Ss, s.Se, LastNew(z, s.Al, s.Ss, s.Se), 0, []);
    case DcFirst =>
      var diff := DcValue(s, b) - last;
      FirstUses(Symbol(c.dcTbl, Magnitude(diff)), [Raw(Bits(ExtraBits(diff), Magnitude(diff)))]);
      assert DcCodes(c.dcTbl, diff).body
        == [Symbol(c.dcTbl, Magnitude(diff))] + [Raw(Bits(ExtraBits(diff), Magnitude(diff)))];
    case _ =>
  }

  /** The codes of block n of an MCU. */
  lemma {:induction false} BlockOfMcu(s: Scan, x: Progress, mcu: seq<block>, n: nat) returns (last: int)
    requires GoodScan(s) && |x.last| == |s.components| && n < |mcu| <= |s.membership|
    ensures |AddMcu(s, x, mcu).codes| == |x.codes| + |mcu|
    ensures AddMcu(s, x, mcu).codes[|x.codes| + n] == BlockCodes(s, s.components[s.membership[n]], last, mcu[n])
    decreases |mcu|
  {
    hide BlockCodes, BlockInRange;
    var m := |mcu| - 1;
    CountCodes(s, x, mcu[..m]);
    if n < m {
      last := BlockOfMcu(s, x, mcu[..m], n);
    } else {
      last := AddMcu(s, x, mcu[..m]).last[s.membership[n]];
    }
  }

  lemma {:induction false} CountCodes(s: Scan, x: Progress, mcu: seq<block>)
    requires GoodScan(s) && |x.last| == |s.components| && |mcu| <= |s.membership|
    ensures |AddMcu(s, x, mcu).codes| == |x.codes| + |mcu|
  {
    hide BlockCodes, BlockInRange;
    if mcu != [] {
      CountCodes(s, x, mcu[..|mcu| - 1]);
    }
  }

  /** In an interval with an MCU every table is used whose component has blocks. */
  lemma IntervalUses(s: Scan, iv: seq<mcuBlocks>, ci: nat)
    requires GoodProgressive(s) && SizedMcus(s, iv) && iv != [] && ModeOf(s) != DcRefine
    requires ci < |s.components| && ci in s.membership
    ensures Uses(PT.ScanPieces(s, iv), TableNo(s, ci))
  {
    hide Uses, ScanProgress, AddMcu, BlockCodes, Rest;
    var n :| 0 <= n < |s.membership| && s.membership[n] == ci;
    var cs := ScanProgress(s, iv).codes;
    PT.ProgressNext(s, iv, 0);
    PT.ProgressPrefix(s, iv, 1, |iv|);
    PT.CodesAreGood(s, iv, |iv|);
    assert iv[..|iv|] == iv;
    var last := BlockOfMcu(s, NoProgress(s), iv[0], n);
    assert cs[n] == BlockCodes(s, s.components[ci], last, iv[0][n]);
    CodesUse(s, ci, last, iv[0][n]);
    BlockUses(RunTable(s), cs, 0, NONE, n, TableNo(s, ci));
  }

  // ----- the symbols of all intervals

  predicate SizedAll(s: Scan, ivs: seq<seq<mcuBlocks>>)
  {
    forall i :: 0 <= i < |ivs| ==> SizedMcus(s, ivs[i])
  }

  function IntervalTokens(s: Scan, iv: seq<mcuBlocks>): seq<Token>
    requires GoodScan(s) && SizedMcus(s, iv)
  {
    SymbolTokens(s.Ss == 0, PT.ScanPieces(s, iv))
  }

  /** The symbols of a scan, interval by interval. */
  function ScanTokens(s: Scan, ivs: seq<seq<mcuBlocks>>): seq<Token>
    requires GoodScan(s) && SizedAll(s, ivs)
  {
    if ivs == [] then []
    else
      var n := |ivs| - 1;
      ScanTokens(s, ivs[..n]) + IntervalTokens(s, ivs[n])
  }

  ghost predicate AllInRange(s: Scan, ivs: seq<seq<mcuBlocks>>)
    requires GoodScan(s)
  {
    forall i :: 0 <= i < |ivs| ==> SizedMcus(s, ivs[i]) && ScanProgress(s, ivs[i]).inRange
  }

  lemma OneMoreInterval(s: Scan, ivs: seq<seq<mcuBlocks>>, iv: seq<mcuBlocks>)
    requires GoodScan(s) && SizedAll(s, ivs) && SizedMcus(s, iv)
    ensures SizedAll(s, ivs + [iv]) && ScanTokens(s, ivs + [iv]) == ScanTokens(s, ivs) + IntervalTokens(s, iv)
    ensures AllInRange(s, ivs + [iv]) <==> AllInRange(s, ivs) && ScanProgress(s, iv).inRange
  {
    hide SizedMcus, ScanProgress, IntervalTokens;
    var all := ivs + [iv];
    assert all[..|ivs|] == ivs && all[|ivs|] == iv && forall i :: 0 <= i < |ivs| ==> all[i] == ivs[i];
  }

  lemma {:induction false} TokenOfInterval(s: Scan, ivs: seq<seq<mcuBlocks>>, i: nat, x: Token)
    requires GoodScan(s) && SizedAll(s, ivs) && i < |ivs| && x in IntervalTokens(s, ivs[i])
    ensures x in ScanTokens(s, ivs)
  {
    hide SizedMcus, IntervalTokens;
    var n := |ivs| - 1;
    if i < n {
      TokenOfInterval(s, ivs[..n], i, x);
    }
  }

  /** A token of a proper piece. */
  ghost predicate ProperToken(s: Scan, x: Token)
  {
    && x.dc == (s.Ss == 0) && x.sym <= LargestSymbol(s) && ModeOf(s) != DcRefine
    && exists ci :: 0 <= ci < |s.components| && x.tbl == TableNo(s, ci)
  }

  ghost predicate ProperTokens(s: Scan, xs: seq<Token>)
  {
    forall i :: 0 <= i < |xs| ==> ProperToken(s, xs[i])
  }

  lemma {:induction false} TokensOfProper(s: Scan, xs: seq<Piece>)
    requires AllProper(s, xs)
    ensures ProperTokens(s, SymbolTokens(s.Ss == 0, xs))
  {
    if xs != [] {
      var n := |xs| - 1;
      TokensOfProper(s, xs[..n]);
      assert Proper(s, xs[n]);
      PieceIsProper(s, xs[n]);
      ProperTokenParts(s, SymbolTokens(s.Ss == 0, xs[..n]), PieceTokens(s.Ss == 0, xs[n]));
    }
  }

  lemma PieceIsProper(s: Scan, x: Piece)
    requires Proper(s, x)
    ensures ProperTokens(s, PieceTokens(s.Ss == 0, x))
  {
  }

  lemma ProperTokenParts(s: Scan, xs: seq<Token>, ys: seq<Token>)
    requires ProperTokens(s, xs) && ProperTokens(s, ys)
    ensures ProperTokens(s, xs + ys)
  {
    hide ProperToken;
  }

  lemma {:induction false} ScanProper(s: Scan, ivs: seq<seq<mcuBlocks>>)
    requires GoodProgressive(s) && SizedAll(s, ivs) && AllInRange(s, ivs)
    ensures ProperTokens(s, ScanTokens(s, ivs))
  {
    hide SizedMcus, ScanProgress, ProperTokens, PT.ScanPieces, AllProper, GoodProgressive;
    ScanIsGood(s);
    if ivs == [] {
      NoTokens(s);
    } else {
      var n := |ivs| - 1;
      ScanProper(s, ivs[..n]);
      IntervalProper(s, ivs[n]);
      TokensOfProper(s, PT.ScanPieces(s, ivs[n]));
      ProperTokenParts(s, ScanTokens(s, ivs[..n]), IntervalTokens(s, ivs[n]));
    }
  }

  lemma NoTokens(s: Scan)
    ensures ProperTokens(s, [])
  {
  }

  // ----- the statistics pass

  /** The encoder in a statistics pass, with restarts: only the counts go on. */
  class RestartGatherer {
    const scan: Scan
    const restartInterval: nat
    const stats: HS.Counts
    var coder: E.Encoder
    var restartsToGo: nat
    ghost var parts: Intervals<mcuBlocks>

    ghost predicate Valid()
      reads this, coder, coder.w, coder.bitBuffer, stats, stats.dc, stats.ac
    {
      && GoodProgressive(scan) && coder.scan == scan && coder.gather && coder.stats == stats && coder.Valid()
      && SizedAll(scan, parts.done) && SizedMcus(scan, parts.current) && AllInRange(scan, parts.done)
      && coder.progress == ScanProgress(scan, parts.current) && coder.progress.inRange
      && coder.base == ScanTokens(scan, parts.done)
      && (restartInterval > 0 ==> |parts.current| + restartsToGo == restartInterval)
    }

    constructor (s: Scan, interval: nat)
      requires GoodProgressive(s)
      ensures Valid() && scan == s && restartInterval == interval && parts == Intervals([], [])
      ensures fresh(stats) && fresh(stats.dc) && fresh(stats.ac) && fresh(coder) && fresh(coder.w)
      ensures fresh(coder.bitBuffer)
    {
      hide E.Encoder.Valid, GoodProgressive, HS.Counts.Valid;
      ScanIsGood(s);
      scan, restartInterval, restartsToGo := s, interval, interval;
      var counts := new HS.Counts();
      stats := counts;
      coder := new E.Encoder.Gathering(s, counts);
      parts := Intervals([], []);
      new;
      PT.Starts(coder);
      NoProgressYet(s);
    }

    /** emit_restart, when nothing is output: count the pending run, and begin anew. */
    method EmitRestart()
      requires Valid()
      modifies this`coder, this`parts, coder, coder.w, stats, stats.dc, stats.ac
      ensures GoodProgressive(scan) && coder.scan == scan && coder.gather && coder.stats == stats && coder.Valid()
      ensures fresh(coder) && fresh(coder.w) && fresh(coder.bitBuffer)
      ensures parts == Intervals(old(parts.done) + [old(parts.current)], [])
      ensures SizedAll(scan, parts.done) && AllInRange(scan, parts.done) && SizedMcus(scan, [])
      ensures coder.progress == ScanProgress(scan, []) && coder.progress.inRange
      ensures coder.base == ScanTokens(scan, parts.done)
    {
      hide E.Encoder.Valid, GoodProgressive, HS.Counts.Valid, ScanProgress, AllInRange, ScanTokens, SizedAll, Rest;
      ScanIsGood(scan);
      coder.FinishGather();
      OneMoreInterval(scan, parts.done, parts.current);
      parts := Intervals(parts.done + [parts.current], []);
      coder := new E.Encoder.Gathering(scan, stats);
      PT.Starts(coder);
      NoProgressYet(scan);
    }

    /** encode_mcu; false if a coefficient is out of range. */
    method EncodeMcu(mcu: mcuBlocks) returns (ok: bool)
      requires Valid() && |mcu| == |scan.membership| && forall i :: 0 <= i < |mcu| ==> SmallBlock(mcu[i])
      modifies this, coder, coder.w, coder.bitBuffer, stats, stats.dc, stats.ac
      ensures coder == old(coder) || (fresh(coder) && fresh(coder.w) && fresh(coder.bitBuffer))
      ensures parts == AddToInterval(restartInterval, old(parts), mcu)
      ensures GoodProgressive(scan) && SizedMcus(scan, parts.current)
      ensures ok == ScanProgress(scan, parts.current).inRange && (ok ==> Valid())
    {
      hide E.Encoder.Valid, GoodProgressive, AllInRange, ScanTokens, SizedAll, SmallBlock, AddMcu, ScanProgress;
      if restartInterval > 0 && restartsToGo == 0 {
        EmitRestart();
      }
      coder.EncodeMcu(mcu);
      OneMcuMore(scan, parts.current, mcu);
      parts := parts.(current := parts.current + [mcu]);
      if restartInterval > 0 {
        if restartsToGo == 0 {
          restartsToGo := restartInterval;
        }
        restartsToGo := restartsToGo - 1;
      }
      ok := !coder.failed;
      FailedSays(coder);
    }

    static lemma FailedSays(e: E.Encoder)
      requires e.Valid() && e.gather
      ensures e.failed == !e.progress.inRange
    {
    }

    /** The end of the pass: the last run is counted. */
    method FinishPass()
      requires Valid()
      modifies coder, coder.w, stats, stats.dc, stats.ac
      ensures GoodProgressive(scan) && SizedAll(scan, All(parts)) && AllInRange(scan, All(parts))
      ensures stats.Valid() && stats.log == ScanTokens(scan, All(parts))
    {
      hide E.Encoder.Valid, GoodProgressive, HS.Counts.Valid, ScanProgress, AllInRange, ScanTokens, SizedAll, Rest;
      ScanIsGood(scan);
      coder.FinishGather();
      OneMoreInterval(scan, parts.done, parts.current);
    }
  }

  /** The statistics pass of a scan in restart intervals of r MCUs. */
  method GatherScan(s: Scan, r: nat, mcus: seq<mcuBlocks>) returns (ok: bool, stats: HS.Counts)
    requires GoodProgressive(s) && GoodMcus(s, mcus)
    ensures GoodScan(s) && ok == AllInRange(s, All(Divide(r, mcus)))
    ensures ok ==> SizedAll(s, All(Divide(r, mcus))) && stats.Valid()
    ensures ok ==> stats.log == ScanTokens(s, All(Divide(r, mcus)))
  {
    hide RestartGatherer.Valid, HS.Counts.Valid, AllInRange, SizedAll, ScanTokens, Divide, All, AddToInterval,
      SmallBlock,
      GoodProgressive, ScanProgress, SizedMcus;
    ScanIsGood(s);
    var g := new RestartGatherer(s, r);
    NothingDivided(r, mcus);
    for m := 0 to |mcus|
      invariant g.Valid() && fresh(g) && fresh(g.coder) && fresh(g.coder.w) && fresh(g.coder.bitBuffer)
      invariant fresh(g.stats) && fresh(g.stats.dc) && fresh(g.stats.ac)
      invariant g.scan == s && g.restartInterval == r && g.parts == Divide(r, mcus[..m])
    {
      DivideNext(r, mcus, m);
      ok := g.EncodeMcu(mcus[m]);
      if !ok {
        NotAllInRange(s, r, mcus, m + 1);
        return false, g.stats;
      }
    }
    assert mcus[..|mcus|] == mcus;
    g.FinishPass();
    ok, stats := true, g.stats;
  }

  /** An interval that is out of range when begun stays so. */
  lemma NotAllInRange(s: Scan, r: nat, mcus: seq<mcuBlocks>, m: nat)
    requires GoodProgressive(s) && m <= |mcus| && SizedMcus(s, Divide(r, mcus[..m]).current)
    requires !ScanProgress(s, Divide(r, mcus[..m]).current).inRange
    ensures !AllInRange(s, All(Divide(r, mcus)))
  {
    hide Divide, Earlier, All, ScanProgress;
    var x, ivs := Divide(r, mcus[..m]), All(Divide(r, mcus));
    DivideInOrder(r, mcus, m);
    CurrentIs(x, Divide(r, mcus));
    var iv := ivs[|x.done|];
    assert iv[..|iv|] == iv;
    if AllInRange(s, ivs) {
      PT.ProgressPrefix(s, iv, |x.current|, |iv|);
    }
  }

  // ----- the tables

  /** The counts are those of the scan, and the tables of its components are used. */
  ghost predicate Gathered(s: Scan, xs: seq<Token>)
  {
    && ProperTokens(s, xs) && |xs| <= LARGEST
    && (ModeOf(s) != DcRefine ==> forall ci :: 0 <= ci < |s.components| ==> HO.Used(xs, s.Ss == 0, TableNo(s, ci)))
  }

  lemma SmallTokens(s: Scan, xs: seq<Token>)
    requires ProperTokens(s, xs)
    ensures forall i :: 0 <= i < |xs| ==> HO.SmallSymbol(xs[i])
  {
    forall i | 0 <= i < |xs| ensures HO.SmallSymbol(xs[i]) {
      assert ProperToken(s, xs[i]);
    }
  }

  ghost predicate AllHaveCodes(ts: seq<table>, xs: seq<Token>)
  {
    forall i :: 0 <= i < |xs| ==> Coded(ts, Symbol(xs[i].tbl, xs[i].sym))
  }

  lemma CountedHaveCodes(s: Scan, xs: seq<Token>, did: seq<bool>, ts: seq<table>)
    requires GoodProgressive(s) && ProperTokens(s, xs) && HO.Generated(xs, s.Ss == 0, did, ts)
    requires ModeOf(s) != DcRefine ==> forall ci :: 0 <= ci < |s.components| ==> did[TableNo(s, ci)]
    ensures AllHaveCodes(ts, xs)
  {
    hide OT.TableFor, HasCode;
    forall i | 0 <= i < |xs| ensures Coded(ts, Symbol(xs[i].tbl, xs[i].sym)) {
      assert ProperToken(s, xs[i]);
      HO.GeneratedCode(ts[xs[i].tbl], xs, i);
    }
  }

  /** For one of the tables some optimal lengths exceed 32. */
  ghost predicate SomeTooLong(xs: seq<Token>, dc: bool)
  {
    exists tbl :: HO.TooLong(xs, dc, tbl)
  }

  /** finish_pass_gather_phuff: a table for every component of the scan, each generated
      once; DC refinement needs none. */
  method FinishPassGather(s: Scan, stats: HS.Counts) returns (ok: bool, ts: seq<table>)
    requires GoodProgressive(s) && stats.Valid() && Gathered(s, stats.log)
    ensures ok ==> PT.GoodTables(ts, s.Ss == 0) && AllHaveCodes(ts, stats.log)
    ensures ok || SomeTooLong(stats.log, s.Ss == 0)
    ensures ok || HD.LONG_CODE_WEIGHT <= |stats.log| + 1
  {
    hide HO.TooLong, OT.TableFor, HO.Used, GoodTable, HS.Counts.Valid, ProperTokens, HO.SmallSymbol;
    ghost var xs := stats.log;
    SmallTokens(s, xs);
    var did := seq(NUM_HUFF_TBLS, _ => false);
    ts := seq(NUM_HUFF_TBLS, _ => HO.EmptyTable());
    for ci := 0 to |s.components|
      invariant HO.Generated(xs, s.Ss == 0, did, ts) && stats.Valid() && stats.log == xs
      invariant ModeOf(s) != DcRefine ==> forall c :: 0 <= c < ci ==> did[TableNo(s, c)]
    {
      if ModeOf(s) != DcRefine {
        var tbl := TableNo(s, ci);
        if !did[tbl] {
          var made, t := HO.GenerateTable(stats, s.Ss == 0, tbl);
          if !made {
            return false, ts;
          }
          HO.GeneratedOneMore(xs, s.Ss == 0, did, ts, tbl, t);
          did, ts := did[tbl := true], ts[tbl := t];
        }
      }
    }
    HO.GeneratedAreGood(xs, s.Ss == 0, did, ts);
    CountedHaveCodes(s, xs, did, ts);
    ok := true;
  }

  // ----- both passes

  /** All symbols counted have codes, so every interval can be coded. */
  lemma AllIntervalsCode(s: Scan, ts: seq<table>, ivs: seq<seq<mcuBlocks>>)
    requires GoodProgressive(s) && SizedAll(s, ivs) && AllInRange(s, ivs) && AllHaveCodes(ts, ScanTokens(s, ivs))
    ensures AllCode(s, ts, ivs)
  {
    hide Coded, ScanTokens, PT.ScanPieces, SymbolTokens, ScanProgress;
    forall i | 0 <= i < |ivs| ensures Codes(s, ts, ivs[i]) {
      var xs := PT.ScanPieces(s, ivs[i]);
      forall k | 0 <= k < |xs| ensures Coded(ts, xs[k]) {
        if xs[k].Symbol? {
          SymbolIsToken(s.Ss == 0, xs, k);
          TokenOfInterval(s, ivs, i, Token(s.Ss == 0, xs[k].tbl, xs[k].sym, 0, 0));
        } else {
          RawIsCoded(ts, xs[k]);
        }
      }
    }
  }

  lemma RawIsCoded(ts: seq<table>, x: Piece)
    requires x.Raw?
    ensures Coded(ts, x)
  {
  }

  lemma FirstInterval(r: nat, mcus: seq<mcuBlocks>)
    requires mcus != []
    ensures All(Divide(r, mcus))[0] != []
  {
    hide Earlier, All, Divide;
    NothingDivided(r, mcus);
    DivideNext(r, mcus, 0);
    DivideInOrder(r, mcus, 1);
    AddedLast(r, Divide(r, mcus[..0]), mcus[0]);
    EarlierHas(Divide(r, mcus[..1]), Divide(r, mcus));
  }

  lemma TablesAreUsed(s: Scan, ivs: seq<seq<mcuBlocks>>, ci: nat)
    requires GoodProgressive(s) && SizedAll(s, ivs) && ivs != [] && ivs[0] != [] && ModeOf(s) != DcRefine
    requires ci < |s.components| && ci in s.membership
    ensures HO.Used(ScanTokens(s, ivs), s.Ss == 0, TableNo(s, ci))
  {
    hide ScanTokens, PT.ScanPieces, SymbolTokens;
    IntervalUses(s, ivs[0], ci);
    var xs := PT.ScanPieces(s, ivs[0]);
    var k :| 0 <= k < |xs| && xs[k].Symbol? && xs[k].tbl == TableNo(s, ci);
    SymbolIsToken(s.Ss == 0, xs, k);
    TokenOfInterval(s, ivs, 0, Token(s.Ss == 0, xs[k].tbl, xs[k].sym, 0, 0));
  }

  /** The scan has few enough symbols to be counted. */
  ghost predicate Countable(s: Scan, r: nat, mcus: seq<mcuBlocks>)
  {
    var ivs := All(Divide(r, mcus));
    GoodScan(s) && SizedAll(s, ivs) ==> |ScanTokens(s, ivs)| <= LARGEST
  }

  /** It has so few that no code length can exceed 32. */
  ghost predicate FewSymbols(s: Scan, r: nat, mcus: seq<mcuBlocks>)
  {
    var ivs := All(Divide(r, mcus));
    GoodScan(s) && SizedAll(s, ivs) && |ScanTokens(s, ivs)| + 1 < HD.LONG_CODE_WEIGHT
  }

  /** Statistics, tables made from them, and the scan sent with these tables: it arrives
      unless a coefficient is out of range or a code length exceeds 32. */
  method OptimizeAndTransmit(s: Scan, r: nat, mcus: seq<mcuBlocks>, priors: seq<mcuBlocks>, marker: byte)
    returns (inRange: bool, ok: bool, out: seq<mcuBlocks>)
    requires GoodProgressive(s) && GoodMcus(s, mcus) && GoodOrder(s.naturalOrder) && A.GoodPriors(s, priors, mcus)
    requires (forall ci :: 0 <= ci < |s.components| ==> ci in s.membership) && mcus != [] && Countable(s, r, mcus)
    requires marker != 0 && marker != 0xFF && !IsRestart(marker)
    ensures GoodScan(s) && inRange == AllInRange(s, All(Divide(r, mcus)))
    ensures inRange && ok ==> |out| == |priors| && A.ScanReceived(s, priors, mcus, out)
    ensures inRange && !ok ==> (SizedAll(s, All(Divide(r, mcus)))
      && SomeTooLong(ScanTokens(s, All(Divide(r, mcus))), s.Ss == 0))
    ensures inRange && FewSymbols(s, r, mcus) ==> ok
  {
    hide GoodProgressive, GoodMcus, GoodOrder, A.GoodPriors, A.ScanReceived, AllInRange, SizedAll, ScanTokens, Divide,
      All, HO.TooLong, PT.GoodTables, AllHaveCodes, AllCode, HO.Used, ProperTokens, HS.Counts.Valid;
    ok, out := false, priors;
    ghost var ivs := All(Divide(r, mcus));
    var stats: HS.Counts;
    inRange, stats := GatherScan(s, r, mcus);
    if inRange {
      FirstInterval(r, mcus);
      ScanProper(s, ivs);
      if ModeOf(s) != DcRefine {
        forall ci | 0 <= ci < |s.components| ensures HO.Used(stats.log, s.Ss == 0, TableNo(s, ci)) {
          TablesAreUsed(s, ivs, ci);
        }
      }
      var made, ts := FinishPassGather(s, stats);
      if made {
        AllIntervalsCode(s, ts, ivs);
        GoodTablesAreFour(ts, s.Ss == 0);
        ok, out := TransmitScan(s, r, ts, mcus, priors, marker);
      }
    }
  }

  lemma GoodTablesAreFour(ts: seq<table>, isDC: bool)
    requires PT.GoodTables(ts, isDC)
    ensures |ts| == NUM_HUFF_TBLS
  {
  }
}
