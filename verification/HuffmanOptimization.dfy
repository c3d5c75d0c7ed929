/**
 Two-pass Huffman coding: statistics, optimal tables, and the output pass with those
 tables.
 */
module HuffmanOptimization {
  import opened Bytes
  import opened CanonicalCode
  import opened HuffmanTables
  import opened CoefficientModel
  import opened ScanSetup
  import opened HuffmanModel
  import opened HuffmanTree
  import opened HuffmanDepth
  import opened OptimalTable
  import opened SymbolList
  import opened HuffmanStatistics
  import HuffmanTransmission
  import HuffmanEncoder

  // ----- what the tokens of a scan look like

  /** The token belongs to a component of the scan, and its symbol packs its size. */
  ghost predicate Proper(s: HuffScan, x: Token)
  {
    && (exists ci :: (0 <= ci < |s.components|
      && x.tbl == if x.dc then s.components[ci].dcTbl else s.components[ci].acTbl))
    && x.extra < Pow2(x.size)
    && (if x.dc then x.sym == x.size else x.size <= x.sym <= 240 + x.size)
  }

  ghost predicate AllProper(s: HuffScan, xs: seq<Token>)
  {
    forall i :: 0 <= i < |xs| ==> Proper(s, xs[i])
  }

  lemma ProperParts(s: HuffScan, xs: seq<Token>, ys: seq<Token>)
    requires AllProper(s, xs) && AllProper(s, ys)
    ensures AllProper(s, xs + ys)
  {
    hide Proper;
  }

  lemma ExtraFits(v: int)
    ensures ExtraBits(v) < Pow2(Magnitude(v))
  {
  }

  lemma {:induction false} AcProper(s: HuffScan, ci: nat, z: zigzag, k: nat)
    requires ci < |s.components| && k <= 64
    ensures AllProper(s, AcTokens(s.components[ci].acTbl, z, k))
    decreases 64 - k
  {
    hide Pow2, ExtraBits, Magnitude;
    var tbl, n := s.components[ci].acTbl, NextNonzero(z, k);
    HuffmanEncoder.AcTokensAre(tbl, z, k);
    assert Pow2(0) == 1 by { NoBits(); }
    if k == 64 {
    } else if n == 64 {
      assert Proper(s, Token(false, tbl, EOB, 0, 0));
    } else if n - k > 15 {
      assert Proper(s, Token(false, tbl, ZRL, 0, 0));
      AcProper(s, ci, z, k + 16);
      ProperParts(s, [Token(false, tbl, ZRL, 0, 0)], AcTokens(tbl, z, k + 16));
    } else {
      ExtraFits(z[n]);
      assert Proper(s, AcToken(tbl, n - k, z[n]));
      AcProper(s, ci, z, n + 1);
      ProperParts(s, [AcToken(tbl, n - k, z[n])], AcTokens(tbl, z, n + 1));
    }
  }

  lemma NoBits()
    ensures Pow2(0) == 1
  {
  }

  lemma BlockProper(s: HuffScan, ci: nat, diff: int, z: zigzag)
    requires ci < |s.components|
    ensures AllProper(s, BlockTokens(s.components[ci], diff, z))
  {
    hide Pow2, ExtraBits, Magnitude, AcTokens;
    var c := s.components[ci];
    ExtraFits(diff);
    AcProper(s, ci, z, 1);
    assert Proper(s, DcToken(c.dcTbl, diff));
    ProperParts(s, [DcToken(c.dcTbl, diff)], AcTokens(c.acTbl, z, 1));
  }

  lemma {:induction false} McuProper(s: HuffScan, last: seq<int>, mcu: seq<block>)
    requires GoodHuffScan(s) && |last| == |s.components| && |mcu| <= |s.membership|
    ensures AllProper(s, McuTokens(s, last, mcu))
    decreases |mcu|
  {
    hide Proper, BlockTokens;
    if mcu != [] {
      var n := |mcu| - 1;
      McuProper(s, last, mcu[..n]);
      BlockProper(s, s.membership[n], mcu[n][0] - LastDc(s, last, mcu[..n])[s.membership[n]],
        Zigzag(mcu[n], s.naturalOrder));
      ProperParts(s, McuTokens(s, last, mcu[..n]), NthBlockTokens(s, LastDc(s, last, mcu[..n]), n, mcu[n]));
    }
  }

  function AllTokens(s: HuffScan, mcus: seq<seq<block>>): seq<Token>
    requires GoodHuffScan(s) && GoodHuffMcus(s, mcus)
  {
    Flat(ScanSent(s, mcus).intervals)
  }

  /** The tokens of one more MCU are appended. */
  lemma AllTokensNext(s: HuffScan, mcus: seq<seq<block>>, m: nat)
    requires GoodHuffScan(s) && GoodHuffMcus(s, mcus) && m < |mcus|
    ensures var x := Restarted(s, ScanSent(s, mcus[..m]), m);
      AllTokens(s, mcus[..m + 1]) == AllTokens(s, mcus[..m]) + McuTokens(s, x.last, mcus[m])
  {
    hide McuTokens, LastDc, GoodHuffScan, Flat, Extended;
    ScanSentNext(s, mcus, m);
    FlatRestarted(s, ScanSent(s, mcus[..m]), m);
    FlatExtended(s, Restarted(s, ScanSent(s, mcus[..m]), m), mcus[m]);
  }

  lemma FlatNothing()
    ensures Flat([[]]) == []
  {
    var none: seq<seq<Token>> := [[]];
    assert none[..0] == [];
  }

  lemma {:induction false} ScanProper(s: HuffScan, mcus: seq<seq<block>>, m: nat)
    requires GoodHuffScan(s) && GoodHuffMcus(s, mcus) && m <= |mcus|
    ensures AllProper(s, AllTokens(s, mcus[..m]))
  {
    hide Proper, McuTokens;
    if m == 0 {
      assert mcus[..0] == [];
      FlatNothing();
    } else {
      ScanProper(s, mcus, m - 1);
      AllTokensNext(s, mcus, m - 1);
      var x := Restarted(s, ScanSent(s, mcus[..m - 1]), m - 1);
      McuProper(s, x.last, mcus[m - 1]);
      ProperParts(s, AllTokens(s, mcus[..m - 1]), McuTokens(s, x.last, mcus[m - 1]));
    }
  }

  lemma {:induction false} TokensPrefix(s: HuffScan, mcus: seq<seq<block>>, m: nat, n: nat)
    requires GoodHuffScan(s) && GoodHuffMcus(s, mcus) && m <= n <= |mcus|
    ensures AllTokens(s, mcus[..m]) <= AllTokens(s, mcus[..n])
    decreases n
  {
    hide McuTokens, AllTokens;
    if m < n {
      TokensPrefix(s, mcus, m, n - 1);
      AllTokensNext(s, mcus, n - 1);
    }
  }

  // ----- the statistics pass

  method GatherScan(s: HuffScan, mcus: seq<seq<block>>) returns (ok: bool, stats: Counts)
    requires GoodHuffScan(s) && GoodHuffMcus(s, mcus)
    ensures fresh(stats) && (ok <==> TokensInRange(AllTokens(s, mcus)))
    ensures ok ==> stats.Valid() && stats.log == AllTokens(s, mcus)
  {
    hide Gatherer.Valid, GoodHuffScan, TokensInRange, McuTokens, Extended, Restarts, ScanSent, AllTokens, Flat;
    var g := new Gatherer(s);
    assert mcus[..0] == [];
    NoTokensYet(s, mcus);
    for m := 0 to |mcus|
      invariant g.Valid() && fresh(g) && fresh(g.stats) && fresh(g.stats.dc) && fresh(g.stats.ac) && g.scan == s
      invariant g.mcuCount == m && g.sent == ScanSent(s, mcus[..m]) && TokensInRange(AllTokens(s, mcus[..m]))
    {
      ScanSentNext(s, mcus, m);
      AllTokensNext(s, mcus, m);
      InRangeParts(AllTokens(s, mcus[..m]), McuTokens(s, Restarted(s, g.sent, m).last, mcus[m]));
      ok := g.EncodeMcuGather(mcus[m]);
      if !ok {
        TokensPrefix(s, mcus, m + 1, |mcus|);
        var some, all := AllTokens(s, mcus[..m + 1]), AllTokens(s, mcus[..|mcus|]);
        assert all == some + all[|some|..] && mcus[..|mcus|] == mcus;
        InRangeParts(some, all[|some|..]);
        return false, g.stats;
      }
    }
    assert mcus[..|mcus|] == mcus;
    GathererSays(g, s, mcus);
    return true, g.stats;
  }

  lemma NoTokensYet(s: HuffScan, mcus: seq<seq<block>>)
    requires GoodHuffScan(s) && GoodHuffMcus(s, mcus)
    ensures TokensInRange(AllTokens(s, mcus[..0]))
  {
    assert mcus[..0] == [];
    FlatNothing();
  }

  lemma GathererSays(g: Gatherer, s: HuffScan, mcus: seq<seq<block>>)
    requires g.Valid() && GoodHuffScan(s) && GoodHuffMcus(s, mcus) && g.sent == ScanSent(s, mcus)
    ensures g.stats.Valid() && g.stats.log == AllTokens(s, mcus)
  {
  }

  // ----- the counts of one table

  /** The counts of the real symbols of a table. */
  function Row(xs: seq<Token>, dc: bool, tbl: nat): seq<nat>
  {
    seq(256, sym requires 0 <= sym < 256 => Count(xs, dc, tbl, sym))
  }

  lemma {:induction false} RowSum(xs: seq<Token>, dc: bool, tbl: nat)
    ensures Sum(Row(xs, dc, tbl)) <= |xs|
  {
    hide Sum;
    if xs == [] {
      assert Row(xs, dc, tbl) == seq(256, _ => 0);
      ZeroSum(256);
    } else {
      var n := |xs| - 1;
      var x, row := xs[n], Row(xs[..n], dc, tbl);
      RowSum(xs[..n], dc, tbl);
      if x.dc == dc && x.tbl == tbl && x.sym < 256 {
        assert Row(xs, dc, tbl) == row[x.sym := row[x.sym] + 1];
        SumUpdate(row, x.sym, row[x.sym] + 1);
      } else {
        assert Row(xs, dc, tbl) == row;
      }
    }
  }

  lemma {:induction false} ZeroSum(n: nat)
    ensures Sum(seq(n, _ => 0)) == 0
  {
    if n > 0 {
      ZeroSum(n - 1);
      assert seq(n, _ => 0)[..n - 1] == seq(n - 1, _ => 0);
    }
  }

  lemma {:induction false} ZeroTail(s: seq<nat>, k: nat)
    requires k <= |s| && forall i :: k <= i < |s| ==> s[i] == 0
    ensures Nonzeros(s) <= k
    decreases |s|
  {
    if |s| > k {
      ZeroTail(s[..|s| - 1], k);
    }
  }

  lemma {:induction false} OneNonzero(s: seq<nat>, i: nat)
    requires i < |s| && s[i] > 0
    ensures Nonzeros(s) > 0
  {
    if i < |s| - 1 {
      OneNonzero(s[..|s| - 1], i);
    }
  }

  /** Symbols of tokens in range are small. */
  predicate SmallSymbol(x: Token)
  {
    x.sym <= if x.dc then MAX_COEF_BITS + 1 else 250
  }

  lemma {:induction false} LargeSymbolsAreNotCounted(xs: seq<Token>, dc: bool, tbl: nat, sym: nat)
    requires forall i :: 0 <= i < |xs| ==> SmallSymbol(xs[i])
    requires sym > if dc then MAX_COEF_BITS + 1 else 250
    ensures Count(xs, dc, tbl, sym) == 0
  {
    if xs != [] {
      LargeSymbolsAreNotCounted(xs[..|xs| - 1], dc, tbl, sym);
    }
  }

  ghost predicate Used(xs: seq<Token>, dc: bool, tbl: nat)
  {
    exists i :: 0 <= i < |xs| && xs[i].dc == dc && xs[i].tbl == tbl
  }

  /** The counts of a table that is used are such as the table generator accepts. */
  lemma RowIsAcceptable(xs: seq<Token>, dc: bool, tbl: nat)
    requires (forall i :: 0 <= i < |xs| ==> SmallSymbol(xs[i])) && Used(xs, dc, tbl)
    ensures 1 <= Nonzeros(Row(xs, dc, tbl)) <= 254
  {
    hide Nonzeros, Count;
    var row := Row(xs, dc, tbl);
    forall sym | 251 <= sym < 256 ensures row[sym] == 0 {
      LargeSymbolsAreNotCounted(xs, dc, tbl, sym);
    }
    ZeroTail(row, 251);
    var i :| 0 <= i < |xs| && xs[i].dc == dc && xs[i].tbl == tbl;
    CountPositive(xs, i);
    assert SmallSymbol(xs[i]);
    OneNonzero(row, xs[i].sym);
  }

  /** A table generated for the counts has only symbols that were counted. */
  lemma GeneratedSymbols(t: table, xs: seq<Token>, dc: bool, tbl: nat)
    requires TableFor(t, Row(xs, dc, tbl)) && forall i :: 0 <= i < |xs| ==> SmallSymbol(xs[i])
    ensures GoodTable(t, dc) && CodeCount(t) <= 256
  {
    hide Legal, Start, Count, Nonzeros;
    forall p | 0 <= p < CodeCount(t) ensures t.huffval[p] <= MaxSymbol(dc) {
      ListedHasCode(t, p);
      if dc && t.huffval[p] > 15 {
        LargeSymbolsAreNotCounted(xs, dc, tbl, t.huffval[p]);
      }
    }
  }

  lemma ListedHasCode(t: table, p: nat)
    requires p < CodeCount(t) <= 256
    ensures HasCode(t, t.huffval[p])
  {
    hide Start;
  }

  /** The generated table has a code for every token counted. */
  lemma GeneratedCode(t: table, xs: seq<Token>, i: nat)
    requires i < |xs| && TableFor(t, Row(xs, xs[i].dc, xs[i].tbl)) && xs[i].sym < 256
    ensures CodeCount(t) <= 256 && HasCode(t, xs[i].sym)
  {
    hide Legal, Start, Count, Nonzeros, ValidSymbols;
    CountPositive(xs, i);
  }

  /** A table without codes. */
  function EmptyTable(): table
  {
    HuffTable(seq(17, _ => 0), seq(256, _ => 0))
  }

  lemma {:induction false} EmptyFirst(l: nat)
    requires 1 <= l <= 17
    ensures First(EmptyTable().bits, l) == 0 && Start(EmptyTable().bits, l) == 0
  {
    if l > 1 {
      EmptyFirst(l - 1);
    }
  }

  lemma EmptyIsGood(isDC: bool)
    ensures GoodTable(EmptyTable(), isDC)
  {
    hide First, Start;
    EmptyFirst(17);
    forall l | 1 <= l <= 16 ensures First(EmptyTable().bits, l) + EmptyTable().bits[l] < Pow2(l) {
      EmptyFirst(l);
    }
  }

  // ----- the tables of a scan

  /** The tokens counted are those of the scan, and every table of its components has
      been used. */
  ghost predicate Gathered(s: HuffScan, xs: seq<Token>)
  {
    && AllProper(s, xs) && TokensInRange(xs) && |xs| <= LARGEST
    && forall ci :: 0 <= ci < |s.components| ==>
      Used(xs, true, s.components[ci].dcTbl) && Used(xs, false, s.components[ci].acTbl)
  }

  lemma GatheredAreSmall(s: HuffScan, xs: seq<Token>)
    requires Gathered(s, xs)
    ensures forall i :: 0 <= i < |xs| ==> SmallSymbol(xs[i])
  {
    hide Pow2, Used;
    forall i | 0 <= i < |xs| ensures SmallSymbol(xs[i]) {
      assert Proper(s, xs[i]) && TokenInRange(xs[i]);
    }
  }

  /** Some optimal code for the counts of a table has a length over 32. */
  ghost predicate TooLong(xs: seq<Token>, dc: bool, tbl: nat)
  {
    exists cs: symbols :: OptimalLengths(Row(xs, dc, tbl) + [1], cs) && exists i :: 0 <= i < SYMBOLS && cs[i] > MAX_CLEN
  }

  method GenerateTable(stats: Counts, dc: bool, tbl: nat) returns (ok: bool, t: table)
    requires stats.Valid() && tbl < NUM_HUFF_TBLS && Used(stats.log, dc, tbl) && |stats.log| <= LARGEST
    requires forall i :: 0 <= i < |stats.log| ==> SmallSymbol(stats.log[i])
    ensures ok ==> TableFor(t, Row(stats.log, dc, tbl))
    ensures ok || (TooLong(stats.log, dc, tbl) && LONG_CODE_WEIGHT <= |stats.log| + 1)
  {
    hide Count, Nonzeros, Sum, TableFor, Used, SmallSymbol, OptimalLengths;
    ghost var row := Row(stats.log, dc, tbl);
    var freq := new nat[SYMBOLS];
    for sym := 0 to SYMBOLS
      invariant forall j :: 0 <= j < sym ==> freq[j] == Count(stats.log, dc, tbl, j)
      invariant stats.Valid()
    {
      freq[sym] := if dc then stats.dc[tbl, sym] else stats.ac[tbl, sym];
    }
    assert freq[..256] == row;
    RowIsAcceptable(stats.log, dc, tbl);
    RowSum(stats.log, dc, tbl);
    ghost var cs;
    ok, t, cs := GenOptimalTable(freq);
  }

  /** What is known of the tables generated so far. */
  ghost predicate Generated(xs: seq<Token>, dc: bool, did: seq<bool>, ts: seq<table>)
  {
    && |did| == NUM_HUFF_TBLS && |ts| == NUM_HUFF_TBLS
    && forall t :: 0 <= t < NUM_HUFF_TBLS ==> if did[t] then TableFor(ts[t], Row(xs, dc, t)) else ts[t] == EmptyTable()
  }

  lemma GeneratedOneMore(xs: seq<Token>, dc: bool, did: seq<bool>, ts: seq<table>, tbl: nat, t: table)
    requires Generated(xs, dc, did, ts) && tbl < NUM_HUFF_TBLS && TableFor(t, Row(xs, dc, tbl))
    ensures Generated(xs, dc, did[tbl := true], ts[tbl := t])
  {
    hide TableFor, Count;
  }

  lemma GeneratedAreGood(xs: seq<Token>, dc: bool, did: seq<bool>, ts: seq<table>)
    requires Generated(xs, dc, did, ts) && forall i :: 0 <= i < |xs| ==> SmallSymbol(xs[i])
    ensures forall t :: 0 <= t < NUM_HUFF_TBLS ==> GoodTable(ts[t], dc)
  {
    hide TableFor, SmallSymbol, Count, GoodTable;
    forall t | 0 <= t < NUM_HUFF_TBLS ensures GoodTable(ts[t], dc) {
      if did[t] {
        GeneratedSymbols(ts[t], xs, dc, t);
      } else {
        EmptyIsGood(dc);
      }
    }
  }

  /** Every token counted can be sent with the tables generated. */
  lemma GeneratedSend(s: HuffScan, xs: seq<Token>, didDc: seq<bool>, didAc: seq<bool>, ts: HuffTables)
    requires GoodHuffScan(s) && Gathered(s, xs) && Generated(xs, true, didDc, ts.dc)
      && Generated(xs, false, didAc, ts.ac)
    requires forall ci :: 0 <= ci < |s.components| ==> didDc[s.components[ci].dcTbl] && didAc[s.components[ci].acTbl]
    ensures AllSendable(ts, xs)
  {
    hide TableFor, Used, HasCode, Count, Pow2;
    GatheredAreSmall(s, xs);
    forall i | 0 <= i < |xs| ensures Sendable(ts, xs[i]) {
      assert Proper(s, xs[i]) && TokenInRange(xs[i]) && SmallSymbol(xs[i]);
      GeneratedCode(TableOf(ts, xs[i]), xs, i);
    }
  }

  /** finish_pass_gather: a table for every table number that the scan's components
      name, each generated once; ok is false if a code length exceeded 32. */
  method FinishPassGather(s: HuffScan, stats: Counts) returns (ok: bool, ts: HuffTables)
    requires GoodHuffScan(s) && stats.Valid() && Gathered(s, stats.log)
    ensures ok ==> GoodTables(ts) && AllSendable(ts, stats.log)
    ensures ok || exists dc, tbl :: TooLong(stats.log, dc, tbl)
    ensures ok || LONG_CODE_WEIGHT <= |stats.log| + 1
  {
    hide TooLong, TableFor, Used, Sendable, GoodTable, stats.Valid, Proper, TokenInRange, SmallSymbol;
    ghost var xs := stats.log;
    GatheredAreSmall(s, xs);
    var didDc, didAc := seq(NUM_HUFF_TBLS, _ => false), seq(NUM_HUFF_TBLS, _ => false);
    var dc: seq<table>, ac: seq<table> := seq(NUM_HUFF_TBLS, _ => EmptyTable()), seq(NUM_HUFF_TBLS, _ => EmptyTable());
    ts := HuffTables(dc, ac);
    for ci := 0 to |s.components|
      invariant Generated(xs, true, didDc, dc) && Generated(xs, false, didAc, ac) && stats.Valid()
      invariant forall c :: 0 <= c < ci ==> didDc[s.components[c].dcTbl] && didAc[s.components[c].acTbl]
    {
      var dctbl, actbl := s.components[ci].dcTbl, s.components[ci].acTbl;
      if !didDc[dctbl] {
        var made, t := GenerateTable(stats, true, dctbl);
        if !made {
          return false, ts;
        }
        GeneratedOneMore(xs, true, didDc, dc, dctbl, t);
        didDc, dc := didDc[dctbl := true], dc[dctbl := t];
      }
      if !didAc[actbl] {
        var made, t := GenerateTable(stats, false, actbl);
        if !made {
          return false, ts;
        }
        GeneratedOneMore(xs, false, didAc, ac, actbl, t);
        didAc, ac := didAc[actbl := true], ac[actbl := t];
      }
    }
    ts := HuffTables(dc, ac);
    GeneratedAreGood(xs, true, didDc, dc);
    GeneratedAreGood(xs, false, didAc, ac);
    GeneratedSend(s, xs, didDc, didAc, ts);
    ok := true;
  }

  // ----- both passes

  /** Every component has a block in each MCU. */
  ghost predicate AllComponentsCoded(s: HuffScan)
  {
    forall ci :: 0 <= ci < |s.components| ==> ci in s.membership
  }

  lemma UsedLater(xs: seq<Token>, ys: seq<Token>, zs: seq<Token>, dc: bool, tbl: nat)
    requires Used(ys, dc, tbl)
    ensures Used(xs + ys + zs, dc, tbl)
  {
    var i :| 0 <= i < |ys| && ys[i].dc == dc && ys[i].tbl == tbl;
    assert (xs + ys + zs)[|xs| + i] == ys[i];
  }

  lemma BlockUses(c: Component, diff: int, z: zigzag)
    ensures Used(BlockTokens(c, diff, z), true, c.dcTbl) && Used(BlockTokens(c, diff, z), false, c.acTbl)
  {
    var xs := BlockTokens(c, diff, z);
    HuffmanEncoder.AcTokensAre(c.acTbl, z, 1);
    assert xs[0].dc && xs[0].tbl == c.dcTbl;
    assert !xs[1].dc && xs[1].tbl == c.acTbl;
  }

  lemma McuUses(s: HuffScan, last: seq<int>, mcu: seq<block>, b: nat)
    requires GoodHuffScan(s) && |last| == |s.components| && b < |mcu| == |s.membership|
    ensures var c := s.components[s.membership[b]];
      Used(McuTokens(s, last, mcu), true, c.dcTbl) && Used(McuTokens(s, last, mcu), false, c.acTbl)
  {
    hide BlockTokens, Used;
    var c := s.components[s.membership[b]];
    var before, own := McuTokens(s, last, mcu[..b]), NthBlockTokens(s, LastDc(s, last, mcu[..b]), b, mcu[b]);
    McuContinues(s, last, mcu, b);
    McuTokensPrefix(s, last, mcu, b + 1);
    var all, now := McuTokens(s, last, mcu), McuTokens(s, last, mcu[..b + 1]);
    assert all == before + own + all[|now|..];
    BlockUses(c, mcu[b][0] - LastDc(s, last, mcu[..b])[s.membership[b]], Zigzag(mcu[b], s.naturalOrder));
    UsedLater(before, own, all[|now|..], true, c.dcTbl);
    UsedLater(before, own, all[|now|..], false, c.acTbl);
  }

  lemma ScanUses(s: HuffScan, mcus: seq<seq<block>>, ci: nat)
    requires GoodHuffScan(s) && GoodHuffMcus(s, mcus) && mcus != [] && AllComponentsCoded(s) && ci < |s.components|
    ensures Used(AllTokens(s, mcus), true, s.components[ci].dcTbl)
      && Used(AllTokens(s, mcus), false, s.components[ci].acTbl)
  {
    hide Used, McuTokens, AllTokens;
    var m := |mcus| - 1;
    var x := Restarted(s, ScanSent(s, mcus[..m]), m);
    assert ci in s.membership;
    var b :| 0 <= b < |s.membership| && s.membership[b] == ci;
    McuUses(s, x.last, mcus[m], b);
    AllTokensNext(s, mcus, m);
    assert mcus[..m + 1] == mcus;
    var before, own := AllTokens(s, mcus[..m]), McuTokens(s, x.last, mcus[m]);
    assert before + own + [] == before + own;
    UsedLater(before, own, [], true, s.components[ci].dcTbl);
    UsedLater(before, own, [], false, s.components[ci].acTbl);
  }

  lemma {:induction false} SendableIntervals(ts: HuffTables, intervals: seq<seq<Token>>)
    requires AllSendable(ts, Flat(intervals))
    ensures forall i :: 0 <= i < |intervals| ==> AllSendable(ts, intervals[i])
  {
    hide Sendable, TokensBits, AllSendable;
    if intervals != [] {
      var n := |intervals| - 1;
      var rest := intervals[..n];
      SendableParts(ts, Flat(rest), intervals[n]);
      SendableIntervals(ts, rest);
      forall i | 0 <= i < |intervals| ensures AllSendable(ts, intervals[i]) {
        assert i < n ==> intervals[i] == rest[i];
      }
    }
  }

  /** Optimised Huffman coding loses nothing: with coefficients in range, the tables
      made from the statistics can send the scan, and it is received unchanged.  Only a
      code length over 32 is an error, which a scan of fewer than 9227464 symbols never
      meets. */
  method OptimizeAndTransmit(s: HuffScan, mcus: seq<seq<block>>, marker: byte)
    returns (inRange: bool, ok: bool, out: seq<seq<block>>)
    requires GoodHuffScan(s) && GoodHuffMcus(s, mcus) && GoodOrder(s.naturalOrder) && AllComponentsCoded(s)
      && mcus != []
    requires forall m, i :: 0 <= m < |mcus| && 0 <= i < |mcus[m]| ==> SmallBlock(mcus[m][i])
    requires |AllTokens(s, mcus)| <= LARGEST
    requires marker != 0 && marker != 0xFF && !IsRestart(marker)
    ensures inRange <==> TokensInRange(AllTokens(s, mcus))
    ensures inRange && ok ==> out == mcus
    ensures inRange && !ok ==> exists dc, tbl :: TooLong(AllTokens(s, mcus), dc, tbl)
    ensures inRange && |AllTokens(s, mcus)| + 1 < LONG_CODE_WEIGHT ==> ok
  {
    hide TooLong, GoodHuffScan, GoodHuffMcus, GoodOrder, AllComponentsCoded, SmallBlock, AllTokens, TokensInRange,
      AllProper, Used, Counts.Valid, GoodTables, AllSendable;
    var stats: Counts;
    inRange, stats := GatherScan(s, mcus);
    ok, out := false, [];
    if inRange {
      ScanProper(s, mcus, |mcus|);
      assert mcus[..|mcus|] == mcus;
      forall ci | 0 <= ci < |s.components|
        ensures Used(stats.log, true, s.components[ci].dcTbl) && Used(stats.log, false, s.components[ci].acTbl)
      {
        ScanUses(s, mcus, ci);
      }
      var made, ts := FinishPassGather(s, stats);
      if made {
        ScanIsSendable(s, ts, mcus);
        ok, out := HuffmanTransmission.TransmitScan(s, ts, mcus, marker);
      }
    }
  }

  lemma ScanIsSendable(s: HuffScan, ts: HuffTables, mcus: seq<seq<block>>)
    requires GoodHuffScan(s) && GoodHuffMcus(s, mcus) && GoodTables(ts) && AllSendable(ts, AllTokens(s, mcus))
    ensures |ts.dc| == NUM_HUFF_TBLS && |ts.ac| == NUM_HUFF_TBLS && ScanSendable(ts, ScanSent(s, mcus))
  {
    hide Sendable, ScanSent, GoodTable, GoodHuffScan, GoodHuffMcus;
    SendableIntervals(ts, ScanSent(s, mcus).intervals);
  }
}
