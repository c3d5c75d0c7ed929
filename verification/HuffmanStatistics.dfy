/**
 The statistics pass of Huffman optimisation: it counts exactly the symbols that the
 output pass emits, so that tables generated from the counts have all codes needed.
 */
module HuffmanStatistics {
  import opened BitStrings
  import opened CoefficientModel
  import opened ScanSetup
  import opened HuffmanModel
  import opened HuffmanTree
  import HuffmanEncoder

  const MAX_COEF_BITS := 10

  /** How often a symbol of a table occurs in a token list. */
  function Count(xs: seq<Token>, dc: bool, tbl: nat, sym: nat): nat
  {
    if xs == [] then 0
    else
      var n := |xs| - 1;
      Count(xs[..n], dc, tbl, sym) + if xs[n].dc == dc && xs[n].tbl == tbl && xs[n].sym == sym then 1 else 0
  }

  /** The places at which it occurs. */
  function Occurrences(xs: seq<Token>, dc: bool, tbl: nat, sym: nat): set<nat>
  {
    set i | 0 <= i < |xs| && xs[i].dc == dc && xs[i].tbl == tbl && xs[i].sym == sym
  }

  lemma {:induction false} CountIsNumber(xs: seq<Token>, dc: bool, tbl: nat, sym: nat)
    ensures Count(xs, dc, tbl, sym) == |Occurrences(xs, dc, tbl, sym)|
  {
    hide Occurrences;
    if xs == [] {
      NoOccurrence(dc, tbl, sym);
    } else {
      var n := |xs| - 1;
      CountIsNumber(xs[..n], dc, tbl, sym);
      LastOccurrence(xs, dc, tbl, sym);
    }
  }

  lemma NoOccurrence(dc: bool, tbl: nat, sym: nat)
    ensures Occurrences([], dc, tbl, sym) == {}
  {
  }

  lemma LastOccurrence(xs: seq<Token>, dc: bool, tbl: nat, sym: nat)
    requires xs != []
    ensures var n := |xs| - 1; var before := Occurrences(xs[..n], dc, tbl, sym);
      n !in before && Occurrences(xs, dc, tbl, sym) ==
        if xs[n].dc == dc && xs[n].tbl == tbl && xs[n].sym == sym then before + {n} else before
  {
  }

  lemma CountSnoc(xs: seq<Token>, x: Token, dc: bool, tbl: nat, sym: nat)
    ensures Count(xs + [x], dc, tbl, sym) == Count(xs, dc, tbl, sym) + if x.dc == dc && x.tbl == tbl
      && x.sym == sym then 1 else 0
  {
    assert (xs + [x])[..|xs|] == xs;
  }

  lemma {:induction false} CountPositive(xs: seq<Token>, i: nat)
    requires i < |xs|
    ensures Count(xs, xs[i].dc, xs[i].tbl, xs[i].sym) > 0
  {
    var n := |xs| - 1;
    if i < n {
      CountPositive(xs[..n], i);
    }
  }

  /** The coefficient is in the range of 8-bit samples. */
  predicate TokenInRange(x: Token)
  {
    x.size <= if x.dc then MAX_COEF_BITS + 1 else MAX_COEF_BITS
  }

  predicate TokensInRange(xs: seq<Token>)
  {
    forall i :: 0 <= i < |xs| ==> TokenInRange(xs[i])
  }

  /** The counts of DC and AC symbols, by table. */
  class Counts {
    const dc: array2<nat>
    const ac: array2<nat>
    ghost var log: seq<Token>

    ghost predicate Valid()
      reads this, dc, ac
    {
      && dc != ac && dc.Length0 == NUM_HUFF_TBLS && dc.Length1 == SYMBOLS && ac.Length0 == NUM_HUFF_TBLS
        && ac.Length1 == SYMBOLS
      && forall t, s :: 0 <= t < NUM_HUFF_TBLS && 0 <= s < SYMBOLS ==>
        dc[t, s] == Count(log, true, t, s) && ac[t, s] == Count(log, false, t, s)
    }

    constructor ()
      ensures Valid() && fresh(dc) && fresh(ac) && log == []
    {
      dc := new nat[NUM_HUFF_TBLS, SYMBOLS]((_, _) => 0);
      ac := new nat[NUM_HUFF_TBLS, SYMBOLS]((_, _) => 0);
      log := [];
    }

    method AddDc(tbl: nat, sym: nat, ghost x: Token)
      requires Valid() && tbl < NUM_HUFF_TBLS && sym < SYMBOLS && x.dc && x.tbl == tbl && x.sym == sym
      modifies dc, this`log
      ensures Valid() && log == old(log) + [x]
    {
      hide Count;
      forall d, t, s ensures Count(log + [x], d, t, s) == Count(log, d, t, s) + if x.dc == d && x.tbl == t
        && x.sym == s then 1 else 0 {
        CountSnoc(log, x, d, t, s);
      }
      dc[tbl, sym] := dc[tbl, sym] + 1;
      log := log + [x];
    }

    method AddAc(tbl: nat, sym: nat, ghost x: Token)
      requires Valid() && tbl < NUM_HUFF_TBLS && sym < SYMBOLS && !x.dc && x.tbl == tbl && x.sym == sym
      modifies ac, this`log
      ensures Valid() && log == old(log) + [x]
    {
      hide Count;
      forall d, t, s ensures Count(log + [x], d, t, s) == Count(log, d, t, s) + if x.dc == d && x.tbl == t
        && x.sym == s then 1 else 0 {
        CountSnoc(log, x, d, t, s);
      }
      ac[tbl, sym] := ac[tbl, sym] + 1;
      log := log + [x];
    }
  }

  method CountBits(v: nat) returns (nbits: nat)
    ensures nbits == BitLength(v)
  {
    nbits := 0;
    var temp := v;
    while temp != 0
      invariant nbits + BitLength(temp) == BitLength(v)
    {
      nbits := nbits + 1;
      temp := temp / 2;
    }
  }

  /** What is still to be counted of a block. */
  ghost predicate Remaining(tbl: nat, z: zigzag, k: nat, log: seq<Token>, base: seq<Token>, xs: seq<Token>)
    requires k <= 64
  {
    log + AcTokens(tbl, z, k) == base + xs && |base| <= |log| && TokensInRange(log[|base|..])
  }

  lemma CountNext(tbl: nat, z: zigzag, k: nat, x: Token, j: nat, log: seq<Token>, base: seq<Token>, xs: seq<Token>)
    requires k <= 64 && j <= 64 && Remaining(tbl, z, k, log, base, xs)
      && AcTokens(tbl, z, k) == [x] + AcTokens(tbl, z, j)
    ensures TokenInRange(x) ==> Remaining(tbl, z, j, log + [x], base, xs)
    ensures !TokenInRange(x) ==> !TokensInRange(xs)
  {
    hide AcTokens, TokenInRange;
    assert log + ([x] + AcTokens(tbl, z, j)) == (log + [x]) + AcTokens(tbl, z, j);
    var i := |log| - |base|;
    assert (base + xs)[|log|] == x;
    assert xs[i] == x;
    assert (log + [x])[|base|..] == log[|base|..] + [x];
  }

  lemma NothingRemains(tbl: nat, z: zigzag, log: seq<Token>, base: seq<Token>, xs: seq<Token>)
    requires Remaining(tbl, z, 64, log, base, xs)
    ensures log == base + xs && TokensInRange(xs)
  {
    HuffmanEncoder.AcTokensAre(tbl, z, 64);
    assert log + [] == log;
    assert log[|base|..] == xs;
  }

  lemma RunInRange(tbl: nat)
    ensures TokenInRange(Token(false, tbl, ZRL, 0, 0)) && TokenInRange(Token(false, tbl, EOB, 0, 0))
  {
  }

  /** Count the symbols for a nonzero coefficient after a run of zeros. */
  method CountNonzero(stats: Counts, acTbl: nat, run: nat, k: nat, temp: int, ghost z: zigzag, ghost base: seq<Token>,
      ghost xs: seq<Token>) returns (ok: bool)
    requires stats.Valid() && acTbl < NUM_HUFF_TBLS && run < k < 64 && NextNonzero(z, k - run) == k && z[k] == temp
    requires Remaining(acTbl, z, k - run, stats.log, base, xs)
    modifies stats.ac, stats`log
    ensures stats.Valid() && (!ok ==> !TokensInRange(xs))
    ensures ok ==> Remaining(acTbl, z, k + 1, stats.log, base, xs)
  {
    hide stats.Valid, AcTokens, NextNonzero, Remaining, TokenInRange, TokensInRange, BitLength;
    var r := run;
    while r > 15
      invariant stats.Valid() && 0 <= r < k && NextNonzero(z, k - r) == k
        && Remaining(acTbl, z, k - r, stats.log, base, xs)
    {
      ghost var zrl := Token(false, acTbl, ZRL, 0, 0);
      HuffmanEncoder.RunOfSixteen(acTbl, z, k - r, k);
      CountNext(acTbl, z, k - r, zrl, k - r + 16, stats.log, base, xs);
      RunInRange(acTbl);
      stats.AddAc(acTbl, ZRL, zrl);
      r := r - 16;
    }
    var nbits := CountBits(Abs(temp));
    ghost var x := AcToken(acTbl, r, temp);
    HuffmanEncoder.AcTokensAre(acTbl, z, k - r);
    CountNext(acTbl, z, k - r, x, k + 1, stats.log, base, xs);
    RangeOf(x);
    if nbits > MAX_COEF_BITS {
      return false;
    }
    stats.AddAc(acTbl, 16 * r + nbits, x);
    ok := true;
  }

  lemma RangeOf(x: Token)
    ensures TokenInRange(x) <==> x.size <= if x.dc then MAX_COEF_BITS + 1 else MAX_COEF_BITS
  {
  }

  /** htest_one_block: every token of the block is counted, if all are in range. */
  method HtestOneBlock(stats: Counts, c: Component, b: block, lastDcVal: int, o: order) returns (ok: bool)
    requires stats.Valid() && c.dcTbl < NUM_HUFF_TBLS && c.acTbl < NUM_HUFF_TBLS
    modifies stats.dc, stats.ac, stats`log
    ensures stats.Valid() && (ok <==> TokensInRange(BlockTokens(c, b[0] - lastDcVal, Zigzag(b, o))))
    ensures ok ==> stats.log == old(stats.log) + BlockTokens(c, b[0] - lastDcVal, Zigzag(b, o))
  {
    hide stats.Valid, AcTokens, NextNonzero, Remaining, TokenInRange, TokensInRange, BitLength, Zigzag;
    ghost var z, base := Zigzag(b, o), stats.log;
    ghost var xs := BlockTokens(c, b[0] - lastDcVal, z);
    var temp := b[0] - lastDcVal;
    var nbits := CountBits(Abs(temp));
    ghost var first := DcToken(c.dcTbl, temp);
    FirstCounted(c, temp, z, base);
    RangeOf(first);
    if nbits > MAX_COEF_BITS + 1 {
      return false;
    }
    stats.AddDc(c.dcTbl, nbits, first);
    var r := 0;
    for k := 1 to 64
      invariant stats.Valid() && r < k && (forall j :: k - r <= j < k ==> z[j] == 0)
      invariant Remaining(c.acTbl, z, k - r, stats.log, base, xs)
    {
      temp := b[o[k]];
      ZigzagAt(b, o, k);
      if temp == 0 {
        r := r + 1;
      } else {
        NextNonzeroIs(z, k - r, k);
        var counted := CountNonzero(stats, c.acTbl, r, k, temp, z, base, xs);
        if !counted {
          return false;
        }
        r := 0;
      }
    }
    if r > 0 {
      ghost var eob := Token(false, c.acTbl, EOB, 0, 0);
      NextNonzeroIs(z, 64 - r, 64);
      HuffmanEncoder.AcTokensAre(c.acTbl, z, 64 - r);
      HuffmanEncoder.AcTokensAre(c.acTbl, z, 64);
      CountNext(c.acTbl, z, 64 - r, eob, 64, stats.log, base, xs);
      RunInRange(c.acTbl);
      stats.AddAc(c.acTbl, EOB, eob);
    }
    NothingRemains(c.acTbl, z, stats.log, base, xs);
    ok := true;
  }

  lemma FirstCounted(c: Component, diff: int, z: zigzag, base: seq<Token>)
    ensures var x, xs := DcToken(c.dcTbl, diff), BlockTokens(c, diff, z);
      && (TokenInRange(x) ==> Remaining(c.acTbl, z, 1, base + [x], base, xs))
      && (!TokenInRange(x) ==> !TokensInRange(xs))
  {
    hide AcTokens, TokenInRange;
    var x, xs := DcToken(c.dcTbl, diff), BlockTokens(c, diff, z);
    assert xs[0] == x;
    assert base + ([x] + AcTokens(c.acTbl, z, 1)) == (base + [x]) + AcTokens(c.acTbl, z, 1);
    assert (base + [x])[|base|..] == [x];
  }

  // ----- MCUs and scans

  function Flat(intervals: seq<seq<Token>>): seq<Token>
  {
    if intervals == [] then [] else Flat(intervals[..|intervals| - 1]) + intervals[|intervals| - 1]
  }

  lemma FlatExtended(s: HuffScan, x: Sent, mcu: seq<block>)
    requires GoodHuffScan(s) && |x.last| == |s.components| && |mcu| <= |s.membership| && x.intervals != []
    ensures Flat(Extended(s, x, mcu).intervals) == Flat(x.intervals) + McuTokens(s, x.last, mcu)
  {
    hide McuTokens, LastDc, GoodHuffScan;
    var k, y := |x.intervals| - 1, Extended(s, x, mcu).intervals;
    assert y[..k] == x.intervals[..k];
    assert Flat(x.intervals[..k]) + (x.intervals[k] + McuTokens(s, x.last, mcu))
      == (Flat(x.intervals[..k]) + x.intervals[k]) + McuTokens(s, x.last, mcu);
  }

  lemma FlatRestarted(s: HuffScan, x: Sent, m: nat)
    ensures Flat(Restarted(s, x, m).intervals) == Flat(x.intervals)
  {
    assert (x.intervals + [[]])[..|x.intervals|] == x.intervals;
    assert Flat(x.intervals) + [] == Flat(x.intervals);
  }

  lemma InRangeParts(xs: seq<Token>, ys: seq<Token>)
    ensures TokensInRange(xs + ys) <==> TokensInRange(xs) && TokensInRange(ys)
  {
    hide TokenInRange;
    if TokensInRange(xs + ys) {
      forall i | 0 <= i < |xs| ensures TokenInRange(xs[i]) {
        assert (xs + ys)[i] == xs[i];
      }
      forall i | 0 <= i < |ys| ensures TokenInRange(ys[i]) {
        assert (xs + ys)[|xs| + i] == ys[i];
      }
    }
  }

  class Gatherer {
    const stats: Counts
    const scan: HuffScan
    var lastDc: seq<int>
    var restartsToGo: nat
    ghost var sent: Sent
    ghost var mcuCount: nat

    ghost predicate Valid()
      reads this`lastDc, this`restartsToGo, this`sent, this`mcuCount, stats, stats.dc, stats.ac
    {
      && stats.Valid() && GoodHuffScan(scan) && sent.intervals != []
      && lastDc == sent.last && |lastDc| == |scan.components| && stats.log == Flat(sent.intervals)
      && (scan.restartInterval > 0 ==> restartsToGo == ToGo(scan.restartInterval, mcuCount))
    }

    constructor (s: HuffScan)
      requires GoodHuffScan(s)
      ensures Valid() && fresh(stats) && fresh(stats.dc) && fresh(stats.ac) && scan == s
      ensures sent == ScanSent(s, []) && mcuCount == 0
    {
      stats := new Counts();
      scan := s;
      lastDc := seq(|s.components|, _ => 0);
      restartsToGo := s.restartInterval;
      sent, mcuCount := ScanSent(s, []), 0;
    }

    /** The blocks of an MCU. */
    method GatherBlocks(mcu: seq<block>, ghost last: seq<int>) returns (ok: bool)
      requires stats.Valid() && GoodHuffScan(scan) && |mcu| == |scan.membership| && |lastDc| == |scan.components|
        && lastDc == last
      modifies this`lastDc, stats.dc, stats.ac, stats`log
      ensures stats.Valid() && (ok <==> TokensInRange(McuTokens(scan, last, mcu)))
      ensures ok ==> stats.log == old(stats.log) + McuTokens(scan, last, mcu) && lastDc == LastDc(scan, last, mcu)
    {
      hide stats.Valid, GoodHuffScan, TokensInRange, BlockTokens, McuTokens, LastDc;
      ghost var all := McuTokens(scan, last, mcu);
      McuStarts(scan, last, mcu);
      for blkn := 0 to |mcu|
        invariant stats.Valid() && lastDc == LastDc(scan, last, mcu[..blkn]) && |lastDc| == |scan.components|
        invariant stats.log == old(stats.log) + McuTokens(scan, last, mcu[..blkn])
        invariant TokensInRange(McuTokens(scan, last, mcu[..blkn]))
      {
        MemberOf(scan, blkn);
        var ci := scan.membership[blkn];
        TablesInRange(scan, ci);
        McuContinues(scan, last, mcu, blkn);
        ghost var own := NthBlockTokens(scan, lastDc, blkn, mcu[blkn]);
        InRangeParts(McuTokens(scan, last, mcu[..blkn]), own);
        McuTokensPrefix(scan, last, mcu, blkn + 1);
        ghost var now := McuTokens(scan, last, mcu[..blkn + 1]);
        assert all == now + all[|now|..];
        InRangeParts(now, all[|now|..]);
        var counted := HtestOneBlock(stats, scan.components[ci], mcu[blkn], lastDc[ci], scan.naturalOrder);
        if !counted {
          return false;
        }
        lastDc := lastDc[ci := mcu[blkn][0]];
      }
      assert mcu[..|mcu|] == mcu;
      ok := true;
    }

    /** encode_mcu_gather: nothing is output, but restarts forget the DC values as they
        do in the output pass. */
    method EncodeMcuGather(mcu: seq<block>) returns (ok: bool)
      requires Valid() && |mcu| == |scan.membership|
      modifies this, stats.dc, stats.ac, stats`log
      ensures var x := Restarted(scan, old(sent), old(mcuCount));
        && (ok <==> TokensInRange(McuTokens(scan, x.last, mcu)))
        && (ok ==> Valid() && sent == Extended(scan, x, mcu) && mcuCount == old(mcuCount) + 1)
    {
      hide stats.Valid, GoodHuffScan, TokensInRange, McuTokens, LastDc, ToGo, Restarts, Flat;
      ghost var x := Restarted(scan, sent, mcuCount);
      FlatRestarted(scan, sent, mcuCount);
      NoRestart(scan, sent, mcuCount);
      if scan.restartInterval > 0 {
        CountsDown(scan, mcuCount);
        if restartsToGo == 0 {
          lastDc := seq(|scan.components|, _ => 0);
          restartsToGo := scan.restartInterval;
        }
        restartsToGo := restartsToGo - 1;
      }
      FlatExtended(scan, x, mcu);
      ok := GatherBlocks(mcu, x.last);
      sent := Extended(scan, x, mcu);
      mcuCount := mcuCount + 1;
    }
  }

  lemma McuStarts(s: HuffScan, last: seq<int>, mcu: seq<block>)
    requires GoodHuffScan(s) && |last| == |s.components| && |mcu| == |s.membership|
    ensures LastDc(s, last, mcu[..0]) == last && McuTokens(s, last, mcu[..0]) == [] && TokensInRange([])
  {
  }

  lemma McuContinues(s: HuffScan, last: seq<int>, mcu: seq<block>, n: nat)
    requires GoodHuffScan(s) && |last| == |s.components| && n < |mcu| <= |s.membership|
    ensures var before := LastDc(s, last, mcu[..n]);
      && McuTokens(s, last, mcu[..n + 1]) == McuTokens(s, last, mcu[..n]) + NthBlockTokens(s, before, n, mcu[n])
      && LastDc(s, last, mcu[..n + 1]) == before[s.membership[n] := mcu[n][0]]
  {
    hide NthBlockTokens;
    assert mcu[..n + 1][..n] == mcu[..n];
  }

  lemma TablesInRange(s: HuffScan, ci: nat)
    requires GoodHuffScan(s) && ci < |s.components|
    ensures s.components[ci].dcTbl < NUM_HUFF_TBLS && s.components[ci].acTbl < NUM_HUFF_TBLS
  {
  }
}
