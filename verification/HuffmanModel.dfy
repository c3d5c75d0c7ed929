/**
 Sequential Huffman coding of blocks (sections F.1.2 and F.2.2 of the JPEG standard):
 a block is a list of tokens, each a Huffman symbol followed by extra bits.
 */
module HuffmanModel {
  import opened Bytes
  import opened BitStrings
  import opened CanonicalCode
  import opened HuffmanTables
  import opened CoefficientModel
  import opened ScanSetup
  import opened Nonlinear

  // ----- magnitudes and extra bits

  /** The magnitude category of a coefficient: how many bits its size takes. */
  function Magnitude(v: int): nat
  {
    BitLength(Abs(v))
  }

  /** The extra bits of v: its low bits if positive, those of v - 1 if negative. */
  function ExtraBits(v: int): nat
  {
    (if v < 0 then v - 1 else v) % Pow2(Magnitude(v))
  }

  /** Figure F.12: extend the sign bit. */
  function Extend(x: nat, s: nat): int
    requires s > 0
  {
    if x < Pow2(s - 1) then x - Pow2(s) + 1 else x
  }

  /** Magnitude and extra bits determine the coefficient. */
  lemma ExtendUndoesExtraBits(v: int)
    requires v != 0
    ensures Magnitude(v) > 0 && ExtraBits(v) < Pow2(Magnitude(v)) && Extend(ExtraBits(v), Magnitude(v)) == v
  {
    var n := Magnitude(v);
    BitLengthBounds(Abs(v));
    assert n > 0;
    assert Pow2(n) == 2 * Pow2(n - 1);
    if v < 0 {
      DivisionUnique(v - 1, Pow2(n), -1, v - 1 + Pow2(n));
    } else {
      DivisionUnique(v, Pow2(n), 0, v);
    }
  }

  // ----- tokens

  /** A symbol of a DC or AC table and the bits that follow it. */
  datatype Token = Token(dc: bool, tbl: nat, sym: nat, extra: nat, size: nat)

  const EOB := 0x00
  const ZRL := 0xF0

  function DcToken(tbl: nat, diff: int): Token
  {
    Token(true, tbl, Magnitude(diff), ExtraBits(diff), Magnitude(diff))
  }

  /** A run of r zeros and then v. */
  function AcToken(tbl: nat, r: nat, v: int): Token
  {
    Token(false, tbl, 16 * r + Magnitude(v), ExtraBits(v), Magnitude(v))
  }

  function NextNonzero(z: zigzag, k: nat): (n: nat)
    requires k <= 64
    ensures k <= n <= 64 && (n < 64 ==> z[n] != 0) && forall j :: k <= j < n ==> z[j] == 0
    decreases 64 - k
  {
    if k == 64 || z[k] != 0 then k else NextNonzero(z, k + 1)
  }

  lemma {:induction false} NextNonzeroIs(z: zigzag, k: nat, n: nat)
    requires k <= n <= 64 && (n < 64 ==> z[n] != 0) && forall j :: k <= j < n ==> z[j] == 0
    ensures NextNonzero(z, k) == n
    decreases n - k
  {
    if k < n {
      NextNonzeroIs(z, k + 1, n);
    }
  }

  /** The coefficients from k on: runs of 16 zeros have their own symbol, and zeros up
      to the end of the block are one symbol. */
  function AcTokens(tbl: nat, z: zigzag, k: nat): seq<Token>
    requires k <= 64
    decreases 64 - k
  {
    var n := NextNonzero(z, k);
    if k == 64 then []
    else if n == 64 then [Token(false, tbl, EOB, 0, 0)]
    else if n - k > 15 then [Token(false, tbl, ZRL, 0, 0)] + AcTokens(tbl, z, k + 16)
    else [AcToken(tbl, n - k, z[n])] + AcTokens(tbl, z, n + 1)
  }

  function BlockTokens(c: Component, diff: int, z: zigzag): seq<Token>
  {
    [DcToken(c.dcTbl, diff)] + AcTokens(c.acTbl, z, 1)
  }

  // ----- their bits

  datatype HuffTables = HuffTables(dc: seq<table>, ac: seq<table>)

  const NUM_HUFF_TBLS := 4

  ghost predicate GoodTables(ts: HuffTables)
  {
    && |ts.dc| == NUM_HUFF_TBLS && |ts.ac| == NUM_HUFF_TBLS
    && forall i :: 0 <= i < NUM_HUFF_TBLS ==> GoodTable(ts.dc[i], true) && GoodTable(ts.ac[i], false)
  }

  /** What jpeg_make_c_derived_tbl accepts. */
  ghost predicate GoodTable(t: table, isDC: bool)
  {
    Legal(t.bits) && ValidSymbols(t, isDC)
  }

  /** Where the table lists sym, trying entries p and up. */
  function PlaceFrom(t: table, sym: nat, p: nat): (q: nat)
    requires p <= CodeCount(t) <= 256
    ensures p <= q <= CodeCount(t) && (q < CodeCount(t) ==> t.huffval[q] == sym)
    ensures forall r :: p <= r < q ==> t.huffval[r] != sym
    decreases CodeCount(t) - p
  {
    if p == CodeCount(t) || t.huffval[p] == sym then p else PlaceFrom(t, sym, p + 1)
  }

  predicate HasCode(t: table, sym: nat)
    requires CodeCount(t) <= 256
  {
    PlaceFrom(t, sym, 0) < CodeCount(t)
  }

  function CodeBits(t: table, sym: nat): seq<bool>
    requires CodeCount(t) <= 256 && HasCode(t, sym)
  {
    var p := PlaceFrom(t, sym, 0);
    Bits(CodeOf(t.bits, p), Length(t.bits, p))
  }

  function TableOf(ts: HuffTables, x: Token): table
    requires |ts.dc| == |ts.ac| == NUM_HUFF_TBLS && x.tbl < NUM_HUFF_TBLS
  {
    if x.dc then ts.dc[x.tbl] else ts.ac[x.tbl]
  }

  /** The token can be sent: its symbol has a code, and its magnitude is at most 15. */
  predicate Sendable(ts: HuffTables, x: Token)
  {
    && |ts.dc| == |ts.ac| == NUM_HUFF_TBLS && x.tbl < NUM_HUFF_TBLS
    && x.size <= 15 && x.extra < Pow2(x.size)
    && CodeCount(TableOf(ts, x)) <= 256 && HasCode(TableOf(ts, x), x.sym)
  }

  predicate AllSendable(ts: HuffTables, xs: seq<Token>)
  {
    forall i :: 0 <= i < |xs| ==> Sendable(ts, xs[i])
  }

  function TokenBits(ts: HuffTables, x: Token): seq<bool>
    requires Sendable(ts, x)
  {
    CodeBits(TableOf(ts, x), x.sym) + Bits(x.extra, x.size)
  }

  function TokensBits(ts: HuffTables, xs: seq<Token>): seq<bool>
    requires AllSendable(ts, xs)
  {
    if xs == [] then [] else TokenBits(ts, xs[0]) + TokensBits(ts, xs[1..])
  }

  lemma TokensHead(ts: HuffTables, x: Token, xs: seq<Token>)
    requires AllSendable(ts, [x] + xs)
    ensures Sendable(ts, x) && AllSendable(ts, xs)
    ensures TokensBits(ts, [x] + xs) == TokenBits(ts, x) + TokensBits(ts, xs)
  {
    hide Sendable, TokenBits;
    assert ([x] + xs)[0] == x;
    assert ([x] + xs)[1..] == xs;
    forall i | 0 <= i < |xs| ensures Sendable(ts, xs[i]) {
      assert ([x] + xs)[i + 1] == xs[i];
    }
  }

  lemma {:induction false} TokensConcat(ts: HuffTables, xs: seq<Token>, ys: seq<Token>)
    requires AllSendable(ts, xs) && AllSendable(ts, ys)
    ensures AllSendable(ts, xs + ys)
    ensures TokensBits(ts, xs + ys) == TokensBits(ts, xs) + TokensBits(ts, ys)
  {
    hide Sendable, TokenBits;
    if xs == [] {
      assert xs + ys == ys;
    } else {
      TokensConcat(ts, xs[1..], ys);
      assert xs + ys == [xs[0]] + (xs[1..] + ys);
      assert (xs + ys)[1..] == xs[1..] + ys;
    }
  }

  /** The encoder's table holds the codes of the table it was derived from. */
  lemma DerivedCode(t: table, d: CDerived, sym: nat)
    requires Legal(t.bits) && CodeCount(t) <= 256 && Encodes(t, d) && HasCode(t, sym) && sym < 256
    ensures d.ehufsi[sym] <= 16 && d.ehufco[sym] < Pow2(d.ehufsi[sym])
    ensures Bits(d.ehufco[sym], d.ehufsi[sym]) == CodeBits(t, sym)
  {
    hide Length, CodeOf, Start, Legal, Pow2, Bits;
    var p := PlaceFrom(t, sym, 0);
    IndexOfCode(t.bits, p);
    CodeFits(t.bits, Length(t.bits, p), CodeOf(t.bits, p));
  }

  // ----- MCUs and scans

  datatype HuffScan = HuffScan(
    components: seq<Component>,
    membership: seq<nat>,     // component of each block of an MCU
    naturalOrder: order,
    restartInterval: nat)     // MCUs between restart markers; 0 for none

  ghost predicate GoodHuffScan(s: HuffScan)
  {
    && |s.components| <= 4
    && (forall ci :: 0 <= ci < |s.components| ==>
      s.components[ci].dcTbl < NUM_HUFF_TBLS && s.components[ci].acTbl < NUM_HUFF_TBLS)
    && (forall b :: 0 <= b < |s.membership| ==> s.membership[b] < |s.components|)
  }

  function NoDcYet(s: HuffScan): (last: seq<int>)
    ensures |last| == |s.components|
  {
    seq(|s.components|, _ => 0)
  }

  /** The last DC value of each component after the blocks of an MCU. */
  function LastDc(s: HuffScan, last: seq<int>, mcu: seq<block>): (r: seq<int>)
    requires GoodHuffScan(s) && |last| == |s.components| && |mcu| <= |s.membership|
    ensures |r| == |last|
  {
    if mcu == [] then last
    else
      var n := |mcu| - 1;
      LastDc(s, last, mcu[..n])[s.membership[n] := mcu[n][0]]
  }

  function NthBlockTokens(s: HuffScan, last: seq<int>, n: nat, b: block): seq<Token>
    requires GoodHuffScan(s) && |last| == |s.components| && n < |s.membership|
  {
    var ci := s.membership[n];
    BlockTokens(s.components[ci], b[0] - last[ci], Zigzag(b, s.naturalOrder))
  }

  function McuTokens(s: HuffScan, last: seq<int>, mcu: seq<block>): seq<Token>
    requires GoodHuffScan(s) && |last| == |s.components| && |mcu| <= |s.membership|
  {
    if mcu == [] then []
    else
      var n := |mcu| - 1;
      McuTokens(s, last, mcu[..n]) + NthBlockTokens(s, LastDc(s, last, mcu[..n]), n, mcu[n])
  }

  lemma {:induction false} McuTokensPrefix(s: HuffScan, last: seq<int>, mcu: seq<block>, n: nat)
    requires GoodHuffScan(s) && |last| == |s.components| && n <= |mcu| <= |s.membership|
    ensures McuTokens(s, last, mcu[..n]) <= McuTokens(s, last, mcu)
    decreases |mcu|
  {
    hide NthBlockTokens, LastDc;
    if n == |mcu| {
      assert mcu[..n] == mcu;
    } else {
      var k := |mcu| - 1;
      McuTokensPrefix(s, last, mcu[..k], n);
      assert mcu[..k][..n] == mcu[..n];
    }
  }

  lemma SendablePrefix(ts: HuffTables, xs: seq<Token>, ys: seq<Token>)
    requires AllSendable(ts, ys) && xs <= ys
    ensures AllSendable(ts, xs)
  {
    hide Sendable;
  }

  lemma SendableParts(ts: HuffTables, xs: seq<Token>, ys: seq<Token>)
    requires AllSendable(ts, xs + ys)
    ensures AllSendable(ts, xs) && AllSendable(ts, ys)
    ensures TokensBits(ts, xs + ys) == TokensBits(ts, xs) + TokensBits(ts, ys)
  {
    hide Sendable, TokensBits;
    forall i | 0 <= i < |xs| ensures Sendable(ts, xs[i]) {
      assert (xs + ys)[i] == xs[i];
    }
    forall i | 0 <= i < |ys| ensures Sendable(ts, ys[i]) {
      assert (xs + ys)[|xs| + i] == ys[i];
    }
    TokensConcat(ts, xs, ys);
  }

  /** The tokens of each restart interval so far, and the DC values to predict from. */
  datatype Sent = Sent(intervals: seq<seq<Token>>, last: seq<int>)

  predicate GoodHuffMcus(s: HuffScan, mcus: seq<seq<block>>)
  {
    forall m :: 0 <= m < |mcus| ==> |mcus[m]| == |s.membership|
  }

  /** MCU m begins a new restart interval. */
  predicate Restarts(s: HuffScan, m: nat)
  {
    s.restartInterval > 0 && m > 0 && m % s.restartInterval == 0
  }

  /** A restart forgets the DC values and begins a new interval. */
  function Restarted(s: HuffScan, x: Sent, m: nat): Sent
  {
    if Restarts(s, m) then Sent(x.intervals + [[]], NoDcYet(s)) else x
  }

  /** The tokens of an MCU are added to the current interval. */
  function Extended(s: HuffScan, x: Sent, mcu: seq<block>): Sent
    requires GoodHuffScan(s) && |x.last| == |s.components| && |mcu| <= |s.membership| && x.intervals != []
  {
    var k := |x.intervals| - 1;
    Sent(x.intervals[k := x.intervals[k] + McuTokens(s, x.last, mcu)], LastDc(s, x.last, mcu))
  }

  function ScanSent(s: HuffScan, mcus: seq<seq<block>>): (x: Sent)
    requires GoodHuffScan(s) && GoodHuffMcus(s, mcus)
    ensures |x.last| == |s.components| && x.intervals != []
  {
    if mcus == [] then Sent([[]], NoDcYet(s))
    else
      var m := |mcus| - 1;
      Extended(s, Restarted(s, ScanSent(s, mcus[..m]), m), mcus[m])
  }

  lemma ScanSentNext(s: HuffScan, mcus: seq<seq<block>>, m: nat)
    requires GoodHuffScan(s) && GoodHuffMcus(s, mcus) && m < |mcus|
    ensures ScanSent(s, mcus[..m + 1]) == Extended(s, Restarted(s, ScanSent(s, mcus[..m]), m), mcus[m])
    ensures ScanSent(s, mcus[..0]) == ScanSent(s, [])
  {
    assert mcus[..m + 1][..m] == mcus[..m];
  }

  /** Every token of the scan can be sent. */
  predicate ScanSendable(ts: HuffTables, x: Sent)
  {
    forall i :: 0 <= i < |x.intervals| ==> AllSendable(ts, x.intervals[i])
  }

  /** x is an earlier stage of y. */
  predicate EarlierStage(x: Sent, y: Sent)
  {
    && 0 < |x.intervals| <= |y.intervals|
    && (forall i :: 0 <= i < |x.intervals| - 1 ==> x.intervals[i] == y.intervals[i])
    && x.intervals[|x.intervals| - 1] <= y.intervals[|x.intervals| - 1]
  }

  lemma EarlierTransitive(x: Sent, y: Sent, z: Sent)
    requires EarlierStage(x, y) && EarlierStage(y, z)
    ensures EarlierStage(x, z)
  {
    var k := |x.intervals| - 1;
    if |x.intervals| < |y.intervals| {
      assert y.intervals[k] == z.intervals[k];
    }
  }

  lemma RestartedIsLater(s: HuffScan, x: Sent, m: nat)
    requires x.intervals != []
    ensures EarlierStage(x, Restarted(s, x, m))
  {
  }

  lemma ExtendedIsLater(s: HuffScan, x: Sent, mcu: seq<block>)
    requires GoodHuffScan(s) && |x.last| == |s.components| && |mcu| <= |s.membership| && x.intervals != []
    ensures EarlierStage(x, Extended(s, x, mcu))
  {
    hide McuTokens, LastDc;
  }

  lemma {:induction false} ScanStages(s: HuffScan, mcus: seq<seq<block>>, m: nat)
    requires GoodHuffScan(s) && GoodHuffMcus(s, mcus) && m <= |mcus|
    ensures EarlierStage(ScanSent(s, mcus[..m]), ScanSent(s, mcus))
    ensures m < |mcus| ==> EarlierStage(Restarted(s, ScanSent(s, mcus[..m]), m), ScanSent(s, mcus))
    decreases |mcus|
  {
    hide McuTokens, LastDc, GoodHuffScan, EarlierStage, Extended;
    if m == |mcus| {
      assert mcus[..m] == mcus;
      SameStage(ScanSent(s, mcus));
    } else {
      var n := |mcus| - 1;
      var before := ScanSent(s, mcus[..n]);
      var x := Restarted(s, before, n);
      RestartedIsLater(s, before, n);
      ExtendedIsLater(s, x, mcus[n]);
      ScanStages(s, mcus[..n], m);
      assert mcus[..n][..m] == mcus[..m];
      EarlierTransitive(before, x, ScanSent(s, mcus));
      EarlierTransitive(ScanSent(s, mcus[..m]), before, ScanSent(s, mcus));
      if m < n {
        EarlierTransitive(Restarted(s, ScanSent(s, mcus[..m]), m), before, ScanSent(s, mcus));
      }
    }
  }

  lemma SameStage(x: Sent)
    requires x.intervals != []
    ensures EarlierStage(x, x)
  {
  }

  lemma EarlierSendable(ts: HuffTables, x: Sent, y: Sent)
    requires EarlierStage(x, y) && ScanSendable(ts, y)
    ensures ScanSendable(ts, x)
  {
    hide Sendable;
    forall i | 0 <= i < |x.intervals| ensures AllSendable(ts, x.intervals[i]) {
      assert AllSendable(ts, y.intervals[i]);
      forall j | 0 <= j < |x.intervals[i]| ensures Sendable(ts, x.intervals[i][j]) {
        assert x.intervals[i][j] == y.intervals[i][j];
      }
    }
  }

  // ----- restart intervals


  /** MCUs left in a restart interval of r after n MCUs. */
  function ToGo(r: nat, n: nat): int
    requires r > 0
  {
    if n == 0 then r else r - 1 - (n - 1) % r
  }

  lemma CountsDown(s: HuffScan, n: nat)
    requires s.restartInterval > 0
    ensures var r := s.restartInterval;
      && 0 <= ToGo(r, n) <= r && (ToGo(r, n) == 0 <==> Restarts(s, n))
      && ToGo(r, n + 1) == (if ToGo(r, n) == 0 then r else ToGo(r, n)) - 1
  {
    var r := s.restartInterval;
    if n > 0 {
      NextInInterval(n - 1, r);
    }
  }

  lemma NextInInterval(n: nat, r: nat)
    requires r > 0
    ensures (n + 1) % r == if n % r == r - 1 then 0 else n % r + 1
  {
    var q, m := n / r, n % r;
    if m == r - 1 {
      DivisionUnique(n + 1, r, q + 1, 0);
    } else {
      DivisionUnique(n + 1, r, q, m + 1);
    }
  }

  lemma NoRestart(s: HuffScan, x: Sent, n: nat)
    ensures !Restarts(s, n) ==> Restarted(s, x, n) == x
    ensures s.restartInterval == 0 ==> !Restarts(s, n)
  {
  }

  lemma MemberOf(s: HuffScan, b: nat)
    requires GoodHuffScan(s) && b < |s.membership|
    ensures s.membership[b] < |s.components|
  {
  }
}
