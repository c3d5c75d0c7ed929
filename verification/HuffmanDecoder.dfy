/** The sequential Huffman decoder. */
module HuffmanDecoder {
  import opened Bytes
  import opened BitStrings
  import opened BitReader
  import opened BitWriter
  import opened CanonicalCode
  import opened HuffmanTables
  import opened CoefficientModel
  import opened ScanSetup
  import opened HuffmanModel
  import opened RestartSegments

  /** The data go on with these bits. */
  predicate Ahead(stream: seq<bool>, taken: nat, bits: seq<bool>)
  {
    taken + |bits| <= |stream| && stream[taken..taken + |bits|] == bits
  }

  lemma AheadSplit(stream: seq<bool>, taken: nat, a: seq<bool>, b: seq<bool>)
    requires Ahead(stream, taken, a + b)
    ensures Ahead(stream, taken, a) && Ahead(stream, taken + |a|, b)
  {
    var w := stream[taken..taken + |a + b|];
    assert w[..|a|] == a && w[|a|..] == b;
  }

  /** A symbol whose code is ahead is the symbol read. */
  lemma CodeIsRead(t: table, stream: seq<bool>, taken: nat, sym: nat, s: byte, next: nat)
    requires Legal(t.bits) && CodeCount(t) <= 256 && HasCode(t, sym) && Ahead(stream, taken, CodeBits(t, sym))
    requires ReadAs(t, stream, taken, s, next)
    ensures s == sym && next == taken + |CodeBits(t, sym)| <= |stream|
  {
    hide Bits, Window, Legal, Length, CodeOf, Start, First, ReadAs;
    var p := PlaceFrom(t, sym, 0);
    var l, c := Length(t.bits, p), CodeOf(t.bits, p);
    IndexOfCode(t.bits, p);
    WindowInside(stream, taken, l);
    assert Meets(t.bits, stream, taken, l, c);
    ReadsCode(t, stream, taken, s, next, l, c);
  }

  /** Extra bits that are ahead are the bits read. */
  lemma ExtraIsRead(stream: seq<bool>, taken: nat, extra: nat, size: nat, v: nat)
    requires Ahead(stream, taken, Bits(extra, size)) && extra < Pow2(size)
    requires v < Pow2(size) && Bits(v, size) == Window(stream, taken, size)
    ensures v == extra
  {
    hide Bits, Window, Pow2;
    WindowInside(stream, taken, size);
    ValueOfBits(v, size);
    ValueOfBits(extra, size);
  }

  /** jpeg_natural_order with its extra entries, for runs past the end of a block. */
  function Natural(o: order, k: nat): nat
  {
    if k < 64 then o[k] else 63
  }

  /** The first k coefficients of z, and zeros. */
  function Partial(z: zigzag, k: nat): zigzag
  {
    seq(64, j requires 0 <= j < 64 => if j < k then z[j] else 0)
  }

  /** Storing coefficient k of z in zigzag order. */
  lemma StoreNext(b: block, o: order, z: zigzag, k: nat, n: nat)
    requires GoodOrder(o) && k <= n < 64 && Zigzag(b, o) == Partial(z, k)
    requires forall j :: k <= j < n ==> z[j] == 0
    ensures Zigzag(b[o[n] := z[n]], o) == Partial(z, n + 1)
  {
    var stored, goal := Zigzag(b[o[n] := z[n]], o), Partial(z, n + 1);
    forall j | 0 <= j < 64 ensures stored[j] == goal[j] {
      assert Zigzag(b, o)[j] == Partial(z, k)[j];
      assert j != n ==> o[j] != o[n];
    }
  }

  lemma SkipZeros(z: zigzag, k: nat, n: nat)
    requires k <= n <= 64 && forall j :: k <= j < n ==> z[j] == 0
    ensures Partial(z, k) == Partial(z, n)
  {
  }

  /** The next token is ahead: first its code, then its extra bits, then the rest. */
  lemma TokenAhead(ts: HuffTables, x: Token, xs: seq<Token>, stream: seq<bool>, taken: nat)
    requires AllSendable(ts, [x] + xs) && Ahead(stream, taken, TokensBits(ts, [x] + xs))
    ensures Sendable(ts, x) && AllSendable(ts, xs)
    ensures var code := CodeBits(TableOf(ts, x), x.sym);
      && Ahead(stream, taken, code)
      && Ahead(stream, taken + |code|, Bits(x.extra, x.size))
      && Ahead(stream, taken + |code| + x.size, TokensBits(ts, xs))
      && |TokensBits(ts, [x] + xs)| == |code| + x.size + |TokensBits(ts, xs)|
      && taken + |code| + x.size <= |stream|
  {
    hide Sendable, CodeBits, TokensBits;
    TokensHead(ts, x, xs);
    SendableHasCode(ts, x);
    var code := CodeBits(TableOf(ts, x), x.sym);
    AheadSplit(stream, taken, TokenBits(ts, x), TokensBits(ts, xs));
    AheadSplit(stream, taken, code, Bits(x.extra, x.size));
  }

  lemma SendableHasCode(ts: HuffTables, x: Token)
    requires Sendable(ts, x)
    ensures |ts.dc| == |ts.ac| == NUM_HUFF_TBLS && x.tbl < NUM_HUFF_TBLS
    ensures CodeCount(TableOf(ts, x)) <= 256 && HasCode(TableOf(ts, x), x.sym)
    ensures x.size <= 15 && x.extra < Pow2(x.size)
  {
  }

  // ----- one block

  /** The decoder's tables for a block, and what they were derived from. */
  ghost predicate BlockTables(ts: HuffTables, c: Component, dctbl: DDerived, actbl: DDerived)
  {
    && GoodTables(ts) && c.dcTbl < NUM_HUFF_TBLS && c.acTbl < NUM_HUFF_TBLS
    && CodeCount(ts.dc[c.dcTbl]) <= 256 && Decodes(ts.dc[c.dcTbl], dctbl)
    && CodeCount(ts.ac[c.acTbl]) <= 256 && Decodes(ts.ac[c.acTbl], actbl)
  }

  lemma TablesLegal(ts: HuffTables, c: Component, dctbl: DDerived, actbl: DDerived)
    requires BlockTables(ts, c, dctbl, actbl)
    ensures |ts.dc| == |ts.ac| == NUM_HUFF_TBLS && c.dcTbl < NUM_HUFF_TBLS && c.acTbl < NUM_HUFF_TBLS
    ensures Legal(ts.dc[c.dcTbl].bits) && CodeCount(ts.dc[c.dcTbl]) <= 256 && Decodes(ts.dc[c.dcTbl], dctbl)
    ensures Legal(ts.ac[c.acTbl].bits) && CodeCount(ts.ac[c.acTbl]) <= 256 && Decodes(ts.ac[c.acTbl], actbl)
  {
    hide Legal, Decodes, ValidSymbols, Start;
    assert GoodTable(ts.dc[c.dcTbl], true) && GoodTable(ts.ac[c.acTbl], false);
  }

  /** A DC symbol is a magnitude of at most 15, on any data. */
  lemma DcSymbolSmall(t: table, stream: seq<bool>, taken: nat, s: byte, next: nat)
    requires GoodTable(t, true) && CodeCount(t) <= 256 && ReadAs(t, stream, taken, s, next)
    ensures s <= 15
  {
    hide Legal, Bits, Window, First, Start;
    if exists l, c :: Meets(t.bits, stream, taken, l, c) {
      var l, c :| Meets(t.bits, stream, taken, l, c) && IsCode(t.bits, l, c) && SymbolOf(t, l, c) == s;
      IndexBound(t.bits, l, c);
    }
  }

  /** Tokens xs are ahead, and after them the reader is at `end`. */
  ghost predicate TokensAhead(ts: HuffTables, xs: seq<Token>, stream: seq<bool>, taken: nat, end: nat)
  {
    && AllSendable(ts, xs) && Ahead(stream, taken, TokensBits(ts, xs)) && end == taken + |TokensBits(ts, xs)|
  }

  /** Fetch the extra bits of a coefficient and extend the sign. */
  method GetCoefficient(r: Reader, s: nat, ghost x: nat) returns (v: int)
    requires r.Valid() && 0 < s <= 15
    modifies r`pos, r`unreadMarker, r`getBuffer, r`bitsLeft, r`insufficientData, r`taken
    ensures r.Valid() && r.taken == old(r.taken) + s
    ensures r.taken <= |r.stream| ==> r.insufficientData == old(r.insufficientData)
    ensures x < Pow2(s) && Ahead(r.stream, old(r.taken), Bits(x, s)) ==> v == Extend(x, s)
  {
    hide r.Valid, Bits, Pow2, Window, Ahead;
    ghost var start := r.taken;
    var y: nat := r.GetBits(s);
    v := Extend(y, s);
    if x < Pow2(s) && Ahead(r.stream, start, Bits(x, s)) {
      ExtraIsRead(r.stream, start, x, s, y);
    }
  }

  /** Token x of table t, read as its symbol says, is ahead of tokens xs. */
  ghost predicate Expected(ts: HuffTables, t: table, x: Token, xs: seq<Token>, stream: seq<bool>, taken: nat, end: nat)
  {
    && x.size == x.sym % 16 && |ts.dc| == |ts.ac| == NUM_HUFF_TBLS && x.tbl < NUM_HUFF_TBLS && TableOf(ts, x) == t
    && TokensAhead(ts, [x] + xs, stream, taken, end)
  }

  /** Decode a symbol and, if its low four bits ask for them, the extra bits of a value. */
  method GetToken(r: Reader, d: DDerived, ghost ts: HuffTables, ghost t: table, ghost dc: bool,
      ghost x: Token, ghost xs: seq<Token>, ghost end: nat) returns (s: byte, v: int)
    requires r.Valid() && Legal(t.bits) && CodeCount(t) <= 256 && Decodes(t, d) && GoodTable(t, dc)
    modifies r`pos, r`unreadMarker, r`getBuffer, r`bitsLeft, r`insufficientData, r`taken
    ensures r.Valid() && (dc ==> s <= 15) && (s % 16 == 0 ==> v == 0)
    ensures Expected(ts, t, x, xs, r.stream, old(r.taken), end) ==> (
      && s == x.sym && (x.size > 0 ==> v == Extend(x.extra, x.size))
      && TokensAhead(ts, xs, r.stream, r.taken, end) && r.insufficientData == old(r.insufficientData))
  {
    hide r.Valid, Bits, Pow2, Window, Ahead, Sendable, TokensBits, Legal, Decodes, GoodTable, GoodTables, ReadAs,
      CodeBits, HasCode;
    ghost var start := r.taken;
    ghost var f := Expected(ts, t, x, xs, r.stream, start, end);
    s := r.HuffDecode(d, t);
    if dc {
      DcSymbolSmall(t, r.stream, start, s, r.taken);
    }
    if f {
      TokenAhead(ts, x, xs, r.stream, start);
      SendableHasCode(ts, x);
      CodeIsRead(t, r.stream, start, x.sym, s, r.taken);
    }
    v := 0;
    if s % 16 != 0 {
      v := GetCoefficient(r, s % 16, x.extra);
    }
  }

  lemma ExtraBitsExtend(v: int)
    requires Magnitude(v) > 0
    ensures Extend(ExtraBits(v), Magnitude(v)) == v
  {
    assert Abs(v) != 0;
    ExtendUndoesExtraBits(v);
  }

  /** The first AC token that is ahead, the place it leads to, and the tokens after it. */
  ghost predicate AcAhead(ts: HuffTables, tbl: nat, z: zigzag, k: nat, stream: seq<bool>, taken: nat, end: nat)
    requires k <= 64
  {
    TokensAhead(ts, AcTokens(tbl, z, k), stream, taken, end)
  }

  function FirstAc(tbl: nat, z: zigzag, k: nat): Token
    requires k < 64
  {
    var n := NextNonzero(z, k);
    if n == 64 then Token(false, tbl, EOB, 0, 0)
    else if n - k > 15 then Token(false, tbl, ZRL, 0, 0)
    else AcToken(tbl, n - k, z[n])
  }

  function AfterFirst(z: zigzag, k: nat): (m: nat)
    requires k < 64
    ensures k < m <= 64
  {
    var n := NextNonzero(z, k);
    if n == 64 then 64 else if n - k > 15 then k + 16 else n + 1
  }

  lemma AcTokensSplit(tbl: nat, z: zigzag, k: nat)
    requires k < 64
    ensures AcTokens(tbl, z, k) == [FirstAc(tbl, z, k)] + AcTokens(tbl, z, AfterFirst(z, k))
  {
    if NextNonzero(z, k) == 64 {
      assert AcTokens(tbl, z, 64) == [];
    }
  }

  /** What the symbol of an AC token says, when its magnitude is at most 15. */
  lemma SymbolTells(ts: HuffTables, tbl: nat, z: zigzag, k: nat)
    requires k < 64 && Sendable(ts, FirstAc(tbl, z, k))
    ensures var x, n := FirstAc(tbl, z, k), NextNonzero(z, k);
      && x.size == x.sym % 16
      && (n == 64 ==> x.sym == 0)
      && (n < 64 && n - k > 15 ==> x.sym == 0xF0)
      && (n < 64 && n - k <= 15 ==> x.sym / 16 == n - k && x.size == Magnitude(z[n]) > 0 && x.extra == ExtraBits(z[n]))
  {
    hide Magnitude, ExtraBits;
    var n := NextNonzero(z, k);
    SendableHasCode(ts, FirstAc(tbl, z, k));
    hide Sendable, NextNonzero;
    if n < 64 {
      MagnitudePositive(z[n]);
      PackedSymbol(n - k, Magnitude(z[n]));
    }
  }

  lemma MagnitudePositive(v: int)
    requires v != 0
    ensures Magnitude(v) > 0
  {
  }

  lemma PackedSymbol(r: nat, m: nat)
    ensures m <= 15 ==> (16 * r + m) % 16 == m && (16 * r + m) / 16 == r
  {
  }

  lemma FirstExpected(ts: HuffTables, t: table, tbl: nat, z: zigzag, k: nat, stream: seq<bool>, taken: nat, end: nat)
    requires |ts.dc| == |ts.ac| == NUM_HUFF_TBLS && tbl < NUM_HUFF_TBLS && ts.ac[tbl] == t
    requires k < 64 && AcAhead(ts, tbl, z, k, stream, taken, end)
    ensures Sendable(ts, FirstAc(tbl, z, k))
    ensures Expected(ts, t, FirstAc(tbl, z, k), AcTokens(tbl, z, AfterFirst(z, k)), stream, taken, end)
  {
    hide AcTokens, Sendable, TokensBits, Ahead, FirstAc, AfterFirst;
    AcTokensSplit(tbl, z, k);
    var xs := AcTokens(tbl, z, k);
    assert Sendable(ts, xs[0]);
    SymbolTells(ts, tbl, z, k);
    FirstIsAc(tbl, z, k);
  }

  lemma FirstIsAc(tbl: nat, z: zigzag, k: nat)
    requires k < 64
    ensures !FirstAc(tbl, z, k).dc && FirstAc(tbl, z, k).tbl == tbl
  {
  }

  lemma BlockEnds(ts: HuffTables, tbl: nat, z: zigzag, stream: seq<bool>, taken: nat, end: nat)
    requires AcAhead(ts, tbl, z, 64, stream, taken, end)
    ensures taken == end && Partial(z, 64) == z
  {
    assert AcTokens(tbl, z, 64) == [];
  }

  /** Decode the AC coefficients of a block; other coefficients stay as they are. */
  method GetAc(r: Reader, prior: block, o: order, d: DDerived, ghost ts: HuffTables, ghost t: table, ghost tbl: nat,
      ghost z: zigzag, ghost end: nat) returns (b: block)
    requires r.Valid() && Legal(t.bits) && CodeCount(t) <= 256 && Decodes(t, d) && GoodTable(t, false) && GoodOrder(o)
    requires |ts.dc| == |ts.ac| == NUM_HUFF_TBLS && tbl < NUM_HUFF_TBLS && ts.ac[tbl] == t
    requires forall j :: 0 <= j < 64 ==> -0x8000 <= z[j] < 0x8000
    modifies r`pos, r`unreadMarker, r`getBuffer, r`bitsLeft, r`insufficientData, r`taken
    ensures r.Valid()
    ensures Zigzag(prior, o) == Partial(z, 1) && AcAhead(ts, tbl, z, 1, r.stream, old(r.taken), end) ==>
      Zigzag(b, o) == z && r.taken == end && r.insufficientData == old(r.insufficientData)
  {
    hide r.Valid, Legal, Decodes, GoodTable, TokensAhead, AcTokens, NextNonzero, Zigzag, Partial, GoodOrder, FirstAc,
      AfterFirst, Pow2,
      Expected, Sendable, Extend, ExtraBits, Magnitude, Jcoef, Natural;
    b := prior;
    ghost var f := Zigzag(prior, o) == Partial(z, 1) && AcAhead(ts, tbl, z, 1, r.stream, r.taken, end);
    var k := 1;
    while k < 64
      invariant r.Valid() && 1 <= k
      invariant f ==> k <= 64 && Zigzag(b, o) == Partial(z, k) && AcAhead(ts, tbl, z, k, r.stream, r.taken, end)
      invariant f ==> r.insufficientData == old(r.insufficientData)
    {
      ghost var x, m, n := FirstAc(tbl, z, k), AfterFirst(z, k), NextNonzero(z, k);
      if f {
        FirstExpected(ts, t, tbl, z, k, r.stream, r.taken, end);
        SymbolTells(ts, tbl, z, k);
        AfterFirstIs(z, k);
      }
      var s, v := GetToken(r, d, ts, t, false, x, AcTokens(tbl, z, m), end);
      var run, size := s / 16, s % 16;
      if size != 0 {
        k := k + run;
        if f {
          StoreDecoded(b, o, z, k - run, n, v);
        }
        NaturalFits(o, k);
        b := b[Natural(o, k) := Jcoef(v)];
      } else {
        if f {
          SkipZeros(z, k, if n == 64 then 64 else k + 16);
        }
        if run != 15 {
          break;
        }
        k := k + 15;
      }
      k := k + 1;
    }
    if f {
      BlockEnds(ts, tbl, z, r.stream, r.taken, end);
    }
  }

  lemma NaturalFits(o: order, k: nat)
    ensures Natural(o, k) < 64
  {
  }

  lemma StoreDecoded(b: block, o: order, z: zigzag, k: nat, n: nat, v: int)
    requires GoodOrder(o) && k <= n < 64 && Zigzag(b, o) == Partial(z, k)
    requires forall j :: k <= j < n ==> z[j] == 0
    requires Magnitude(z[n]) > 0 && v == Extend(ExtraBits(z[n]), Magnitude(z[n])) && -0x8000 <= z[n] < 0x8000
    ensures Natural(o, n) < 64 && Zigzag(b[Natural(o, n) := Jcoef(v)], o) == Partial(z, n + 1)
  {
    hide GoodOrder, Zigzag, Partial, Extend, ExtraBits, Magnitude;
    ExtraBitsExtend(z[n]);
    StoreNext(b, o, z, k, n);
  }

  lemma AfterFirstIs(z: zigzag, k: nat)
    requires k < 64
    ensures var n := NextNonzero(z, k);
      && AfterFirst(z, k) == (if n == 64 then 64 else if n - k > 15 then k + 16 else n + 1)
      && k <= n <= 64 && forall j :: k <= j < n ==> z[j] == 0
  {
  }

  method DecodeOneBlock(r: Reader, prior: block, lastDcVal: int, o: order, dctbl: DDerived, actbl: DDerived,
      ghost ts: HuffTables, ghost c: Component, ghost v: block, ghost end: nat) returns (b: block, dc: int)
    requires r.Valid() && BlockTables(ts, c, dctbl, actbl) && GoodOrder(o) && SmallBlock(v)
    modifies r`pos, r`unreadMarker, r`getBuffer, r`bitsLeft, r`insufficientData, r`taken
    ensures r.Valid()
    ensures prior == Blank() && TokensAhead(ts, BlockTokens(c, v[0] - lastDcVal, Zigzag(v, o)), r.stream, old(r.taken),
      end) ==> (
      b == v && dc == v[0] && r.taken == end && r.insufficientData == old(r.insufficientData))
  {
    hide r.Valid, Legal, Decodes, TokensAhead, AcTokens, Zigzag, Partial, GoodOrder, BlockTables, GoodTable, Expected,
      Extend, ExtraBits,
      Magnitude, Jcoef;
    TablesLegal(ts, c, dctbl, actbl);
    BlockTablesGood(ts, c, dctbl, actbl);
    ZigzagSmall(v, o);
    ghost var diff, z := v[0] - lastDcVal, Zigzag(v, o);
    ghost var x, xs := DcToken(c.dcTbl, diff), AcTokens(c.acTbl, z, 1);
    ghost var f := prior == Blank() && TokensAhead(ts, BlockTokens(c, diff, z), r.stream, r.taken, end);
    if f {
      DcExpected(ts, c, diff, z, r.stream, r.taken, end);
    }
    var s, d := GetToken(r, dctbl, ts, ts.dc[c.dcTbl], true, x, xs, end);
    if f {
      DcDifference(diff);
      FirstStored(v, o);
    }
    dc := d + lastDcVal;
    b := prior[0 := Jcoef(dc)];
    b := GetAc(r, b, o, actbl, ts, ts.ac[c.acTbl], c.acTbl, z, end);
    if f {
      WholeBlock(b, v, o);
    }
  }

  lemma BlockTablesGood(ts: HuffTables, c: Component, dctbl: DDerived, actbl: DDerived)
    requires BlockTables(ts, c, dctbl, actbl)
    ensures |ts.dc| == |ts.ac| == NUM_HUFF_TBLS && GoodTable(ts.dc[c.dcTbl], true) && GoodTable(ts.ac[c.acTbl], false)
  {
    hide GoodTable, Decodes;
  }

  lemma DcExpected(ts: HuffTables, c: Component, diff: int, z: zigzag, stream: seq<bool>, taken: nat, end: nat)
    requires |ts.dc| == |ts.ac| == NUM_HUFF_TBLS && c.dcTbl < NUM_HUFF_TBLS
    requires TokensAhead(ts, BlockTokens(c, diff, z), stream, taken, end)
    ensures Expected(ts, ts.dc[c.dcTbl], DcToken(c.dcTbl, diff), AcTokens(c.acTbl, z, 1), stream, taken, end)
  {
    hide AcTokens, Sendable, TokensBits, Ahead, Magnitude, ExtraBits;
    var xs := BlockTokens(c, diff, z);
    assert xs[0] == DcToken(c.dcTbl, diff);
    SendableHasCode(ts, xs[0]);
  }

  /** A DC token without extra bits stands for no difference. */
  lemma DcDifference(diff: int)
    ensures Magnitude(diff) > 0 ==> Extend(ExtraBits(diff), Magnitude(diff)) == diff
    ensures Magnitude(diff) == 0 ==> diff == 0
  {
    if Magnitude(diff) > 0 {
      ExtraBitsExtend(diff);
    }
  }

  lemma ZigzagSmall(v: block, o: order)
    requires SmallBlock(v)
    ensures forall j :: 0 <= j < 64 ==> -0x8000 <= Zigzag(v, o)[j] < 0x8000
  {
  }

  lemma FirstStored(v: block, o: order)
    requires GoodOrder(o) && SmallBlock(v)
    ensures Jcoef(v[0]) == v[0] && Zigzag(Blank()[0 := Jcoef(v[0])], o) == Partial(Zigzag(v, o), 1)
  {
    var stored, goal := Zigzag(Blank()[0 := v[0]], o), Partial(Zigzag(v, o), 1);
    forall j | 0 <= j < 64 ensures stored[j] == goal[j] {
      assert j != 0 ==> o[0] != o[j];
    }
  }

  lemma WholeBlock(b: block, v: block, o: order)
    requires GoodOrder(o) && Zigzag(b, o) == Zigzag(v, o)
    ensures b == v
  {
    ZigzagInjective(b, v, o);
  }

  // ----- MCUs and restart intervals

  /** Segment i holds the bits of interval i. */
  ghost predicate SegmentsHold(ts: HuffTables, total: Sent, segs: seq<seq<byte>>)
    requires ScanSendable(ts, total)
  {
    && |segs| == |total.intervals|
    && forall i :: 0 <= i < |segs| ==> Padded(TokensBits(ts, total.intervals[i]), BytesBits(segs[i]))
  }

  /** If the reader has taken the tokens of an interval so far, the next MCU is ahead. */
  lemma McuAhead(ts: HuffTables, x: Sent, y: Sent, xs: seq<Token>, total: Sent, segs: seq<seq<byte>>)
    requires ScanSendable(ts, total) && SegmentsHold(ts, total, segs) && EarlierStage(y, total) && x.intervals != []
    requires y.intervals == (var k := |x.intervals| - 1; x.intervals[k := x.intervals[k] + xs])
    ensures ScanSendable(ts, x) && ScanSendable(ts, y)
    ensures var k := |x.intervals| - 1;
      && k < |segs| && AllSendable(ts, xs)
      && Ahead(BytesBits(segs[k]), |TokensBits(ts, x.intervals[k])|, TokensBits(ts, xs))
      && |TokensBits(ts, y.intervals[k])| == |TokensBits(ts, x.intervals[k])| + |TokensBits(ts, xs)|
  {
    hide Sendable, TokensBits, BytesBits;
    var k := |x.intervals| - 1;
    EarlierSendable(ts, y, total);
    SendableParts(ts, x.intervals[k], xs);
    StillSendable(ts, x, y);
    var whole, now := total.intervals[k], y.intervals[k];
    assert whole == now + whole[|now|..];
    SendableParts(ts, now, whole[|now|..]);
    var stream := BytesBits(segs[k]);
    assert Padded(TokensBits(ts, whole), stream);
    AheadInside(stream, TokensBits(ts, x.intervals[k]), TokensBits(ts, xs), TokensBits(ts, whole[|now|..]),
      Ones(|stream| - |TokensBits(ts, whole)|));
  }

  lemma AheadInside(stream: seq<bool>, a: seq<bool>, b: seq<bool>, c: seq<bool>, d: seq<bool>)
    requires stream == ((a + b) + c) + d
    ensures Ahead(stream, |a|, b)
  {
  }

  lemma StillSendable(ts: HuffTables, x: Sent, y: Sent)
    requires ScanSendable(ts, y) && x.intervals != [] && |x.intervals| == |y.intervals|
    requires forall i :: 0 <= i < |x.intervals| - 1 ==> x.intervals[i] == y.intervals[i]
    requires AllSendable(ts, x.intervals[|x.intervals| - 1])
    ensures ScanSendable(ts, x)
  {
    hide Sendable;
    forall i | 0 <= i < |x.intervals| ensures AllSendable(ts, x.intervals[i]) {
      assert AllSendable(ts, y.intervals[i]);
    }
  }

  /** The next block of an MCU that is ahead. */
  lemma BlockAhead(ts: HuffTables, s: HuffScan, last: seq<int>, mcu: seq<block>, n: nat, stream: seq<bool>, start: nat)
    requires GoodHuffScan(s) && |last| == |s.components| && n < |mcu| == |s.membership|
    requires AllSendable(ts, McuTokens(s, last, mcu)) && Ahead(stream, start, TokensBits(ts, McuTokens(s, last, mcu)))
    ensures var before, now := McuTokens(s, last, mcu[..n]), McuTokens(s, last, mcu[..n + 1]);
      && AllSendable(ts, before) && AllSendable(ts, now)
      && TokensAhead(ts, NthBlockTokens(s, LastDc(s, last, mcu[..n]), n, mcu[n]), stream,
        start + |TokensBits(ts, before)|, start + |TokensBits(ts, now)|)
      && LastDc(s, last, mcu[..n + 1]) == LastDc(s, last, mcu[..n])[s.membership[n] := mcu[n][0]]
  {
    hide Sendable, TokensBits, NthBlockTokens;
    var all, now := McuTokens(s, last, mcu), McuTokens(s, last, mcu[..n + 1]);
    var before, own := McuTokens(s, last, mcu[..n]), NthBlockTokens(s, LastDc(s, last, mcu[..n]), n, mcu[n]);
    McuTokensPrefix(s, last, mcu, n + 1);
    assert mcu[..n + 1][..n] == mcu[..n];
    assert all == now + all[|now|..];
    SendableParts(ts, now, all[|now|..]);
    SendableParts(ts, before, own);
    AheadSplit(stream, start, TokensBits(ts, now), TokensBits(ts, all[|now|..]));
    AheadSplit(stream, start, TokensBits(ts, before), TokensBits(ts, own));
  }

  /** The input holds the tokens of a whole scan, in segments. */
  ghost predicate HoldsScan(ts: HuffTables, s: HuffScan, total: Sent, segs: seq<seq<byte>>, marker: byte,
      input: seq<byte>)
    requires GoodHuffScan(s)
  {
    && ScanSendable(ts, total) && SegmentsHold(ts, total, segs) && EarlierStage(ScanSent(s, []), total)
    && marker != 0 && marker != 0xFF && input == SegmentsFrom(segs, 0, marker)
  }

  /** A restart leads to the segment of the next interval. */
  lemma NextSegment(ts: HuffTables, s: HuffScan, x: Sent, y: Sent, n: nat, total: Sent, segs: seq<seq<byte>>,
      marker: byte)
    requires ScanSendable(ts, total) && SegmentsHold(ts, total, segs) && x.intervals != []
    requires Restarts(s, n) && y == Restarted(s, x, n) && EarlierStage(y, total) && marker != 0 && marker != 0xFF
    ensures var i := |x.intervals|;
      && i < |segs| && |y.intervals| == i + 1 && ScanSendable(ts, y) && |TokensBits(ts, y.intervals[i])| == 0
      && MarkerAfter(segs, i - 1, marker) == RST0 + (i - 1) % 8
      && var d := SegmentsFrom(segs, i, marker);
        && MarkerAhead(d) && Segment(d) == segs[i]
        && MarkerOf(d) == (MarkerAfter(segs, i, marker), SegmentsFrom(segs, i + 1, marker))
  {
    hide SegmentsFrom, MarkerAhead, MarkerOf, Segment, Sendable, BytesBits;
    EarlierSendable(ts, y, total);
    SegmentAt(segs, |x.intervals|, marker);
  }

  class Decoder {
    const r: Reader
    const scan: HuffScan
    const dcDerived: seq<DDerived>
    const acDerived: seq<DDerived>
    var lastDc: seq<int>
    var restartsToGo: nat
    var nextRestartNum: nat
    var lost: bool  // a restart marker was missing
    ghost const tables: HuffTables
    ghost const total: Sent              // the tokens of the whole scan
    ghost const segs: seq<seq<byte>>     // the segments that hold them
    ghost const marker: byte
    ghost var sent: Sent
    ghost var mcuCount: nat

    ghost predicate Derived()
    {
      && GoodHuffScan(scan) && GoodOrder(scan.naturalOrder) && GoodTables(tables)
      && |dcDerived| == NUM_HUFF_TBLS && |acDerived| == NUM_HUFF_TBLS
      && forall i :: 0 <= i < NUM_HUFF_TBLS ==> (
        && CodeCount(tables.dc[i]) <= 256 && Decodes(tables.dc[i], dcDerived[i])
        && CodeCount(tables.ac[i]) <= 256 && Decodes(tables.ac[i], acDerived[i]))
    }

    ghost predicate Valid()
      reads this`lastDc, this`nextRestartNum, this`lost, r
    {
      && Derived() && |lastDc| == |scan.components| && nextRestartNum < 8
      && (!lost ==> r.Valid() && (IsRestart(r.ending.0) ==> EndsProperly(r.ending.1)))
    }

    /** The reader has taken exactly the tokens sent so far. */
    ghost predicate Reading()
      reads this`lastDc, this`nextRestartNum, this`lost, this`sent, r
    {
      && !lost && !r.insufficientData && lastDc == sent.last && marker != 0 && marker != 0xFF
      && ScanSendable(tables, total) && SegmentsHold(tables, total, segs)
      && EarlierStage(sent, total) && ScanSendable(tables, sent)
      && var i := |sent.intervals| - 1;
        && r.stream == BytesBits(segs[i]) && r.taken == |TokensBits(tables, sent.intervals[i])|
        && r.ending == (MarkerAfter(segs, i, marker), SegmentsFrom(segs, i + 1, marker))
        && nextRestartNum == i % 8
    }

    ghost predicate InStep()
      reads this`lastDc, this`restartsToGo, this`nextRestartNum, this`lost, this`sent, this`mcuCount, r
    {
      Reading() && (scan.restartInterval > 0 ==> restartsToGo == ToGo(scan.restartInterval, mcuCount))
    }

    constructor (input: seq<byte>, s: HuffScan, dc: seq<DDerived>, ac: seq<DDerived>,
        ghost ts: HuffTables, ghost all: Sent, ghost parts: seq<seq<byte>>, ghost end: byte)
      requires EndsProperly(input) && GoodHuffScan(s) && GoodOrder(s.naturalOrder) && GoodTables(ts)
      requires |dc| == NUM_HUFF_TBLS && |ac| == NUM_HUFF_TBLS
      requires forall i :: 0 <= i < NUM_HUFF_TBLS ==> (
        && CodeCount(ts.dc[i]) <= 256 && Decodes(ts.dc[i], dc[i])
        && CodeCount(ts.ac[i]) <= 256 && Decodes(ts.ac[i], ac[i]))
      ensures Valid() && fresh(r) && scan == s && mcuCount == 0 && sent == ScanSent(s, [])
      ensures tables == ts && total == all && segs == parts && marker == end
      ensures HoldsScan(ts, s, all, parts, end, input) ==> InStep()
    {
      hide GoodHuffScan, GoodOrder, GoodTables, Decodes, SegmentsHold, BytesBits, TokensBits, Sendable, SegmentsFrom,
        MarkerAhead, MarkerOf, Segment;
      r := new Reader(input);
      scan, dcDerived, acDerived, tables := s, dc, ac, ts;
      total, segs, marker := all, parts, end;
      lastDc := seq(|s.components|, _ => 0);
      restartsToGo, nextRestartNum, lost := s.restartInterval, 0, false;
      sent, mcuCount := ScanSent(s, []), 0;
      new;
      if HoldsScan(ts, s, all, parts, end, input) {
        HoldsAll(ts, all, parts);
        SegmentAt(parts, 0, end);
        NothingSent(ts);
      }
    }

    /** process_restart. */
    method ProcessRestart()
      requires Valid() && !lost && scan.restartInterval > 0
      modifies r, this`lastDc, this`restartsToGo, this`nextRestartNum, this`lost, this`sent
      ensures Valid() && (!lost ==> restartsToGo == scan.restartInterval)
      ensures (old(Reading()) && Restarts(scan, mcuCount)
        && EarlierStage(Restarted(scan, old(sent), mcuCount), total)) ==>
        Reading() && sent == Restarted(scan, old(sent), mcuCount)
    {
      hide GoodHuffScan, GoodOrder, GoodTables, Decodes, SegmentsHold, BytesBits, TokensBits, ScanSendable,
        SegmentsFrom, MarkerAfter,
        MarkerAhead, MarkerOf, Segment, Restarts, r.Valid, Derived, EndsProperly;
      EndsSays(r.ending);
      ghost var y, i := Restarted(scan, sent, mcuCount), |sent.intervals|;
      ghost var f := Reading() && Restarts(scan, mcuCount) && EarlierStage(y, total);
      if f {
        NextSegment(tables, scan, sent, y, mcuCount, total, segs, marker);
      }
      hide EarlierStage, Restarted;
      var ok := r.ReadRestartMarker(nextRestartNum);
      if !ok {
        lost := true;
        return;
      }
      if f {
        NextNumber(i - 1);
      }
      nextRestartNum := (nextRestartNum + 1) % 8;
      lastDc := seq(|scan.components|, _ => 0);
      restartsToGo := scan.restartInterval;
      if f {
        RestartForgets(scan, sent, mcuCount);
        sent := y;
      }
    }

    lemma TablesForBlock(blkn: nat)
      requires Derived() && blkn < |scan.membership|
      ensures scan.membership[blkn] < |scan.components|
      ensures var c := scan.components[scan.membership[blkn]];
        c.dcTbl < |dcDerived| && c.acTbl < |acDerived| && BlockTables(tables, c, dcDerived[c.dcTbl], acDerived[c.acTbl])
    {
      hide Decodes, GoodTable;
    }

    /** decode_mcu_slow. */
    method DecodeBlocks(priors: seq<block>, ghost mcu: seq<block>) returns (out: seq<block>)
      requires Valid() && !lost && |priors| == |mcu| == |scan.membership|
      requires forall i :: 0 <= i < |mcu| ==> SmallBlock(mcu[i])
      modifies r`pos, r`unreadMarker, r`getBuffer, r`bitsLeft, r`insufficientData, r`taken, this`lastDc, this`sent
      ensures Valid() && |out| == |priors|
      ensures old(Reading()) && AllBlank(priors) && EarlierStage(Extended(scan, old(sent), mcu), total) ==>
        Reading() && sent == Extended(scan, old(sent), mcu) && out == mcu
    {
      hide r.Valid, GoodHuffScan, GoodOrder, GoodTables, Decodes, SegmentsHold, BytesBits, TokensBits, ScanSendable,
        SegmentsFrom, MarkerAfter,
        AllSendable, Ahead, TokensAhead, McuTokens, LastDc, BlockTokens, BlockTables, SmallBlock;
      ghost var x, start, stream := sent, r.taken, r.stream;
      ghost var f := Reading() && AllBlank(priors) && EarlierStage(Extended(scan, sent, mcu), total);
      hide EarlierStage;
      if f {
        NonemptyStage(x, total);
        McuAhead(tables, x, Extended(scan, x, mcu), McuTokens(scan, x.last, mcu), total, segs);
        BeforeMcu(scan, x.last, mcu, tables);
      }
      out := [];
      for blkn := 0 to |priors|
        invariant Valid() && |out| == blkn && r.stream == stream
        invariant f ==> lastDc == LastDc(scan, x.last, mcu[..blkn]) && out == mcu[..blkn] && !r.insufficientData
        invariant f ==> AllSendable(tables, McuTokens(scan, x.last, mcu[..blkn]))
        invariant f ==> r.taken == start + |TokensBits(tables, McuTokens(scan, x.last, mcu[..blkn]))|
      {
        TablesForBlock(blkn);
        var ci := scan.membership[blkn];
        var c := scan.components[ci];
        ghost var end := r.taken;
        if f {
          BlockAhead(tables, scan, x.last, mcu, blkn, stream, start);
          end := start + |TokensBits(tables, McuTokens(scan, x.last, mcu[..blkn + 1]))|;
        }
        var b, dc := DecodeOneBlock(r, priors[blkn], lastDc[ci], scan.naturalOrder, dcDerived[c.dcTbl],
          acDerived[c.acTbl],
          tables, c, mcu[blkn], end);
        lastDc := lastDc[ci := dc];
        out := out + [b];
      }
      if f {
        assert mcu[..|mcu|] == mcu;
        sent := Extended(scan, x, mcu);
      }
    }

    /** decode_mcu: at the end of a restart interval, first go on after the marker. */
    method DecodeMcu(priors: seq<block>, ghost mcu: seq<block>) returns (out: seq<block>)
      requires Valid() && |priors| == |mcu| == |scan.membership|
      requires forall i :: 0 <= i < |mcu| ==> SmallBlock(mcu[i])
      modifies this, r
      ensures Valid() && |out| == |priors| && mcuCount == old(mcuCount) + 1
      ensures old(InStep()) && AllBlank(priors) && McuComes(old(sent), old(mcuCount), mcu) ==>
        InStep() && sent == Extended(scan, Restarted(scan, old(sent), old(mcuCount)), mcu) && out == mcu
    {
      hide Valid, Reading, GoodHuffScan, SmallBlock, EarlierStage, Extended, Restarted, Restarts, ToGo;
      ValidSays();
      ghost var f := InStep() && AllBlank(priors) && McuComes(sent, mcuCount, mcu);
      if scan.restartInterval > 0 {
        CountsDown(scan, mcuCount);
      }
      NoRestart(scan, sent, mcuCount);
      if f {
        McuComesAfterRestart(sent, mcuCount, mcu);
      }
      if !lost && scan.restartInterval > 0 && restartsToGo == 0 {
        ProcessRestart();
      }
      ValidSays();
      out := priors;
      if !lost && !r.insufficientData {
        out := DecodeBlocks(priors, mcu);
      }
      if scan.restartInterval > 0 && restartsToGo > 0 {
        restartsToGo := restartsToGo - 1;
      }
      mcuCount := mcuCount + 1;
    }

    lemma ValidSays()
      requires Valid()
      ensures GoodHuffScan(scan) && (Reading() ==> !lost && !r.insufficientData)
    {
    }

    /** After what has been sent, this MCU is next. */
    ghost predicate McuComes(x: Sent, n: nat, mcu: seq<block>)
      requires GoodHuffScan(scan)
    {
      && |x.last| == |scan.components| && x.intervals != [] && |mcu| == |scan.membership|
      && EarlierStage(Extended(scan, Restarted(scan, x, n), mcu), total)
    }

    lemma McuComesAfterRestart(x: Sent, n: nat, mcu: seq<block>)
      requires GoodHuffScan(scan) && McuComes(x, n, mcu)
      ensures EarlierStage(Restarted(scan, x, n), total)
    {
      hide EarlierStage, Extended;
      ExtendedIsLater(scan, Restarted(scan, x, n), mcu);
      EarlierTransitive(Restarted(scan, x, n), Extended(scan, Restarted(scan, x, n), mcu), total);
    }
  }

  predicate AllBlank(blocks: seq<block>)
  {
    forall i :: 0 <= i < |blocks| ==> blocks[i] == Blank()
  }

  lemma NonemptyStage(x: Sent, y: Sent)
    requires EarlierStage(x, y)
    ensures 0 < |x.intervals| <= |y.intervals|
  {
  }

  lemma BeforeMcu(s: HuffScan, last: seq<int>, mcu: seq<block>, ts: HuffTables)
    requires GoodHuffScan(s) && |last| == |s.components| && |mcu| == |s.membership|
    ensures LastDc(s, last, mcu[..0]) == last && McuTokens(s, last, mcu[..0]) == [] && TokensBits(ts, []) == []
    ensures AllSendable(ts, [])
  {
  }

  lemma EndsSays(ending: (byte, seq<byte>))
    requires IsRestart(ending.0) ==> EndsProperly(ending.1)
    ensures IsRestart(ending.0) ==> (MarkerAhead(ending.1)
      && (IsRestart(MarkerOf(ending.1).0) ==> EndsProperly(MarkerOf(ending.1).1)))
  {
  }

  lemma RestartForgets(s: HuffScan, x: Sent, n: nat)
    requires Restarts(s, n)
    ensures Restarted(s, x, n).last == NoDcYet(s)
  {
  }

  lemma HoldsAll(ts: HuffTables, total: Sent, segs: seq<seq<byte>>)
    requires ScanSendable(ts, total) && SegmentsHold(ts, total, segs)
    ensures |segs| == |total.intervals|
  {
  }

  lemma NothingSent(ts: HuffTables)
    ensures TokensBits(ts, []) == []
  {
  }
}
