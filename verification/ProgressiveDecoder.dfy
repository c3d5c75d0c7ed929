/** The progressive Huffman decoder. */
module ProgressiveDecoder {
  import opened Bytes
  import opened BitStrings
  import opened BitReader
  import opened CanonicalCode
  import opened HuffmanTables
  import opened CoefficientModel
  import opened ScanSetup
  import opened HuffmanModel
  import opened ProgressiveModel
  import opened Nonlinear
  import H = HuffmanDecoder
  import ScanScript

  /** The data go on with these pieces. */
  ghost predicate PiecesAhead(ts: seq<table>, xs: seq<Piece>, stream: seq<bool>, taken: nat)
  {
    AllCoded(ts, xs) && H.Ahead(stream, taken, PiecesBits(ts, xs))
  }

  lemma PieceAhead(ts: seq<table>, x: Piece, xs: seq<Piece>, stream: seq<bool>, taken: nat)
    requires PiecesAhead(ts, [x] + xs, stream, taken)
    ensures Coded(ts, x) && H.Ahead(stream, taken, PieceBits(ts, x))
    ensures PiecesAhead(ts, xs, stream, taken + |PieceBits(ts, x)|) && taken + |PieceBits(ts, x)| <= |stream|
  {
    hide Coded, PieceBits, PiecesBits;
    CodedParts(ts, [x], xs);
    assert [x][0] == x;
    OnePiece(ts, x);
    PiecesConcat(ts, [x], xs);
    H.AheadSplit(stream, taken, PieceBits(ts, x), PiecesBits(ts, xs));
  }

  /** The decoder's tables and what they were derived from. */
  ghost predicate DerivedTables(ts: seq<table>, ds: seq<DDerived>)
  {
    && |ts| == NUM_HUFF_TBLS && |ds| == NUM_HUFF_TBLS
    && forall i :: 0 <= i < NUM_HUFF_TBLS ==> Legal(ts[i].bits) && CodeCount(ts[i]) <= 256 && Decodes(ts[i], ds[i])
  }

  /** Decode a symbol; x is the piece expected, xs what follows it. */
  method GetSymbol(r: Reader, ds: seq<DDerived>, tbl: nat, ghost ts: seq<table>, ghost x: Piece, ghost xs: seq<Piece>)
    returns (s: byte)
    requires r.Valid() && DerivedTables(ts, ds) && tbl < NUM_HUFF_TBLS
    modifies r`pos, r`unreadMarker, r`getBuffer, r`bitsLeft, r`insufficientData, r`taken
    ensures r.Valid() && (GoodTable(ts[tbl], true) ==> s <= 15)
    ensures x.Symbol? && x.tbl == tbl && PiecesAhead(ts, [x] + xs, r.stream, old(r.taken)) ==> (
      s == x.sym && PiecesAhead(ts, xs, r.stream, r.taken) && r.insufficientData == old(r.insufficientData))
  {
    hide r.Valid, Legal, Decodes, ReadAs, PiecesAhead, CodeBits, GoodTable;
    ghost var start := r.taken;
    s := r.HuffDecode(ds[tbl], ts[tbl]);
    if GoodTable(ts[tbl], true) {
      H.DcSymbolSmall(ts[tbl], r.stream, start, s, r.taken);
    }
    if x.Symbol? && x.tbl == tbl && PiecesAhead(ts, [x] + xs, r.stream, start) {
      PieceAhead(ts, x, xs, r.stream, start);
      H.CodeIsRead(ts[tbl], r.stream, start, x.sym, s, r.taken);
    }
  }

  /** Fetch bits that are not a symbol. */
  method GetRaw(r: Reader, n: nat, ghost ts: seq<table>, ghost v: nat, ghost xs: seq<Piece>) returns (x: nat)
    requires r.Valid() && n <= 16
    modifies r`pos, r`unreadMarker, r`getBuffer, r`bitsLeft, r`insufficientData, r`taken
    ensures r.Valid() && x < Pow2(n)
    ensures v < Pow2(n) && PiecesAhead(ts, [Raw(Bits(v, n))] + xs, r.stream, old(r.taken)) ==> (
      x == v && PiecesAhead(ts, xs, r.stream, r.taken) && r.insufficientData == old(r.insufficientData))
  {
    hide r.Valid, PiecesAhead, Bits, Pow2, H.Ahead;
    ghost var start := r.taken;
    x := r.GetBits(n);
    if v < Pow2(n) && PiecesAhead(ts, [Raw(Bits(v, n))] + xs, r.stream, start) {
      PieceAhead(ts, Raw(Bits(v, n)), xs, r.stream, start);
      H.ExtraIsRead(r.stream, start, v, n, x);
    }
  }

  /** Fetch one correction bit; more bits of the same piece follow. */
  method GetCorrection(r: Reader, ghost ts: seq<table>, ghost b: bool, ghost more: seq<bool>, ghost xs: seq<Piece>)
      returns (bit: bool)
    requires r.Valid()
    modifies r`pos, r`unreadMarker, r`getBuffer, r`bitsLeft, r`insufficientData, r`taken
    ensures r.Valid()
    ensures PiecesAhead(ts, [Raw([b] + more)] + xs, r.stream, old(r.taken)) ==> (
      bit == b && PiecesAhead(ts, [Raw(more)] + xs, r.stream, r.taken) && r.insufficientData == old(r.insufficientData))
  {
    hide r.Valid, PiecesAhead, Pow2;
    ghost var f := PiecesAhead(ts, [Raw([b] + more)] + xs, r.stream, r.taken);
    if f {
      SplitRaw(ts, [b], more, xs, r.stream, r.taken);
      OneBitOf(b);
    }
    var x := GetRaw(r, 1, ts, if b then 1 else 0, [Raw(more)] + xs);
    bit := x == 1;
  }

  lemma OneBitOf(b: bool)
    ensures Bits(if b then 1 else 0, 1) == [b] && Pow2(1) == 2
  {
  }

  lemma SplitRaw(ts: seq<table>, a: seq<bool>, b: seq<bool>, xs: seq<Piece>, stream: seq<bool>, taken: nat)
    requires PiecesAhead(ts, [Raw(a + b)] + xs, stream, taken)
    ensures PiecesAhead(ts, [Raw(a)] + ([Raw(b)] + xs), stream, taken)
  {
    hide PiecesBits;
    CodedParts(ts, [Raw(a + b)], xs);
    OnePiece(ts, Raw(a + b));
    OnePiece(ts, Raw(a));
    OnePiece(ts, Raw(b));
    PiecesConcat(ts, [Raw(a + b)], xs);
    PiecesConcat(ts, [Raw(b)], xs);
    PiecesConcat(ts, [Raw(a)], [Raw(b)] + xs);
    assert (a + b) + PiecesBits(ts, xs) == a + (b + PiecesBits(ts, xs));
  }

  /** The end-of-run symbol gives the length of the run: bits n, then n bits. */
  lemma RunLength(run: nat)
    requires 0 < run <= 0x7FFF
    ensures var n := BitLength(run) - 1;
      0 <= n <= 14 && run % Pow2(n) < Pow2(n) && Bits(run % Pow2(n), n) == Bits(run, n)
        && run == Pow2(n) + run % Pow2(n)
  {
    hide Bits;
    var n := BitLength(run) - 1;
    BitLengthBounds(run);
    Pow2Values();
    assert Pow2(n + 1) == 2 * Pow2(n);
    hide Pow2;
    if n > 14 {
      Pow2Monotone(15, n);
    }
    BitsOfMod(run, n, n);
    DivisionUnique(run, Pow2(n), 1, run - Pow2(n));
  }

  // ----- ends of blocks

  /** The end of a block: if it ends early, the length of the run it begins. */
  function Closing(tbl: nat, eob: bool, run: nat, more: seq<Piece>): seq<Piece>
    requires eob ==> run > 0
  {
    if !eob then more
    else
      var n := BitLength(run) - 1;
      [Symbol(tbl, 16 * n)] + ([Raw(Bits(run, n))] + more)
  }

  /** The rest of an end-of-run code whose symbol has been read. */
  method GetEobRun(r: Reader, n: nat, ghost ts: seq<table>, ghost run: nat, ghost more: seq<Piece>)
      returns (eobRun: nat)
    requires r.Valid() && n <= 14
    modifies r`pos, r`unreadMarker, r`getBuffer, r`bitsLeft, r`insufficientData, r`taken
    ensures r.Valid() && eobRun > 0
    ensures (0 < run <= 0x7FFF && n == BitLength(run) - 1
      && PiecesAhead(ts, [Raw(Bits(run, n))] + more, r.stream, old(r.taken))) ==> (
      eobRun == run && PiecesAhead(ts, more, r.stream, r.taken) && r.insufficientData == old(r.insufficientData))
  {
    hide r.Valid, PiecesAhead, Bits, Pow2, BitLength;
    ghost var start := r.taken;
    if 0 < run <= 0x7FFF && n == BitLength(run) - 1 {
      RunLength(run);
      if n == 0 && PiecesAhead(ts, [Raw(Bits(run, n))] + more, r.stream, start) {
        PieceAhead(ts, Raw(Bits(run, n)), more, r.stream, start);
        EmptyBits(run);
      }
    }
    eobRun := Pow2(n);
    if n > 0 {
      var x := GetRaw(r, n, ts, run % Pow2(n), more);
      eobRun := eobRun + x;
    }
  }

  lemma EmptyBits(v: nat)
    ensures Bits(v, 0) == [] && v % Pow2(0) == 0
  {
  }

  // ----- AC first scans

  lemma {:induction false} FirstZeros(tbl: nat, w: zigzag, k: nat, m: nat, se: nat, r: nat)
    requires se < 64 && k <= m <= se + 1 && forall j :: k <= j < m ==> w[j] == 0
    ensures FirstCodes(tbl, w, k, se, r) == FirstCodes(tbl, w, m, se, r + (m - k))
    decreases m - k
  {
    if k < m {
      FirstZeros(tbl, w, k + 1, m, se, r + 1);
    }
  }

  /** The next code of a first scan, from k on. */
  lemma FirstAt(tbl: nat, w: zigzag, k: nat, se: nat)
    requires 1 <= k <= se < 64
    ensures var n := NextNonzero(w, k);
      && (n > se ==> FirstCodes(tbl, w, k, se, 0) == CodedBlock([], true, []))
      && (n <= se && n - k > 15 ==> FirstCodes(tbl, w, k, se, 0) == Prepend([Symbol(tbl, ZRL)],
        FirstCodes(tbl, w, k + 16, se, 0)))
      && (n <= se && n - k <= 15 ==> (FirstCodes(tbl, w, k, se, 0)
        == Prepend([Symbol(tbl, 16 * (n - k) + Magnitude(w[n])), Raw(Bits(ExtraBits(w[n]), Magnitude(w[n])))],
          FirstCodes(tbl, w, n + 1, se, 0))))
  {
    hide Magnitude, ExtraBits, Bits, NextNonzero;
    var n := NextNonzero(w, k);
    if n > se {
      FirstZeros(tbl, w, k, se + 1, se, 0);
    } else {
      FirstZeros(tbl, w, k, n, se, 0);
      if n - k > 15 {
        FirstZeros(tbl, w, k + 16, n, se, 0);
      }
    }
  }

  /** What is ahead in a first scan: the codes from k on, then the closing. */
  ghost predicate FirstAhead(ts: seq<table>, tbl: nat, w: zigzag, k: nat, se: nat, run: nat, more: seq<Piece>,
      stream: seq<bool>, taken: nat)
    requires se < 64
  {
    var c := FirstCodes(tbl, w, k, se, 0);
    0 < run <= 0x7FFF && PiecesAhead(ts, c.body + Closing(tbl, c.eob, run, more), stream, taken)
  }

  /** The next symbol expected in a first scan. */
  function FirstSymbol(tbl: nat, w: zigzag, k: nat, se: nat, run: nat): nat
    requires k <= se < 64 && run > 0
  {
    var n := NextNonzero(w, k);
    if n > se then 16 * (BitLength(run) - 1)
    else if n - k > 15 then ZRL
    else 16 * (n - k) + Magnitude(w[n])
  }

  /** What follows that symbol. */
  function AfterFirstSymbol(tbl: nat, w: zigzag, k: nat, se: nat, run: nat, more: seq<Piece>): seq<Piece>
    requires k <= se < 64 && run > 0
  {
    var n := NextNonzero(w, k);
    if n > se then [Raw(Bits(run, BitLength(run) - 1))] + more
    else if n - k > 15 then
      var c := FirstCodes(tbl, w, k + 16, se, 0);
      c.body + Closing(tbl, c.eob, run, more)
    else
      var c := FirstCodes(tbl, w, n + 1, se, 0);
      [Raw(Bits(ExtraBits(w[n]), Magnitude(w[n])))] + (c.body + Closing(tbl, c.eob, run, more))
  }

  lemma FirstSplits(ts: seq<table>, tbl: nat, w: zigzag, k: nat, se: nat, run: nat, more: seq<Piece>,
      stream: seq<bool>, taken: nat)
    requires 1 <= k <= se < 64 && FirstAhead(ts, tbl, w, k, se, run, more, stream, taken)
    ensures PiecesAhead(ts, [Symbol(tbl, FirstSymbol(tbl, w, k, se, run))] + AfterFirstSymbol(tbl, w, k, se, run,
      more), stream, taken)
  {
    hide PiecesAhead, Magnitude, ExtraBits, Bits, BitLength, NextNonzero, FirstCodes, Prepend;
    FirstAt(tbl, w, k, se);
    var n := NextNonzero(w, k);
    if n > se {
      NothingBefore(Closing(tbl, true, run, more));
    } else if n - k > 15 {
      var d := FirstCodes(tbl, w, k + 16, se, 0);
      PrependOne(Symbol(tbl, ZRL), d, Closing(tbl, d.eob, run, more));
    } else {
      var d := FirstCodes(tbl, w, n + 1, se, 0);
      PrependTwo(Symbol(tbl, 16 * (n - k) + Magnitude(w[n])), Raw(Bits(ExtraBits(w[n]), Magnitude(w[n]))), d,
        Closing(tbl, d.eob, run, more));
    }
  }

  lemma NothingBefore(a: seq<Piece>)
    ensures [] + a == a
  {
  }

  lemma PrependOne(x: Piece, c: CodedBlock, end: seq<Piece>)
    ensures Prepend([x], c).body + end == [x] + (c.body + end) && Prepend([x], c).eob == c.eob
  {
  }

  lemma PrependTwo(x: Piece, y: Piece, c: CodedBlock, end: seq<Piece>)
    ensures Prepend([x, y], c).body + end == [x] + ([y] + (c.body + end)) && Prepend([x, y], c).eob == c.eob
  {
    assert [x, y] + c.body == [x] + ([y] + c.body);
  }

  lemma PrependThree(x: Piece, y: Piece, z: Piece, c: CodedBlock, end: seq<Piece>)
    ensures Prepend([x, y, z], c).body + end == [x] + ([y] + ([z] + (c.body + end)))
      && Prepend([x, y, z], c).eob == c.eob
  {
    assert [x, y, z] + c.body == [x] + ([y, z] + c.body);
    PrependTwo(y, z, c, end);
  }

  /** What the symbol says in each case. */
  lemma FirstSays(tbl: nat, w: zigzag, k: nat, se: nat, run: nat)
    requires 1 <= k <= se < 64 && 0 < run <= 0x7FFF && BandInRange(w, k, se + 1)
    ensures var n, s := NextNonzero(w, k), FirstSymbol(tbl, w, k, se, run);
      && k <= n && (forall j :: k <= j < n && j < 64 ==> w[j] == 0)
      && (n > se ==> BitLength(run) > 0 && s % 16 == 0 && s / 16 == BitLength(run) - 1 <= 14)
      && (n <= se && n - k > 15 ==> s == ZRL)
      && (n <= se && n - k <= 15 ==> s % 16 == Magnitude(w[n]) > 0 && s / 16 == n - k)
  {
    hide Magnitude, BitLength;
    var n := NextNonzero(w, k);
    RunLength(run);
    if n <= se && n - k <= 15 {
      H.MagnitudePositive(w[n]);
      H.PackedSymbol(n - k, Magnitude(w[n]));
    }
  }

  lemma FirstNextBody(tbl: nat, w: zigzag, k: nat, se: nat)
    requires 1 <= k <= se < 64
    ensures var n := NextNonzero(w, k); var eob := FirstCodes(tbl, w, k, se, 0).eob;
      && (n > se ==> eob)
      && (n <= se && n - k > 15 ==> eob == FirstCodes(tbl, w, k + 16, se, 0).eob)
      && (n <= se && n - k <= 15 ==> eob == FirstCodes(tbl, w, n + 1, se, 0).eob)
  {
    hide FirstCodes, NextNonzero, Magnitude, ExtraBits, Bits;
    FirstAt(tbl, w, k, se);
  }

  /** A coefficient of a first scan, after its symbol. */
  method FirstStep(r: Reader, prior: block, o: order, k: nat, se: nat, al: nat, rr: nat, size: nat,
      ghost ts: seq<table>, ghost tbl: nat, ghost w: zigzag, ghost z0: zigzag, ghost ss: nat, ghost run: nat,
        ghost more: seq<Piece>, ghost f: bool)
    returns (b: block, n: nat)
    requires r.Valid() && 1 <= k <= se < 64 && 0 < size < 16
    requires f ==> (ss <= k && NextNonzero(w, k) <= se && rr == NextNonzero(w, k) - k <= 15 && 0 < run <= 0x7FFF
      && GoodOrder(o))
    requires f ==> size == Magnitude(w[k + rr]) && Zigzag(prior, o) == Placed(z0, w, ss, k + rr, al)
    requires f ==> PiecesAhead(ts, AfterFirstSymbol(tbl, w, k, se, run, more), r.stream, r.taken)
    modifies r`pos, r`unreadMarker, r`getBuffer, r`bitsLeft, r`insufficientData, r`taken
    ensures r.Valid() && n == k + rr
    ensures f ==> Zigzag(b, o) == Placed(z0, w, ss, n + 1, al) && r.insufficientData == old(r.insufficientData)
    ensures f ==> FirstAhead(ts, tbl, w, n + 1, se, run, more, r.stream, r.taken)
  {
    hide r.Valid, PiecesAhead, FirstCodes, Zigzag, Placed, Magnitude, ExtraBits, Bits, BitLength, NextNonzero,
      GoodOrder, Pow2, Extend, Jcoef, H.Natural;
    n := k + rr;
    ghost var extra, rest := 0, [];
    if f {
      ExtraBound(w[n]);
      ghost var c := FirstCodes(tbl, w, n + 1, se, 0);
      extra, rest := ExtraBits(w[n]), c.body + Closing(tbl, c.eob, run, more);
    }
    var raw := GetRaw(r, size, ts, extra, rest);
    var v := Extend(raw, size);
    if f {
      H.ExtraBitsExtend(w[n]);
      MagnitudeNotZero(w[n]);
      StorePlaced(prior, o, z0, w, ss, n, al, v);
    }
    H.NaturalFits(o, n);
    b := prior[H.Natural(o, n) := Jcoef(v * Pow2(al))];
  }

  lemma MagnitudeNotZero(v: int)
    requires Magnitude(v) > 0
    ensures v != 0
  {
  }

  lemma AfterEnd(tbl: nat, w: zigzag, k: nat, se: nat, run: nat, more: seq<Piece>)
    requires k <= se < 64 && run > 0 && NextNonzero(w, k) > se
    ensures AfterFirstSymbol(tbl, w, k, se, run, more) == [Raw(Bits(run, BitLength(run) - 1))] + more
  {
  }

  /** What is known before the next symbol of a first scan is read. */
  lemma FirstMeets(ts: seq<table>, tbl: nat, w: zigzag, z0: zigzag, ss: nat, k: nat, se: nat, al: nat, run: nat,
      more: seq<Piece>,
      stream: seq<bool>, taken: nat)
    requires 1 <= ss <= k <= se < 64 && BandInRange(w, ss, se + 1)
      && FirstAhead(ts, tbl, w, k, se, run, more, stream, taken)
    ensures 0 < run <= 0x7FFF
    ensures PiecesAhead(ts, [Symbol(tbl, FirstSymbol(tbl, w, k, se, run))] + AfterFirstSymbol(tbl, w, k, se, run,
      more), stream, taken)
    ensures var n, s, eob := NextNonzero(w, k), FirstSymbol(tbl, w, k, se, run), FirstCodes(tbl, w, k, se, 0).eob;
      && k <= n
      && if n > se then
        && eob && AfterFirstSymbol(tbl, w, k, se, run, more) == [Raw(Bits(run, BitLength(run) - 1))] + more
        && BitLength(run) > 0 && s % 16 == 0 && s / 16 == BitLength(run) - 1 <= 14
        && Placed(z0, w, ss, se + 1, al) == Placed(z0, w, ss, k, al)
      else if n - k > 15 then
        s == ZRL && eob == FirstCodes(tbl, w, k + 16, se, 0).eob
          && Placed(z0, w, ss, k + 16, al) == Placed(z0, w, ss, k, al)
      else
        && s % 16 == Magnitude(w[n]) > 0 && s / 16 == n - k && eob == FirstCodes(tbl, w, n + 1, se, 0).eob
        && Placed(z0, w, ss, n, al) == Placed(z0, w, ss, k, al)
  {
    hide PiecesAhead, FirstCodes, Placed, Magnitude, ExtraBits, Bits, BitLength, NextNonzero, FirstSymbol, FirstAhead,
      AfterFirstSymbol;
    FirstRun(ts, tbl, w, k, se, run, more, stream, taken);
    FirstSplits(ts, tbl, w, k, se, run, more, stream, taken);
    FirstSays(tbl, w, k, se, run);
    FirstNextBody(tbl, w, k, se);
    var n := NextNonzero(w, k);
    if n > se {
      AfterEnd(tbl, w, k, se, run, more);
    }
    PlacedZeros(z0, w, ss, k, if n > se then se + 1 else if n - k > 15 then k + 16 else n, al);
  }

  /** Decode the codes of a block in a first scan. */
  method GetAcFirst(r: Reader, prior: block, o: order, ds: seq<DDerived>, tbl: nat, ss: nat, se: nat, al: nat,
      ghost ts: seq<table>, ghost w: zigzag, ghost z0: zigzag, ghost run: nat, ghost more: seq<Piece>)
    returns (b: block, eobRun: nat)
    requires r.Valid() && DerivedTables(ts, ds) && tbl < NUM_HUFF_TBLS && 1 <= ss <= se < 64 && GoodOrder(o)
    modifies r`pos, r`unreadMarker, r`getBuffer, r`bitsLeft, r`insufficientData, r`taken
    ensures r.Valid()
    ensures (Zigzag(prior, o) == z0 && BandInRange(w, ss, se + 1)
      && FirstAhead(ts, tbl, w, ss, se, run, more, r.stream, old(r.taken))) ==> (
      && Zigzag(b, o) == Placed(z0, w, ss, se + 1, al) && PiecesAhead(ts, more, r.stream, r.taken)
      && eobRun == (if FirstCodes(tbl, w, ss, se, 0).eob then run - 1 else 0)
      && r.insufficientData == old(r.insufficientData))
  {
    hide r.Valid, DerivedTables, PiecesAhead, FirstCodes, Zigzag, Placed, Magnitude, ExtraBits, Bits, BitLength,
      NextNonzero, GoodOrder, Pow2,
      FirstSymbol, AfterFirstSymbol, FirstAhead, Closing, Extend, Jcoef, H.Natural, BandInRange;
    b, eobRun := prior, 0;
    ghost var f := Zigzag(prior, o) == z0 && BandInRange(w, ss, se + 1)
      && FirstAhead(ts, tbl, w, ss, se, run, more, r.stream, r.taken);
    ghost var eob := FirstCodes(tbl, w, ss, se, 0).eob;
    PlacedNothing(z0, w, ss, al);
    var k := ss;
    while k <= se
      invariant r.Valid() && ss <= k && eobRun == 0
      invariant f ==> k <= se + 1 && Zigzag(b, o) == Placed(z0, w, ss, k, al)
      invariant f ==> FirstAhead(ts, tbl, w, k, se, run, more, r.stream, r.taken)
      invariant f ==> FirstCodes(tbl, w, k, se, 0).eob == eob && r.insufficientData == old(r.insufficientData)
    {
      ghost var x, xs := Symbol(tbl, 0), [];
      if f {
        FirstMeets(ts, tbl, w, z0, ss, k, se, al, run, more, r.stream, r.taken);
        x, xs := Symbol(tbl, FirstSymbol(tbl, w, k, se, run)), AfterFirstSymbol(tbl, w, k, se, run, more);
      }
      var s := GetSymbol(r, ds, tbl, ts, x, xs);
      var rr, size := s / 16, s % 16;
      if size != 0 {
        b, k := FirstStep(r, b, o, k, se, al, rr, size, ts, tbl, w, z0, ss, run, more, f);
      } else {
        if rr != 15 {
          var length := GetEobRun(r, rr, ts, run, more);
          eobRun := length - 1;
          break;
        }
        if f {
          FirstIsAhead(ts, tbl, w, k, se, run, more, r.stream, r.taken);
        }
        k := k + 15;
      }
      k := k + 1;
    }
    if f && k > se {
      FirstBandDone(ts, tbl, w, se, run, more, r.stream, r.taken);
    }
  }

  lemma FirstRun(ts: seq<table>, tbl: nat, w: zigzag, k: nat, se: nat, run: nat, more: seq<Piece>, stream: seq<bool>,
      taken: nat)
    requires se < 64 && FirstAhead(ts, tbl, w, k, se, run, more, stream, taken)
    ensures 0 < run <= 0x7FFF
  {
  }

  lemma FirstIsAhead(ts: seq<table>, tbl: nat, w: zigzag, k: nat, se: nat, run: nat, more: seq<Piece>,
      stream: seq<bool>, taken: nat)
    requires k <= se < 64 && 0 < run <= 0x7FFF && 15 < NextNonzero(w, k) - k <= se - k
    requires PiecesAhead(ts, AfterFirstSymbol(tbl, w, k, se, run, more), stream, taken)
    ensures FirstAhead(ts, tbl, w, k + 16, se, run, more, stream, taken)
  {
  }

  lemma ExtraBound(v: int)
    ensures ExtraBits(v) < Pow2(Magnitude(v))
  {
  }

  lemma StorePlaced(b: block, o: order, z0: zigzag, w: zigzag, ss: nat, n: nat, al: nat, v: int)
    requires GoodOrder(o) && ss <= n < 64 && Zigzag(b, o) == Placed(z0, w, ss, n, al) && v == w[n] != 0
    ensures H.Natural(o, n) < 64 && Zigzag(b[H.Natural(o, n) := Jcoef(v * Pow2(al))], o) == Placed(z0, w, ss, n + 1, al)
  {
    hide Pow2, Zigzag, Placed, Jcoef;
    PlacedNext(z0, w, ss, n, al, b, o);
  }

  lemma FirstBandDone(ts: seq<table>, tbl: nat, w: zigzag, se: nat, run: nat, more: seq<Piece>, stream: seq<bool>,
      taken: nat)
    requires se < 64 && FirstAhead(ts, tbl, w, se + 1, se, run, more, stream, taken)
    ensures PiecesAhead(ts, more, stream, taken) && !FirstCodes(tbl, w, se + 1, se, 0).eob
  {
    assert [] + more == more;
  }

  // ----- AC refinement

  /** The band of a refinement scan: coefficients before k are refined. */
  ghost predicate RefinedTo(b: block, o: order, z0: zigzag, c: zigzag, ss: nat, k: nat, se: nat, al: nat)
    requires se < 64
  {
    && 1 <= ss <= k <= se + 1 && GoodOrder(o) && Prepared(z0, c, ss, se, al)
      && Zigzag(b, o) == Refined(z0, c, ss, k, al)
    && forall j :: 0 <= j < 64 ==> -0x8000 <= c[j] < 0x8000
  }

  /** What the decoder finds at coefficient k. */
  lemma FindsHistory(b: block, o: order, z0: zigzag, c: zigzag, ss: nat, k: nat, se: nat, al: nat)
    requires se < 64 && RefinedTo(b, o, z0, c, ss, k, se, al) && k <= se
    ensures b[o[k]] == Approx(c[k], al + 1) && (b[o[k]] != 0 <==> SizeAt(c, al, k) > 1)
    ensures RefinedTo(b[o[k] := Approx(c[k], al)], o, z0, c, ss, k + 1, se, al)
  {
    hide NoRepeats, Approx, ShiftRight;
    ApproxNext(c[k], al);
    RefinedNext(z0, c, ss, k, se, al, b, o);
  }

  /** A coefficient that stays zero needs no change. */
  lemma StaysZero(b: block, o: order, z0: zigzag, c: zigzag, ss: nat, k: nat, se: nat, al: nat)
    requires se < 64 && RefinedTo(b, o, z0, c, ss, k, se, al) && k <= se && SizeAt(c, al, k) == 0
    ensures RefinedTo(b, o, z0, c, ss, k + 1, se, al)
  {
    hide RefinedTo, Approx;
    FindsHistory(b, o, z0, c, ss, k, se, al);
    ZeroApprox(c[k], al);
    assert b[o[k] := 0] == b;
  }

  lemma ZeroApprox(c: int, al: nat)
    requires ShiftRight(Abs(c), al) == 0
    ensures Approx(c, al) == 0
  {
    ApproxNext(c, al);
  }

  /** The bit sent for a coefficient that was nonzero before. */
  lemma CorrectedValue(c: int, al: nat)
    requires ShiftRight(Abs(c), al) > 1
    ensures var before, p1 := Approx(c, al + 1), Pow2(al);
      && before / p1 % 2 == 0
      && Approx(c, al) == (if ShiftRight(Abs(c),
        al) % 2 == 1 then (if before >= 0 then before + p1 else before - p1) else before)
  {
    var p1, v := Pow2(al), ShiftRight(Abs(c), al);
    ApproxNext(c, al);
    hide ShiftRight;
    EvenMultiple(c, al);
  }

  lemma EvenMultiple(c: int, al: nat)
    ensures Approx(c, al + 1) / Pow2(al) % 2 == 0
  {
    hide ShiftRight;
    var t := Transformed(c, al + 1);
    Reassociate(t, 2, Pow2(al));
    DivisionUnique(t * 2 * Pow2(al), Pow2(al), t * 2, 0);
  }

  /** Refine a coefficient that is not zero: set the new bit if it is 1. */
  method RefineHistory(r: Reader, coef: int, al: nat, ghost ts: seq<table>, ghost c: int, ghost more: seq<bool>,
      ghost xs: seq<Piece>)
    returns (value: int)
    requires r.Valid()
    modifies r`pos, r`unreadMarker, r`getBuffer, r`bitsLeft, r`insufficientData, r`taken
    ensures r.Valid()
    ensures var v := ShiftRight(Abs(c), al);
      (v > 1 && coef == Approx(c, al + 1) && PiecesAhead(ts, [Raw([v % 2 == 1] + more)] + xs, r.stream, old(r.taken)))
        ==> (
      && value == Approx(c, al) && PiecesAhead(ts, [Raw(more)] + xs, r.stream, r.taken)
      && r.insufficientData == old(r.insufficientData))
  {
    hide r.Valid, PiecesAhead, ShiftRight, Approx, Pow2;
    ghost var v := ShiftRight(Abs(c), al);
    var bit := GetCorrection(r, ts, v % 2 == 1, more, xs);
    if v > 1 {
      CorrectedValue(c, al);
    }
    var p1 := Pow2(al);
    value := coef;
    if bit {
      if coef / p1 % 2 == 0 {
        value := if coef >= 0 then coef + p1 else coef - p1;
      }
    }
  }

  /** The correction bits of coefficients k to t - 1 are ahead; none of these becomes
      nonzero. */
  ghost predicate BandAhead(ts: seq<table>, b: block, o: order, z0: zigzag, c: zigzag, ss: nat, k: nat, se: nat,
      al: nat, t: nat,
      xs: seq<Piece>, stream: seq<bool>, taken: nat)
    requires k <= t <= 64 && se < 64
  {
    && RefinedTo(b, o, z0, c, ss, k, se, al) && NoneNew(c, al, k, t)
    && PiecesAhead(ts, [Raw(Corrections(c, al, k, t))] + xs, stream, taken)
  }

  /** Advance over already-nonzero coefficients and rr still-zero ones. */
  method AdvanceBand(r: Reader, prior: block, o: order, k: nat, se: nat, rr: nat, al: nat,
      ghost ts: seq<table>, ghost c: zigzag, ghost z0: zigzag, ghost ss: nat, ghost xs: seq<Piece>) returns (b: block,
        j: nat)
    requires r.Valid() && k <= se < 64
    modifies r`pos, r`unreadMarker, r`getBuffer, r`bitsLeft, r`insufficientData, r`taken
    ensures r.Valid() && k <= j <= se + 1
    ensures var t := Target(c, al, k, se, rr);
      BandAhead(ts, prior, o, z0, c, ss, k, se, al, t, xs, r.stream, old(r.taken)) ==> (
      && j == t && RefinedTo(b, o, z0, c, ss, j, se, al) && PiecesAhead(ts, xs, r.stream, r.taken)
      && r.insufficientData == old(r.insufficientData))
  {
    hide r.Valid, PiecesAhead, RefinedTo, ShiftRight, Target, Approx, Corrections;
    ghost var t := Target(c, al, k, se, rr);
    ghost var f := BandAhead(ts, prior, o, z0, c, ss, k, se, al, t, xs, r.stream, r.taken);
    b, j := prior, k;
    var q := rr;
    while j <= se
      invariant r.Valid() && k <= j <= se + 1 && q >= 0
      invariant f ==> j <= t && Target(c, al, j, se, q) == t && RefinedTo(b, o, z0, c, ss, j, se, al)
      invariant f ==> PiecesAhead(ts, [Raw(Corrections(c, al, j, t))] + xs, r.stream, r.taken)
      invariant f ==> r.insufficientData == old(r.insufficientData)
    {
      if f {
        FindsHistory(b, o, z0, c, ss, j, se, al);
        TargetSteps(c, al, j, se, q, t);
      }
      if b[o[j]] != 0 {
        ghost var more := if f && j < t then Corrections(c, al, j + 1, t) else [];
        var value := RefineHistory(r, b[o[j]], al, ts, c[j], more, xs);
        b := b[o[j] := value];
      } else {
        if q == 0 {
          break;
        }
        if f {
          StaysZero(b, o, z0, c, ss, j, se, al);
        }
        q := q - 1;
      }
      j := j + 1;
    }
    if f {
      TargetReached(c, al, j, se, q);
      NoCorrections(ts, c, al, j, xs, r.stream, r.taken);
    }
  }

  lemma TargetSteps(c: zigzag, al: nat, j: nat, se: nat, q: nat, t: nat)
    requires j <= se < 64 && Target(c, al, j, se, q) == t && NoneNew(c, al, j, t)
    ensures SizeAt(c, al, j) > 1 ==> j < t && Target(c, al, j + 1, se, q) == t
    ensures SizeAt(c, al, j) > 1
      ==> Corrections(c, al, j, t) == [SizeAt(c, al, j) % 2 == 1] + Corrections(c, al, j + 1, t)
    ensures SizeAt(c, al, j) <= 1 && q == 0 ==> t == j
    ensures SizeAt(c, al, j) <= 1 && q > 0 ==> j < t && SizeAt(c, al, j) == 0 && Target(c, al, j + 1, se, q - 1) == t
    ensures SizeAt(c, al, j) <= 1 && q > 0 ==> Corrections(c, al, j, t) == Corrections(c, al, j + 1, t)
  {
    hide ShiftRight;
    if SizeAt(c, al, j) <= 1 && q > 0 {
      assert [] + Corrections(c, al, j + 1, t) == Corrections(c, al, j + 1, t);
    }
  }

  lemma TargetReached(c: zigzag, al: nat, j: nat, se: nat, q: nat)
    requires se < 64 && j <= se + 1 && (j <= se ==> q == 0 && SizeAt(c, al, j) <= 1)
    ensures Target(c, al, j, se, q) == j
  {
    hide SizeAt;
  }

  lemma NoCorrections(ts: seq<table>, c: zigzag, al: nat, j: nat, xs: seq<Piece>, stream: seq<bool>, taken: nat)
    requires j <= 64 && PiecesAhead(ts, [Raw(Corrections(c, al, j, j))] + xs, stream, taken)
    ensures PiecesAhead(ts, xs, stream, taken)
  {
    hide PiecesAhead;
    PieceAhead(ts, Raw([]), xs, stream, taken);
  }

  /** Correct the rest of the band, after the last code of a block; more correction
      bits, those of later blocks in the run, follow. */
  method CorrectRest(r: Reader, prior: block, o: order, k: nat, se: nat, al: nat,
      ghost ts: seq<table>, ghost c: zigzag, ghost z0: zigzag, ghost ss: nat, ghost tails: seq<bool>,
        ghost xs: seq<Piece>)
    returns (b: block)
    requires r.Valid() && k <= se + 1 <= 64
    modifies r`pos, r`unreadMarker, r`getBuffer, r`bitsLeft, r`insufficientData, r`taken
    ensures r.Valid()
    ensures RestAhead(ts, prior, o, z0, c, ss, k, se, al, tails, xs, r.stream, old(r.taken)) ==> (
      && RefinedTo(b, o, z0, c, ss, se + 1, se, al) && PiecesAhead(ts, [Raw(tails)] + xs, r.stream, r.taken)
      && r.insufficientData == old(r.insufficientData))
  {
    hide r.Valid, PiecesAhead, RefinedTo, ShiftRight, Approx, Corrections;
    ghost var f := RestAhead(ts, prior, o, z0, c, ss, k, se, al, tails, xs, r.stream, r.taken);
    b := prior;
    for j := k to se + 1
      invariant r.Valid()
      invariant f ==> RestAhead(ts, b, o, z0, c, ss, j, se, al, tails, xs, r.stream, r.taken)
      invariant f ==> r.insufficientData == old(r.insufficientData)
    {
      ghost var more := Corrections(c, al, j + 1, se + 1) + tails;
      if f {
        FindsHistory(b, o, z0, c, ss, j, se, al);
        RestSteps(c, al, j, se, tails);
      }
      if b[o[j]] != 0 {
        var value := RefineHistory(r, b[o[j]], al, ts, c[j], more, xs);
        b := b[o[j] := value];
      } else if f {
        StaysZero(b, o, z0, c, ss, j, se, al);
      }
    }
    if f {
      RestDone(c, al, se, tails);
    }
  }

  ghost predicate RestAhead(ts: seq<table>, b: block, o: order, z0: zigzag, c: zigzag, ss: nat, k: nat, se: nat,
      al: nat,
      tails: seq<bool>, xs: seq<Piece>, stream: seq<bool>, taken: nat)
    requires k <= se + 1 <= 64
  {
    && RefinedTo(b, o, z0, c, ss, k, se, al) && NoneNew(c, al, k, se + 1)
    && PiecesAhead(ts, [Raw(Corrections(c, al, k, se + 1) + tails)] + xs, stream, taken)
  }

  lemma RestSteps(c: zigzag, al: nat, j: nat, se: nat, tails: seq<bool>)
    requires j <= se < 64 && NoneNew(c, al, j, se + 1)
    ensures var more := Corrections(c, al, j + 1, se + 1) + tails;
      && (SizeAt(c, al, j) > 1 ==> Corrections(c, al, j, se + 1) + tails == [SizeAt(c, al, j) % 2 == 1] + more)
      && (SizeAt(c, al, j) <= 1 ==> SizeAt(c, al, j) == 0 && Corrections(c, al, j, se + 1) + tails == more)
  {
    hide ShiftRight;
    var rest := Corrections(c, al, j + 1, se + 1);
    assert ([SizeAt(c, al, j) % 2 == 1] + rest) + tails == [SizeAt(c, al, j) % 2 == 1] + (rest + tails);
    assert [] + rest == rest;
  }

  lemma RestDone(c: zigzag, al: nat, se: nat, tails: seq<bool>)
    requires se < 64
    ensures Corrections(c, al, se + 1, se + 1) + tails == tails
  {
  }

  /** What is ahead in a refinement scan at a boundary between codes. */
  ghost predicate RefineAhead(ts: seq<table>, tbl: nat, c: zigzag, al: nat, k: nat, se: nat, eob: nat, run: nat,
      more: seq<Piece>,
      stream: seq<bool>, taken: nat)
    requires se < 64
  {
    var x := FromCode(tbl, c, al, k, se, eob);
    0 < run <= 0x7FFF && PiecesAhead(ts, x.body + Closing(tbl, x.eob, run, more), stream, taken)
  }

  /** The next symbol expected in a refinement scan. */
  function RefineSymbol(c: zigzag, al: nat, k: nat, se: nat, run: nat): nat
    requires k <= se < 64 && run > 0
  {
    var e := NextNew(c, al, k, se);
    if e > se then 16 * (BitLength(run) - 1)
    else if WasZero(c, al, k, e) > 15 then ZRL
    else 16 * WasZero(c, al, k, e) + 1
  }

  /** Where that code leads: past the coefficient it is for. */
  function RefineTarget(c: zigzag, al: nat, k: nat, se: nat): (j: nat)
    requires k <= se < 64
    ensures k <= j <= se + 1
  {
    var e := NextNew(c, al, k, se);
    if e > se then se + 1
    else if WasZero(c, al, k, e) > 15 then Target(c, al, k, se, 15)
    else e
  }

  /** What follows the symbol. */
  function AfterRefineSymbol(tbl: nat, c: zigzag, al: nat, k: nat, se: nat, eob: nat, run: nat,
      more: seq<Piece>): seq<Piece>
    requires k <= se < 64 && run > 0
  {
    var e, j := NextNew(c, al, k, se), RefineTarget(c, al, k, se);
    var x := FromCode(tbl, c, al, j + 1, se, eob);
    var rest := [Raw(Corrections(c, al, k, j))] + (x.body + Closing(tbl, x.eob, run, more));
    if e > se then [Raw(Bits(run, BitLength(run) - 1))] + more
    else if WasZero(c, al, k, e) > 15 then rest
    else [Raw([c[e] >= 0])] + rest
  }

  /** The stream from k on begins with that symbol and what follows it. */
  predicate RefineStarts(tbl: nat, c: zigzag, al: nat, k: nat, se: nat, eob: nat, run: nat, more: seq<Piece>)
    requires k <= se < 64 && run > 0
  {
    var x := FromCode(tbl, c, al, k, se, eob);
    x.body + Closing(tbl, x.eob, run, more)
      == [Symbol(tbl, RefineSymbol(c, al, k, se, run))] + AfterRefineSymbol(tbl, c, al, k, se, eob, run, more)
  }

  lemma StartsWithEnd(tbl: nat, c: zigzag, al: nat, k: nat, se: nat, eob: nat, run: nat, more: seq<Piece>)
    requires 1 <= k <= se < 64 && IsLastNew(c, al, k, se, eob) && run > 0 && NextNew(c, al, k, se) > se
    ensures RefineStarts(tbl, c, al, k, se, eob, run, more)
  {
    hide Bits, BitLength, NextNew, FromCode, WasZero, Corrections, Target, SizeAt, IsLastNew;
    EndCode(tbl, c, al, k, se, eob);
    NothingBefore(Closing(tbl, true, run, more));
  }

  lemma StartsWithZeros(tbl: nat, c: zigzag, al: nat, k: nat, se: nat, eob: nat, run: nat, more: seq<Piece>)
    requires 1 <= k <= se < 64 && IsLastNew(c, al, k, se, eob) && run > 0
    requires NextNew(c, al, k, se) <= se && WasZero(c, al, k, NextNew(c, al, k, se)) > 15
    ensures RefineStarts(tbl, c, al, k, se, eob, run, more)
  {
    hide Bits, BitLength, NextNew, FromCode, WasZero, Corrections, Target, SizeAt, IsLastNew, Closing, Prepend,
      RefineSymbol, AfterRefineSymbol;
    ZerosCode(tbl, c, al, k, se, eob);
    AfterZeros(tbl, c, al, k, se, eob, run, more);
    var j := Target(c, al, k, se, 15);
    var x := FromCode(tbl, c, al, j + 1, se, eob);
    PrependTwo(Symbol(tbl, ZRL), Raw(Corrections(c, al, k, j)), x, Closing(tbl, x.eob, run, more));
  }

  lemma AfterZeros(tbl: nat, c: zigzag, al: nat, k: nat, se: nat, eob: nat, run: nat, more: seq<Piece>)
    requires 1 <= k <= se < 64 && run > 0 && NextNew(c, al, k, se) <= se
      && WasZero(c, al, k, NextNew(c, al, k, se)) > 15
    ensures RefineSymbol(c, al, k, se, run) == ZRL
    ensures var j := Target(c, al, k, se, 15); var x := FromCode(tbl, c, al, j + 1, se, eob);
      AfterRefineSymbol(tbl, c, al, k, se, eob, run, more)
        == [Raw(Corrections(c, al, k, j))] + (x.body + Closing(tbl, x.eob, run, more))
  {
    hide NextNew, FromCode, WasZero, Corrections, Target, Closing;
  }

  lemma StartsWithNew(tbl: nat, c: zigzag, al: nat, k: nat, se: nat, eob: nat, run: nat, more: seq<Piece>)
    requires 1 <= k <= se < 64 && IsLastNew(c, al, k, se, eob) && run > 0
    requires NextNew(c, al, k, se) <= se && WasZero(c, al, k, NextNew(c, al, k, se)) <= 15
    ensures RefineStarts(tbl, c, al, k, se, eob, run, more)
  {
    hide Bits, BitLength, NextNew, FromCode, WasZero, Corrections, Target, SizeAt, IsLastNew, Closing, Prepend,
      RefineSymbol, AfterRefineSymbol;
    NewCode(tbl, c, al, k, se, eob);
    AfterNew(tbl, c, al, k, se, eob, run, more);
    var e := NextNew(c, al, k, se);
    var x := FromCode(tbl, c, al, e + 1, se, eob);
    PrependThree(Symbol(tbl, 16 * WasZero(c, al, k, e) + 1), Raw([c[e] >= 0]), Raw(Corrections(c, al, k, e)), x,
      Closing(tbl, x.eob, run, more));
  }

  lemma AfterNew(tbl: nat, c: zigzag, al: nat, k: nat, se: nat, eob: nat, run: nat, more: seq<Piece>)
    requires 1 <= k <= se < 64 && run > 0 && NextNew(c, al, k, se) <= se
      && WasZero(c, al, k, NextNew(c, al, k, se)) <= 15
    ensures RefineSymbol(c, al, k, se, run) == 16 * WasZero(c, al, k, NextNew(c, al, k, se)) + 1
    ensures var e := NextNew(c, al, k, se); var x := FromCode(tbl, c, al, e + 1, se, eob);
      AfterRefineSymbol(tbl, c, al, k, se, eob, run, more)
        == [Raw([c[e] >= 0])] + ([Raw(Corrections(c, al, k, e))] + (x.body + Closing(tbl, x.eob, run, more)))
  {
    hide NextNew, FromCode, WasZero, Corrections, Target, Closing;
  }

  lemma RefineSplits(ts: seq<table>, tbl: nat, c: zigzag, al: nat, k: nat, se: nat, eob: nat, run: nat,
      more: seq<Piece>,
      stream: seq<bool>, taken: nat)
    requires 1 <= k <= se < 64 && IsLastNew(c, al, k, se, eob)
      && RefineAhead(ts, tbl, c, al, k, se, eob, run, more, stream, taken)
    ensures PiecesAhead(ts, [Symbol(tbl, RefineSymbol(c, al, k, se, run))] + AfterRefineSymbol(tbl, c, al, k, se, eob,
      run, more), stream, taken)
  {
    hide PiecesAhead, NextNew, FromCode, WasZero, IsLastNew, Closing, RefineSymbol, AfterRefineSymbol;
    if NextNew(c, al, k, se) > se {
      StartsWithEnd(tbl, c, al, k, se, eob, run, more);
    } else if WasZero(c, al, k, NextNew(c, al, k, se)) > 15 {
      StartsWithZeros(tbl, c, al, k, se, eob, run, more);
    } else {
      StartsWithNew(tbl, c, al, k, se, eob, run, more);
    }
  }

  /** What the symbol of a refinement code says. */
  lemma RefineSays(c: zigzag, al: nat, k: nat, se: nat, run: nat)
    requires 1 <= k <= se < 64 && 0 < run <= 0x7FFF
    ensures var e, s := NextNew(c, al, k, se), RefineSymbol(c, al, k, se, run);
      && (e > se ==> BitLength(run) > 0 && s % 16 == 0 && s / 16 == BitLength(run) - 1 <= 14)
      && (e <= se && WasZero(c, al, k, e) > 15 ==> s == ZRL && s / 16 == 15 && s % 16 == 0)
      && (e <= se && WasZero(c, al, k, e) <= 15 ==> s % 16 == 1 && s / 16 == WasZero(c, al, k, e))
  {
    hide BitLength, SizeAt, WasZero, NextNew;
    RunLength(run);
  }

  /** The target of a code is where the decoder's walk ends. */
  lemma TargetOfCode(c: zigzag, al: nat, k: nat, se: nat, tbl: nat, eob: nat)
    requires 1 <= k <= se < 64 && IsLastNew(c, al, k, se, eob)
    ensures var e, j := NextNew(c, al, k, se), RefineTarget(c, al, k, se);
      && (e <= se ==> j <= e && NoneNew(c, al, k, j))
      && (e <= se && WasZero(c, al, k, e) > 15 ==> j == Target(c, al, k, se, 15) && SizeAt(c, al, j) == 0)
      && (e <= se && WasZero(c, al, k, e) <= 15 ==> (j == e == Target(c, al, k, se, WasZero(c, al, k, e))
        && SizeAt(c, al, j) == 1))
  {
    hide SizeAt, Target, WasZero, Corrections, FromCode;
    var e := NextNew(c, al, k, se);
    if e <= se {
      if WasZero(c, al, k, e) > 15 {
        ZerosCode(tbl, c, al, k, se, eob);
      } else {
        NewCode(tbl, c, al, k, se, eob);
      }
    }
  }

  /** The codes of a block end alike wherever one starts. */
  lemma SameEnd(tbl: nat, c: zigzag, al: nat, k: nat, se: nat, eob: nat)
    requires 1 <= k <= se < 64 && IsLastNew(c, al, k, se, eob)
    ensures var e, x := NextNew(c, al, k, se), FromCode(tbl, c, al, k, se, eob);
      && (e > se ==> x.eob && x.body == [] && x.tail == Corrections(c, al, k, se + 1) && NoneNew(c, al, k, se + 1))
      && (e <= se ==> var y := FromCode(tbl, c, al, RefineTarget(c, al, k, se) + 1, se, eob);
        x.eob == y.eob && x.tail == y.tail)
  {
    hide SizeAt, Target, WasZero, Corrections, FromCode;
    var e := NextNew(c, al, k, se);
    if e > se {
      EndCode(tbl, c, al, k, se, eob);
    } else if WasZero(c, al, k, e) > 15 {
      ZerosCode(tbl, c, al, k, se, eob);
    } else {
      NewCode(tbl, c, al, k, se, eob);
    }
  }

  /** A coefficient that becomes nonzero gets the new bit and its sign. */
  lemma StoreNew(b: block, o: order, z0: zigzag, c: zigzag, ss: nat, k: nat, se: nat, al: nat)
    requires se < 64 && RefinedTo(b, o, z0, c, ss, k, se, al) && k <= se && SizeAt(c, al, k) == 1
    ensures var p1: int := Pow2(al);
      RefinedTo(b[o[k] := Jcoef(if c[k] >= 0 then p1 else -p1)], o, z0, c, ss, k + 1, se, al)
  {
    hide NoRepeats, ShiftRight, Pow2, Jcoef, RefinedTo;
    FindsHistory(b, o, z0, c, ss, k, se, al);
    RefinedBounds(b, o, z0, c, ss, k, se, al);
    ScanScript.ApproxKeepsRange(c[k], al);
    ScanScript.JcoefFits(Approx(c[k], al));
  }

  lemma RefinedBounds(b: block, o: order, z0: zigzag, c: zigzag, ss: nat, k: nat, se: nat, al: nat)
    requires se < 64 && RefinedTo(b, o, z0, c, ss, k, se, al) && k <= se
    ensures -0x8000 <= c[k] < 0x8000
  {
  }

  lemma LastNewAt(c: zigzag, al: nat, ss: nat, k: nat, se: nat)
    requires 1 <= ss <= k <= se + 1 <= 64
    ensures IsLastNew(c, al, k, se, LastNew(c, al, ss, se))
  {
  }

  /** One code of a refinement scan, after its symbol: the sign of a new coefficient,
      the walk to its place, and the new value. */
  method RefineStep(r: Reader, prior: block, o: order, k: nat, se: nat, al: nat, rr: nat, size: nat,
      ghost ts: seq<table>, ghost tbl: nat, ghost c: zigzag, ghost z0: zigzag, ghost ss: nat, ghost eob: nat,
        ghost run: nat, ghost more: seq<Piece>,
      ghost f: bool) returns (b: block, j: nat)
    requires r.Valid() && 1 <= k <= se < 64
    requires f ==> RefinedTo(prior, o, z0, c, ss, k, se, al) && IsLastNew(c, al, k, se, eob) && 0 < run <= 0x7FFF
    requires f ==> (NextNew(c, al, k, se) <= se
      && PiecesAhead(ts, AfterRefineSymbol(tbl, c, al, k, se, eob, run, more), r.stream, r.taken))
    requires f ==> RefineSymbol(c, al, k, se, run) == 16 * rr + size && (size == 0 ==> rr == 15) && size < 16
    modifies r`pos, r`unreadMarker, r`getBuffer, r`bitsLeft, r`insufficientData, r`taken
    ensures r.Valid() && k <= j <= se + 1
    ensures f ==> j == RefineTarget(c, al, k, se) <= se && RefinedTo(b, o, z0, c, ss, j + 1, se, al)
    ensures f ==> RefineAhead(ts, tbl, c, al, j + 1, se, eob, run, more, r.stream, r.taken)
    ensures f ==> r.insufficientData == old(r.insufficientData)
  {
    hide r.Valid, PiecesAhead, RefinedTo, SizeAt, Target, WasZero, NextNew, Approx, Corrections, FromCode, IsLastNew,
      Bits, BitLength,
      Pow2, Jcoef, H.Natural, RefineTarget, RefineSymbol, AfterRefineSymbol, Closing, RefineAhead, NoneNew;
    ghost var e, t := NextNew(c, al, k, se), RefineTarget(c, al, k, se);
    ghost var rest, after := [], [];
    if f {
      TargetOfCode(c, al, k, se, tbl, eob);
      SymbolParts(c, al, k, se, run, rr, size);
      rest := AfterTarget(tbl, c, al, t, se, eob, run, more);
      after := [Raw(Corrections(c, al, k, t))] + rest;
      AfterSymbolParts(tbl, c, al, k, se, eob, run, more);
      RestIsAhead(ts, tbl, c, al, t, se, eob, run, more, r.stream);
      if size != 0 {
        OneBitOf(c[e] >= 0);
      }
    }
    var sign := 0;
    if size != 0 {
      sign := GetRaw(r, 1, ts, if f && c[e] >= 0 then 1 else 0, after);
    }
    b, j := AdvanceBand(r, prior, o, k, se, rr, al, ts, c, z0, ss, rest);
    H.NaturalFits(o, j);
    if size != 0 {
      if f {
        StoreNew(b, o, z0, c, ss, j, se, al);
        NaturalInside(o, j);
      }
      var p1: int := Pow2(al);
      b := b[H.Natural(o, j) := Jcoef(if sign == 1 then p1 else -p1)];
    } else if f {
      StaysZero(b, o, z0, c, ss, j, se, al);
    }
  }

  /** What follows the code of coefficient t. */
  function AfterTarget(tbl: nat, c: zigzag, al: nat, t: nat, se: nat, eob: nat, run: nat, more: seq<Piece>): seq<Piece>
    requires se < 64 && run > 0
  {
    var y := FromCode(tbl, c, al, t + 1, se, eob);
    y.body + Closing(tbl, y.eob, run, more)
  }

  lemma AfterSymbolParts(tbl: nat, c: zigzag, al: nat, k: nat, se: nat, eob: nat, run: nat, more: seq<Piece>)
    requires 1 <= k <= se < 64 && run > 0 && NextNew(c, al, k, se) <= se
    ensures var e, t := NextNew(c, al, k, se), RefineTarget(c, al, k, se);
      var after := [Raw(Corrections(c, al, k, t))] + AfterTarget(tbl, c, al, t, se, eob, run, more);
      AfterRefineSymbol(tbl, c, al, k, se, eob, run, more) == if WasZero(c, al, k,
        e) > 15 then after else [Raw([c[e] >= 0])] + after
  {
    hide WasZero, NextNew, Corrections, FromCode, Closing;
  }

  lemma RestIsAhead(ts: seq<table>, tbl: nat, c: zigzag, al: nat, t: nat, se: nat, eob: nat, run: nat,
      more: seq<Piece>, stream: seq<bool>)
    requires se < 64 && 0 < run <= 0x7FFF
    ensures forall taken :: PiecesAhead(ts, AfterTarget(tbl, c, al, t, se, eob, run, more), stream, taken) ==>
      RefineAhead(ts, tbl, c, al, t + 1, se, eob, run, more, stream, taken)
  {
    hide PiecesAhead, FromCode, Closing;
  }

  lemma NaturalInside(o: order, k: nat)
    ensures k < 64 ==> H.Natural(o, k) == o[k]
  {
  }

  lemma SymbolParts(c: zigzag, al: nat, k: nat, se: nat, run: nat, rr: nat, size: nat)
    requires 1 <= k <= se < 64 && 0 < run <= 0x7FFF && NextNew(c, al, k, se) <= se
    requires RefineSymbol(c, al, k, se, run) == 16 * rr + size && size < 16
    ensures var n := WasZero(c, al, k, NextNew(c, al, k, se));
      (n > 15 ==> rr == 15 && size == 0) && (n <= 15 ==> rr == n && size == 1)
  {
    hide WasZero, NextNew, BitLength;
  }

  /** Decode a block of a refinement scan outside a run of ends of blocks. */
  method GetAcRefine(r: Reader, prior: block, o: order, ds: seq<DDerived>, tbl: nat, ss: nat, se: nat, al: nat,
      ghost ts: seq<table>, ghost c: zigzag, ghost z0: zigzag, ghost run: nat, ghost tails: seq<bool>,
        ghost rest: seq<Piece>)
    returns (b: block, eobRun: nat)
    requires r.Valid() && DerivedTables(ts, ds) && tbl < NUM_HUFF_TBLS && 1 <= ss <= se < 64
    modifies r`pos, r`unreadMarker, r`getBuffer, r`bitsLeft, r`insufficientData, r`taken
    ensures r.Valid()
    ensures var eob := LastNew(c, al, ss, se); var x := FromCode(tbl, c, al, ss, se, eob);
      var more := if x.eob then [Raw(x.tail + tails)] + rest else rest;
      (RefinedTo(prior, o, z0, c, ss, ss, se, al)
        && RefineAhead(ts, tbl, c, al, ss, se, eob, run, more, r.stream, old(r.taken))) ==> (
      && RefinedTo(b, o, z0, c, ss, se + 1, se, al) && eobRun == (if x.eob then run - 1 else 0)
      && PiecesAhead(ts, if x.eob then [Raw(tails)] + rest else rest, r.stream, r.taken)
      && r.insufficientData == old(r.insufficientData))
  {
    hide r.Valid, PiecesAhead, RefinedTo, SizeAt, Target, WasZero, NextNew, Approx, Corrections, FromCode, LastNew,
      IsLastNew, Bits, BitLength,
      DerivedTables, Pow2, Jcoef, RefineSymbol, RefineAhead, H.Natural, RefineTarget;
    ghost var eob := LastNew(c, al, ss, se);
    ghost var x := FromCode(tbl, c, al, ss, se, eob);
    ghost var more := if x.eob then [Raw(x.tail + tails)] + rest else rest;
    ghost var f := RefinedTo(prior, o, z0, c, ss, ss, se, al)
      && RefineAhead(ts, tbl, c, al, ss, se, eob, run, more, r.stream, r.taken);
    b, eobRun := prior, 0;
    var k := ss;
    while k <= se
      invariant r.Valid() && ss <= k && eobRun == 0
      invariant f ==> k <= se + 1 && RefinedTo(b, o, z0, c, ss, k, se, al)
      invariant f ==> RefineAhead(ts, tbl, c, al, k, se, eob, run, more, r.stream, r.taken)
      invariant f ==> (var y := FromCode(tbl, c, al, k, se, eob); y.eob == x.eob && y.tail == x.tail)
      invariant f ==> r.insufficientData == old(r.insufficientData)
    {
      ghost var symbol, after := Symbol(tbl, 0), [];
      if f {
        LastNewAt(c, al, ss, k, se);
        RefineRun(ts, tbl, c, al, k, se, eob, run, more, r.stream, r.taken);
        RefineSplits(ts, tbl, c, al, k, se, eob, run, more, r.stream, r.taken);
        RefineSays(c, al, k, se, run);
        TargetOfCode(c, al, k, se, tbl, eob);
        SameEnd(tbl, c, al, k, se, eob);
        symbol, after := Symbol(tbl, RefineSymbol(c, al, k, se, run)),
          AfterRefineSymbol(tbl, c, al, k, se, eob, run, more);
      }
      var s := GetSymbol(r, ds, tbl, ts, symbol, after);
      var rr, size := s / 16, s % 16;
      if size == 0 && rr != 15 {
        eobRun := GetEobRun(r, rr, ts, run, more);
        break;
      }
      b, k := RefineStep(r, b, o, k, se, al, rr, size, ts, tbl, c, z0, ss, eob, run, more, f);
      k := k + 1;
    }
    if f && k > se {
      RefineBandDone(ts, tbl, c, al, ss, se, run, more, r.stream, r.taken);
    }
    if eobRun > 0 {
      b := CorrectRest(r, b, o, k, se, al, ts, c, z0, ss, tails, rest);
      eobRun := eobRun - 1;
    }
  }

  lemma RefineBandDone(ts: seq<table>, tbl: nat, c: zigzag, al: nat, ss: nat, se: nat, run: nat, more: seq<Piece>,
      stream: seq<bool>, taken: nat)
    requires 1 <= ss <= se < 64 && RefineAhead(ts, tbl, c, al, se + 1, se, LastNew(c, al, ss, se), run, more, stream,
      taken)
    ensures PiecesAhead(ts, more, stream, taken) && !FromCode(tbl, c, al, se + 1, se, LastNew(c, al, ss, se)).eob
  {
    hide SizeAt, LastNew, PiecesAhead;
    assert [] + more == more;
  }

  lemma RefineRun(ts: seq<table>, tbl: nat, c: zigzag, al: nat, k: nat, se: nat, eob: nat, run: nat, more: seq<Piece>,
      stream: seq<bool>, taken: nat)
    requires se < 64 && RefineAhead(ts, tbl, c, al, k, se, eob, run, more, stream, taken)
    ensures 0 < run <= 0x7FFF
  {
  }
}
