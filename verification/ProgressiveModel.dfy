/**
 Progressive Huffman coding (section G.1.2 of the JPEG standard): what each block of a
 scan sends, and how the ends of blocks are gathered into runs.
 */
module ProgressiveModel {
  import opened Bytes
  import opened BitStrings
  import opened HuffmanTables
  import opened CoefficientModel
  import opened ScanSetup
  import opened HuffmanModel

  /** A Huffman symbol of a table, or bits sent as they are. */
  datatype Piece = Symbol(tbl: nat, sym: nat) | Raw(bits: seq<bool>)

  // ----- the bits of pieces

  /** The symbol has a code. */
  predicate Coded(ts: seq<table>, x: Piece)
  {
    x.Symbol? ==> x.tbl < |ts| && CodeCount(ts[x.tbl]) <= 256 && HasCode(ts[x.tbl], x.sym)
  }

  predicate AllCoded(ts: seq<table>, xs: seq<Piece>)
  {
    forall i :: 0 <= i < |xs| ==> Coded(ts, xs[i])
  }

  function PieceBits(ts: seq<table>, x: Piece): seq<bool>
    requires Coded(ts, x)
  {
    match x
    case Symbol(tbl, sym) => CodeBits(ts[tbl], sym)
    case Raw(bits) => bits
  }

  function PiecesBits(ts: seq<table>, xs: seq<Piece>): seq<bool>
    requires AllCoded(ts, xs)
  {
    if xs == [] then [] else PieceBits(ts, xs[0]) + PiecesBits(ts, xs[1..])
  }

  lemma CodedParts(ts: seq<table>, xs: seq<Piece>, ys: seq<Piece>)
    ensures AllCoded(ts, xs + ys) <==> AllCoded(ts, xs) && AllCoded(ts, ys)
  {
    hide Coded;
    if AllCoded(ts, xs + ys) {
      forall i | 0 <= i < |xs| ensures Coded(ts, xs[i]) {
        assert (xs + ys)[i] == xs[i];
      }
      forall i | 0 <= i < |ys| ensures Coded(ts, ys[i]) {
        assert (xs + ys)[|xs| + i] == ys[i];
      }
    }
  }

  lemma {:induction false} PiecesConcat(ts: seq<table>, xs: seq<Piece>, ys: seq<Piece>)
    requires AllCoded(ts, xs) && AllCoded(ts, ys)
    ensures AllCoded(ts, xs + ys)
    ensures PiecesBits(ts, xs + ys) == PiecesBits(ts, xs) + PiecesBits(ts, ys)
  {
    hide Coded, PieceBits;
    CodedParts(ts, xs, ys);
    if xs == [] {
      assert xs + ys == ys;
    } else {
      PiecesConcat(ts, xs[1..], ys);
      assert xs + ys == [xs[0]] + (xs[1..] + ys);
      assert (xs + ys)[1..] == xs[1..] + ys;
    }
  }

  lemma OnePiece(ts: seq<table>, x: Piece)
    requires Coded(ts, x)
    ensures AllCoded(ts, [x]) && PiecesBits(ts, [x]) == PieceBits(ts, x)
  {
    assert [x][1..] == [];
    assert PieceBits(ts, x) + [] == PieceBits(ts, x);
  }

  /** The symbols among the pieces, as the statistics pass counts them. */
  function SymbolTokens(dc: bool, xs: seq<Piece>): seq<Token>
  {
    if xs == [] then []
    else
      var n := |xs| - 1;
      SymbolTokens(dc, xs[..n]) + PieceTokens(dc, xs[n])
  }

  function PieceTokens(dc: bool, x: Piece): seq<Token>
  {
    match x
    case Symbol(tbl, sym) => [Token(dc, tbl, sym, 0, 0)]
    case Raw(_) => []
  }

  lemma SymbolTokensNext(dc: bool, xs: seq<Piece>, x: Piece)
    ensures SymbolTokens(dc, xs + [x]) == SymbolTokens(dc, xs) + PieceTokens(dc, x)
  {
    assert (xs + [x])[..|xs|] == xs;
  }

  lemma {:induction false} SymbolIsToken(dc: bool, xs: seq<Piece>, i: nat)
    requires i < |xs| && xs[i].Symbol?
    ensures Token(dc, xs[i].tbl, xs[i].sym, 0, 0) in SymbolTokens(dc, xs)
  {
    var n := |xs| - 1;
    if i < n {
      SymbolIsToken(dc, xs[..n], i);
    }
  }

  // ----- runs of ends of blocks

  /** The codes of a block, whether it ends early, and the correction bits after its
      last code. */
  datatype CodedBlock = CodedBlock(body: seq<Piece>, eob: bool, tail: seq<bool>)

  /** A run of blocks that end early, not yet sent, and their correction bits. */
  datatype Pending = Pending(run: nat, bits: seq<bool>)

  const NONE := Pending(0, [])
  const MAX_CORR_BITS := 1000
  const MAX_HELD := MAX_CORR_BITS - 64 + 1  // more correction bits than this are not held

  /** A run is sent as the length of its binary number, that number without its leading
      1, and the correction bits. */
  function RunPieces(tbl: nat, p: Pending): seq<Piece>
  {
    if p.run == 0 then []
    else
      var n := BitLength(p.run) - 1;
      [Symbol(tbl, 16 * n), Raw(Bits(p.run, n)), Raw(p.bits)]
  }

  /** The run cannot be continued. */
  predicate MustSend(p: Pending)
  {
    p.run == 0x7FFF || |p.bits| > MAX_HELD
  }

  function AddEob(p: Pending, tail: seq<bool>): Pending
  {
    Pending(p.run + 1, p.bits + tail)
  }

  /** A block with codes first sends the pending run; one that ends early then joins or
      begins a run. */
  function Step(tbl: nat, p: Pending, c: CodedBlock): (seq<Piece>, Pending)
  {
    var sent := if c.body == [] then [] else RunPieces(tbl, p) + c.body;
    var held := if c.body == [] then p else NONE;
    if !c.eob then (sent, held)
    else
      var q := AddEob(held, c.tail);
      if MustSend(q) then (sent + RunPieces(tbl, q), NONE) else (sent, q)
  }

  /** What has been sent and what is pending after all blocks of cs. */
  function After(tbl: nat, cs: seq<CodedBlock>): (seq<Piece>, Pending)
  {
    if cs == [] then ([], NONE)
    else
      var before := After(tbl, cs[..|cs| - 1]);
      var s := Step(tbl, before.1, cs[|cs| - 1]);
      (before.0 + s.0, s.1)
  }

  /** What is sent from block i on when p is pending. */
  function Rest(tbl: nat, cs: seq<CodedBlock>, i: nat, p: Pending): seq<Piece>
    requires i <= |cs|
    decreases |cs| - i
  {
    if i == |cs| then RunPieces(tbl, p)
    else
      var s := Step(tbl, p, cs[i]);
      s.0 + Rest(tbl, cs, i + 1, s.1)
  }

  lemma {:induction false} SentThenRest(tbl: nat, cs: seq<CodedBlock>, i: nat)
    requires i <= |cs|
    ensures After(tbl, cs[..i]).0 + Rest(tbl, cs, i, After(tbl, cs[..i]).1) == Rest(tbl, cs, 0, NONE)
  {
    hide Step, RunPieces;
    if i == 0 {
      assert cs[..0] == [];
      assert [] + Rest(tbl, cs, 0, NONE) == Rest(tbl, cs, 0, NONE);
    } else {
      SentThenRest(tbl, cs, i - 1);
      assert cs[..i][..i - 1] == cs[..i - 1];
      var before := After(tbl, cs[..i - 1]);
      var s := Step(tbl, before.1, cs[i - 1]);
      assert (before.0 + s.0) + Rest(tbl, cs, i, s.1) == before.0 + (s.0 + Rest(tbl, cs, i, s.1));
    }
  }

  /** All correction bits after the last codes of n blocks from i on. */
  function Tails(cs: seq<CodedBlock>, i: nat, n: nat): seq<bool>
    requires i + n <= |cs|
    decreases n
  {
    if n == 0 then [] else cs[i].tail + Tails(cs, i + 1, n - 1)
  }

  /** Blocks i to i + n - 1 have no codes and end at once. */
  predicate AllEnd(cs: seq<CodedBlock>, i: nat, n: nat)
    requires i + n <= |cs|
  {
    forall j :: i <= j < i + n ==> cs[j].body == [] && cs[j].eob
  }

  /** How many blocks from i on join the pending run. */
  function Joining(cs: seq<CodedBlock>, i: nat, p: Pending): (n: nat)
    requires i <= |cs|
    ensures i + n <= |cs|
    decreases |cs| - i
  {
    if i == |cs| || cs[i].body != [] || !cs[i].eob then 0
    else if MustSend(AddEob(p, cs[i].tail)) then 1
    else 1 + Joining(cs, i + 1, AddEob(p, cs[i].tail))
  }

  /** A block without codes ends early, and no block has more than 63 tail bits. */
  predicate GoodBlock(c: CodedBlock)
  {
    (c.body == [] ==> c.eob) && |c.tail| <= 63
  }

  predicate GoodBlocks(cs: seq<CodedBlock>)
  {
    forall i :: 0 <= i < |cs| ==> GoodBlock(cs[i])
  }

  lemma NothingPending(tbl: nat, c: CodedBlock, p: Pending)
    requires c.body != []
    ensures Step(tbl, p, c).0 == RunPieces(tbl, p) + Step(tbl, NONE, c).0 && Step(tbl, p, c).1 == Step(tbl, NONE, c).1
  {
    assert [] + c.body == c.body;
  }

  lemma StepJoins(tbl: nat, c: CodedBlock, p: Pending)
    requires GoodBlock(c) && c.body == []
    ensures var q := AddEob(p, c.tail); Step(tbl, p, c) == if MustSend(q) then (RunPieces(tbl, q), NONE) else ([], q)
  {
    hide MustSend, RunPieces;
    var q := AddEob(p, c.tail);
    assert [] + RunPieces(tbl, q) == RunPieces(tbl, q);
  }

  lemma RunStops(tbl: nat, cs: seq<CodedBlock>, i: nat, p: Pending)
    requires i <= |cs| && (i < |cs| ==> cs[i].body != [])
    ensures Joining(cs, i, p) == 0 && Rest(tbl, cs, i, p) == RunPieces(tbl, p) + Rest(tbl, cs, i, NONE)
  {
    hide RunPieces, Step;
    if i == |cs| {
      NoRun(tbl);
      assert RunPieces(tbl, p) + [] == RunPieces(tbl, p);
    } else {
      NothingPending(tbl, cs[i], p);
      var s := Step(tbl, NONE, cs[i]);
      assert (RunPieces(tbl, p) + s.0) + Rest(tbl, cs, i + 1, s.1) == RunPieces(tbl,
        p) + (s.0 + Rest(tbl, cs, i + 1, s.1));
    }
  }

  lemma RunGrows(tbl: nat, cs: seq<CodedBlock>, i: nat, p: Pending)
    requires i < |cs| && GoodBlock(cs[i]) && cs[i].body == []
    ensures cs[i].eob
    ensures var q := AddEob(p, cs[i].tail);
      if MustSend(q) then Joining(cs, i, p) == 1
        && Rest(tbl, cs, i, p) == RunPieces(tbl, q) + Rest(tbl, cs, i + 1, NONE)
      else Joining(cs, i, p) == 1 + Joining(cs, i + 1, q) && Rest(tbl, cs, i, p) == Rest(tbl, cs, i + 1, q)
  {
    hide RunPieces, Step, MustSend, AddEob;
    StepJoins(tbl, cs[i], p);
    var q := AddEob(p, cs[i].tail);
    assert [] + Rest(tbl, cs, i + 1, q) == Rest(tbl, cs, i + 1, q);
  }

  /** Pieces sent block by block amount to one symbol for the whole run. */
  lemma {:induction false} RunIsOneSymbol(tbl: nat, cs: seq<CodedBlock>, i: nat, p: Pending)
    requires i <= |cs| && GoodBlocks(cs) && 0 < p.run && !MustSend(p) && p.run < 0x7FFF
    ensures var n := Joining(cs, i, p);
      && AllEnd(cs, i, n) && p.run + n <= 0x7FFF
      && Rest(tbl, cs, i, p) == RunPieces(tbl, Pending(p.run + n, p.bits + Tails(cs, i, n))) + Rest(tbl, cs, i + n,
        NONE)
    decreases |cs| - i
  {
    hide RunPieces, Step, GoodBlock, Rest, Joining;
    assert p.bits + [] == p.bits;
    if i == |cs| || cs[i].body != [] {
      RunStops(tbl, cs, i, p);
    } else {
      RunGrows(tbl, cs, i, p);
      var q := AddEob(p, cs[i].tail);
      if MustSend(q) {
        assert cs[i].tail + [] == cs[i].tail;
      } else {
        var n := Joining(cs, i, p);
        RunIsOneSymbol(tbl, cs, i + 1, q);
        assert (p.bits + cs[i].tail) + Tails(cs, i + 1, n - 1) == p.bits + Tails(cs, i, n);
      }
    }
  }

  lemma NoRun(tbl: nat)
    ensures RunPieces(tbl, NONE) == []
  {
  }

  // ----- the codes of a block

  /** More pieces in front of a block's codes. */
  function Prepend(xs: seq<Piece>, c: CodedBlock): CodedBlock
  {
    CodedBlock(xs + c.body, c.eob, c.tail)
  }

  /** A DC difference. */
  function DcCodes(tbl: nat, diff: int): CodedBlock
  {
    CodedBlock([Symbol(tbl, Magnitude(diff)), Raw(Bits(ExtraBits(diff), Magnitude(diff)))], false, [])
  }

  /** Figure G.3: coefficients k..se of a first scan, after r zeros. */
  function FirstCodes(tbl: nat, w: zigzag, k: nat, se: nat, r: nat): CodedBlock
    requires se < 64
    decreases 64 - k, r
  {
    if k > se then CodedBlock([], r > 0, [])
    else if w[k] == 0 then FirstCodes(tbl, w, k + 1, se, r + 1)
    else if r > 15 then Prepend([Symbol(tbl, ZRL)], FirstCodes(tbl, w, k, se, r - 16))
    else
      Prepend([Symbol(tbl, 16 * r + Magnitude(w[k])), Raw(Bits(ExtraBits(w[k]), Magnitude(w[k])))],
        FirstCodes(tbl, w, k + 1, se, 0))
  }

  /** The size of a coefficient after the point transform: 1 if a refinement scan makes
      it nonzero, more if it was nonzero before. */
  function SizeAt(c: zigzag, al: nat, k: nat): nat
    requires k < 64
  {
    ShiftRight(Abs(c[k]), al)
  }

  /** The last coefficient of the band that becomes nonzero, or 0. */
  function LastNew(c: zigzag, al: nat, ss: nat, se: nat): (e: nat)
    requires ss <= se + 1 <= 64
    ensures e == 0 || (ss <= e <= se && SizeAt(c, al, e) == 1)
    ensures forall k :: ss <= k <= se && SizeAt(c, al, k) == 1 ==> k <= e
    decreases se + 1 - ss
  {
    if ss > se then 0
    else if SizeAt(c, al, se) == 1 then se
    else if se == 0 then 0
    else LastNew(c, al, ss, se - 1)
  }

  /** Figure G.7: coefficients k..se of a refinement scan, after r zeros and correction
      bits corr that wait for the next code. */
  function RefineCodes(tbl: nat, c: zigzag, al: nat, k: nat, se: nat, eob: nat, r: nat, corr: seq<bool>): CodedBlock
    requires se < 64
    decreases 64 - k, r
  {
    if k > se then CodedBlock([], r > 0 || corr != [], corr)
    else
      var v := SizeAt(c, al, k);
      if v == 0 then RefineCodes(tbl, c, al, k + 1, se, eob, r + 1, corr)
      else if r > 15 && k <= eob then
        Prepend([Symbol(tbl, ZRL), Raw(corr)], RefineCodes(tbl, c, al, k, se, eob, r - 16, []))
      else if v > 1 then RefineCodes(tbl, c, al, k + 1, se, eob, r, corr + [v % 2 == 1])
      else
        Prepend([Symbol(tbl, 16 * r + 1), Raw([c[k] >= 0]), Raw(corr)], RefineCodes(tbl, c, al, k + 1, se, eob, 0, []))
  }

  // ----- a refinement scan as the decoder meets it

  /** What follows from k on, at a boundary between codes. */
  function FromCode(tbl: nat, c: zigzag, al: nat, k: nat, se: nat, eob: nat): CodedBlock
    requires se < 64
  {
    RefineCodes(tbl, c, al, k, se, eob, 0, [])
  }

  /** The correction bits of coefficients k to j - 1. */
  function Corrections(c: zigzag, al: nat, k: nat, j: nat): seq<bool>
    requires k <= j <= 64
    decreases j - k
  {
    if k == j then []
    else (if SizeAt(c, al, k) > 1 then [SizeAt(c, al, k) % 2 == 1] else []) + Corrections(c, al, k + 1, j)
  }

  /** Going on from k past r coefficients that were zero before, to the next one. */
  function Target(c: zigzag, al: nat, k: nat, se: nat, r: nat): (j: nat)
    requires se < 64 && k <= se + 1
    ensures k <= j <= se + 1 && (j <= se ==> SizeAt(c, al, j) <= 1)
    decreases se + 1 - k
  {
    if k > se then k
    else if SizeAt(c, al, k) > 1 then Target(c, al, k + 1, se, r)
    else if r == 0 then k
    else Target(c, al, k + 1, se, r - 1)
  }

  /** No coefficient from k to j - 1 becomes nonzero. */
  predicate NoneNew(c: zigzag, al: nat, k: nat, j: nat)
    requires j <= 64
  {
    forall m :: k <= m < j ==> SizeAt(c, al, m) != 1
  }

  /** Up to 15 zeros are passed without a code. */
  lemma {:induction false} WalkToTarget(tbl: nat, c: zigzag, al: nat, k: nat, se: nat, eob: nat, r0: nat, r: nat,
      corr: seq<bool>)
    requires se < 64 && k <= se + 1 && r0 + r <= 15
    requires var j := Target(c, al, k, se, r); j <= se && NoneNew(c, al, k, j)
    ensures var j := Target(c, al, k, se, r);
      RefineCodes(tbl, c, al, k, se, eob, r0, corr) == RefineCodes(tbl, c, al, j, se, eob, r0 + r,
        corr + Corrections(c, al, k, j))
    decreases se + 1 - k
  {
    hide SizeAt;
    var j := Target(c, al, k, se, r);
    if k == j {
      TargetHere(c, al, k, se, r);
      assert corr + [] == corr;
    } else if SizeAt(c, al, k) > 1 {
      var bit := [SizeAt(c, al, k) % 2 == 1];
      WalkToTarget(tbl, c, al, k + 1, se, eob, r0, r, corr + bit);
      assert (corr + bit) + Corrections(c, al, k + 1, j) == corr + Corrections(c, al, k, j);
    } else {
      WalkToTarget(tbl, c, al, k + 1, se, eob, r0 + 1, r - 1, corr);
      assert [] + Corrections(c, al, k + 1, j) == Corrections(c, al, k + 1, j);
    }
  }

  lemma TargetHere(c: zigzag, al: nat, k: nat, se: nat, r: nat)
    requires se < 64 && k <= se && Target(c, al, k, se, r) == k
    ensures r == 0
  {
  }

  /** Zeros are counted, however many there are. */
  lemma {:induction false} WalkZeros(tbl: nat, c: zigzag, al: nat, k: nat, m: nat, se: nat, eob: nat, r: nat,
      corr: seq<bool>)
    requires se < 64 && k <= m <= se + 1 && forall j :: k <= j < m ==> SizeAt(c, al, j) == 0
    ensures RefineCodes(tbl, c, al, k, se, eob, r, corr) == RefineCodes(tbl, c, al, m, se, eob, r + (m - k), corr)
    decreases m - k
  {
    hide SizeAt;
    if k < m {
      WalkZeros(tbl, c, al, k + 1, m, se, eob, r + 1, corr);
    }
  }

  /** How many coefficients from k to j - 1 were zero before. */
  function WasZero(c: zigzag, al: nat, k: nat, j: nat): nat
    requires k <= j <= 64
    decreases j - k
  {
    if k == j then 0 else (if SizeAt(c, al, k) > 1 then 0 else 1) + WasZero(c, al, k + 1, j)
  }

  lemma {:induction false} TargetAt(c: zigzag, al: nat, k: nat, se: nat, j: nat)
    requires se < 64 && k <= j <= se && SizeAt(c, al, j) <= 1
    ensures Target(c, al, k, se, WasZero(c, al, k, j)) == j
    ensures forall r :: 0 <= r < WasZero(c, al, k, j) ==> Target(c, al, k, se, r) < j
    decreases j - k
  {
    hide SizeAt;
    if k < j {
      TargetAt(c, al, k + 1, se, j);
      forall r | 0 <= r < WasZero(c, al, k, j) ensures Target(c, al, k, se, r) < j {
        if SizeAt(c, al, k) <= 1 && r > 0 {
          assert Target(c, al, k + 1, se, r - 1) < j;
        } else if SizeAt(c, al, k) > 1 {
          assert Target(c, al, k + 1, se, r) < j;
        }
      }
    }
  }

  /** Once no coefficient becomes nonzero any more, only correction bits are left. */
  lemma {:induction false} OnlyCorrections(tbl: nat, c: zigzag, al: nat, k: nat, se: nat, eob: nat, r: nat,
      corr: seq<bool>)
    requires eob < k <= se + 1 <= 64 && NoneNew(c, al, k, se + 1)
    ensures RefineCodes(tbl, c, al, k, se, eob, r, corr)
      == CodedBlock([], r > 0 || corr != [] || k <= se, corr + Corrections(c, al, k, se + 1))
    decreases se + 1 - k
  {
    hide SizeAt;
    if k > se {
      assert corr + [] == corr;
    } else if SizeAt(c, al, k) > 1 {
      var bit := [SizeAt(c, al, k) % 2 == 1];
      OnlyCorrections(tbl, c, al, k + 1, se, eob, r, corr + bit);
      assert (corr + bit) + Corrections(c, al, k + 1, se + 1) == corr + Corrections(c, al, k, se + 1);
    } else {
      OnlyCorrections(tbl, c, al, k + 1, se, eob, r + 1, corr);
      assert [] + Corrections(c, al, k + 1, se + 1) == Corrections(c, al, k + 1, se + 1);
    }
  }

  /** The next coefficient that becomes nonzero, or se + 1. */
  function NextNew(c: zigzag, al: nat, k: nat, se: nat): (e: nat)
    requires se < 64 && k <= se + 1
    ensures k <= e <= se + 1 && NoneNew(c, al, k, e) && (e <= se ==> SizeAt(c, al, e) == 1)
    decreases se + 1 - k
  {
    if k > se || SizeAt(c, al, k) == 1 then k else NextNew(c, al, k + 1, se)
  }

  /** The next coefficient that is not zero, at the latest e. */
  function NextSized(c: zigzag, al: nat, k: nat, e: nat): (m: nat)
    requires k <= e < 64 && SizeAt(c, al, e) > 0
    ensures k <= m <= e && SizeAt(c, al, m) > 0 && forall j :: k <= j < m ==> SizeAt(c, al, j) == 0
    decreases e - k
  {
    if k == e || SizeAt(c, al, k) > 0 then k else NextSized(c, al, k + 1, e)
  }

  predicate IsLastNew(c: zigzag, al: nat, k: nat, se: nat, eob: nat)
    requires se < 64
  {
    (eob >= k ==> eob <= se && SizeAt(c, al, eob) == 1) && forall m :: (k <= m <= se && SizeAt(c, al, m) == 1
      ==> m <= eob)
  }

  /** A new coefficient with at most 15 zeros before it: its symbol gives the number of
      zeros, and the correction bits are those of the coefficients passed. */
  lemma NewCode(tbl: nat, c: zigzag, al: nat, k: nat, se: nat, eob: nat)
    requires 1 <= k <= se < 64 && IsLastNew(c, al, k, se, eob)
    requires var e := NextNew(c, al, k, se); e <= se && WasZero(c, al, k, e) <= 15
    ensures var e := NextNew(c, al, k, se); var r := WasZero(c, al, k, e);
      && Target(c, al, k, se, r) == e
      && FromCode(tbl, c, al, k, se, eob)
        == Prepend([Symbol(tbl, 16 * r + 1), Raw([c[e] >= 0]), Raw(Corrections(c, al, k, e))],
          FromCode(tbl, c, al, e + 1, se, eob))
  {
    hide SizeAt, NextNew, Target;
    var e := NextNew(c, al, k, se);
    var r := WasZero(c, al, k, e);
    TargetAt(c, al, k, se, e);
    WalkToTarget(tbl, c, al, k, se, eob, 0, r, []);
    assert [] + Corrections(c, al, k, e) == Corrections(c, al, k, e);
  }

  /** More than 15 zeros before a new coefficient: the symbol for 16 zeros goes first,
      with the correction bits of the coefficients passed. */
  lemma ZerosCode(tbl: nat, c: zigzag, al: nat, k: nat, se: nat, eob: nat)
    requires 1 <= k <= se < 64 && IsLastNew(c, al, k, se, eob)
    requires var e := NextNew(c, al, k, se); e <= se && WasZero(c, al, k, e) > 15
    ensures var j := Target(c, al, k, se, 15);
      && j < NextNew(c, al, k, se) && SizeAt(c, al, j) == 0
      && FromCode(tbl, c, al, k, se, eob)
        == Prepend([Symbol(tbl, ZRL), Raw(Corrections(c, al, k, j))], FromCode(tbl, c, al, j + 1, se, eob))
  {
    hide SizeAt, NextNew, Target, NextSized;
    var e := NextNew(c, al, k, se);
    TargetAt(c, al, k, se, e);
    var j := Target(c, al, k, se, 15);
    assert SizeAt(c, al, j) == 0;
    WalkToTarget(tbl, c, al, k, se, eob, 0, 15, []);
    var corr := Corrections(c, al, k, j);
    assert [] + corr == corr;
    var m := NextSized(c, al, j + 1, e);
    WalkZeros(tbl, c, al, j + 1, m, se, eob, 16, corr);
    WalkZeros(tbl, c, al, j + 1, m, se, eob, 0, []);
  }

  /** No new coefficient: the block ends. */
  lemma EndCode(tbl: nat, c: zigzag, al: nat, k: nat, se: nat, eob: nat)
    requires 1 <= k <= se + 1 <= 64 && IsLastNew(c, al, k, se, eob) && NextNew(c, al, k, se) == se + 1
    ensures FromCode(tbl, c, al, k, se, eob) == CodedBlock([], k <= se, Corrections(c, al, k, se + 1))
  {
    hide SizeAt, NextNew;
    OnlyCorrections(tbl, c, al, k, se, eob, 0, []);
    assert [] + Corrections(c, al, k, se + 1) == Corrections(c, al, k, se + 1);
  }

  // ----- blocks, MCUs and scans

  const MAX_COEF_BITS := 10

  /** The codes of a block; last is the DC value of the block before it in its component. */
  function BlockCodes(s: Scan, c: Component, last: int, b: block): CodedBlock
    requires s.Ss <= s.Se < 64
  {
    var z := Zigzag(b, s.naturalOrder);
    match ModeOf(s)
    case DcRefine => CodedBlock([Raw([DcValue(s, b) % 2 == 1])], false, [])
    case AcFirst => FirstCodes(c.acTbl, Transform(z, s.Al), s.Ss, s.Se, 0)
    case AcRefine => RefineCodes(c.acTbl, z, s.Al, s.Ss, s.Se, LastNew(z, s.Al, s.Ss, s.Se), 0, [])
    case _ => DcCodes(c.dcTbl, DcValue(s, b) - last)
  }

  predicate BandInRange(w: zigzag, ss: nat, k: nat)
    requires k <= 64
  {
    forall j :: ss <= j < k ==> Magnitude(w[j]) <= MAX_COEF_BITS
  }

  /** The block's coefficients are in the range of 8-bit samples. */
  predicate BlockInRange(s: Scan, last: int, b: block)
    requires s.Ss <= s.Se < 64
  {
    match ModeOf(s)
    case DcFirst => Magnitude(DcValue(s, b) - last) <= MAX_COEF_BITS + 1
    case AcFirst => BandInRange(Transform(Zigzag(b, s.naturalOrder), s.Al), s.Ss, s.Se + 1)
    case _ => true
  }

  /** What has been coded so far, the last DC value of each component, and whether all
      coefficients were in range. */
  datatype Progress = Progress(codes: seq<CodedBlock>, last: seq<int>, inRange: bool)

  function AddBlock(s: Scan, x: Progress, ci: nat, b: block): (y: Progress)
    requires s.Ss <= s.Se < 64 && ci < |s.components| == |x.last|
    ensures |y.last| == |x.last|
  {
    Progress(x.codes + [BlockCodes(s, s.components[ci], x.last[ci], b)],
      if ModeOf(s) == DcFirst then x.last[ci := DcValue(s, b)] else x.last,
      x.inRange && BlockInRange(s, x.last[ci], b))
  }

  function AddMcu(s: Scan, x: Progress, mcu: seq<block>): (y: Progress)
    requires GoodScan(s) && |s.components| == |x.last| && |mcu| <= |s.membership|
    ensures |y.last| == |x.last|
  {
    if mcu == [] then x
    else
      var n := |mcu| - 1;
      AddBlock(s, AddMcu(s, x, mcu[..n]), s.membership[n], mcu[n])
  }

  function NoProgress(s: Scan): Progress
  {
    Progress([], seq(|s.components|, _ => 0), true)
  }

  predicate SizedMcus(s: Scan, mcus: seq<seq<block>>)
  {
    forall m :: 0 <= m < |mcus| ==> |mcus[m]| == |s.membership|
  }

  function ScanProgress(s: Scan, mcus: seq<seq<block>>): (x: Progress)
    requires GoodScan(s) && SizedMcus(s, mcus)
    ensures |x.last| == |s.components|
  {
    if mcus == [] then NoProgress(s)
    else AddMcu(s, ScanProgress(s, mcus[..|mcus| - 1]), mcus[|mcus| - 1])
  }

  /** The table whose symbols end runs: that of the only component of an AC scan. */
  function RunTable(s: Scan): nat
  {
    if |s.components| > 0 then s.components[0].acTbl else 0
  }

  /** A progressive scan; AC scans have one component and one block in an MCU. */
  ghost predicate GoodProgressive(s: Scan)
  {
    && GoodScan(s) && s.progressive
    && (forall ci :: 0 <= ci < |s.components| ==>
      s.components[ci].dcTbl < NUM_HUFF_TBLS && s.components[ci].acTbl < NUM_HUFF_TBLS)
    && (s.Ss > 0 ==> |s.components| == 1 && |s.membership| == 1)
  }

  lemma AfterOneMore(tbl: nat, cs: seq<CodedBlock>, c: CodedBlock)
    ensures var before := After(tbl, cs); var s := Step(tbl, before.1, c);
      After(tbl, cs + [c]) == (before.0 + s.0, s.1)
  {
    hide Step;
    assert (cs + [c])[..|cs|] == cs;
  }

  /** A block that does not end early is sent at once. */
  lemma SentAtOnce(tbl: nat, body: seq<Piece>)
    requires body != []
    ensures Step(tbl, NONE, CodedBlock(body, false, [])) == (body, NONE)
  {
    assert [] + body == body;
  }

  // ----- what a decoder finds block by block

  /** How many blocks after block i end with it in one run. */
  function RunAfter(cs: seq<CodedBlock>, i: nat): (g: nat)
    requires i < |cs|
    ensures i + 1 + g <= |cs|
  {
    if cs[i].eob then Joining(cs, i + 1, Pending(1, cs[i].tail)) else 0
  }

  /** The pieces after the codes of block i: the run it begins, if it ends early, with
      all correction bits of that run, and then the blocks after the run. */
  function AfterCodes(tbl: nat, cs: seq<CodedBlock>, i: nat): seq<Piece>
    requires i < |cs|
  {
    var g := RunAfter(cs, i);
    if cs[i].eob then RunPieces(tbl, Pending(1 + g, cs[i].tail + Tails(cs, i + 1, g))) + Rest(tbl, cs, i + 1 + g, NONE)
    else Rest(tbl, cs, i + 1, NONE)
  }

  lemma StepFromNothing(tbl: nat, c: CodedBlock)
    requires GoodBlock(c)
    ensures Step(tbl, NONE, c) == (c.body, if c.eob then Pending(1, c.tail) else NONE)
    ensures !MustSend(Pending(1, c.tail))
  {
    NoRun(tbl);
    assert [] + c.body == c.body;
    assert NONE.bits + c.tail == c.tail;
  }

  lemma BlockSplits(tbl: nat, cs: seq<CodedBlock>, i: nat)
    requires i < |cs| && GoodBlocks(cs)
    ensures Rest(tbl, cs, i, NONE) == cs[i].body + AfterCodes(tbl, cs, i)
    ensures 1 + RunAfter(cs, i) <= 0x7FFF && AllEnd(cs, i + 1, RunAfter(cs, i))
  {
    hide RunPieces, Step, MustSend, Joining;
    assert GoodBlock(cs[i]);
    StepFromNothing(tbl, cs[i]);
    if cs[i].eob {
      RunIsOneSymbol(tbl, cs, i + 1, Pending(1, cs[i].tail));
    }
  }

  /** In the middle of a run the next block's correction bits come first. */
  lemma TailsFirst(cs: seq<CodedBlock>, i: nat, m: nat)
    requires 0 < m && i + m <= |cs| && AllEnd(cs, i, m)
    ensures cs[i].body == [] && cs[i].eob && Tails(cs, i, m) == cs[i].tail + Tails(cs, i + 1, m - 1)
      && AllEnd(cs, i + 1, m - 1)
  {
  }

  lemma {:induction false} FirstTail(tbl: nat, w: zigzag, k: nat, se: nat, r: nat)
    requires se < 64 && k <= se + 1
    ensures FirstCodes(tbl, w, k, se, r).tail == []
    ensures FirstCodes(tbl, w, k, se, r).body == [] ==> forall j :: k <= j <= se ==> w[j] == 0
    ensures FirstCodes(tbl, w, k, se, r).body == [] && (r > 0 || k <= se) ==> FirstCodes(tbl, w, k, se, r).eob
    decreases 64 - k, r
  {
    hide Magnitude, ExtraBits, Bits;
    if k > se {
    } else if w[k] == 0 {
      FirstTail(tbl, w, k + 1, se, r + 1);
    } else if r > 15 {
      FirstTail(tbl, w, k, se, r - 16);
    } else {
      FirstTail(tbl, w, k + 1, se, 0);
    }
  }

  lemma {:induction false} RefineTail(tbl: nat, c: zigzag, al: nat, k: nat, se: nat, eob: nat, r: nat, corr: seq<bool>)
    requires se < 64 && k <= se + 1
    ensures |RefineCodes(tbl, c, al, k, se, eob, r, corr).tail| <= |corr| + (se + 1 - k)
    decreases 64 - k, r
  {
    hide SizeAt;
    if k > se {
    } else if SizeAt(c, al, k) == 0 {
      RefineTail(tbl, c, al, k + 1, se, eob, r + 1, corr);
    } else if r > 15 && k <= eob {
      RefineTail(tbl, c, al, k, se, eob, r - 16, []);
    } else if SizeAt(c, al, k) > 1 {
      RefineTail(tbl, c, al, k + 1, se, eob, r, corr + [SizeAt(c, al, k) % 2 == 1]);
    } else {
      RefineTail(tbl, c, al, k + 1, se, eob, 0, []);
    }
  }

  /** A block of a refinement scan without codes is all correction bits. */
  lemma RefineWithoutCodes(tbl: nat, c: zigzag, al: nat, ss: nat, se: nat)
    requires 1 <= ss <= se < 64
    ensures var x := RefineCodes(tbl, c, al, ss, se, LastNew(c, al, ss, se), 0, []);
      x.body == [] ==> x.eob && NoneNew(c, al, ss, se + 1) && x.tail == Corrections(c, al, ss, se + 1)
  {
    hide SizeAt, WasZero, Target, Corrections;
    var eob := LastNew(c, al, ss, se);
    var e := NextNew(c, al, ss, se);
    assert FromCode(tbl, c, al, ss, se, eob) == RefineCodes(tbl, c, al, ss, se, eob, 0, []);
    hide LastNew, RefineCodes;
    if e > se {
      EndCode(tbl, c, al, ss, se, eob);
    } else if WasZero(c, al, ss, e) > 15 {
      LastNewFound(c, al, ss, se);
      ZerosCode(tbl, c, al, ss, se, eob);
    } else {
      LastNewFound(c, al, ss, se);
      NewCode(tbl, c, al, ss, se, eob);
    }
  }

  lemma LastNewFound(c: zigzag, al: nat, ss: nat, se: nat)
    requires 1 <= ss <= se < 64
    ensures IsLastNew(c, al, ss, se, LastNew(c, al, ss, se))
  {
  }

  lemma BlockIsGood(s: Scan, c: Component, last: int, b: block)
    requires GoodScan(s) && s.progressive
    ensures GoodBlock(BlockCodes(s, c, last, b))
    ensures ModeOf(s) == AcFirst ==> BlockCodes(s, c, last, b).tail == []
    ensures ModeOf(s) == DcFirst || ModeOf(s) == DcRefine ==> (BlockCodes(s, c, last, b).body != []
      && !BlockCodes(s, c, last, b).eob)
  {
    hide GoodScan, FirstCodes, RefineCodes, Zigzag, Transform, LastNew, ExtraBits, Magnitude, Bits;
    var z := Zigzag(b, s.naturalOrder);
    BandBounds(s);
    match ModeOf(s)
    case AcFirst =>
      FirstTail(c.acTbl, Transform(z, s.Al), s.Ss, s.Se, 0);
    case AcRefine =>
      RefineTail(c.acTbl, z, s.Al, s.Ss, s.Se, LastNew(z, s.Al, s.Ss, s.Se), 0, []);
      RefineWithoutCodes(c.acTbl, z, s.Al, s.Ss, s.Se);
    case _ =>
  }

  lemma BandBounds(s: Scan)
    requires GoodScan(s)
    ensures s.Ss <= s.Se < 64
  {
  }
}
