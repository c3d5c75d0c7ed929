/** The progressive Huffman encoder: it outputs data, or only counts its symbols. */
module ProgressiveEncoder {
  import opened Bytes
  import opened BitStrings
  import opened CanonicalCode
  import opened HuffmanTables
  import opened CoefficientModel
  import opened ScanSetup
  import opened HuffmanModel
  import HS = HuffmanStatistics
  import opened ProgressiveModel
  import opened ProgressiveWriter
  import B = BitWriter

  /** The encoder's tables and what they were derived from. */
  ghost predicate DerivedTables(ts: seq<table>, ds: seq<CDerived>)
  {
    && |ts| == NUM_HUFF_TBLS && |ds| == NUM_HUFF_TBLS
    && forall i :: 0 <= i < NUM_HUFF_TBLS ==> Legal(ts[i].bits) && CodeCount(ts[i]) <= 256 && Encodes(ts[i], ds[i])
  }

  lemma SizeTellsCode(t: table, d: CDerived, sym: byte)
    requires CodeCount(t) <= 256 && Encodes(t, d)
    ensures |d.ehufco| == |d.ehufsi| == 256
    ensures d.ehufsi[sym] != 0 <==> HasCode(t, sym)
  {
    hide Start, CodeOf;
    if d.ehufsi[sym] != 0 {
      var p :| 0 <= p < CodeCount(t) && t.huffval[p] == sym;
      assert PlaceFrom(t, sym, 0) <= p;
    }
  }

  class Encoder {
    const w: Writer
    const scan: Scan
    const derived: seq<CDerived>
    const gather: bool            // only count symbols
    const stats: HS.Counts
    const bitBuffer: array<bool>  // correction bits that wait
    var lastDc: seq<int>
    var eobRun: nat
    var be: nat                   // number of correction bits that wait
    var failed: bool              // a symbol without a code, or a coefficient out of range
    ghost const tables: seq<table>
    ghost const base: seq<Token>  // symbols counted before
    ghost var pieces: seq<Piece>
    ghost var outOfRange: bool
    ghost var progress: Progress

    ghost predicate Fixed()
    {
      && (gather || DerivedTables(tables, derived)) && bitBuffer.Length == MAX_CORR_BITS
      && GoodScan(scan) && forall ci :: 0 <= ci < |scan.components| ==>
        scan.components[ci].dcTbl < NUM_HUFF_TBLS && scan.components[ci].acTbl < NUM_HUFF_TBLS
    }

    /** The counts are those of the symbols emitted so far, unless there was an error. */
    ghost predicate Counting()
      reads this`failed, this`pieces, this`outOfRange, stats, stats.dc, stats.ac
    {
      && (failed <==> outOfRange)
      && (!failed ==> stats.Valid() && stats.log == base + SymbolTokens(scan.Ss == 0, pieces))
    }

    /** The writer holds exactly the bits of the pieces emitted, unless there was an
        error. */
    ghost predicate Writing()
      reads this`failed, this`pieces, this`outOfRange, w
    {
      && (failed <==> !AllCoded(tables, pieces) || outOfRange)
      && (!failed ==> w.log == PiecesBits(tables, pieces))
    }

    ghost predicate Emitting()
      reads this`failed, this`pieces, this`outOfRange, w, stats, stats.dc, stats.ac
    {
      w.Valid() && Fixed() && if gather then Counting() else Writing()
    }

    /** Between MCUs the run can grow, and the correction bits of a whole block fit. */
    ghost predicate Waiting()
      reads this`eobRun, this`be
    {
      be <= MAX_HELD && eobRun < 0x7FFF && (be > 0 ==> eobRun > 0)
    }

    ghost function Held(): Pending
      requires Fixed() && be <= MAX_CORR_BITS
      reads this`eobRun, this`be, bitBuffer
    {
      Pending(eobRun, bitBuffer[..be])
    }

    constructor (s: Scan, ds: seq<CDerived>, ghost ts: seq<table>)
      requires DerivedTables(ts, ds) && GoodScan(s)
      requires forall ci :: 0 <= ci < |s.components| ==>
        s.components[ci].dcTbl < NUM_HUFF_TBLS && s.components[ci].acTbl < NUM_HUFF_TBLS
      ensures Emitting() && Waiting() && Held() == NONE && fresh(w) && fresh(bitBuffer)
      ensures fresh(stats) && fresh(stats.dc) && fresh(stats.ac)
      ensures !gather && scan == s && tables == ts && pieces == [] && !outOfRange
      ensures lastDc == seq(|s.components|, _ => 0) && progress == NoProgress(s)
    {
      w := new Writer();
      scan, derived, tables, gather, base := s, ds, ts, false, [];
      stats := new HS.Counts();
      bitBuffer := new bool[MAX_CORR_BITS];
      lastDc := seq(|s.components|, _ => 0);
      eobRun, be, failed := 0, 0, false;
      pieces, outOfRange := [], false;
      progress := NoProgress(s);
    }

    /** An encoder that goes on counting. */
    constructor Gathering(s: Scan, counts: HS.Counts)
      requires GoodScan(s) && counts.Valid()
      requires forall ci :: 0 <= ci < |s.components| ==>
        s.components[ci].dcTbl < NUM_HUFF_TBLS && s.components[ci].acTbl < NUM_HUFF_TBLS
      ensures Emitting() && Waiting() && Held() == NONE && fresh(w) && fresh(bitBuffer)
      ensures gather && stats == counts && base == counts.log && scan == s && pieces == [] && !outOfRange
      ensures lastDc == seq(|s.components|, _ => 0) && progress == NoProgress(s)
    {
      w := new Writer();
      scan, derived, tables, gather, base := s, [], [], true, counts.log;
      stats := counts;
      bitBuffer := new bool[MAX_CORR_BITS];
      lastDc := seq(|s.components|, _ => 0);
      eobRun, be, failed := 0, 0, false;
      pieces, outOfRange := [], false;
      progress := NoProgress(s);
      new;
      assert base + SymbolTokens(scan.Ss == 0, []) == base;
    }

    /** emit_symbol. */
    method EmitSymbol(tbl: nat, sym: nat)
      requires Emitting() && tbl < NUM_HUFF_TBLS && (sym < 256 || outOfRange)
      modifies w, stats, stats.dc, stats.ac, this`failed, this`pieces
      ensures Emitting() && pieces == old(pieces) + [Symbol(tbl, sym)]
    {
      hide w.Valid, Legal, Encodes, HasCode, PiecesBits, CodeBits, HS.Counts.Valid, SymbolTokens;
      ghost var x := Symbol(tbl, sym);
      if gather {
        CountSymbol(tbl, sym);
        pieces := pieces + [x];
        return;
      }
      CodedParts(tables, pieces, [x]);
      if !failed {
        SizeTellsCode(tables[tbl], derived[tbl], sym);
        if derived[tbl].ehufsi[sym] == 0 {
          assert [x][0] == x && !Coded(tables, x);
          failed := true;
        } else {
          DerivedCode(tables[tbl], derived[tbl], sym);
          w.EmitBits(derived[tbl].ehufco[sym], derived[tbl].ehufsi[sym]);
          OnePiece(tables, x);
          PiecesConcat(tables, pieces, [x]);
        }
      }
      pieces := pieces + [x];
    }

    method CountSymbol(tbl: nat, sym: nat)
      requires Counting() && tbl < NUM_HUFF_TBLS && (sym < 256 || outOfRange)
      modifies stats, stats.dc, stats.ac
      ensures !failed ==> (stats.Valid()
        && stats.log == base + SymbolTokens(scan.Ss == 0, pieces + [Symbol(tbl, sym)]))
    {
      hide HS.Counts.Valid, SymbolTokens;
      if !failed {
        ghost var x := Token(scan.Ss == 0, tbl, sym, 0, 0);
        SymbolTokensNext(scan.Ss == 0, pieces, Symbol(tbl, sym));
        if scan.Ss == 0 {
          stats.AddDc(tbl, sym, x);
        } else {
          stats.AddAc(tbl, sym, x);
        }
      }
    }

    /** Raw bits are not counted. */
    lemma NotCounted(bits: seq<bool>)
      ensures SymbolTokens(scan.Ss == 0, pieces + [Raw(bits)]) == SymbolTokens(scan.Ss == 0, pieces)
    {
      SymbolTokensNext(scan.Ss == 0, pieces, Raw(bits));
    }

    /** emit_bits for bits that are not a symbol. */
    method EmitBits(code: nat, size: nat)
      requires Emitting() && size <= 16
      modifies w, stats, stats.dc, stats.ac, this`pieces
      ensures Emitting() && pieces == old(pieces) + [Raw(Bits(code, size))]
    {
      hide w.Valid, PiecesBits, Bits, HS.Counts.Valid, SymbolTokens;
      ghost var x := Raw(Bits(code, size));
      if gather {
        NotCounted(Bits(code, size));
        pieces := pieces + [x];
        return;
      }
      CodedParts(tables, pieces, [x]);
      OnePiece(tables, x);
      if !failed {
        if size > 0 {
          w.EmitBits(code, size);
        } else {
          NoBits(code, w.log);
        }
        PiecesConcat(tables, pieces, [x]);
      }
      pieces := pieces + [x];
    }

    lemma NoBits(code: nat, log: seq<bool>)
      ensures Bits(code, 0) == [] && log + [] == log
    {
    }

    /** emit_buffered_bits. */
    method EmitBufferedBits(start: nat, nbits: nat)
      requires Emitting() && start + nbits <= MAX_CORR_BITS
      modifies w, stats, stats.dc, stats.ac, this`pieces
      ensures Emitting() && pieces == old(pieces) + [Raw(bitBuffer[start..start + nbits])]
    {
      hide PiecesBits, Bits, HS.Counts.Valid, SymbolTokens;
      ghost var bits := bitBuffer[start..start + nbits];
      ghost var x := Raw(bits);
      if gather {
        NotCounted(bits);
        pieces := pieces + [x];
        return;
      }
      CodedParts(tables, pieces, [x]);
      OnePiece(tables, x);
      if !failed {
        for i := 0 to nbits
          invariant w.Valid() && w.log == old(w.log) + bits[..i] && bitBuffer[start..start + nbits] == bits
          invariant pieces == old(pieces)
        {
          assert bitBuffer[start + i] == bits[i];
          OneBit(bits[i]);
          w.EmitBits(if bitBuffer[start + i] then 1 else 0, 1);
          assert bits[..i + 1] == bits[..i] + [bits[i]];
        }
        assert bits[..nbits] == bits;
        PiecesConcat(tables, pieces, [x]);
      }
      pieces := pieces + [x];
    }

    lemma OneBit(b: bool)
      ensures Bits(if b then 1 else 0, 1) == [b]
    {
    }

    /** emit_eobrun: the safety check of the code length cannot fail. */
    method EmitEobRun(tbl: nat)
      requires Emitting() && Fixed() && tbl < NUM_HUFF_TBLS && eobRun <= 0x7FFF && be <= MAX_CORR_BITS
        && (be > 0 ==> eobRun > 0)
      modifies w, stats, stats.dc, stats.ac, this`failed, this`pieces, this`eobRun, this`be
      ensures Emitting() && eobRun == 0 && be == 0 && pieces == old(pieces) + RunPieces(tbl, old(Held()))
    {
      hide Emitting, Bits, BitLength, RunPieces;
      ghost var was, p := pieces, Held();
      RunIs(tbl, p, was);
      if eobRun > 0 {
        RunLengthFits(eobRun);
        var nbits := BitLength(eobRun) - 1;
        assert nbits <= 14;
        EmitSymbol(tbl, 16 * nbits);
        EmitBits(eobRun, nbits);
        eobRun := 0;
        EmitBufferedBits(0, be);
        be := 0;
      }
    }

    lemma RunIs(tbl: nat, p: Pending, was: seq<Piece>)
      ensures p.run == 0 ==> was + RunPieces(tbl, p) == was
      ensures p.run > 0 ==> BitLength(p.run) > 0
      ensures p.run > 0 ==> was + RunPieces(tbl, p) == (var n := BitLength(p.run) - 1;
        ((was + [Symbol(tbl, 16 * n)]) + [Raw(Bits(p.run, n))]) + [Raw(p.bits)])
    {
      hide Bits;
      if p.run == 0 {
        assert was + [] == was;
      }
    }

    lemma RunLengthFits(run: nat)
      requires 0 < run <= 0x7FFF
      ensures 1 <= BitLength(run) <= 15
    {
      hide Pow2;
      BitLengthBounds(run);
      Pow2Values();
      if BitLength(run) > 15 {
        Pow2Monotone(15, BitLength(run) - 1);
      }
    }

    // ----- AC refinement

    /** The pre-pass of encode_mcu_AC_refine: the sizes after the point transform, and
        the last coefficient that becomes nonzero. */
    method PrePass(b: block, ss: nat, se: nat, al: nat) returns (absvalues: array<nat>, eob: nat)
      requires 1 <= ss <= se < 64
      ensures fresh(absvalues) && absvalues.Length == 64
      ensures forall k :: ss <= k <= se ==> absvalues[k] == SizeAt(Zigzag(b, scan.naturalOrder), al, k)
      ensures eob == LastNew(Zigzag(b, scan.naturalOrder), al, ss, se)
    {
      hide Zigzag, ShiftRight;
      ghost var c := Zigzag(b, scan.naturalOrder);
      absvalues := new nat[64];
      eob := 0;
      for k := ss to se + 1
        invariant forall j :: ss <= j < k ==> absvalues[j] == SizeAt(c, al, j)
        invariant eob == if k == ss then 0 else LastNew(c, al, ss, k - 1)
      {
        var temp := b[scan.naturalOrder[k]];
        ZigzagAt(b, scan.naturalOrder, k);
        absvalues[k] := ShiftRight(if temp < 0 then -temp else temp, al);
        if absvalues[k] == 1 {
          eob := k;
        }
        LastNewNext(c, al, ss, k);
      }
    }

    lemma LastNewNext(c: zigzag, al: nat, ss: nat, k: nat)
      requires 1 <= ss <= k < 64
      ensures LastNew(c, al, ss, k) == if SizeAt(c, al, k) == 1 then k else if k == ss then 0 else LastNew(c, al, ss,
        k - 1)
    {
      hide SizeAt;
    }

    /** The codes `done` of a block have been emitted after `base`, and those of `rest`
        are still to come. */
    ghost predicate Midway(tbl: nat, base: seq<Piece>, p: Pending, done: seq<Piece>, rest: CodedBlock,
        target: CodedBlock)
      requires Fixed() && be <= MAX_CORR_BITS
      reads this`pieces, this`eobRun, this`be, bitBuffer
    {
      && pieces == base + (if done == [] then [] else RunPieces(tbl, p) + done)
      && Held() == (if done == [] then p else NONE)
      && Prepend(done, rest) == target
    }

    lemma SentCode(tbl: nat, base: seq<Piece>, p: Pending, done: seq<Piece>, held: Pending, add: seq<Piece>,
        rest: CodedBlock)
      requires held == (if done == [] then p else NONE) && add != []
      ensures base + (if done == [] then [] else RunPieces(tbl, p) + done) + RunPieces(tbl, held) + add
        == base + (RunPieces(tbl, p) + (done + add))
      ensures Prepend(done, Prepend(add, rest)) == Prepend(done + add, rest)
    {
      NoRun(tbl);
      assert done + (add + rest.body) == (done + add) + rest.body;
    }

    /** A code: the pending run, the symbol, the sign of a new coefficient, and the
        correction bits that belong to it. */
    method EmitCode(tbl: nat, sym: nat, sign: seq<bool>, br: nat)
      requires Emitting() && Fixed() && tbl < NUM_HUFF_TBLS && sym < 256 && |sign| <= 1
      requires eobRun <= 0x7FFF && be + br <= MAX_CORR_BITS && (be > 0 ==> eobRun > 0)
      modifies w, stats, stats.dc, stats.ac, this`failed, this`pieces, this`eobRun, this`be
      ensures Emitting() && eobRun == 0 && be == 0
      ensures var bits := [Raw(bitBuffer[old(be)..old(be) + br])];
        pieces == old(pieces) + RunPieces(tbl,
          old(Held())) + ([Symbol(tbl, sym)] + (if sign == [] then [] else [Raw(sign)]) + bits)
    {
      hide Emitting, RunPieces, Bits;
      var brStart := be;
      EmitEobRun(tbl);
      ghost var was := pieces;
      EmitSymbol(tbl, sym);
      if sign != [] {
        OneBit(sign[0]);
        assert [sign[0]] == sign;
        EmitBits(if sign[0] then 1 else 0, 1);
      }
      EmitBufferedBits(brStart, br);
      ghost var bits := [Raw(bitBuffer[brStart..brStart + br])];
      assert (was + [Symbol(tbl, sym)]) + bits == was + ([Symbol(tbl, sym)] + [] + bits);
      assert ((was + [Symbol(tbl, sym)]) + [Raw(sign)]) + bits == was + ([Symbol(tbl, sym)] + [Raw(sign)] + bits);
    }

    /** Symbols for runs of 16 zeros, as long as a new coefficient is still to come. */
    method EmitZeroRuns(tbl: nat, run: nat, corr: nat, k: nat, se: nat, eob: nat, al: nat, ghost c: zigzag,
        ghost base: seq<Piece>, ghost p: Pending, ghost was: seq<Piece>, ghost target: CodedBlock)
      returns (r: nat, br: nat, ghost done: seq<Piece>)
      requires Emitting() && Fixed() && Waiting() && tbl < NUM_HUFF_TBLS && 1 <= k <= se < 64 && k <= eob && corr < k
        && SizeAt(c, al, k) > 0
      requires Midway(tbl, base, p, was, RefineCodes(tbl, c, al, k, se, eob, run, bitBuffer[be..be + corr]), target)
      modifies w, stats, stats.dc, stats.ac, this`failed, this`pieces, this`eobRun, this`be
      ensures Emitting() && Waiting() && r <= 15 && br <= corr && be <= old(be)
      ensures Midway(tbl, base, p, done, RefineCodes(tbl, c, al, k, se, eob, r, bitBuffer[be..be + br]), target)
    {
      hide Emitting, RunPieces, SizeAt;
      r, br, done := run, corr, was;
      while r > 15
        invariant Emitting() && Waiting() && br <= corr && be <= old(be)
        invariant Midway(tbl, base, p, done, RefineCodes(tbl, c, al, k, se, eob, r, bitBuffer[be..be + br]), target)
      {
        ghost var held, bits := Held(), bitBuffer[be..be + br];
        ghost var add := [Symbol(tbl, ZRL)] + [] + [Raw(bits)];
        assert add == [Symbol(tbl, ZRL), Raw(bits)];
        ghost var rest := RefineCodes(tbl, c, al, k, se, eob, r - 16, []);
        SentCode(tbl, base, p, done, held, add, rest);
        EmitCode(tbl, ZRL, [], br);
        r, br := r - 16, 0;
        done := done + add;
        assert bitBuffer[be..be + br] == [] && bitBuffer[..be] == [];
      }
    }

    /** One coefficient of a refinement scan whose size is not zero. */
    method RefineSized(tbl: nat, b: block, run: nat, corr: nat, k: nat, ss: nat, se: nat, eob: nat, al: nat,
        temp: nat, ghost c: zigzag,
        ghost base: seq<Piece>, ghost p: Pending, ghost was: seq<Piece>, ghost target: CodedBlock)
      returns (r: nat, br: nat, ghost done: seq<Piece>)
      requires Emitting() && Fixed() && Waiting() && tbl < NUM_HUFF_TBLS && 1 <= ss <= k <= se < 64 && corr <= k - ss
      requires c == Zigzag(b, scan.naturalOrder) && temp == SizeAt(c, al, k) > 0 && eob == LastNew(c, al, ss, se)
      requires Midway(tbl, base, p, was, RefineCodes(tbl, c, al, k, se, eob, run, bitBuffer[be..be + corr]), target)
      modifies w, stats, stats.dc, stats.ac, this`failed, this`pieces, this`eobRun, this`be, bitBuffer
      ensures Emitting() && Waiting() && br <= k + 1 - ss && be <= old(be)
      ensures Midway(tbl, base, p, done, RefineCodes(tbl, c, al, k + 1, se, eob, r, bitBuffer[be..be + br]), target)
    {
      hide Emitting, RunPieces, SizeAt, LastNew, Zigzag, RefineCodes;
      LastNewSays(c, al, ss, se, k);
      r, br, done := run, corr, was;
      if r > 15 && k <= eob {
        r, br, done := EmitZeroRuns(tbl, r, br, k, se, eob, al, c, base, p, done, target);
      }
      if temp > 1 {
        HoldCorrection(tbl, r, br, k, se, eob, al, temp, c, base, p, done, target);
        br := br + 1;
      } else {
        done := EmitNew(tbl, b, r, br, k, se, eob, al, c, base, p, done, target);
        r, br := 0, 0;
        assert bitBuffer[be..be + br] == [];
      }
    }

    /** A coefficient that was nonzero before: its next bit waits for the next code. */
    method HoldCorrection(tbl: nat, r: nat, br: nat, k: nat, se: nat, eob: nat, al: nat, temp: nat, ghost c: zigzag,
        ghost base: seq<Piece>, ghost p: Pending, ghost done: seq<Piece>, ghost target: CodedBlock)
      requires Fixed() && be <= MAX_HELD && br <= 62 && k <= se < 64 && temp == SizeAt(c, al, k) > 1
        && (r <= 15 || k > eob)
      requires Midway(tbl, base, p, done, RefineCodes(tbl, c, al, k, se, eob, r, bitBuffer[be..be + br]), target)
      modifies bitBuffer
      ensures Midway(tbl, base, p, done, RefineCodes(tbl, c, al, k + 1, se, eob, r, bitBuffer[be..be + br + 1]), target)
    {
      hide RunPieces, SizeAt, RefineCodes, Fixed;
      FixedSize();
      ghost var held, bits := Held(), bitBuffer[be..be + br];
      CorrectionNext(tbl, c, al, k, se, eob, r, bits);
      bitBuffer[be + br] := temp % 2 == 1;
      assert bitBuffer[be..be + br + 1] == bits + [temp % 2 == 1];
      assert bitBuffer[..be] == held.bits;
    }

    lemma FixedSize()
      requires Fixed()
      ensures bitBuffer.Length == MAX_CORR_BITS
    {
    }

    lemma CorrectionNext(tbl: nat, c: zigzag, al: nat, k: nat, se: nat, eob: nat, r: nat, corr: seq<bool>)
      requires k <= se < 64 && SizeAt(c, al, k) > 1 && (r <= 15 || k > eob)
      ensures RefineCodes(tbl, c, al, k, se, eob, r, corr) == RefineCodes(tbl, c, al, k + 1, se, eob, r,
        corr + [SizeAt(c, al, k) % 2 == 1])
    {
      hide SizeAt;
    }

    /** A coefficient that becomes nonzero. */
    method EmitNew(tbl: nat, b: block, r: nat, br: nat, k: nat, se: nat, eob: nat, al: nat, ghost c: zigzag,
        ghost base: seq<Piece>, ghost p: Pending, ghost was: seq<Piece>, ghost target: CodedBlock)
      returns (ghost done: seq<Piece>)
      requires Emitting() && Fixed() && Waiting() && tbl < NUM_HUFF_TBLS && k <= se < 64 && r <= 15 && br < 64
      requires c == Zigzag(b, scan.naturalOrder) && SizeAt(c, al, k) == 1
      requires Midway(tbl, base, p, was, RefineCodes(tbl, c, al, k, se, eob, r, bitBuffer[be..be + br]), target)
      modifies w, stats, stats.dc, stats.ac, this`failed, this`pieces, this`eobRun, this`be
      ensures Emitting() && Waiting() && be == 0
      ensures Midway(tbl, base, p, done, RefineCodes(tbl, c, al, k + 1, se, eob, 0, []), target)
    {
      hide Emitting, RunPieces, SizeAt, Zigzag;
      ghost var held, bits := Held(), bitBuffer[be..be + br];
      ZigzagAt(b, scan.naturalOrder, k);
      var sign := [b[scan.naturalOrder[k]] >= 0];
      ghost var add := [Symbol(tbl, 16 * r + 1)] + [Raw(sign)] + [Raw(bits)];
      assert add == [Symbol(tbl, 16 * r + 1), Raw(sign), Raw(bits)];
      SentCode(tbl, base, p, was, held, add, RefineCodes(tbl, c, al, k + 1, se, eob, 0, []));
      EmitCode(tbl, 16 * r + 1, sign, br);
      done := was + add;
      assert bitBuffer[..be] == [];
    }

    lemma LastNewSays(c: zigzag, al: nat, ss: nat, se: nat, k: nat)
      requires 1 <= ss <= k <= se < 64
      ensures SizeAt(c, al, k) == 1 ==> k <= LastNew(c, al, ss, se)
    {
    }

    /** encode_mcu_AC_refine. */
    method EncodeAcRefine(tbl: nat, b: block, ss: nat, se: nat, al: nat)
      requires Emitting() && Fixed() && Waiting() && tbl < NUM_HUFF_TBLS && 1 <= ss <= se < 64
      modifies w, stats, stats.dc, stats.ac, this`failed, this`pieces, this`eobRun, this`be, bitBuffer
      ensures Emitting() && Waiting()
      ensures var c := Zigzag(b, scan.naturalOrder);
        var step := Step(tbl, old(Held()), RefineCodes(tbl, c, al, ss, se, LastNew(c, al, ss, se), 0, []));
        pieces == old(pieces) + step.0 && Held() == step.1
    {
      hide Emitting, RunPieces, SizeAt, LastNew, Zigzag, RefineCodes;
      ghost var c := Zigzag(b, scan.naturalOrder);
      ghost var base, p := pieces, Held();
      var absvalues, eob := PrePass(b, ss, se, al);
      ghost var target := RefineCodes(tbl, c, al, ss, se, eob, 0, []);
      var r: nat, br: nat := 0, 0;
      ghost var done := [];
      ghost var sizes := absvalues[..];
      assert bitBuffer[be..be + br] == [];
      NothingDone(target, base);
      for k := ss to se + 1
        invariant Emitting() && Waiting() && br <= k - ss && absvalues[..] == sizes
        invariant Midway(tbl, base, p, done, RefineCodes(tbl, c, al, k, se, eob, r, bitBuffer[be..be + br]), target)
      {
        var temp := absvalues[k];
        assert temp == sizes[k] == SizeAt(c, al, k);
        if temp == 0 {
          ZeroSized(tbl, c, al, k, se, eob, r, bitBuffer[be..be + br]);
          r := r + 1;
        } else {
          r, br, done := RefineSized(tbl, b, r, br, k, ss, se, eob, al, temp, c, base, p, done, target);
        }
      }
      BandDone(tbl, c, al, se, eob, r, bitBuffer[be..be + br]);
      FinishBlock(tbl, r > 0 || br > 0, br, base, p, done, target);
    }

    lemma NothingDone(target: CodedBlock, base: seq<Piece>)
      ensures Prepend([], target) == target && base + [] == base
    {
      assert [] + target.body == target.body;
    }

    lemma ZeroSized(tbl: nat, c: zigzag, al: nat, k: nat, se: nat, eob: nat, r: nat, corr: seq<bool>)
      requires k <= se < 64 && SizeAt(c, al, k) == 0
      ensures RefineCodes(tbl, c, al, k, se, eob, r, corr) == RefineCodes(tbl, c, al, k + 1, se, eob, r + 1, corr)
    {
    }

    lemma BandDone(tbl: nat, c: zigzag, al: nat, se: nat, eob: nat, r: nat, corr: seq<bool>)
      requires se < 64
      ensures RefineCodes(tbl, c, al, se + 1, se, eob, r, corr) == CodedBlock([], r > 0 || corr != [], corr)
    {
    }

    /** The end of a block: count it, and send the run if it cannot grow any more. */
    method FinishBlock(tbl: nat, ends: bool, br: nat, ghost base: seq<Piece>, ghost p: Pending,
        ghost done: seq<Piece>, ghost target: CodedBlock)
      requires Emitting() && Fixed() && Waiting() && tbl < NUM_HUFF_TBLS && br <= 63 && (!ends ==> br == 0)
      requires Midway(tbl, base, p, done, CodedBlock([], ends, bitBuffer[be..be + br]), target)
      modifies w, stats, stats.dc, stats.ac, this`failed, this`pieces, this`eobRun, this`be
      ensures Emitting() && Waiting()
      ensures pieces == base + Step(tbl, p, target).0 && Held() == Step(tbl, p, target).1
    {
      hide Emitting, RunPieces;
      assert done + [] == done;
      ghost var sent := if done == [] then [] else RunPieces(tbl, p) + done;
      if ends {
        ghost var held, tail := Held(), bitBuffer[be..be + br];
        eobRun := eobRun + 1;
        be := be + br;
        assert bitBuffer[..be] == held.bits + tail;
        assert Held() == AddEob(held, tail);
        if eobRun == 0x7FFF || be > MAX_HELD {
          EmitEobRun(tbl);
          assert bitBuffer[..be] == [];
          assert (base + sent) + RunPieces(tbl,
            AddEob(held, tail)) == base + (sent + RunPieces(tbl, AddEob(held, tail)));
        }
      }
    }

    // ----- AC first scans

    /** Symbols for runs of 16 zeros. */
    method EmitLongRuns(tbl: nat, run: nat, k: nat, se: nat, ghost w0: zigzag) returns (r: nat, ghost add: seq<Piece>)
      requires Emitting() && tbl < NUM_HUFF_TBLS && run < k <= se < 64 && w0[k] != 0
      modifies w, stats, stats.dc, stats.ac, this`failed, this`pieces
      ensures Emitting() && pieces == old(pieces) + add && r <= 15 && r < k
      ensures Prepend(add, FirstCodes(tbl, w0, k, se, r)) == FirstCodes(tbl, w0, k, se, run)
    {
      hide Emitting;
      ghost var start := pieces;
      r, add := run, [];
      NothingDone(FirstCodes(tbl, w0, k, se, run), start);
      while r > 15
        invariant Emitting() && 0 <= r < k && pieces == start + add
        invariant Prepend(add, FirstCodes(tbl, w0, k, se, r)) == FirstCodes(tbl, w0, k, se, run)
      {
        AddCode(start, add, [Symbol(tbl, ZRL)], FirstCodes(tbl, w0, k, se, r - 16));
        EmitSymbol(tbl, ZRL);
        add := add + [Symbol(tbl, ZRL)];
        r := r - 16;
      }
    }

    /** The symbol and the extra bits of a coefficient. */
    method EmitValue(tbl: nat, v: int, r: nat) returns (ghost own: seq<Piece>)
      requires Emitting() && tbl < NUM_HUFF_TBLS && r <= 15 && 0 < Abs(v) <= 0x8000
      modifies w, stats, stats.dc, stats.ac, this`failed, this`pieces, this`outOfRange
      ensures Emitting() && pieces == old(pieces) + own
      ensures own == [Symbol(tbl, 16 * r + Magnitude(v)), Raw(Bits(ExtraBits(v), Magnitude(v)))]
      ensures outOfRange == (old(outOfRange) || Magnitude(v) > MAX_COEF_BITS)
    {
      hide Emitting, Magnitude, ExtraBits, Bits, Pow2;
      var nbits := BitLength(Abs(v));
      MagnitudeIs(v);
      if nbits > MAX_COEF_BITS {
        ReportRange();
      }
      ghost var was := pieces;
      ExtraIs(v);
      EmitSymbol(tbl, 16 * r + nbits);
      EmitBits((if v < 0 then v - 1 else v) % Pow2(nbits), nbits);
      own := [Symbol(tbl, 16 * r + nbits), Raw(Bits(ExtraBits(v), nbits))];
      assert (was + [own[0]]) + [own[1]] == was + own;
    }

    /** A nonzero coefficient of a first scan: the pending run, symbols for runs of 16
        zeros, and its own symbol and bits. */
    method EmitFirst(tbl: nat, v: int, run: nat, k: nat, se: nat, ghost w0: zigzag,
        ghost base: seq<Piece>, ghost p: Pending, ghost was: seq<Piece>, ghost target: CodedBlock)
      returns (ghost done: seq<Piece>)
      requires Emitting() && Fixed() && Waiting() && be == 0 && tbl < NUM_HUFF_TBLS && run < k <= se < 64
        && w0[k] == v != 0 && Abs(v) <= 0x8000
      requires Midway(tbl, base, p, was, FirstCodes(tbl, w0, k, se, run), target)
      modifies w, stats, stats.dc, stats.ac, this`failed, this`pieces, this`eobRun, this`be, this`outOfRange
      ensures Emitting() && Waiting() && be == 0
      ensures outOfRange == (old(outOfRange) || Magnitude(v) > MAX_COEF_BITS)
      ensures Midway(tbl, base, p, done, FirstCodes(tbl, w0, k + 1, se, 0), target)
    {
      hide Emitting, RunPieces, Magnitude, ExtraBits, Bits, FirstCodes;
      ghost var held := Held();
      EmitEobRun(tbl);
      assert bitBuffer[..be] == [];
      ghost var start := pieces;
      var r, add := EmitLongRuns(tbl, run, k, se, w0);
      ghost var own := EmitValue(tbl, v, r);
      OwnCode(tbl, w0, k, se, r);
      AddCode(start, add, own, FirstCodes(tbl, w0, k + 1, se, 0));
      SentCode(tbl, base, p, was, held, add + own, FirstCodes(tbl, w0, k + 1, se, 0));
      done := was + (add + own);
    }

    lemma OwnCode(tbl: nat, v: zigzag, k: nat, se: nat, r: nat)
      requires k <= se < 64 && v[k] != 0 && r <= 15
      ensures FirstCodes(tbl, v, k, se, r)
        == Prepend([Symbol(tbl, 16 * r + Magnitude(v[k])), Raw(Bits(ExtraBits(v[k]), Magnitude(v[k])))],
          FirstCodes(tbl, v, k + 1, se, 0))
    {
      hide Magnitude, ExtraBits, Bits;
    }

    lemma AddCode(start: seq<Piece>, add: seq<Piece>, own: seq<Piece>, rest: CodedBlock)
      ensures Prepend(add, Prepend(own, rest)) == Prepend(add + own, rest)
      ensures (start + add) + own == start + (add + own)
    {
      assert add + (own + rest.body) == (add + own) + rest.body;
    }

    lemma MagnitudeIs(v: int)
      requires 0 < Abs(v) <= 0x8000
      ensures Magnitude(v) == BitLength(Abs(v)) && 1 <= Magnitude(v) <= 16
    {
      hide Pow2;
      BitLengthBounds(Abs(v));
      Pow2Values();
      if Magnitude(v) > 16 {
        Pow2Monotone(16, Magnitude(v) - 1);
      }
    }

    lemma ExtraIs(v: int)
      ensures ExtraBits(v) == (if v < 0 then v - 1 else v) % Pow2(Magnitude(v))
    {
    }

    /** The error exit for a coefficient out of range. */
    method ReportRange()
      requires Emitting()
      modifies this`failed, this`outOfRange
      ensures Emitting() && outOfRange
    {
      failed, outOfRange := true, true;
    }

    /** encode_mcu_AC_first. */
    method EncodeAcFirst(tbl: nat, b: block, ss: nat, se: nat, al: nat)
      requires Emitting() && Fixed() && Waiting() && be == 0 && tbl < NUM_HUFF_TBLS && 1 <= ss <= se < 64
        && SmallBlock(b)
      modifies w, stats, stats.dc, stats.ac, this`failed, this`pieces, this`eobRun, this`be, this`outOfRange
      ensures Emitting() && Waiting() && be == 0
      ensures var v := Transform(Zigzag(b, scan.naturalOrder), al);
        var step := Step(tbl, old(Held()), FirstCodes(tbl, v, ss, se, 0));
        && pieces == old(pieces) + step.0 && Held() == step.1
        && outOfRange == (old(outOfRange) || !BandInRange(v, ss, se + 1))
    {
      hide Emitting, RunPieces, Zigzag, FirstCodes, Transform, Magnitude, ShiftRight;
      ghost var v := Transform(Zigzag(b, scan.naturalOrder), al);
      ghost var base, p := pieces, Held();
      ghost var target := FirstCodes(tbl, v, ss, se, 0);
      var r: nat := 0;
      ghost var done := [];
      NothingDone(target, base);
      for k := ss to se + 1
        invariant Emitting() && Waiting() && be == 0 && r <= k - ss
        invariant Midway(tbl, base, p, done, FirstCodes(tbl, v, k, se, r), target)
        invariant outOfRange == (old(outOfRange) || !BandInRange(v, ss, k))
      {
        var c := b[scan.naturalOrder[k]];
        var temp: int := ShiftRight(Abs(c), al);
        if c < 0 {
          temp := -temp;
        }
        TransformIs(b, al, k, temp);
        BandNext(v, ss, k);
        if temp == 0 {
          ZeroFirst(tbl, v, k, se, r);
          r := r + 1;
        } else {
          done := EmitFirst(tbl, temp, r, k, se, v, base, p, done, target);
          r := 0;
        }
      }
      FirstDone(tbl, v, se, r);
      assert bitBuffer[be..be + 0] == [];
      FinishBlock(tbl, r > 0, 0, base, p, done, target);
    }

    lemma TransformIs(b: block, al: nat, k: nat, temp: int)
      requires k < 64 && SmallBlock(b)
      requires var c := b[scan.naturalOrder[k]]; var size: int := ShiftRight(Abs(c), al);
        temp == if c < 0 then -size else size
      ensures Transform(Zigzag(b, scan.naturalOrder), al)[k] == temp && Abs(temp) <= 0x8000
    {
    }

    lemma BandNext(v: zigzag, ss: nat, k: nat)
      requires ss <= k < 64
      ensures BandInRange(v, ss, k + 1) == (BandInRange(v, ss, k) && Magnitude(v[k]) <= MAX_COEF_BITS)
      ensures v[k] == 0 ==> Magnitude(v[k]) == 0
    {
    }

    lemma ZeroFirst(tbl: nat, v: zigzag, k: nat, se: nat, r: nat)
      requires k <= se < 64 && v[k] == 0
      ensures FirstCodes(tbl, v, k, se, r) == FirstCodes(tbl, v, k + 1, se, r + 1)
    {
    }

    lemma FirstDone(tbl: nat, v: zigzag, se: nat, r: nat)
      requires se < 64
      ensures FirstCodes(tbl, v, se + 1, se, r) == CodedBlock([], r > 0, [])
    {
    }

    // ----- DC scans, MCUs, the end of the pass

    /** The DC difference of a block. */
    method EncodeDcFirst(tbl: nat, b: block, last: int, al: nat) returns (value: int)
      requires Emitting() && tbl < NUM_HUFF_TBLS && SmallBlock(b) && -0x8000 <= last < 0x8000
      modifies w, stats, stats.dc, stats.ac, this`failed, this`pieces, this`outOfRange
      ensures value == b[0] / Pow2(al) && -0x8000 <= value < 0x8000
      ensures Emitting() && pieces == old(pieces) + DcCodes(tbl, value - last).body
      ensures outOfRange == (old(outOfRange) || Magnitude(value - last) > MAX_COEF_BITS + 1)
    {
      hide Emitting, Magnitude, ExtraBits, Bits, Pow2;
      value := b[0] / Pow2(al);
      FloorFits(b[0], Pow2(al), 0x8000);
      var diff := value - last;
      var nbits := BitLength(Abs(diff));
      DcMagnitudeIs(diff);
      if nbits > MAX_COEF_BITS + 1 {
        ReportRange();
      }
      ghost var was := pieces;
      ExtraIs(diff);
      EmitSymbol(tbl, nbits);
      EmitBits((if diff < 0 then diff - 1 else diff) % Pow2(nbits), nbits);
      assert (was + [Symbol(tbl, nbits)]) + [Raw(Bits(ExtraBits(diff), nbits))] == was + DcCodes(tbl, diff).body;
    }

    lemma DcMagnitudeIs(v: int)
      requires Abs(v) <= 0xFFFF
      ensures Magnitude(v) == BitLength(Abs(v)) && Magnitude(v) <= 16
    {
      hide Pow2;
      BitLengthBounds(Abs(v));
      Pow2Values();
      if Magnitude(v) > 16 {
        Pow2Monotone(16, Magnitude(v) - 1);
      }
    }

    /** Between MCUs: the pieces emitted and the run held back are what the blocks so
        far amount to. */
    ghost predicate Valid()
      reads this, w, stats, stats.dc, stats.ac, bitBuffer
    {
      && Emitting() && Waiting() && Fixed() && GoodProgressive(scan)
      && (ModeOf(scan) != AcRefine ==> be == 0)
      && (pieces, Held()) == After(RunTable(scan), progress.codes)
      && lastDc == progress.last && |lastDc| == |scan.components|
      && outOfRange == !progress.inRange
      && (forall ci :: 0 <= ci < |lastDc| ==> -0x8000 <= lastDc[ci] < 0x8000)
      && (ModeOf(scan) == DcFirst || ModeOf(scan) == DcRefine ==> Held() == NONE)
    }

    method EncodeBlock(ci: nat, b: block)
      requires Valid() && ci < |scan.components| && SmallBlock(b)
      requires ModeOf(scan) == AcFirst || ModeOf(scan) == AcRefine ==> ci == 0
      modifies this, w, stats, stats.dc, stats.ac, bitBuffer
      ensures Valid() && progress == AddBlock(scan, old(progress), ci, b)
    {
      hide Emitting, RunPieces, Zigzag, FirstCodes, RefineCodes, Transform, Magnitude, Step, After, LastNew, Pow2,
        ExtraBits, Bits;
      ghost var x := progress;
      ghost var y := AddBlock(scan, x, ci, b);
      var c := scan.components[ci];
      AfterOneMore(RunTable(scan), x.codes, BlockCodes(scan, c, x.last[ci], b));
      match ModeOf(scan) {
        case DcFirst =>
          var value := EncodeDcFirst(c.dcTbl, b, lastDc[ci], scan.Al);
          lastDc := lastDc[ci := value];
          SentAtOnce(RunTable(scan), DcCodes(c.dcTbl, value - x.last[ci]).body);
        case DcRefine =>
          var bit := b[0] / Pow2(scan.Al) % 2 == 1;
          OneBit(bit);
          EmitBits(if bit then 1 else 0, 1);
          SentAtOnce(RunTable(scan), [Raw([bit])]);
        case AcFirst =>
          EncodeAcFirst(c.acTbl, b, scan.Ss, scan.Se, scan.Al);
        case AcRefine =>
          EncodeAcRefine(c.acTbl, b, scan.Ss, scan.Se, scan.Al);
        case Sequential =>
          assert false;
      }
      progress := y;
    }

    /** encode_mcu: in a DC scan every block of the MCU, in an AC scan its only block. */
    method EncodeMcu(mcu: seq<block>)
      requires Valid() && |mcu| == |scan.membership| && forall i :: 0 <= i < |mcu| ==> SmallBlock(mcu[i])
      modifies this, w, stats, stats.dc, stats.ac, bitBuffer
      ensures Valid() && progress == AddMcu(scan, old(progress), mcu)
    {
      hide Valid, AddBlock, SmallBlock;
      ghost var x := progress;
      ValidScan();
      assert mcu[..0] == [];
      for blkn := 0 to |mcu|
        invariant Valid() && progress == AddMcu(scan, x, mcu[..blkn])
      {
        assert mcu[..blkn + 1][..blkn] == mcu[..blkn];
        EncodeBlock(scan.membership[blkn], mcu[blkn]);
      }
      assert mcu[..|mcu|] == mcu;
    }

    lemma ValidScan()
      requires Valid()
      ensures GoodProgressive(scan) && |progress.last| == |scan.components|
      ensures ModeOf(scan) == AcFirst || ModeOf(scan) == AcRefine ==> |scan.components| == 1
    {
    }

    /** finish_pass_phuff: send the pending run and fill the last byte with ones. */
    method FinishPass() returns (out: seq<byte>, ghost payload: seq<byte>)
      requires Valid() && !gather
      modifies this, w, stats, stats.dc, stats.ac
      ensures failed <==> !AllCoded(tables, Rest(RunTable(scan), progress.codes, 0, NONE)) || !old(progress).inRange
      ensures !failed ==> (
        && AllCoded(tables, Rest(RunTable(scan), progress.codes, 0, NONE)) && out == Stuff(payload)
        && B.Padded(PiecesBits(tables, Rest(RunTable(scan), progress.codes, 0, NONE)), BytesBits(payload)))
      ensures progress == old(progress)
    {
      hide w.Valid, RunPieces, After, PiecesBits, BytesBits, Stuff, Coded, DerivedTables;
      var tbl := RunTable(scan);
      ghost var n := |progress.codes|;
      SentThenRest(tbl, progress.codes, n);
      assert progress.codes[..n] == progress.codes;
      EmitEobRun(tbl);
      w.FlushBits();
      out, payload := w.out, w.payload;
    }

    /** emit_eobrun at the end of a statistics pass, or before a restart in it. */
    method FinishGather()
      requires Valid() && gather
      modifies this, w, stats, stats.dc, stats.ac
      ensures failed == !old(progress).inRange && progress == old(progress)
      ensures !failed ==> (stats.Valid()
        && stats.log == base + SymbolTokens(scan.Ss == 0, Rest(RunTable(scan), progress.codes, 0, NONE)))
    {
      hide w.Valid, RunPieces, After, PiecesBits, Coded, DerivedTables, HS.Counts.Valid, SymbolTokens;
      var tbl := RunTable(scan);
      ghost var n := |progress.codes|;
      SentThenRest(tbl, progress.codes, n);
      assert progress.codes[..n] == progress.codes;
      EmitEobRun(tbl);
    }
  }
}
