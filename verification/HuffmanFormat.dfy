/**
 What the Huffman coders write, stated once more without the functions that build it:
 codes in increasing order (figure C.2 of ITU-T T.81), extra bits (section F.1.2.1),
 runs of zeros (figure F.2), DC prediction and restarts, and the runs of a progressive
 scan (section G.1.2).
 */
module HuffmanFormat {
  import opened Bytes
  import opened BitStrings
  import opened CanonicalCode
  import opened HuffmanTables
  import opened CoefficientModel
  import opened ScanSetup
  import opened HuffmanModel
  import opened ProgressiveModel
  import opened Nonlinear
  import W = BitWriter

  // ----- bits and codes

  /** Bit i of n bits is digit n - 1 - i of the number. */
  lemma {:induction false} BitsAreDigits(v: nat, n: nat, i: nat)
    requires i < n
    ensures Bits(v, n)[i] <==> v / Pow2(n - 1 - i) % 2 == 1
  {
    hide Pow2;
    if i < n - 1 {
      BitsAreDigits(v / 2, n - 1, i);
      DivideTwice(v, 2, Pow2(n - 2 - i));
      DoublePow2(n - 2 - i);
    } else {
      OnePow2(v);
    }
  }

  lemma DoublePow2(n: nat)
    ensures Pow2(n + 1) == 2 * Pow2(n)
  {
  }

  lemma OnePow2(v: nat)
    ensures Pow2(0) == 1 && v / Pow2(0) == v
  {
  }

  /** Lengths that are not used double the first code. */
  lemma {:induction false} FirstGrows(bits: counts, l: nat, m: nat)
    requires 1 <= l < m <= 17 && Start(bits, m) == Start(bits, l + 1)
    ensures First(bits, m) == (First(bits, l) + bits[l]) * Pow2(m - l)
  {
    hide Pow2, First, Start;
    FirstNext(bits, m);
    DoublePow2(m - 1 - l);
    if l + 1 < m {
      StartMonotone(bits, l + 1, m - 1);
      FirstGrows(bits, l, m - 1);
      Reassociate(2, First(bits, l) + bits[l], Pow2(m - 1 - l));
    } else {
      OnePow2(0);
    }
  }

  lemma FirstNext(bits: counts, m: nat)
    requires 1 < m <= 17
    ensures First(bits, m) == 2 * (First(bits, m - 1) + bits[m - 1])
    ensures Start(bits, m) == Start(bits, m - 1) + bits[m - 1]
  {
  }

  lemma {:induction false} FirstOfAll(bits: counts, l: nat)
    requires 1 <= l <= 17 && Start(bits, l) == 0
    ensures First(bits, l) == 0
  {
    if l > 1 {
      FirstOfAll(bits, l - 1);
    }
  }

  /** The codes count upwards: the first is 0, and each further one is the one before it,
      plus 1, with zeros added up to its own length. */
  lemma CodesCountUp(bits: counts, p: nat)
    requires p < Start(bits, 17)
    ensures p == 0 ==> CodeOf(bits, p) == 0
    ensures p > 0 ==> Length(bits, p - 1) <= Length(bits, p)
    ensures p > 0 ==>
      CodeOf(bits, p) == (CodeOf(bits, p - 1) + 1) * Pow2(Length(bits, p) - Length(bits, p - 1))
  {
    hide Pow2, Length;
    var m := Length(bits, p);
    if p == 0 {
      FirstOfAll(bits, m);
    } else {
      var l := Length(bits, p - 1);
      if m < l {
        StartMonotone(bits, m + 1, l);
        assert false;
      } else if l < m {
        StartMonotone(bits, l + 1, m);
        FirstGrows(bits, l, m);
      } else {
        OnePow2(0);
      }
    }
  }

  /** The symbols of a table are different, and those of a DC table are at most 15. */
  lemma SymbolsOf(t: table, isDC: bool)
    requires CodeCount(t) <= 256
    ensures ValidSymbols(t, isDC) <==>
      && (isDC ==> forall p :: 0 <= p < CodeCount(t) ==> t.huffval[p] <= 15)
      && forall p, q :: 0 <= p < q < CodeCount(t) ==> t.huffval[p] != t.huffval[q]
  {
    hide Start;
  }

  // ----- extra bits

  /** The category says how long a value is, positive values are their own extra bits,
      and those of -v are the complement of those of v. */
  lemma ExtraBitsComplement(v: int)
    requires v > 0
    ensures var s := Magnitude(v);
      && s > 0 && Pow2(s - 1) <= v < Pow2(s) && Magnitude(-v) == s
      && ExtraBits(v) == v && ExtraBits(v) + ExtraBits(-v) == Pow2(s) - 1
  {
    hide Pow2;
    var s := Magnitude(v);
    BitLengthBounds(v);
    DivisionUnique(v, Pow2(s), 0, v);
    DivisionUnique(-v - 1, Pow2(s), -1, Pow2(s) - v - 1);
  }

  lemma NothingToSay()
    ensures Magnitude(0) == 0 && ExtraBits(0) == 0
  {
  }

  // ----- sequential blocks

  function Zrls(tbl: nat, n: nat): (xs: seq<Token>)
    ensures |xs| == n && forall i :: 0 <= i < n ==> xs[i] == Token(false, tbl, 0xF0, 0, 0)
  {
    seq(n, _ => Token(false, tbl, 0xF0, 0, 0))
  }

  /** A nonzero coefficient n after zeros from k on: one symbol 0xF0 for each 16 zeros,
      then the symbol of the zeros that are left and the category, and the extra bits. */
  lemma {:induction false} RunThenValue(tbl: nat, z: zigzag, k: nat, n: nat)
    requires k <= n < 64 && z[n] != 0 && forall j :: k <= j < n ==> z[j] == 0
    ensures var r, s := n - k, Magnitude(z[n]);
      AcTokens(tbl, z, k)
        == Zrls(tbl, r / 16) + [Token(false, tbl, 16 * (r % 16) + s, ExtraBits(z[n]), s)] + AcTokens(tbl, z, n + 1)
    decreases n - k
  {
    hide Magnitude, ExtraBits, AcTokens, Zrls;
    AcNext(tbl, z, k, n);
    var r, s := n - k, Magnitude(z[n]);
    var own := [Token(false, tbl, 16 * (r % 16) + s, ExtraBits(z[n]), s)];
    if r > 15 {
      RunThenValue(tbl, z, k + 16, n);
      assert (r - 16) / 16 == r / 16 - 1 && (r - 16) % 16 == r % 16;
      OneMoreZrl(tbl, r / 16);
      Associates([Token(false, tbl, 0xF0, 0, 0)], Zrls(tbl, r / 16 - 1), own, AcTokens(tbl, z, n + 1));
    } else {
      assert Zrls(tbl, 0) == [];
      assert [] + own == own;
    }
  }

  lemma AcNext(tbl: nat, z: zigzag, k: nat, n: nat)
    requires k <= n < 64 && z[n] != 0 && forall j :: k <= j < n ==> z[j] == 0
    ensures n - k > 15 ==> AcTokens(tbl, z, k) == [Token(false, tbl, 0xF0, 0, 0)] + AcTokens(tbl, z, k + 16)
    ensures var s := Magnitude(z[n]);
      n - k <= 15 ==>
        AcTokens(tbl, z, k) == [Token(false, tbl, 16 * (n - k) + s, ExtraBits(z[n]), s)] + AcTokens(tbl, z, n + 1)
  {
    hide Magnitude, ExtraBits;
    NextNonzeroIs(z, k, n);
  }

  lemma OneMoreZrl(tbl: nat, n: nat)
    requires n > 0
    ensures Zrls(tbl, n) == [Token(false, tbl, 0xF0, 0, 0)] + Zrls(tbl, n - 1)
  {
  }

  lemma Associates<T>(a: seq<T>, b: seq<T>, c: seq<T>, d: seq<T>)
    ensures a + (b + c + d) == (a + b) + c + d
  {
  }

  /** Zeros up to the end are the symbol 0x00; nothing follows coefficient 63. */
  lemma ZerosToTheEnd(tbl: nat, z: zigzag, k: nat)
    requires k <= 64 && forall j :: k <= j < 64 ==> z[j] == 0
    ensures AcTokens(tbl, z, k) == if k < 64 then [Token(false, tbl, 0x00, 0, 0)] else []
  {
    NextNonzeroIs(z, k, 64);
  }

  // ----- DC prediction

  /** The prediction of a component after some blocks is the DC value of its last one. */
  lemma {:induction false} PredictionIs(s: HuffScan, last: seq<int>, mcu: seq<block>, ci: nat, j: int)
    requires GoodHuffScan(s) && |last| == |s.components| && |mcu| <= |s.membership| && ci < |s.components|
    requires -1 <= j < |mcu| && (j >= 0 ==> s.membership[j] == ci)
    requires forall i :: j < i < |mcu| ==> s.membership[i] != ci
    ensures LastDc(s, last, mcu)[ci] == if j >= 0 then mcu[j][0] else last[ci]
    decreases |mcu|
  {
    if mcu != [] && j < |mcu| - 1 {
      PredictionIs(s, last, mcu[..|mcu| - 1], ci, j);
    }
  }

  /** A block sends the difference between its DC value and that of the last block of its
      component before it, j; without one, the one remembered from earlier MCUs. */
  lemma DcIsPredicted(s: HuffScan, last: seq<int>, mcu: seq<block>, n: nat, j: int)
    requires GoodHuffScan(s) && |last| == |s.components| && n < |mcu| <= |s.membership|
    requires -1 <= j < n && (j >= 0 ==> s.membership[j] == s.membership[n])
    requires forall i :: j < i < n ==> s.membership[i] != s.membership[n]
    ensures var ci := s.membership[n];
      var diff := mcu[n][0] - if j >= 0 then mcu[j][0] else last[ci];
      var xs := NthBlockTokens(s, LastDc(s, last, mcu[..n]), n, mcu[n]);
      xs == [Token(true, s.components[ci].dcTbl, Magnitude(diff), ExtraBits(diff), Magnitude(diff))]
        + AcTokens(s.components[ci].acTbl, Zigzag(mcu[n], s.naturalOrder), 1)
  {
    hide Magnitude, ExtraBits, AcTokens, Zigzag, LastDc;
    PredictionIs(s, last, mcu[..n], s.membership[n], j);
  }

  /** Restart intervals hold as many MCUs as the header says, and DC prediction starts
      again from 0. */
  lemma {:induction false} IntervalsOfScan(s: HuffScan, mcus: seq<seq<block>>)
    requires GoodHuffScan(s) && GoodHuffMcus(s, mcus)
    ensures var r, n := s.restartInterval, |mcus|;
      && |ScanSent(s, mcus).intervals| == (if r == 0 || n == 0 then 1 else 1 + (n - 1) / r)
      && (r > 0 && n > 0 && n % r == 0 ==>
        Restarted(s, ScanSent(s, mcus), n).last == seq(|s.components|, _ => 0))
      && (r == 0 || n % r != 0 ==> Restarted(s, ScanSent(s, mcus), n) == ScanSent(s, mcus))
  {
    hide McuTokens, LastDc;
    if mcus != [] {
      var n := |mcus| - 1;
      IntervalsOfScan(s, mcus[..n]);
      if s.restartInterval > 0 && n > 0 {
        NextQuotient(n - 1, s.restartInterval);
      }
    }
  }

  lemma NextQuotient(n: nat, r: nat)
    requires r > 0
    ensures (n + 1) / r == n / r + if (n + 1) % r == 0 then 1 else 0
    ensures n < r ==> n / r == 0
  {
    var q, m := n / r, n % r;
    if m == r - 1 {
      DivisionUnique(n + 1, r, q + 1, 0);
    } else {
      DivisionUnique(n + 1, r, q, m + 1);
    }
  }

  /** The last byte of a segment is filled up with ones. */
  lemma PaddingIsOnes(bits: seq<bool>, whole: seq<bool>)
    requires W.Padded(bits, whole)
    ensures |whole| - |bits| < 8 && whole[..|bits|] == bits
    ensures forall i :: |bits| <= i < |whole| ==> whole[i]
  {
  }

  /** DC prediction starts at 0. */
  lemma StartsAtZero(s: HuffScan, p: Scan)
    ensures NoDcYet(s) == seq(|s.components|, _ => 0)
    ensures NoProgress(p).last == seq(|p.components|, _ => 0) && NoProgress(p).codes == []
  {
  }

  // ----- progressive scans

  /** A first DC scan predicts from the last block of the component. */
  lemma {:induction false} ProgressPredicts(s: Scan, x: Progress, mcu: seq<block>, ci: nat, j: int)
    requires GoodScan(s) && |x.last| == |s.components| && |mcu| <= |s.membership| && ci < |s.components|
    requires -1 <= j < |mcu| && (j >= 0 ==> s.membership[j] == ci)
    requires ModeOf(s) == DcFirst && forall i :: j < i < |mcu| ==> s.membership[i] != ci
    ensures AddMcu(s, x, mcu).last[ci] == if j >= 0 then mcu[j][0] / Pow2(s.Al) else x.last[ci]
    decreases |mcu|
  {
    hide BlockCodes, BlockInRange;
    if mcu != [] && j < |mcu| - 1 {
      ProgressPredicts(s, x, mcu[..|mcu| - 1], ci, j);
    }
  }

  /** What a block adds in each mode. */
  lemma BlockCodesAre(s: Scan, c: Component, last: int, b: block)
    requires s.Ss <= s.Se < 64 && s.progressive
    ensures var z, diff := Zigzag(b, s.naturalOrder), b[0] / Pow2(s.Al) - last;
      && (s.Ah == 0 && s.Ss == 0 ==> BlockCodes(s, c, last, b) == CodedBlock(
        [Symbol(c.dcTbl, Magnitude(diff)), Raw(Bits(ExtraBits(diff), Magnitude(diff)))], false, []))
      && (s.Ah == 0 && s.Ss > 0 ==>
        BlockCodes(s, c, last, b) == FirstCodes(c.acTbl, Transform(z, s.Al), s.Ss, s.Se, 0))
      && (s.Ah > 0 && s.Ss == 0 ==>
        BlockCodes(s, c, last, b) == CodedBlock([Raw([b[0] / Pow2(s.Al) % 2 == 1])], false, []))
  {
    hide Magnitude, ExtraBits, Bits, FirstCodes, RefineCodes, Transform, Zigzag;
  }

  function ZrlPieces(tbl: nat, n: nat): (xs: seq<Piece>)
    ensures |xs| == n && forall i :: 0 <= i < n ==> xs[i] == Symbol(tbl, 0xF0)
  {
    seq(n, _ => Symbol(tbl, 0xF0))
  }

  lemma {:induction false} ZerosAreCounted(tbl: nat, w: zigzag, k: nat, n: nat, se: nat, r: nat)
    requires k <= n <= se + 1 <= 64 && forall j :: k <= j < n ==> w[j] == 0
    ensures FirstCodes(tbl, w, k, se, r) == FirstCodes(tbl, w, n, se, r + (n - k))
    decreases n - k
  {
    if k < n {
      ZerosAreCounted(tbl, w, k + 1, n, se, r + 1);
    }
  }

  lemma {:induction false} AfterZeros(tbl: nat, w: zigzag, n: nat, se: nat, r: nat)
    requires n <= se < 64 && w[n] != 0
    ensures var s := Magnitude(w[n]);
      FirstCodes(tbl, w, n, se, r)
        == Prepend(ZrlPieces(tbl, r / 16) + [Symbol(tbl, 16 * (r % 16) + s), Raw(Bits(ExtraBits(w[n]), s))],
          FirstCodes(tbl, w, n + 1, se, 0))
    decreases r
  {
    hide Magnitude, ExtraBits, Bits, FirstCodes, ZrlPieces;
    var own := [Symbol(tbl, 16 * (r % 16) + Magnitude(w[n])), Raw(Bits(ExtraBits(w[n]), Magnitude(w[n])))];
    var rest := FirstCodes(tbl, w, n + 1, se, 0);
    FirstNonzero(tbl, w, n, se, r);
    if r > 15 {
      AfterZeros(tbl, w, n, se, r - 16);
      assert (r - 16) / 16 == r / 16 - 1 && (r - 16) % 16 == r % 16;
      OneMoreZrlPiece(tbl, r / 16);
      Associates([Symbol(tbl, 0xF0)], ZrlPieces(tbl, r / 16 - 1), own, rest.body);
    } else {
      assert ZrlPieces(tbl, 0) == [];
      assert [] + own == own;
    }
  }

  lemma FirstNonzero(tbl: nat, w: zigzag, n: nat, se: nat, r: nat)
    requires n <= se < 64 && w[n] != 0
    ensures var s := Magnitude(w[n]);
      FirstCodes(tbl, w, n, se, r) == if r > 15 then Prepend([Symbol(tbl, 0xF0)], FirstCodes(tbl, w, n, se, r - 16))
        else Prepend([Symbol(tbl, 16 * r + s), Raw(Bits(ExtraBits(w[n]), s))], FirstCodes(tbl, w, n + 1, se, 0))
  {
    hide Magnitude, ExtraBits, Bits, Prepend;
  }

  lemma OneMoreZrlPiece(tbl: nat, n: nat)
    requires n > 0
    ensures ZrlPieces(tbl, n) == [Symbol(tbl, 0xF0)] + ZrlPieces(tbl, n - 1)
  {
  }

  /** A first AC scan codes runs of zeros in its band as a sequential scan does, and the
      zeros at the end of the band, if any, as an end of band. */
  lemma BandRunThenValue(tbl: nat, w: zigzag, k: nat, n: nat, se: nat)
    requires k <= n <= se + 1 <= 64 && (n <= se ==> w[n] != 0) && forall j :: k <= j < n ==> w[j] == 0
    ensures n > se ==> FirstCodes(tbl, w, k, se, 0) == CodedBlock([], k <= se, [])
    ensures var r := n - k;
      n <= se ==> var s := Magnitude(w[n]);
        FirstCodes(tbl, w, k, se, 0)
          == Prepend(ZrlPieces(tbl, r / 16) + [Symbol(tbl, 16 * (r % 16) + s), Raw(Bits(ExtraBits(w[n]), s))],
            FirstCodes(tbl, w, n + 1, se, 0))
  {
    hide Magnitude, ExtraBits, Bits, Prepend;
    ZerosAreCounted(tbl, w, k, n, se, 0);
    if n <= se {
      AfterZeros(tbl, w, n, se, n - k);
    }
  }

  /** A run of ends of bands is sent as 16n, the n bits of its length below the leading
      one, and all correction bits held. */
  lemma RunIsSpelled(tbl: nat, p: Pending) returns (n: nat)
    requires p.run > 0
    ensures Pow2(n) <= p.run < Pow2(n + 1)
    ensures RunPieces(tbl, p) == [Symbol(tbl, 16 * n), Raw(Bits(p.run - Pow2(n), n)), Raw(p.bits)]
  {
    hide Pow2, Bits;
    n := BitLength(p.run) - 1;
    BitLengthBounds(p.run);
    DoublePow2(n);
    DivisionUnique(p.run, Pow2(n), 1, p.run - Pow2(n));
    DivisionUnique(p.run - Pow2(n), Pow2(n), 0, p.run - Pow2(n));
    BitsOfMod(p.run, n, n);
    BitsOfMod(p.run - Pow2(n), n, n);
  }

  lemma {:induction false} TailsLast(cs: seq<CodedBlock>, i: nat, n: nat)
    requires i + n < |cs|
    ensures Tails(cs, i, n + 1) == Tails(cs, i, n) + cs[i + n].tail
    decreases n
  {
    if n > 0 {
      TailsLast(cs, i + 1, n - 1);
    }
  }

  /** With m blocks from i on the run is shorter than 0x7FFF blocks and holds at most 937
      correction bits. */
  predicate MayGrow(cs: seq<CodedBlock>, i: nat, p: Pending, m: nat)
    requires i + m <= |cs|
  {
    p.run + m < 0x7FFF && |p.bits| + |Tails(cs, i, m)| <= 937
  }

  /** Runs are as long as they can be: one ends only before a block with codes, at the end
      of the scan, with 0x7FFF blocks, or when more than 937 correction bits are held. */
  lemma {:induction false} RunsAreLong(cs: seq<CodedBlock>, i: nat, p: Pending)
    requires i <= |cs| && GoodBlocks(cs) && p.run < 0x7FFF && |p.bits| <= 937
    ensures var n := Joining(cs, i, p);
      && p.run + n <= 0x7FFF && (i + n == |cs| || cs[i + n].body != [] || !MayGrow(cs, i, p, n))
      && (forall m :: 0 <= m < n ==> MayGrow(cs, i, p, m))
    decreases |cs| - i
  {
    hide GoodBlock, Joining, Tails;
    JoiningNext(cs, i, p);
    if i < |cs| && cs[i].body == [] {
      var q := AddEob(p, cs[i].tail);
      if q.run < 0x7FFF && |q.bits| <= 937 {
        RunsAreLong(cs, i + 1, q);
        var n := Joining(cs, i, p);
        assert n == 1 + Joining(cs, i + 1, q);
        TailsFirstLength(cs, i, n);
        forall m | 0 <= m < n ensures MayGrow(cs, i, p, m) {
          TailsFirstLength(cs, i, m);
          if m > 0 {
            assert MayGrow(cs, i + 1, q, m - 1);
          }
        }
      } else {
        TailsFirstLength(cs, i, 0);
        TailsFirstLength(cs, i, 1);
        TailsFirstLength(cs, i + 1, 0);
      }
    } else {
      TailsFirstLength(cs, i, 0);
    }
  }

  lemma JoiningNext(cs: seq<CodedBlock>, i: nat, p: Pending)
    requires i <= |cs| && GoodBlocks(cs)
    ensures i == |cs| || cs[i].body != [] ==> Joining(cs, i, p) == 0
    ensures i < |cs| && cs[i].body == [] ==> var q := AddEob(p, cs[i].tail);
      Joining(cs, i, p) == if q.run == 0x7FFF || |q.bits| > 937 then 1 else 1 + Joining(cs, i + 1, q)
  {
    if i < |cs| {
      EndsIfEmpty(cs[i]);
    }
  }

  lemma TailsFirstLength(cs: seq<CodedBlock>, i: nat, n: nat)
    requires i + n <= |cs|
    ensures |Tails(cs, i, n)| == if n == 0 then 0 else |cs[i].tail| + |Tails(cs, i + 1, n - 1)|
  {
  }

  lemma EndsIfEmpty(c: CodedBlock)
    requires GoodBlock(c)
    ensures c.body == [] ==> c.eob
  {
  }
}
