/**
 A progressive scan sent by the Huffman encoder and read back by the Huffman decoder:
 the blocks take exactly the step that the scan describes.
 */
module ProgressiveTransmission {
  import opened Bytes
  import opened BitStrings
  import opened CanonicalCode
  import opened HuffmanTables
  import opened ScanSetup
  import opened HuffmanModel
  import opened ProgressiveModel
  import opened ScanScript
  import A = ArithScan
  import M = ArithMcuDecoder
  import T = ScanTransmission
  import B = BitWriter
  import E = ProgressiveEncoder
  import D = ProgressiveMcuDecoder
  import P = ProgressiveDecoder

  ghost predicate GoodTables(ts: seq<table>, isDC: bool)
  {
    |ts| == NUM_HUFF_TBLS && forall i :: 0 <= i < NUM_HUFF_TBLS ==> GoodTable(ts[i], isDC)
  }

  lemma LegalSize(t: table)
    ensures Legal(t.bits) ==> CodeCount(t) <= 256
  {
  }

  method DeriveTables(ts: seq<table>, isDC: bool) returns (ok: bool, cs: seq<CDerived>, ds: seq<DDerived>)
    requires |ts| == NUM_HUFF_TBLS
    ensures ok == GoodTables(ts, isDC)
    ensures ok ==> E.DerivedTables(ts, cs) && P.DerivedTables(ts, ds)
  {
    hide ValidSymbols, Encodes, Decodes, Legal, Start;
    cs, ds := [], [];
    for i := 0 to NUM_HUFF_TBLS
      invariant |cs| == i && |ds| == i
      invariant forall j :: 0 <= j < i ==> GoodTable(ts[j], isDC)
      invariant forall j :: 0 <= j < i ==> CodeCount(ts[j]) <= 256 && Encodes(ts[j], cs[j]) && Decodes(ts[j], ds[j])
    {
      LegalSize(ts[i]);
      SymbolsSmall(ts[i], isDC);
      var okC, c := MakeCDerived(isDC, ts[i]);
      if !okC {
        return false, cs, ds;
      }
      var okD, d := MakeDDerived(isDC, ts[i]);
      cs, ds := cs + [c], ds + [d];
    }
    ok := true;
  }

  lemma SymbolsSmall(t: table, isDC: bool)
    ensures GoodTable(t, isDC) && CodeCount(t) <= 256 ==> (isDC ==> DcSymbolsBelow(t, CodeCount(t)))
  {
    hide Legal, Start;
  }

  /** All pieces of a scan. */
  function ScanPieces(s: Scan, mcus: seq<seq<block>>): seq<Piece>
    requires GoodScan(s) && SizedMcus(s, mcus)
  {
    Rest(RunTable(s), ScanProgress(s, mcus).codes, 0, NONE)
  }

  lemma ProgressNext(s: Scan, mcus: seq<seq<block>>, m: nat)
    requires GoodScan(s) && SizedMcus(s, mcus) && m < |mcus|
    ensures ScanProgress(s, mcus[..m + 1]) == AddMcu(s, ScanProgress(s, mcus[..m]), mcus[m])
    ensures ScanProgress(s, mcus[..0]) == NoProgress(s)
  {
    assert mcus[..m + 1][..m] == mcus[..m];
    assert mcus[..0] == [];
  }

  lemma McusAreSized(s: Scan, mcus: seq<seq<block>>)
    requires GoodMcus(s, mcus)
    ensures SizedMcus(s, mcus)
  {
  }

  /** Encode a scan: start_pass, encode_mcu for every MCU, finish_pass.  It fails just
      when a symbol has no code or a coefficient is out of range. */
  method EncodeScan(s: Scan, ts: seq<table>, cs: seq<CDerived>, mcus: seq<seq<block>>)
    returns (ok: bool, sent: seq<byte>, ghost payload: seq<byte>)
    requires GoodProgressive(s) && GoodMcus(s, mcus) && SizedMcus(s, mcus) && E.DerivedTables(ts, cs)
    ensures ok <==> AllCoded(ts, ScanPieces(s, mcus)) && ScanProgress(s, mcus).inRange
    ensures ok ==> sent == Stuff(payload) && B.Padded(PiecesBits(ts, ScanPieces(s, mcus)), BytesBits(payload))
  {
    hide E.Encoder.Valid, E.DerivedTables, AddMcu, SmallBlock, Rest, Coded, PiecesBits, Stuff, BytesBits, B.Padded;
    var e := new E.Encoder(s, cs, ts);
    Starts(e);
    assert mcus[..0] == [];
    for m := 0 to |mcus|
      invariant e.Valid() && fresh(e) && fresh(e.w) && fresh(e.bitBuffer) && fresh(e.stats) && fresh(e.stats.dc)
      invariant fresh(e.stats.ac) && e.scan == s && e.tables == ts && !e.gather
      invariant e.progress == ScanProgress(s, mcus[..m])
    {
      ProgressNext(s, mcus, m);
      e.EncodeMcu(mcus[m]);
    }
    assert mcus[..|mcus|] == mcus;
    sent, payload := e.FinishPass();
    ok := !e.failed;
  }

  lemma Starts(e: E.Encoder)
    requires e.Emitting() && e.Waiting() && GoodProgressive(e.scan) && e.Held() == NONE && e.pieces == []
      && !e.outOfRange
    requires e.lastDc == seq(|e.scan.components|, _ => 0) && e.progress == NoProgress(e.scan) && e.be == 0
    ensures e.Valid()
  {
  }

  /** Decode a scan over the blocks of `priors`. */
  method DecodeScan(s: Scan, ts: seq<table>, ds: seq<DDerived>, input: seq<byte>, priors: seq<seq<block>>,
      ghost mcus: seq<seq<block>>)
    returns (out: seq<seq<block>>)
    requires GoodProgressive(s) && GoodMcus(s, mcus) && SizedMcus(s, mcus) && GoodOrder(s.naturalOrder)
      && MarkerAhead(input)
    requires P.DerivedTables(ts, ds) && (ModeOf(s) == DcFirst ==> forall i :: 0 <= i < |ts| ==> GoodTable(ts[i], true))
    requires A.GoodPriors(s, priors, mcus) && ScanProgress(s, mcus).inRange
    requires P.PiecesAhead(ts, ScanPieces(s, mcus), BytesBits(Segment(input)), 0)
    ensures |out| == |priors| && A.ScanReceived(s, priors, mcus, out)
  {
    hide D.Decoder.Valid, D.Decoder.InStep, P.DerivedTables, P.PiecesAhead, AddMcu, SmallBlock, ReadyFor, GoodOrder,
      GoodTable, MarkerAhead, Segment, BytesBits,
      Rest, M.AllReceived, BlockCodes, GoodBlocks;
    ghost var all := ScanProgress(s, mcus);
    CodesAreGood(s, mcus, |mcus|);
    assert mcus[..|mcus|] == mcus;
    var d := new D.Decoder(input, s, ds, ts, all.codes);
    out := [];
    assert mcus[..0] == [];
    for m := 0 to |priors|
      invariant d.Valid() && d.InStep() && fresh(d) && fresh(d.r) && d.scan == s && d.codes == all.codes && |out| == m
      invariant d.progress == ScanProgress(s, mcus[..m]) && |d.progress.last| == |s.components|
      invariant A.ScanReceived(s, priors[..m], mcus[..m], out)
    {
      ProgressNext(s, mcus, m);
      ProgressPrefix(s, mcus, m + 1, |mcus|);
      PriorsAt(s, priors, mcus, m);
      var blocks := d.DecodeMcu(priors[m], mcus[m]);
      ReceivedMcu(s, priors[m], mcus[m], blocks);
      out := out + [blocks];
    }
    assert priors[..|priors|] == priors;
  }

  lemma PriorsAt(s: Scan, priors: seq<seq<block>>, mcus: seq<seq<block>>, m: nat)
    requires s.Se < 64 && A.GoodPriors(s, priors, mcus) && m < |mcus|
    ensures |priors[m]| == |mcus[m]|
    ensures forall i :: 0 <= i < |mcus[m]| ==> ReadyFor(s, Zigzag(priors[m][i], s.naturalOrder), mcus[m][i])
  {
    hide ReadyFor, Zigzag;
  }

  lemma ReceivedMcu(s: Scan, priors: seq<block>, mcu: seq<block>, out: seq<block>)
    requires |priors| == |mcu| == |out| && s.Ss <= s.Se < 64
    requires forall i :: 0 <= i < |mcu| ==>
      Zigzag(out[i], s.naturalOrder) == Received(s, Zigzag(priors[i], s.naturalOrder), mcu[i])
    ensures M.AllReceived(s, priors, mcu, out)
  {
    hide Zigzag, Received;
  }

  lemma {:induction false} McuCodesGrow(s: Scan, x: Progress, mcu: seq<block>)
    requires GoodProgressive(s) && |x.last| == |s.components| && |mcu| <= |s.membership|
    ensures x.codes <= AddMcu(s, x, mcu).codes && (AddMcu(s, x, mcu).inRange ==> x.inRange)
    ensures GoodBlocks(x.codes) ==> GoodBlocks(AddMcu(s, x, mcu).codes)
    decreases |mcu|
  {
    hide BlockCodes, BlockInRange, GoodBlock;
    if mcu != [] {
      var n := |mcu| - 1;
      McuCodesGrow(s, x, mcu[..n]);
      var y := AddMcu(s, x, mcu[..n]);
      BlockIsGood(s, s.components[s.membership[n]], y.last[s.membership[n]], mcu[n]);
    }
  }

  lemma {:induction false} ProgressPrefix(s: Scan, mcus: seq<seq<block>>, m: nat, n: nat)
    requires GoodProgressive(s) && SizedMcus(s, mcus) && m <= n <= |mcus|
    ensures ScanProgress(s, mcus[..m]).codes <= ScanProgress(s, mcus[..n]).codes
    ensures ScanProgress(s, mcus[..n]).inRange ==> ScanProgress(s, mcus[..m]).inRange
    decreases n
  {
    hide AddMcu, ScanProgress;
    if m < n {
      ProgressPrefix(s, mcus, m, n - 1);
      ProgressNext(s, mcus, n - 1);
      McuCodesGrow(s, ScanProgress(s, mcus[..n - 1]), mcus[n - 1]);
    }
  }

  lemma {:induction false} CodesAreGood(s: Scan, mcus: seq<seq<block>>, m: nat)
    requires GoodProgressive(s) && SizedMcus(s, mcus) && m <= |mcus|
    ensures GoodBlocks(ScanProgress(s, mcus[..m]).codes)
  {
    hide AddMcu, GoodBlock;
    if m > 0 {
      CodesAreGood(s, mcus, m - 1);
      ProgressNext(s, mcus, m - 1);
      McuCodesGrow(s, ScanProgress(s, mcus[..m - 1]), mcus[m - 1]);
    } else {
      assert mcus[..0] == [];
    }
  }

  /** The scan is received exactly when all symbols have codes and all coefficients are
      in range; otherwise the encoder reports an error. */
  method TransmitScan(s: Scan, ts: seq<table>, mcus: seq<seq<block>>, priors: seq<seq<block>>, marker: byte)
    returns (ok: bool, out: seq<seq<block>>)
    requires GoodProgressive(s) && GoodMcus(s, mcus) && GoodOrder(s.naturalOrder) && A.GoodPriors(s, priors, mcus)
    requires |ts| == NUM_HUFF_TBLS && marker != 0 && marker != 0xFF
    ensures ok <==> GoodTables(ts, s.Ss == 0) && AllCoded(ts, ScanPieces(s, mcus)) && ScanProgress(s, mcus).inRange
    ensures ok ==> |out| == |priors| && A.ScanReceived(s, priors, mcus, out)
  {
    hide GoodProgressive, GoodMcus, GoodOrder, A.GoodPriors, A.ScanReceived, GoodTable, AllCoded, PiecesBits,
      ScanPieces, ScanProgress, SizedMcus,
      E.DerivedTables, P.DerivedTables, MarkerAhead, Segment, Stuff, BytesBits, P.PiecesAhead;
    McusAreSized(s, mcus);
    ok, out := false, priors;
    var derived, cs, ds := DeriveTables(ts, s.Ss == 0);
    if derived {
      var encoded, sent, payload := EncodeScan(s, ts, cs, mcus);
      if encoded {
        UnstuffStuff(payload, marker);
        FinalMarkerIsMet(sent, marker);
        StreamHolds(s, mcus, ts, BytesBits(payload));
        DcTables(s, ts);
        out := DecodeScan(s, ts, ds, sent + [0xFF, marker], priors, mcus);
        ok := true;
      }
    }
  }

  lemma DcTables(s: Scan, ts: seq<table>)
    requires GoodTables(ts, s.Ss == 0)
    ensures ModeOf(s) == DcFirst ==> forall i :: 0 <= i < |ts| ==> GoodTable(ts[i], true)
  {
    hide GoodTable;
  }

  lemma StreamHolds(s: Scan, mcus: seq<seq<block>>, ts: seq<table>, stream: seq<bool>)
    requires GoodProgressive(s) && SizedMcus(s, mcus) && AllCoded(ts, ScanPieces(s, mcus))
    requires B.Padded(PiecesBits(ts, ScanPieces(s, mcus)), stream)
    ensures P.PiecesAhead(ts, ScanPieces(s, mcus), stream, 0)
  {
    hide Coded, PiecesBits, ScanPieces, SizedMcus;
  }

  /** One scan of an accepted progressive script, Huffman-coded, takes every coefficient
      of its components from what the decoder knew to what the scan sends. */
  method TransmitProgressive(s: Scan, info: ScanInfo, ts: seq<table>, mcus: seq<seq<block>>, held: seq<seq<block>>,
      ghost pos: seq<positions>, marker: byte) returns (ok: bool, out: seq<seq<block>>)
    requires GoodProgressive(s) && GoodMcus(s, mcus) && GoodOrder(s.naturalOrder)
    requires |ts| == NUM_HUFF_TBLS && marker != 0 && marker != 0xFF
    requires GoodParameters(info) && Progresses(s, info) && |pos| == |s.components|
    requires forall ci :: 0 <= ci < |pos| ==> ScanScript.Follows(info, pos[ci])
    requires T.KnowsAll(s, held, mcus, pos)
    ensures ok <==> GoodTables(ts, s.Ss == 0) && AllCoded(ts, ScanPieces(s, mcus)) && ScanProgress(s, mcus).inRange
    ensures ok ==> T.KnowsAll(s, out, mcus, T.SendsAll(info, pos))
  {
    hide GoodTables, AllCoded, ScanPieces, ScanProgress, SmallBlock, GoodOrder, M.AllReady, M.AllReceived, T.KnowsMcu,
      GoodParameters, ScanScript.Follows;
    forall m | 0 <= m < |mcus| ensures |held[m]| == |mcus[m]| && M.AllReady(s, held[m], mcus[m]) {
      T.SameSize(s, held[m], mcus[m], pos);
      T.McuIsReady(s, info, held[m], mcus[m], pos);
    }
    ok, out := TransmitScan(s, ts, mcus, held, marker);
    if ok {
      forall m | 0 <= m < |mcus| ensures T.KnowsMcu(s, out[m], mcus[m], T.SendsAll(info, pos)) {
        T.McuAdvances(s, info, held[m], mcus[m], out[m], pos);
      }
    }
  }
}
