/**
 A sequential scan sent by the Huffman encoder, with or without restart markers, and
 read back by the Huffman decoder.
 */
module HuffmanTransmission {
  import opened Bytes
  import opened BitStrings
  import opened BitWriter
  import opened CanonicalCode
  import opened HuffmanTables
  import opened ScanSetup
  import opened HuffmanModel
  import opened RestartSegments
  import E = HuffmanEncoder
  import D = HuffmanDecoder

  /** The encoder's tables, if all of them are legal. */
  method DeriveEncoderTables(ts: HuffTables) returns (ok: bool, dc: seq<CDerived>, ac: seq<CDerived>)
    requires |ts.dc| == NUM_HUFF_TBLS && |ts.ac| == NUM_HUFF_TBLS
    ensures ok == GoodTables(ts)
    ensures ok ==> |dc| == NUM_HUFF_TBLS && |ac| == NUM_HUFF_TBLS && forall i :: 0 <= i < NUM_HUFF_TBLS ==> (
      && CodeCount(ts.dc[i]) <= 256 && Encodes(ts.dc[i], dc[i])
      && CodeCount(ts.ac[i]) <= 256 && Encodes(ts.ac[i], ac[i]))
  {
    hide ValidSymbols, Encodes, Legal, Start;
    dc, ac := [], [];
    for i := 0 to NUM_HUFF_TBLS
      invariant |dc| == i && |ac| == i
      invariant forall j :: 0 <= j < i ==> GoodTable(ts.dc[j], true) && GoodTable(ts.ac[j], false)
      invariant forall j :: 0 <= j < i ==> (
        && CodeCount(ts.dc[j]) <= 256 && Encodes(ts.dc[j], dc[j])
        && CodeCount(ts.ac[j]) <= 256 && Encodes(ts.ac[j], ac[j]))
    {
      LegalSize(ts.dc[i]);
      LegalSize(ts.ac[i]);
      var okDc, d := MakeCDerived(true, ts.dc[i]);
      if !okDc {
        return false, dc, ac;
      }
      var okAc, a := MakeCDerived(false, ts.ac[i]);
      if !okAc {
        return false, dc, ac;
      }
      dc, ac := dc + [d], ac + [a];
    }
    ok := true;
  }

  lemma LegalSize(t: table)
    ensures Legal(t.bits) ==> CodeCount(t) <= 256
  {
  }

  /** The decoder's tables; it accepts every table the encoder does. */
  method DeriveDecoderTables(ts: HuffTables) returns (dc: seq<DDerived>, ac: seq<DDerived>)
    requires GoodTables(ts)
    ensures |dc| == NUM_HUFF_TBLS && |ac| == NUM_HUFF_TBLS && forall i :: 0 <= i < NUM_HUFF_TBLS ==> (
      && CodeCount(ts.dc[i]) <= 256 && Decodes(ts.dc[i], dc[i])
      && CodeCount(ts.ac[i]) <= 256 && Decodes(ts.ac[i], ac[i]))
  {
    hide Decodes, Legal, Start;
    dc, ac := [], [];
    for i := 0 to NUM_HUFF_TBLS
      invariant |dc| == i && |ac| == i
      invariant forall j :: 0 <= j < i ==> (
        && CodeCount(ts.dc[j]) <= 256 && Decodes(ts.dc[j], dc[j])
        && CodeCount(ts.ac[j]) <= 256 && Decodes(ts.ac[j], ac[j]))
    {
      assert GoodTable(ts.dc[i], true) && GoodTable(ts.ac[i], false);
      LegalSize(ts.dc[i]);
      LegalSize(ts.ac[i]);
      var okDc, d := MakeDDerived(true, ts.dc[i]);
      var okAc, a := MakeDDerived(false, ts.ac[i]);
      dc, ac := dc + [d], ac + [a];
    }
  }

  /** Encode a scan: start_pass, encode_mcu for every MCU, finish_pass. */
  method EncodeScan(s: HuffScan, ts: HuffTables, dc: seq<CDerived>, ac: seq<CDerived>, mcus: seq<seq<block>>)
    returns (sent: seq<byte>, ghost segs: seq<seq<byte>>)
    requires GoodHuffScan(s) && GoodHuffMcus(s, mcus) && GoodTables(ts) && ScanSendable(ts, ScanSent(s, mcus))
    requires |dc| == NUM_HUFF_TBLS && |ac| == NUM_HUFF_TBLS && forall i :: 0 <= i < NUM_HUFF_TBLS ==> (
      && CodeCount(ts.dc[i]) <= 256 && Encodes(ts.dc[i], dc[i])
      && CodeCount(ts.ac[i]) <= 256 && Encodes(ts.ac[i], ac[i]))
    ensures D.SegmentsHold(ts, ScanSent(s, mcus), segs) && segs != []
    ensures sent == Spliced(segs[..|segs| - 1]) + Stuff(segs[|segs| - 1])
  {
    hide E.Encoder.Valid, GoodHuffScan, GoodTables, Encodes, ScanSendable, D.SegmentsHold, Spliced, Stuff, ScanSent,
      Extended, Restarted, EarlierStage;
    var e := new E.Encoder(s, dc, ac, ts);
    assert mcus[..0] == [];
    for m := 0 to |mcus|
      invariant e.Valid() && fresh(e) && fresh(e.w) && e.scan == s && e.tables == ts
      invariant e.mcuCount == m && e.sent == ScanSent(s, mcus[..m])
    {
      ScanSentNext(s, mcus, m);
      ScanStages(s, mcus, m + 1);
      EarlierSendable(ts, ScanSent(s, mcus[..m + 1]), ScanSent(s, mcus));
      e.EncodeMcu(mcus[m]);
    }
    assert mcus[..|mcus|] == mcus;
    sent, segs := e.FinishPass();
    Holds(ts, ScanSent(s, mcus), segs);
  }

  lemma Holds(ts: HuffTables, x: Sent, segs: seq<seq<byte>>)
    requires ScanSendable(ts, x) && |segs| == |x.intervals|
    requires forall i :: 0 <= i < |segs| ==> Padded(TokensBits(ts, x.intervals[i]), BytesBits(segs[i]))
    ensures D.SegmentsHold(ts, x, segs)
  {
  }

  function BlankMcu(s: HuffScan): (b: seq<block>)
    ensures |b| == |s.membership| && D.AllBlank(b)
  {
    seq(|s.membership|, _ => Blank())
  }

  /** Decode the scan from zeroed blocks. */
  method DecodeScan(s: HuffScan, ts: HuffTables, dc: seq<DDerived>, ac: seq<DDerived>, input: seq<byte>,
      ghost mcus: seq<seq<block>>, ghost segs: seq<seq<byte>>, ghost marker: byte,
        count: nat) returns (out: seq<seq<block>>)
    requires GoodHuffScan(s) && GoodHuffMcus(s, mcus) && GoodTables(ts) && GoodOrder(s.naturalOrder) && count == |mcus|
    requires forall m, i :: 0 <= m < |mcus| && 0 <= i < |mcus[m]| ==> SmallBlock(mcus[m][i])
    requires |dc| == NUM_HUFF_TBLS && |ac| == NUM_HUFF_TBLS && forall i :: 0 <= i < NUM_HUFF_TBLS ==> (
      && CodeCount(ts.dc[i]) <= 256 && Decodes(ts.dc[i], dc[i])
      && CodeCount(ts.ac[i]) <= 256 && Decodes(ts.ac[i], ac[i]))
    requires EndsProperly(input) && D.HoldsScan(ts, s, ScanSent(s, mcus), segs, marker, input)
    ensures out == mcus
  {
    hide D.Decoder.Valid, D.Decoder.InStep, GoodHuffScan, GoodTables, GoodOrder, Decodes, ScanSendable,
      D.SegmentsHold, ScanSent,
      Extended, Restarted, EarlierStage, D.HoldsScan, EndsProperly, SmallBlock, D.AllBlank;
    ghost var total := ScanSent(s, mcus);
    var d := new D.Decoder(input, s, dc, ac, ts, total, segs, marker);
    assert mcus[..0] == [];
    out := [];
    for m := 0 to count
      invariant d.Valid() && d.InStep() && fresh(d) && fresh(d.r) && d.scan == s && d.total == total
      invariant d.mcuCount == m && d.sent == ScanSent(s, mcus[..m]) && out == mcus[..m]
    {
      ScanSentNext(s, mcus, m);
      ScanStages(s, mcus, m + 1);
      var blocks := d.DecodeMcu(BlankMcu(s), mcus[m]);
      out := out + [blocks];
    }
    assert mcus[..|mcus|] == mcus;
  }

  /** Whatever can be sent at all is received unchanged, for every restart interval:
      every scan whose symbols have codes and whose magnitudes are at most 15. */
  method TransmitScan(s: HuffScan, ts: HuffTables, mcus: seq<seq<block>>, marker: byte)
    returns (ok: bool, out: seq<seq<block>>)
    requires GoodHuffScan(s) && GoodHuffMcus(s, mcus) && GoodOrder(s.naturalOrder)
    requires |ts.dc| == NUM_HUFF_TBLS && |ts.ac| == NUM_HUFF_TBLS
    requires forall m, i :: 0 <= m < |mcus| && 0 <= i < |mcus[m]| ==> SmallBlock(mcus[m][i])
    requires ScanSendable(ts, ScanSent(s, mcus))
    requires marker != 0 && marker != 0xFF && !IsRestart(marker)
    ensures ok == GoodTables(ts)
    ensures ok ==> out == mcus
  {
    hide GoodHuffScan, GoodTables, GoodOrder, Encodes, Decodes, ScanSendable, D.SegmentsHold, Spliced,
      SegmentsFrom, ScanSent,
      EarlierStage, EndsProperly, SmallBlock, Stuff;
    var okTables, dc, ac := DeriveEncoderTables(ts);
    if !okTables {
      return false, [];
    }
    var sent, segs := EncodeScan(s, ts, dc, ac, mcus);
    OutputThenMarker(segs, sent, marker);
    SegmentsEndProperly(segs, 0, marker);
    ScanStages(s, mcus, 0);
    assert mcus[..0] == [];
    var ddc, dac := DeriveDecoderTables(ts);
    out := DecodeScan(s, ts, ddc, dac, sent + [0xFF, marker], mcus, segs, marker, |mcus|);
    ok := true;
  }
}
