/**
 Whole arithmetic-coded scans: the bytes one side writes rebuild every block on
 the other side.
 */
module ArithScan {
  import opened Bytes
  import opened IntervalCoder
  import opened CoefficientModel
  import opened ScanSetup
  import opened ArithEncoder
  import opened ArithMcuEncoder
  import opened ArithMcuDecoder

  function NoPredictions(s: Scan): (ps: seq<Prediction>)
    ensures |ps| == |s.components|
  {
    seq(|s.components|, _ => Prediction(0, 0))
  }

  lemma FreshPredictions(s: Scan)
    ensures PairUp(seq(|s.components|, _ => 0), seq(|s.components|, _ => 0)) == NoPredictions(s)
  {
  }

  /** The decisions a scan sends. */
  function Sent(s: Scan, mcus: seq<seq<block>>): seq<Decision>
    requires GoodScan(s) && GoodMcus(s, mcus)
  {
    ScanDecisions(s, NoPredictions(s), mcus)
  }

  /** Every DC difference of the scan is at most 2^15 in size. */
  predicate Decodable(s: Scan, mcus: seq<seq<block>>)
    requires GoodScan(s) && GoodMcus(s, mcus)
  {
    ScanFits(s, NoPredictions(s), mcus)
  }

  predicate GoodPriors(s: Scan, priors: seq<seq<block>>, mcus: seq<seq<block>>)
    requires s.Se < 64
  {
    |priors| == |mcus| && forall m :: 0 <= m < |mcus| ==> |priors[m]| == |mcus[m]| && AllReady(s, priors[m], mcus[m])
  }

  predicate ScanReceived(s: Scan, priors: seq<seq<block>>, mcus: seq<seq<block>>, out: seq<seq<block>>)
    requires s.Ss <= s.Se < 64 && |priors| == |mcus| == |out|
  {
    forall m :: 0 <= m < |mcus| ==>
      |priors[m]| == |mcus[m]| == |out[m]| && AllReceived(s, priors[m], mcus[m], out[m])
  }

  /** Encode a scan: start_pass, encode_mcu for every MCU, finish_pass. */
  method EncodeScan(s: Scan, mcus: seq<seq<block>>) returns (sent: seq<byte>, ghost p: seq<byte>)
    requires GoodScan(s) && GoodMcus(s, mcus)
    ensures sent == Stuff(p) && NoFinalZero(p)
    ensures InBins(Sent(s, mcus), BIN_COUNT) && Inside(p, Run(InitialCoder(), Sent(s, mcus)).iv)
  {
    hide McuEncoder.Coding, McuDecisions, AfterMcu, PairUp, Inside, Run;
    var e := new McuEncoder(s);
    FreshPredictions(s);
    ghost var ps := NoPredictions(s);
    for m := 0 to |mcus|
      invariant e.Valid() && fresh(e) && fresh(e.coder) && fresh(e.coder.bins) && e.scan == s
        && e.start == InitialCoder()
      invariant e.log == ScanDecisions(s, ps, mcus[..m]) && e.Preds() == AfterScan(s, ps, mcus[..m])
      invariant SendsDc(s) ==> forall ci :: 0 <= ci < |e.lastDc| ==> -0x8000 <= e.lastDc[ci] < 0x8000
    {
      assert mcus[..m + 1][..m] == mcus[..m];
      e.EncodeMcu(mcus[m]);
    }
    assert mcus[..|mcus|] == mcus;
    sent, p := e.FinishPass();
  }

  /** Decode a scan over the blocks of `priors`. */
  method DecodeScan(s: Scan, input: seq<byte>, priors: seq<seq<block>>, ghost mcus: seq<seq<block>>)
    returns (ok: bool, out: seq<seq<block>>)
    requires GoodScan(s) && GoodMcus(s, mcus) && GoodOrder(s.naturalOrder) && MarkerAhead(input)
    requires GoodPriors(s, priors, mcus)
    requires InBins(Sent(s, mcus), BIN_COUNT) && Inside(Segment(input), Run(InitialCoder(), Sent(s, mcus)).iv)
    ensures ok == Decodable(s, mcus) && |out| == |priors|
    ensures ok ==> ScanReceived(s, priors, mcus, out)
  {
    hide McuDecoder.Coding, McuDecisions, McuFits, AfterMcu, PairUp, Inside, Run, AllReady, AllReceived, SmallBlock,
      MarkerAhead, Segment, GoodOrder, DcFits,
      ScanDecisions, AfterScan, ScanFits;
    ghost var ds, ps := Sent(s, mcus), NoPredictions(s);
    var d := new McuDecoder(input, s, ds);
    FreshPredictions(s);
    ScanStart(s, ps);
    assert mcus[..0] == [];
    out := [];
    for m := 0 to |priors|
      invariant d.Predictions() && d.Coding() && fresh(d) && fresh(d.coder) && fresh(d.coder.bins)
      invariant d.scan == s && d.sent == ds && |out| == m
      invariant d.failed == !ScanFits(s, ps, mcus[..m])
      invariant !d.failed ==> d.log == ScanDecisions(s, ps, mcus[..m]) && d.Preds() == AfterScan(s, ps, mcus[..m])
      invariant !d.failed ==> ScanReceived(s, priors[..m], mcus[..m], out)
    {
      ScanPrefix(s, ps, mcus, m + 1);
      ScanNext(s, ps, mcus, m);
      assert !d.failed ==> d.Follows(McuDecisions(s, d.Preds(), mcus[m]));
      var blocks := d.DecodeMcu(priors[m], mcus[m]);
      out := out + [blocks];
    }
    ok := !d.failed;
    assert mcus[..|mcus|] == mcus && priors[..|priors|] == priors;
  }
}
