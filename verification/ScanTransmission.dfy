/**
 A scan sent by the arithmetic encoder and read by the arithmetic decoder: what the
 decoder's blocks hold afterwards, for sequential scans and for the scans of a
 progressive script.
 */
module ScanTransmission {
  import opened Bytes
  import opened IntervalCoder
  import opened CoefficientModel
  import opened ScanSetup
  import opened ScanScript
  import opened ArithMcuDecoder
  import opened ArithScan
  import Nonlinear

  /** The decoder reads the encoder's bytes and any marker after them. */
  method TransmitScan(s: Scan, mcus: seq<seq<block>>, priors: seq<seq<block>>, marker: byte)
    returns (ok: bool, out: seq<seq<block>>)
    requires GoodScan(s) && GoodMcus(s, mcus) && GoodOrder(s.naturalOrder) && GoodPriors(s, priors, mcus)
    requires marker != 0 && marker != 0xFF
    ensures ok == Decodable(s, mcus) && |out| == |priors|
    ensures ok ==> ScanReceived(s, priors, mcus, out)
  {
    hide GoodScan, GoodMcus, GoodPriors, GoodOrder, Sent, Decodable, ScanReceived, Inside, Run, MarkerAhead, Segment,
      Stuff;
    var sent, p := EncodeScan(s, mcus);
    UnstuffStuff(p, marker);
    FinalMarkerIsMet(sent, marker);
    ok, out := DecodeScan(s, sent + [0xFF, marker], priors, mcus);
  }

  // ----- sequential scans

  function BlankMcus(mcus: seq<seq<block>>): (priors: seq<seq<block>>)
    ensures |priors| == |mcus|
  {
    seq(|mcus|, m requires 0 <= m < |mcus| => seq(|mcus[m]|, _ => Blank()))
  }

  lemma NoShift(c: int)
    ensures c * Pow2(0) == c && c / Pow2(0) == c
  {
  }

  lemma SequentialBlock(s: Scan, b: block, out: block)
    requires s.Ss <= s.Se < 64 && ModeOf(s) == Sequential && SmallBlock(b) && GoodOrder(s.naturalOrder)
    requires Zigzag(out, s.naturalOrder) == Received(s, Zigzag(Blank(), s.naturalOrder), b)
    ensures out == b
  {
    hide NoRepeats, Jcoef, Transformed, Pow2;
    var c, z := Zigzag(b, s.naturalOrder), Zigzag(Blank(), s.naturalOrder);
    var r := Received(s, z, b);
    forall k | 0 <= k < 64 ensures r[k] == c[k] {
      ApproxZeroBits(c[k]);
      JcoefFits(c[k]);
      NoShift(c[k]);
    }
    assert r == c;
    ZigzagInjective(out, b, s.naturalOrder);
  }

  /** A sequential scan is restored exactly, when no DC difference exceeds 2^15;
      otherwise the decoder reports the error. */
  method TransmitSequential(s: Scan, mcus: seq<seq<block>>, marker: byte) returns (ok: bool, out: seq<seq<block>>)
    requires GoodScan(s) && GoodMcus(s, mcus) && GoodOrder(s.naturalOrder) && ModeOf(s) == Sequential
    requires marker != 0 && marker != 0xFF
    ensures ok == Decodable(s, mcus)
    ensures ok ==> out == mcus
  {
    hide Decodable, SmallBlock, GoodOrder, Received;
    var priors := BlankMcus(mcus);
    ok, out := TransmitScan(s, mcus, priors, marker);
    if ok {
      forall m | 0 <= m < |mcus| ensures out[m] == mcus[m] {
        forall i | 0 <= i < |mcus[m]| ensures out[m][i] == mcus[m][i] {
          SequentialBlock(s, mcus[m][i], out[m][i]);
        }
      }
    }
  }

  // ----- when every DC difference fits

  /** Bound that keeps any two DC values within 2^15 of each other. */
  predicate SmallDc(b: block)
  {
    -0x4000 <= b[0] <= 0x4000
  }

  predicate SmallPredictions(ps: seq<Prediction>)
  {
    forall i :: 0 <= i < |ps| ==> -0x4000 <= ps[i].last <= 0x4000
  }

  lemma SmallDcValue(s: Scan, b: block)
    requires SmallDc(b)
    ensures -0x4000 <= DcValue(s, b) <= 0x4000
  {
    if b[0] < 0x4000 {
      FloorFits(b[0], Pow2(s.Al), 0x4000);
    } else {
      Nonlinear.QuotientBound(b[0], Pow2(s.Al));
    }
  }

  lemma {:induction false} SmallMcu(s: Scan, ps: seq<Prediction>, mcu: seq<block>)
    requires GoodScan(s) && |ps| == |s.components| && |mcu| <= |s.membership| && SmallPredictions(ps)
    requires forall i :: 0 <= i < |mcu| ==> SmallDc(mcu[i])
    ensures McuFits(s, ps, mcu) && SmallPredictions(AfterMcu(s, ps, mcu))
    decreases |mcu|
  {
    hide SmallDc, DcValue, NextContext;
    if mcu != [] {
      var n := |mcu| - 1;
      SmallMcu(s, ps, mcu[..n]);
      SmallDcValue(s, mcu[n]);
    }
  }

  /** DC values of at most 2^14 in size can always be decoded. */
  lemma {:induction false} SmallDcDecodable(s: Scan, ps: seq<Prediction>, mcus: seq<seq<block>>)
    requires GoodScan(s) && |ps| == |s.components| && GoodMcus(s, mcus) && SmallPredictions(ps)
    requires forall m, i :: 0 <= m < |mcus| && 0 <= i < |mcus[m]| ==> SmallDc(mcus[m][i])
    ensures ScanFits(s, ps, mcus) && SmallPredictions(AfterScan(s, ps, mcus))
    decreases |mcus|
  {
    hide SmallDc, SmallBlock, SmallPredictions, McuFits, AfterMcu;
    if mcus != [] {
      var n := |mcus| - 1;
      SmallDcDecodable(s, ps, mcus[..n]);
      SmallMcu(s, AfterScan(s, ps, mcus[..n]), mcus[n]);
    }
  }

  /** Two MCUs of one component whose DC values are the largest and the smallest. */
  function FarApart(): seq<seq<block>>
  {
    [[Blank()[0 := 0x7FFF]], [Blank()[0 := -0x8000]]]
  }

  function OneComponent(o: order): Scan
  {
    Scan(false, [Component(0, 0)], [0], seq(NUM_ARITH_TBLS, _ => DcConditioning(0, 1)), seq(NUM_ARITH_TBLS, _ => 5),
      0, 63, 0, 0, o)
  }

  /** The encoder sends them, and the decoder reports an error. */
  lemma FarApartFails(o: order)
    ensures GoodScan(OneComponent(o)) && GoodMcus(OneComponent(o), FarApart())
    ensures ModeOf(OneComponent(o)) == Sequential && !Decodable(OneComponent(o), FarApart())
  {
    var s, mcus, ps := OneComponent(o), FarApart(), NoPredictions(OneComponent(o));
    var nothing: seq<seq<block>>, empty: seq<block> := [], [];
    AreSmall();
    assert mcus[..1][..0] == nothing && mcus[..1] == [mcus[0]];
    assert mcus[0][..0] == empty && mcus[1][..0] == empty;
    assert AfterMcu(s, ps, mcus[0])[0].last == 0x7FFF;
    assert AfterScan(s, ps, mcus[..1]) == AfterMcu(s, AfterScan(s, ps, mcus[..1][..0]), mcus[0]);
    assert !DcFits(s, AfterMcu(s, AfterScan(s, ps, mcus[..1]), mcus[1][..0])[0], mcus[1][0]);
  }

  lemma AreSmall()
    ensures forall m, i :: 0 <= m < 2 && 0 <= i < |FarApart()[m]| ==> SmallBlock(FarApart()[m][i])
  {
  }

  // ----- progressive scans

  /** What the decoder knows of every block of a scan: pos[ci] is the progress of
      component ci of the scan. */
  predicate KnowsAll(s: Scan, held: seq<seq<block>>, mcus: seq<seq<block>>, pos: seq<positions>)
    requires |pos| == |s.components| && GoodMcus(s, mcus)
  {
    && |held| == |mcus|
    && forall m :: 0 <= m < |mcus| ==> KnowsMcu(s, held[m], mcus[m], pos)
  }

  predicate KnowsMcu(s: Scan, held: seq<block>, mcu: seq<block>, pos: seq<positions>)
    requires |pos| == |s.components| && |mcu| == |s.membership|
  {
    && |held| == |mcu|
    && (forall i :: 0 <= i < |mcu| ==> (
      && s.membership[i] < |pos|
      && Knows(Zigzag(held[i], s.naturalOrder), Zigzag(mcu[i], s.naturalOrder), pos[s.membership[i]])))
  }

  function SendsAll(info: ScanInfo, pos: seq<positions>): (r: seq<positions>)
    ensures |r| == |pos|
  {
    seq(|pos|, ci requires 0 <= ci < |pos| => Sends(info, pos[ci]))
  }

  lemma McuIsReady(s: Scan, info: ScanInfo, held: seq<block>, mcu: seq<block>, pos: seq<positions>)
    requires |pos| == |s.components| && |mcu| == |s.membership| && KnowsMcu(s, held, mcu, pos)
    requires GoodParameters(info) && Progresses(s, info) && GoodOrder(s.naturalOrder)
    requires forall ci :: 0 <= ci < |pos| ==> ScanScript.Follows(info, pos[ci])
    requires forall i :: 0 <= i < |mcu| ==> SmallBlock(mcu[i])
    ensures s.Se < 64 && AllReady(s, held, mcu)
  {
    assert s.Se < 64;
    hide Knows, GoodParameters, ScanScript.Follows, SmallBlock, GoodOrder, ReadyFor, Received;
    forall i | 0 <= i < |mcu| ensures ReadyFor(s, Zigzag(held[i], s.naturalOrder), mcu[i]) {
      ScanAdvances(s, info, Zigzag(held[i], s.naturalOrder), mcu[i], pos[s.membership[i]]);
    }
  }

  lemma McuAdvances(s: Scan, info: ScanInfo, held: seq<block>, mcu: seq<block>, out: seq<block>, pos: seq<positions>)
    requires |pos| == |s.components| && |mcu| == |s.membership| && KnowsMcu(s, held, mcu, pos)
    requires GoodParameters(info) && Progresses(s, info) && GoodOrder(s.naturalOrder)
    requires forall ci :: 0 <= ci < |pos| ==> ScanScript.Follows(info, pos[ci])
    requires forall i :: 0 <= i < |mcu| ==> SmallBlock(mcu[i])
    requires |out| == |mcu| && s.Ss <= s.Se < 64 && AllReceived(s, held, mcu, out)
    ensures KnowsMcu(s, out, mcu, SendsAll(info, pos))
  {
    hide Knows, GoodParameters, ScanScript.Follows, SmallBlock, GoodOrder, ReadyFor, Received, Sends;
    forall i | 0 <= i < |mcu|
      ensures Knows(Zigzag(out[i], s.naturalOrder), Zigzag(mcu[i], s.naturalOrder), Sends(info, pos[s.membership[i]]))
    {
      ScanAdvances(s, info, Zigzag(held[i], s.naturalOrder), mcu[i], pos[s.membership[i]]);
    }
  }

  /** One scan of an accepted progressive script takes every coefficient of its
      components from what the decoder knew to what the scan sends. */
  method TransmitProgressive(s: Scan, info: ScanInfo, mcus: seq<seq<block>>, held: seq<seq<block>>,
      ghost pos: seq<positions>, marker: byte) returns (ok: bool, out: seq<seq<block>>)
    requires GoodScan(s) && GoodMcus(s, mcus) && GoodOrder(s.naturalOrder) && marker != 0 && marker != 0xFF
    requires GoodParameters(info) && Progresses(s, info) && |pos| == |s.components|
    requires forall ci :: 0 <= ci < |pos| ==> ScanScript.Follows(info, pos[ci])
    requires KnowsAll(s, held, mcus, pos)
    ensures ok == Decodable(s, mcus)
    ensures ok ==> KnowsAll(s, out, mcus, SendsAll(info, pos))
  {
    hide Decodable, SmallBlock, GoodOrder, AllReady, AllReceived, KnowsMcu, GoodParameters, ScanScript.Follows;
    forall m | 0 <= m < |mcus| ensures |held[m]| == |mcus[m]| && AllReady(s, held[m], mcus[m]) {
      assert KnowsMcu(s, held[m], mcus[m], pos);
      SameSize(s, held[m], mcus[m], pos);
      McuIsReady(s, info, held[m], mcus[m], pos);
    }
    ok, out := TransmitScan(s, mcus, held, marker);
    if ok {
      forall m | 0 <= m < |mcus| ensures KnowsMcu(s, out[m], mcus[m], SendsAll(info, pos)) {
        McuAdvances(s, info, held[m], mcus[m], out[m], pos);
      }
    }
  }

  lemma SameSize(s: Scan, held: seq<block>, mcu: seq<block>, pos: seq<positions>)
    requires |pos| == |s.components| && |mcu| == |s.membership| && KnowsMcu(s, held, mcu, pos)
    ensures |held| == |mcu|
  {
  }
}
