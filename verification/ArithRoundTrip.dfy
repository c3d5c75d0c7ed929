/**
 What the arithmetic coder promises: terminated output is the shortest that still
 lies in the coding interval, and the decoder recovers every decision from it,
 ending with the encoder's statistics bins.
 */
module ArithRoundTrip {
  import opened Bytes
  import opened AritTable
  import opened IntervalCoder
  import opened ArithEncoder
  import opened ArithDecoder
  import opened Nonlinear

  predicate InInterval(iv: Interval, v: nat)
  {
    iv.low <= v < iv.low + iv.range
  }

  /** The terminator is in the interval, and any power of two that divides some
      number there divides it too. */
  lemma TerminatorHasMostTrailingZeros(iv: Interval, v: nat, t: nat)
    requires Normal(iv)
    ensures InInterval(iv, Terminator(iv))
    ensures InInterval(iv, v) && v % Pow2(t) == 0 ==> Terminator(iv) % Pow2(t) == 0
  {
    var f := Terminator(iv);
    assert f % 0x8000 == 0;
    if t <= 15 {
      assert 0x8000 == Pow2(t) * Pow2(15 - t) by { Pow2Add(t, 15 - t); Pow2Values(); }
      MultipleOfFactor(f, Pow2(t), Pow2(15 - t));
    } else if InInterval(iv, v) && v % Pow2(t) == 0 {
      assert Pow2(t) == 0x10000 * Pow2(t - 16) by { Pow2Add(16, t - 16); Pow2Values(); }
      MultipleOfFactor(v, 0x10000, Pow2(t - 16));
      OnlyMultiple(iv, v);
    }
  }

  lemma OnlyMultiple(iv: Interval, v: nat)
    requires Normal(iv) && InInterval(iv, v) && v % 0x10000 == 0
    ensures Terminator(iv) == v
  {
  }

  lemma MultipleOfFactor(v: nat, m: nat, n: nat)
    requires 0 < m && 0 < n && 0 < m * n && v % (m * n) == 0
    ensures v % m == 0
  {
    var q := v / (m * n);
    Reassociate(m, n, q);
    DivisionUnique(v, m, n * q, 0);
  }

  lemma TerminatorIsInside(p: seq<byte>, iv: Interval)
    requires Normal(iv) && Spells(p, Terminator(iv), iv.shifts)
    ensures Inside(p, iv)
  {
    TerminatorHasMostTrailingZeros(iv, 0, 0);
    var f, k := Terminator(iv), Pow2(8 * |p|);
    MulMonotone(iv.low, f, k);
    MulStrict(f, iv.low + iv.range, k);
  }

  /** Output without a final zero byte is the shortest that spells its number; any
      other spelling only adds zero bytes. */
  lemma ShortestSpelling(p: seq<byte>, q: seq<byte>, v: nat, shifts: nat)
    requires Spells(p, v, shifts) && NoFinalZero(p) && Spells(q, v, shifts)
    ensures |p| <= |q| && q == p + Repeat(0, |q| - |p|)
  {
    if |q| < |p| {
      LongerEndsInZero(q, p, v, shifts);
    }
    SameSpelling(p, q, v, shifts);
  }

  lemma LongerEndsInZero(p: seq<byte>, q: seq<byte>, v: nat, shifts: nat)
    requires |p| < |q| && Spells(p, v, shifts) && Spells(q, v, shifts)
    ensures q[|q| - 1] == 0
  {
    SameSpelling(p, q, v, shifts);
  }

  lemma SameSpelling(p: seq<byte>, q: seq<byte>, v: nat, shifts: nat)
    requires |p| <= |q| && Spells(p, v, shifts) && Spells(q, v, shifts)
    ensures q == p + Repeat(0, |q| - |p|)
  {
    var n := |q| - |p|;
    var padded := p + Repeat(0, n);
    var e, k, z := Pow2(16 + shifts), Pow2(8 * |p|), Pow2(8 * n);
    BigEndianConcat(p, Repeat(0, n));
    BigEndianZeros(n);
    Pow2Add(8 * |p|, 8 * n);
    Reassociate(BigEndian(p), e, z);
    Reassociate(v, k, z);
    Cancel(BigEndian(q), BigEndian(padded), e);
    BigEndianInjective(q, padded);
  }

  // ----- decoding undoes encoding

  /** The bits the decoder reads when it is asked for the bins ctxs in turn. */
  function DecodeAll(p: seq<byte>, s: Coder, ctxs: seq<nat>): (r: (seq<bool>, Coder))
    requires Ready(s) && forall i :: 0 <= i < |ctxs| ==> ctxs[i] < |s.bins|
    decreases |ctxs|
  {
    if ctxs == [] then ([], s)
    else
      var bit := Decoded(p, s, ctxs[0]);
      var rest := DecodeAll(p, Code(s, ctxs[0], bit), ctxs[1..]);
      ([bit] + rest.0, rest.1)
  }

  function Contexts(ds: seq<Decision>): seq<nat>
  {
    seq(|ds|, i requires 0 <= i < |ds| => ds[i].ctx)
  }

  function Bits(ds: seq<Decision>): seq<bool>
  {
    seq(|ds|, i requires 0 <= i < |ds| => ds[i].bit)
  }

  lemma {:induction false} DecodeUndoesRun(p: seq<byte>, s: Coder, ds: seq<Decision>)
    requires Ready(s) && InBins(ds, |s.bins|) && Inside(p, Run(s, ds).iv)
    ensures DecodeAll(p, s, Contexts(ds)) == (Bits(ds), Run(s, ds))
    decreases |ds|
  {
    if ds == [] {
      assert Contexts(ds) == [] && Bits(ds) == [];
    } else {
      var next := Code(s, ds[0].ctx, ds[0].bit);
      RunNests(p, next, ds[1..]);
      CodeKeeps(p, s, ds[0].ctx, ds[0].bit);
      DecodeUndoesRun(p, next, ds[1..]);
      assert Contexts(ds)[1..] == Contexts(ds[1..]);
      assert Bits(ds) == [ds[0].bit] + Bits(ds[1..]);
    }
  }

  function FreshCoder(binCount: nat): (s: Coder)
    ensures Ready(s) && |s.bins| == binCount
  {
    Coder(WHOLE, Repeat(0, binCount), ARITAB)
  }

  method EncodeAll(e: Encoder, ds: seq<Decision>)
    requires e.Valid() && InBins(ds, e.bins.Length)
    modifies e, e.bins
    ensures e.Valid() && e.State() == Run(old(e.State()), ds)
  {
    hide Encoder.Valid, Encoder.State, Code;
    ghost var start := e.State();
    for i := 0 to |ds|
      invariant e.Valid()
      invariant Run(e.State(), ds[i..]) == Run(start, ds)
    {
      assert ds[i..][1..] == ds[i + 1..];
      e.ArithEncode(ds[i].ctx, ds[i].bit);
    }
  }

  lemma DecodeStep(p: seq<byte>, s: Coder, ctxs: seq<nat>, i: nat)
    requires Ready(s) && i < |ctxs| && forall j :: 0 <= j < |ctxs| ==> ctxs[j] < |s.bins|
    ensures var bit := Decoded(p, s, ctxs[i]);
      var rest := DecodeAll(p, Code(s, ctxs[i], bit), ctxs[i + 1..]);
      DecodeAll(p, s, ctxs[i..]) == ([bit] + rest.0, rest.1)
  {
    assert ctxs[i..][1..] == ctxs[i + 1..];
  }

  method DecodeContexts(d: Decoder, ctxs: seq<nat>) returns (bits: seq<bool>)
    requires d.Valid() && forall i :: 0 <= i < |ctxs| ==> ctxs[i] < d.bins.Length
    modifies d, d.bins
    ensures d.Valid() && (bits, d.State()) == DecodeAll(d.code, old(d.State()), ctxs)
  {
    hide Decoder.Valid, Decoder.State, Decoded, Code;
    ghost var all := DecodeAll(d.code, d.State(), ctxs);
    bits := [];
    assert ctxs[0..] == ctxs && ctxs[|ctxs|..] == [];
    for i := 0 to |ctxs|
      invariant d.Valid()
      invariant all.0 == bits + DecodeAll(d.code, d.State(), ctxs[i..]).0
      invariant all.1 == DecodeAll(d.code, d.State(), ctxs[i..]).1
    {
      DecodeStep(d.code, d.State(), ctxs, i);
      var bit := d.ArithDecode(ctxs[i]);
      bits := bits + [bit];
    }
    assert bits + [] == bits;
  }

  /** The registers, the carries, the stuffing and the dropped zeros cancel out: what
      the encoder object writes, followed by any marker, the decoder object reads back. */
  method EncodeThenDecode(ds: seq<Decision>, binCount: nat, marker: byte)
    returns (bits: seq<bool>, sent: seq<byte>, sentBins: seq<byte>, readBins: seq<byte>)
    requires InBins(ds, binCount) && marker != 0 && marker != 0xFF
    ensures bits == Bits(ds) && readBins == sentBins
    ensures forall i :: 0 <= i < |sent| && sent[i] == 0xFF ==> i + 1 < |sent| && sent[i + 1] == 0
    ensures sent != [] && sent[|sent| - 1] == 0 ==> |sent| >= 2 && sent[|sent| - 2] == 0xFF
  {
    hide Run, Stuff, Segment, MarkerAhead, DecodeAll, Spells, Terminator, NoFinalZero, Inside, Normalise;
    var e := new Encoder(binCount);
    EncodeAll(e, ds);
    ghost var coded := e.State();
    sentBins := e.bins[..];
    e.FinishPass();
    sent := e.out;
    ghost var p := e.payload;
    TerminatorIsInside(p, coded.iv);
    SegmentShape(p);
    UnstuffStuff(p, marker);
    FinalMarkerIsMet(sent, marker);
    DecodeUndoesRun(p, FreshCoder(binCount), ds);
    var d := new Decoder(sent + [0xFF, marker], binCount);
    bits := DecodeContexts(d, Contexts(ds));
    readBins := d.bins[..];
  }

  lemma SegmentShape(p: seq<byte>)
    requires NoFinalZero(p)
    ensures var s := Stuff(p);
      && (forall i :: 0 <= i < |s| && s[i] == 0xFF ==> i + 1 < |s| && s[i + 1] == 0)
      && (s != [] && s[|s| - 1] == 0 ==> |s| >= 2 && s[|s| - 2] == 0xFF)
  {
    var s := Stuff(p);
    forall i | 0 <= i < |s| && s[i] == 0xFF ensures i + 1 < |s| && s[i + 1] == 0 {
      StuffedFFs(p, i);
    }
  }
}
