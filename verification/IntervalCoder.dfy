/**
 Binary arithmetic coding in exact arithmetic: the reference both coders are
 proved against.  A coder narrows an interval of numbers; there are no
 registers, no carries and no bytes here.
 */
module IntervalCoder {
  import opened Bytes
  import opened AritTable
  import opened ByteBits

  /** The numbers x with low <= x * 2^(16 + shifts) < low + range, for x in [0, 1). */
  datatype Interval = Interval(low: nat, range: nat, shifts: nat)

  /** The interval, all statistics bins and the estimation table in force. */
  datatype Coder = Coder(iv: Interval, bins: seq<byte>, rows: table)

  const WHOLE := Interval(0, 0x10000, 0)

  predicate Normal(iv: Interval)
  {
    0x8000 <= iv.range <= 0x10000
  }

  predicate GoodBins(bins: seq<byte>)
  {
    forall i :: 0 <= i < |bins| ==> bins[i] % 0x80 < STATES
  }

  ghost predicate Ready(s: Coder)
  {
    Normal(s.iv) && GoodBins(s.bins)
  }

  function Mps(bin: byte): bool
  {
    bin / 0x80 == 1
  }

  function Bin(sense: nat, index: nat): (bin: byte)
    requires sense < 2 && index < STATES
    ensures bin / 0x80 == sense && bin % 0x80 == index
  {
    sense * 0x80 + index
  }

  /** The bin after coding a more (or less) probable symbol. */
  function Adapted(bin: byte, r: row, likely: bool): (next: byte)
    ensures next % 0x80 < STATES
  {
    if likely then Bin(bin / 0x80, r.nextMps)
    else Bin((bin / 0x80 + r.switchMps) % 2, r.nextLps)
  }

  /** (bin & 0x80) ^ word, as both coders write it. */
  function XorSense(bin: byte, word: nat): nat
    requires word < 0x100
  {
    (bin / 0x80 + word / 0x80) % 2 * 0x80 + word % 0x80
  }

  /** The fields the coders unpack from the table word are the ones Adapted uses. */
  lemma UnpackedFields(bin: byte, r: row, word: nat)
    requires word == Pack(r)
    ensures word / 0x100 / 0x100 == r.qe
    ensures XorSense(bin, word % 0x100) == Adapted(bin, r, false)
    ensures XorSense(bin, word / 0x100 % 0x100) == Adapted(bin, r, true)
  {
    Unpack(r);
    assert (r.switchMps * 0x80 + r.nextLps) / 0x80 == r.switchMps;
    assert (r.switchMps * 0x80 + r.nextLps) % 0x80 == r.nextLps;
  }

  /** XorSense is the bit operation of the source: the sense is kept, or switched by the
      top bit of the word. */
  lemma XorSenseIsXor(bin: bv8, word: bv8)
    ensures XorSense(bin as int, word as int) == ((bin & 0x80) ^ word) as int
  {
    TopBitXor(bin, word);
    XorSenseIs(bin as int, word as int);
  }

  lemma XorSenseIs(bin: byte, word: byte)
    ensures XorSense(bin, word) ==
      if bin < 0x80 then word else if word < 0x80 then word + 0x80 else word - 0x80
  {
  }

  /** Is the more probable symbol given the upper part?  Normally it gets the lower
      part, of size range - qe; when that is the smaller part the two are exchanged. */
  predicate Exchanged(range: nat, qe: nat)
  {
    range < qe + qe
  }

  function Part(iv: Interval, qe: nat, upper: bool): (sub: Interval)
    requires 0 < qe < iv.range
    ensures 0 < sub.range
  {
    if upper then iv.(low := iv.low + (iv.range - qe), range := qe)
    else iv.(range := iv.range - qe)
  }

  function Normalise(iv: Interval): (n: Interval)
    requires 0 < iv.range <= 0x10000
    ensures Normal(n)
    decreases 0x10000 - iv.range
  {
    if iv.range >= 0x8000 then iv
    else Normalise(Interval(2 * iv.low, 2 * iv.range, iv.shifts + 1))
  }

  lemma NormaliseNormal(iv: Interval)
    requires 0 < iv.range <= 0x10000
    ensures Normal(iv) ==> Normalise(iv) == iv
  {
  }

  /** Code one decision in the statistics bin ctx. */
  function Code(s: Coder, ctx: nat, bit: bool): (next: Coder)
    requires Ready(s) && ctx < |s.bins|
    ensures Ready(next) && |next.bins| == |s.bins| && next.rows == s.rows
  {
    var bin := s.bins[ctx];
    var r := s.rows[bin % 0x80];
    var likely := bit == Mps(bin);
    var sub := Part(s.iv, r.qe, likely == Exchanged(s.iv.range, r.qe));
    if likely && sub.range >= 0x8000 then
      s.(iv := sub)
    else
      s.(iv := Normalise(sub), bins := s.bins[ctx := Adapted(bin, r, likely)])
  }

  /** The estimate after a decision: only the bin in use changes, and only with a
      renormalisation.  After the less probable symbol the sense is switched if the row
      says so. */
  lemma BinAfter(s: Coder, ctx: nat, bit: bool)
    requires Ready(s) && ctx < |s.bins|
    ensures forall i :: 0 <= i < |s.bins| && i != ctx ==> Code(s, ctx, bit).bins[i] == s.bins[i]
    ensures var t, bin := Code(s, ctx, bit), s.bins[ctx]; var r, mps := s.rows[bin % 0x80], bin >= 0x80;
      if t.iv.shifts == s.iv.shifts then bit == mps && t.bins[ctx] == bin
      else if bit == mps then t.bins[ctx] % 0x80 == r.nextMps && (t.bins[ctx] >= 0x80) == mps
      else t.bins[ctx] % 0x80 == r.nextLps && (t.bins[ctx] >= 0x80) == (if r.switchMps == 1 then !mps else mps)
  {
    var qe := s.rows[s.bins[ctx] % 0x80].qe;
    var k := NormaliseDoubles(Part(s.iv, qe, (bit == Mps(s.bins[ctx])) == Exchanged(s.iv.range, qe)));
  }

  lemma {:induction false} NormaliseDoubles(iv: Interval) returns (k: nat)
    requires 0 < iv.range <= 0x10000
    ensures var n := Normalise(iv);
      n.range == iv.range * Pow2(k) && n.low == iv.low * Pow2(k) && n.shifts == iv.shifts + k
    ensures k == 0 <==> iv.range >= 0x8000
    decreases 0x10000 - iv.range
  {
    k := 0;
    if iv.range < 0x8000 {
      var j := NormaliseDoubles(Interval(2 * iv.low, 2 * iv.range, iv.shifts + 1));
      k := j + 1;
      Doubled(iv.low, Pow2(j));
      Doubled(iv.range, Pow2(j));
    }
  }

  lemma Doubled(x: nat, p: nat)
    ensures 2 * x * p == x * (2 * p)
  {
  }

  /** The interval is split at its range less the estimate.  The more probable symbol gets
      the larger part, the lower one if they are equal, and the part that is coded is
      doubled until it is normal. */
  lemma CodeNarrows(s: Coder, ctx: nat, bit: bool) returns (k: nat)
    requires Ready(s) && ctx < |s.bins|
    ensures var bin, iv, next := s.bins[ctx], s.iv, Code(s, ctx, bit).iv; var qe := s.rows[bin % 0x80].qe;
      var upper := (bit == (bin >= 0x80)) == (qe > iv.range - qe);
      && next.range == (if upper then qe else iv.range - qe) * Pow2(k)
      && next.low == (if upper then iv.low + (iv.range - qe) else iv.low) * Pow2(k)
      && next.shifts == iv.shifts + k && 0x8000 <= next.range <= 0x10000
  {
    var qe := s.rows[s.bins[ctx] % 0x80].qe;
    k := NormaliseDoubles(Part(s.iv, qe, (bit == Mps(s.bins[ctx])) == Exchanged(s.iv.range, qe)));
  }

  datatype Decision = Decision(ctx: nat, bit: bool)

  predicate InBins(ds: seq<Decision>, n: nat)
  {
    forall i :: 0 <= i < |ds| ==> ds[i].ctx < n
  }

  /** Code a sequence of decisions. */
  function Run(s: Coder, ds: seq<Decision>): (t: Coder)
    requires Ready(s) && InBins(ds, |s.bins|)
    ensures Ready(t) && |t.bins| == |s.bins| && t.rows == s.rows
    decreases |ds|
  {
    if ds == [] then s else Run(Code(s, ds[0].ctx, ds[0].bit), ds[1..])
  }

  // ----- the code value

  /** The fraction spelled by the bytes p is at least v / 2^(16 + shifts). */
  predicate AtLeast(p: seq<byte>, v: nat, shifts: nat)
  {
    v * Pow2(8 * |p|) <= BigEndian(p) * Pow2(16 + shifts)
  }

  predicate Inside(p: seq<byte>, iv: Interval)
  {
    AtLeast(p, iv.low, iv.shifts) && !AtLeast(p, iv.low + iv.range, iv.shifts)
  }

  /** The decoder's decision: the symbol whose part of the interval holds the code. */
  function Decoded(p: seq<byte>, s: Coder, ctx: nat): bool
    requires Ready(s) && ctx < |s.bins|
  {
    var bin := s.bins[ctx];
    var qe := s.rows[bin % 0x80].qe;
    var upper := AtLeast(p, s.iv.low + (s.iv.range - qe), s.iv.shifts);
    if upper == Exchanged(s.iv.range, qe) then Mps(bin) else !Mps(bin)
  }

  /** Decoding, told from the part of the interval the code lies in. */
  lemma DecodedPart(p: seq<byte>, s: Coder, ctx: nat, upper: bool)
    requires Ready(s) && ctx < |s.bins|
    requires upper == AtLeast(p, s.iv.low + (s.iv.range - s.rows[s.bins[ctx] % 0x80].qe), s.iv.shifts)
    ensures var bin := s.bins[ctx]; var r := s.rows[bin % 0x80];
      var sub := Part(s.iv, r.qe, upper);
      var likely := upper == (s.iv.range - r.qe < r.qe);
      && Decoded(p, s, ctx) == (if likely then Mps(bin) else !Mps(bin))
      && Code(s, ctx, Decoded(p, s, ctx)) ==
        if !upper && sub.range >= 0x8000 then s.(iv := sub)
        else s.(iv := Normalise(sub), bins := s.bins[ctx := Adapted(bin, r, likely)])
  {
  }

  // ----- laws

  lemma AtLeastAntitone(p: seq<byte>, v: nat, w: nat, shifts: nat)
    requires v <= w && AtLeast(p, w, shifts)
    ensures AtLeast(p, v, shifts)
  {
    assert v * Pow2(8 * |p|) <= w * Pow2(8 * |p|);
  }

  lemma AtLeastDouble(p: seq<byte>, v: nat, shifts: nat)
    ensures AtLeast(p, 2 * v, shifts + 1) == AtLeast(p, v, shifts)
  {
    var k, b, e := Pow2(8 * |p|), BigEndian(p), Pow2(16 + shifts);
    assert Pow2(16 + (shifts + 1)) == 2 * e;
    assert 2 * v * k == 2 * (v * k);
    assert b * (2 * e) == 2 * (b * e);
  }

  lemma {:induction false} NormaliseKeepsNumbers(p: seq<byte>, iv: Interval)
    requires 0 < iv.range <= 0x10000
    ensures Inside(p, Normalise(iv)) == Inside(p, iv)
    decreases 0x10000 - iv.range
  {
    if iv.range < 0x8000 {
      var twice := Interval(2 * iv.low, 2 * iv.range, iv.shifts + 1);
      AtLeastDouble(p, iv.low, iv.shifts);
      AtLeastDouble(p, iv.low + iv.range, iv.shifts);
      NormaliseKeepsNumbers(p, twice);
    }
  }

  /** Every code lies in the whole interval. */
  lemma InsideWhole(p: seq<byte>)
    ensures Inside(p, WHOLE)
  {
    BigEndianBound(p);
    assert BigEndian(p) * Pow2(16) < 0x10000 * Pow2(8 * |p|) by { Pow2Values(); }
  }

  /** Coding a decision keeps exactly the codes that decode to it. */
  lemma CodeKeeps(p: seq<byte>, s: Coder, ctx: nat, bit: bool)
    requires Ready(s) && ctx < |s.bins|
    ensures Inside(p, Code(s, ctx, bit).iv) <==> Inside(p, s.iv) && Decoded(p, s, ctx) == bit
  {
    var bin := s.bins[ctx];
    var qe := s.rows[bin % 0x80].qe;
    var iv := s.iv;
    var upper := (bit == Mps(bin)) == Exchanged(iv.range, qe);
    var sub := Part(iv, qe, upper);
    NormaliseKeepsNumbers(p, sub);
    if AtLeast(p, iv.low + (iv.range - qe), iv.shifts) {
      AtLeastAntitone(p, iv.low, iv.low + (iv.range - qe), iv.shifts);
    } else if AtLeast(p, iv.low + iv.range, iv.shifts) {
      AtLeastAntitone(p, iv.low + (iv.range - qe), iv.low + iv.range, iv.shifts);
    }
  }

  /** A code of the final interval is a code of every interval on the way. */
  lemma {:induction false} RunNests(p: seq<byte>, s: Coder, ds: seq<Decision>)
    requires Ready(s) && InBins(ds, |s.bins|) && Inside(p, Run(s, ds).iv)
    ensures Inside(p, s.iv)
    decreases |ds|
  {
    if ds != [] {
      var next := Code(s, ds[0].ctx, ds[0].bit);
      RunNests(p, next, ds[1..]);
      CodeKeeps(p, s, ds[0].ctx, ds[0].bit);
    }
  }

  lemma {:induction false} RunConcat(s: Coder, ds: seq<Decision>, es: seq<Decision>)
    requires Ready(s) && InBins(ds, |s.bins|) && InBins(es, |s.bins|)
    ensures InBins(ds + es, |s.bins|)
    ensures Run(s, ds + es) == Run(Run(s, ds), es)
    decreases |ds|
  {
    if ds == [] {
      assert ds + es == es;
    } else {
      var d := ds[0];
      assert (ds + es)[0] == d && (ds + es)[1..] == ds[1..] + es;
      var next := Code(s, d.ctx, d.bit);
      RunConcat(next, ds[1..], es);
      assert Run(s, ds) == Run(next, ds[1..]);
      assert Run(s, ds + es) == Run(next, ds[1..] + es);
    }
  }

  lemma RunSnoc(s: Coder, ds: seq<Decision>, d: Decision)
    requires Ready(s) && InBins(ds, |s.bins|) && d.ctx < |s.bins|
    ensures InBins(ds + [d], |s.bins|)
    ensures Run(s, ds + [d]) == Code(Run(s, ds), d.ctx, d.bit)
  {
    RunConcat(s, ds, [d]);
    assert [d][1..] == [];
  }
}
