/**
 The adaptive binary arithmetic encoder.  Output is delayed: a byte waits in
 `buffer` while a carry may still reach it, bytes 0xFF behind it are only
 counted (`sc`), and zero bytes in front of it are only counted (`zc`) because
 they are dropped if nothing follows.  The class is proved to be IntervalCoder's
 exact coder.
 */
module ArithEncoder {
  import opened Bytes
  import opened AritTable
  import opened IntervalCoder
  import opened Nonlinear

  /** The number in iv with the most trailing zero bits (section D.1.8 of T.81). */
  function Terminator(iv: Interval): nat
    requires Normal(iv)
  {
    RoundedIn(iv.low, iv.range)
  }

  function RoundedIn(low: nat, range: nat): nat
    requires 0 < range
  {
    var high := (range - 1 + low) / 0x10000 * 0x10000;
    if high < low then high + 0x8000 else high
  }

  /** The bytes p spell exactly v / 2^(16 + shifts). */
  predicate Spells(p: seq<byte>, v: nat, shifts: nat)
  {
    BigEndian(p) * Pow2(16 + shifts) == v * Pow2(8 * |p|)
  }

  predicate NoFinalZero(p: seq<byte>)
  {
    p != [] ==> p[|p| - 1] != 0
  }

  class Encoder {
    var c: int       // base of the coding interval, layout as in section D.1.3
    var a: int       // normalised size of the coding interval
    var sc: nat      // stacked 0xFF bytes which might overflow
    var zc: nat      // pending 0x00 bytes which might be discarded
    var ct: int      // shifts until the next byte is taken from c
    var buffer: int  // most recent output byte other than 0xFF, or -1
    const bins: array<byte>
    const rows: table  // jpeg_aritab
    var out: seq<byte>
    ghost var payload: seq<byte>  // what `out` says once the stuffing is removed

    /** All bytes that have left the C register, whether written or not. */
    ghost function Digits(): seq<byte>
      requires -1 <= buffer < 0x100
      reads this`payload, this`zc, this`buffer, this`sc
    {
      payload + Repeat(0, zc) + (if buffer >= 0 then [buffer] else []) + Repeat(0xFF, sc)
    }

    ghost predicate Registers()
      reads this
    {
      && 1 <= ct <= 11
      && 0 <= c && 0 < a <= 0x10000
      && -1 <= buffer < 0xFF
      && out == Stuff(payload) && NoFinalZero(payload)
      && (buffer == -1 ==> payload == [] && zc == 0 && c + a <= Pow2(27 - ct))
      && (buffer >= 0 ==> c + a <= Pow2(27 - ct) + Pow2(24 - ct))
    }

    ghost function Iv(): Interval
      requires Registers()
      reads this
    {
      Interval(BigEndian(Digits()) * Pow2(27 - ct) + c, a, 8 * |Digits()| + 11 - ct)
    }

    ghost predicate Valid()
      reads this, bins
    {
      Registers() && 0x8000 <= a && GoodBins(bins[..])
    }

    ghost function State(): (s: Coder)
      requires Valid()
      reads this, bins
      ensures Ready(s) && |s.bins| == bins.Length
    {
      Coder(Iv(), bins[..], rows)
    }

    constructor (binCount: nat)
      ensures Valid() && fresh(bins) && bins.Length == binCount
      ensures State() == Coder(WHOLE, Repeat(0, binCount), ARITAB) && out == []
    {
      bins := new byte[binCount](_ => 0);
      rows := ARITAB;
      c, a, sc, zc, ct, buffer, out, payload := 0, 0x10000, 0, 0, 11, -1, [], [];
      new;
      Pow2Values();
      assert Digits() == [];
      assert bins[..] == Repeat(0, binCount);
    }

    method EmitByte(val: byte)
      modifies this`out
      ensures out == old(out) + [val]
    {
      out := out + [val];
    }

    /** Write a data byte, with its stuffed zero if it needs one. */
    method EmitData(val: byte)
      requires out == Stuff(payload)
      modifies this`out, this`payload
      ensures payload == old(payload) + [val] && out == Stuff(payload)
    {
      EmitByte(val);
      if val == 0xFF {
        EmitByte(0);
      }
      StuffSnoc(payload, val);
      payload := payload + [val];
      assert out == Stuff(payload);
    }

    method EmitPendingZeros()
      requires out == Stuff(payload)
      modifies this`out, this`payload, this`zc
      ensures payload == old(payload) + Repeat(0, old(zc)) && out == Stuff(payload)
      ensures zc == 0
    {
      while zc != 0
        invariant zc <= old(zc) && out == Stuff(payload)
        invariant payload == old(payload) + Repeat(0, old(zc) - zc)
      {
        EmitData(0);
        RepeatSnoc(0, old(zc) - zc);
        zc := zc - 1;
      }
    }

    /** A carry has come out of C: everything pending is settled and increased by one. */
    method PropagateCarry()
      requires -1 <= buffer < 0xFF && out == Stuff(payload) && NoFinalZero(payload)
      requires buffer >= 0
      modifies this`out, this`payload, this`zc, this`sc
      ensures out == Stuff(payload) && NoFinalZero(payload) && sc == 0
      ensures |payload| + zc == |old(Digits())|
      ensures BigEndian(payload + Repeat(0, zc)) == BigEndian(old(Digits())) + 1
    {
      ghost var start, zeros, ones := payload, zc, sc;
      EmitPendingZeros();
      EmitData(buffer + 1);
      zc := zc + sc;  // carry-over converts stacked 0xFF bytes to 0x00
      sc := 0;
      CarryRipples(start + Repeat(0, zeros), buffer, ones);
      assert payload + Repeat(0, zc) == start + Repeat(0, zeros) + [buffer + 1] + Repeat(0, ones);
    }

    method EmitStackedOnes()
      requires out == Stuff(payload) && sc > 0
      modifies this`out, this`payload, this`sc
      ensures out == Stuff(payload) && NoFinalZero(payload) && sc == 0
      ensures payload == old(payload) + Repeat(0xFF, old(sc))
    {
      while sc != 0
        invariant sc <= old(sc) && out == Stuff(payload)
        invariant payload == old(payload) + Repeat(0xFF, old(sc) - sc)
      {
        EmitData(0xFF);
        RepeatSnoc(0xFF, old(sc) - sc);
        sc := sc - 1;
      }
    }

    /** No carry can come any more: everything pending is settled as it stands. */
    method SettlePending()
      requires -1 <= buffer < 0xFF && out == Stuff(payload) && NoFinalZero(payload)
      requires buffer == -1 ==> zc == 0 && payload == []
      modifies this`out, this`payload, this`zc, this`sc
      ensures out == Stuff(payload) && NoFinalZero(payload) && sc == 0
      ensures payload + Repeat(0, zc) == old(Digits())
    {
      ghost var front := payload + Repeat(0, zc) + (if buffer >= 0 then [buffer] else []);
      if buffer == 0 {
        zc := zc + 1;
        RepeatSnoc(0, zc - 1);
      } else if buffer >= 0 {
        EmitPendingZeros();
        EmitData(buffer);
      }
      assert payload + Repeat(0, zc) == front;
      if sc != 0 {
        EmitPendingZeros();
        EmitStackedOnes();
      }
    }

    /** A byte has been completed in C: temp is its value, plus 0x100 for a carry. */
    method ByteOut(temp: nat)
      requires -1 <= buffer < 0xFF && out == Stuff(payload) && NoFinalZero(payload)
      requires buffer == -1 ==> zc == 0 && payload == [] && temp <= 0xFF
      requires temp <= 0x11F  // the spacer bits in C keep the byte after a carry small
      modifies this`out, this`payload, this`zc, this`sc, this`buffer
      ensures -1 <= buffer < 0xFF && out == Stuff(payload) && NoFinalZero(payload)
      ensures buffer == -1 ==> old(buffer) == -1 && temp == 0xFF && zc == 0 && payload == []
      ensures temp > 0xFF ==> old(buffer) >= 0 && buffer <= 0x1F && sc == 0
      ensures |Digits()| == |old(Digits())| + 1
      ensures BigEndian(Digits()) == 256 * BigEndian(old(Digits())) + temp
    {
      hide BigEndian, Stuff;
      if temp > 0xFF {
        if buffer >= 0 {
          PropagateCarry();
        }
        BigEndianSnoc(payload + Repeat(0, zc), temp % 0x100);
        buffer := temp % 0x100;
        assert Digits() == payload + Repeat(0, zc) + [buffer];
      } else if temp == 0xFF {
        sc := sc + 1;
        RepeatSnoc(0xFF, sc - 1);
        BigEndianSnoc(old(Digits()), 0xFF);
        assert Digits() == old(Digits()) + [0xFF];
      } else {
        SettlePending();
        BigEndianSnoc(payload + Repeat(0, zc), temp);
        buffer := temp;
        assert Digits() == payload + Repeat(0, zc) + [buffer];
      }
    }

    /** One round of renormalisation: double the interval and, every eighth time,
        move a byte out of C. */
    method ShiftOut()
      requires Registers() && a < 0x8000
      modifies this`c, this`a, this`sc, this`zc, this`ct, this`buffer, this`out, this`payload
      ensures Registers()
      ensures Iv() == Interval(2 * old(Iv()).low, 2 * old(Iv()).range, old(Iv()).shifts + 1)
    {
      hide BigEndian, Stuff, Encoder.Digits;
      ghost var digits, count := BigEndian(Digits()), |Digits()|;
      ghost var scale, spare := Pow2(27 - ct), Pow2(24 - ct);
      DoubleScaled(digits, scale, c);
      a := a * 2;
      c := c * 2;
      ct := ct - 1;
      assert Pow2(27 - ct) == 2 * scale && Pow2(24 - ct) == 2 * spare;
      if ct == 0 {
        Pow2Values();
        ByteOut(c / 0x80000);
        MoveByte(digits, c);
        c := c % 0x80000;
        ct := ct + 8;
      }
    }

    method TakeLowerPart(qe: nat)
      requires Registers() && 0 < qe < a
      modifies this`a
      ensures Registers() && Iv() == Part(old(Iv()), qe, false)
    {
      a := a - qe;
    }

    method TakeUpperPart(qe: nat)
      requires Registers() && 0 < qe < a
      modifies this`a, this`c
      ensures Registers() && Iv() == Part(old(Iv()), qe, true)
    {
      a := a - qe;
      c := c + a;
      a := qe;
    }

    /** Encode the decision val in the statistics bin st. */
    method ArithEncode(st: nat, val: bool)
      requires Valid() && st < bins.Length
      modifies this, bins
      ensures Valid() && State() == Code(old(State()), st, val)
    {
      hide Pow2, BigEndian, Stuff, Encoder.Digits, XorSense, Adapted, Pack, Normalise;
      var sv := bins[st];
      var qe := Pack(rows[sv % 0x80]);
      UnpackedFields(sv, rows[sv % 0x80], qe);
      var nl := qe % 0x100;
      qe := qe / 0x100;
      var nm := qe % 0x100;
      qe := qe / 0x100;

      if val != (sv / 0x80 == 1) {
        // the less probable symbol, exchanged if its part would be the larger one
        if a - qe >= qe {
          TakeUpperPart(qe);
        } else {
          TakeLowerPart(qe);
        }
        bins[st] := XorSense(sv, nl);
      } else {
        if a - qe >= 0x8000 {
          TakeLowerPart(qe);
          return;  // no renormalisation required, and the bin stays as it is
        }
        if a - qe < qe {
          TakeUpperPart(qe);
        } else {
          TakeLowerPart(qe);
        }
        bins[st] := XorSense(sv, nm);
      }
      Renormalise();
    }

    method Renormalise()
      requires Registers() && a < 0x8000
      modifies this`c, this`a, this`sc, this`zc, this`ct, this`buffer, this`out, this`payload
      ensures Registers() && 0x8000 <= a
      ensures Iv() == Normalise(old(Iv()))
    {
      ShiftOut();
      while a < 0x8000
        invariant Registers() && Normalise(Iv()) == Normalise(old(Iv()))
        decreases 0x8000 - a
      {
        ShiftOut();
      }
    }

    /** Settle the pending bytes for good, taking in a last carry out of C. */
    method SettleForGood()
      requires -1 <= buffer < 0xFF && out == Stuff(payload) && NoFinalZero(payload)
      requires 0 <= c < 0x10000000
      requires buffer == -1 ==> zc == 0 && payload == [] && c < 0x8000000
      modifies this`out, this`payload, this`zc, this`sc
      ensures out == Stuff(payload) && NoFinalZero(payload)
      ensures |payload + Repeat(0, zc)| == |old(Digits())|
      ensures BigEndian(payload + Repeat(0, zc)) == BigEndian(old(Digits())) + c / 0x8000000
    {
      if c >= 0x8000000 {
        if buffer >= 0 {
          PropagateCarry();
        }
      } else {
        SettlePending();
      }
    }

    /** Find the number in the interval with the most trailing zero bits and align C
        for output. */
    method RoundC()
      requires Registers() && 0x8000 <= a
      modifies this`c
      ensures c == RoundedIn(old(c), a) * Pow2(ct) && c % 0x800 == 0
      ensures 0 <= c < 0x10000000 && (buffer == -1 ==> c < 0x8000000)
    {
      hide BigEndian, Stuff, Pow2, Repeat, Encoder.Digits;
      ShiftedTerminator(ct, c, a);
      var temp := (a - 1 + c) / 0x10000 * 0x10000;
      c := if temp < c then temp + 0x8000 else temp;
      c := c * Pow2(ct);
    }

    /** Terminate: write the fewest bytes that spell the chosen number. */
    method FinishPass()
      requires Valid()
      modifies this
      ensures out == Stuff(payload) && NoFinalZero(payload)
      ensures Spells(payload, Terminator(old(Iv())), old(Iv()).shifts)
    {
      hide BigEndian, Stuff, Pow2, Spells, Terminator, RoundedIn, Repeat, Encoder.Digits;
      ghost var iv, n, top := Iv(), BigEndian(Digits()), RoundedIn(c, a);
      TerminatorInRegister(iv, n, ct, c);
      RoundC();
      SettleForGood();
      ghost var settled := payload + Repeat(0, zc);
      FinalBytesSpell(settled, n, ct, top, c);
      var zeros := EmitFinalBytes();
      SpellsTrim(payload, zeros, Terminator(iv), iv.shifts);
    }

    /** Output final bytes only if they are not 0x00; the others stay unwritten. */
    method EmitFinalBytes() returns (ghost dropped: nat)
      requires 0 <= c && out == Stuff(payload) && NoFinalZero(payload)
      modifies this`out, this`payload, this`zc
      ensures out == Stuff(payload) && NoFinalZero(payload)
      ensures old(payload) + Repeat(0, old(zc)) + [c / 0x80000 % 0x100, c / 0x800 % 0x100]
           == payload + Repeat(0, dropped)
    {
      hide Stuff;
      dropped := zc + 2;
      assert Repeat(0, zc + 2) == Repeat(0, zc) + [0, 0];
      if c / 0x800 % 0x10000 != 0 {
        EmitPendingZeros();
        EmitData(c / 0x80000 % 0x100);
        dropped := 1;
        assert Repeat(0, 1) == [0];
        if c / 0x800 % 0x100 != 0 {
          EmitData(c / 0x800 % 0x100);
          dropped := 0;
        }
      }
    }
  }

  lemma SpellsTrim(p: seq<byte>, n: nat, v: nat, shifts: nat)
    requires Spells(p + Repeat(0, n), v, shifts)
    ensures Spells(p, v, shifts)
  {
    BigEndianConcat(p, Repeat(0, n));
    BigEndianZeros(n);
    Pow2Add(8 * |p|, 8 * n);
    var x, k, e, f := BigEndian(p), Pow2(8 * n), Pow2(16 + shifts), Pow2(8 * |p|);
    assert x * k * e == v * (f * k);
    Reassociate(x, k, e);
    Reassociate(v, f, k);
    Cancel(x * e, v * f, k);
  }

  /** Rounding the whole number and rounding its part in C come to the same. */
  lemma TerminatorInRegister(iv: Interval, n: nat, ct: nat, c: nat)
    requires 1 <= ct <= 11 && Normal(iv) && iv.low == n * Pow2(27 - ct) + c
    ensures Terminator(iv) == n * Pow2(27 - ct) + RoundedIn(c, iv.range)
  {
    hide Pow2, RoundedIn;
    var q := n * Pow2(11 - ct);
    assert n * Pow2(27 - ct) == 0x10000 * q by {
      assert Pow2(27 - ct) == 0x10000 * Pow2(11 - ct) by { Pow2Add(16, 11 - ct); Pow2Values(); }
      Reassociate(0x10000, n, Pow2(11 - ct));
    }
    RoundedShift(q, c, iv.range);
  }

  lemma RoundedShift(q: nat, c: nat, a: nat)
    requires 0 < a
    ensures RoundedIn(0x10000 * q + c, a) == 0x10000 * q + RoundedIn(c, a)
  {
    assert (a - 1 + (0x10000 * q + c)) / 0x10000 == q + (a - 1 + c) / 0x10000;
  }

  lemma ShiftedTerminator(ct: nat, c: nat, a: nat)
    requires 1 <= ct <= 11 && 0x8000 <= a <= 0x10000
    ensures c <= RoundedIn(c, a) < c + a
    ensures RoundedIn(c, a) * Pow2(ct) % 0x800 == 0
    ensures c + a <= Pow2(27 - ct) ==> RoundedIn(c, a) * Pow2(ct) < 0x8000000
    ensures c + a <= Pow2(27 - ct) + Pow2(24 - ct) ==> RoundedIn(c, a) * Pow2(ct) < 0x9000000
  {
    RoundedBounds(c, a);
    hide Pow2, RoundedIn;
    var v, p := RoundedIn(c, a), Pow2(ct);
    MultipleOfEighth(v, ct);
    MulStrict(v, c + a, p);
    MulScaled(ct, c + a);
  }

  lemma RoundedBounds(c: nat, a: nat)
    requires 0x8000 <= a <= 0x10000
    ensures c <= RoundedIn(c, a) < c + a && RoundedIn(c, a) % 0x8000 == 0
  {
  }

  lemma MultipleOfEighth(v: nat, ct: nat)
    requires v % 0x8000 == 0
    ensures v * Pow2(ct) % 0x800 == 0
  {
    var q, p := v / 0x8000, Pow2(ct);
    Reassociate(0x8000, q, p);
    assert v * p == 0x800 * (0x10 * (q * p));
  }

  lemma MulScaled(ct: nat, bound: nat)
    requires 1 <= ct <= 11
    ensures bound <= Pow2(27 - ct) ==> bound * Pow2(ct) <= 0x8000000
    ensures bound <= Pow2(27 - ct) + Pow2(24 - ct) ==> bound * Pow2(ct) <= 0x9000000
  {
    var x, y, p := Pow2(27 - ct), Pow2(24 - ct), Pow2(ct);
    assert x * p == 0x8000000 by { Pow2Add(27 - ct, ct); Pow2Values(); }
    assert y * p == 0x1000000 by { Pow2Add(24 - ct, ct); Pow2Values(); }
    if bound <= x {
      MulMonotone(bound, x, p);
    }
    if bound <= x + y {
      MulMonotone(bound, x + y, p);
      Distribute(x, y, p);
    }
  }

  /** The settled digits and the two bytes left in C spell the terminator. */
  lemma FinalBytesSpell(settled: seq<byte>, n: nat, ct: nat, top: nat, c: nat)
    requires 1 <= ct <= 11 && c == top * Pow2(ct) && c % 0x800 == 0
    requires BigEndian(settled) == n + c / 0x8000000
    ensures Spells(settled + [c / 0x80000 % 0x100, c / 0x800 % 0x100], n * Pow2(27 - ct) + top, 8 * |settled| + 11 - ct)
  {
    FinalBytesValue(settled, n, c);
    RegisterScale(n, ct, top);
    SpellsScaled(settled + [c / 0x80000 % 0x100, c / 0x800 % 0x100], n * Pow2(27 - ct) + top, 8 * |settled| + 16 - ct,
      ct);
  }

  lemma FinalBytesValue(settled: seq<byte>, n: nat, c: nat)
    requires c % 0x800 == 0 && BigEndian(settled) == n + c / 0x8000000
    ensures BigEndian(settled + [c / 0x80000 % 0x100, c / 0x800 % 0x100]) * 0x800 == n * 0x8000000 + c
  {
    var b1, b2 := c / 0x80000 % 0x100, c / 0x800 % 0x100;
    assert settled + [b1, b2] == settled + [b1] + [b2];
    BigEndianSnoc(settled, b1);
    BigEndianSnoc(settled + [b1], b2);
    SplitRegister(c);
  }

  lemma SplitRegister(c: nat)
    requires c % 0x800 == 0
    ensures c == c / 0x8000000 * 0x8000000 + c / 0x80000 % 0x100 * 0x80000 + c / 0x800 % 0x100 * 0x800
  {
    NestedDivision(c, 0x800, 0x100);
    NestedDivision(c, 0x80000, 0x100);
  }

  lemma RegisterScale(n: nat, ct: nat, top: nat)
    requires 1 <= ct <= 11
    ensures (n * Pow2(27 - ct) + top) * Pow2(ct) == n * 0x8000000 + top * Pow2(ct)
  {
    var x, p := Pow2(27 - ct), Pow2(ct);
    assert x * p == 0x8000000 by { Pow2Add(27 - ct, ct); Pow2Values(); }
    Distribute(n * x, top, p);
    Reassociate(n, x, p);
  }

  lemma SpellsScaled(all: seq<byte>, v: nat, h: nat, ct: nat)
    requires 8 * |all| == h + ct && h >= 5 && BigEndian(all) * 0x800 == v * Pow2(ct)
    ensures Spells(all, v, h - 5)
  {
    var w, p, e := BigEndian(all), Pow2(ct), Pow2(h);
    assert Pow2(h + 11) == 0x800 * e by { Pow2Add(11, h); Pow2Values(); }
    assert Pow2(8 * |all|) == p * e by { Pow2Add(ct, h); }
    Reassociate(w, 0x800, e);
    Reassociate(v, p, e);
  }

  lemma DoubleScaled(n: nat, scale: nat, c: nat)
    ensures n * (2 * scale) + 2 * c == 2 * (n * scale + c)
  {
  }

  /** Dropping the finished byte from C does not change the number denoted. */
  lemma MoveByte(digits: nat, c: nat)
    ensures (256 * digits + c / 0x80000) * Pow2(19) + c % 0x80000 == digits * Pow2(27) + c
  {
    Pow2Values();
  }

  /** Adding one to b FF FF .. FF gives b+1 00 00 .. 00. */
  lemma CarryRipples(front: seq<byte>, b: byte, n: nat)
    requires b < 0xFF
    ensures BigEndian(front + [b + 1] + Repeat(0, n)) == BigEndian(front + [b] + Repeat(0xFF, n)) + 1
  {
    hide Pow2, BigEndian, Repeat;
    BigEndianConcat(front + [b + 1], Repeat(0, n));
    BigEndianConcat(front + [b], Repeat(0xFF, n));
    BigEndianSnoc(front, b);
    BigEndianSnoc(front, b + 1);
    BigEndianZeros(n);
    BigEndianOnes(n);
  }
}
