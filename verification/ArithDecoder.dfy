/**
 The adaptive binary arithmetic decoder.  Its C register holds the distance from
 the base of the coding interval to the code, with the cut between the base and
 the look-ahead bits floating at bit `ct`; renormalisation is put off to the next
 call, and zero bytes are supplied once a marker has been met.
 */
module ArithDecoder {
  import opened Bytes
  import opened RestartSegments
  import opened AritTable
  import opened IntervalCoder
  import opened Nonlinear

  /** Byte i of the code, which continues with zeros for ever. */
  function ByteAt(code: seq<byte>, i: nat): byte
  {
    if i < |code| then code[i] else 0
  }

  /** The number spelled by the first n bytes of the code. */
  function Prefix(code: seq<byte>, n: nat): nat
  {
    if n == 0 then 0 else 256 * Prefix(code, n - 1) + ByteAt(code, n - 1)
  }

  lemma {:induction false} PrefixOfCode(code: seq<byte>, n: nat)
    requires n <= |code|
    ensures Prefix(code, n) == BigEndian(code[..n])
  {
    if n > 0 {
      PrefixOfCode(code, n - 1);
      assert code[..n] == code[..n - 1] + [code[n - 1]];
      BigEndianSnoc(code[..n - 1], code[n - 1]);
    }
  }

  lemma {:induction false} PrefixPastCode(code: seq<byte>, n: nat)
    requires |code| <= n
    ensures Prefix(code, n) == BigEndian(code) * Pow2(8 * (n - |code|))
  {
    hide BigEndian;
    if n == |code| {
      PrefixOfCode(code, n);
      assert code[..n] == code;
    } else {
      hide Pow2;
      PrefixPastCode(code, n - 1);
      var k := 8 * (n - 1 - |code|);
      assert Pow2(k + 8) == 256 * Pow2(k) by { Pow2Add(8, k); Pow2Values(); }
      Reassociate(256, BigEndian(code), Pow2(k));
    }
  }

  /** Comparing a prefix of the code tells as much as comparing the whole code. */
  lemma PrefixCompares(code: seq<byte>, n: nat, v: nat)
    ensures v <= Prefix(code, n) <==> v * Pow2(8 * |code|) <= BigEndian(code) * Pow2(8 * n)
  {
    hide Pow2, BigEndian, Prefix;
    var b := BigEndian(code);
    if n <= |code| {
      var k, m := 8 * (|code| - n), 8 * n;
      var x, y := BigEndian(code[..n]), BigEndian(code[n..]);
      PrefixOfCode(code, n);
      assert code == code[..n] + code[n..];
      BigEndianConcat(code[..n], code[n..]);
      BigEndianBound(code[n..]);
      assert b == x * Pow2(k) + y && y < Pow2(k);
      Pow2Add(k, m);
      Reassociate(v, Pow2(k), Pow2(m));
      CompareQuotient(v, x, y, Pow2(k));
      CompareScaled(v * Pow2(k), b, Pow2(m));
    } else {
      var k, m := 8 * (n - |code|), 8 * |code|;
      PrefixPastCode(code, n);
      Pow2Add(k, m);
      Reassociate(b, Pow2(k), Pow2(m));
      CompareScaled(v, b * Pow2(k), Pow2(m));
    }
  }

  lemma CompareScaled(x: int, y: int, k: int)
    requires 0 < k
    ensures x <= y <==> x * k <= y * k
  {
    if x <= y {
      MulMonotone(x, y, k);
    } else {
      MulStrict(y, x, k);
    }
  }

  lemma CompareQuotient(v: nat, x: nat, y: nat, k: nat)
    requires y < k
    ensures v <= x <==> v * k <= x * k + y
  {
    if v <= x {
      MulMonotone(v, x, k);
    } else {
      MulMonotone(x + 1, v, k);
    }
  }

  /** The register comparison decides the exact comparison. */
  lemma RegisterCompares(code: seq<byte>, n: nat, v: nat, shifts: nat, ct: nat)
    requires 8 * n == 16 + shifts + ct
    ensures v * Pow2(ct) <= Prefix(code, n) <==> AtLeast(code, v, shifts)
  {
    var b, k, p, e := BigEndian(code), Pow2(8 * |code|), Pow2(ct), Pow2(16 + shifts);
    PrefixCompares(code, n, v * p);
    Pow2Add(16 + shifts, ct);
    Reassociate(v, p, k);
    Reassociate(b, e, p);
    CompareScaled(v * k, b * e, p);
  }

  /** The part of the interval that holds the code. */
  lemma PartHolds(code: seq<byte>, iv: Interval, qe: nat)
    requires 0 < qe < iv.range && Inside(code, iv)
    ensures Inside(code, Part(iv, qe, AtLeast(code, iv.low + (iv.range - qe), iv.shifts)))
  {
  }

  class Decoder {
    var c: int             // distance of the code from the interval base + input bits
    var a: int             // normalised size of the coding interval
    var ct: int            // number of bits left in the bit buffer part of C
    var unreadMarker: byte // marker that ended the data, or 0
    const data: seq<byte>
    var pos: nat
    const bins: array<byte>
    const rows: table  // jpeg_aritab
    ghost const code: seq<byte>  // the data bytes before the marker
    ghost var taken: nat         // number of code bytes moved into C
    ghost var iv: Interval       // coding interval, not yet renormalised

    /** Position in the input and position in the code agree. */
    ghost predicate Input()
      reads this
    {
      && pos <= |data|
      && (unreadMarker == 0 ==> taken <= |code| && MarkerAhead(data[pos..]) && Segment(data[pos..]) == code[taken..])
      && (unreadMarker != 0 ==> |code| <= taken)
      && MarkerKept()
    }

    /** The marker that ends the segment is still ahead, or has just been met. */
    ghost predicate MarkerKept()
      reads this`pos, this`unreadMarker
    {
      && pos <= |data| && MarkerAhead(data)
      && (if unreadMarker == 0 then MarkerAhead(data[pos..]) && MarkerOf(data[pos..]) == MarkerOf(data)
          else MarkerOf(data) == (unreadMarker, data[pos..]))
    }

    ghost predicate Starting()
      reads this
    {
      a == 0 && iv == WHOLE && (ct == -16 || ct == -8) && 8 * taken == 16 + ct && c == Prefix(code, taken)
    }

    ghost predicate Running()
      reads this
    {
      && 0 <= ct <= 7 && 0 < a <= 0x10000 && a == iv.range
      && 8 * taken == 16 + iv.shifts + ct
      && c == Prefix(code, taken) - iv.low * Pow2(ct)
    }

    ghost predicate Valid()
      reads this, bins
    {
      Input() && (Starting() || Running()) && Inside(code, iv) && GoodBins(bins[..])
    }

    ghost function State(): (s: Coder)
      requires Valid()
      reads this, bins
      ensures Ready(s) && |s.bins| == bins.Length
    {
      Coder(Normalise(iv), bins[..], rows)
    }

    constructor (input: seq<byte>, binCount: nat)
      requires MarkerAhead(input)
      ensures Valid() && fresh(bins) && bins.Length == binCount
      ensures code == Segment(input) && data == input && pos == 0
      ensures State() == Coder(WHOLE, Repeat(0, binCount), ARITAB)
    {
      bins := new byte[binCount](_ => 0);
      rows := ARITAB;
      data, pos, code, taken := input, 0, Segment(input), 0;
      c, a, ct, unreadMarker, iv := 0, 0, -16, 0, WHOLE;
      new;
      assert data[pos..] == input;
      InsideWhole(code);
      assert bins[..] == Repeat(0, binCount);
    }

    method GetByte() returns (b: byte)
      requires pos < |data|
      modifies this`pos
      ensures b == data[old(pos)] && pos == old(pos) + 1
    {
      b := data[pos];
      pos := pos + 1;
    }

    /** The next code byte, removing stuffing and supplying zeros after a marker. */
    method NextData() returns (b: byte)
      requires Input()
      modifies this`pos, this`unreadMarker, this`taken
      ensures Input() && taken == old(taken) + 1 && b == ByteAt(code, old(taken))
    {
      if unreadMarker != 0 {
        b := 0;
      } else {
        ghost var rest := data[pos..];
        b := GetByte();
        assert data[pos..] == rest[1..];
        if b != 0xFF {
          FirstOf(code, taken, b, Segment(rest[1..]));
        } else {
          b := SkipFill();
          if b == 0 {
            b := 0xFF;
            FirstOf(code, taken, b, Segment(data[pos..]));
          } else {
            unreadMarker := b;
            b := 0;
          }
        }
      }
      taken := taken + 1;
    }

    /** After an 0xFF: swallow extra 0xFF bytes and return what follows them. */
    method SkipFill() returns (b: byte)
      requires pos <= |data| && MarkerAfterFF(data[pos..])
      modifies this`pos
      ensures pos <= |data| && b != 0xFF
      ensures b == 0 ==> MarkerAhead(data[pos..]) && SegmentAfterFF(data[old(pos)..]) == [0xFF] + Segment(data[pos..])
      ensures b != 0 ==> SegmentAfterFF(data[old(pos)..]) == []
      ensures MarkerOfAfterFF(data[old(pos)..]) == if b == 0 then MarkerOf(data[pos..]) else (b, data[pos..])
    {
      ghost var all, end := SegmentAfterFF(data[pos..]), MarkerOfAfterFF(data[pos..]);
      ghost var rest := data[pos..];
      b := GetByte();
      assert data[pos..] == rest[1..];
      while b == 0xFF
        invariant pos <= |data|
        invariant b == 0xFF ==> MarkerAfterFF(data[pos..]) && SegmentAfterFF(data[pos..]) == all
        invariant b == 0xFF ==> MarkerOfAfterFF(data[pos..]) == end
        invariant b == 0 ==> (MarkerAhead(data[pos..]) && all == [0xFF] + Segment(data[pos..])
          && end == MarkerOf(data[pos..]))
        invariant b != 0xFF && b != 0 ==> all == [] && end == (b, data[pos..])
        decreases |data| - pos, b
      {
        rest := data[pos..];
        b := GetByte();
        assert data[pos..] == rest[1..];
      }
    }

    /** One round of renormalisation: double the interval and fetch a byte when the
        bit buffer is empty. */
    method ShiftIn()
      requires Input() && (Starting() || Running()) && a < 0x8000
      modifies this`c, this`a, this`ct, this`pos, this`unreadMarker, this`taken, this`iv
      ensures Input() && (Starting() || Running())
      ensures old(Starting()) ==> iv == WHOLE && (old(ct) == -8 ==> Running()) && (old(ct) == -16 ==> ct == -8)
      ensures old(Running()) ==> Running() && iv == Interval(2 * old(iv).low, 2 * old(iv).range, old(iv).shifts + 1)
    {
      hide Decoder.MarkerKept, Segment, MarkerAhead, MarkerOf, ByteAt;
      ghost var running := Running();
      if running {
        ShiftedLow(iv.low, ct);
      }
      ct := ct - 1;
      if ct < 0 {
        var data := NextData();
        c := c * 0x100 + data;
        ct := ct + 8;
        if ct < 0 {
          ct := ct + 1;
          if ct == 0 {
            a := 0x8000;
          }
        }
      }
      a := a * 2;
      if running {
        iv := Interval(2 * iv.low, 2 * iv.range, iv.shifts + 1);
      }
    }

    method Refill()
      requires Valid()
      modifies this`c, this`a, this`ct, this`pos, this`unreadMarker, this`taken, this`iv
      ensures Valid() && Running() && iv == Normalise(old(iv))
      ensures 0x8000 <= a <= 0x10000 && 0 <= ct <= 7 && 0 <= c < a * Pow2(ct)
    {
      while a < 0x8000
        invariant Input() && (Starting() || Running()) && Normalise(iv) == Normalise(old(iv))
        decreases if a == 0 then 0x8000 - ct else 0x8000 - a
      {
        ShiftIn();
      }
      NormaliseKeepsNumbers(code, old(iv));
      RegisterBounds(code, taken, iv, ct);
    }

    /** read_restart_marker: find the marker that ends the segment.  The input goes on
        behind it if it is restart marker n. */
    method ReadRestartMarker(n: nat) returns (ok: bool, rest: seq<byte>)
      requires Valid() && n < 8
      modifies this`pos, this`unreadMarker
      ensures MarkerAhead(data) && ok == (MarkerOf(data).0 == RST0 + n)
      ensures ok ==> rest == MarkerOf(data).1
    {
      hide Segment, MarkerAhead, MarkerOf;
      if unreadMarker == 0 {
        unreadMarker, pos := NextMarker(data, pos);
      }
      ok, rest := unreadMarker == RST0 + n, [];
      if ok {
        rest := data[pos..];
      }
    }

    /** Decode one decision in the statistics bin st. */
    method ArithDecode(st: nat) returns (bit: bool)
      requires Valid() && st < bins.Length
      modifies this, bins
      ensures Valid() && bit == Decoded(code, old(State()), st)
      ensures State() == Code(old(State()), st, bit)
    {
      hide Pow2, BigEndian, Prefix, Inside, AtLeast, Segment, MarkerAhead, XorSense, Adapted, Pack, Normalise, Code,
        Decoded;
      Refill();
      NormaliseNormal(iv);
      ghost var s := State();
      var sv := bins[st];
      var qe := Pack(rows[sv % 0x80]);
      UnpackedFields(sv, rows[sv % 0x80], qe);
      var nl := qe % 0x100;
      qe := qe / 0x100;
      var nm := qe % 0x100;
      qe := qe / 0x100;
      bit := sv / 0x80 == 1;
      var rest := a - qe;
      var upper := TakePart(qe);
      NormaliseNormal(iv);
      DecodedPart(code, s, st, upper);
      if upper {
        // conditional exchange of the less probable symbol
        if rest < qe {
          bins[st] := XorSense(sv, nm);
        } else {
          bins[st] := XorSense(sv, nl);
          bit := !bit;
        }
      } else if rest < 0x8000 {
        // conditional exchange of the more probable symbol
        if rest < qe {
          bins[st] := XorSense(sv, nl);
          bit := !bit;
        } else {
          bins[st] := XorSense(sv, nm);
        }
      }
    }

    /** Keep the part of the interval that holds the code. */
    method TakePart(qe: nat) returns (upper: bool)
      requires Running() && 0 < qe < a && Inside(code, iv)
      modifies this`c, this`a, this`iv
      ensures Running() && Inside(code, iv)
      ensures upper == AtLeast(code, old(iv).low + (old(iv).range - qe), old(iv).shifts)
      ensures iv == Part(old(iv), qe, upper)
    {
      hide Pow2, Prefix, BigEndian, Inside, AtLeast;
      PartHolds(code, iv, qe);
      RegisterCompares(code, taken, iv.low + (iv.range - qe), iv.shifts, ct);
      Distribute(iv.low, iv.range - qe, Pow2(ct));
      a := a - qe;
      var temp := a * Pow2(ct);
      upper := c >= temp;
      iv := Part(iv, qe, upper);
      if upper {
        c := c - temp;
        a := qe;
      }
    }
  }

  lemma FirstOf(code: seq<byte>, taken: nat, b: byte, tail: seq<byte>)
    requires taken <= |code| && code[taken..] == [b] + tail
    ensures taken < |code| && code[taken] == b && code[taken + 1..] == tail
  {
    assert code[taken..][1..] == tail;
  }

  lemma ShiftedLow(low: nat, ct: nat)
    ensures ct > 0 ==> 2 * low * Pow2(ct - 1) == low * Pow2(ct)
    ensures ct == 0 ==> 2 * low * Pow2(7) == 256 * (low * Pow2(0))
  {
    if ct > 0 {
      Reassociate(2, low, Pow2(ct - 1));
    } else {
      assert Pow2(7) == 128;
    }
  }

  lemma RegisterBounds(code: seq<byte>, n: nat, iv: Interval, ct: nat)
    requires 8 * n == 16 + iv.shifts + ct && Inside(code, iv)
    ensures 0 <= Prefix(code, n) - iv.low * Pow2(ct) < iv.range * Pow2(ct)
  {
    RegisterCompares(code, n, iv.low, iv.shifts, ct);
    RegisterCompares(code, n, iv.low + iv.range, iv.shifts, ct);
    Distribute(iv.low, iv.range, Pow2(ct));
  }
}
