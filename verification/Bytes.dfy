/**
 Powers of two, base-256 numbers and the 0xFF byte stuffing of an entropy-coded
 segment.  These are the vocabulary in which the coders are specified: a byte
 sequence stands for the binary fraction 0.b1 b2 b3 ... it spells.
 */
module Bytes {
  import opened Nonlinear

  type byte = x: int | 0 <= x < 256

  function Pow2(n: nat): (p: nat)
    ensures p >= 1
  {
    if n == 0 then 1 else 2 * Pow2(n - 1)
  }

  lemma {:induction false} Pow2Add(m: nat, n: nat)
    ensures Pow2(m + n) == Pow2(m) * Pow2(n)
  {
    if m == 0 {
    } else {
      Pow2Add(m - 1, n);
      assert Pow2(m + n) == 2 * (Pow2(m - 1) * Pow2(n));
    }
  }

  lemma {:induction false} Pow2Monotone(m: nat, n: nat)
    requires m <= n
    ensures Pow2(m) <= Pow2(n)
  {
    if m < n {
      Pow2Monotone(m, n - 1);
    }
  }

  function ShiftRight(v: nat, n: nat): (r: nat)
    ensures r <= v
  {
    QuotientBound(v, Pow2(n));
    v / Pow2(n)
  }

  lemma Pow2Values()
    ensures Pow2(3) == 8 && Pow2(8) == 256 && Pow2(11) == 0x800
    ensures Pow2(15) == 0x8000 && Pow2(16) == 0x10000
    ensures Pow2(19) == 0x80000 && Pow2(24) == 0x1000000 && Pow2(27) == 0x8000000
  {
    assert Pow2(8) == 256;
    assert Pow2(11) == 0x800;
    assert Pow2(15) == 0x8000;
    assert Pow2(19) == 0x80000;
    assert Pow2(24) == 0x1000000;
  }

  /** The number a byte sequence spells in base 256, most significant byte first. */
  function BigEndian(s: seq<byte>): nat
  {
    if s == [] then 0 else 256 * BigEndian(s[..|s| - 1]) + s[|s| - 1]
  }

  lemma BigEndianSnoc(s: seq<byte>, b: byte)
    ensures BigEndian(s + [b]) == 256 * BigEndian(s) + b
  {
    assert (s + [b])[..|s|] == s;
  }

  lemma ScaleSum(n: nat, a: nat, b: nat, c: nat)
    ensures n * (a * b + c) == a * (n * b) + n * c
  {
  }

  lemma {:induction false} BigEndianConcat(s: seq<byte>, t: seq<byte>)
    ensures BigEndian(s + t) == BigEndian(s) * Pow2(8 * |t|) + BigEndian(t)
  {
    if t == [] {
      assert s + t == s;
    } else {
      var k := |t| - 1;
      BigEndianConcat(s, t[..k]);
      assert (s + t)[..|s + t| - 1] == s + t[..k];
      assert Pow2(8 * |t|) == 256 * Pow2(8 * k) by { Pow2Add(8, 8 * k); }
      ScaleSum(256, BigEndian(s), Pow2(8 * k), BigEndian(t[..k]));
    }
  }

  lemma {:induction false} BigEndianBound(s: seq<byte>)
    ensures BigEndian(s) < Pow2(8 * |s|)
  {
    if s != [] {
      BigEndianBound(s[..|s| - 1]);
      Pow2Add(8, 8 * (|s| - 1));
      Pow2Values();
    }
  }

  lemma {:induction false} BigEndianInjective(s: seq<byte>, t: seq<byte>)
    requires |s| == |t| && BigEndian(s) == BigEndian(t)
    ensures s == t
  {
    if s != [] {
      var k := |s| - 1;
      assert s[k] == BigEndian(s) % 256 && t[k] == BigEndian(t) % 256;
      BigEndianInjective(s[..k], t[..k]);
      assert s == s[..k] + [s[k]] && t == t[..k] + [t[k]];
    }
  }

  function Repeat(b: byte, n: nat): (s: seq<byte>)
    ensures |s| == n
  {
    seq(n, _ => b)
  }

  lemma RepeatSnoc(b: byte, n: nat)
    ensures Repeat(b, n + 1) == Repeat(b, n) + [b]
  {
  }

  lemma {:induction false} BigEndianZeros(n: nat)
    ensures BigEndian(Repeat(0, n)) == 0
  {
    if n > 0 {
      BigEndianZeros(n - 1);
      RepeatSnoc(0, n - 1);
      BigEndianSnoc(Repeat(0, n - 1), 0);
    }
  }

  /** n bytes of 0xFF are one short of the next byte position. */
  lemma {:induction false} BigEndianOnes(n: nat)
    ensures BigEndian(Repeat(0xFF, n)) == Pow2(8 * n) - 1
  {
    if n > 0 {
      BigEndianOnes(n - 1);
      RepeatSnoc(0xFF, n - 1);
      BigEndianSnoc(Repeat(0xFF, n - 1), 0xFF);
      Pow2Add(8, 8 * (n - 1));
      Pow2Values();
    }
  }

  // ----- byte stuffing

  /** A 0x00 after every 0xFF, so that data never looks like a marker. */
  function Stuff(s: seq<byte>): seq<byte>
  {
    if s == [] then []
    else Stuff(s[..|s| - 1]) + (if s[|s| - 1] == 0xFF then [0xFF, 0] else [s[|s| - 1]])
  }

  lemma StuffSnoc(s: seq<byte>, b: byte)
    ensures Stuff(s + [b]) == Stuff(s) + (if b == 0xFF then [0xFF, 0] else [b])
  {
    assert (s + [b])[..|s|] == s;
  }

  lemma {:induction false} StuffConcat(s: seq<byte>, t: seq<byte>)
    ensures Stuff(s + t) == Stuff(s) + Stuff(t)
  {
    if t == [] {
      assert s + t == s;
    } else {
      var k := |t| - 1;
      StuffConcat(s, t[..k]);
      assert (s + t)[..|s + t| - 1] == s + t[..k];
      assert (s + t)[|s + t| - 1] == t[k];
    }
  }

  lemma StuffHead(p: seq<byte>)
    requires p != []
    ensures Stuff(p) == (if p[0] == 0xFF then [0xFF, 0] else [p[0]]) + Stuff(p[1..])
  {
    assert p == [p[0]] + p[1..];
    StuffConcat([p[0]], p[1..]);
    StuffSnoc([], p[0]);
    assert [] + [p[0]] == [p[0]];
  }

  // ----- reading a segment back

  /** The data bytes before the first marker.  Any number of 0xFF may precede the
      0x00 that makes them one data byte. */
  function Segment(d: seq<byte>): seq<byte>
    decreases |d|
  {
    if d == [] then []
    else if d[0] != 0xFF then [d[0]] + Segment(d[1..])
    else SegmentAfterFF(d[1..])
  }

  function SegmentAfterFF(d: seq<byte>): seq<byte>
    decreases |d|
  {
    if d == [] then []
    else if d[0] == 0xFF then SegmentAfterFF(d[1..])
    else if d[0] == 0 then [0xFF] + Segment(d[1..])
    else []
  }

  /** Reading d runs into a marker, not off its end. */
  predicate MarkerAhead(d: seq<byte>)
    decreases |d|
  {
    d != [] && if d[0] != 0xFF then MarkerAhead(d[1..]) else MarkerAfterFF(d[1..])
  }

  predicate MarkerAfterFF(d: seq<byte>)
    decreases |d|
  {
    d != [] && (if d[0] == 0xFF then MarkerAfterFF(d[1..]) else d[0] == 0 ==> MarkerAhead(d[1..]))
  }

  /** The first marker met, and what follows it. */
  function MarkerOf(d: seq<byte>): (r: (byte, seq<byte>))
    requires MarkerAhead(d)
    ensures |r.1| < |d|
    decreases |d|
  {
    if d[0] != 0xFF then MarkerOf(d[1..]) else MarkerOfAfterFF(d[1..])
  }

  function MarkerOfAfterFF(d: seq<byte>): (r: (byte, seq<byte>))
    requires MarkerAfterFF(d)
    ensures |r.1| < |d|
    decreases |d|
  {
    if d[0] == 0xFF then MarkerOfAfterFF(d[1..])
    else if d[0] == 0 then MarkerOf(d[1..])
    else (d[0], d[1..])
  }

  predicate IsRestart(m: byte)
  {
    0xD0 <= m <= 0xD7
  }

  /** Every segment that ends in a restart marker is followed by another segment. */
  predicate EndsProperly(d: seq<byte>)
    decreases |d|
  {
    MarkerAhead(d) && (IsRestart(MarkerOf(d).0) ==> EndsProperly(MarkerOf(d).1))
  }

  /** Whatever bytes come first, a marker at the end is met. */
  lemma {:induction false} FinalMarkerIsMet(d: seq<byte>, m: byte)
    requires m != 0 && m != 0xFF
    ensures MarkerAhead(d + [0xFF, m])
    ensures MarkerAfterFF(d + [0xFF, m])
    decreases |d|
  {
    if d == [] {
      assert (d + [0xFF, m])[1..] == [m];
    } else {
      assert (d + [0xFF, m])[1..] == d[1..] + [0xFF, m];
      FinalMarkerIsMet(d[1..], m);
    }
  }

  /** A stuffed segment followed by a marker is read back exactly. */
  lemma {:induction false} UnstuffStuff(p: seq<byte>, m: byte)
    requires m != 0 && m != 0xFF
    ensures Segment(Stuff(p) + [0xFF, m]) == p
    decreases |p|
  {
    if p == [] {
      assert ([0xFF, m])[1..] == [m];
    } else {
      var rest := Stuff(p[1..]) + [0xFF, m];
      var head := if p[0] == 0xFF then [0xFF, 0] else [p[0]];
      StuffHead(p);
      assert Stuff(p) + [0xFF, m] == head + rest;
      UnstuffStuff(p[1..], m);
      if p[0] == 0xFF {
        assert (head + rest)[1..] == [0] + rest && ([0] + rest)[1..] == rest;
      } else {
        assert (head + rest)[1..] == rest;
      }
    }
  }

  lemma StuffedHead(b: byte, tail: seq<byte>)
    requires MarkerAhead(tail)
    ensures var d := (if b == 0xFF then [0xFF, 0] else [b]) + tail;
      MarkerAhead(d) && MarkerOf(d) == MarkerOf(tail) && Segment(d) == [b] + Segment(tail)
  {
    if b == 0xFF {
      assert ([0xFF, 0] + tail)[1..] == [0] + tail && ([0] + tail)[1..] == tail;
    } else {
      assert ([b] + tail)[1..] == tail;
    }
  }

  lemma MarkerFirst(m: byte, rest: seq<byte>)
    requires m != 0 && m != 0xFF
    ensures var d := [0xFF, m] + rest; MarkerAhead(d) && MarkerOf(d) == (m, rest) && Segment(d) == []
  {
    assert ([0xFF, m] + rest)[1..] == [m] + rest && ([m] + rest)[1..] == rest;
  }

  /** What follows the marker does not matter, and the marker is found. */
  lemma {:induction false} MarkerAfterSegment(p: seq<byte>, m: byte, rest: seq<byte>)
    requires m != 0 && m != 0xFF
    ensures var d := Stuff(p) + ([0xFF, m] + rest);
      MarkerAhead(d) && MarkerOf(d) == (m, rest) && Segment(d) == p
    decreases |p|
  {
    hide Segment, MarkerAhead, MarkerOf, Stuff;
    var end := [0xFF, m] + rest;
    if p == [] {
      MarkerFirst(m, rest);
      assert Stuff([]) + end == end by { StuffNothing(); }
    } else {
      var tail := Stuff(p[1..]) + end;
      var head := if p[0] == 0xFF then [0xFF, 0] else [p[0]];
      StuffHead(p);
      assert Stuff(p) + end == head + tail;
      MarkerAfterSegment(p[1..], m, rest);
      StuffedHead(p[0], tail);
    }
  }

  lemma StuffNothing()
    ensures Stuff([]) == []
  {
  }

  /** Inside a stuffed segment every 0xFF is followed by 0x00. */
  lemma {:induction false} StuffedFFs(p: seq<byte>, i: nat)
    requires i < |Stuff(p)| && Stuff(p)[i] == 0xFF
    ensures i + 1 < |Stuff(p)| && Stuff(p)[i + 1] == 0
    decreases |p|
  {
    if p != [] {
      var k := |p| - 1;
      if i < |Stuff(p[..k])| {
        StuffedFFs(p[..k], i);
      }
    }
  }
}
