/** A scan in restart intervals: entropy-coded segments with restart markers between them
    (section B.1.1.5 of ITU-T T.81), and the search for the next marker (jdmarker.c). */
module RestartSegments {
  import opened Bytes

  const RST0 := 0xD0

  /** Whole segments, each followed by its restart marker. */
  function Spliced(segments: seq<seq<byte>>): seq<byte>
  {
    if segments == [] then []
    else
      var n := |segments| - 1;
      Spliced(segments[..n]) + Stuff(segments[n]) + [0xFF, RST0 + n % 8]
  }

  /** The input from segment i on: each segment is followed by its restart marker, the
      last one by `marker`. */
  function SegmentsFrom(segs: seq<seq<byte>>, i: nat, marker: byte): seq<byte>
    requires i <= |segs|
    decreases |segs| - i
  {
    if i == |segs| then []
    else Stuff(segs[i]) + ([0xFF, MarkerAfter(segs, i, marker)] + SegmentsFrom(segs, i + 1, marker))
  }

  function MarkerAfter(segs: seq<seq<byte>>, i: nat, marker: byte): byte
    requires i < |segs|
  {
    if i + 1 < |segs| then RST0 + i % 8 else marker
  }

  /** The markers are numbered modulo 8. */
  lemma NextNumber(k: nat)
    ensures (k % 8 + 1) % 8 == (k + 1) % 8
  {
  }

  lemma SegmentAt(segs: seq<seq<byte>>, i: nat, marker: byte)
    requires i < |segs| && marker != 0 && marker != 0xFF
    ensures var d := SegmentsFrom(segs, i, marker);
      && MarkerAhead(d) && Segment(d) == segs[i]
      && MarkerOf(d) == (MarkerAfter(segs, i, marker), SegmentsFrom(segs, i + 1, marker))
  {
    MarkerAfterSegment(segs[i], MarkerAfter(segs, i, marker), SegmentsFrom(segs, i + 1, marker));
  }

  lemma {:induction false} SegmentsEndProperly(segs: seq<seq<byte>>, i: nat, marker: byte)
    requires i < |segs| && marker != 0 && marker != 0xFF && !IsRestart(marker)
    ensures EndsProperly(SegmentsFrom(segs, i, marker))
    decreases |segs| - i
  {
    SegmentAt(segs, i, marker);
    if i + 1 < |segs| {
      SegmentsEndProperly(segs, i + 1, marker);
    }
  }

  lemma SplicedNext(segs: seq<seq<byte>>, i: nat)
    requires i < |segs|
    ensures Spliced(segs[..i + 1]) == Spliced(segs[..i]) + Stuff(segs[i]) + [0xFF, RST0 + i % 8]
  {
    hide Stuff;
    assert segs[..i + 1][..i] == segs[..i];
  }

  /** Segment i of the output ends in 0xFF and the marker 0xD0 + i modulo 8. */
  lemma {:induction false} MarkersAreNumbered(segs: seq<seq<byte>>, i: nat)
    requires i < |segs|
    ensures var out, p := Spliced(segs), |Spliced(segs[..i])| + |Stuff(segs[i])|;
      p + 2 <= |out| && out[p] == 0xFF && out[p + 1] == 0xD0 + i % 8
    decreases |segs|
  {
    hide Stuff, Spliced;
    var n := |segs| - 1;
    SplicedNext(segs, n);
    assert segs[..n + 1] == segs;
    if i < n {
      MarkersAreNumbered(segs[..n], i);
      assert segs[..n][..i] == segs[..i] && segs[..n][i] == segs[i];
    }
  }

  lemma SegmentsNext(segs: seq<seq<byte>>, i: nat, marker: byte)
    requires i + 1 < |segs|
    ensures SegmentsFrom(segs, i, marker) == Stuff(segs[i]) + ([0xFF, RST0 + i % 8] + SegmentsFrom(segs, i + 1, marker))
  {
    hide Stuff;
  }

  /** The encoder's output and a marker, seen from the front. */
  lemma {:induction false} SplicedInOrder(segs: seq<seq<byte>>, i: nat, marker: byte)
    requires i < |segs|
    ensures Spliced(segs[..i]) + SegmentsFrom(segs, i, marker) == SegmentsFrom(segs, 0, marker)
  {
    hide Stuff, SegmentsFrom;
    if i > 0 {
      hide Spliced;
      SplicedInOrder(segs, i - 1, marker);
      SplicedNext(segs, i - 1);
      SegmentsNext(segs, i - 1, marker);
      Reassociated(Spliced(segs[..i - 1]), Stuff(segs[i - 1]), [0xFF, RST0 + (i - 1) % 8],
        SegmentsFrom(segs, i, marker));
    } else {
      assert Spliced(segs[..0]) == [];
      assert [] + SegmentsFrom(segs, 0, marker) == SegmentsFrom(segs, 0, marker);
    }
  }

  lemma Reassociated(a: seq<byte>, b: seq<byte>, c: seq<byte>, d: seq<byte>)
    ensures (a + b + c) + d == a + (b + (c + d))
  {
  }

  lemma OutputThenMarker(segs: seq<seq<byte>>, sent: seq<byte>, marker: byte)
    requires segs != [] && sent == Spliced(segs[..|segs| - 1]) + Stuff(segs[|segs| - 1])
    ensures sent + [0xFF, marker] == SegmentsFrom(segs, 0, marker)
  {
    hide Stuff, Spliced;
    var n := |segs| - 1;
    SplicedInOrder(segs, n, marker);
    assert SegmentsFrom(segs, n, marker) == Stuff(segs[n]) + ([0xFF, marker] + []);
    assert [0xFF, marker] + [] == [0xFF, marker];
  }

  /** next_marker, from position `pos` of the data: skip whatever is left of the segment. */
  method NextMarker(data: seq<byte>, pos: nat) returns (m: byte, next: nat)
    requires pos <= |data| && MarkerAhead(data[pos..])
    ensures next <= |data| && m != 0 && MarkerOf(data[pos..]) == (m, data[next..])
  {
    ghost var end := MarkerOf(data[pos..]);
    m, next := 0, pos;
    while m == 0
      invariant next <= |data| && m != 0xFF
      invariant if m == 0 then MarkerAhead(data[next..]) && MarkerOf(data[next..]) == end else end == (m, data[next..])
      decreases |data| - next, m == 0
    {
      ghost var start, rest := next, data[next..];
      m, next := data[next], next + 1;
      assert data[next..] == rest[1..];
      while m != 0xFF
        invariant start < next <= |data|
        invariant m == 0xFF ==> MarkerAfterFF(data[next..]) && MarkerOfAfterFF(data[next..]) == end
        invariant m != 0xFF ==> MarkerAhead(data[next..]) && MarkerOf(data[next..]) == end
        decreases |data| - next, m != 0xFF
      {
        rest := data[next..];
        m, next := data[next], next + 1;
        assert data[next..] == rest[1..];
      }
      while m == 0xFF
        invariant start < next <= |data|
        invariant m == 0xFF ==> MarkerAfterFF(data[next..]) && MarkerOfAfterFF(data[next..]) == end
        invariant m == 0 ==> MarkerAhead(data[next..]) && MarkerOf(data[next..]) == end
        invariant m != 0xFF && m != 0 ==> end == (m, data[next..])
        decreases |data| - next, m == 0xFF
      {
        rest := data[next..];
        m, next := data[next], next + 1;
        assert data[next..] == rest[1..];
      }
    }
  }
}
