/**
 The bit fetching of the Huffman decoders, with a 32-bit look-ahead buffer: bytes are
 loaded ahead of need, stuffing is removed, and after a marker zero bits are supplied.
 */
module BitReader {
  import opened Bytes
  import opened RestartSegments
  import opened BitStrings
  import opened BitWriter
  import opened CanonicalCode
  import opened HuffmanTables

  const BIT_BUF_SIZE := 32
  const MIN_GET_BITS := BIT_BUF_SIZE - 7

  /** Bit i of the data, which continues with zeros for ever. */
  predicate BitAt(stream: seq<bool>, i: nat)
  {
    i < |stream| && stream[i]
  }

  /** n bits of the data from bit `start` on. */
  function Window(stream: seq<bool>, start: nat, n: nat): (w: seq<bool>)
    ensures |w| == n
  {
    seq(n, i requires 0 <= i < n => BitAt(stream, start + i))
  }

  lemma WindowSplit(stream: seq<bool>, start: nat, m: nat, n: nat)
    ensures Window(stream, start, m + n) == Window(stream, start, m) + Window(stream, start + m, n)
  {
  }

  lemma WindowInside(stream: seq<bool>, start: nat, n: nat)
    requires start + n <= |stream|
    ensures Window(stream, start, n) == stream[start..start + n]
  {
    forall i | 0 <= i < n ensures Window(stream, start, n)[i] == stream[start..start + n][i] {
      assert Window(stream, start, n)[i] == BitAt(stream, start + i);
    }
  }

  lemma WindowPastEnd(stream: seq<bool>, start: nat, n: nat)
    requires |stream| <= start
    ensures Window(stream, start, n) == Bits(0, n)
  {
    ZeroBits(n);
    forall i | 0 <= i < n ensures Window(stream, start, n)[i] == Bits(0, n)[i] {
      assert Window(stream, start, n)[i] == BitAt(stream, start + i);
    }
  }

  lemma {:induction false} ZeroBits(n: nat)
    ensures forall i :: 0 <= i < n ==> !Bits(0, n)[i]
  {
    if n > 0 {
      ZeroBits(n - 1);
    }
  }

  /** Loading a byte. */
  lemma LoadByte(v: word, n: nat, c: byte)
    requires n + 8 <= 32
    ensures Bits((v * 256 + c) % 0x1_0000_0000, n + 8) == Bits(v, n) + Bits(c, 8)
  {
    Pow2Values();
    ShiftIn(v, n, c, 8);
  }

  /** Supplying k zero bits. */
  lemma LoadZeros(v: word, n: nat, k: nat)
    requires n + k <= 32
    ensures Bits(v * Pow2(k) % 0x1_0000_0000, n + k) == Bits(v, n) + Bits(0, k)
  {
    ShiftIn(v, n, 0, k);
  }

  /** The first n of the m + n bits in the buffer. */
  lemma TopBits(v: word, m: nat, n: nat)
    ensures Bits(v, n + m) == Bits(ShiftRight(v, m) % Pow2(n), n) + Bits(v, m)
  {
    hide Pow2, ShiftRight, Bits;
    BitsSplit(v, n, m);
    BitsOfMod(ShiftRight(v, m), n, n);
  }

  lemma BytesBitsHead(b: byte, rest: seq<byte>)
    ensures BytesBits([b] + rest) == Bits(b, 8) + BytesBits(rest)
  {
    BytesBitsConcat([b], rest);
    BytesBitsSnoc([], b);
    assert [] + [b] == [b];
  }

  lemma Loaded(stream: seq<bool>, taken: nat, v: word, n: nat, c: byte, rest: seq<byte>)
    requires n + 8 <= 32 && taken + n <= |stream| && stream[taken + n..] == BytesBits([c] + rest)
    requires Bits(v, n) == Window(stream, taken, n)
    ensures taken + n + 8 <= |stream| && stream[taken + n + 8..] == BytesBits(rest)
    ensures Bits((v * 256 + c) % 0x1_0000_0000, n + 8) == Window(stream, taken, n + 8)
  {
    hide Bits, BytesBits, Window;
    var ahead := stream[taken + n..];
    BytesBitsHead(c, rest);
    assert ahead[..8] == Bits(c, 8) && ahead[8..] == BytesBits(rest);
    assert stream[taken + n + 8..] == ahead[8..];
    LoadByte(v, n, c);
    WindowSplit(stream, taken, n, 8);
    WindowInside(stream, taken + n, 8);
    assert stream[taken + n..taken + n + 8] == ahead[..8];
  }

  lemma NothingAhead(stream: seq<bool>, loaded: nat)
    requires loaded <= |stream| && BytesBits([]) == stream[loaded..]
    ensures |stream| <= loaded
  {
  }

  lemma NoMoreBytes(stream: seq<bool>, taken: nat, v: word, n: nat)
    requires n <= MIN_GET_BITS && |stream| <= taken + n && Bits(v, n) == Window(stream, taken, n)
    ensures Bits(v * Pow2(MIN_GET_BITS - n) % 0x1_0000_0000, MIN_GET_BITS) == Window(stream, taken, MIN_GET_BITS)
  {
    hide Bits, Window;
    LoadZeros(v, n, MIN_GET_BITS - n);
    WindowSplit(stream, taken, n, MIN_GET_BITS - n);
    WindowPastEnd(stream, taken + n, MIN_GET_BITS - n);
  }

  // ----- what decoding a symbol means

  /** The data continue at `start` with code c of length l. */
  predicate Meets(bits: counts, stream: seq<bool>, start: nat, l: nat, c: nat)
  {
    IsCode(bits, l, c) && Window(stream, start, l) == Bits(c, l)
  }

  /** Reading a symbol at `start` gives s and goes on at `next`: the symbol of the code
      met there, or 0 and 17 bits further on if there is none. */
  ghost predicate ReadAs(t: table, stream: seq<bool>, start: nat, s: byte, next: nat)
    requires CodeCount(t) <= 256
  {
    if exists l, c :: Meets(t.bits, stream, start, l, c) then
      exists l, c :: Meets(t.bits, stream, start, l, c) && IsCode(t.bits, l, c)
        && SymbolOf(t, l, c) == s && next == start + l
    else s == 0 && next == start + 17
  }

  function SymbolOf(t: table, l: nat, c: nat): byte
    requires CodeCount(t) <= 256 && IsCode(t.bits, l, c)
  {
    IndexBound(t.bits, l, c);
    t.huffval[Index(t.bits, l, c)]
  }

  lemma WindowPrefix(stream: seq<bool>, start: nat, l: nat, m: nat)
    requires l <= m
    ensures Window(stream, start, m)[..l] == Window(stream, start, l)
  {
    WindowSplit(stream, start, l, m - l);
  }

  /** At most one code is met. */
  lemma OneCodeMet(bits: counts, stream: seq<bool>, start: nat, l: nat, c: nat, m: nat, d: nat)
    requires Legal(bits) && Meets(bits, stream, start, l, c) && Meets(bits, stream, start, m, d)
    ensures l == m && c == d
  {
    hide Bits, Window, Legal, First;
    if l <= m {
      WindowPrefix(stream, start, l, m);
      PrefixFree(bits, l, c, m, d);
    } else {
      WindowPrefix(stream, start, m, l);
      PrefixFree(bits, m, d, l, c);
    }
  }

  /** So the symbol of the code that is met is the one read. */
  lemma ReadsCode(t: table, stream: seq<bool>, start: nat, s: byte, next: nat, l: nat, c: nat)
    requires Legal(t.bits) && CodeCount(t) <= 256
    requires ReadAs(t, stream, start, s, next) && Meets(t.bits, stream, start, l, c)
    ensures s == SymbolOf(t, l, c) && next == start + l
  {
    hide Legal, Meets, First, Start;
    assert exists l, c :: Meets(t.bits, stream, start, l, c);
    var m, d :| Meets(t.bits, stream, start, m, d) && IsCode(t.bits, m, d)
      && SymbolOf(t, m, d) == s && next == start + m;
    OneCodeMet(t.bits, stream, start, l, c, m, d);
  }

  // ----- bit-serial decoding

  /** No code shorter than l is met. */
  ghost predicate NoneShorter(bits: counts, stream: seq<bool>, start: nat, l: nat)
  {
    forall m, d :: Meets(bits, stream, start, m, d) ==> l <= m
  }

  /** The first l bits of the data at `start` spell code. */
  predicate Spelled(stream: seq<bool>, start: nat, l: nat, code: nat)
  {
    code < Pow2(l) && Bits(code, l) == Window(stream, start, l)
  }

  lemma NextBit(stream: seq<bool>, start: nat, l: nat, code: nat, bit: nat)
    requires Spelled(stream, start, l, code) && Spelled(stream, start + l, 1, bit)
    ensures Spelled(stream, start, l + 1, 2 * code + bit)
  {
    hide Bits, Window;
    assert Pow2(1) == 2;
    BitsAppend(code, l, bit, 1);
    WindowSplit(stream, start, l, 1);
  }

  lemma DropBit(stream: seq<bool>, start: nat, l: nat, code: nat)
    requires Spelled(stream, start, l + 1, code)
    ensures Spelled(stream, start, l, code / 2)
  {
    hide Window;
    WindowPrefix(stream, start, l, l + 1);
    assert Bits(code, l + 1)[..l] == Bits(code / 2, l);
  }

  lemma SpelledOnce(stream: seq<bool>, start: nat, l: nat, code: nat, d: nat)
    requires Spelled(stream, start, l, code) && d < Pow2(l) && Bits(d, l) == Window(stream, start, l)
    ensures d == code
  {
    ValueOfBits(code, l);
    ValueOfBits(d, l);
  }

  /** Data that begin with no code shorter than l are not below the first code of
      length l. */
  lemma {:induction false} NotBelowFirst(bits: counts, stream: seq<bool>, start: nat, l: nat, code: nat)
    requires Legal(bits) && 1 <= l <= 17 && Spelled(stream, start, l, code) && NoneShorter(bits, stream, start, l)
    ensures First(bits, l) <= code
  {
    hide Bits, Window, Pow2, Legal, Spelled;
    if l > 1 {
      DropBit(stream, start, l - 1, code);
      FewerAreNone(bits, stream, start, l);
      NotBelowFirst(bits, stream, start, l - 1, code / 2);
      if IsCode(bits, l - 1, code / 2) {
        MeetsSpelled(bits, stream, start, l - 1, code / 2);
      }
    }
  }

  lemma FewerAreNone(bits: counts, stream: seq<bool>, start: nat, l: nat)
    requires l > 0 && NoneShorter(bits, stream, start, l)
    ensures NoneShorter(bits, stream, start, l - 1)
  {
    hide Meets;
  }

  lemma MeetsSpelled(bits: counts, stream: seq<bool>, start: nat, l: nat, code: nat)
    requires Spelled(stream, start, l, code) && IsCode(bits, l, code)
    ensures Meets(bits, stream, start, l, code)
  {
  }

  class Reader {
    const data: seq<byte>
    var pos: nat            // next input byte
    var unreadMarker: byte  // marker that ended the data, or 0
    var getBuffer: word
    var bitsLeft: nat
    var insufficientData: bool
    ghost var stream: seq<bool>  // the data bits before the marker
    ghost var taken: nat         // bits handed out
    ghost var ending: (byte, seq<byte>)  // the marker, and what follows it

    ghost predicate Input()
      reads this
    {
      var loaded := taken + bitsLeft;
      && pos <= |data|
      && (unreadMarker == 0 ==>
        && loaded <= |stream| && MarkerAhead(data[pos..]) && MarkerOf(data[pos..]) == ending
        && BytesBits(Segment(data[pos..])) == stream[loaded..])
      && (unreadMarker != 0 ==> |stream| <= loaded && (unreadMarker, data[pos..]) == ending)
    }

    /** The low bits of the buffer are the next bits of the data. */
    ghost predicate Valid()
      reads this
    {
      Input() && bitsLeft <= BIT_BUF_SIZE && Bits(getBuffer, bitsLeft) == Window(stream, taken, bitsLeft)
    }

    constructor (input: seq<byte>)
      requires MarkerAhead(input)
      ensures Valid() && data == input && stream == BytesBits(Segment(input)) && taken == 0
      ensures ending == MarkerOf(input) && !insufficientData
    {
      hide Bits, BytesBits, Segment, MarkerAhead, MarkerOf;
      data, stream, ending := input, BytesBits(Segment(input)), MarkerOf(input);
      pos, unreadMarker, getBuffer, bitsLeft, insufficientData, taken := 0, 0, 0, 0, false, 0;
      new;
      assert data[pos..] == input && stream[0..] == stream;
      assert Bits(getBuffer, 0) == [] && Window(stream, 0, 0) == [];
    }

    /** The next data byte, removing stuffing; or the marker that ends the data. */
    method NextByte() returns (c: byte)
      requires unreadMarker == 0 && pos <= |data| && MarkerAhead(data[pos..])
      modifies this`pos, this`unreadMarker
      ensures pos <= |data|
      ensures unreadMarker == 0 ==> MarkerAhead(data[pos..]) && MarkerOf(data[old(pos)..]) == MarkerOf(data[pos..])
      ensures unreadMarker == 0 ==> Segment(data[old(pos)..]) == [c] + Segment(data[pos..])
      ensures unreadMarker != 0 ==> (Segment(data[old(pos)..]) == []
        && MarkerOf(data[old(pos)..]) == (unreadMarker, data[pos..]))
    {
      ghost var rest := data[pos..];
      c := data[pos];
      pos := pos + 1;
      assert data[pos..] == rest[1..];
      if c == 0xFF {
        c := SkipFill();
        if c == 0 {
          c := 0xFF;
        } else {
          unreadMarker := c;
        }
      }
    }

    /** After an 0xFF: swallow extra 0xFF bytes and return what follows them. */
    method SkipFill() returns (c: byte)
      requires pos <= |data| && MarkerAfterFF(data[pos..])
      modifies this`pos
      ensures old(pos) < pos <= |data| && c != 0xFF
      ensures c == 0 ==> MarkerAhead(data[pos..]) && MarkerOfAfterFF(data[old(pos)..]) == MarkerOf(data[pos..])
      ensures c == 0 ==> SegmentAfterFF(data[old(pos)..]) == [0xFF] + Segment(data[pos..])
      ensures c != 0 ==> SegmentAfterFF(data[old(pos)..]) == [] && MarkerOfAfterFF(data[old(pos)..]) == (c, data[pos..])
    {
      ghost var all, rest := SegmentAfterFF(data[pos..]), data[pos..];
      ghost var end := MarkerOfAfterFF(rest);
      c := data[pos];
      pos := pos + 1;
      assert data[pos..] == rest[1..];
      while c == 0xFF
        invariant old(pos) < pos <= |data|
        invariant c == 0xFF ==> MarkerAfterFF(data[pos..]) && MarkerOfAfterFF(data[pos..]) == end
        invariant c == 0xFF ==> SegmentAfterFF(data[pos..]) == all
        invariant c == 0 ==> (MarkerAhead(data[pos..]) && all == [0xFF] + Segment(data[pos..])
          && end == MarkerOf(data[pos..]))
        invariant c != 0xFF && c != 0 ==> all == [] && end == (c, data[pos..])
        decreases |data| - pos, c
      {
        rest := data[pos..];
        c := data[pos];
        pos := pos + 1;
        assert data[pos..] == rest[1..];
      }
    }

    /** Load one byte, or meet the marker. */
    method LoadNext()
      requires Valid() && unreadMarker == 0 && bitsLeft < MIN_GET_BITS
      modifies this`pos, this`unreadMarker, this`getBuffer, this`bitsLeft
      ensures Valid() && bitsLeft == old(bitsLeft) + if unreadMarker == 0 then 8 else 0
    {
      hide Bits, Pow2, BytesBits, Segment, MarkerAhead, MarkerOf, Window;
      var c := NextByte();
      if unreadMarker == 0 {
        Loaded(stream, taken, getBuffer, bitsLeft, c, Segment(data[pos..]));
        getBuffer := (getBuffer * 256 + c) % 0x1_0000_0000;
        bitsLeft := bitsLeft + 8;
      } else {
        NothingAhead(stream, taken + bitsLeft);
      }
    }

    /** jpeg_fill_bit_buffer: load as many bytes as fit; if there are fewer than nbits
        bits before the marker, make the rest up with zeros. */
    method FillBitBuffer(nbits: nat)
      requires Valid() && bitsLeft <= MIN_GET_BITS && nbits <= MIN_GET_BITS
      modifies this`pos, this`unreadMarker, this`getBuffer, this`bitsLeft, this`insufficientData
      ensures Valid() && nbits <= bitsLeft
      ensures bitsLeft < MIN_GET_BITS ==> |stream| <= taken + bitsLeft
      ensures nbits == 0 || taken + nbits <= |stream| ==> insufficientData == old(insufficientData)
    {
      hide Bits, Pow2, BytesBits, Segment, MarkerAhead, MarkerOf, Window;
      if unreadMarker == 0 {
        while bitsLeft < MIN_GET_BITS && unreadMarker == 0
          invariant Valid() && (unreadMarker == 0 || bitsLeft <= MIN_GET_BITS)
          invariant insufficientData == old(insufficientData)
          decreases unreadMarker == 0, 32 - bitsLeft
        {
          LoadNext();
        }
      }
      if unreadMarker != 0 && nbits > bitsLeft {
        insufficientData := true;
        NoMoreBytes(stream, taken, getBuffer, bitsLeft);
        getBuffer := getBuffer * Pow2(MIN_GET_BITS - bitsLeft) % 0x1_0000_0000;
        bitsLeft := MIN_GET_BITS;
      }
    }
  
    /** process_restart and read_restart_marker: throw away what is left in the buffer
        and go on after the marker, if it is restart marker n. */
    method ReadRestartMarker(n: nat) returns (ok: bool)
      requires Valid() && n < 8 && (IsRestart(ending.0) ==> MarkerAhead(ending.1))
      modifies this
      ensures ok == (old(ending).0 == 0xD0 + n)
      ensures ok ==> Valid() && stream == BytesBits(Segment(old(ending).1)) && taken == 0 && !insufficientData
      ensures ok ==> ending == MarkerOf(old(ending).1)
    {
      hide Bits, BytesBits, Segment, MarkerAhead, MarkerOf;
      bitsLeft := 0;
      if unreadMarker == 0 {
        unreadMarker, pos := NextMarker(data, pos);
      }
      if unreadMarker != 0xD0 + n {
        return false;
      }
      unreadMarker, insufficientData := 0, false;
      stream, taken, ending := BytesBits(Segment(data[pos..])), 0, MarkerOf(data[pos..]);
      ok := true;
      assert stream[0..] == stream;
      assert Bits(getBuffer, 0) == [] && Window(stream, 0, 0) == [];
    }

    /** CHECK_BIT_BUFFER and GET_BITS. */
    method GetBits(n: nat) returns (v: nat)
      requires Valid() && n <= 16
      modifies this`pos, this`unreadMarker, this`getBuffer, this`bitsLeft, this`insufficientData, this`taken
      ensures Valid() && taken == old(taken) + n && v < Pow2(n) && Bits(v, n) == Window(stream, old(taken), n)
      ensures taken <= |stream| ==> insufficientData == old(insufficientData)
    {
      hide Bits, Pow2, BytesBits, Segment, MarkerAhead, MarkerOf, Window, ShiftRight;
      if bitsLeft < n {
        FillBitBuffer(n);
      }
      Taken(stream, taken, getBuffer, bitsLeft - n, n);
      bitsLeft := bitsLeft - n;
      v := ShiftRight(getBuffer, bitsLeft) % Pow2(n);
      taken := taken + n;
    }

    /** PEEK_BITS, when the buffer holds enough. */
    method PeekBits(n: nat) returns (v: nat)
      requires Valid() && n <= bitsLeft
      ensures v < Pow2(n) && Bits(v, n) == Window(stream, taken, n)
    {
      hide Bits, Pow2, BytesBits, Segment, MarkerAhead, MarkerOf, Window, ShiftRight;
      Taken(stream, taken, getBuffer, bitsLeft - n, n);
      v := ShiftRight(getBuffer, bitsLeft - n) % Pow2(n);
    }

    /** DROP_BITS. */
    method DropBits(n: nat)
      requires Valid() && n <= bitsLeft
      modifies this`bitsLeft, this`taken
      ensures Valid() && taken == old(taken) + n
    {
      hide Bits, Pow2, BytesBits, Segment, MarkerAhead, MarkerOf, Window, ShiftRight;
      Taken(stream, taken, getBuffer, bitsLeft - n, n);
      bitsLeft, taken := bitsLeft - n, taken + n;
    }
  
    /** jpeg_huff_decode, Figure F.16: the first minBits bits are fetched at once, the
        others one at a time. */
    method JpegHuffDecode(d: DDerived, minBits: nat, ghost t: table) returns (s: byte)
      requires Valid() && Legal(t.bits) && CodeCount(t) <= 256 && Decodes(t, d) && 1 <= minBits <= 16
      requires NoneShorter(t.bits, stream, taken, minBits)
      modifies this`pos, this`unreadMarker, this`getBuffer, this`bitsLeft, this`insufficientData, this`taken
      ensures Valid() && ReadAs(t, stream, old(taken), s, taken)
      ensures taken <= |stream| ==> insufficientData == old(insufficientData)
    {
      hide Valid, Bits, Pow2, Window, Legal, First, Start, NoneShorter, ReadAs, Filled, LimitsOf, Meets;
      ghost var start := taken;
      var l := minBits;
      var code: nat := GetBits(l);
      while code > d.maxcode[l]
        invariant Valid() && 1 <= l <= 17 && taken == start + l
        invariant Spelled(stream, start, l, code) && NoneShorter(t.bits, stream, start, l)
        invariant taken <= |stream| ==> insufficientData == old(insufficientData)
        decreases 17 - l
      {
        var bit: nat := GetBits(1);
        TooLong(t, d, stream, start, l, code);
        NextBit(stream, start, l, code, bit);
        code := 2 * code + bit;
        l := l + 1;
      }
      Found(t, d, stream, start, l, code);
      if l > 16 {
        return 0;
      }
      s := d.huffval[code + d.valoffset[l]];
    }
  
    /** HUFF_DECODE: the next 8 bits usually tell the symbol at once. */
    method HuffDecode(d: DDerived, ghost t: table) returns (s: byte)
      requires Valid() && Legal(t.bits) && CodeCount(t) <= 256 && Decodes(t, d)
      modifies this`pos, this`unreadMarker, this`getBuffer, this`bitsLeft, this`insufficientData, this`taken
      ensures Valid() && ReadAs(t, stream, old(taken), s, taken)
      ensures taken <= |stream| ==> insufficientData == old(insufficientData)
    {
      hide Valid, Bits, Pow2, Window, Legal, First, Start, NoneShorter, ReadAs, Decodes, Meets;
      if bitsLeft < HUFF_LOOKAHEAD {
        FillBitBuffer(0);
        if bitsLeft < HUFF_LOOKAHEAD {
          NoCodeIsEmpty(t.bits, stream, taken);
          s := JpegHuffDecode(d, 1, t);
          return;
        }
      }
      var look: nat := PeekBits(HUFF_LOOKAHEAD);
      LookupFinds(t, d, stream, taken, look);
      var nb := d.lookup[look] / 256;
      if nb <= HUFF_LOOKAHEAD {
        DropBits(nb);
        s := d.lookup[look] % 256;
      } else {
        s := JpegHuffDecode(d, nb, t);
      }
    }
  }

  lemma NoCodeIsEmpty(bits: counts, stream: seq<bool>, start: nat)
    ensures NoneShorter(bits, stream, start, 1)
  {
    hide First, Window;
  }

  /** An entry of the lookahead table agrees with bit-serial decoding. */
  lemma LookupFinds(t: table, d: DDerived, stream: seq<bool>, start: nat, look: nat)
    requires Legal(t.bits) && CodeCount(t) <= 256 && Decodes(t, d) && Spelled(stream, start, 8, look)
    ensures look < |d.lookup|
    ensures var nb, s := d.lookup[look] / 256, d.lookup[look] % 256;
      && (nb <= 8 ==> nb >= 1 && ReadAs(t, stream, start, s, start + nb))
      && (nb > 8 ==> nb == 9 && NoneShorter(t.bits, stream, start, 9))
  {
    assert Pow2(8) == 256 by { Pow2Values(); }
    hide Pow2, First, Start, Legal, Bits, Window, NoneShorter, EntryFrom, LimitsBelow;
    NoCodeIsEmpty(t.bits, stream, start);
    EntryFinds(t, stream, start, look, 1);
  }

  lemma {:induction false} EntryFinds(t: table, stream: seq<bool>, start: nat, look: nat, l: nat)
    requires Legal(t.bits) && CodeCount(t) <= 256 && Spelled(stream, start, 8, look)
    requires 1 <= l <= 9 && NoneShorter(t.bits, stream, start, l)
    ensures var e := EntryFrom(t, look, l);
      && (e / 256 <= 8 ==> e / 256 >= 1 && ReadAs(t, stream, start, e % 256, start + e / 256))
      && (e / 256 > 8 ==> e / 256 == 9 && NoneShorter(t.bits, stream, start, 9))
    decreases 9 - l
  {
    hide Pow2, First, Start, Legal, Bits, Window, NoneShorter, Spelled, ReadAs, ShiftRight;
    if l < 9 {
      var c := ShiftRight(look, 8 - l);
      DropLast(stream, start, l, look);
      if IsCode(t.bits, l, c) {
        EntryRead(t, stream, start, l, c);
      } else {
        NoneOfLength(t.bits, stream, start, l, c);
        EntryFinds(t, stream, start, look, l + 1);
      }
    }
  }

  lemma EntryRead(t: table, stream: seq<bool>, start: nat, l: nat, c: nat)
    requires CodeCount(t) <= 256 && Spelled(stream, start, l, c) && IsCode(t.bits, l, c)
    ensures ReadAs(t, stream, start, SymbolOf(t, l, c), start + l)
  {
    hide First, Start, Pow2, Bits, Window;
    MeetsSpelled(t.bits, stream, start, l, c);
  }

  lemma DropLast(stream: seq<bool>, start: nat, l: nat, look: nat)
    requires l <= 8 && Spelled(stream, start, 8, look)
    ensures Spelled(stream, start, l, ShiftRight(look, 8 - l))
  {
    hide Pow2, Bits, Window, ShiftRight;
    BitsSplit(look, l, 8 - l);
    WindowPrefix(stream, start, l, 8);
    Pow2Add(l, 8 - l);
    ShiftBounds(look, 8 - l, Pow2(l));
    assert Bits(look, 8)[..l] == Bits(ShiftRight(look, 8 - l), l);
  }

  lemma NoneOfLength(bits: counts, stream: seq<bool>, start: nat, l: nat, code: nat)
    requires Legal(bits) && 1 <= l <= 16 && Spelled(stream, start, l, code) && NoneShorter(bits, stream, start, l)
    requires !IsCode(bits, l, code)
    ensures NoneShorter(bits, stream, start, l + 1)
  {
    hide First, Legal, Spelled, Window, Bits;
    forall m, d | Meets(bits, stream, start, m, d) ensures l < m {
      if m == l {
        CodeFits(bits, m, d);
        SpelledOnce(stream, start, l, code, d);
      }
    }
  }

  lemma TooLong(t: table, d: DDerived, stream: seq<bool>, start: nat, l: nat, code: nat)
    requires Legal(t.bits) && CodeCount(t) <= 256 && Decodes(t, d) && 1 <= l <= 17
    requires Spelled(stream, start, l, code) && NoneShorter(t.bits, stream, start, l) && code > d.maxcode[l]
    ensures l <= 16 && NoneShorter(t.bits, stream, start, l + 1)
  {
    hide First, Start, Legal, NoneShorter, Filled, Bits, Window;
    assert Pow2(17) < 0xFFFFF by { Pow2Values(); Pow2Add(16, 1); }
    hide Pow2;
    NotBelowFirst(t.bits, stream, start, l, code);
    assert l <= 16;
    assert LimitsOf(t, d.maxcode, d.valoffset, l);
    NoneOfLength(t.bits, stream, start, l, code);
  }

  lemma Found(t: table, d: DDerived, stream: seq<bool>, start: nat, l: nat, code: nat)
    requires Legal(t.bits) && CodeCount(t) <= 256 && Decodes(t, d) && 1 <= l <= 17
    requires Spelled(stream, start, l, code) && NoneShorter(t.bits, stream, start, l) && code <= d.maxcode[l]
    ensures l > 16 ==> ReadAs(t, stream, start, 0, start + 17)
    ensures l <= 16 ==> (0 <= code + d.valoffset[l] < 256
      && ReadAs(t, stream, start, d.huffval[code + d.valoffset[l]], start + l))
  {
    hide First, Start, Legal, Filled, Bits, Window, Pow2, Spelled;
    if l <= 16 {
      NotBelowFirst(t.bits, stream, start, l, code);
      assert LimitsOf(t, d.maxcode, d.valoffset, l);
      MeetsSpelled(t.bits, stream, start, l, code);
      hide Meets, NoneShorter;
      IndexBound(t.bits, l, code);
      assert SymbolOf(t, l, code) == d.huffval[code + d.valoffset[l]];
    }
  }

  /** Handing out the first n of the m + n bits in the buffer. */
  lemma Taken(stream: seq<bool>, taken: nat, v: word, m: nat, n: nat)
    requires Bits(v, n + m) == Window(stream, taken, n + m)
    ensures var x := ShiftRight(v, m) % Pow2(n);
      x < Pow2(n) && Bits(x, n) == Window(stream, taken, n) && Bits(v, m) == Window(stream, taken + n, m)
  {
    hide Bits, Pow2, Window, ShiftRight;
    var x := ShiftRight(v, m) % Pow2(n);
    TopBits(v, m, n);
    WindowSplit(stream, taken, n, m);
    assert Bits(v, n + m)[..n] == Bits(x, n) && Bits(v, n + m)[n..] == Bits(v, m);
  }
}
