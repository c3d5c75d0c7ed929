/** The tables derived from a Huffman table, for encoding and for decoding. */
module HuffmanTables {
  import opened Bytes
  import opened BitStrings
  import opened CanonicalCode
  import opened Nonlinear

  /** A table as a DHT marker gives it: counts by length, symbols in code order. */
  datatype HuffTable = HuffTable(bits: counts, huffval: seq<byte>)
  type table = t: HuffTable | |t.huffval| == 256 witness HuffTable(seq(17, _ => 0), seq(256, _ => 0))

  /** How many codes a table has. */
  function CodeCount(t: table): nat
  {
    Start(t.bits, 17)
  }

  /** Figure C.1: the code lengths in table order, ended by a zero. */
  method GenerateSizes(bits: counts) returns (ok: bool, huffsize: array<nat>)
    ensures ok == (Start(bits, 17) <= 256) && fresh(huffsize) && huffsize.Length == 257
    ensures ok ==> Sized(bits, huffsize[..])
  {
    hide CodeOf, First, Length;
    huffsize := new nat[257];
    var p, l := 0, 1;
    while l <= 16
      invariant 1 <= l <= 17 && p == Start(bits, l) <= 256 && p <= Start(bits, 17)
      invariant forall q :: 0 <= q < p ==> huffsize[q] == Length(bits, q)
    {
      StartMonotone(bits, l + 1, 17);
      if p + bits[l] > 256 {
        return false, huffsize;
      }
      var i := bits[l];
      while i > 0
        invariant 0 <= i <= bits[l] && p == Start(bits, l + 1) - i
        invariant forall q :: 0 <= q < p ==> huffsize[q] == Length(bits, q)
      {
        InLength(bits, l, p);
        huffsize[p] := l;
        p, i := p + 1, i - 1;
      }
      l := l + 1;
    }
    huffsize[p] := 0;
    ok := true;
  }

  predicate Sized(bits: counts, huffsize: seq<nat>)
  {
    var n := Start(bits, 17);
    && n < |huffsize| && huffsize[n] == 0
    && forall q :: 0 <= q < n ==> huffsize[q] == Length(bits, q)
  }

  /** The check made so far: at every length below si a code is left over. */
  ghost predicate FitsBelow(bits: counts, si: nat)
  {
    forall l :: 1 <= l < si && l <= 16 ==> First(bits, l) + bits[l] < Pow2(l)
  }

  lemma {:induction false} NoShorterCode(bits: counts, l: nat)
    requires 1 <= l <= 17 && Start(bits, l) == 0
    ensures First(bits, l) == 0 && FitsBelow(bits, l)
  {
    hide Pow2;
    if l > 1 {
      NoShorterCode(bits, l - 1);
    }
  }

  lemma FirstFits(bits: counts, l: nat)
    requires 1 <= l <= 16 && FitsBelow(bits, l)
    ensures First(bits, l) < Pow2(l)
  {
    if l > 1 {
      assert First(bits, l - 1) + bits[l - 1] < Pow2(l - 1);
    }
  }

  lemma {:induction false} NoLongerCode(bits: counts, l: nat, m: nat)
    requires 1 <= l <= m <= 17 && Start(bits, l) == Start(bits, 17) && FitsBelow(bits, l)
    ensures FitsBelow(bits, m)
    decreases m
  {
    hide Pow2, First;
    if l < m {
      NoLongerCode(bits, l, m - 1);
      StartMonotone(bits, l, m - 1);
      StartMonotone(bits, m, 17);
      assert bits[m - 1] == 0;
      FirstFits(bits, m - 1);
    }
  }

  lemma FitsOne(bits: counts, l: nat)
    requires 1 <= l <= 16 && FitsBelow(bits, l)
    ensures First(bits, l) + bits[l] < Pow2(l) ==> FitsBelow(bits, l + 1)
    ensures First(bits, l) + bits[l] >= Pow2(l) ==> !Legal(bits)
  {
    hide Pow2, First;
  }

  lemma AllFit(bits: counts)
    requires Start(bits, 17) <= 256 && FitsBelow(bits, 17)
    ensures Legal(bits)
  {
    hide Pow2, First;
  }

  /** Entries of the size table at and around the codes of length l. */
  lemma SizeEntry(bits: counts, sizes: seq<nat>, l: nat, p: nat)
    requires Sized(bits, sizes) && 1 <= l <= 16 && Start(bits, l) <= p <= Start(bits, l + 1)
    ensures p <= Start(bits, 17) < |sizes| && (sizes[p] == l <==> p < Start(bits, l + 1))
    ensures p < Start(bits, l + 1) ==> CodeOf(bits, p) == First(bits, l) + p - Start(bits, l)
  {
    hide First, CodeOf;
    StartMonotone(bits, l + 1, 17);
    if p < Start(bits, l + 1) {
      InLength(bits, l, p);
    }
  }

  /** Figure C.2: the codes themselves, with the check that they form a legal tree. */
  method GenerateCodes(bits: counts, huffsize: array<nat>) returns (ok: bool, huffcode: array<nat>)
    requires Start(bits, 17) <= 256 && huffsize.Length == 257 && Sized(bits, huffsize[..])
    ensures ok == Legal(bits) && fresh(huffcode) && huffcode.Length == 257
    ensures ok ==> forall q :: 0 <= q < Start(bits, 17) ==> huffcode[q] == CodeOf(bits, q)
  {
    hide Pow2, CodeOf, Length, Legal, FitsBelow, First, Start;
    huffcode := new nat[257];
    ghost var n, sizes := Start(bits, 17), huffsize[..];
    var code, si, p := 0, huffsize[0], 0;
    ghost var level := if n == 0 then 1 else si;
    FirstLevel(bits, sizes);
    while huffsize[p] != 0
      invariant 1 <= level <= 17 && (n > 0 ==> si == level)
      invariant p == Start(bits, level) <= n && code == First(bits, level) && FitsBelow(bits, level)
      invariant forall q :: 0 <= q < p ==> huffcode[q] == CodeOf(bits, q)
      decreases 17 - level
    {
      SizesPositive(bits, sizes, p);
      StartNext(bits, si);
      SizeEntry(bits, sizes, si, p);
      while huffsize[p] == si
        invariant Start(bits, si) <= p <= Start(bits, si + 1) <= n && code == First(bits, si) + p - Start(bits, si)
        invariant huffsize[p] == si <==> p < Start(bits, si + 1)
        invariant forall q :: 0 <= q < p ==> huffcode[q] == CodeOf(bits, q)
        decreases n - p
      {
        SizeEntry(bits, sizes, si, p);
        SizeEntry(bits, sizes, si, p + 1);
        huffcode[p] := code;
        p, code := p + 1, code + 1;
      }
      FitsOne(bits, si);
      if code >= Pow2(si) {
        return false, huffcode;
      }
      code := code * 2;
      si := si + 1;
      level := si;
    }
    SizesPositive(bits, sizes, p);
    NoLongerCode(bits, level, 17);
    AllFit(bits);
    ok := true;
  }

  lemma FirstLevel(bits: counts, sizes: seq<nat>)
    requires Sized(bits, sizes)
    ensures var level := if Start(bits, 17) == 0 then 1 else sizes[0];
      1 <= level <= 17 && Start(bits, level) == 0 && First(bits, level) == 0 && FitsBelow(bits, level)
  {
    var level := if Start(bits, 17) == 0 then 1 else sizes[0];
    NoShorterCode(bits, level);
  }

  lemma SizesPositive(bits: counts, sizes: seq<nat>, p: nat)
    requires Sized(bits, sizes) && p <= Start(bits, 17)
    ensures sizes[p] == 0 <==> p == Start(bits, 17)
  {
  }

  lemma StartNext(bits: counts, l: nat)
    requires 1 <= l <= 16
    ensures Start(bits, l + 1) == Start(bits, l) + bits[l] <= Start(bits, 17)
    ensures First(bits, l + 1) == 2 * (First(bits, l) + bits[l])
  {
    StartMonotone(bits, l + 1, 17);
  }

  // ----- the encoder's table

  /** Code and size of every symbol; size 0 means that the symbol has no code. */
  datatype CDerived = CDerived(ehufco: seq<nat>, ehufsi: seq<nat>)

  /** Symbols are in range, and none occurs twice. */
  predicate ValidSymbols(t: table, isDC: bool)
    requires CodeCount(t) <= 256
  {
    && (forall p :: 0 <= p < CodeCount(t) ==> t.huffval[p] <= MaxSymbol(isDC))
    && forall p, q :: 0 <= p < q < CodeCount(t) ==> t.huffval[p] != t.huffval[q]
  }

  function MaxSymbol(isDC: bool): byte
  {
    if isDC then 15 else 255
  }

  /** d gives exactly the symbols among the first n of the table their codes. */
  predicate EncodesFirst(t: table, d: CDerived, n: nat)
    requires n <= CodeCount(t) <= 256
  {
    && |d.ehufco| == 256 && |d.ehufsi| == 256
    && (forall p :: 0 <= p < n ==>
      d.ehufsi[t.huffval[p]] == Length(t.bits, p) && d.ehufco[t.huffval[p]] == CodeOf(t.bits, p))
    && forall s :: 0 <= s < 256 && d.ehufsi[s] != 0 ==> exists p :: 0 <= p < n && t.huffval[p] == s
  }

  predicate Encodes(t: table, d: CDerived)
    requires CodeCount(t) <= 256
  {
    EncodesFirst(t, d, CodeCount(t))
  }

  lemma EncodesNext(t: table, d: CDerived, n: nat)
    requires n < CodeCount(t) <= 256 && EncodesFirst(t, d, n) && d.ehufsi[t.huffval[n]] == 0
    ensures var s := t.huffval[n];
      EncodesFirst(t, CDerived(d.ehufco[s := CodeOf(t.bits, n)], d.ehufsi[s := Length(t.bits, n)]), n + 1)
  {
    hide CodeOf, Length, Start;
    forall p | 0 <= p < n ensures t.huffval[p] != t.huffval[n] {
      assert d.ehufsi[t.huffval[p]] == Length(t.bits, p);
    }
  }

  /** jpeg_make_c_derived_tbl: Figure C.3, after the generation of sizes and codes. */
  method MakeCDerived(isDC: bool, t: table) returns (ok: bool, d: CDerived)
    ensures ok <==> Legal(t.bits) && ValidSymbols(t, isDC)
    ensures ok ==> Encodes(t, d)
  {
    hide CodeOf, Length, Start, EncodesFirst;
    d := CDerived(seq(256, _ => 0), seq(256, _ => 0));
    var sized, huffsize := GenerateSizes(t.bits);
    if !sized {
      return false, d;
    }
    ghost var sizes := huffsize[..];
    var legal, huffcode := GenerateCodes(t.bits, huffsize);
    if !legal {
      return false, d;
    }
    ghost var codes := huffcode[..];
    assert forall q :: 0 <= q < CodeCount(t) ==> codes[q] == CodeOf(t.bits, q);
    NothingEncoded(t, d);
    var p := 0;
    assert huffsize[..] == sizes;
    SizesPositive(t.bits, sizes, p);
    while huffsize[p] != 0
      invariant 0 <= p <= CodeCount(t) && EncodesFirst(t, d, p)
      invariant huffcode[..] == codes && huffsize[..] == sizes && (huffsize[p] == 0 <==> p == CodeCount(t))
      invariant forall q :: 0 <= q < p ==> t.huffval[q] <= MaxSymbol(isDC)
      invariant forall q, r :: 0 <= q < r < p ==> t.huffval[q] != t.huffval[r]
      decreases CodeCount(t) - p
    {
      var i := t.huffval[p];
      SymbolSeen(t, d, p);
      if i > MaxSymbol(isDC) || d.ehufsi[i] != 0 {
        return false, d;
      }
      EncodesNext(t, d, p);
      d := CDerived(d.ehufco[i := huffcode[p]], d.ehufsi[i := huffsize[p]]);
      p := p + 1;
      SizesPositive(t.bits, sizes, p);
    }
    ok := true;
  }

  lemma NothingEncoded(t: table, d: CDerived)
    requires CodeCount(t) <= 256 && d == CDerived(seq(256, _ => 0), seq(256, _ => 0))
    ensures EncodesFirst(t, d, 0)
  {
  }

  lemma SymbolSeen(t: table, d: CDerived, p: nat)
    requires p < CodeCount(t) <= 256 && EncodesFirst(t, d, p)
    ensures |d.ehufco| == |d.ehufsi| == 256
    ensures d.ehufsi[t.huffval[p]] != 0 <==> exists q :: 0 <= q < p && t.huffval[q] == t.huffval[p]
  {
    hide CodeOf, Start;
  }

  // ----- the decoder's tables

  const HUFF_LOOKAHEAD := 8

  /** maxcode and valoffset by code length, and the lookahead table. */
  datatype DDerived = DDerived(maxcode: seq<int>, valoffset: seq<int>, huffval: seq<byte>, lookup: seq<nat>)

  predicate LimitsOf(t: table, maxcode: seq<int>, valoffset: seq<int>, l: nat)
    requires 1 <= l <= 16 && |maxcode| == 18 && |valoffset| == 18
  {
    if t.bits[l] == 0 then maxcode[l] == -1
    else
      && maxcode[l] == First(t.bits, l) + t.bits[l] - 1
      && valoffset[l] == Start(t.bits, l) - First(t.bits, l)
  }

  /** What the lookahead table says of the next 8 bits w, trying lengths l and up. */
  function EntryFrom(t: table, w: nat, l: nat): nat
    requires CodeCount(t) <= 256 && 1 <= l <= 9
    decreases 9 - l
  {
    if l == 9 then 9 * 256
    else
      var c := ShiftRight(w, 8 - l);
      if IsCode(t.bits, l, c) then
        IndexBound(t.bits, l, c);
        l * 256 + t.huffval[Index(t.bits, l, c)]
      else EntryFrom(t, w, l + 1)
  }

  /** A short code decides the entry of every string that begins with it. */
  lemma {:induction false} EntryOfCode(t: table, w: nat, l: nat, m: nat)
    requires CodeCount(t) <= 256 && 1 <= l <= m <= 8 && IsCode(t.bits, m, ShiftRight(w, 8 - m))
    ensures Index(t.bits, m, ShiftRight(w, 8 - m)) < 256
    ensures EntryFrom(t, w, l) == m * 256 + t.huffval[Index(t.bits, m, ShiftRight(w, 8 - m))]
    decreases m - l
  {
    hide First, Start, Pow2, ShiftRight;
    IndexBound(t.bits, m, ShiftRight(w, 8 - m));
    if l < m {
      ShorterIsNoCode(t.bits, w, l, m);
      EntryOfCode(t, w, l + 1, m);
    }
  }

  /** Strings that come after all codes shorter than m begin with none of them. */
  lemma ShorterIsNoCode(bits: counts, w: nat, l: nat, m: nat)
    requires 1 <= l < m <= 8 && ShiftRight(w, 8 - m) >= First(bits, m)
    ensures ShiftRight(w, 8 - l) >= First(bits, l) + bits[l]
  {
    hide First, Pow2, ShiftRight;
    LaterCodes(bits, l, m);
    ShiftTwice(w, 8 - m, m - l);
    ShiftAtLeast(ShiftRight(w, 8 - m), m - l, First(bits, l) + bits[l]);
  }

  /** Strings that come after all short codes have no entry. */
  lemma {:induction false} NoEntry(t: table, w: nat, l: nat)
    requires CodeCount(t) <= 256 && 1 <= l <= 9 && w >= First(t.bits, 8) + t.bits[8]
    ensures EntryFrom(t, w, l) == 9 * 256
    decreases 9 - l
  {
    hide First, Pow2;
    assert ShiftRight(w, 0) == w by { NoShift(w); }
    if l < 9 {
      NoEntry(t, w, l + 1);
      if l < 8 {
        ShorterIsNoCode(t.bits, w, l, 8);
      }
    }
  }

  lemma NoShift(w: nat)
    ensures ShiftRight(w, 0) == w
  {
  }

  /** All strings below `end` have their entries, the others none so far. */
  predicate Filled(t: table, lookup: seq<nat>, end: nat)
    requires CodeCount(t) <= 256
  {
    && |lookup| == 256 && end <= 256
    && forall w :: 0 <= w < 256 ==> lookup[w] == if w < end then EntryFrom(t, w, 1) else 9 * 256
  }

  /** The first 8-bit string that begins with code c of length l. */
  function Leftmost(c: nat, l: nat): nat
    requires l <= 8
  {
    c * Pow2(8 - l)
  }

  /** The strings that begin with code c of length l lie in [Leftmost(c), Leftmost(c + 1)). */
  lemma CodeRegion(bits: counts, l: nat, c: nat, j: nat)
    requires Legal(bits) && 1 <= l <= 8 && IsCode(bits, l, c) && j < Pow2(8 - l)
    ensures Leftmost(c, l) + j < Leftmost(c + 1, l) == Leftmost(c, l) + Pow2(8 - l) <= 256
    ensures ShiftRight(Leftmost(c, l) + j, 8 - l) == c
  {
    hide Pow2, First;
    var k := Pow2(8 - l);
    CodeFits(bits, l, c);
    Pow2Add(l, 8 - l);
    Pow2Values();
    MulMonotone(c + 1, Pow2(l), k);
    Distribute(c, 1, k);
    DivisionUnique(c * k + j, k, c, j);
  }

  /** The strings that begin with codes shorter than l lie below this. */
  function Boundary(bits: counts, l: nat): nat
    requires 1 <= l <= 9
  {
    if l == 9 then First(bits, 8) + bits[8] else Leftmost(First(bits, l), l)
  }

  lemma BoundaryNext(bits: counts, l: nat)
    requires 1 <= l <= 8
    ensures Leftmost(First(bits, l) + bits[l], l) == Boundary(bits, l + 1)
  {
    hide First;
    StartNext(bits, l);
    if l < 8 {
      assert Pow2(8 - l) == 2 * Pow2(8 - (l + 1));
      hide Pow2;
      Reassociate(2, First(bits, l) + bits[l], Pow2(8 - (l + 1)));
      Reassociate(First(bits, l) + bits[l], 2, Pow2(8 - (l + 1)));
    } else {
      assert Pow2(0) == 1;
    }
  }

  lemma NothingBefore(bits: counts)
    ensures Boundary(bits, 1) == 0 && Start(bits, 1) == 0
  {
  }

  lemma FillOne(t: table, lookup: seq<nat>, l: nat, c: nat, j: nat)
    requires Legal(t.bits) && 1 <= l <= 8 && IsCode(t.bits, l, c) && j < Pow2(8 - l)
    requires Filled(t, lookup, Leftmost(c, l) + j)
    ensures var w, p := Leftmost(c, l) + j, Index(t.bits, l, c);
      w < 256 && p < 256 && Filled(t, lookup[w := l * 256 + t.huffval[p]], w + 1)
  {
    hide Pow2, First, Start, Legal, ShiftRight, EntryFrom, Leftmost;
    CodeRegion(t.bits, l, c, j);
    LegalCount(t.bits);
    EntryOfCode(t, Leftmost(c, l) + j, 1, l);
  }

  lemma LegalCount(bits: counts)
    requires Legal(bits)
    ensures Start(bits, 17) <= 256
  {
  }

  lemma NoneFilled(t: table, lookup: seq<nat>)
    requires CodeCount(t) <= 256 && |lookup| == 256 && forall w :: 0 <= w < 256 ==> lookup[w] == 9 * 256
    ensures Filled(t, lookup, 0)
  {
  }

  lemma AllFilled(t: table, lookup: seq<nat>)
    requires CodeCount(t) <= 256 && Filled(t, lookup, Boundary(t.bits, 9))
    ensures Filled(t, lookup, 256)
  {
    hide First, Start, EntryFrom;
    forall w | Boundary(t.bits, 9) <= w < 256 ensures EntryFrom(t, w, 1) == 9 * 256 {
      NoEntry(t, w, 1);
    }
  }

  lemma PlaceOf(bits: counts, l: nat, i: nat)
    requires Legal(bits) && 1 <= l <= 16 && i < bits[l]
    ensures var c, p := First(bits, l) + i, Start(bits, l) + i;
      IsCode(bits, l, c) && Index(bits, l, c) == p < Start(bits, 17) <= 256 && CodeOf(bits, p) == c
  {
    hide First, Start, CodeOf;
    StartNext(bits, l);
    LegalCount(bits);
    hide Legal;
    InLength(bits, l, Start(bits, l) + i);
  }

  /** An 8-bit string finds the short code it begins with, if there is one. */
  method FillLookup(t: table, huffcode: array<nat>) returns (lookup: array<nat>)
    requires Legal(t.bits) && huffcode.Length == 257
    requires forall q :: 0 <= q < CodeCount(t) ==> huffcode[q] == CodeOf(t.bits, q)
    ensures Legal(t.bits) && fresh(lookup) && Start(t.bits, 17) <= 256 && Filled(t, lookup[..], 256)
  {
    hide First, Start, Pow2, Legal, ShiftRight, EntryFrom, CodeOf, IsCode, Filled, Boundary, Leftmost, Index;
    LegalCount(t.bits);
    lookup := new nat[256](_ => 9 * 256);
    var p, l := 0, 1;
    NoneFilled(t, lookup[..]);
    NothingBefore(t.bits);
    while l <= HUFF_LOOKAHEAD
      invariant 1 <= l <= 9 && p == Start(t.bits, l) && Filled(t, lookup[..], Boundary(t.bits, l))
    {
      var i := 1;
      FirstRegion(t.bits, l);
      while i <= t.bits[l]
        invariant 1 <= i <= t.bits[l] + 1 && p == Start(t.bits, l) + i - 1
        invariant Filled(t, lookup[..], Leftmost(First(t.bits, l) + i - 1, l))
      {
        PlaceOf(t.bits, l, i - 1);
        ghost var c := First(t.bits, l) + i - 1;
        var lookbits := huffcode[p] * Pow2(8 - l);
        var ctr := Pow2(8 - l);
        Region(t.bits, l, c);
        while ctr > 0
          invariant 0 <= ctr <= Pow2(8 - l) && lookbits == Leftmost(c, l) + Pow2(8 - l) - ctr
          invariant Filled(t, lookup[..], lookbits)
        {
          FillOne(t, lookup[..], l, c, Pow2(8 - l) - ctr);
          lookup[lookbits] := l * 256 + t.huffval[p];
          lookbits := lookbits + 1;
          ctr := ctr - 1;
        }
        i, p := i + 1, p + 1;
      }
      BoundaryNext(t.bits, l);
      StartNext(t.bits, l);
      l := l + 1;
    }
    AllFilled(t, lookup[..]);
  }

  lemma FirstRegion(bits: counts, l: nat)
    requires 1 <= l <= 8
    ensures Boundary(bits, l) == Leftmost(First(bits, l), l)
  {
  }

  lemma Region(bits: counts, l: nat, c: nat)
    requires Legal(bits) && 1 <= l <= 8 && IsCode(bits, l, c)
    ensures Leftmost(c, l) == c * Pow2(8 - l) && Leftmost(c + 1, l) == Leftmost(c, l) + Pow2(8 - l) <= 256
  {
    hide First, Legal;
    CodeRegion(bits, l, c, 0);
  }

  predicate LimitsBelow(t: table, maxcode: seq<int>, valoffset: seq<int>, l: nat)
  {
    && |maxcode| == 18 && |valoffset| == 18
    && forall m :: 1 <= m < l && m <= 16 ==> LimitsOf(t, maxcode, valoffset, m)
  }

  predicate Decodes(t: table, d: DDerived)
    requires CodeCount(t) <= 256
  {
    && LimitsBelow(t, d.maxcode, d.valoffset, 17) && d.maxcode[17] == 0xFFFFF
    && d.huffval == t.huffval && Filled(t, d.lookup, 256)
  }

  lemma LimitsNext(t: table, maxcode: seq<int>, valoffset: seq<int>, newMax: seq<int>, newOffset: seq<int>, l: nat)
    requires 1 <= l <= 17 && LimitsBelow(t, maxcode, valoffset, l) && |newMax| == 18 && |newOffset| == 18
    requires forall m :: 0 <= m < l ==> newMax[m] == maxcode[m] && newOffset[m] == valoffset[m]
    requires l <= 16 ==> LimitsOf(t, newMax, newOffset, l)
    ensures LimitsBelow(t, newMax, newOffset, l + 1)
  {
    hide First, Start;
    forall m | 1 <= m < l ensures LimitsOf(t, newMax, newOffset, m) {
      assert LimitsOf(t, maxcode, valoffset, m);
    }
  }

  lemma LimitsSize(t: table, maxcode: seq<int>, valoffset: seq<int>, l: nat)
    requires LimitsBelow(t, maxcode, valoffset, l)
    ensures |maxcode| == 18 && |valoffset| == 18
  {
  }

  lemma FewerLimits(t: table, maxcode: seq<int>, valoffset: seq<int>)
    requires LimitsBelow(t, maxcode, valoffset, 18)
    ensures LimitsBelow(t, maxcode, valoffset, 17)
  {
    hide LimitsOf;
  }

  /** Figure F.15: the tables for bit-sequential decoding. */
  method CodeLimits(t: table, huffcode: array<nat>) returns (maxcode: seq<int>, valoffset: seq<int>)
    requires Legal(t.bits) && huffcode.Length == 257
    requires forall q :: 0 <= q < CodeCount(t) ==> huffcode[q] == CodeOf(t.bits, q)
    ensures LimitsBelow(t, maxcode, valoffset, 17) && maxcode[17] == 0xFFFFF
  {
    hide First, Start, Legal, CodeOf, Index, IsCode;
    maxcode, valoffset := seq(18, _ => 0), seq(18, _ => 0);
    var p, l := 0, 1;
    NothingBefore(t.bits);
    LegalCount(t.bits);
    ghost var codes := huffcode[..];
    assert forall q :: 0 <= q < CodeCount(t) ==> codes[q] == CodeOf(t.bits, q);
    while l <= 16
      invariant 1 <= l <= 17 && p == Start(t.bits, l) && LimitsBelow(t, maxcode, valoffset, l)
    {
      StartNext(t.bits, l);
      LimitsSize(t, maxcode, valoffset, l);
      ghost var oldMax, oldOffset := maxcode, valoffset;
      if t.bits[l] != 0 {
        PlaceOf(t.bits, l, 0);
        PlaceOf(t.bits, l, t.bits[l] - 1);
        assert codes[p] == First(t.bits, l) && codes[p + t.bits[l] - 1] == First(t.bits, l) + t.bits[l] - 1;
        valoffset := valoffset[l := p - huffcode[p]];
        p := p + t.bits[l];
        maxcode := maxcode[l := huffcode[p - 1]];
      } else {
        maxcode := maxcode[l := -1];
      }
      LimitsNext(t, oldMax, oldOffset, maxcode, valoffset, l);
      l := l + 1;
    }
    LimitsSize(t, maxcode, valoffset, 17);
    ghost var oldMax, oldOffset := maxcode, valoffset;
    valoffset := valoffset[17 := 0];
    maxcode := maxcode[17 := 0xFFFFF];
    LimitsNext(t, oldMax, oldOffset, maxcode, valoffset, 17);
    FewerLimits(t, maxcode, valoffset);
  }

  predicate DcSymbolsBelow(t: table, n: nat)
    requires n <= 256
  {
    forall p :: 0 <= p < n ==> t.huffval[p] <= 15
  }

  /** jpeg_make_d_derived_tbl. */
  method MakeDDerived(isDC: bool, t: table) returns (ok: bool, d: DDerived)
    ensures ok <==> Legal(t.bits) && (isDC ==> DcSymbolsBelow(t, CodeCount(t)))
    ensures ok ==> Decodes(t, d)
  {
    hide First, Start, Length, CodeOf, LimitsBelow, Filled;
    d := DDerived([], [], t.huffval, []);
    var sized, huffsize := GenerateSizes(t.bits);
    if !sized {
      return false, d;
    }
    var legal, huffcode := GenerateCodes(t.bits, huffsize);
    if !legal {
      return false, d;
    }
    var maxcode, valoffset := CodeLimits(t, huffcode);
    var lookup := FillLookup(t, huffcode);
    d := DDerived(maxcode, valoffset, t.huffval, lookup[..]);
    if isDC {
      var i := 0;
      var numsymbols := CodeCount(t);
      while i < numsymbols
        invariant 0 <= i <= numsymbols && DcSymbolsBelow(t, i)
      {
        if t.huffval[i] > 15 {
          return false, d;
        }
        i := i + 1;
      }
    }
    ok := true;
  }
}
