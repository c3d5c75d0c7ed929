/**
 The symbols of a generated Huffman table, sorted by code length: where each stands in
 the list, and how the length it gets there compares with the one that was counted.
 */
module SymbolList {
  import opened Bytes
  import opened CanonicalCode
  import opened HuffmanTables
  import opened HuffmanTree
  import opened HuffmanOptimality
  import opened HuffmanModel

  const MAX_CLEN := 32

  type lengthCounts = b: seq<nat> | |b| == MAX_CLEN + 1 witness seq(MAX_CLEN + 1, _ => 0)

  /** Symbols below n with a code shorter than i, and with a code of i bits. */
  function Below(cs: symbols, n: nat, i: nat): (r: nat)
    requires n <= SYMBOLS
    ensures r <= n
  {
    if n == 0 then 0 else Below(cs, n - 1, i) + if 1 <= cs[n - 1] < i then 1 else 0
  }

  function Exactly(cs: symbols, n: nat, i: nat): nat
    requires n <= SYMBOLS
  {
    if n == 0 then 0 else Exactly(cs, n - 1, i) + if cs[n - 1] == i then 1 else 0
  }

  /** The symbols below n with a code of i bits. */
  function OfLength(cs: symbols, n: nat, i: nat): set<nat>
    requires n <= SYMBOLS
  {
    set s | 0 <= s < n && cs[s] == i
  }

  lemma {:induction false} ExactlyCounts(cs: symbols, n: nat, i: nat)
    requires n <= SYMBOLS
    ensures Exactly(cs, n, i) == |OfLength(cs, n, i)|
  {
    if n > 0 {
      ExactlyCounts(cs, n - 1, i);
      OneMoreOfLength(cs, n - 1, i);
    }
  }

  lemma OneMoreOfLength(cs: symbols, n: nat, i: nat)
    requires n < SYMBOLS
    ensures cs[n] == i ==> OfLength(cs, n + 1, i) == OfLength(cs, n, i) + {n}
    ensures cs[n] != i ==> OfLength(cs, n + 1, i) == OfLength(cs, n, i)
    ensures n !in OfLength(cs, n, i)
  {
  }

  lemma {:induction false} ExactlyNone(cs: symbols, n: nat, l: nat)
    requires n <= SYMBOLS && forall i :: 0 <= i < n ==> cs[i] != l
    ensures Exactly(cs, n, l) == 0
  {
    if n > 0 {
      ExactlyNone(cs, n - 1, l);
    }
  }

  lemma {:induction false} BelowNext(cs: symbols, n: nat, i: nat)
    requires n <= SYMBOLS && 1 <= i
    ensures Below(cs, n, i + 1) == Below(cs, n, i) + Exactly(cs, n, i)
  {
    if n > 0 {
      BelowNext(cs, n - 1, i);
    }
  }

  lemma {:induction false} ExactlyMonotone(cs: symbols, m: nat, n: nat, i: nat)
    requires m <= n <= SYMBOLS
    ensures Exactly(cs, m, i) <= Exactly(cs, n, i)
    ensures m < n && cs[m] == i ==> Exactly(cs, m, i) < Exactly(cs, n, i)
  {
    if m < n {
      ExactlyMonotone(cs, m, n - 1, i);
    }
  }

  lemma {:induction false} BelowAll(cs: symbols, n: nat)
    requires n <= SYMBOLS && forall i :: 0 <= i < SYMBOLS ==> cs[i] <= MAX_CLEN
    ensures Below(cs, n, MAX_CLEN + 1) == Nonzeros(cs[..n])
  {
    if n > 0 {
      BelowAll(cs, n - 1);
      assert cs[..n][..n - 1] == cs[..n - 1];
    }
  }

  lemma {:induction false} NoneBelowOne(cs: symbols, n: nat)
    requires n <= SYMBOLS
    ensures Below(cs, n, 1) == 0
  {
    if n > 0 {
      NoneBelowOne(cs, n - 1);
    }
  }

  lemma NoneExactly(cs: symbols, i: nat)
    ensures Exactly(cs, 0, i) == 0
  {
  }

  lemma ExactlyNext(cs: symbols, j: nat, i: nat)
    requires j < SYMBOLS
    ensures Exactly(cs, j + 1, i) == Exactly(cs, j, i) + if cs[j] == i then 1 else 0
  {
  }

  // ----- the list

  /** s comes before symbol j of length i when symbols are sorted by length. */
  predicate ComesBefore(cs: symbols, s: nat, i: nat, j: nat)
  {
    s < SYMBOLS && 1 <= cs[s] && (cs[s] < i || (cs[s] == i && s < j))
  }

  /** The list holds exactly the symbols that come before, each once, sorted by length
      and then by value. */
  predicate Listed(cs: symbols, vals: seq<byte>, i: nat, j: nat)
  {
    && (forall q :: 0 <= q < |vals| ==> ComesBefore(cs, vals[q], i, j))
    && (forall s: byte :: ComesBefore(cs, s, i, j) ==> s in vals)
    && (forall q, r :: 0 <= q < r < |vals| ==> ComesBefore(cs, vals[q], cs[vals[r]], vals[r]))
  }

  lemma ListOne(cs: symbols, vals: seq<byte>, i: nat, j: byte)
    requires 1 <= i && Listed(cs, vals, i, j)
    ensures Listed(cs, if cs[j] == i then vals + [j] else vals, i, j + 1)
  {
    if cs[j] == i {
      var more := vals + [j];
      assert more[|vals|] == j;
      assert forall s: byte :: s in vals ==> s in more;
    }
  }

  lemma ListNextLength(cs: symbols, vals: seq<byte>, i: nat)
    requires Listed(cs, vals, i, 256)
    ensures Listed(cs, vals, i + 1, 0)
  {
  }

  lemma NothingListed(cs: symbols, vals: seq<byte>)
    requires vals == []
    ensures Listed(cs, vals, 1, 0)
  {
  }

  /** How many real symbols stand before s when they are sorted. */
  function Rank(cs: symbols, s: byte): nat
  {
    Below(cs, 256, cs[s]) + Exactly(cs, s, cs[s])
  }

  predicate Ranked(cs: symbols, vals: seq<byte>)
  {
    forall q :: 0 <= q < |vals| ==> q == Rank(cs, vals[q])
  }

  lemma NothingRanked(cs: symbols, vals: seq<byte>)
    requires vals == []
    ensures Ranked(cs, vals)
  {
  }

  lemma RankOne(cs: symbols, vals: seq<byte>, i: nat, j: byte)
    requires Ranked(cs, vals) && cs[j] == i && |vals| == Below(cs, 256, i) + Exactly(cs, j, i)
    ensures Ranked(cs, vals + [j])
  {
    hide Below, Exactly;
    var more := vals + [j];
    forall q | 0 <= q < |more| ensures q == Rank(cs, more[q]) {
      if q < |vals| {
        assert more[q] == vals[q];
      } else {
        assert more[q] == j;
      }
    }
  }

  // ----- the lengths that the places have

  /** The length of the code of symbol s. */
  function LengthOf(t: table, s: nat): (l: nat)
    requires CodeCount(t) <= 256 && HasCode(t, s)
  {
    Length(t.bits, PlaceFrom(t, s, 0))
  }

  /** Codes further down the table are not shorter. */
  lemma LengthMonotone(bits: counts, p: nat, q: nat)
    requires p <= q < Start(bits, 17)
    ensures Length(bits, p) <= Length(bits, q)
  {
    var l, m := Length(bits, p), Length(bits, q);
    if m < l {
      StartMonotone(bits, m + 1, l);
    }
  }

  /** The counts are those of the lengths cs, but for one code of length w less. */
  predicate OneLess(bits: counts, cs: symbols, w: nat)
  {
    1 <= w <= 16 && forall l :: 1 <= l <= 16 ==> bits[l] + (if l == w then 1 else 0) == Exactly(cs, SYMBOLS, l)
  }

  lemma {:induction false} StartIsBelow(bits: counts, cs: symbols, w: nat, m: nat)
    requires 1 <= m <= 17 && OneLess(bits, cs, w)
    ensures Start(bits, m) + (if w < m then 1 else 0) == Below(cs, SYMBOLS, m)
  {
    hide Below, Exactly;
    if m > 1 {
      StartIsBelow(bits, cs, w, m - 1);
      BelowNext(cs, SYMBOLS, m - 1);
    } else {
      NoneBelowOne(cs, SYMBOLS);
    }
  }

  /** When the longest length gives up a code, no listed symbol gets a longer code than
      was counted for it. */
  lemma NoneGetsLonger(bits: counts, cs: symbols, w: nat, s: byte)
    requires OneLess(bits, cs, w) && 1 <= cs[s] && 1 <= cs[256] && forall i :: 0 <= i < SYMBOLS ==> cs[i] <= w
    ensures Rank(cs, s) < Start(bits, 17) && Length(bits, Rank(cs, s)) <= cs[s]
  {
    hide Below, Exactly, OneLess;
    var c, p := cs[s], Rank(cs, s);
    assert w <= 16 by { WithinSixteen(bits, cs, w); }
    StartIsBelow(bits, cs, w, c + 1);
    BelowNext(cs, 256, c);
    ExactlyMonotone(cs, s, 256, c);
    PseudoSymbolBelow(cs, c + 1);
    assert p < Start(bits, c + 1);
    StartMonotone(bits, c + 1, 17);
    var l := Length(bits, p);
    if c < l {
      StartMonotone(bits, c + 1, l);
    }
  }

  lemma WithinSixteen(bits: counts, cs: symbols, w: nat)
    requires OneLess(bits, cs, w)
    ensures 1 <= w <= 16
  {
  }

  lemma PseudoSymbolBelow(cs: symbols, i: nat)
    requires 1 <= cs[256]
    ensures Below(cs, SYMBOLS, i) == Below(cs, 256, i) + if cs[256] < i then 1 else 0
  {
  }

  /** The table lists the symbols that have codes, sorted. */
  ghost predicate Sorted(t: table, cs: symbols)
  {
    && CodeCount(t) <= 256
    && Listed(cs, t.huffval[..CodeCount(t)], MAX_CLEN + 1, 0) && Ranked(cs, t.huffval[..CodeCount(t)])
  }

  lemma PlaceIsRank(t: table, cs: symbols, s: byte)
    requires Sorted(t, cs) && HasCode(t, s)
    ensures PlaceFrom(t, s, 0) == Rank(cs, s) && cs[s] >= 1
  {
    hide Below, Exactly, Start, Rank;
    var vals, p := t.huffval[..CodeCount(t)], PlaceFrom(t, s, 0);
    assert vals[p] == s;
  }

  /** A symbol for which fewer bits were counted does not get a longer code. */
  lemma OrderIsKept(t: table, cs: symbols, s: byte, r: byte)
    requires Sorted(t, cs) && HasCode(t, s) && HasCode(t, r) && cs[s] < cs[r]
    ensures LengthOf(t, s) <= LengthOf(t, r)
  {
    hide Below, Exactly, Start, Rank, Ranked, Length;
    var vals, p, q := t.huffval[..CodeCount(t)], PlaceFrom(t, s, 0), PlaceFrom(t, r, 0);
    assert vals[p] == s && vals[q] == r;
    if q < p {
      EarlierComesBefore(cs, vals, q, p);
      assert false;
    }
    LengthMonotone(t.bits, p, q);
  }

  lemma EarlierComesBefore(cs: symbols, vals: seq<byte>, q: nat, p: nat)
    requires Listed(cs, vals, MAX_CLEN + 1, 0) && q < p < |vals|
    ensures cs[vals[q]] <= cs[vals[p]]
  {
  }

  lemma SortedCount(t: table, cs: symbols)
    requires Sorted(t, cs)
    ensures CodeCount(t) <= 256
  {
  }

  lemma LengthOfIs(t: table)
    requires CodeCount(t) <= 256
    ensures forall s :: HasCode(t, s) ==> LengthOf(t, s) == Length(t.bits, PlaceFrom(t, s, 0))
  {
    hide Start, Length;
  }

  /** If no length needed to be limited, no symbol gets a longer code than was counted. */
  lemma LengthsAreReached(t: table, cs: symbols, counted: lengthCounts, w: nat)
    requires Sorted(t, cs) && 1 <= cs[256] && forall i :: 0 <= i < SYMBOLS ==> cs[i] <= 16
    requires forall l :: 1 <= l <= MAX_CLEN ==> counted[l] == Exactly(cs, SYMBOLS, l)
    requires 1 <= w <= 16 && counted[w] > 0 && forall l :: w < l <= MAX_CLEN ==> counted[l] == 0
    requires forall l :: 1 <= l <= 16 ==> t.bits[l] == if l == w then counted[l] - 1 else counted[l]
    ensures forall s :: 0 <= s < 256 && HasCode(t, s) ==> LengthOf(t, s) <= cs[s]
  {
    hide Below, Exactly, Start, Rank, Sorted, Length, HasCode;
    SortedCount(t, cs);
    forall i | 0 <= i < SYMBOLS ensures cs[i] <= w {
      if cs[i] > w {
        ExactlyMonotone(cs, i, SYMBOLS, cs[i]);
        assert false;
      }
    }
    assert OneLess(t.bits, cs, w);
    forall s | 0 <= s < 256 && HasCode(t, s) ensures LengthOf(t, s) <= cs[s] {
      PlaceIsRank(t, cs, s);
      NoneGetsLonger(t.bits, cs, w, s);
    }
  }

  // ----- the data

  /** The length of the data, symbol s occurring f[s] times. */
  function DataBits(t: table, f: seq<nat>): nat
    requires |f| == 256 && CodeCount(t) <= 256
  {
    Sum(seq(256, s requires 0 <= s < 256 => if HasCode(t, s) then f[s] * LengthOf(t, s) else 0))
  }

  lemma {:induction false} SumAtMost(a: seq<nat>, b: seq<nat>)
    requires |a| == |b| && forall i :: 0 <= i < |a| ==> a[i] <= b[i]
    ensures Sum(a) <= Sum(b)
  {
    if a != [] {
      SumAtMost(a[..|a| - 1], b[..|b| - 1]);
    }
  }

  /** If no code is longer than was counted, the data are not longer either, and the code
      of the pseudo-symbol is saved. */
  lemma DataAreShorter(t: table, f: seq<nat>, f0: symbols, cs: symbols)
    requires |f| == 256 && f0 == f + [1] && CodeCount(t) <= 256
    requires forall s :: 0 <= s < 256 && HasCode(t, s) ==> LengthOf(t, s) <= cs[s]
    ensures DataBits(t, f) + cs[256] <= Cost(f0, cs)
  {
    hide HasCode, LengthOf, Sum;
    var a := seq(256, s requires 0 <= s < 256 => if HasCode(t, s) then f[s] * LengthOf(t, s) else 0);
    var costs := AllCosts(f0, cs);
    forall s | 0 <= s < 256 ensures a[s] <= costs[..256][s] {
      if HasCode(t, s) {
        TimesAtMost(f[s], LengthOf(t, s), cs[s]);
      }
    }
    SumAtMost(a, costs[..256]);
    SumLast(costs);
    assert costs[256] == 1 * cs[256];
  }

  lemma TimesAtMost(f: nat, x: nat, y: nat)
    requires x <= y
    ensures f * x <= f * y
  {
  }

  lemma SumLast(s: seq<nat>)
    requires s != []
    ensures Sum(s) == Sum(s[..|s| - 1]) + s[|s| - 1]
  {
  }
}
