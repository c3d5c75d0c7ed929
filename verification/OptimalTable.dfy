/**
 jpeg_gen_optimal_table: code lengths by Huffman's algorithm, their reduction to 16
 bits, and the table that results.
 */
module OptimalTable {
  import opened Bytes
  import opened CanonicalCode
  import opened HuffmanTables
  import opened HuffmanTree
  import opened HuffmanOptimality
  import opened HuffmanDepth
  import opened HuffmanModel
  import opened SymbolList
  import opened Nonlinear

  // ----- Huffman's algorithm

  /** The symbol with the smallest frequency that is not zero, the largest one in case
      of ties; -1 if there is none up to 10^9. */
  method FindSmallest(freq: array<nat>, skip: int) returns (c: int)
    requires freq.Length == SYMBOLS
    ensures -1 <= c < SYMBOLS
    ensures c < 0 ==> forall i :: 0 <= i < SYMBOLS && freq[i] != 0 && i != skip ==> freq[i] > LARGEST
    ensures c >= 0 ==> freq[c] != 0 && c != skip && freq[c] <= LARGEST
    ensures c >= 0 ==> forall i :: 0 <= i < SYMBOLS && freq[i] != 0 && i != skip ==>
      freq[c] < freq[i] || (freq[c] == freq[i] && i <= c)
  {
    c := -1;
    var v := LARGEST;
    for i := 0 to SYMBOLS
      invariant -1 <= c < i && v <= LARGEST
      invariant c < 0 ==> v == LARGEST && forall j :: 0 <= j < i && freq[j] != 0 && j != skip ==> freq[j] > LARGEST
      invariant c >= 0 ==> freq[c] == v && v != 0 && c != skip
      invariant c >= 0 ==> forall j :: 0 <= j < i && freq[j] != 0 && j != skip ==> (v < freq[j]
        || (v == freq[j] && j <= c))
    {
      if freq[i] != 0 && freq[i] <= v && i != skip {
        v := freq[i];
        c := i;
      }
    }
  }

  /** Increment the codesize of everything in c's tree. */
  method LengthenTree(codesize: array<nat>, others: array<int>, c: nat, ghost ch: seq<nat>) returns (last: nat)
    requires codesize.Length == SYMBOLS && others.Length == SYMBOLS && codesize.Length == others.Length
    requires ch != [] && ch[0] == c && Linked(others[..], ch) && Distinct(ch)
    modifies codesize
    ensures codesize[..] == Longer(old(codesize[..]), ch) && last == ch[|ch| - 1] && last < SYMBOLS
  {
    ghost var cs, links := codesize[..], others[..];
    last := c;
    codesize[last] := codesize[last] + 1;
    ghost var j := 0;
    FirstLonger(cs, ch);
    while others[last] >= 0
      invariant 0 <= j < |ch| && last == ch[j] && last < SYMBOLS
      invariant codesize[..] == Longer(cs, ch[..j + 1])
      invariant others[..] == links
      decreases |ch| - j
    {
      assert links[ch[j]] == if j + 1 < |ch| then ch[j + 1] else -1;
      NextLonger(cs, ch, j + 1);
      last := others[last];
      codesize[last] := codesize[last] + 1;
      j := j + 1;
    }
    LinkEnds(links, ch, j);
    assert ch[..j + 1] == ch;
  }

  lemma LinkEnds(links: seq<int>, ch: seq<nat>, j: nat)
    requires Linked(links, ch) && j < |ch|
    ensures links[ch[j]] < 0 <==> j + 1 == |ch|
  {
    assert 0 <= j < |ch| && links[ch[j]] == if j + 1 < |ch| then ch[j + 1] else -1;
  }

  lemma FirstLonger(cs: symbols, ch: seq<nat>)
    requires InRange(ch) && ch != []
    ensures Longer(cs, ch[..1]) == cs[ch[0] := cs[ch[0]] + 1]
  {
    assert ch[..1] == [ch[0]];
  }

  lemma NextLonger(cs: symbols, ch: seq<nat>, j: nat)
    requires InRange(ch) && Distinct(ch) && j < |ch|
    ensures var before := Longer(cs, ch[..j]);
      Longer(cs, ch[..j + 1]) == before[ch[j] := before[ch[j]] + 1]
  {
    LongerStep(cs, ch[..j + 1]);
    assert ch[..j + 1][..j] == ch[..j];
  }

  /** What holds between merges: f are the frequencies of the trees in t, cs the code
      lengths of their leaves. */
  ghost predicate Growing(f0: symbols, f: symbols, cs: symbols, others: seq<int>, t: forest)
  {
    && Trees(f, others, t) && Covers(f0, t) && Balanced(f0, f, cs, t)
    && Sum(f) == Sum(f0) && 1 <= Nonzeros(f) <= Nonzeros(f0)
    && (forall i :: 0 <= i < SYMBOLS ==> cs[i] <= Nonzeros(f0) - Nonzeros(f) && (f0[i] == 0 ==> cs[i] == 0))
    && Sum(AllShares(f0, cs)) == Nonzeros(f) * Pow2(256)
    && LowerBound(f0, f, Cost(f0, cs))
  }

  /** The finished code: it fills its space exactly, no symbol that occurs is without a
      code, and no other lengths make the data shorter. */
  ghost predicate OptimalLengths(f0: symbols, cs: symbols)
  {
    && (forall i :: 0 <= i < SYMBOLS ==> cs[i] <= 256 && (cs[i] > 0 <==> f0[i] > 0))
    && Sum(AllShares(f0, cs)) == Pow2(256)
    && Cheapest(f0, Cost(f0, cs))
  }

  /** At first every symbol that occurs is a tree of its own. */
  function SingleTrees(f0: symbols): forest
  {
    Forest(seq(SYMBOLS, i requires 0 <= i < SYMBOLS => if f0[i] > 0 then [i] else []), seq(SYMBOLS, i => (i, 0)))
  }

  lemma GrowingAtStart(f0: symbols, cs: symbols, others: seq<int>)
    requires cs == seq(SYMBOLS, _ => 0) && others == seq(SYMBOLS, _ => -1) && Nonzeros(f0) >= 1
    ensures Growing(f0, f0, cs, others, SingleTrees(f0))
  {
    hide Pow2, Share, Sum, Nonzeros;
    var t := SingleTrees(f0);
    forall r | 0 <= r < SYMBOLS ensures Tree(f0, others, t, r) && BalancedTree(f0, f0, cs, t, r)
      && AllOccur(f0, t.chain[r]) {
      SingleTree(f0, cs, r);
    }
    StartShares(f0, cs, SYMBOLS);
    StartCost(f0, cs, SYMBOLS);
    assert f0[..SYMBOLS] == f0 && AllShares(f0, cs)[..SYMBOLS] == AllShares(f0, cs)
      && AllCosts(f0, cs)[..SYMBOLS] == AllCosts(f0, cs);
    BoundAtStart(f0);
    hide LowerBound, Tree, BalancedTree, AllOccur;
  }

  lemma SingleTree(f0: symbols, cs: symbols, r: nat)
    requires cs == seq(SYMBOLS, _ => 0) && r < SYMBOLS
    ensures Shares(cs, [r]) == Pow2(256) && Weight(f0, [r]) == f0[r]
  {
    assert [r][..0] == [];
  }

  lemma {:induction false} StartShares(f0: symbols, cs: symbols, n: nat)
    requires cs == seq(SYMBOLS, _ => 0) && n <= SYMBOLS
    ensures Sum(AllShares(f0, cs)[..n]) == Nonzeros(f0[..n]) * Pow2(256)
  {
    hide Pow2;
    if n > 0 {
      StartShares(f0, cs, n - 1);
      assert AllShares(f0, cs)[..n][..n - 1] == AllShares(f0, cs)[..n - 1] && f0[..n][..n - 1] == f0[..n - 1];
      Distribute(Nonzeros(f0[..n - 1]), 1, Pow2(256));
    }
  }

  lemma {:induction false} StartCost(f0: symbols, cs: symbols, n: nat)
    requires cs == seq(SYMBOLS, _ => 0) && n <= SYMBOLS
    ensures Sum(AllCosts(f0, cs)[..n]) == 0
  {
    if n > 0 {
      StartCost(f0, cs, n - 1);
      assert AllCosts(f0, cs)[..n][..n - 1] == AllCosts(f0, cs)[..n - 1];
    }
  }

  lemma MergeGrowing(f0: symbols, f: symbols, cs: symbols, others: seq<int>, t: forest, a: nat, b: nat)
    requires Growing(f0, f, cs, others, t) && TwoSmallest(f, a, b)
    ensures t.chain[a] != [] && t.chain[a][0] == a && Linked(others, t.chain[a]) && Distinct(t.chain[a])
    ensures t.chain[b] != [] && t.chain[b][0] == b && Linked(others, t.chain[b]) && Distinct(t.chain[b])
    ensures var last := t.chain[a][|t.chain[a]| - 1];
      var linked := others[last := b];
      && Linked(linked, t.chain[b])
      && Growing(f0, MergedFreq(f, a, b), MergedSizes(cs, t, a, b), linked, MergedForest(t, a, b))
    ensures Nonzeros(MergedFreq(f, a, b)) + 1 == Nonzeros(f)
  {
    hide Pow2, Share, Shares, Sum, Nonzeros, Weight, AllShares, AllCosts, Balanced, Covers, LowerBound, MergedSizes,
      Distinct, AllOccur;
    assert Tree(f, others, t, a) && Tree(f, others, t, b);
    forall r | 0 <= r < SYMBOLS ensures Placed(t, r) {
      assert Tree(f, others, t, r);
    }
    PlacedDistinct(t, a);
    PlacedDistinct(t, b);
    PlacedApart(t, a, b);
    hide Placed;
    MergeFreqTotals(f, a, b);
    MergeTrees(f, others, t, a, b);
    MergeCovers(f0, t, a, b);
    MergeBalanced(f0, f, cs, t, a, b);
    MergedSizesOf(cs, t, a, b);
    OccursIn(f0, t, a);
    OccursIn(f0, t, b);
    Distribute(Nonzeros(f), -1, Pow2(256));
    BoundAfterMerge(f0, f, Cost(f0, cs), a, b);
    hide Trees, Tree;
  }

  lemma OccursIn(f0: symbols, t: forest, r: nat)
    requires Covers(f0, t) && r < SYMBOLS
    ensures forall i :: 0 <= i < SYMBOLS && i in t.chain[r] ==> f0[i] > 0
  {
    assert AllOccur(f0, t.chain[r]);
  }

  lemma MergeFreqTotals(f: symbols, a: nat, b: nat)
    requires a < SYMBOLS && b < SYMBOLS && a != b && f[a] > 0 && f[b] > 0
    ensures Sum(MergedFreq(f, a, b)) == Sum(f) && Nonzeros(MergedFreq(f, a, b)) + 1 == Nonzeros(f)
    ensures Nonzeros(f) >= 2
  {
    hide Sum, Nonzeros;
    var g := f[a := f[a] + f[b]];
    SumUpdate(f, a, f[a] + f[b]);
    SumUpdate(g, b, 0);
    NonzerosUpdate(f, a, f[a] + f[b]);
    NonzerosUpdate(g, b, 0);
    NonzerosUpdate(g[b := 0], a, 0);
  }

  /** If no second tree can be found, there is none: no frequency exceeds 10^9 + 1
      in sum. */
  lemma OneTreeLeft(f0: symbols, f: symbols, cs: symbols, others: seq<int>, t: forest, c: int)
    requires Growing(f0, f, cs, others, t) && Sum(f0) <= LARGEST + 1 && Nonzeros(f0) >= 2 && -1 <= c < SYMBOLS
    requires c >= 0 ==> f[c] > 0
    requires forall i :: 0 <= i < SYMBOLS && f[i] != 0 && i != c ==> f[i] > LARGEST
    ensures OptimalLengths(f0, cs) && Nonzeros(f) == 1
  {
    hide Pow2, Share, Shares, Sum, Nonzeros, Weight, AllShares, AllCosts, LowerBound, Linked, Placed;
    if Nonzeros(f) > 1 {
      var i, j := TwoNonzeros(f);
      SumTwo(f, i, j);
      assert false;
    }
    var r := SomeNonzero(f);
    AllInOneTree(f0, f, others, t, r);
    assert BalancedTree(f0, f, cs, t, r);
    BoundIsReached(f0, f, Cost(f0, cs));
    assert 1 * Pow2(256) == Pow2(256);
  }

  lemma AllInOneTree(f0: symbols, f: symbols, others: seq<int>, t: forest, r: nat)
    requires Trees(f, others, t) && Covers(f0, t) && Nonzeros(f) == 1 && Nonzeros(f0) >= 2 && r < SYMBOLS && f[r] > 0
    ensures |t.chain[r]| > 1 && forall i :: 0 <= i < SYMBOLS && f0[i] > 0 ==> i in t.chain[r]
  {
    hide Linked, Placed;
    forall i | 0 <= i < SYMBOLS && f0[i] > 0
      ensures t.place[i].0 == r && t.place[i].1 < |t.chain[r]| && t.chain[r][t.place[i].1] == i
    {
      var q := t.place[i].0;
      assert Tree(f, others, t, q);
      if q != r {
        OnlyNonzero(f, q, r);
      }
    }
    var i, j := TwoNonzeros(f0);
    assert t.place[i].1 != t.place[j].1;
  }

  lemma OnlyNonzero(f: symbols, i: nat, j: nat)
    requires i < SYMBOLS && j < SYMBOLS && f[i] > 0 && f[j] > 0 && Nonzeros(f) == 1
    ensures i == j
  {
    hide Nonzeros;
    if i != j {
      NonzerosUpdate(f, i, 0);
      NonzerosUpdate(f[i := 0], j, 0);
    }
  }

  /** The lengths found are themselves those of a prefix code, so the minimum is reached. */
  lemma OptimumIsReached(f0: symbols, cs: symbols)
    requires OptimalLengths(f0, cs)
    ensures Feasible(f0, cs, 256)
    ensures forall l: symbols, n: nat :: Feasible(f0, l, n) ==> Cost(f0, cs) <= Cost(f0, l)
  {
    hide Sum, Pow2;
    assert Space(f0, cs, 256) == AllShares(f0, cs);
  }

  lemma DeepAtStart(f0: symbols, cs: symbols, inner: symbols)
    requires cs == seq(SYMBOLS, _ => 0) && inner == seq(SYMBOLS, _ => 0)
    ensures Deep(f0, cs, SingleTrees(f0), inner)
  {
    assert Fib(2) == 1;
    forall r | 0 <= r < SYMBOLS && f0[r] > 0 ensures DeepTree(f0, cs, SingleTrees(f0), inner, r) {
      assert SingleTrees(f0).chain[r] == [r];
    }
  }

  lemma GrowingPlaced(f0: symbols, f: symbols, cs: symbols, others: seq<int>, t: forest)
    requires Growing(f0, f, cs, others, t)
    ensures forall r :: 0 <= r < SYMBOLS ==> Placed(t, r)
  {
    hide Placed, Linked, Sum, Nonzeros, LowerBound, Covers, Balanced;
    forall r | 0 <= r < SYMBOLS ensures Placed(t, r) {
      assert Tree(f, others, t, r);
    }
  }

  /** What a merge keeps. */
  lemma MergeStep(f0: symbols, f: symbols, cs: symbols, others: seq<int>, t: forest, inner: symbols, a: nat, b: nat)
    requires Growing(f0, f, cs, others, t) && TwoSmallest(f, a, b) && Deep(f, cs, t, inner)
    ensures t.chain[a] != [] && t.chain[a][0] == a && Linked(others, t.chain[a]) && Distinct(t.chain[a])
    ensures t.chain[b] != [] && t.chain[b][0] == b && Distinct(t.chain[b])
    ensures var linked := others[t.chain[a][|t.chain[a]| - 1] := b];
      && Linked(linked, t.chain[b])
        && Growing(f0, MergedFreq(f, a, b), MergedSizes(cs, t, a, b), linked, MergedForest(t, a, b))
    ensures Deep(MergedFreq(f, a, b), MergedSizes(cs, t, a, b), MergedForest(t, a, b), inner[a := f[b]])
    ensures Nonzeros(MergedFreq(f, a, b)) < Nonzeros(f)
  {
    hide Growing, Deep, Nonzeros, MergedFreq, MergedSizes, MergedForest, Linked, Distinct;
    MergeGrowing(f0, f, cs, others, t, a, b);
    GrowingPlaced(f0, f, cs, others, t);
    MergeDeep(f, cs, t, inner, a, b);
  }

  /** At the end the weight of the one tree bounds every length. */
  lemma OneTreeDeep(f0: symbols, f: symbols, cs: symbols, others: seq<int>, t: forest, inner: symbols)
    requires Growing(f0, f, cs, others, t) && Deep(f, cs, t, inner) && Nonzeros(f0) >= 2 && OptimalLengths(f0, cs)
    requires Nonzeros(f) == 1
    ensures forall i :: 0 <= i < SYMBOLS ==> Fib(cs[i] + 2) <= Sum(f0)
  {
    hide Sum, Nonzeros, LowerBound, Balanced, Fib, AllShares, Cheapest, Linked, Placed;
    var r := SomeNonzero(f);
    AllInOneTree(f0, f, others, t, r);
    SumOne(f, r);
    assert DeepTree(f, cs, t, inner, r);
    assert Fib(2) <= f[r] by { assert Fib(2) == 1 by { FibTwo(); } }
    forall i | 0 <= i < SYMBOLS ensures Fib(cs[i] + 2) <= Sum(f0) {
      if f0[i] > 0 {
        var j :| 0 <= j < |t.chain[r]| && t.chain[r][j] == i;
        assert AsDeepAs(cs[i], f[r], inner[r]);
      }
    }
  }

  lemma FibTwo()
    ensures Fib(2) == 1
  {
  }

  method GrowTree(freq: array<nat>) returns (codesize: array<nat>)
    requires freq.Length == SYMBOLS && Sum(freq[..]) <= LARGEST + 1 && Nonzeros(freq[..]) >= 2
    modifies freq
    ensures fresh(codesize) && codesize.Length == SYMBOLS
    ensures OptimalLengths(old(freq[..]), codesize[..])
    ensures forall i :: 0 <= i < SYMBOLS ==> Fib(codesize[i] + 2) <= Sum(old(freq[..]))
  {
    hide Growing, OptimalLengths, Sum, Nonzeros, Trees, Tree, Linked, Distinct, Longer, MergedForest, Deep, Fib;
    codesize := new nat[SYMBOLS](_ => 0);
    var others := new int[SYMBOLS](_ => -1);
    ghost var f0 := freq[..];
    ghost var t := SingleTrees(f0);
    assert codesize[..] == seq(SYMBOLS, _ => 0) && others[..] == seq(SYMBOLS, _ => -1);
    GrowingAtStart(f0, codesize[..], others[..]);
    ghost var inner := seq(SYMBOLS, _ => 0);
    DeepAtStart(f0, codesize[..], inner);
    while true
      invariant Growing(f0, freq[..], codesize[..], others[..], t)
      invariant |inner| == SYMBOLS && Deep(freq[..], codesize[..], t, inner)
      decreases Nonzeros(freq[..])
    {
      ghost var f, cs, links := freq[..], codesize[..], others[..];
      var c1 := FindSmallest(freq, -1);
      var c2 := FindSmallest(freq, c1);
      if c2 < 0 {
        OneTreeLeft(f0, f, cs, links, t, c1);
        OneTreeDeep(f0, f, cs, links, t, inner);
        break;
      }
      MergeStep(f0, f, cs, links, t, inner, c1, c2);
      inner := inner[c1 := f[c2]];
      freq[c1] := freq[c1] + freq[c2];
      freq[c2] := 0;
      var last := LengthenTree(codesize, others, c1, t.chain[c1]);
      others[last] := c2;
      last := LengthenTree(codesize, others, c2, t.chain[c2]);
      t := MergedForest(t, c1, c2);
    }
  }

  // ----- counting the lengths

  lemma {:induction false} KraftUpdate(bits: seq<nat>, l: nat, v: nat, m: nat, n: nat)
    requires 1 <= l < |bits| && 1 <= m <= |bits| && m <= n + 1 && l <= n
    ensures l >= m ==> Kraft(bits[l := v], m, n) == Kraft(bits, m, n)
    ensures l < m ==> Kraft(bits[l := v], m, n) + bits[l] * Pow2(n - l) == Kraft(bits, m, n) + v * Pow2(n - l)
  {
    hide Pow2;
    if m > 1 {
      KraftUpdate(bits, l, v, m - 1, n);
    }
  }

  lemma {:induction false} StartUpdate(bits: seq<nat>, l: nat, v: nat, m: nat)
    requires 1 <= l < |bits| && 1 <= m <= |bits|
    ensures l >= m ==> Start(bits[l := v], m) == Start(bits, m)
    ensures l < m ==> Start(bits[l := v], m) + bits[l] == Start(bits, m) + v
  {
    if m > 1 {
      StartUpdate(bits, l, v, m - 1);
    }
  }

  lemma {:induction false} EmptyTotals(bits: seq<nat>, m: nat, n: nat)
    requires 1 <= m <= |bits| && m <= n + 1 && forall l :: 1 <= l < m ==> bits[l] == 0
    ensures Kraft(bits, m, n) == 0 && Start(bits, m) == 0
  {
    if m > 1 {
      EmptyTotals(bits, m - 1, n);
    }
  }

  /** The counts agree with the first n code lengths. */
  ghost predicate Counted(f0: symbols, cs: symbols, bits: lengthCounts, n: nat)
    requires n <= SYMBOLS
  {
    && Kraft(bits, 33, 256) == Sum(AllShares(f0, cs)[..n])
    && Start(bits, 33) == Nonzeros(cs[..n])
  }

  lemma CountOne(f0: symbols, cs: symbols, bits: lengthCounts, n: nat)
    requires n < SYMBOLS && Counted(f0, cs, bits, n) && cs[n] <= MAX_CLEN && (cs[n] > 0 <==> f0[n] > 0)
    ensures Counted(f0, cs, if cs[n] > 0 then bits[cs[n] := bits[cs[n]] + 1] else bits, n + 1)
  {
    hide Pow2, Kraft, Start;
    var c := cs[n];
    assert cs[..n + 1][..n] == cs[..n] && AllShares(f0, cs)[..n + 1][..n] == AllShares(f0, cs)[..n];
    if c > 0 {
      KraftUpdate(bits, c, bits[c] + 1, 33, 256);
      StartUpdate(bits, c, bits[c] + 1, 33);
      Distribute(bits[c], 1, Pow2(256 - c));
    }
  }

  /** bits counts how many of the first n symbols have each length. */
  ghost predicate Tallied(cs: symbols, bits: lengthCounts, n: nat)
    requires n <= SYMBOLS
  {
    forall l :: 1 <= l <= MAX_CLEN ==> bits[l] == Exactly(cs, n, l)
  }

  lemma TallyOne(cs: symbols, bits: lengthCounts, n: nat)
    requires n < SYMBOLS && Tallied(cs, bits, n) && cs[n] <= MAX_CLEN
    ensures Tallied(cs, if cs[n] > 0 then bits[cs[n] := bits[cs[n]] + 1] else bits, n + 1)
  {
  }

  /** Count the symbols of each code length; lengths over 32 are an error. */
  method CountLengths(codesize: array<nat>, ghost f0: symbols) returns (ok: bool, bits: array<nat>)
    requires codesize.Length == SYMBOLS && OptimalLengths(f0, codesize[..])
    ensures fresh(bits) && bits.Length == MAX_CLEN + 1
    ensures ok <==> forall i :: 0 <= i < SYMBOLS ==> codesize[i] <= MAX_CLEN
    ensures ok ==> Kraft(bits[..], 33, 256) == Pow2(256) && Start(bits[..], 33) == Nonzeros(codesize[..])
    ensures ok ==> forall l :: 1 <= l <= MAX_CLEN ==> bits[l] == Exactly(codesize[..], SYMBOLS, l)
    ensures ok ==> forall l :: 1 <= l <= MAX_CLEN ==> bits[l] == |OfLength(codesize[..], SYMBOLS, l)|
  {
    hide Pow2, Kraft, Start, Nonzeros, Sum, Cheapest, Counted, AllShares, Tallied, Exactly, OfLength;
    ghost var cs := codesize[..];
    bits := new nat[MAX_CLEN + 1](_ => 0);
    assert bits[..] == seq(MAX_CLEN + 1, _ => 0);
    NothingCounted(f0, cs, bits[..]);
    for i := 0 to SYMBOLS
      invariant codesize[..] == cs && Counted(f0, cs, bits[..], i) && Tallied(cs, bits[..], i)
      invariant forall j :: 0 <= j < i ==> cs[j] <= MAX_CLEN
    {
      assert codesize[i] == cs[i];
      if cs[i] <= MAX_CLEN {
        TallyOne(cs, bits[..], i);
      }
      if codesize[i] != 0 {
        if codesize[i] > MAX_CLEN {
          return false, bits;
        }
        CountOne(f0, cs, bits[..], i);
        bits[codesize[i]] := bits[codesize[i]] + 1;
      } else {
        CountOne(f0, cs, bits[..], i);
      }
    }
    AllCounted(f0, cs, bits[..]);
    AllTallied(cs, bits[..]);
    ok := true;
  }

  lemma AllTallied(cs: symbols, bits: lengthCounts)
    requires Tallied(cs, bits, SYMBOLS)
    ensures forall l :: 1 <= l <= MAX_CLEN ==> bits[l] == Exactly(cs, SYMBOLS, l)
    ensures forall l :: 1 <= l <= MAX_CLEN ==> bits[l] == |OfLength(cs, SYMBOLS, l)|
  {
    hide Exactly;
    forall l | 1 <= l <= MAX_CLEN ensures bits[l] == |OfLength(cs, SYMBOLS, l)| {
      ExactlyCounts(cs, SYMBOLS, l);
    }
  }

  lemma NothingCounted(f0: symbols, cs: symbols, bits: lengthCounts)
    requires bits == seq(MAX_CLEN + 1, _ => 0)
    ensures Counted(f0, cs, bits, 0) && Tallied(cs, bits, 0)
  {
    EmptyTotals(bits, 33, 256);
  }

  lemma AllCounted(f0: symbols, cs: symbols, bits: lengthCounts)
    requires Counted(f0, cs, bits, SYMBOLS) && Sum(AllShares(f0, cs)) == Pow2(256)
    ensures Kraft(bits, 33, 256) == Pow2(256) && Start(bits, 33) == Nonzeros(cs)
  {
    hide Pow2, Kraft, Start, Nonzeros, Sum;
    assert cs[..SYMBOLS] == cs && AllShares(f0, cs)[..SYMBOLS] == AllShares(f0, cs);
  }

  // ----- limiting the lengths to 16

  /** The codes of the given lengths fill their space exactly. */
  ghost predicate Full(bits: lengthCounts, count: nat)
  {
    Kraft(bits, 33, 256) == Pow2(256) && Start(bits, 33) == count
  }

  predicate NoneLonger(bits: lengthCounts, i: nat)
  {
    forall l :: i < l <= MAX_CLEN ==> bits[l] == 0
  }

  lemma {:induction false} KraftUpTo(bits: lengthCounts, i: nat, m: nat)
    requires 1 <= i < m <= 33 && NoneLonger(bits, i)
    ensures Kraft(bits, m, 256) == Kraft(bits, i + 1, 256) && Start(bits, m) == Start(bits, i + 1)
    decreases m
  {
    hide Pow2;
    if m > i + 1 {
      KraftUpTo(bits, i, m - 1);
    }
  }

  /** The Kraft sum in larger units. */
  lemma {:induction false} KraftScale(bits: seq<nat>, m: nat, n: nat, k: nat)
    requires 1 <= m <= |bits| && m <= n + 1 && n <= k
    ensures Kraft(bits, m, k) == Kraft(bits, m, n) * Pow2(k - n)
  {
    hide Pow2;
    if m > 1 {
      KraftScale(bits, m - 1, n, k);
      Pow2Add(n - (m - 1), k - n);
      Reassociate(bits[m - 1], Pow2(n - (m - 1)), Pow2(k - n));
      Distribute(Kraft(bits, m - 1, n), bits[m - 1] * Pow2(n - (m - 1)), Pow2(k - n));
    }
  }

  /** Symbols of the longest length come in pairs. */
  lemma LongestAreEven(bits: lengthCounts, count: nat, i: nat)
    requires Full(bits, count) && 2 <= i <= MAX_CLEN && NoneLonger(bits, i)
    ensures bits[i] % 2 == 0
  {
    hide Pow2, Kraft, Start;
    var p := Pow2(256 - i);
    KraftUpTo(bits, i, 33);
    KraftLast(bits, i);
    KraftScale(bits, i, i - 1, 256);
    DoubleSpace(256 - i);
    Pow2Add(i - 1, 256 - i + 1);
    EvenPart(bits[i], Kraft(bits, i, i - 1), Pow2(i - 1), p);
  }

  lemma EvenPart(b: nat, x: nat, y: nat, p: nat)
    requires p > 0 && x * (2 * p) + b * p == y * (2 * p)
    ensures b % 2 == 0
  {
    Reassociate(y, 2, p);
    Reassociate(x, 2, p);
    Distribute(x * 2, b, p);
    Cancel(x * 2 + b, y * 2, p);
  }

  lemma KraftLast(bits: lengthCounts, i: nat)
    requires 1 <= i <= MAX_CLEN
    ensures Kraft(bits, i + 1, 256) == Kraft(bits, i, 256) + bits[i] * Pow2(256 - i)
    ensures Start(bits, i + 1) == Start(bits, i) + bits[i]
  {
  }

  /** There are too few symbols for all codes to be as long as i - 1 bits. */
  lemma SomeShorter(bits: lengthCounts, count: nat, i: nat) returns (w: nat)
    requires Full(bits, count) && count <= 0x8000 && 17 <= i <= MAX_CLEN && NoneLonger(bits, i)
    ensures 1 <= w <= i - 2 && bits[w] > 0
  {
    hide Pow2, Kraft, Start;
    if forall l :: 1 <= l <= i - 2 ==> bits[l] == 0 {
      EmptyTotals(bits, i - 1, 256);
      KraftLast(bits, i - 1);
      KraftLast(bits, i);
      KraftUpTo(bits, i, 33);
      var p := Pow2(256 - i);
      assert Pow2(256 - (i - 1)) == 2 * p by { DoubleSpace(256 - i); }
      Pow2Add(i, 256 - i);
      Reassociate(bits[i - 1], 2, p);
      Distribute(2 * bits[i - 1], bits[i], p);
      Cancel(2 * bits[i - 1] + bits[i], Pow2(i), p);
      Pow2Monotone(17, i);
      assert Pow2(17) == 0x20000 by { Pow2Values(); DoubleSpace(16); }
      assert false;
    }
    w :| 1 <= w <= i - 2 && bits[w] > 0;
  }

  /** Two of the longest codes are removed; one takes the place of their common prefix,
      the other shares with a shorter code. */
  function Adjusted(bits: lengthCounts, i: nat, j: nat): lengthCounts
    requires 2 <= i <= MAX_CLEN && j + 2 <= i && bits[i] >= 2 && bits[j] > 0
  {
    var a := bits[i := bits[i] - 2];
    var b := a[i - 1 := a[i - 1] + 1];
    var c := b[j + 1 := b[j + 1] + 2];
    c[j := c[j] - 1]
  }

  lemma AdjustedIs(bits: lengthCounts, i: nat, j: nat)
    requires 2 <= i <= MAX_CLEN && j + 2 <= i && bits[i] >= 2 && bits[j] > 0
    ensures var a := bits[i := bits[i] - 2]; var b := a[i - 1 := a[i - 1] + 1];
      var c := b[j + 1 := b[j + 1] + 2]; Adjusted(bits, i, j) == c[j := c[j] - 1]
  {
  }

  /** The adjustment keeps the code full and loses no symbol. */
  lemma AdjustedIsFull(bits: lengthCounts, count: nat, i: nat, j: nat)
    requires Full(bits, count) && 2 <= i <= MAX_CLEN && 1 <= j <= i - 2 && bits[i] >= 2 && bits[j] > 0
    ensures Full(Adjusted(bits, i, j), count)
  {
    hide Pow2, Kraft, Start;
    var a := bits[i := bits[i] - 2];
    var b := a[i - 1 := a[i - 1] + 1];
    var c := b[j + 1 := b[j + 1] + 2];
    KraftChange(bits, i, -2);
    KraftChange(a, i - 1, 1);
    KraftChange(b, j + 1, 2);
    KraftChange(c, j, -1);
    DoubleSpace(256 - i);
    DoubleSpace(256 - (j + 1));
  }

  lemma KraftChange(bits: lengthCounts, l: nat, d: int)
    requires 1 <= l <= MAX_CLEN && bits[l] + d >= 0
    ensures Kraft(bits[l := bits[l] + d], 33, 256) == Kraft(bits, 33, 256) + d * Pow2(256 - l)
    ensures Start(bits[l := bits[l] + d], 33) == Start(bits, 33) + d
  {
    hide Pow2, Kraft, Start;
    KraftUpdate(bits, l, bits[l] + d, 33, 256);
    StartUpdate(bits, l, bits[l] + d, 33);
    Distribute(bits[l], d, Pow2(256 - l));
  }

  lemma {:induction false} EntryBound(bits: seq<nat>, l: nat, m: nat)
    requires 1 <= l < m <= |bits|
    ensures bits[l] <= Start(bits, m)
  {
    if l < m - 1 {
      EntryBound(bits, l, m - 1);
    }
  }

  predicate FitsUint8(bits: lengthCounts)
  {
    forall l :: 1 <= l <= MAX_CLEN ==> bits[l] <= 255
  }

  lemma FullFitsUint8(bits: lengthCounts, count: nat)
    requires Full(bits, count) && count <= 255
    ensures FitsUint8(bits)
  {
    hide Kraft, Start, Pow2;
    forall l | 1 <= l <= MAX_CLEN ensures bits[l] <= 255 {
      EntryBound(bits, l, 33);
    }
  }

  /** Section K.2 for the longest codes, of i > 16 bits, and the longest codes of at most
      i - 2 bits, of j: two codes of i bits and one of j bits make room for one of i - 1 and
      two of j + 1 bits. */
  ghost predicate Shortens(b: lengthCounts, c: lengthCounts, i: nat, j: nat)
  {
    && 16 < i <= MAX_CLEN && b[i] >= 2 && (forall l :: i < l <= MAX_CLEN ==> b[l] == 0)
    && 1 <= j <= i - 2 && b[j] >= 1 && (forall l :: j < l <= i - 2 ==> b[l] == 0)
    && c[i] == b[i] - 2 && c[j] == b[j] - 1
    && c[i - 1] == b[i - 1] + (if j + 2 == i then 3 else 1)
    && (j + 2 < i ==> c[j + 1] == 2)
    && forall l :: 0 <= l <= MAX_CLEN && l != i && l != i - 1 && l != j + 1 && l != j ==> c[l] == b[l]
  }

  ghost predicate ShortenedOnce(b: lengthCounts, c: lengthCounts)
  {
    exists i, j :: Shortens(b, c, i, j)
  }

  lemma AdjustedShortens(b: lengthCounts, i: nat, j: nat)
    requires 16 < i <= MAX_CLEN && 1 <= j <= i - 2 && b[i] >= 2 && b[j] > 0 && NoneLonger(b, i)
    requires forall l :: j < l <= i - 2 ==> b[l] == 0
    ensures ShortenedOnce(b, Adjusted(b, i, j))
  {
    assert Shortens(b, Adjusted(b, i, j), i, j);
  }

  lemma NoneToShorten(b: lengthCounts, i: nat)
    requires NoneLonger(b, 16) && 16 < i <= MAX_CLEN
    ensures b[i] == 0
  {
  }

  /** Section K.2: no code longer than 16 bits is left; the code stays full, the number
      of symbols stays the same, and no count overflows its byte.  Counts of at most 16
      bits stay as they are; otherwise `steps` are the counts from one adjustment to the
      next. */
  method LimitLengths(bits: array<nat>, ghost count: nat) returns (ghost steps: seq<lengthCounts>)
    requires bits.Length == MAX_CLEN + 1 && Full(bits[..], count) && count <= 255
    modifies bits
    ensures Full(bits[..], count) && NoneLonger(bits[..], 16) && FitsUint8(bits[..])
    ensures NoneLonger(old(bits[..]), 16) ==> bits[..] == old(bits[..])
    ensures steps != [] && steps[0] == old(bits[..]) && steps[|steps| - 1] == bits[..]
    ensures forall k :: 0 <= k < |steps| - 1 ==> ShortenedOnce(steps[k], steps[k + 1])
  {
    hide Full, FitsUint8, NoneLonger, ShortenedOnce, Adjusted;
    var i := MAX_CLEN;
    NothingLonger(bits[..]);
    ghost var first := bits[..];
    steps := [bits[..]];
    while i > 16
      invariant 16 <= i <= MAX_CLEN && Full(bits[..], count) && NoneLonger(bits[..], i)
      invariant NoneLonger(first, 16) ==> bits[..] == first
      invariant steps != [] && steps[0] == first && steps[|steps| - 1] == bits[..]
      invariant forall k :: 0 <= k < |steps| - 1 ==> ShortenedOnce(steps[k], steps[k + 1])
    {
      while bits[i] > 0
        invariant Full(bits[..], count) && NoneLonger(bits[..], i)
        invariant NoneLonger(first, 16) ==> bits[..] == first
        invariant steps != [] && steps[0] == first && steps[|steps| - 1] == bits[..]
        invariant forall k :: 0 <= k < |steps| - 1 ==> ShortenedOnce(steps[k], steps[k + 1])
        decreases bits[i]
      {
        ghost var b := bits[..];
        LongestAreEven(b, count, i);
        ghost var w := SomeShorter(b, count, i);
        var j := i - 2;
        while bits[j] == 0
          invariant w <= j <= i - 2 && bits[..] == b
          invariant forall l :: j < l <= i - 2 ==> b[l] == 0
          decreases j
        {
          j := j - 1;
        }
        AdjustedIsFull(b, count, i, j);
        AdjustedLonger(b, i, j);
        AdjustedShortens(b, i, j);
        if NoneLonger(first, 16) {
          NoneToShorten(b, i);
          assert false;
        }
        bits[i] := bits[i] - 2;
        bits[i - 1] := bits[i - 1] + 1;
        bits[j + 1] := bits[j + 1] + 2;
        bits[j] := bits[j] - 1;
        assert bits[..] == Adjusted(b, i, j) by { AdjustedIs(b, i, j); }
        steps := steps + [bits[..]];
      }
      NoneAt(bits[..], i);
      i := i - 1;
    }
    FullFitsUint8(bits[..], count);
  }

  lemma NothingLonger(bits: lengthCounts)
    ensures NoneLonger(bits, MAX_CLEN)
  {
  }

  lemma NoneAt(bits: lengthCounts, i: nat)
    requires 1 <= i <= MAX_CLEN && NoneLonger(bits, i) && bits[i] == 0
    ensures NoneLonger(bits, i - 1)
  {
  }

  lemma AdjustedLonger(bits: lengthCounts, i: nat, j: nat)
    requires 2 <= i <= MAX_CLEN && j + 2 <= i && bits[i] >= 2 && bits[j] > 0 && NoneLonger(bits, i)
    ensures NoneLonger(Adjusted(bits, i, j), i) && Adjusted(bits, i, j)[i] == bits[i] - 2
  {
  }

  /** One code of the longest length in use is given up, that of the pseudo-symbol. */
  method RemovePseudoSymbol(bits: array<nat>, ghost count: nat) returns (ghost longest: nat)
    requires bits.Length == MAX_CLEN + 1 && Full(bits[..], count) && NoneLonger(bits[..], 16)
    modifies bits
    ensures Kraft(bits[..], 17, 256) < Pow2(256) && count > 0 && Start(bits[..], 17) == count - 1
    ensures 1 <= longest <= 16 && old(bits[longest]) > 0 && bits[longest] == old(bits[longest]) - 1
    ensures forall l :: longest < l <= MAX_CLEN ==> old(bits[l]) == 0
    ensures forall l :: 0 <= l <= MAX_CLEN && l != longest ==> bits[l] == old(bits[l])
  {
    hide Pow2, Kraft, Start;
    ghost var b := bits[..];
    ghost var w := SomeInUse(b, count);
    var i := 16;
    while bits[i] == 0
      invariant w <= i <= 16 && bits[..] == b && forall l :: i < l <= MAX_CLEN ==> b[l] == 0
      decreases i
    {
      i := i - 1;
    }
    longest := i;
    KraftChange(b, i, -1);
    bits[i] := bits[i] - 1;
    assert bits[..] == b[i := b[i] - 1];
    KraftUpTo(bits[..], 16, 33);
  }

  lemma SomeInUse(bits: lengthCounts, count: nat) returns (w: nat)
    requires Full(bits, count) && NoneLonger(bits, 16)
    ensures 1 <= w <= 16 && bits[w] > 0
  {
    hide Pow2;
    if forall l :: 1 <= l <= 16 ==> bits[l] == 0 {
      EmptyTotals(bits, 33, 256);
      assert false;
    }
    w :| 1 <= w <= 16 && bits[w] > 0;
  }

  lemma {:induction false} FirstEntriesOnly(a: seq<nat>, b: seq<nat>, m: nat, n: nat)
    requires 1 <= m <= |a| && m <= |b| && m <= n + 1 && forall l :: 1 <= l < m ==> a[l] == b[l]
    ensures Kraft(a, m, n) == Kraft(b, m, n) && Start(a, m) == Start(b, m)
  {
    hide Pow2;
    if m > 1 {
      FirstEntriesOnly(a, b, m - 1, n);
    }
  }

  /** Lengths that leave some space unused are legal. */
  lemma RoomLeftIsLegal(bits: lengthCounts, t: counts)
    requires t == bits[..17] && Kraft(bits, 17, 256) < Pow2(256) && Start(bits, 17) <= 256
    ensures Legal(t) && Start(t, 17) == Start(bits, 17)
  {
    hide Pow2, Kraft, Start, Legal;
    FirstEntriesOnly(bits, t, 17, 256);
    KraftScale(t, 17, 16, 256);
    Pow2Add(16, 240);
    if Kraft(t, 17, 16) >= Pow2(16) {
      MulMonotone(Pow2(16), Kraft(t, 17, 16), Pow2(240));
    }
    LegalIffKraft(t);
  }

  // ----- the list of symbols

  /** The real symbols that have codes, sorted by code length. */
  method ListSymbols(codesize: array<nat>) returns (huffval: array<byte>, ghost n: nat)
    requires codesize.Length == SYMBOLS && forall i :: 0 <= i < SYMBOLS ==> codesize[i] <= MAX_CLEN
    ensures fresh(huffval) && huffval.Length == 256 && n == Nonzeros(codesize[..256]) && n <= 256
    ensures Listed(codesize[..], huffval[..n], MAX_CLEN + 1, 0) && Ranked(codesize[..], huffval[..n])
  {
    hide Listed, Ranked, Below, Exactly, Nonzeros;
    ghost var cs := codesize[..];
    huffval := new byte[256](_ => 0);
    var p := 0;
    NoneBelowOne(cs, 256);
    NothingListed(cs, huffval[..0]);
    assert Ranked(cs, huffval[..0]) by { NothingRanked(cs, huffval[..0]); }
    for i := 1 to MAX_CLEN + 1
      invariant codesize[..] == cs && p == Below(cs, 256, i) && p <= 256 && Listed(cs, huffval[..p], i, 0)
      invariant Ranked(cs, huffval[..p])
    {
      NoneExactly(cs, i);
      for j := 0 to 256
        invariant codesize[..] == cs && p == Below(cs, 256, i) + Exactly(cs, j, i) && p <= 256
        invariant Listed(cs, huffval[..p], i, j) && Ranked(cs, huffval[..p])
      {
        ListOne(cs, huffval[..p], i, j);
        ExactlyNext(cs, j, i);
        BelowNext(cs, 256, i);
        ExactlyMonotone(cs, j, 256, i);
        if codesize[j] == i {
          RankOne(cs, huffval[..p], i, j);
          huffval[p] := j;
          assert huffval[..p + 1] == huffval[..p] + [j];
          p := p + 1;
        }
      }
      BelowNext(cs, 256, i);
      ListNextLength(cs, huffval[..p], i);
    }
    BelowAll(cs, 256);
    n := p;
    assert cs[..256] == codesize[..256];
  }

  // ----- the table

  /** What the generated table promises for the frequencies f of the real symbols. */
  ghost predicate TableFor(t: table, f: seq<nat>)
    requires |f| == 256
  {
    && Legal(t.bits) && CodeCount(t) == Nonzeros(f)
    && ValidSymbols(t, false)
    && forall s :: 0 <= s < 256 ==> (HasCode(t, s) <==> f[s] > 0)
  }

  lemma ListIsTable(f0: symbols, cs: symbols, t: table)
    requires (forall i :: 0 <= i < SYMBOLS ==> (cs[i] > 0 <==> f0[i] > 0)) && Legal(t.bits)
    requires CodeCount(t) == Nonzeros(cs[..256]) <= 256 && (forall i :: 0 <= i < SYMBOLS ==> cs[i] <= MAX_CLEN)
    requires Listed(cs, t.huffval[..CodeCount(t)], MAX_CLEN + 1, 0)
    ensures TableFor(t, f0[..256])
  {
    hide Legal, Start;
    var n := CodeCount(t);
    var vals := t.huffval[..n];
    SameNonzeros(cs[..256], f0[..256]);
    forall s | 0 <= s < 256 ensures HasCode(t, s) <==> f0[s] > 0 {
      FoundIfListed(t, s);
      ListedIfCoded(cs, vals, s);
    }
    forall p, q | 0 <= p < q < n ensures t.huffval[p] != t.huffval[q] {
      assert vals[p] != vals[q];
    }
  }

  lemma FoundIfListed(t: table, s: byte)
    requires CodeCount(t) <= 256
    ensures HasCode(t, s) <==> s in t.huffval[..CodeCount(t)]
  {
    hide Start;
    var vals, p := t.huffval[..CodeCount(t)], PlaceFrom(t, s, 0);
    assert p < |vals| ==> vals[p] == s;
    assert forall q :: 0 <= q < |vals| ==> vals[q] == t.huffval[q];
  }

  lemma ListedIfCoded(cs: symbols, vals: seq<byte>, s: byte)
    requires Listed(cs, vals, MAX_CLEN + 1, 0) && forall i :: 0 <= i < SYMBOLS ==> cs[i] <= MAX_CLEN
    ensures s in vals <==> cs[s] > 0
  {
    assert ComesBefore(cs, s, MAX_CLEN + 1, 0) <==> cs[s] > 0;
  }

  lemma {:induction false} SameNonzeros(a: seq<nat>, b: seq<nat>)
    requires |a| == |b| && forall i :: 0 <= i < |a| ==> (a[i] > 0 <==> b[i] > 0)
    ensures Nonzeros(a) == Nonzeros(b)
  {
    if a != [] {
      SameNonzeros(a[..|a| - 1], b[..|b| - 1]);
    }
  }

  /** jpeg_gen_optimal_table, for 1 to 254 symbols and counts of at most 10^9 in all.
      The lengths found first are optimal; unless one of them exceeds 32, the table is
      legal, has codes of at most 16 bits for exactly the symbols counted, and none of
      its codes is all ones; a symbol for which a shorter length was found has no longer
      code.  Unless a length found exceeds 16, no code is longer than that length, so the
      data are not longer than the optimum. */
  method GenOptimalTable(freq: array<nat>) returns (ok: bool, t: table, ghost cs: symbols)
    requires freq.Length == SYMBOLS && 1 <= Nonzeros(freq[..256]) <= 254 && Sum(freq[..256]) <= LARGEST
    modifies freq
    ensures OptimalLengths(old(freq[..256]) + [1], cs)
    ensures ok <==> forall i :: 0 <= i < SYMBOLS ==> cs[i] <= MAX_CLEN
    ensures ok || LONG_CODE_WEIGHT <= Sum(old(freq[..256])) + 1
    ensures ok ==> TableFor(t, old(freq[..256])) && CodeCount(t) <= 256
    ensures ok ==> forall s, r :: (0 <= s < 256 && 0 <= r < 256 && HasCode(t, s) && HasCode(t, r) && cs[s] < cs[r]
      ==> LengthOf(t, s) <= LengthOf(t, r))
    ensures ok && (forall i :: 0 <= i < SYMBOLS ==> cs[i] <= 16)
      ==> forall s :: 0 <= s < 256 && HasCode(t, s) ==> Length(t.bits, PlaceFrom(t, s, 0)) <= cs[s]
    ensures ok && (forall i :: 0 <= i < SYMBOLS ==> cs[i] <= 16)
      ==> DataBits(t, old(freq[..256])) + cs[256] <= Cost(old(freq[..256]) + [1], cs)
  {
    hide Fib, OptimalLengths, Sum, Nonzeros, Kraft, Start, Pow2, Legal, Listed, Ranked, Sorted, TableFor, Full,
      NoneLonger, Exactly, HasCode, LengthOf, Length, DataBits, Cost;
    ghost var f := freq[..256];
    t := HuffTable(seq(17, _ => 0), seq(256, _ => 0));
    freq[256] := 1;
    ghost var f0 := freq[..];
    assert f0 == f + [1];
    WithPseudoSymbol(f, f0);
    var codesize := GrowTree(freq);
    cs := codesize[..];
    var okLengths, bits := CountLengths(codesize, f0);
    if !okLengths {
      LongCodeIsHeavy(f0, cs);
      return false, t, cs;
    }
    LengthsSay(f0, cs);
    ghost var count := Nonzeros(cs);
    assert Full(bits[..], count) by { FullSays(bits[..], count); }
    ghost var counted := bits[..];
    ghost var steps := LimitLengths(bits, count);
    ghost var limited := bits[..];
    ghost var w := RemovePseudoSymbol(bits, count);
    var huffval, n := ListSymbols(codesize);
    assert codesize[..] == cs;
    ghost var final := bits[..];
    t := HuffTable(bits[..17], huffval[..]);
    RoomLeftIsLegal(final, t.bits);
    assert huffval[..][..n] == huffval[..n];
    ListIsTable(f0, cs, t);
    assert f0[..256] == f;
    SortedIs(t, cs);
    OrderIsKeptByAll(t, cs);
    LengthOfIs(t);
    if forall i :: 0 <= i < SYMBOLS ==> cs[i] <= 16 {
      NothingToLimit(cs, counted);
      LengthsAreReached(t, cs, counted, w);
      DataAreShorter(t, f, f0, cs);
    }
    ok := true;
  }

  lemma SortedIs(t: table, cs: symbols)
    requires CodeCount(t) <= 256
    requires Listed(cs, t.huffval[..CodeCount(t)], MAX_CLEN + 1, 0) && Ranked(cs, t.huffval[..CodeCount(t)])
    ensures Sorted(t, cs)
  {
  }

  lemma OrderIsKeptByAll(t: table, cs: symbols)
    requires Sorted(t, cs) && CodeCount(t) <= 256
    ensures forall s, r :: (0 <= s < 256 && 0 <= r < 256 && HasCode(t, s) && HasCode(t, r) && cs[s] < cs[r]
      ==> LengthOf(t, s) <= LengthOf(t, r))
  {
    hide Sorted, HasCode, LengthOf;
    forall s, r | 0 <= s < 256 && 0 <= r < 256 && HasCode(t, s) && HasCode(t, r) && cs[s] < cs[r]
      ensures LengthOf(t, s) <= LengthOf(t, r) {
      OrderIsKept(t, cs, s, r);
    }
  }

  lemma NothingToLimit(cs: symbols, counted: lengthCounts)
    requires forall i :: 0 <= i < SYMBOLS ==> cs[i] <= 16
    requires forall l :: 1 <= l <= MAX_CLEN ==> counted[l] == Exactly(cs, SYMBOLS, l)
    ensures NoneLonger(counted, 16)
  {
    hide Exactly;
    forall l | 16 < l <= MAX_CLEN ensures counted[l] == 0 {
      ExactlyNone(cs, SYMBOLS, l);
    }
  }

  lemma LongCodeIsHeavy(f0: symbols, cs: symbols)
    requires forall i :: 0 <= i < SYMBOLS ==> Fib(cs[i] + 2) <= Sum(f0)
    requires exists i :: 0 <= i < SYMBOLS && cs[i] > MAX_CLEN
    ensures LONG_CODE_WEIGHT <= Sum(f0)
  {
    hide Fib, Sum;
    var i :| 0 <= i < SYMBOLS && cs[i] > MAX_CLEN;
    WeightOfLongCode();
    FibMonotone(35, cs[i] + 2);
  }

  lemma FullSays(bits: lengthCounts, count: nat)
    ensures Full(bits, count) <==> Kraft(bits, 33, 256) == Pow2(256) && Start(bits, 33) == count
  {
    hide Pow2, Kraft, Start;
  }

  lemma WithPseudoSymbol(f: seq<nat>, f0: symbols)
    requires |f| == 256 && f0 == f + [1]
    ensures Sum(f0) == Sum(f) + 1 && Nonzeros(f0) == Nonzeros(f) + 1
  {
    assert f0[..256] == f;
  }

  /** All counted symbols and the pseudo-symbol have lengths. */
  lemma LengthsSay(f0: symbols, cs: symbols)
    requires OptimalLengths(f0, cs) && f0[256] == 1
    ensures forall i :: 0 <= i < SYMBOLS ==> (cs[i] > 0 <==> f0[i] > 0)
    ensures Nonzeros(cs) == Nonzeros(f0) == Nonzeros(cs[..256]) + 1
  {
    hide Sum, Share, Cheapest, Pow2;
    SameNonzeros(cs, f0);
    assert cs[256] > 0 && cs[..|cs| - 1] == cs[..256];
  }
}
