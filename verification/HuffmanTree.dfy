/**
 Huffman's algorithm as the encoder runs it (section K.2 of the JPEG standard): a
 tree is a list of its leaves, linked through `others`, and merging two trees makes
 every code in them one bit longer.
 */
module HuffmanTree {
  import opened Bytes

  const SYMBOLS := 257  // the 256 real symbols and a pseudo-symbol
  const LARGEST := 1_000_000_000

  // ----- sums

  function Sum(s: seq<nat>): nat
  {
    if s == [] then 0 else Sum(s[..|s| - 1]) + s[|s| - 1]
  }

  lemma {:induction false} SumUpdate(s: seq<nat>, i: nat, v: nat)
    requires i < |s|
    ensures Sum(s[i := v]) + s[i] == Sum(s) + v
  {
    var n := |s| - 1;
    if i < n {
      SumUpdate(s[..n], i, v);
      assert s[i := v][..n] == s[..n][i := v];
    } else {
      assert s[i := v][..n] == s[..n];
    }
  }

  lemma {:induction false} SumTwo(s: seq<nat>, i: nat, j: nat)
    requires i < j < |s|
    ensures s[i] + s[j] <= Sum(s)
  {
    var n := |s| - 1;
    if j < n {
      SumTwo(s[..n], i, j);
    } else {
      SumOne(s[..n], i);
    }
  }

  lemma {:induction false} SumOne(s: seq<nat>, i: nat)
    requires i < |s|
    ensures s[i] <= Sum(s)
  {
    if i < |s| - 1 {
      SumOne(s[..|s| - 1], i);
    }
  }

  /** How many entries are not zero. */
  function Nonzeros(s: seq<nat>): (n: nat)
    ensures n <= |s|
  {
    if s == [] then 0 else Nonzeros(s[..|s| - 1]) + if s[|s| - 1] > 0 then 1 else 0
  }

  function Flag(v: nat): nat
  {
    if v > 0 then 1 else 0
  }

  lemma {:induction false} NonzerosUpdate(s: seq<nat>, i: nat, v: nat)
    requires i < |s|
    ensures Nonzeros(s[i := v]) + Flag(s[i]) == Nonzeros(s) + Flag(v)
  {
    var n := |s| - 1;
    if i < n {
      NonzerosUpdate(s[..n], i, v);
      assert s[i := v][..n] == s[..n][i := v];
    } else {
      assert s[i := v][..n] == s[..n];
    }
  }

  lemma {:induction false} SomeNonzero(s: seq<nat>) returns (i: nat)
    requires Nonzeros(s) > 0
    ensures i < |s| && s[i] > 0
  {
    if s[|s| - 1] > 0 {
      i := |s| - 1;
    } else {
      i := SomeNonzero(s[..|s| - 1]);
    }
  }

  lemma {:induction false} TwoNonzeros(s: seq<nat>) returns (i: nat, j: nat)
    requires Nonzeros(s) > 1
    ensures i < j < |s| && s[i] > 0 && s[j] > 0
  {
    if s[|s| - 1] > 0 {
      j := |s| - 1;
      i := SomeNonzero(s[..j]);
    } else {
      i, j := TwoNonzeros(s[..|s| - 1]);
    }
  }

  // ----- leaves

  /** 2^256 shared out: the share of a leaf with a code of c bits. */
  function Share(c: nat): nat
  {
    if c <= 256 then Pow2(256 - c) else 0
  }

  lemma ShareHalves(c: nat)
    requires c < 256
    ensures Share(c) == 2 * Share(c + 1)
  {
  }

  type symbols = s: seq<nat> | |s| == SYMBOLS witness seq(SYMBOLS, _ => 0)

  predicate InRange(ch: seq<nat>)
  {
    forall j :: 0 <= j < |ch| ==> ch[j] < SYMBOLS
  }

  /** The shares of the leaves in a list. */
  function Shares(cs: symbols, ch: seq<nat>): nat
    requires InRange(ch)
  {
    if ch == [] then 0 else Shares(cs, ch[..|ch| - 1]) + Share(cs[ch[|ch| - 1]])
  }

  function Weight(f0: symbols, ch: seq<nat>): nat
    requires InRange(ch)
  {
    if ch == [] then 0 else Weight(f0, ch[..|ch| - 1]) + f0[ch[|ch| - 1]]
  }

  lemma {:induction false} SharesConcat(cs: symbols, a: seq<nat>, b: seq<nat>)
    requires InRange(a) && InRange(b)
    ensures InRange(a + b) && Shares(cs, a + b) == Shares(cs, a) + Shares(cs, b)
  {
    if b == [] {
      assert a + b == a;
    } else {
      var n := |b| - 1;
      SharesConcat(cs, a, b[..n]);
      assert (a + b)[..|a + b| - 1] == a + b[..n];
    }
  }

  lemma {:induction false} WeightConcat(f0: symbols, a: seq<nat>, b: seq<nat>)
    requires InRange(a) && InRange(b)
    ensures InRange(a + b) && Weight(f0, a + b) == Weight(f0, a) + Weight(f0, b)
  {
    if b == [] {
      assert a + b == a;
    } else {
      var n := |b| - 1;
      WeightConcat(f0, a, b[..n]);
      assert (a + b)[..|a + b| - 1] == a + b[..n];
    }
  }

  /** Code lengths after every leaf in the list has got one bit more. */
  function Longer(cs: symbols, ch: seq<nat>): symbols
    requires InRange(ch)
  {
    seq(SYMBOLS, i requires 0 <= i < SYMBOLS => if i in ch then cs[i] + 1 else cs[i])
  }

  predicate Distinct(ch: seq<nat>)
  {
    forall i, j :: 0 <= i < j < |ch| ==> ch[i] != ch[j]
  }

  /** The shares of all leaves, and the total length of the coded data. */
  function AllShares(f0: symbols, cs: symbols): symbols
  {
    seq(SYMBOLS, i requires 0 <= i < SYMBOLS => if f0[i] > 0 then Share(cs[i]) else 0)
  }

  function AllCosts(f0: symbols, cs: symbols): symbols
  {
    seq(SYMBOLS, i requires 0 <= i < SYMBOLS => f0[i] * cs[i])
  }

  lemma LongerStep(cs: symbols, ch: seq<nat>)
    requires ch != [] && InRange(ch) && Distinct(ch)
    ensures var n := |ch| - 1; var before := Longer(cs, ch[..n]); var x := ch[n];
      before[x] == cs[x] && Longer(cs, ch) == before[x := cs[x] + 1]
  {
    var n := |ch| - 1;
    assert ch == ch[..n] + [ch[n]];
  }

  /** One more bit for one leaf. */
  lemma LongerLeaf(f0: symbols, cs: symbols, x: nat)
    requires x < SYMBOLS && cs[x] < 256 && f0[x] > 0
    ensures var ds := cs[x := cs[x] + 1];
      && Sum(AllShares(f0, ds)) + Share(ds[x]) == Sum(AllShares(f0, cs))
      && Sum(AllCosts(f0, ds)) == Sum(AllCosts(f0, cs)) + f0[x]
  {
    hide Share, Sum;
    var ds := cs[x := cs[x] + 1];
    var shares, costs := AllShares(f0, cs), AllCosts(f0, cs);
    ShareHalves(cs[x]);
    assert AllShares(f0, ds) == shares[x := Share(ds[x])];
    SumUpdate(shares, x, Share(ds[x]));
    var cost := f0[x] * ds[x];
    assert cost == f0[x] * cs[x] + f0[x];
    assert AllCosts(f0, ds) == costs[x := cost];
    SumUpdate(costs, x, cost);
  }

  /** What one more bit for the leaves of a list does to the totals. */
  lemma {:induction false} LongerTotals(f0: symbols, cs: symbols, ch: seq<nat>)
    requires InRange(ch) && Distinct(ch)
    requires forall j :: 0 <= j < |ch| ==> cs[ch[j]] < 256 && f0[ch[j]] > 0
    ensures Sum(AllShares(f0, Longer(cs, ch))) + Shares(Longer(cs, ch), ch) == Sum(AllShares(f0, cs))
    ensures 2 * Shares(Longer(cs, ch), ch) == Shares(cs, ch)
    ensures Sum(AllCosts(f0, Longer(cs, ch))) == Sum(AllCosts(f0, cs)) + Weight(f0, ch)
  {
    hide Share, Sum, AllShares, AllCosts, Longer, SYMBOLS;
    if ch == [] {
      LongerNothing(cs);
    } else {
      var n := |ch| - 1;
      LongerTotals(f0, cs, ch[..n]);
      LongerStep(cs, ch);
      LongerLeaf(f0, Longer(cs, ch[..n]), ch[n]);
      ShareHalves(cs[ch[n]]);
      SameShares(Longer(cs, ch[..n]), Longer(cs, ch), ch[..n]);
    }
  }

  lemma LongerNothing(cs: symbols)
    ensures Longer(cs, []) == cs
  {
  }

  lemma {:induction false} SameShares(cs: symbols, ds: symbols, ch: seq<nat>)
    requires InRange(ch) && forall j :: 0 <= j < |ch| ==> cs[ch[j]] == ds[ch[j]]
    ensures Shares(cs, ch) == Shares(ds, ch)
  {
    if ch != [] {
      SameShares(cs, ds, ch[..|ch| - 1]);
    }
  }

  // ----- the forest

  /** The leaves of the tree with root r, in link order, and the place of every leaf. */
  datatype Forest = Forest(chain: seq<seq<nat>>, place: seq<(nat, nat)>)
  type forest = t: Forest | |t.chain| == SYMBOLS && |t.place| == SYMBOLS
    witness Forest(seq(SYMBOLS, _ => []), seq(SYMBOLS, _ => (0, 0)))

  predicate Linked(others: seq<int>, ch: seq<nat>)
  {
    && InRange(ch) && |others| == SYMBOLS
    && forall j :: 0 <= j < |ch| ==> others[ch[j]] == if j + 1 < |ch| then ch[j + 1] else -1
  }

  predicate Placed(t: forest, r: nat)
    requires r < SYMBOLS
  {
    InRange(t.chain[r]) && forall j :: 0 <= j < |t.chain[r]| ==> t.place[t.chain[r][j]] == (r, j)
  }

  /** A frequency that is not zero is that of a root, and its tree is linked from there. */
  predicate Tree(f: symbols, others: seq<int>, t: forest, r: nat)
    requires r < SYMBOLS
  {
    && (t.chain[r] != [] <==> f[r] > 0) && (t.chain[r] != [] ==> t.chain[r][0] == r)
    && Linked(others, t.chain[r]) && Placed(t, r)
  }

  predicate Trees(f: symbols, others: seq<int>, t: forest)
  {
    forall r :: 0 <= r < SYMBOLS ==> Tree(f, others, t, r)
  }

  /** Exactly the symbols that occur are leaves. */
  predicate Covers(f0: symbols, t: forest)
  {
    && (forall i :: 0 <= i < SYMBOLS && f0[i] > 0 ==>
      t.place[i].0 < SYMBOLS && t.place[i].1 < |t.chain[t.place[i].0]| && t.chain[t.place[i].0][t.place[i].1] == i)
    && forall r :: 0 <= r < SYMBOLS ==> AllOccur(f0, t.chain[r])
  }

  predicate AllOccur(f0: symbols, ch: seq<nat>)
  {
    forall j :: 0 <= j < |ch| ==> ch[j] < SYMBOLS && f0[ch[j]] > 0
  }

  /** The codes of a tree fill their space exactly, and its frequency is the sum of
      those of its leaves. */
  predicate BalancedTree(f0: symbols, f: symbols, cs: symbols, t: forest, r: nat)
    requires r < SYMBOLS
  {
    var ch := t.chain[r];
    ch != [] ==>
      && InRange(ch) && Shares(cs, ch) == Pow2(256) && Weight(f0, ch) == f[r]
      && (|ch| > 1 ==> forall j :: 0 <= j < |ch| ==> cs[ch[j]] > 0)
  }

  predicate Balanced(f0: symbols, f: symbols, cs: symbols, t: forest)
  {
    forall r :: 0 <= r < SYMBOLS ==> BalancedTree(f0, f, cs, t, r)
  }

  lemma PlacedDistinct(t: forest, r: nat)
    requires r < SYMBOLS && Placed(t, r)
    ensures Distinct(t.chain[r])
  {
  }

  lemma PlacedApart(t: forest, r: nat, q: nat)
    requires r < SYMBOLS && q < SYMBOLS && r != q && Placed(t, r) && Placed(t, q)
    ensures forall i, j :: 0 <= i < |t.chain[r]| && 0 <= j < |t.chain[q]| ==> t.chain[r][i] != t.chain[q][j]
  {
    forall i, j | 0 <= i < |t.chain[r]| && 0 <= j < |t.chain[q]| ensures t.chain[r][i] != t.chain[q][j] {
      assert t.place[t.chain[r][i]] == (r, i) && t.place[t.chain[q][j]] == (q, j);
    }
  }

  // ----- merging two trees

  function MergedFreq(f: symbols, a: nat, b: nat): symbols
    requires a < SYMBOLS && b < SYMBOLS
  {
    f[a := f[a] + f[b]][b := 0]
  }

  function MergedForest(t: forest, a: nat, b: nat): forest
    requires a < SYMBOLS && b < SYMBOLS
  {
    Forest(t.chain[a := t.chain[a] + t.chain[b]][b := []],
      seq(SYMBOLS, i requires 0 <= i < SYMBOLS =>
        if t.place[i].0 == b then (a, t.place[i].1 + |t.chain[a]|) else t.place[i]))
  }

  lemma MergeTrees(f: symbols, others: seq<int>, t: forest, a: nat, b: nat)
    requires a < SYMBOLS && b < SYMBOLS && a != b && Trees(f, others, t) && f[a] > 0 && f[b] > 0
    ensures Tree(f, others, t, a) && |t.chain[a]| > 0
    ensures var last := t.chain[a][|t.chain[a]| - 1];
      last < |others| && Trees(MergedFreq(f, a, b), others[last := b], MergedForest(t, a, b))
  {
    assert Tree(f, others, t, a) && Tree(f, others, t, b);
    var g, u := MergedFreq(f, a, b), MergedForest(t, a, b);
    var last := t.chain[a][|t.chain[a]| - 1];
    var linked := others[last := b];
    forall r | 0 <= r < SYMBOLS ensures Tree(g, linked, u, r) {
      assert Tree(f, others, t, r);
      MergeTree(f, others, t, a, b, r);
    }
  }

  lemma MergeTree(f: symbols, others: seq<int>, t: forest, a: nat, b: nat, r: nat)
    requires a < SYMBOLS && b < SYMBOLS && a != b && f[a] > 0 && f[b] > 0 && r < SYMBOLS
    requires Tree(f, others, t, a) && Tree(f, others, t, b) && Tree(f, others, t, r)
    ensures var last := t.chain[a][|t.chain[a]| - 1];
      last < |others| && Tree(MergedFreq(f, a, b), others[last := b], MergedForest(t, a, b), r)
  {
    var ch, last := t.chain[r], t.chain[a][|t.chain[a]| - 1];
    MergePlaced(t, a, b, r);
    if r == a {
      PlacedDistinct(t, a);
      PlacedApart(t, a, b);
      hide Placed;
      LinkLists(others, t.chain[a], t.chain[b]);
    } else if r != b {
      PlacedApart(t, r, a);
      hide Placed;
      assert forall j :: 0 <= j < |ch| ==> ch[j] != last;
    }
  }

  lemma LinkLists(others: seq<int>, x: seq<nat>, y: seq<nat>)
    requires Linked(others, x) && Linked(others, y) && x != [] && y != [] && Distinct(x)
    requires forall i, j :: 0 <= i < |x| && 0 <= j < |y| ==> x[i] != y[j]
    ensures x[|x| - 1] < |others| && Linked(others[x[|x| - 1] := y[0]], x + y)
  {
    var n, z := |x| - 1, x + y;
    var linked := others[x[n] := y[0]];
    forall j | 0 <= j < |z| ensures linked[z[j]] == if j + 1 < |z| then z[j + 1] else -1 {
      if j < n {
        assert x[j] != x[n] && others[x[j]] == x[j + 1];
      } else if j > n {
        var k := j - n - 1;
        assert z[j] == y[k] && x[n] != y[k] && others[y[k]] == if k + 1 < |y| then y[k + 1] else -1;
      } else {
        assert z[j + 1] == y[0];
      }
    }
    assert InRange(z) && |linked| == SYMBOLS;
    assert Linked(linked, z);
  }

  lemma MergePlaced(t: forest, a: nat, b: nat, r: nat)
    requires a < SYMBOLS && b < SYMBOLS && a != b && r < SYMBOLS && Placed(t, a) && Placed(t, b) && Placed(t, r)
    ensures Placed(MergedForest(t, a, b), r)
  {
    var u := MergedForest(t, a, b);
    var ch := u.chain[r];
    forall j | 0 <= j < |ch| ensures u.place[ch[j]] == (r, j) {
      if r == a && j >= |t.chain[a]| {
        assert t.place[t.chain[b][j - |t.chain[a]|]] == (b, j - |t.chain[a]|);
      } else if r != b {
        assert t.place[t.chain[r][j]] == (r, j);
      }
    }
  }

  lemma MergeCovers(f0: symbols, t: forest, a: nat, b: nat)
    requires a < SYMBOLS && b < SYMBOLS && a != b && Covers(f0, t)
    ensures Covers(f0, MergedForest(t, a, b))
  {
    var u := MergedForest(t, a, b);
    assert AllOccur(f0, t.chain[a]) && AllOccur(f0, t.chain[b]);
    forall r | 0 <= r < SYMBOLS ensures AllOccur(f0, u.chain[r]) {
      assert AllOccur(f0, t.chain[r]);
    }
    hide AllOccur;
    forall i | 0 <= i < SYMBOLS && f0[i] > 0
      ensures u.place[i].0 < SYMBOLS && u.place[i].1 < |u.chain[u.place[i].0]|
        && u.chain[u.place[i].0][u.place[i].1] == i
    {
      var r, j := t.place[i].0, t.place[i].1;
      assert t.chain[r][j] == i;
    }
  }

  /** The code lengths after trees a and b have become one. */
  function MergedSizes(cs: symbols, t: forest, a: nat, b: nat): symbols
    requires a < SYMBOLS && b < SYMBOLS && InRange(t.chain[a]) && InRange(t.chain[b])
  {
    Longer(Longer(cs, t.chain[a]), t.chain[b])
  }

  lemma UntouchedShares(cs: symbols, t: forest, a: nat, b: nat, r: nat)
    requires a < SYMBOLS && b < SYMBOLS && r < SYMBOLS && r != a && r != b
    requires Placed(t, a) && Placed(t, b) && Placed(t, r)
    ensures Shares(MergedSizes(cs, t, a, b), t.chain[r]) == Shares(cs, t.chain[r])
    ensures forall j :: 0 <= j < |t.chain[r]| ==> MergedSizes(cs, t, a, b)[t.chain[r][j]] == cs[t.chain[r][j]]
  {
    hide Shares;
    PlacedApart(t, r, a);
    PlacedApart(t, r, b);
    SameShares(MergedSizes(cs, t, a, b), cs, t.chain[r]);
  }

  /** Merging lengthens every code of the two trees by one bit. */
  lemma MergedSizesOf(cs: symbols, t: forest, a: nat, b: nat)
    requires a < SYMBOLS && b < SYMBOLS && a != b && Placed(t, a) && Placed(t, b)
    ensures forall i :: 0 <= i < SYMBOLS ==>
      MergedSizes(cs, t, a, b)[i] == if i in t.chain[a] || i in t.chain[b] then cs[i] + 1 else cs[i]
  {
    PlacedApart(t, a, b);
  }

  lemma MergedShares(f0: symbols, cs: symbols, t: forest, a: nat, b: nat)
    requires a < SYMBOLS && b < SYMBOLS && a != b && Placed(t, a) && Placed(t, b)
    requires AllOccur(f0, t.chain[a]) && AllOccur(f0, t.chain[b]) && forall i :: 0 <= i < SYMBOLS ==> cs[i] < 256
    ensures var ds := MergedSizes(cs, t, a, b);
      && 2 * Shares(ds, t.chain[a]) == Shares(cs, t.chain[a]) && 2 * Shares(ds, t.chain[b]) == Shares(cs, t.chain[b])
      && Sum(AllShares(f0, ds)) + Shares(ds, t.chain[a]) + Shares(ds, t.chain[b]) == Sum(AllShares(f0, cs))
      && Sum(AllCosts(f0, ds)) == Sum(AllCosts(f0, cs)) + Weight(f0, t.chain[a]) + Weight(f0, t.chain[b])
  {
    hide Shares, Sum, AllShares, AllCosts, Weight, Longer;
    var ca, cb := t.chain[a], t.chain[b];
    var once := Longer(cs, ca);
    PlacedDistinct(t, a);
    PlacedDistinct(t, b);
    OnceOnly(cs, t, a, b);
    LongerTotals(f0, cs, ca);
    LongerTotals(f0, once, cb);
    SameShares(Longer(once, cb), once, ca);
    SameShares(once, cs, cb);
  }

  lemma OnceOnly(cs: symbols, t: forest, a: nat, b: nat)
    requires a < SYMBOLS && b < SYMBOLS && a != b && Placed(t, a) && Placed(t, b)
    ensures var once := Longer(cs, t.chain[a]); var twice := Longer(once, t.chain[b]);
      && (forall j :: 0 <= j < |t.chain[b]| ==> once[t.chain[b][j]] == cs[t.chain[b][j]])
      && (forall j :: 0 <= j < |t.chain[a]| ==> twice[t.chain[a][j]] == once[t.chain[a][j]])
  {
    PlacedApart(t, a, b);
  }

  lemma MergeBalanced(f0: symbols, f: symbols, cs: symbols, t: forest, a: nat, b: nat)
    requires a < SYMBOLS && b < SYMBOLS && a != b && f[a] > 0 && f[b] > 0 && t.chain[a] != [] && t.chain[b] != []
    requires (forall r :: 0 <= r < SYMBOLS ==> Placed(t, r)) && Covers(f0, t) && Balanced(f0, f, cs, t)
    requires forall i :: 0 <= i < SYMBOLS ==> cs[i] < 256
    ensures Balanced(f0, MergedFreq(f, a, b), MergedSizes(cs, t, a, b), MergedForest(t, a, b))
    ensures var ds := MergedSizes(cs, t, a, b);
      && Sum(AllShares(f0, ds)) + Pow2(256) == Sum(AllShares(f0, cs))
      && Sum(AllCosts(f0, ds)) == Sum(AllCosts(f0, cs)) + f[a] + f[b]
  {
    hide Shares, Sum, AllShares, AllCosts, Weight, Longer, Placed, MergedSizes, Pow2;
    var g, ds, u := MergedFreq(f, a, b), MergedSizes(cs, t, a, b), MergedForest(t, a, b);
    assert BalancedTree(f0, f, cs, t, a) && BalancedTree(f0, f, cs, t, b);
    MergedShares(f0, cs, t, a, b);
    forall r | 0 <= r < SYMBOLS ensures BalancedTree(f0, g, ds, u, r) {
      assert BalancedTree(f0, f, cs, t, r);
      if r == a {
        SharesConcat(ds, t.chain[a], t.chain[b]);
        WeightConcat(f0, t.chain[a], t.chain[b]);
        MergedSizesOf(cs, t, a, b);
      } else if r != b {
        UntouchedShares(cs, t, a, b, r);
      }
    }
  }
}
