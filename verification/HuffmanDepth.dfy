/**
 How long the codes of Huffman's algorithm can get: a tree with a code of d bits weighs at
 least as much as the Fibonacci number of d + 2, because no tree is ever lighter than the
 subtrees that another tree was made of.
 */
module HuffmanDepth {
  import opened HuffmanTree
  import opened HuffmanOptimality

  function Fib(n: nat): nat
  {
    if n < 2 then n else Fib(n - 2) + Fib(n - 1)
  }

  lemma {:induction false} FibMonotone(m: nat, n: nat)
    requires m <= n
    ensures Fib(m) <= Fib(n)
    decreases n
  {
    if m < n {
      FibMonotone(m, n - 1);
    }
  }

  /** The weight from which on a code of 33 bits is possible. */
  const LONG_CODE_WEIGHT := 9_227_465

  lemma WeightOfLongCode()
    ensures Fib(35) == LONG_CODE_WEIGHT
  {
    assert Fib(8) == 21 && Fib(9) == 34;
    assert Fib(14) == 377 && Fib(15) == 610;
    assert Fib(20) == 6765 && Fib(21) == 10946;
    assert Fib(26) == 121393 && Fib(27) == 196418;
    assert Fib(32) == 2178309 && Fib(33) == 3524578;
  }

  /** Every leaf of tree r is only as deep as the weights of the tree and of the heavier
      of its two subtrees allow. */
  predicate DeepTree(f: symbols, cs: symbols, t: forest, inner: symbols, r: nat)
    requires r < SYMBOLS
  {
    InRange(t.chain[r]) && forall j :: 0 <= j < |t.chain[r]| ==>
      AsDeepAs(cs[t.chain[r][j]], f[r], inner[r])
  }

  predicate AsDeepAs(d: nat, weight: nat, inner: nat)
  {
    Fib(d + 2) <= weight && (d > 0 ==> Fib(d + 1) <= inner)
  }

  /** No tree weighs less than the heavier subtree of any tree. */
  predicate Deep(f: symbols, cs: symbols, t: forest, inner: symbols)
  {
    && (forall r, s :: 0 <= r < SYMBOLS && 0 <= s < SYMBOLS && f[r] > 0 && f[s] > 0 ==> inner[r] <= f[s])
    && forall r :: 0 <= r < SYMBOLS && f[r] > 0 ==> DeepTree(f, cs, t, inner, r)
  }

  lemma OneStepDeeper(d: nat, weight: nat, inner: nat, other: nat, heavier: nat)
    requires AsDeepAs(d, weight, inner) && inner <= other && 0 < other && weight <= heavier
    ensures AsDeepAs(d + 1, weight + other, heavier)
  {
  }

  /** Merging the two lightest trees. */
  lemma MergeDeep(f: symbols, cs: symbols, t: forest, inner: symbols, a: nat, b: nat)
    requires Deep(f, cs, t, inner) && TwoSmallest(f, a, b) && forall r :: 0 <= r < SYMBOLS ==> Placed(t, r)
    ensures Deep(MergedFreq(f, a, b), MergedSizes(cs, t, a, b), MergedForest(t, a, b), inner[a := f[b]])
  {
    hide Placed, AsDeepAs, MergedSizes;
    var g, ds, u, heavy := MergedFreq(f, a, b), MergedSizes(cs, t, a, b), MergedForest(t, a, b), inner[a := f[b]];
    MergedSizesOf(cs, t, a, b);
    forall r | 0 <= r < SYMBOLS && g[r] > 0 ensures DeepTree(g, ds, u, heavy, r) {
      if r == a {
        MergedTreeDeep(f, cs, t, inner, a, b);
      } else {
        assert DeepTree(f, cs, t, inner, r);
        UntouchedShares(cs, t, a, b, r);
      }
    }
  }

  lemma MergedTreeDeep(f: symbols, cs: symbols, t: forest, inner: symbols, a: nat, b: nat)
    requires Deep(f, cs, t, inner) && TwoSmallest(f, a, b) && Placed(t, a) && Placed(t, b)
    ensures DeepTree(MergedFreq(f, a, b), MergedSizes(cs, t, a, b), MergedForest(t, a, b), inner[a := f[b]], a)
  {
    hide Placed, AsDeepAs, MergedSizes;
    MergedSizesOf(cs, t, a, b);
    assert DeepTree(f, cs, t, inner, a) && DeepTree(f, cs, t, inner, b);
    var ch := t.chain[a] + t.chain[b];
    forall j | 0 <= j < |ch| ensures AsDeepAs(MergedSizes(cs, t, a, b)[ch[j]], f[a] + f[b], f[b]) {
      if j < |t.chain[a]| {
        OneStepDeeper(cs[ch[j]], f[a], inner[a], f[b], f[b]);
      } else {
        OneStepDeeper(cs[ch[j]], f[b], inner[b], f[a], f[b]);
      }
    }
  }
}
