/**
 Huffman's argument: any assignment of code lengths to a set of frequencies costs at
 least as much as merging the two smallest frequencies and assigning lengths to what
 is left.
 */
module HuffmanOptimality {
  import opened Bytes
  import opened HuffmanTree
  import opened Nonlinear

  /** The space taken by codes of the given lengths, in units of 2^-n. */
  function Space(f: symbols, l: symbols, n: nat): symbols
  {
    seq(SYMBOLS, i requires 0 <= i < SYMBOLS => if f[i] > 0 && l[i] <= n then Pow2(n - l[i]) else 0)
  }

  /** Kraft's inequality: a prefix code with these lengths exists. */
  ghost predicate Feasible(f: symbols, l: symbols, n: nat)
  {
    (forall i :: 0 <= i < SYMBOLS && f[i] > 0 ==> l[i] <= n) && Sum(Space(f, l, n)) <= Pow2(n)
  }

  /** The length of the data when symbol i, of frequency f[i], takes l[i] bits. */
  function Cost(f: symbols, l: symbols): nat
  {
    Sum(AllCosts(f, l))
  }

  /** Whatever lengths are chosen for f0, merging has not lost anything: some lengths
      for the frequencies f that are left cost at least `spent` less. */
  ghost predicate LowerBound(f0: symbols, f: symbols, spent: nat)
  {
    forall l: symbols, n: nat :: Feasible(f0, l, n) ==>
      exists m: symbols :: Feasible(f, m, n) && Cost(f0, l) >= spent + Cost(f, m)
  }

  function Swapped(l: symbols, i: nat, j: nat): symbols
    requires i < SYMBOLS && j < SYMBOLS
  {
    l[i := l[j]][j := l[i]]
  }

  /** The symbol with the smaller frequency may as well have the longer code. */
  lemma SwapIsCheaper(f: symbols, l: symbols, n: nat, i: nat, j: nat)
    requires i < SYMBOLS && j < SYMBOLS && 0 < f[i] <= f[j] && l[i] <= l[j] && Feasible(f, l, n)
    ensures Feasible(f, Swapped(l, i, j), n) && Cost(f, Swapped(l, i, j)) <= Cost(f, l)
  {
    hide Sum, Pow2;
    var m := Swapped(l, i, j);
    if i == j {
      assert m == l;
    } else {
      var space, costs := Space(f, l, n), AllCosts(f, l);
      assert Space(f, m, n) == space[i := space[j]][j := space[i]];
      SumUpdate(space, i, space[j]);
      SumUpdate(space[i := space[j]], j, space[i]);
      var x, y := f[i] * l[j], f[j] * l[i];
      assert AllCosts(f, m) == costs[i := x][j := y];
      SumUpdate(costs, i, x);
      SumUpdate(costs[i := x], j, y);
      SwapProducts(f[i], f[j], l[i], l[j]);
    }
  }

  lemma SwapProducts(a: nat, b: nat, x: nat, y: nat)
    requires a <= b && x <= y
    ensures a * y + b * x <= a * x + b * y
  {
    MulMonotone(0, b - a, y - x);
    assert (b - a) * (y - x) == b * y - b * x - a * y + a * x;
  }

  /** A longest code among the symbols that occur, other than `skip`. */
  lemma {:induction false} Longest(f: symbols, l: symbols, skip: int, k: nat) returns (p: int)
    requires k <= SYMBOLS
    ensures p < k && (p < 0 ==> forall i :: 0 <= i < k && f[i] > 0 ==> i == skip)
    ensures p >= 0 ==> f[p] > 0 && p != skip && forall i :: 0 <= i < k && f[i] > 0 && i != skip ==> l[i] <= l[p]
  {
    if k == 0 {
      p := -1;
    } else {
      p := Longest(f, l, skip, k - 1);
      if f[k - 1] > 0 && k - 1 != skip && (p < 0 || l[p] < l[k - 1]) {
        p := k - 1;
      }
    }
  }

  predicate MultipleOf(v: nat, d: nat)
  {
    d > 0 && v % d == 0
  }

  lemma {:induction false} SumMultiple(s: seq<nat>, d: nat)
    requires d > 0 && forall i :: 0 <= i < |s| ==> MultipleOf(s[i], d)
    ensures MultipleOf(Sum(s), d)
  {
    if s != [] {
      var n := |s| - 1;
      SumMultiple(s[..n], d);
      assert MultipleOf(s[n], d);
      AddMultiples(Sum(s[..n]), s[n], d);
    }
  }

  lemma AddMultiples(x: nat, y: nat, d: nat)
    requires MultipleOf(x, d) && MultipleOf(y, d)
    ensures MultipleOf(x + y, d)
  {
    Distribute(x / d, y / d, d);
    DivisionUnique(x + y, d, x / d + y / d, 0);
  }

  lemma PowMultiple(m: nat, n: nat)
    requires m <= n
    ensures MultipleOf(Pow2(n), Pow2(m))
  {
    Pow2Add(m, n - m);
    DivisionUnique(Pow2(n), Pow2(m), Pow2(n - m), 0);
  }

  /** Multiples of d that leave room for something leave room for d. */
  lemma RoomForWhole(x: nat, y: nat, d: nat)
    requires MultipleOf(x, d) && MultipleOf(y, d) && x < y
    ensures x + d <= y
  {
    var p, q := x / d, y / d;
    if p >= q {
      MulMonotone(q, p, d);
    } else {
      MulMonotone(p + 1, q, d);
      Distribute(p, 1, d);
    }
  }

  /** If all other codes are at most as long as that of b, so may be that of a. */
  lemma ShortenLongest(f: symbols, l: symbols, n: nat, a: nat, b: nat)
    requires a < SYMBOLS && b < SYMBOLS && a != b && f[a] > 0 && f[b] > 0 && Feasible(f, l, n)
    requires l[b] <= l[a] && forall i :: 0 <= i < SYMBOLS && f[i] > 0 && i != a ==> l[i] <= l[b]
    ensures Feasible(f, l[a := l[b]], n) && Cost(f, l[a := l[b]]) <= Cost(f, l)
  {
    hide Sum, Pow2, MultipleOf;
    var m := l[a := l[b]];
    var space, costs := Space(f, l, n), AllCosts(f, l);
    var d := Pow2(n - l[b]);
    var others := space[a := 0];
    SumUpdate(space, a, 0);
    forall i | 0 <= i < SYMBOLS ensures MultipleOf(others[i], d) {
      if f[i] > 0 && i != a {
        PowMultiple(n - l[b], n - l[i]);
      } else {
        ZeroMultiple(d);
      }
    }
    SumMultiple(others, d);
    PowMultiple(n - l[b], n);
    assert space[a] > 0;
    RoomForWhole(Sum(others), Pow2(n), d);
    ShortenedSpace(f, l, n, a, l[b]);
    assert Space(f, m, n) == others[a := d];
    SumUpdate(others, a, d);
    ShortenedCosts(f, l, a, l[b]);
    SumUpdate(costs, a, f[a] * l[b]);
    MulMonotone(l[b], l[a], f[a]);
  }

  lemma ShortenedSpace(f: symbols, l: symbols, n: nat, a: nat, v: nat)
    requires a < SYMBOLS && f[a] > 0 && v <= n
    ensures Space(f, l[a := v], n) == Space(f, l, n)[a := Pow2(n - v)]
  {
    hide Pow2;
  }

  lemma ShortenedCosts(f: symbols, l: symbols, a: nat, v: nat)
    requires a < SYMBOLS
    ensures AllCosts(f, l[a := v]) == AllCosts(f, l)[a := f[a] * v]
  {
  }

  lemma ZeroMultiple(d: nat)
    requires d > 0
    ensures MultipleOf(0, d)
  {
  }

  /** Two codes of the same length become one, a bit shorter, of a merged symbol. */
  lemma MergeTwins(f: symbols, l: symbols, n: nat, a: nat, b: nat) returns (m: symbols)
    requires a < SYMBOLS && b < SYMBOLS && a != b && f[a] > 0 && f[b] > 0 && Feasible(f, l, n) && l[a] == l[b]
    ensures Feasible(MergedFreq(f, a, b), m, n)
    ensures Cost(f, l) == f[a] + f[b] + Cost(MergedFreq(f, a, b), m)
  {
    hide Sum, Pow2;
    var g := MergedFreq(f, a, b);
    var space, costs := Space(f, l, n), AllCosts(f, l);
    var p := space[a];
    NotEmptyCode(f, l, n, a, b);
    m := l[a := l[a] - 1];
    assert Pow2(n - m[a]) == 2 * p by { DoubleSpace(n - l[a]); }
    TwinSpace(f, l, n, a, b, m);
    SumUpdate(space, a, 2 * p);
    SumUpdate(space[a := 2 * p], b, 0);
    var c := g[a] * m[a];
    TwinCosts(f, l, a, b, m);
    SumUpdate(costs, a, c);
    SumUpdate(costs[a := c], b, 0);
    Distribute(f[a], f[b], m[a]);
    Distribute(m[a], 1, f[a]);
    Distribute(m[a], 1, f[b]);
  }

  lemma TwinSpace(f: symbols, l: symbols, n: nat, a: nat, b: nat, m: symbols)
    requires a < SYMBOLS && b < SYMBOLS && a != b && f[a] > 0 && f[b] > 0 && 0 < l[a] == l[b] <= n
    requires m == l[a := l[a] - 1]
    ensures Space(MergedFreq(f, a, b), m, n) == Space(f, l, n)[a := Pow2(n - m[a])][b := 0]
  {
    hide Pow2;
  }

  lemma TwinCosts(f: symbols, l: symbols, a: nat, b: nat, m: symbols)
    requires a < SYMBOLS && b < SYMBOLS && a != b && f[a] > 0 && f[b] > 0 && 0 < l[a] && m == l[a := l[a] - 1]
    ensures var g := MergedFreq(f, a, b); AllCosts(g, m) == AllCosts(f, l)[a := g[a] * m[a]][b := 0]
  {
  }

  lemma DoubleSpace(k: nat)
    ensures Pow2(k + 1) == 2 * Pow2(k)
  {
  }

  lemma NotEmptyCode(f: symbols, l: symbols, n: nat, a: nat, b: nat)
    requires a < SYMBOLS && b < SYMBOLS && a != b && f[a] > 0 && f[b] > 0 && Feasible(f, l, n) && l[a] == l[b]
    ensures l[a] > 0
  {
    hide Sum, Pow2;
    var space := Space(f, l, n);
    SumTwo(space, if a < b then a else b, if a < b then b else a);
  }

  /** a is least, and b is least among the others. */
  ghost predicate TwoSmallest(f: symbols, a: nat, b: nat)
  {
    && a < SYMBOLS && b < SYMBOLS && a != b && 0 < f[a] <= f[b]
    && forall i :: 0 <= i < SYMBOLS && f[i] > 0 && i != a ==> f[b] <= f[i]
  }

  /** Huffman's step. */
  lemma MergeSmallest(f: symbols, l: symbols, n: nat, a: nat, b: nat) returns (m: symbols)
    requires TwoSmallest(f, a, b) && Feasible(f, l, n)
    ensures Feasible(MergedFreq(f, a, b), m, n)
    ensures Cost(f, l) >= f[a] + f[b] + Cost(MergedFreq(f, a, b), m)
  {
    hide Feasible, Cost;
    var p := Longest(f, l, -1, SYMBOLS);
    SwapIsCheaper(f, l, n, a, p);
    var k := Swapped(l, a, p);
    assert forall i :: 0 <= i < SYMBOLS && f[i] > 0 ==> k[i] <= k[a];
    var q := Longest(f, k, a, SYMBOLS);
    SwapIsCheaper(f, k, n, b, q);
    var j := Swapped(k, b, q);
    ShortenLongest(f, j, n, a, b);
    m := MergeTwins(f, j[a := j[b]], n, a, b);
  }

  lemma BoundAtStart(f0: symbols)
    ensures LowerBound(f0, f0, 0)
  {
  }

  lemma BoundAfterMerge(f0: symbols, f: symbols, spent: nat, a: nat, b: nat)
    requires LowerBound(f0, f, spent) && TwoSmallest(f, a, b)
    ensures LowerBound(f0, MergedFreq(f, a, b), spent + f[a] + f[b])
  {
    hide Feasible, Cost;
    var g := MergedFreq(f, a, b);
    forall l: symbols, n: nat | Feasible(f0, l, n)
      ensures exists m: symbols :: Feasible(g, m, n) && Cost(f0, l) >= spent + f[a] + f[b] + Cost(g, m)
    {
      var k: symbols :| Feasible(f, k, n) && Cost(f0, l) >= spent + Cost(f, k);
      var m := MergeSmallest(f, k, n, a, b);
    }
  }

  /** No lengths for f0 make the data shorter than `cost`. */
  ghost predicate Cheapest(f0: symbols, cost: nat)
  {
    forall l: symbols, n: nat :: Feasible(f0, l, n) ==> cost <= Cost(f0, l)
  }

  lemma BoundIsReached(f0: symbols, f: symbols, spent: nat)
    requires LowerBound(f0, f, spent)
    ensures Cheapest(f0, spent)
  {
    hide Feasible, Cost;
    forall l: symbols, n: nat | Feasible(f0, l, n) ensures spent <= Cost(f0, l) {
      var m: symbols :| Feasible(f, m, n) && Cost(f0, l) >= spent + Cost(f, m);
    }
  }
}
