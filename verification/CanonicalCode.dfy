/**
 Canonical Huffman codes (Annex C of the JPEG standard): a table says only how many
 codes there are of each length; codes of one length are consecutive numbers, and the
 first code of a length follows the last shorter one.
 */
module CanonicalCode {
  import opened Bytes
  import opened BitStrings
  import opened Nonlinear

  /** bits[l] codes of length l, for 1 <= l <= 16; element 0 is unused. */
  type counts = b: seq<nat> | |b| == 17 witness seq(17, _ => 0)

  /** How many codes are shorter than l: the table index of the first code of length l. */
  function Start(bits: seq<nat>, l: nat): nat
    requires 1 <= l <= |bits|
  {
    if l == 1 then 0 else Start(bits, l - 1) + bits[l - 1]
  }

  /** The first code of length l. */
  function First(bits: counts, l: nat): nat
    requires 1 <= l <= 17
  {
    if l == 1 then 0 else 2 * (First(bits, l - 1) + bits[l - 1])
  }

  /** At most 256 codes, and at every length a code is left over. */
  ghost predicate Legal(bits: counts)
  {
    Start(bits, 17) <= 256 && forall l :: 1 <= l <= 16 ==> First(bits, l) + bits[l] < Pow2(l)
  }

  /** c, written with l bits, is a code. */
  predicate IsCode(bits: counts, l: nat, c: nat)
  {
    1 <= l <= 16 && First(bits, l) <= c < First(bits, l) + bits[l]
  }

  /** The place of a code in the table. */
  function Index(bits: counts, l: nat, c: nat): nat
    requires IsCode(bits, l, c)
  {
    Start(bits, l) + c - First(bits, l)
  }

  lemma {:induction false} StartMonotone(bits: counts, l: nat, m: nat)
    requires 1 <= l <= m <= 17
    ensures Start(bits, l) <= Start(bits, m)
    ensures l < m ==> Start(bits, l) + bits[l] <= Start(bits, m)
  {
    if l < m {
      StartMonotone(bits, l, m - 1);
    }
  }

  /** Longer codes, cut to l bits, come after all codes of length l. */
  lemma {:induction false} LaterCodes(bits: counts, l: nat, m: nat)
    requires 1 <= l < m <= 17
    ensures First(bits, m) >= (First(bits, l) + bits[l]) * Pow2(m - l)
  {
    hide Pow2, First;
    var f := First(bits, l) + bits[l];
    NextFirst(bits, m);
    NextPow2(m - 1 - l);
    if m > l + 1 {
      LaterCodes(bits, l, m - 1);
      Reassociate(2, f, Pow2(m - 1 - l));
    }
  }

  lemma NextFirst(bits: counts, m: nat)
    requires 1 < m <= 17
    ensures First(bits, m) == 2 * (First(bits, m - 1) + bits[m - 1])
  {
  }

  lemma NextPow2(n: nat)
    ensures Pow2(n + 1) == 2 * Pow2(n) && Pow2(0) == 1
  {
  }

  lemma CodeFits(bits: counts, l: nat, c: nat)
    requires Legal(bits) && IsCode(bits, l, c)
    ensures c < Pow2(l) - 1
  {
  }

  /** No code is all ones. */
  lemma NoCodeIsAllOnes(bits: counts, l: nat, c: nat)
    requires Legal(bits) && IsCode(bits, l, c)
    ensures exists i :: 0 <= i < l && !Bits(c, l)[i]
  {
    CodeFits(bits, l, c);
    ValueOfBits(c, l);
    if forall i :: 0 <= i < l ==> Bits(c, l)[i] {
      OnesValue(Bits(c, l));
    }
  }

  lemma {:induction false} OnesValue(s: seq<bool>)
    requires forall i :: 0 <= i < |s| ==> s[i]
    ensures Value(s) == Pow2(|s|) - 1
  {
    if s != [] {
      OnesValue(s[..|s| - 1]);
    }
  }

  /** No code is the beginning of another. */
  lemma PrefixFree(bits: counts, l: nat, c: nat, m: nat, d: nat)
    requires Legal(bits) && IsCode(bits, l, c) && IsCode(bits, m, d) && l <= m
    requires Bits(d, m)[..l] == Bits(c, l)
    ensures l == m && c == d
  {
    CodeFits(bits, l, c);
    ValueOfBits(c, l);
    if l == m {
      CodeFits(bits, m, d);
      ValueOfBits(d, m);
      assert Bits(d, m)[..l] == Bits(d, m);
    } else {
      CutCode(bits, l, m, d);
    }
  }

  lemma CutCode(bits: counts, l: nat, m: nat, d: nat)
    requires Legal(bits) && IsCode(bits, m, d) && 1 <= l < m
    ensures Value(Bits(d, m)[..l]) >= First(bits, l) + bits[l]
  {
    hide Pow2, ShiftRight, Bits, Value, First, Legal;
    var k := m - l;
    var q := ShiftRight(d, k);
    BitsSplit(d, l, k);
    assert Bits(d, m)[..l] == Bits(q, l);
    CodeFits(bits, m, d);
    Pow2Add(l, k);
    ShiftBounds(d, k, Pow2(l));
    ValueOfBits(q, l);
    LaterCodes(bits, l, m);
    ShiftAtLeast(d, k, First(bits, l) + bits[l]);
  }

  lemma ShiftBounds(d: nat, k: nat, top: nat)
    requires d < top * Pow2(k)
    ensures ShiftRight(d, k) < top
  {
    if ShiftRight(d, k) >= top {
      MulMonotone(top, ShiftRight(d, k), Pow2(k));
    }
  }

  lemma ShiftAtLeast(d: nat, k: nat, f: nat)
    requires d >= f * Pow2(k)
    ensures ShiftRight(d, k) >= f
  {
    if ShiftRight(d, k) < f {
      MulMonotone(ShiftRight(d, k) + 1, f, Pow2(k));
      Distribute(ShiftRight(d, k), 1, Pow2(k));
    }
  }

  lemma IndexBound(bits: counts, l: nat, c: nat)
    requires IsCode(bits, l, c)
    ensures Index(bits, l, c) < Start(bits, l + 1) <= Start(bits, 17)
  {
    StartMonotone(bits, l + 1, 17);
  }

  /** The code length of table entry p. */
  function LengthAt(bits: counts, p: nat, l: nat): (m: nat)
    requires 1 <= l <= 16 && Start(bits, l) <= p < Start(bits, 17)
    ensures l <= m <= 16 && Start(bits, m) <= p < Start(bits, m + 1)
    decreases 17 - l
  {
    if p < Start(bits, l + 1) then l else LengthAt(bits, p, l + 1)
  }

  function Length(bits: counts, p: nat): (l: nat)
    requires p < Start(bits, 17)
    ensures 1 <= l <= 16 && Start(bits, l) <= p < Start(bits, l + 1)
  {
    LengthAt(bits, p, 1)
  }

  function CodeOf(bits: counts, p: nat): nat
    requires p < Start(bits, 17)
  {
    First(bits, Length(bits, p)) + p - Start(bits, Length(bits, p))
  }

  lemma InLength(bits: counts, l: nat, p: nat)
    requires 1 <= l <= 16 && Start(bits, l) <= p < Start(bits, l + 1)
    ensures p < Start(bits, 17) && Length(bits, p) == l && CodeOf(bits, p) == First(bits, l) + p - Start(bits, l)
  {
    hide First;
    StartMonotone(bits, l + 1, 17);
    var m := Length(bits, p);
    if l < m {
      StartMonotone(bits, l + 1, m);
    } else if m < l {
      StartMonotone(bits, m + 1, l);
    }
  }

  /** Every place holds exactly one code. */
  lemma IndexOfCode(bits: counts, p: nat)
    requires p < Start(bits, 17)
    ensures IsCode(bits, Length(bits, p), CodeOf(bits, p)) && Index(bits, Length(bits, p), CodeOf(bits, p)) == p
  {
  }

  /** Every code is found at its place. */
  lemma CodeOfIndex(bits: counts, l: nat, c: nat)
    requires IsCode(bits, l, c)
    ensures var p := Index(bits, l, c); p < Start(bits, 17) && Length(bits, p) == l && CodeOf(bits, p) == c
  {
    InLength(bits, l, Index(bits, l, c));
  }

  // ----- the Kraft sum

  /** The sum of 2^(n - l) over all codes of length l < m, for m - 1 <= n. */
  function Kraft(bits: seq<nat>, m: nat, n: nat): nat
    requires 1 <= m <= |bits| && m <= n + 1
  {
    if m == 1 then 0 else Kraft(bits, m - 1, n) + bits[m - 1] * Pow2(n - (m - 1))
  }

  lemma {:induction false} FirstIsKraft(bits: counts, m: nat, n: nat)
    requires 1 <= m <= 17 && m <= n
    ensures First(bits, m) * Pow2(n - m) == Kraft(bits, m, n)
  {
    if m > 1 {
      FirstIsKraft(bits, m - 1, n);
      var p := Pow2(n - m);
      var f, b := First(bits, m - 1), bits[m - 1];
      Reassociate(2, f + b, p);
      Distribute(f, b, p);
      Reassociate(2, f, p);
      Reassociate(2, b, p);
      assert Pow2(n - (m - 1)) == 2 * p;
    }
  }

  /** The check made at every length is Kraft's inequality, strict because one code is
      left over. */
  lemma LegalIffKraft(bits: counts)
    ensures Legal(bits) <==> Start(bits, 17) <= 256 && Kraft(bits, 17, 16) < Pow2(16)
  {
    LastIsKraft(bits);
    if First(bits, 16) + bits[16] < Pow2(16) {
      forall l | 1 <= l <= 16 ensures First(bits, l) + bits[l] < Pow2(l) {
        ShorterFits(bits, l);
      }
    }
  }

  lemma LastIsKraft(bits: counts)
    ensures Kraft(bits, 17, 16) == First(bits, 16) + bits[16]
  {
    FirstIsKraft(bits, 16, 16);
    assert Pow2(0) == 1;
  }

  lemma ShorterFits(bits: counts, l: nat)
    requires 1 <= l <= 16 && First(bits, 16) + bits[16] < Pow2(16)
    ensures First(bits, l) + bits[l] < Pow2(l)
  {
    hide Pow2, First;
    if l < 16 {
      LaterCodes(bits, l, 16);
      Pow2Add(l, 16 - l);
      var f := First(bits, l) + bits[l];
      if f >= Pow2(l) {
        MulMonotone(Pow2(l), f, Pow2(16 - l));
      }
    }
  }
}
