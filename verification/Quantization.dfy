/**
 Division by multiplication with a reciprocal (jcdctmgr.c).  `w` is the width of a
 DCTELEM: 16 bits with SIMD, 32 without (jdct.h).
 */
module Quantization {
  import opened Bytes
  import opened BitStrings
  import opened Nonlinear

  const DCTSIZE2 := 64

  predicate IsWidth(w: nat)
  {
    w == 16 || w == 32
  }

  // ----- conversions of C

  /** A value stored in a DCTELEM. */
  function ToSigned(w: nat, v: int): (r: int)
  {
    var u := v % Pow2(w);
    if 2 * u < Pow2(w) then u else u - Pow2(w)
  }

  /** A DCTELEM read as a UDCTELEM. */
  function ToUnsigned(w: nat, v: int): (r: nat)
  {
    v % Pow2(w)
  }

  lemma ReadBack(w: nat, v: nat)
    requires v < Pow2(w)
    ensures ToUnsigned(w, ToSigned(w, v)) == v
  {
    var p := Pow2(w);
    DivisionUnique(v, p, 0, v);
    if 2 * v >= p {
      DivisionUnique(v - p, p, -1, v);
    }
  }

  /** Arithmetic on a DCTELEM that is small enough needs no reduction. */
  lemma SignedIsExact(w: nat, v: int)
    requires 0 - Pow2(w) <= 2 * v < Pow2(w)
    ensures ToSigned(w, v) == v
  {
    var p := Pow2(w);
    if v >= 0 {
      DivisionUnique(v, p, 0, v);
    } else {
      DivisionUnique(v, p, -1, v + p);
    }
  }

  /** A JCOEF is a short. */
  function ToCoefficient(v: int): int
  {
    ToSigned(16, v)
  }

  // ----- highest bit

  lemma {:induction false} BitLengthUnique(v: nat, n: nat)
    requires 0 < n && Pow2(n - 1) <= v < Pow2(n)
    ensures BitLength(v) == n
  {
    BitLengthBounds(v);
    if BitLength(v) < n {
      Pow2Monotone(BitLength(v), n - 1);
    } else if n < BitLength(v) {
      Pow2Monotone(n, BitLength(v) - 1);
    }
  }

  /** One step of the search: the value is moved up when its upper bits are clear. */
  lemma MovedUp(v: nat, val: nat, gap: nat, k: nat)
    requires val == v * Pow2(gap)
    ensures val * Pow2(k) == v * Pow2(gap + k)
  {
    Pow2Add(gap, k);
    Reassociate(v, Pow2(gap), Pow2(k));
  }

  lemma TopBitReached(v: nat, val: nat, bit: nat)
    requires 0 < bit <= 16 && val == v * Pow2(16 - bit) && 0x8000 <= val < 0x1_0000
    ensures BitLength(v) == bit
  {
    var p := Pow2(16 - bit);
    Pow2Values();
    Pow2Add(bit, 16 - bit);
    Pow2Add(bit - 1, 16 - bit);
    if v >= Pow2(bit) {
      MulMonotone(Pow2(bit), v, p);
    }
    if v < Pow2(bit - 1) {
      MulStrict(v, Pow2(bit - 1), p);
    }
    BitLengthUnique(v, bit);
  }

  /** flss: binary search for the highest bit. */
  method Flss(v: nat) returns (bit: nat)
    requires v < 0x1_0000
    ensures bit == BitLength(v)
  {
    hide Pow2, BitLength;
    if v == 0 {
      ZeroBits();
      return 0;
    }
    var val: nat := v;
    bit := 16;
    PowersUsed();
    if val / 0x100 == 0 {
      MovedUp(v, val, 0, 8);
      bit, val := bit - 8, val * 0x100;
    }
    if val / 0x1000 == 0 {
      MovedUp(v, val, 16 - bit, 4);
      bit, val := bit - 4, val * 0x10;
    }
    if val / 0x4000 == 0 {
      MovedUp(v, val, 16 - bit, 2);
      bit, val := bit - 2, val * 4;
    }
    if val / 0x8000 == 0 {
      MovedUp(v, val, 16 - bit, 1);
      bit, val := bit - 1, val * 2;
    }
    TopBitReached(v, val, bit);
  }

  lemma ZeroBits()
    ensures BitLength(0) == 0
  {
  }

  lemma PowersUsed()
    ensures Pow2(0) == 1 && Pow2(1) == 2 && Pow2(2) == 4 && Pow2(4) == 0x10 && Pow2(8) == 0x100
  {
    assert Pow2(3) == 8;
    assert Pow2(5) == 32;
    assert Pow2(7) == 128;
  }

  // ----- the reciprocal of a divisor

  /** What is multiplied with, what is added before, and how far the upper half of the
      product is shifted. */
  datatype Recip = Recip(factor: nat, corr: nat, shift: int)

  function Reciprocal(w: nat, d: nat): Recip
    requires d > 0
  {
    var r := w + BitLength(d) - 1;
    var fq, fr := Pow2(r) / d, Pow2(r) % d;
    if fr == 0 then Recip(fq / 2, d / 2, r - 1 - w)
    else if fr <= d / 2 then Recip(fq, d / 2 + 1, r - w)
    else Recip(fq + 1, d / 2, r - w)
  }

  /** The entry with which SIMD code multiplies in order to shift. */
  function Scale(w: nat, shift: int): nat
    requires shift <= w
  {
    Pow2(w - shift)
  }

  /** The quotient rounded to the nearest integer, halves away from zero. */
  function Rounded(x: int, d: nat): int
    requires d > 0
  {
    if x < 0 then -((-x + d / 2) / d) else (x + d / 2) / d
  }

  /** No multiple of d is nearer to x; of two that are equally near it is the one farther
      from zero, and the sign does not matter. */
  lemma RoundedIsNearest(x: int, d: nat)
    requires d > 0
    ensures 0 - d <= 2 * (x - d * Rounded(x, d)) <= d
    ensures x >= 0 ==> 2 * (x - d * Rounded(x, d)) < d
    ensures Rounded(-x, d) == -Rounded(x, d)
  {
    var m := if x < 0 then -x else x;
    var q := (m + d / 2) / d;
    NearestOfSum(m, d);
    if x == 0 {
      DivisionUnique(d / 2, d, 0, d / 2);
    }
    Negated(d, q);
  }

  lemma NearestOfSum(m: nat, d: nat)
    requires d > 0
    ensures 0 - d <= 2 * (m - d * ((m + d / 2) / d)) < d
  {
    var n := m + d / 2;
    assert n == d * (n / d) + n % d;
  }

  lemma Negated(d: nat, q: int)
    ensures d * -q == -(d * q)
  {
  }

  /** A quotient given by the two inequalities between which it lies. */
  lemma QuotientIs(v: nat, m: nat, q: nat)
    requires m > 0 && q * m <= v < (q + 1) * m
    ensures v / m == q
  {
    Distribute(q, 1, m);
    DivisionUnique(v, m, q, v - q * m);
  }

  /** The same after multiplication with d. */
  lemma ScaledQuotient(v: nat, m: nat, d: nat, q: nat)
    requires m > 0 && d > 0 && (q * d) * m <= v * d < ((q + 1) * d) * m
    ensures v / m == q
  {
    Reassociate(q, d, m);
    Reassociate(q, m, d);
    Reassociate(q + 1, d, m);
    Reassociate(q + 1, m, d);
    if v < q * m {
      MulStrict(v, q * m, d);
    }
    if (q + 1) * m <= v {
      MulMonotone((q + 1) * m, v, d);
    }
    QuotientIs(v, m, q);
  }

  /** The reciprocal is rounded down and the dividend raised by one. */
  lemma RoundedDown(n: nat, d: nat, big: nat, half: nat, word: nat)
    requires 0 < d && n < word && big == word * half
    requires 0 < big % d <= half
    ensures (n + 1) * (big / d) / big == n / d
  {
    DividedDown(n, d, big, half, word, big / d, big % d, n / d, n % d);
  }

  lemma DividedDown(n: nat, d: nat, big: nat, half: nat, word: nat, fq: nat, fr: nat, q: nat, s: nat)
    requires 0 < d && n < word && big == word * half && 0 < fr <= half && fr <= big && s < d
    requires n == d * q + s && big == d * fq + fr
    ensures (n + 1) * fq / big == q
  {
    ScaledReciprocal(n + 1, d, big, fq, fr);
    LowEnd(n, d, q, s, big, half, word, fr);
    HighEnd(n, d, q, s, big, fr);
    ScaledQuotient((n + 1) * fq, big, d, q);
  }

  lemma ScaledReciprocal(n: nat, d: nat, big: nat, fq: nat, fr: nat)
    requires big == d * fq + fr
    ensures (n * fq) * d == n * (big - fr)
  {
    Reassociate(n, fq, d);
  }

  lemma LowEnd(n: nat, d: nat, q: nat, s: nat, big: nat, half: nat, word: nat, fr: nat)
    requires n == d * q + s && n < word && big == word * half && fr <= half && fr <= big
    ensures (q * d) * big <= (n + 1) * (big - fr)
  {
    var m := q * d + 1;
    MulMonotone(m, n + 1, big - fr);
    assert m * (big - fr) == (q * d) * big + big - m * fr;
    MulMonotone(m, word, half);
    MulMonotone(fr, half, m);
  }

  lemma HighEnd(n: nat, d: nat, q: nat, s: nat, big: nat, fr: nat)
    requires n == d * q + s && s < d && 0 < fr <= big
    ensures (n + 1) * (big - fr) < ((q + 1) * d) * big
  {
    Distribute(q, 1, d);
    MulMonotone(n + 1, (q + 1) * d, big - fr);
    MulStrict(big - fr, big, (q + 1) * d);
  }

  /** The reciprocal is rounded up. */
  lemma RoundedUp(n: nat, d: nat, big: nat, half: nat, word: nat)
    requires 0 < d && n < word && big == word * half && 0 < half
    requires big % d != 0 && d - big % d <= half
    ensures n * (big / d + 1) / big == n / d
  {
    var fq, fr := big / d, big % d;
    var q, s := n / d, n % d;
    var e := d - fr;
    assert big == d * fq + fr && n == d * q + s;
    Distribute(fq, 1, d);
    assert (fq + 1) * d == big + e;
    Reassociate(n, fq + 1, d);
    UpperEnds(n, d, q, s, big, half, word, e);
    ScaledQuotient(n * (fq + 1), big, d, q);
  }

  lemma UpperEnds(n: nat, d: nat, q: nat, s: nat, big: nat, half: nat, word: nat, e: nat)
    requires n == d * q + s && s < d && n < word && big == word * half && 0 < e <= half
    ensures (q * d) * big <= n * (big + e) < ((q + 1) * d) * big
  {
    MulMonotone(q * d, n, big);
    Distribute(q, 1, d);
    MulMonotone(n + 1, (q + 1) * d, big);
    Distribute(n, 1, big);
    MulMonotone(e, half, n);
    MulStrict(n, word, half);
    Distribute(big, e, n);
  }

  /** A cofactor of a power of two is even unless it is 1. */
  lemma {:induction false} EvenCofactor(d: nat, q: nat, k: nat)
    requires d * q == Pow2(k) && q > 1
    ensures q % 2 == 0
  {
    if q % 2 == 1 {
      if k == 0 {
        MulMonotone(2, q, d);
      } else {
        OddTimes(d, q, Pow2(k - 1));
        EvenCofactor(d / 2, q, k - 1);
      }
    }
  }

  lemma OddTimes(d: nat, q: nat, p: nat)
    requires d * q == 2 * p && q % 2 == 1
    ensures d % 2 == 0 && d / 2 * q == p
  {
    var h := q / 2;
    assert d * q == 2 * (d * h) + d by {
      Distribute(2 * h, 1, d);
    }
    assert d == 2 * (p - d * h);
    Reassociate(2, d / 2, q);
  }

  /** The reciprocal is exact. */
  lemma ExactPower(n: nat, d: nat, k: nat)
    requires 0 < d && k > 0 && Pow2(k) % d == 0 && Pow2(k) / d > 1
    ensures n * (Pow2(k) / d / 2) / Pow2(k - 1) == n / d
  {
    var q := Pow2(k) / d;
    assert d * q == Pow2(k);
    EvenCofactor(d, q, k);
    var h := q / 2;
    assert Pow2(k - 1) == d * h;
    var s := n % d;
    assert n == d * (n / d) + s;
    Reassociate(d, n / d, h);
    Distribute(d * (n / d), s, h);
    MulMonotone(s + 1, d, h);
    Distribute(s, 1, h);
    DivisionUnique(n * h, d * h, n / d, s * h);
  }

  /** What BitLength says of a divisor. */
  lemma DivisorBits(d: nat)
    requires d > 0
    ensures BitLength(d) >= 1 && Pow2(BitLength(d) - 1) <= d < Pow2(BitLength(d))
    ensures Pow2(BitLength(d)) == 2 * Pow2(BitLength(d) - 1)
  {
    BitLengthBounds(d);
  }

  /** The product of the corrected input and the reciprocal, shifted, is the quotient. */
  lemma ReciprocalDivides(w: nat, d: nat, x: nat)
    requires IsWidth(w) && 1 < d < 0x1_0000 && x + d / 2 < Pow2(w)
    ensures var p := Reciprocal(w, d);
      p.shift >= 0 && (x + p.corr) * p.factor / Pow2(w + p.shift) == (x + d / 2) / d
  {
    hide Pow2, BitLength;
    DivisorBits(d);
    PowersUsed();
    WordSize(w);
    var b := BitLength(d) - 1;
    if b == 0 {
      assert false;
    }
    var n := x + d / 2;
    Pow2Add(w, b);
    var big := Pow2(w + b);
    var fr := big % d;
    if fr == 0 {
      FactorAboveOne(d, Pow2(b), Pow2(w), big);
      ExactPower(n, d, w + b);
    } else if fr <= d / 2 {
      RoundedDown(n, d, big, Pow2(b), Pow2(w));
    } else {
      RoundedUp(n, d, big, Pow2(b), Pow2(w));
    }
  }

  lemma FactorAboveOne(d: nat, half: nat, word: nat, big: nat)
    requires 0 < d < 2 * half && big == word * half && word >= 4
    ensures big / d > 1
  {
    MulMonotone(4, word, half);
    var q := big / d;
    assert big == d * q + big % d;
    if q <= 1 {
      MulMonotone(q, 1, d);
    }
  }

  /** The reciprocal and the correction fit in a word, and the product in two. */
  lemma ReciprocalFits(w: nat, d: nat, x: nat)
    requires IsWidth(w) && 1 < d < 0x1_0000 && x + d / 2 < Pow2(w)
    ensures var p := Reciprocal(w, d);
      p.factor < Pow2(w) && p.corr < Pow2(w) && 0 <= p.shift < 16 && (x + p.corr) * p.factor < Pow2(2 * w)
  {
    hide Pow2, BitLength;
    DivisorBits(d);
    PowersUsed();
    WordSize(w);
    var b := BitLength(d) - 1;
    if b == 0 {
      assert false;
    }
    SmallBits(d);
    Pow2Add(w, b);
    Pow2Add(w, w);
    var big := Pow2(w + b);
    FactorBound(d, Pow2(b), Pow2(w), big);
    var p := Reciprocal(w, d);
    ProductBound(x + p.corr, p.factor, Pow2(w));
  }

  lemma WordSize(w: nat)
    requires IsWidth(w)
    ensures Pow2(w) >= 0x1_0000
  {
    Pow2Values();
    Pow2Monotone(16, w);
  }

  lemma SmallBits(d: nat)
    requires 0 < d < 0x1_0000
    ensures BitLength(d) <= 16
  {
    BitLengthBounds(d);
    Pow2Values();
    if BitLength(d) > 16 {
      Pow2Monotone(16, BitLength(d) - 1);
    }
  }

  lemma FactorBound(d: nat, half: nat, word: nat, big: nat)
    requires 0 < half <= d < 2 * half && big == word * half && d < 0x1_0000 <= word
    ensures big / d <= word && (big % d != 0 ==> big / d + 1 < word)
  {
    var q := big / d;
    assert big == d * q + big % d;
    if q > word {
      MulMonotone(word + 1, q, d);
      MulMonotone(half, d, word + 1);
      Distribute(word, 1, half);
    }
    if big % d != 0 && q + 1 >= word {
      if d == half {
        DivisionUnique(big, d, word, 0);
      } else {
        MulMonotone(word, q + 1, d);
        Distribute(q, 1, d);
        MulMonotone(half + 1, d, word);
        Distribute(half, 1, word);
      }
    }
  }

  lemma ProductBound(n: nat, f: nat, word: nat)
    requires n <= word && f < word
    ensures n * f < word * word
  {
    MulMonotone(n, word, f);
    MulStrict(f, word, word);
  }

  /** The shift of quantize is by `shift` plus the width, of a product of twice the
      width.  The stored shift is read as unsigned. */
  predicate ShiftDefined(w: nat, d: nat)
    requires d > 0
  {
    ToUnsigned(w, ToSigned(w, Reciprocal(w, d).shift)) + w < 2 * w
  }

  /** C defines the shift for every divisor but 1, whose shift is stored as -1. */
  lemma ShiftDefinedExactly(w: nat, d: nat)
    requires IsWidth(w) && 0 < d < 0x1_0000
    ensures ShiftDefined(w, d) <==> d != 1
  {
    WordSize(w);
    if d == 1 {
      assert BitLength(1) == 1;
      SignedIsExact(w, -1);
      DivisionUnique(-1, Pow2(w), -1, Pow2(w) - 1);
      assert Pow2(w) % 1 == 0;
    } else {
      var x := 0;
      hide BitLength, Pow2, ToSigned, ToUnsigned;
      ReciprocalFits(w, d, x);
      ReadBack(w, Reciprocal(w, d).shift);
    }
  }

  /** Shifting as SIMD code does, by keeping the upper half of a product with a scale:
      where the scale fits a word it gives the same quotient, and it does not fit just for
      the shift 0 of the divisor 2. */
  lemma ScaleShifts(w: nat, d: nat, x: nat)
    requires IsWidth(w) && 1 < d < 0x1_0000 && x + d / 2 < Pow2(w)
    ensures var p := Reciprocal(w, d);
      && 0 <= p.shift < w
      && (p.shift > 0 <==> d != 2)
      && (p.shift > 0 <==> Scale(w, p.shift) < Pow2(w))
      && (x + p.corr) * p.factor / Pow2(w) * Scale(w, p.shift) / Pow2(w) == (x + d / 2) / d
  {
    hide Pow2, Reciprocal;
    ReciprocalFits(w, d, x);
    ReciprocalDivides(w, d, x);
    ShiftOfTwo(w, d);
    var p := Reciprocal(w, d);
    ShiftByScale((x + p.corr) * p.factor, w, p.shift);
  }

  lemma ShiftByScale(y: nat, w: nat, shift: nat)
    requires shift <= w
    ensures y / Pow2(w) * Scale(w, shift) / Pow2(w) == y / Pow2(w + shift)
    ensures shift > 0 <==> Scale(w, shift) < Pow2(w)
  {
    hide Pow2;
    var word, scale, s := Pow2(w), Scale(w, shift), Pow2(shift);
    PowersUsed();
    Pow2Add(w - shift, shift);
    Pow2Add(w, shift);
    DivideTwice(y, word, s);
    UpperHalf(y / word, scale, s);
    if shift > 0 {
      Pow2Monotone(1, shift);
      MulStrict(1, s, scale);
    }
  }

  lemma UpperHalf(t: nat, scale: nat, s: nat)
    requires scale > 0 && s > 0 && scale * s > 0
    ensures t * scale / (scale * s) == t / s
  {
    var q, r := t / s, t % s;
    Distribute(s * q, r, scale);
    Reassociate(scale, s, q);
    MulStrict(r, s, scale);
    DivisionUnique(t * scale, scale * s, q, r * scale);
  }

  lemma ShiftOfTwo(w: nat, d: nat)
    requires IsWidth(w) && 1 < d < 0x1_0000
    ensures Reciprocal(w, d).shift > 0 <==> d != 2
  {
    hide Pow2, BitLength;
    DivisorBits(d);
    PowersUsed();
    Pow2Add(2, 1);
    BitLengthUnique(2, 2);
    BitLengthUnique(3, 2);
    if d == 2 {
      Pow2Add(w, 1);
    } else if d == 3 {
      NotByThree(w + 1);
    } else if BitLength(d) <= 2 {
      Pow2Monotone(BitLength(d), 2);
    }
  }

  lemma {:induction false} NotByThree(n: nat)
    ensures Pow2(n) % 3 != 0
  {
    if n > 0 {
      NotByThree(n - 1);
    }
  }

  // ----- tables of divisors

  type divisors = s: seq<nat> | |s| == DCTSIZE2 && forall i :: 0 <= i < DCTSIZE2 ==> 0 < s[i] < 0x1_0000
    ghost witness Ones64()

  ghost function Ones64(): seq<nat>
  {
    seq(DCTSIZE2, _ => 1)
  }

  /** Entry i of the table holds the reciprocal of d. */
  predicate Holds(w: nat, table: seq<int>, i: nat, d: nat)
    requires d > 0 && i < DCTSIZE2 && |table| == 4 * DCTSIZE2
  {
    var p := Reciprocal(w, d);
    table[i] == ToSigned(w, p.factor) && table[DCTSIZE2 + i] == ToSigned(w, p.corr)
      && (p.shift <= w ==> table[2 * DCTSIZE2 + i] == ToSigned(w, Scale(w, p.shift)))
      && table[3 * DCTSIZE2 + i] == ToSigned(w, p.shift)
  }

  ghost predicate Prepared(w: nat, table: seq<int>, ds: divisors)
    requires |table| == 4 * DCTSIZE2
  {
    forall i :: 0 <= i < DCTSIZE2 ==> Holds(w, table, i, ds[i])
  }

  /** compute_reciprocal; the result tells whether SIMD code may be used. */
  method ComputeReciprocal(w: nat, divisor: nat, dtbl: array<int>, i: nat) returns (simd: bool)
    requires IsWidth(w) && 0 < divisor < 0x1_0000 && i < DCTSIZE2 && dtbl.Length == 4 * DCTSIZE2
    modifies dtbl
    ensures Holds(w, dtbl[..], i, divisor) && simd == (w + Reciprocal(w, divisor).shift > 16)
    ensures forall j :: 0 <= j < 4 * DCTSIZE2 && j % DCTSIZE2 != i ==> dtbl[j] == old(dtbl[j])
  {
    hide Pow2, BitLength, ToSigned;
    DivisorBits(divisor);
    SmallBits(divisor);
    var bits := Flss(divisor);
    var b := bits - 1;
    var r := w + b;
    var fq, fr := Pow2(r) / divisor, Pow2(r) % divisor;
    var c := divisor / 2;
    if fr == 0 {
      fq := fq / 2;
      r := r - 1;
    } else if fr <= divisor / 2 {
      c := c + 1;
    } else {
      fq := fq + 1;
    }
    dtbl[i] := ToSigned(w, fq);
    dtbl[DCTSIZE2 + i] := ToSigned(w, c);
    dtbl[2 * DCTSIZE2 + i] := ToSigned(w, Pow2(w * 2 - r));
    dtbl[3 * DCTSIZE2 + i] := ToSigned(w, r - w);
    simd := r > 16;
  }

  lemma HoldsElsewhere(w: nat, before: seq<int>, after: seq<int>, i: nat, k: nat, d: nat)
    requires d > 0 && i < DCTSIZE2 && k < DCTSIZE2 && i != k && |before| == |after| == 4 * DCTSIZE2
    requires forall j :: 0 <= j < 4 * DCTSIZE2 && j % DCTSIZE2 != k ==> after[j] == before[j]
    requires Holds(w, before, i, d)
    ensures Holds(w, after, i, d)
  {
    hide Reciprocal, ToSigned, Scale;
  }

  /** quantval[i] << 3, passed as a UINT16. */
  function IslowDivisor(q: nat): (d: nat)
    ensures d < 0x1_0000
  {
    8 * q % 0x1_0000
  }

  /** The scaled quantiser value for the fast DCT, passed as a UINT16. */
  function IfastDivisor(q: nat, scale: nat): (d: nat)
    ensures d < 0x1_0000
  {
    (q * scale + 1024) / 2048 % 0x1_0000
  }

  /** Quantiser values up to 8191 lose no bits, and no others do. */
  lemma IslowDivisorExactly(q: nat)
    ensures IslowDivisor(q) == 8 * q <==> q <= 8191
    ensures 0 < q <= 8191 ==> ShiftDefined(16, IslowDivisor(q)) && ShiftDefined(32, IslowDivisor(q))
  {
    hide ShiftDefined;
    if 0 < q <= 8191 {
      ShiftDefinedExactly(16, IslowDivisor(q));
      ShiftDefinedExactly(32, IslowDivisor(q));
    }
  }

  /** For every UINT16 quantiser value and every entry of the scale table, the fast DCT's
      divisor, cut to 16 bits, is one that the reciprocal is made for just when the product
      leaves at least 4096 after rounding and the loss of its high bits.  Otherwise it is
      0, by which compute_reciprocal divides, or 1, whose shift is undefined. */
  lemma IfastDivisorExactly(w: nat, q: nat, scale: nat)
    requires IsWidth(w) && 0 < q < 0x1_0000 && 1247 <= scale <= 31521
    ensures IfastDivisor(q, scale) > 0 && ShiftDefined(w, IfastDivisor(q, scale))
      <==> (q * scale + 1024) % 0x800_0000 >= 4096
    ensures q < 256 ==> IfastDivisor(q, scale) > 0 && (ShiftDefined(w, IfastDivisor(q, scale)) <==> q * scale >= 3072)
  {
    hide ShiftDefined;
    MulMonotone(1, q, scale);
    LowBits(q * scale + 1024);
    if IfastDivisor(q, scale) > 0 {
      ShiftDefinedExactly(w, IfastDivisor(q, scale));
    }
    if q < 256 {
      MulMonotone(q, 255, scale);
    }
  }

  lemma LowBits(n: nat)
    ensures n / 2048 % 0x1_0000 == n % 0x800_0000 / 2048
  {
    var hi, lo := n / 0x800_0000, n % 0x800_0000;
    DivisionUnique(n, 2048, hi * 0x1_0000 + lo / 2048, lo % 2048);
    DivisionUnique(hi * 0x1_0000 + lo / 2048, 0x1_0000, hi, lo / 2048);
  }

  /** The smallest quantiser value, at the smallest entry of the scale table, meets the
      undefined shift; a value whose scaled product is a multiple of 65536 is divided by. */
  lemma IfastDivisorFails()
    ensures IfastDivisor(1, 1247) == 1 && !ShiftDefined(16, IfastDivisor(1, 1247))
    ensures !ShiftDefined(32, IfastDivisor(1, 1247))
    ensures IfastDivisor(8192, 16384) == 0
  {
    hide ShiftDefined;
    ShiftDefinedExactly(16, 1);
    ShiftDefinedExactly(32, 1);
  }

  /** start_pass_fdctmgr for one quantiser table; `ds` are the divisors of the method in
      use.  SIMD quantisation stays in use when all divisors allow it. */
  method PrepareDivisors(w: nat, ds: divisors, dtbl: array<int>) returns (simd: bool)
    requires IsWidth(w) && dtbl.Length == 4 * DCTSIZE2
    modifies dtbl
    ensures Prepared(w, dtbl[..], ds)
    ensures simd <==> forall i :: 0 <= i < DCTSIZE2 ==> w + Reciprocal(w, ds[i]).shift > 16
  {
    hide Reciprocal, Holds;
    simd := true;
    for i := 0 to DCTSIZE2
      invariant forall j :: 0 <= j < i ==> Holds(w, dtbl[..], j, ds[j])
      invariant simd <==> forall j :: 0 <= j < i ==> w + Reciprocal(w, ds[j]).shift > 16
    {
      ghost var before := dtbl[..];
      var ok := ComputeReciprocal(w, ds[i], dtbl, i);
      simd := simd && ok;
      forall j | 0 <= j < i ensures Holds(w, dtbl[..], j, ds[j]) {
        HoldsElsewhere(w, before, dtbl[..], j, i, ds[j]);
      }
    }
  }

  // ----- quantize

  /** The value of one output coefficient: a rounded quotient, stored in 16 bits. */
  function Quantized(x: int, d: nat): int
    requires d > 0
  {
    ToCoefficient(Rounded(x, d))
  }

  /** A DCTELEM whose negation is one too. */
  predicate IsElement(w: nat, x: int)
  {
    0 - Pow2(w) < 2 * x < Pow2(w)
  }

  /** With 16-bit elements the quotient always fits. */
  lemma QuotientFits(x: int, d: nat)
    requires IsElement(16, x) && d > 0
    ensures Quantized(x, d) == Rounded(x, d)
  {
    Pow2Values();
    var m := if x < 0 then -x else x;
    QuotientOfSum(m, d);
    SignedIsExact(16, Rounded(x, d));
  }

  lemma QuotientOfSum(m: nat, d: nat)
    requires d > 0
    ensures 0 <= (m + d / 2) / d <= m
  {
    var q := (m + d / 2) / d;
    assert m + d / 2 == d * q + (m + d / 2) % d;
    if q > m {
      MulMonotone(m + 1, q, d);
      Distribute(m, 1, d);
      MulMonotone(1, d, m);
    }
  }

  lemma CorrectedFits(w: nat, x: nat, d: nat)
    requires IsWidth(w) && 2 * x < Pow2(w) && d < 0x1_0000
    ensures x + d / 2 < Pow2(w)
  {
    hide Pow2;
    WordSize(w);
    Pow2Even(w);
  }

  lemma Pow2Even(w: nat)
    requires w > 0
    ensures Pow2(w) % 2 == 0
  {
  }

  /** Reading an entry back gives the reciprocal. */
  lemma EntryRead(w: nat, table: seq<int>, i: nat, d: nat)
    requires IsWidth(w) && 1 < d < 0x1_0000 && i < DCTSIZE2 && |table| == 4 * DCTSIZE2 && Holds(w, table, i, d)
    ensures var p := Reciprocal(w, d);
      && ToUnsigned(w, table[i]) == p.factor
      && ToUnsigned(w, table[DCTSIZE2 + i]) == p.corr
      && p.shift >= 0 && ToUnsigned(w, table[3 * DCTSIZE2 + i]) == p.shift
  {
    hide Reciprocal, ToSigned, ToUnsigned, Pow2;
    WordSize(w);
    var p := Reciprocal(w, d);
    ReciprocalFits(w, d, 0);
    ReadBack(w, p.factor);
    ReadBack(w, p.corr);
    ReadBack(w, p.shift);
  }

  /** quantize: every coefficient becomes the rounded quotient by its divisor. */
  method Quantize(w: nat, ds: divisors, coefBlock: array<int>, dtbl: array<int>, workspace: array<int>)
    requires IsWidth(w) && dtbl.Length == 4 * DCTSIZE2 && workspace.Length == coefBlock.Length == DCTSIZE2
    requires coefBlock != dtbl && coefBlock != workspace
    requires Prepared(w, dtbl[..], ds) && forall i :: 0 <= i < DCTSIZE2 ==> ds[i] != 1
    requires forall i :: 0 <= i < DCTSIZE2 ==> IsElement(w, workspace[i])
    modifies coefBlock
    ensures forall i :: 0 <= i < DCTSIZE2 ==> coefBlock[i] == Quantized(workspace[i], ds[i])
  {
    hide Reciprocal, Holds, ToSigned, ToUnsigned, Pow2;
    for i := 0 to DCTSIZE2
      invariant forall j :: 0 <= j < i ==> coefBlock[j] == Quantized(workspace[j], ds[j])
    {
      var temp := workspace[i];
      var recip, corr := ToUnsigned(w, dtbl[i]), ToUnsigned(w, dtbl[DCTSIZE2 + i]);
      var shift := ToUnsigned(w, dtbl[3 * DCTSIZE2 + i]);
      EntryRead(w, dtbl[..], i, ds[i]);
      if temp < 0 {
        temp := -temp;
        CorrectedFits(w, temp, ds[i]);
        ReciprocalDivides(w, ds[i], temp);
        var product := (temp + corr) * recip;
        temp := -(product / Pow2(shift + w));
      } else {
        CorrectedFits(w, temp, ds[i]);
        ReciprocalDivides(w, ds[i], temp);
        var product := (temp + corr) * recip;
        temp := product / Pow2(shift + w);
      }
      coefBlock[i] := ToCoefficient(temp);
    }
  }
}
