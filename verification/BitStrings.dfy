/** Bit strings, most significant bit first, and the numbers and bytes they spell. */
module BitStrings {
  import opened Bytes
  import opened Nonlinear

  type word = x: int | 0 <= x < 0x1_0000_0000

  function Digit(b: bool): nat
  {
    if b then 1 else 0
  }

  /** The low n bits of v. */
  function Bits(v: nat, n: nat): (s: seq<bool>)
    ensures |s| == n
  {
    if n == 0 then [] else Bits(v / 2, n - 1) + [v % 2 == 1]
  }

  function Value(s: seq<bool>): nat
  {
    if s == [] then 0 else 2 * Value(s[..|s| - 1]) + Digit(s[|s| - 1])
  }

  lemma ValueSnoc(s: seq<bool>, b: bool)
    ensures Value(s + [b]) == 2 * Value(s) + Digit(b)
  {
    assert (s + [b])[..|s|] == s;
  }

  lemma {:induction false} ValueBound(s: seq<bool>)
    ensures Value(s) < Pow2(|s|)
  {
    if s != [] {
      ValueBound(s[..|s| - 1]);
    }
  }

  lemma {:induction false} BitsOfValue(s: seq<bool>)
    ensures Bits(Value(s), |s|) == s
  {
    if s != [] {
      BitsOfValue(s[..|s| - 1]);
    }
  }

  lemma {:induction false} ValueOfBits(v: nat, n: nat)
    requires v < Pow2(n)
    ensures Value(Bits(v, n)) == v
  {
    if n > 0 {
      ValueOfBits(v / 2, n - 1);
      ValueSnoc(Bits(v / 2, n - 1), v % 2 == 1);
    }
  }

  lemma {:induction false} ValueConcat(s: seq<bool>, t: seq<bool>)
    ensures Value(s + t) == Value(s) * Pow2(|t|) + Value(t)
  {
    if t == [] {
      assert s + t == s;
    } else {
      var k := |t| - 1;
      ValueConcat(s, t[..k]);
      assert (s + t)[..|s + t| - 1] == s + t[..k];
      assert (s + t)[|s + t| - 1] == t[k];
      ScaleSum(2, Value(s), Pow2(k), Value(t[..k]));
    }
  }

  /** Appending the n bits of c to the m bits of v. */
  lemma {:induction false} BitsAppend(v: nat, m: nat, c: nat, n: nat)
    requires c < Pow2(n)
    ensures Bits(v * Pow2(n) + c, m + n) == Bits(v, m) + Bits(c, n)
    decreases n
  {
    if n > 0 {
      BitsAppend(v, m, c / 2, n - 1);
      ScaleSum(2, v, Pow2(n - 1), c / 2);
      assert v * Pow2(n) + c == 2 * (v * Pow2(n - 1) + c / 2) + c % 2;
    } else {
      assert v * Pow2(n) + c == v;
    }
  }

  /** The first m of m + n bits are those of the quotient. */
  lemma {:induction false} BitsSplit(v: nat, m: nat, n: nat)
    ensures Bits(v, m + n) == Bits(ShiftRight(v, n), m) + Bits(v, n)
    decreases n
  {
    if n > 0 {
      BitsSplit(v / 2, m, n - 1);
      ShiftTwice(v, 1, n - 1);
      assert ShiftRight(v, 1) == v / 2;
      assert Bits(v, m + n) == Bits(v / 2, m + (n - 1)) + [v % 2 == 1];
    }
  }

  lemma {:induction false} ShiftTwice(v: nat, m: nat, n: nat)
    ensures ShiftRight(ShiftRight(v, m), n) == ShiftRight(v, m + n)
  {
    hide Pow2;
    Pow2Add(m, n);
    DivideTwice(v, Pow2(m), Pow2(n));
  }

  lemma DivideTwice(v: nat, a: nat, b: nat)
    requires 0 < a && 0 < b
    ensures v / a / b == v / (a * b)
  {
    var q, r := v / a, v % a;
    var p, s := q / b, q % b;
    Reassociate(a, b, p);
    Distribute(b * p, s, a);
    MulMonotone(s, b - 1, a);
    Distribute(b, -1, a);
    assert v == (a * b) * p + (s * a + r);
    DivisionUnique(v, a * b, p, s * a + r);
  }

  /** Only v modulo 2^k matters for k bits or fewer. */
  lemma {:induction false} BitsOfMod(v: nat, k: nat, n: nat)
    requires n <= k
    ensures Bits(v % Pow2(k), n) == Bits(v, n)
    decreases n
  {
    if n > 0 {
      ModHalf(v, Pow2(k - 1));
      BitsOfMod(v / 2, k - 1, n - 1);
    }
  }

  lemma ModHalf(v: nat, p: nat)
    requires 1 <= p
    ensures v % (2 * p) / 2 == v / 2 % p && v % (2 * p) % 2 == v % 2
  {
    var q, r := v / 2 / p, v / 2 % p;
    assert v / 2 == p * q + r;
    Reassociate(2, p, q);
    assert v == (2 * p) * q + (2 * r + v % 2);
    DivisionUnique(v, 2 * p, q, 2 * r + v % 2);
  }

  function BytesBits(p: seq<byte>): (s: seq<bool>)
    ensures |s| == 8 * |p|
  {
    if p == [] then [] else BytesBits(p[..|p| - 1]) + Bits(p[|p| - 1], 8)
  }

  lemma BytesBitsSnoc(p: seq<byte>, b: byte)
    ensures BytesBits(p + [b]) == BytesBits(p) + Bits(b, 8)
  {
    assert (p + [b])[..|p|] == p;
  }

  lemma {:induction false} BytesBitsConcat(p: seq<byte>, q: seq<byte>)
    ensures BytesBits(p + q) == BytesBits(p) + BytesBits(q)
  {
    if q == [] {
      assert p + q == p;
    } else {
      var k := |q| - 1;
      BytesBitsConcat(p, q[..k]);
      assert (p + q)[..|p + q| - 1] == p + q[..k];
    }
  }

  function Ones(n: nat): (s: seq<bool>)
    ensures |s| == n
  {
    seq(n, _ => true)
  }

  /** How many bits v takes. */
  function BitLength(v: nat): nat
  {
    if v == 0 then 0 else 1 + BitLength(v / 2)
  }

  lemma {:induction false} BitLengthBounds(v: nat)
    ensures v < Pow2(BitLength(v))
    ensures v > 0 ==> Pow2(BitLength(v) - 1) <= v
  {
    if v > 1 {
      BitLengthBounds(v / 2);
    }
  }
}
