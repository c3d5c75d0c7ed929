/**
 The bit output of the progressive Huffman encoder: at most 7 bits wait between calls,
 left-justified in the low 24 bits of a 32-bit word.
 */
module ProgressiveWriter {
  import opened Bytes
  import opened BitStrings
  import opened Nonlinear
  import B = BitWriter

  /** The word holds n bits, of value v, on top of its low 24 bits; zeros are below. */
  ghost predicate Aligned(w: word, v: nat, n: nat)
  {
    n <= 24 && v < Pow2(n) && w % 0x100_0000 == v * Pow2(24 - n)
  }

  lemma DigitsBelow(v: nat, a: nat, c: nat, s: nat)
    requires v < a && c < s
    ensures v * s + c < a * s
  {
    MulMonotone(v + 1, a, s);
    Distribute(v, 1, s);
  }

  lemma MergedProduct(v: nat, s: nat, k: nat, c: nat)
    ensures (v * s + c) * k == v * (s * k) + c * k
  {
    Distribute(v * s, c, k);
    Reassociate(v, s, k);
  }

  /** New bits go right below those that wait; they share no bit with them. */
  lemma Merge(w: word, v: nat, n: nat, code: nat, size: nat)
    requires Aligned(w, v, n) && n + size <= 24 && code < Pow2(size)
    ensures code * Pow2(24 - (n + size)) + w < 0x1_0000_0000
    ensures Aligned(code * Pow2(24 - (n + size)) + w, v * Pow2(size) + code, n + size)
    ensures w % Pow2(24 - n) == 0 && code * Pow2(24 - (n + size)) < Pow2(24 - n)
  {
    hide Pow2;
    Pow2Values();
    Pow2Add(n, size);
    Pow2Add(size, 24 - (n + size));
    Pow2Add(n, 24 - n);
    MergeNumbers(w, v, code, Pow2(n), Pow2(size), Pow2(24 - (n + size)), Pow2(24 - n));
  }

  lemma MergeNumbers(w: word, v: nat, code: nat, a: nat, s: nat, k: nat, p: nat)
    requires v < a && code < s && k > 0 && p == s * k && a * p == 0x100_0000 && w % 0x100_0000 == v * p
    ensures code * k + w < 0x1_0000_0000 && (code * k + w) % 0x100_0000 == (v * s + code) * k
    ensures v * s + code < a * s
    ensures w % p == 0 && code * k < p
  {
    var high, sum := w / 0x100_0000, (v * s + code) * k;
    DigitsBelow(v, a, code, s);
    MulStrict(v * s + code, a * s, k);
    Reassociate(a, s, k);
    MergedProduct(v, s, k, code);
    MulStrict(code, s, k);
    Recombine(w, high, code * k, v * p, sum);
    MultiplePlus(w, high, v, p, a);
  }

  lemma Recombine(w: word, high: nat, added: nat, waiting: nat, sum: nat)
    requires high == w / 0x100_0000 && w % 0x100_0000 == waiting && sum == waiting + added < 0x100_0000
    ensures added + w < 0x1_0000_0000 && (added + w) % 0x100_0000 == sum
  {
    DivisionUnique(added + w, 0x100_0000, high, sum);
  }

  lemma MultiplePlus(w: nat, high: nat, v: nat, p: nat, q: nat)
    requires p > 0 && q * p == 0x100_0000 && w == 0x100_0000 * high + v * p
    ensures w % p == 0
  {
    Reassociate(q, p, high);
    Distribute(q * high, v, p);
    DivisionUnique(w, p, q * high + v, 0);
  }

  /** The byte on top, and what is left after a shift by 8. */
  lemma TopByte(w: word, v: nat, n: nat)
    requires Aligned(w, v, n) && 8 <= n
    ensures w / 0x1_0000 % 256 == ShiftRight(v, n - 8) < 256
    ensures Aligned(w * 256 % 0x1_0000_0000, v % Pow2(n - 8), n - 8)
  {
    hide Pow2;
    Pow2Values();
    Pow2Add(n - 8, 24 - n);
    Pow2Add(8, n - 8);
    Pow2Add(8, 24 - n);
    TopByteNumbers(w, v, Pow2(24 - n), Pow2(n - 8));
  }

  lemma TopByteNumbers(w: word, v: nat, p: nat, d: nat)
    requires p > 0 && d > 0 && d * p == 0x1_0000 && v < 256 * d && w % 0x100_0000 == v * p
    ensures w / 0x1_0000 % 256 == v / d < 256
    ensures w * 256 % 0x1_0000_0000 % 0x100_0000 == v % d * (256 * p)
  {
    var q, r, high := v / d, v % d, w / 0x100_0000;
    QuotientSmall(v, d);
    QuotientProduct(v, d, p);
    MulStrict(r, d, p);
    Distribute(0, r, p);
    MulMonotone(0, r, p);
    TopOfWord(w, high, q, r * p);
    Reassociate(r, 256, p);
  }

  lemma QuotientProduct(v: nat, d: nat, p: nat)
    requires d > 0
    ensures v * p == v / d * (d * p) + v % d * p
  {
    Distribute(v / d * d, v % d, p);
    Reassociate(v / d, d, p);
  }

  lemma QuotientSmall(v: nat, d: nat)
    requires d > 0 && v < 256 * d
    ensures v / d < 256
  {
    var q := v / d;
    if q >= 256 {
      MulMonotone(256, q, d);
    }
  }

  lemma TopOfWord(w: word, high: nat, q: nat, rest: nat)
    requires high == w / 0x100_0000 && w % 0x100_0000 == q * 0x1_0000 + rest && rest < 0x1_0000 && q < 256
    ensures w / 0x1_0000 % 256 == q
    ensures w * 256 % 0x1_0000_0000 % 0x100_0000 == 256 * rest
  {
    var low := q * 0x100_0000 + 256 * rest;
    DivisionUnique(w, 0x1_0000, 256 * high + q, rest);
    DivisionUnique(256 * high + q, 256, high, q);
    DivisionUnique(w * 256, 0x1_0000_0000, high, low);
    DivisionUnique(low, 0x100_0000, q, 256 * rest);
  }

  class Writer {
    var putBuffer: word
    var putBits: nat
    var out: seq<byte>
    ghost var held: nat           // value of the bits that wait
    ghost var payload: seq<byte>  // data bytes written
    ghost var log: seq<bool>      // bits put

    ghost predicate Holding()
      reads this
    {
      Aligned(putBuffer, held, putBits) && out == Stuff(payload) && log == BytesBits(payload) + Bits(held, putBits)
    }

    ghost predicate Valid()
      reads this
    {
      Holding() && putBits <= 7
    }

    constructor ()
      ensures Valid() && log == []
    {
      putBuffer, putBits, out := 0, 0, [];
      held, payload, log := 0, [], [];
      new;
      NothingHeld();
    }

    lemma NothingHeld()
      requires putBuffer == 0 && putBits == 0 && held == 0 && out == [] && payload == [] && log == []
      ensures Valid()
    {
      assert Bits(0, 0) == [];
    }

    /** emit_bits, for a size that is not zero. */
    method EmitBits(code: nat, size: nat)
      requires Valid() && 0 < size <= 16
      modifies this
      ensures Valid() && log == old(log) + Bits(code, size)
    {
      hide Pow2, Bits, BytesBits, Stuff, Aligned;
      var c := code % Pow2(size);
      AtMost24(putBuffer, held, putBits);
      Merge(putBuffer, held, putBits, c, size);
      BitsAppend(held, putBits, c, size);
      BitsOfMod(code, size, size);
      putBuffer := c * Pow2(24 - (putBits + size)) + putBuffer;
      held, putBits := held * Pow2(size) + c, putBits + size;
      log := log + Bits(code, size);
      while putBits >= 8
        invariant Holding() && putBits <= 23 && log == old(log) + Bits(code, size)
      {
        PutByte();
      }
    }

    lemma AtMost24(w: word, v: nat, n: nat)
      requires Aligned(w, v, n)
      ensures n <= 24
    {
    }

    method PutByte()
      requires Holding() && 8 <= putBits
      modifies this`putBuffer, this`putBits, this`out, this`held, this`payload
      ensures Holding() && putBits == old(putBits) - 8
    {
      hide Pow2, Bits, BytesBits, Stuff, Aligned, ShiftRight;
      TopByte(putBuffer, held, putBits);
      var c := putBuffer / 0x1_0000 % 256;
      SplitOff(held, putBits - 8);
      StuffSnoc(payload, c);
      BytesBitsSnoc(payload, c);
      out := out + [c];
      if c == 0xFF {
        out := out + [0];
      }
      payload := payload + [c];
      putBuffer, putBits := putBuffer * 256 % 0x1_0000_0000, putBits - 8;
      held := held % Pow2(putBits);
    }

    lemma SplitOff(v: nat, n: nat)
      ensures Bits(v, n + 8) == Bits(ShiftRight(v, n), 8) + Bits(v % Pow2(n), n)
    {
      hide Pow2, Bits, ShiftRight;
      BitsSplit(v, 8, n);
      BitsOfMod(v, n, n);
    }

    /** flush_bits: fill the last byte with ones. */
    method FlushBits()
      requires Valid()
      modifies this
      ensures Valid() && putBits == 0 && out == Stuff(payload) && B.Padded(old(log), BytesBits(payload))
    {
      hide Bits, BytesBits, Stuff;
      EmitBits(0x7F, 7);
      B.SevenOnes(old(log), BytesBits(payload), Bits(held, putBits));
      putBuffer, putBits, held := 0, 0, 0;
      log := BytesBits(payload);
      Emptied();
    }

    lemma Emptied()
      ensures Aligned(0, 0, 0) && Bits(0, 0) == []
    {
    }
  }
}
