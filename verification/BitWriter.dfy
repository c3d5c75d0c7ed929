/**
 The bit accumulator of the Huffman encoders, with 32-bit words: codes are shifted in
 at the low end, and two bytes go out whenever more than 15 bits are waiting.
 */
module BitWriter {
  import opened Bytes
  import opened BitStrings

  lemma WordSize()
    ensures Pow2(32) == 0x1_0000_0000
  {
    Pow2Values();
    Pow2Add(16, 16);
  }

  /** The byte on top of n waiting bits. */
  lemma TopByte(v: nat, n: nat)
    ensures Bits(v, n + 8) == Bits(ShiftRight(v, n) % 256, 8) + Bits(v, n)
  {
    hide Pow2, ShiftRight, Bits;
    Pow2Values();
    BitsSplit(v, 8, n);
    BitsOfMod(ShiftRight(v, n), 8, 8);
  }

  /** What falls off the top of the word has been written already. */
  lemma ShiftIn(v: word, n: nat, code: nat, size: nat)
    requires n + size <= 32 && code < Pow2(size)
    ensures Bits((v * Pow2(size) + code) % 0x1_0000_0000, n + size) == Bits(v, n) + Bits(code, size)
  {
    hide Pow2, Bits;
    WordSize();
    BitsAppend(v, n, code, size);
    BitsOfMod(v * Pow2(size) + code, 32, n + size);
  }

  /** whole is bits filled up with at most seven ones. */
  predicate Padded(bits: seq<bool>, whole: seq<bool>)
  {
    |bits| <= |whole| <= |bits| + 7 && whole == bits + Ones(|whole| - |bits|)
  }

  lemma SevenBits()
    ensures Bits(0x7F, 7) == Ones(7)
  {
    assert Bits(7, 3) == [true, true, true];
    assert Bits(0x7F, 7) == Bits(7, 3) + [true, true, true, true];
  }

  lemma SevenOnes(log: seq<bool>, whole: seq<bool>, rest: seq<bool>)
    requires log + Bits(0x7F, 7) == whole + rest && |rest| <= 7
    ensures whole == log + Ones(7 - |rest|)
  {
    SevenBits();
    hide Bits;
    assert whole == (log + Ones(7))[..|whole|];
  }

  /** The bits still in the accumulator and the bytes written spell `log`. */
  class Writer {
    var putBuffer: word
    var putBits: nat
    var out: seq<byte>

    ghost var before: seq<byte>   // output up to the last restart marker
    ghost var payload: seq<byte>  // data bytes since then
    ghost var log: seq<bool>      // bits put since then

    /** out ends in the stuffed payload; payload and accumulator together are the bits put. */
    ghost predicate Holding()
      reads this
    {
      && putBits <= 32 && out == before + Stuff(payload)
      && log == BytesBits(payload) + Bits(putBuffer, putBits)
    }

    /** The state between macro calls. */
    ghost predicate Valid()
      reads this
    {
      Holding() && putBits <= 15
    }

    constructor ()
      ensures Valid() && before == [] && log == []
    {
      putBuffer, putBits, out := 0, 0, [];
      before, payload, log := [], [], [];
    }

    method EmitByte()
      requires Holding() && 8 <= putBits
      modifies this`putBuffer, this`putBits, this`out, this`payload
      ensures Holding() && putBits == old(putBits) - 8 && log == old(log)
    {
      hide Pow2, ShiftRight, Bits, BytesBits, Stuff;
      putBits := putBits - 8;
      var c := ShiftRight(putBuffer, putBits) % 256;
      TopByte(putBuffer, putBits);
      StuffSnoc(payload, c);
      BytesBitsSnoc(payload, c);
      payload := payload + [c];
      out := out + [c];
      if c == 0xFF {
        out := out + [0];
      }
    }

    method PutBits(code: nat, size: nat)
      requires Holding() && putBits + size <= 32 && code < Pow2(size)
      modifies this`putBuffer, this`putBits, this`log
      ensures Holding() && putBits == old(putBits) + size && log == old(log) + Bits(code, size)
    {
      ShiftIn(putBuffer, putBits, code, size);
      putBits := putBits + size;
      putBuffer := (putBuffer * Pow2(size) + code) % 0x1_0000_0000;
      log := log + Bits(code, size);
    }

    method CheckBuf15()
      requires Holding() && putBits <= 31
      modifies this`putBuffer, this`putBits, this`out, this`payload
      ensures Valid() && log == old(log)
    {
      if putBits > 15 {
        EmitByte();
        EmitByte();
      }
    }

    /** No bit is lost: at most 31 bits are ever waiting. */
    method EmitBits(code: nat, size: nat)
      requires Valid() && size <= 16 && code < Pow2(size)
      modifies this`putBuffer, this`putBits, this`out, this`payload, this`log
      ensures Valid() && log == old(log) + Bits(code, size)
    {
      PutBits(code, size);
      CheckBuf15();
    }

    /** Fill the last byte with ones and write everything out. */
    method FlushBits()
      requires Valid()
      modifies this`putBuffer, this`putBits, this`out, this`payload, this`log
      ensures Valid() && putBits == 0 && log == BytesBits(payload)
      ensures Padded(old(log), log)
    {
      hide Bits, BytesBits, Stuff;
      assert 0x7F < Pow2(7) by { Pow2Values(); }
      PutBits(0x7F, 7);
      while putBits >= 8
        invariant Holding() && putBits <= 22 && log == old(log) + Bits(0x7F, 7)
      {
        EmitByte();
      }
      SevenOnes(old(log), BytesBits(payload), Bits(putBuffer, putBits));
      putBuffer, putBits := 0, 0;
      log := BytesBits(payload);
    }

    /** A marker after flushed data; what follows is a new segment. */
    method EmitMarker(code: byte)
      requires Valid() && putBits == 0
      modifies this`out, this`before, this`payload, this`log
      ensures Valid() && before == old(out) + [0xFF, code] && log == []
    {
      out := out + [0xFF, code];
      before, payload, log := out, [], [];
    }
  }
}
