/** The checksum of a message in terms of the message's own bits: what is divided, by what, and what the
    complement of the remainder is. */
module CrcMessage {
  import opened Words
  import opened Crc32
  import opened CrcPolynomial

  // ------------------------------------------------------------------ the bits of a message

  lemma {:induction false} TopBitsAt(w: Word, n: nat, j: nat)
    requires j < n <= 32
    ensures TopBits(w, n)[j] == Bit(w, 31 - j)
    decreases n
  {
    hide Bit, Dbl, TopSet;
    DblBits(w, 31);
    if j > 0 {
      TopBitsAt(Dbl(w), n - 1, j - 1);
      DblBits(w, 32 - j);
    }
  }

  lemma {:induction false} ShiftedBit(b: nat, k: nat, i: nat)
    ensures Bit(b * Pow2(k), i + k) == Bit(b, i)
    decreases k
  {
    if k > 0 {
      assert b * Pow2(k) == 2 * (b * Pow2(k - 1));
      EvenBits(b * Pow2(k - 1), i + k);
      ShiftedBit(b, k - 1, i);
    }
  }

  lemma ByteBitsAt(b: Byte, j: nat)
    requires j < 8
    ensures ByteBits(b)[j] == Bit(b, 7 - j)
  {
    hide Bit, TopBits, Pow2;
    Pow32();
    TopBitsAt(b * 0x100_0000, 8, j);
    ShiftedBit(b, 24, 7 - j);
  }

  /** The message is taken in byte by byte, the most significant bit of each byte first. */
  lemma {:induction false} MessageBitsAt(buf: seq<Byte>, j: nat)
    ensures |MessageBits(buf)| == 8 * |buf|
    ensures j < 8 * |buf| ==> MessageBits(buf)[j] == Bit(buf[j / 8], 7 - j % 8)
    decreases |buf|
  {
    hide Bit, ByteBits;
    if buf != [] {
      MessageBitsAt(buf[1..], if j < 8 then 0 else j - 8);
      assert |ByteBits(buf[0])| == 8 by { EightBits(buf[0]); }
      if j < 8 {
        ByteBitsAt(buf[0], j);
      } else if j < 8 * |buf| {
        assert buf[1..][(j - 8) / 8] == buf[j / 8];
      }
    }
  }

  lemma EightBits(b: Byte)
    ensures |ByteBits(b)| == 8
  {
  }

  lemma {:induction false} OfBitsAt(bits: seq<bool>, e: nat)
    ensures e in OfBits(bits) <==> e < |bits| && bits[|bits| - 1 - e]
    decreases |bits|
  {
    if bits != [] && e > 0 { OfBitsAt(bits[..|bits| - 1], e - 1); }
  }

  // ------------------------------------------------------------------ the dividend

  /** Bit e of the message followed by 32 zero bits, with its first 32 bits complemented; bit 0 comes last. */
  predicate Prepared(buf: seq<Byte>, e: nat) {
    (32 <= e < 32 + 8 * |buf| && Bit(buf[|buf| - 1 - (e - 32) / 8], e % 8)) != (8 * |buf| <= e < 8 * |buf| + 32)
  }

  lemma DividendExactly(buf: seq<Byte>, e: nat)
    ensures e in Dividend(ONES, MessageBits(buf)) <==> Prepared(buf, e)
  {
    hide Bit, OfBits, MessageBits, Pow2;
    var bits := MessageBits(buf);
    MessageBitsAt(buf, 0);
    if 32 <= e {
      OfBitsAt(bits, e - 32);
      if e < 32 + 8 * |buf| { MessageBitsAt(buf, 8 * |buf| - 1 - (e - 32)); }
    }
    if 8 * |buf| <= e {
      Pow32();
      BitsOfOnes(32, e - 8 * |buf|);
    }
  }

  /** Word r at the end of the prepared message makes it the product of q and the generator, where the bits
      of r are complemented. */
  ghost predicate Completes(buf: seq<Byte>, r: Word, q: seq<bool>) {
    forall e: nat :: e in Product(q) <==> Prepared(buf, e) != (e < 32 && !Bit(r, e))
  }

  lemma CompletesMeans(buf: seq<Byte>, r: Word, q: seq<bool>)
    ensures Completes(buf, r, q) <==> Dividend(ONES, MessageBits(buf)) == Add(Product(q), OfWord(NotWord(r)))
  {
    hide Bit, Prepared, Dividend, Product;
    var dividend, sum := Dividend(ONES, MessageBits(buf)), Add(Product(q), OfWord(NotWord(r)));
    forall e: nat ensures e in dividend <==> Prepared(buf, e) { DividendExactly(buf, e); }
    forall e: nat ensures e in sum <==> (e in Product(q)) != (e < 32 && !Bit(r, e)) {
      if e < 32 { BitsOfNot(r, e); }
    }
    if Completes(buf, r, q) {
      forall e: nat ensures e in dividend <==> e in sum {
      }
    } else {
      var e: nat :| !(e in Product(q) <==> Prepared(buf, e) != (e < 32 && !Bit(r, e)));
      assert e in dividend <==> e !in sum;
    }
  }

  /** The checksum is the one word that completes the prepared message to a multiple of the generator. */
  lemma ChecksumExactly(buf: seq<Byte>, r: Word)
    ensures r == Crc(buf) <==> exists q :: Completes(buf, r, q)
  {
    hide Completes, Dividend, Product, Crc;
    var bits := MessageBits(buf);
    assert NotWord(NotWord(r)) == r;
    if r == Crc(buf) {
      CrcIsTheRemainder(buf, [], 0);
      var q :| Dividend(ONES, bits) == Add(Product(q), OfWord(NotWord(Crc(buf))));
      CompletesMeans(buf, r, q);
    } else if q :| Completes(buf, r, q) {
      CompletesMeans(buf, r, q);
      CrcIsTheRemainder(buf, q, NotWord(r));
    }
  }

  // ------------------------------------------------------------------ multiples of the generator

  /** A power of x times the generator; sums of these are all the products there are, by ProductIsLinear. */
  lemma {:induction false} ProductOfPower(n: nat, e: nat)
    ensures e in Product([true] + seq(n, _ => false)) <==> n <= e && e - n in Generator()
    decreases n
  {
    hide Generator, Product, Add, Raise;
    var q := [true] + seq(n, _ => false);
    if n == 0 {
      assert q == [] + [true];
      ZeroProduct([]);
      ProductLast([], true);
    } else {
      var shorter := [true] + seq(n - 1, _ => false);
      assert q == shorter + [false];
      ProductLast(shorter, false);
      if e > 0 { ProductOfPower(n - 1, e - 1); }
    }
  }

  /** The checksum of the one byte 0xfe, whose top seven bits cancel those of the preset register. */
  lemma KnownChecksum()
    ensures Crc([0xfe]) == 0x04c1_1d48
  {
    hide Xor, Feed, ByteStep;
    var buf: seq<Byte> := [0xfe];
    assert buf[1..] == [] && MessageBits([]) == [];
    assert MessageBits(buf) == ByteBits(0xfe);
    ByteStepIsFeed(ONES, 0xfe);
    ByteStepAt();
  }

  lemma ByteStepAt()
    ensures ByteStep(ONES, 0xfe) == 0xfb3e_e2b7
  {
    hide Xor, Pow2, ShiftN;
    Pow32();
    XorOnes(0xfe, 8);
    XorComm(0xfe, 0xff);
    EntryOfOne();
    Pow2Add(16, 8);
    Pow2Add(8, 8);
    XorSplit(0xff_ffff, 0, 0x04_c11d, 0xb7, 8);
    XorOnes(0x04_c11d, 24);
    XorComm(0x04_c11d, 0xff_ffff);
    XorOfZero(0xb7);
  }

  lemma EntryOfOne()
    ensures Entry(1) == 0x04c1_1db7
  {
    hide Xor, ShiftN;
    ShiftNAdd(0x100_0000, 7, 1);
    assert Pow2(7) == 0x80;
    ShiftLow(0x100_0000, 7);
    ShiftOnce(0x8000_0000);
    XorOfZero(POLY);
  }
}
