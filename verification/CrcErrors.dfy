/** What the checksum of Crc32.dfy detects, and the algebra behind it. */
module CrcErrors {
  import opened Words
  import opened Crc32

  /** The bytes of a word, most significant first. */
  function BigEndian(w: Word): seq<Byte> {
    [w / 0x100_0000, w / 0x1_0000 % 0x100, w / 0x100 % 0x100, w % 0x100]
  }

  lemma {:induction false} RegisterIsInjective(c: Word, d: Word, buf: seq<Byte>)
    requires Register(c, buf) == Register(d, buf)
    ensures c == d
    decreases |buf|
  {
    hide Register, ByteStep, Xor;
    if buf == [] {
      RegisterEmpty(c);
      RegisterEmpty(d);
    } else {
      RegisterStep(c, buf);
      RegisterStep(d, buf);
      RegisterIsInjective(ByteStep(c, buf[0]), ByteStep(d, buf[0]), buf[1..]);
      ByteStepIsShift(c, buf[0]);
      ByteStepIsShift(d, buf[0]);
      var b: nat := buf[0];
      ShiftNInjective(XorWord(c, b * 0x100_0000), XorWord(d, b * 0x100_0000), 8);
      XorCancel(c, b * 0x100_0000);
      XorCancel(d, b * 0x100_0000);
    }
  }

  lemma XorDisjoint(u: nat, low: nat, n: nat)
    requires low < Pow2(n)
    ensures Xor(u * Pow2(n), low) == u * Pow2(n) + low
  {
    hide Xor, Pow2;
    XorSplit(u, 0, 0, low, n);
    XorZero(u);
    XorZero(low);
    XorComm(0, low);
  }

  lemma FourSteps(c: Word, b3: Byte, b2: Byte, b1: Byte, b0: Byte)
    ensures Register(c, [b3, b2, b1, b0]) == ByteStep(ByteStep(ByteStep(ByteStep(c, b3), b2), b1), b0)
  {
    hide Register, ByteStep;
    var bytes := [b3, b2, b1, b0];
    assert bytes[1..] == [b2, b1, b0] && bytes[1..][1..] == [b1, b0] && [b1, b0][1..] == [b0] && [b0][1..] == [];
    RegisterStep(c, bytes);
    RegisterStep(ByteStep(c, b3), [b2, b1, b0]);
    RegisterStep(ByteStep(ByteStep(c, b3), b2), [b1, b0]);
    RegisterStep(ByteStep(ByteStep(ByteStep(c, b3), b2), b1), [b0]);
    RegisterEmpty(ByteStep(ByteStep(ByteStep(ByteStep(c, b3), b2), b1), b0));
  }

  /** Four bytes are taken in as one word. */
  lemma FourBytes(c: Word, b3: Byte, b2: Byte, b1: Byte, b0: Byte)
    ensures Register(c, [b3, b2, b1, b0]) ==
            ShiftN(XorWord(c, b3 * 0x100_0000 + b2 * 0x1_0000 + b1 * 0x100 + b0), 32)
  {
    hide Register, ByteStep, Xor, ShiftN, Pow2;
    FourSteps(c, b3, b2, b1, b0);
    var w3, w2, w1 := b3 * 0x100_0000, b2 * 0x1_0000, b1 * 0x100;
    var c1 := ByteStep(c, b3);
    var c2 := ByteStep(c1, b2);
    var c3 := ByteStep(c2, b1);
    Pow32();
    Pow2Add(8, 8);
    XorDisjoint(b3, b2 * 0x1_0000, 24);
    XorDisjoint(b3 * 0x100 + b2, b1 * 0x100, 16);
    XorDisjoint(b3 * 0x1_0000 + b2 * 0x100 + b1, b0, 8);
    // after each byte the register is a shift of c xor the bytes so far
    ByteStepIsShift(c, b3);
    ByteStepIsShift(c1, b2);
    ByteStepIsShift(c2, b1);
    ByteStepIsShift(c3, b0);
    AddByte(c, w3, b2, 8, w2);
    AddByte(c, w3 + w2, b1, 16, w1);
    AddByte(c, w3 + w2 + w1, b0, 24, b0);
  }

  /** With c xor w shifted n places in the register, taking in byte b amounts to adding b, placed
      n bits below the top, to w. */
  lemma AddByte(c: Word, w: Word, b: Byte, n: nat, placed: Word)
    requires n <= 24 && placed * Pow2(n) == b * 0x100_0000 && Xor(w, placed) == w + placed < WORD_LIMIT
    ensures ShiftN(XorWord(ShiftN(XorWord(c, w), n), b * 0x100_0000), 8) ==
            ShiftN(XorWord(c, w + placed), n + 8)
  {
    hide Xor, ShiftN;
    ShiftLow(placed, n);
    ShiftNXor(XorWord(c, w), placed, n);
    XorAssoc(c, w, placed);
    ShiftNAdd(XorWord(c, w + placed), n, 8);
  }

  lemma WordBytes(c: Word, w: Word)
    ensures Register(c, BigEndian(w)) == ShiftN(XorWord(c, w), 32)
  {
    hide Register, ShiftN, XorWord;
    FromBytes(w);
    FourBytes(c, w / 0x100_0000, w / 0x1_0000 % 0x100, w / 0x100 % 0x100, w % 0x100);
  }

  /** A change confined to four consecutive bytes is always detected. */
  lemma BurstIsDetected(before: seq<Byte>, x: Word, y: Word, after: seq<Byte>)
    requires x != y
    ensures Crc(before + BigEndian(x) + after) != Crc(before + BigEndian(y) + after)
  {
    hide Register, Xor, ShiftN, Crc, BigEndian;
    var c := Register(ONES, before);
    forall w: Word
      ensures Crc(before + BigEndian(w) + after) == NotWord(Register(ShiftN(XorWord(c, w), 32), after))
    {
      RegisterIsFeed(before + BigEndian(w) + after);
      RegisterConcat(ONES, before + BigEndian(w), after);
      RegisterConcat(ONES, before, BigEndian(w));
      WordBytes(c, w);
    }
    if Crc(before + BigEndian(x) + after) == Crc(before + BigEndian(y) + after) {
      RegisterIsInjective(ShiftN(XorWord(c, x), 32), ShiftN(XorWord(c, y), 32), after);
      ShiftNInjective(XorWord(c, x), XorWord(c, y), 32);
      XorCancel(c, x);
      XorCancel(c, y);
    }
  }

  /** Appending the checksum, most significant byte first, leaves the same checksum whatever the
      message was: that of four zero bytes. */
  lemma ChecksumOfChecked(m: seq<Byte>)
    ensures Crc(m + BigEndian(Crc(m))) == Crc([0, 0, 0, 0])
  {
    hide Register, Xor, ShiftN, Crc, BigEndian;
    var c := Register(ONES, m);
    RegisterIsFeed(m);
    RegisterIsFeed(m + BigEndian(Crc(m)));
    RegisterConcat(ONES, m, BigEndian(Crc(m)));
    WordBytes(c, Crc(m));
    Pow32();
    XorOnes(c, 32);
    XorCancel(c, ONES);
    XorAssoc(c, c, ONES);
    XorSelf(c);
    XorZero(ONES);
    XorComm(0, ONES);
    assert XorWord(c, Crc(m)) == ONES;
    FourBytes(ONES, 0, 0, 0, 0);
    RegisterIsFeed([0, 0, 0, 0]);
  }

  function XorBytes(a: seq<Byte>, b: seq<Byte>): seq<Byte>
    requires |a| == |b|
  {
    if a == [] then [] else
      XorByteBound(a[0], b[0]);
      [Xor(a[0], b[0])] + XorBytes(a[1..], b[1..])
  }

  lemma XorByteBound(a: Byte, b: Byte)
    ensures Xor(a, b) < 0x100
    ensures Xor(a * 0x100_0000, b * 0x100_0000) == Xor(a, b) * 0x100_0000
  {
    hide Xor;
    Pow32();
    XorBound(a, b, 8);
    XorSplit(a, 0, b, 0, 24);
    XorZero(0);
  }

  /** The register is a linear function of its start value and the message together. */
  lemma {:induction false} RegisterIsLinear(c: Word, d: Word, a: seq<Byte>, b: seq<Byte>)
    requires |a| == |b|
    ensures Register(XorWord(c, d), XorBytes(a, b)) == XorWord(Register(c, a), Register(d, b))
    decreases |a|
  {
    hide Register, ByteStep, Xor, ShiftN;
    if a == [] {
      RegisterEmpty(c);
      RegisterEmpty(d);
      RegisterEmpty(XorWord(c, d));
    } else {
      RegisterStep(c, a);
      RegisterStep(d, b);
      RegisterStep(XorWord(c, d), XorBytes(a, b));
      RegisterIsLinear(ByteStep(c, a[0]), ByteStep(d, b[0]), a[1..], b[1..]);
      XorByteBound(a[0], b[0]);
      ByteStepIsShift(c, a[0]);
      ByteStepIsShift(d, b[0]);
      ByteStepIsShift(XorWord(c, d), XorBytes(a, b)[0]);
      var a0: nat, b0: nat := a[0], b[0];
      var x: Word, y: Word := a0 * 0x100_0000, b0 * 0x100_0000;
      XorSwapMiddle(c, d, x, y);
      ShiftNXor(XorWord(c, x), XorWord(d, y), 8);
    }
  }

  /** Which errors go undetected depends on the error pattern alone, not on the message. */
  lemma DetectionDependsOnThePattern(m: seq<Byte>, e: seq<Byte>)
    requires |m| == |e|
    ensures Crc(XorBytes(m, e)) == Crc(m) <==> Register(0, e) == 0
  {
    hide Register, Xor, XorBytes, Crc;
    RegisterIsFeed(m);
    RegisterIsFeed(XorBytes(m, e));
    XorZero(ONES);
    RegisterIsLinear(ONES, 0, m, e);
    XorZero(Register(ONES, m));
    XorCancel(Register(0, e), Register(ONES, m));
    XorComm(Register(0, e), Register(ONES, m));
    XorSelf(Register(ONES, m));
  }

  // ------------------------------------------------------------------ bursts of bits

  function Zeros(n: nat): seq<bool> { seq(n, _ => false) }

  lemma {:induction false} ZerosFromZero(n: nat)
    ensures Feed(0, Zeros(n)) == 0
    decreases n
  {
    if n != 0 {
      assert Zeros(n)[1..] == Zeros(n - 1) && BitStep(0, false) == 0;
      ZerosFromZero(n - 1);
    }
  }

  lemma {:induction false} ZerosKeepNonzero(c: Word, n: nat)
    requires c != 0
    ensures Feed(c, Zeros(n)) != 0
    decreases n
  {
    hide Xor;
    if n != 0 {
      assert Zeros(n)[1..] == Zeros(n - 1) && BitStep(c, false) == Shift(c);
      ShiftNonzero(c);
      ZerosKeepNonzero(Shift(c), n - 1);
    }
  }

  /** A word whose top m bits, and no others, may be set is even when m is below 32. */
  lemma LowBitIsZero(w: Word, m: nat)
    requires m < 32 && DblN(w, m) == 0
    ensures w % 2 == 0
  {
    hide DblN, Pow2;
    DblNValue(w, m);
    assert w % WORD_LIMIT == w;
    Pow32();
    Pow2Add(32 - m, m);
    var k := w * Pow2(m) / WORD_LIMIT;
    assert w * Pow2(m) == k * WORD_LIMIT;
    CancelFactor(w, k * Pow2(32 - m), Pow2(m), k, Pow2(32 - m));
    EvenPower(32 - m);
    EvenMultiple(k, Pow2(32 - m));
  }

  lemma CancelFactor(w: nat, v: nat, f: nat, k: nat, g: nat)
    requires f >= 1 && v == k * g && w * f == k * (g * f)
    ensures w == v
  {
    assert k * (g * f) == v * f;
    var x: int := (w as int) - v;
    assert x * f == w * f - v * f == 0;
    ZeroFactor(x, f);
  }

  lemma ZeroFactor(x: int, f: nat)
    requires x * f == 0 && f >= 1
    ensures x == 0
  {
  }

  lemma EvenPower(n: nat)
    requires n >= 1
    ensures Pow2(n) % 2 == 0
  {
  }

  lemma EvenMultiple(k: nat, g: nat)
    requires g % 2 == 0
    ensures (k * g) % 2 == 0
  {
    var h := g / 2;
    assert k * g == 2 * (k * h);
  }

  /** The low bit of a step tells whether the generator was subtracted. */
  lemma EvenStep(c: Word, bit: bool)
    requires BitStep(c, bit) % 2 == 0
    ensures TopSet(c) == bit && BitStep(c, bit) == Dbl(c)
  {
    hide Xor;
    XorBit(Dbl(c), POLY);
  }

  /** Up to 32 bits bring a register to zero only if they are its own top bits and all it has. */
  lemma {:induction false} FedToZero(c: Word, bits: seq<bool>)
    requires |bits| <= 32 && Feed(c, bits) == 0
    ensures TopBits(c, |bits|) == bits && DblN(c, |bits|) == 0
    decreases |bits|
  {
    hide BitStep, Dbl, TopSet;
    if bits != [] {
      var next := BitStep(c, bits[0]);
      FedToZero(next, bits[1..]);
      LowBitIsZero(next, |bits| - 1);
      EvenStep(c, bits[0]);
    }
  }

  lemma {:induction false} TopBitsOfZero(n: nat)
    ensures TopBits(0, n) == Zeros(n)
    decreases n
  {
    if n != 0 { TopBitsOfZero(n - 1); }
  }

  /** A change confined to 32 consecutive bits, wherever they lie, is always detected. */
  lemma BitBurstIsDetected(m: seq<Byte>, e: seq<Byte>, a: nat, burst: seq<bool>, b: nat)
    requires |m| == |e| && |burst| <= 32 && true in burst
    requires MessageBits(e) == Zeros(a) + burst + Zeros(b)
    ensures Crc(XorBytes(m, e)) != Crc(m)
  {
    hide Feed, TopBits, Crc, MessageBits, Xor, XorBytes;
    DetectionDependsOnThePattern(m, e);
    FeedConcat(0, Zeros(a) + burst, Zeros(b));
    FeedConcat(0, Zeros(a), burst);
    ZerosFromZero(a);
    var c := Feed(0, burst);
    if c == 0 {
      FedToZero(0, burst);
      TopBitsOfZero(|burst|);
      assert false;
    }
    ZerosKeepNonzero(c, b);
  }
}
