/** The CRC-32 of crc.cc: a lazily built byte table.  The specification is bit-serial: a 32-bit
    register that takes in one message bit at a time, most significant bit of each byte first,
    preset to ones and complemented at the end.  CrcPolynomial.dfy says what that register is in
    terms of polynomials. */
module Crc32 {
  import opened Words

  const POLY: Word := 0x04c11db7
  const ONES: Word := 0xffff_ffff

  // ------------------------------------------------------------------ specification

  predicate TopSet(c: Word) { c >= 0x8000_0000 }

  /** `c << 1` on 32 bits. */
  function Dbl(c: Word): Word { (2 * c) % WORD_LIMIT }

  /** One step of bit-serial division: take in one message bit. */
  function BitStep(c: Word, bit: bool): Word {
    if TopSet(c) != bit then XorWord(Dbl(c), POLY) else Dbl(c)
  }

  function Feed(c: Word, bits: seq<bool>): Word
    decreases |bits|
  {
    if bits == [] then c else Feed(BitStep(c, bits[0]), bits[1..])
  }

  /** The n most significant bits of a word, first bit first. */
  function TopBits(w: Word, n: nat): (bits: seq<bool>)
    ensures |bits| == n
    decreases n
  {
    if n == 0 then [] else [TopSet(w)] + TopBits(Dbl(w), n - 1)
  }

  function ByteBits(b: Byte): seq<bool> { TopBits(b * 0x100_0000, 8) }

  function MessageBits(buf: seq<Byte>): seq<bool> {
    if buf == [] then [] else ByteBits(buf[0]) + MessageBits(buf[1..])
  }

  function Crc(buf: seq<Byte>): Word { NotWord(Feed(ONES, MessageBits(buf))) }

  // ------------------------------------------------------------------ shifting is linear

  function Shift(c: Word): Word {
    if TopSet(c) then XorWord(Dbl(c), POLY) else Dbl(c)
  }

  function ShiftN(c: Word, n: nat): Word
    decreases n
  {
    if n == 0 then c else ShiftN(Shift(c), n - 1)
  }

  function Low31(c: Word): Word { if TopSet(c) then c - 0x8000_0000 else c }

  /** A word is its top bit and the rest, and exclusive or works on both separately. */
  lemma XorTop(c: Word, d: Word)
    ensures TopSet(XorWord(c, d)) == (TopSet(c) != TopSet(d))
    ensures Low31(XorWord(c, d)) == Xor(Low31(c), Low31(d))
    ensures Dbl(XorWord(c, d)) == XorWord(Dbl(c), Dbl(d))
  {
    hide Xor, Pow2, TopSet, Low31, Dbl;
    Pow32();
    var u, v := TopBit(c), TopBit(d);
    var a, b := Low31(c), Low31(d);
    TopAndRest(c);
    TopAndRest(d);
    XorSplit(u, a, v, b, 31);
    XorBits();
    assert XorWord(c, d) == Xor(u, v) * 0x8000_0000 + Xor(a, b);
    DblOf(u, a);
    DblOf(v, b);
    DblOf(Xor(u, v), Xor(a, b));
    XorDouble(a, b);
  }

  function TopBit(c: Word): nat { if TopSet(c) then 1 else 0 }

  lemma TopAndRest(c: Word)
    ensures c == TopBit(c) * 0x8000_0000 + Low31(c) && Low31(c) < 0x8000_0000
  {
  }

  lemma DblOf(t: nat, low: nat)
    requires t < 2 && low < 0x8000_0000
    ensures t * 0x8000_0000 + low < WORD_LIMIT
    ensures Dbl(t * 0x8000_0000 + low) == 2 * low && Low31(t * 0x8000_0000 + low) == low
    ensures TopSet(t * 0x8000_0000 + low) <==> t == 1
  {
  }

  lemma XorBits()
    ensures Xor(0, 0) == 0 && Xor(0, 1) == 1 && Xor(1, 0) == 1 && Xor(1, 1) == 0
  {
    XorSelf(0);
    XorSelf(1);
    XorZero(1);
    XorComm(0, 1);
  }

  lemma XorDouble(a: nat, b: nat)
    ensures Xor(2 * a, 2 * b) == 2 * Xor(a, b)
  {
    hide Xor;
    XorBit(2 * a, 2 * b);
    Halves(a, 0);
    Halves(b, 0);
    Halves(a + b, 0);
  }

  lemma ShiftXor(c: Word, d: Word)
    ensures Shift(XorWord(c, d)) == XorWord(Shift(c), Shift(d))
  {
    hide Xor, Dbl;
    XorTop(c, d);
    XorAssoc(Dbl(c), Dbl(d), POLY);
    XorSwapMiddle(Dbl(c), POLY, Dbl(d), POLY);
    XorSelf(POLY);
    XorZero(Xor(Dbl(c), Dbl(d)));
    XorAssoc(Dbl(c), POLY, Dbl(d));
    XorComm(POLY, Dbl(d));
    XorAssoc(Dbl(c), Dbl(d), POLY);
  }

  lemma {:induction false} ShiftNXor(c: Word, d: Word, n: nat)
    ensures ShiftN(XorWord(c, d), n) == XorWord(ShiftN(c, n), ShiftN(d, n))
    decreases n
  {
    hide XorWord, Shift;
    if n != 0 {
      ShiftXor(c, d);
      ShiftNXor(Shift(c), Shift(d), n - 1);
    }
  }

  lemma ShiftNonzero(c: Word)
    requires c != 0
    ensures Shift(c) != 0
  {
    hide Xor;
    if TopSet(c) {
      XorBit(Dbl(c), POLY);  // POLY is odd and Dbl(c) even
      assert Dbl(c) % 2 == 0;
    }
  }

  lemma {:induction false} ShiftNNonzero(c: Word, n: nat)
    requires c != 0
    ensures ShiftN(c, n) != 0
    decreases n
  {
    hide Shift;
    if n != 0 {
      ShiftNonzero(c);
      ShiftNNonzero(Shift(c), n - 1);
    }
  }

  /** Every number of shifts is a bijection on the register. */
  lemma ShiftNInjective(c: Word, d: Word, n: nat)
    requires ShiftN(c, n) == ShiftN(d, n)
    ensures c == d
  {
    hide Xor;
    ShiftNXor(c, d, n);
    XorEqual(ShiftN(c, n), ShiftN(d, n));
    XorEqual(c, d);
    if c != d { ShiftNNonzero(XorWord(c, d), n); }
  }

  lemma {:induction false} ShiftNAdd(c: Word, m: nat, n: nat)
    ensures ShiftN(c, m + n) == ShiftN(ShiftN(c, m), n)
    decreases m
  {
    hide Shift;
    if m != 0 { ShiftNAdd(Shift(c), m - 1, n); }
  }

  lemma DoubleFits(c: Word, q: nat)
    requires q >= 1 && c * (2 * q) < WORD_LIMIT
    ensures (2 * c) * q == c * (2 * q) && 2 * c < WORD_LIMIT
    ensures Shift(c) == 2 * c
  {
    assert (2 * c) * q == c * (2 * q);
    assert (2 * c) * q == 2 * c + (2 * c) * (q - 1);
  }

  /** Shifting a word whose top n bits are clear is multiplication. */
  lemma {:induction false} ShiftLow(c: Word, n: nat)
    requires c * Pow2(n) < WORD_LIMIT
    ensures ShiftN(c, n) == c * Pow2(n)
    decreases n
  {
    if n != 0 {
      DoubleFits(c, Pow2(n - 1));
      ShiftLow(2 * c, n - 1);
    }
  }

  // ------------------------------------------------------------------ the byte table

  lemma StepIsShift(c: Word, w: Word)
    ensures XorWord(BitStep(c, TopSet(w)), Dbl(w)) == Shift(XorWord(c, w))
  {
    hide Xor, Dbl;
    XorTop(c, w);
    XorAssoc(Dbl(c), POLY, Dbl(w));
    XorComm(POLY, Dbl(w));
    XorAssoc(Dbl(c), Dbl(w), POLY);
  }

  function DblN(w: Word, n: nat): Word
    decreases n
  {
    if n == 0 then w else DblN(Dbl(w), n - 1)
  }

  /** Feeding the top n bits of w is shifting c xor w, up to what is left of w. */
  lemma {:induction false} FeedTopBits(c: Word, w: Word, n: nat)
    ensures XorWord(Feed(c, TopBits(w, n)), DblN(w, n)) == ShiftN(XorWord(c, w), n)
    decreases n
  {
    hide XorWord, Shift, BitStep, Dbl, TopSet;
    if n != 0 {
      StepIsShift(c, w);
      FeedTopBits(BitStep(c, TopSet(w)), Dbl(w), n - 1);
      assert TopBits(w, n)[1..] == TopBits(Dbl(w), n - 1);
    }
  }

  lemma DblWrapped(w: nat)
    ensures Dbl(w % WORD_LIMIT) == (2 * w) % WORD_LIMIT
  {
    assert 2 * w == 2 * (w % WORD_LIMIT) + WORD_LIMIT * (2 * (w / WORD_LIMIT));
  }

  lemma {:induction false} DblNValue(w: nat, n: nat)
    ensures DblN(w % WORD_LIMIT, n) == (w * Pow2(n)) % WORD_LIMIT
    decreases n
  {
    if n != 0 {
      DblWrapped(w);
      DblNValue(2 * w, n - 1);
      assert w * Pow2(n) == 2 * w * Pow2(n - 1);
    }
  }

  lemma ByteRunsOut(b: Byte)
    ensures DblN(b * 0x100_0000, 8) == 0
  {
    hide DblN, Pow2;
    DblNValue(b * 0x100_0000, 8);
    Pow32();
    assert b * 0x100_0000 * 0x100 == b * WORD_LIMIT;
  }

  /** What the table holds at index i. */
  function Entry(i: Byte): Word { ShiftN(i * 0x100_0000, 8) }

  /** One round of the loop of `crc32`. */
  function ByteStep(c: Word, b: Byte): Word {
    Pow32();
    XorBound(c / 0x100_0000, b, 8);
    XorWord((c * 0x100) % WORD_LIMIT, Entry(Xor(c / 0x100_0000, b)))
  }

  lemma ByteStepIsShift(c: Word, b: Byte)
    ensures ByteStep(c, b) == ShiftN(XorWord(c, b * 0x100_0000), 8)
  {
    hide Xor, ShiftN;
    Pow32();
    var high, low := c / 0x100_0000, c % 0x100_0000;
    XorBound(high, b, 8);
    var index := Xor(high, b);
    XorSplit(high, low, b, 0, 24);
    XorSplit(index, 0, 0, low, 24);
    XorZero(low);
    XorZero(index);
    XorComm(low, 0);
    assert XorWord(c, b * 0x100_0000) == XorWord(index * 0x100_0000, low);
    ShiftNXor(index * 0x100_0000, low, 8);
    ShiftLow(low, 8);
    XorComm(Entry(index), low * 0x100);
    assert (c * 0x100) % WORD_LIMIT == low * 0x100;
  }

  /** The table-driven step takes in a whole byte as eight bit-serial steps do. */
  lemma ByteStepIsFeed(c: Word, b: Byte)
    ensures ByteStep(c, b) == Feed(c, ByteBits(b))
  {
    hide Xor, ShiftN, ByteStep, Feed;
    ByteStepIsShift(c, b);
    FeedTopBits(c, b * 0x100_0000, 8);
    ByteRunsOut(b);
    XorZero(Feed(c, ByteBits(b)));
  }

  lemma {:induction false} FeedConcat(c: Word, a: seq<bool>, b: seq<bool>)
    ensures Feed(c, a + b) == Feed(Feed(c, a), b)
    decreases |a|
  {
    hide BitStep;
    if a == [] {
      assert a + b == b;
    } else {
      assert (a + b)[1..] == a[1..] + b;
      FeedConcat(BitStep(c, a[0]), a[1..], b);
    }
  }

  function Register(c: Word, buf: seq<Byte>): Word { Feed(c, MessageBits(buf)) }

  lemma RegisterStep(c: Word, buf: seq<Byte>)
    requires buf != []
    ensures Register(c, buf) == Register(ByteStep(c, buf[0]), buf[1..])
  {
    hide ByteStep, Feed;
    FeedConcat(c, ByteBits(buf[0]), MessageBits(buf[1..]));
    ByteStepIsFeed(c, buf[0]);
  }

  lemma {:induction false} RegisterConcat(c: Word, a: seq<Byte>, b: seq<Byte>)
    ensures Register(c, a + b) == Register(Register(c, a), b)
    decreases |a|
  {
    hide ByteStep, Register;
    if a == [] {
      assert a + b == b;
      RegisterEmpty(c);
    } else {
      RegisterStep(c, a);
      RegisterStep(c, a + b);
      assert (a + b)[1..] == a[1..] + b;
      RegisterConcat(ByteStep(c, a[0]), a[1..], b);
    }
  }

  lemma RegisterEmpty(c: Word)
    ensures Register(c, []) == c
  {
  }

  /** The static table of crc.cc and its two functions. */
  class Crc32Code {
    const table: array<Word>

    ghost predicate Built()
      reads table
    {
      table.Length == 0x100 && forall i: Byte :: table[i] == Entry(i)
    }

    /** The table is zero-initialised; a set entry 1 means that it has been built. */
    ghost predicate Valid()
      reads table
    {
      table.Length == 0x100 && (table[1] != 0 ==> Built())
    }

    constructor ()
      ensures Valid() && fresh(table)
    {
      table := new Word[0x100](_ => 0);
    }

    method InitCrc32()
      requires table.Length == 0x100
      modifies table
      ensures Built()
    {
      hide ShiftN, Xor;
      var i := 0;
      while i < 0x100
        invariant 0 <= i <= 0x100
        invariant forall k: Byte :: k < i ==> table[k] == Entry(k)
      {
        var c: Word := i * 0x100_0000;
        var j := 8;
        while j > 0
          invariant 0 <= j <= 8
          invariant ShiftN(c, j) == Entry(i)
          invariant forall k: Byte :: k < i ==> table[k] == Entry(k)
        {
          ShiftNAdd(c, 1, j - 1);
          ShiftOnce(c);
          c := if TopSet(c) then XorWord(Dbl(c), POLY) else Dbl(c);
          j := j - 1;
        }
        ShiftNone(c);
        table[i] := c;
        i := i + 1;
      }
    }

    /** Whatever state the lazily built table is in, the result is the bit-serial checksum. */
    method Crc32(buf: seq<Byte>) returns (r: Word)
      requires Valid()
      modifies table
      ensures Valid() && Built() && table[1] != 0
      ensures r == Crc(buf)
    {
      hide Xor, Register, Entry;
      if table[1] == 0 { InitCrc32(); }
      var crc: Word := ONES;
      var p := 0;
      assert buf[0..] == buf;
      while p < |buf|
        invariant 0 <= p <= |buf| && Built()
        invariant Register(crc, buf[p..]) == Register(ONES, buf)
      {
        RegisterStep(crc, buf[p..]);
        assert buf[p..][1..] == buf[p + 1..];
        Pow32();
        XorBound(crc / 0x100_0000, buf[p], 8);
        crc := XorWord((crc * 0x100) % WORD_LIMIT, table[Xor(crc / 0x100_0000, buf[p])]);
        p := p + 1;
      }
      assert buf[p..] == [];
      RegisterEmpty(crc);
      RegisterIsFeed(buf);
      EntryOneIsSet();
      r := NotWord(crc);
    }
  }

  lemma ShiftOnce(c: Word)
    ensures ShiftN(c, 1) == Shift(c)
  {
    hide Shift;
    assert ShiftN(c, 1) == ShiftN(Shift(c), 0);
  }

  lemma ShiftNone(c: Word)
    ensures ShiftN(c, 0) == c
  {
  }

  lemma RegisterIsFeed(buf: seq<Byte>)
    ensures Crc(buf) == NotWord(Register(ONES, buf))
  {
  }

  /** A built table passes the lazy test: its entry 1 is not zero. */
  lemma EntryOneIsSet()
    ensures Entry(1) != 0
  {
    ShiftNNonzero(0x100_0000, 8);
  }
}
