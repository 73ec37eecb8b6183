/** Machine words as natural numbers, with the bitwise operators of C defined bit by bit. */
module Words {
  import opened Arithmetic

  const WORD_LIMIT := 0x1_0000_0000
  type Word = x: nat | x < WORD_LIMIT
  type Byte = x: nat | x < 0x100

  function Pow2(n: nat): nat
    ensures Pow2(n) >= 1
  {
    if n == 0 then 1 else 2 * Pow2(n - 1)
  }

  function Xor(a: nat, b: nat): nat
    decreases a + b
  {
    if a == 0 && b == 0 then 0 else 2 * Xor(a / 2, b / 2) + (a + b) % 2
  }

  function And(a: nat, b: nat): nat {
    if a == 0 || b == 0 then 0 else 2 * And(a / 2, b / 2) + (if a % 2 == 1 && b % 2 == 1 then 1 else 0)
  }

  function Or(a: nat, b: nat): nat
    decreases a + b
  {
    if a == 0 && b == 0 then 0 else 2 * Or(a / 2, b / 2) + (if a % 2 + b % 2 > 0 then 1 else 0)
  }

  /** Division and remainder of 2 * q + r by 2. */
  lemma Halves(q: nat, r: nat)
    requires r < 2
    ensures (2 * q + r) / 2 == q && (2 * q + r) % 2 == r
  {
  }

  lemma {:induction false} XorComm(a: nat, b: nat)
    ensures Xor(a, b) == Xor(b, a)
    decreases a + b
  {
    if a != 0 || b != 0 { XorComm(a / 2, b / 2); }
  }

  lemma {:induction false} XorZero(a: nat)
    ensures Xor(a, 0) == a
  {
    if a != 0 { XorZero(a / 2); }
  }

  lemma {:induction false} XorSelf(a: nat)
    ensures Xor(a, a) == 0
  {
    if a != 0 { XorSelf(a / 2); }
  }

  lemma {:induction false} AndSelf(a: nat)
    ensures And(a, a) == a
  {
    if a != 0 { AndSelf(a / 2); }
  }

  lemma {:induction false} OrSelf(a: nat)
    ensures Or(a, a) == a
  {
    if a != 0 { OrSelf(a / 2); }
  }

  /** All ones are neutral for and, and absorb or. */
  lemma {:induction false} AndOrOnes(a: nat, n: nat)
    requires a < Pow2(n)
    ensures And(a, Pow2(n) - 1) == a && And(Pow2(n) - 1, a) == a
    ensures Or(a, Pow2(n) - 1) == Pow2(n) - 1 && Or(Pow2(n) - 1, a) == Pow2(n) - 1
    decreases n
  {
    if n != 0 {
      var m := Pow2(n - 1) - 1;
      assert Pow2(n) - 1 == 2 * m + 1;
      AndOrOnes(a / 2, n - 1);
      Halves(m, 1);
    }
  }

  lemma AndZero(a: nat)
    ensures And(a, 0) == 0 && And(0, a) == 0
  {
  }

  lemma {:induction false} OrZero(a: nat)
    ensures Or(a, 0) == a && Or(0, a) == a
  {
    if a != 0 { OrZero(a / 2); }
  }

  lemma {:induction false} XorOfZero(a: nat)
    ensures Xor(0, a) == a
  {
    XorComm(0, a);
    XorZero(a);
  }

  /** One bit of exclusive or, whether or not the operands are exhausted. */
  lemma XorBit(a: nat, b: nat)
    ensures Xor(a, b) / 2 == Xor(a / 2, b / 2) && Xor(a, b) % 2 == (a + b) % 2
  {
    XorUnfolds(a, b);
    hide Xor;
    Halves(Xor(a / 2, b / 2), (a + b) % 2);
  }

  lemma XorUnfolds(a: nat, b: nat)
    ensures Xor(a, b) == 2 * Xor(a / 2, b / 2) + (a + b) % 2
  {
    if a == 0 && b == 0 { assert Xor(0, 0) == 0; }
  }

  lemma AddParity(a: nat, b: nat, c: nat, x: nat, y: nat)
    requires x % 2 == (a + b) % 2 && y % 2 == (b + c) % 2
    ensures (x + c) % 2 == (a + y) % 2
  {
  }

  lemma SameHalves(u: nat, w: nat)
    requires u / 2 == w / 2 && u % 2 == w % 2
    ensures u == w
  {
  }

  lemma {:induction false} XorAssoc(a: nat, b: nat, c: nat)
    ensures Xor(Xor(a, b), c) == Xor(a, Xor(b, c))
    decreases a + b + c
  {
    hide Xor;
    if a + b + c == 0 {
      XorZero(0);
    } else {
      XorAssoc(a / 2, b / 2, c / 2);
      XorBit(a, b);
      XorBit(b, c);
      XorBit(Xor(a, b), c);
      XorBit(a, Xor(b, c));
      AddParity(a, b, c, Xor(a, b), Xor(b, c));
      SameHalves(Xor(Xor(a, b), c), Xor(a, Xor(b, c)));
    }
  }

  /** Exclusive or is its own inverse. */
  lemma XorCancel(a: nat, b: nat)
    ensures Xor(Xor(a, b), b) == a && Xor(b, Xor(b, a)) == a && Xor(Xor(a, b), a) == b
  {
    XorAssoc(a, b, b);
    XorAssoc(b, b, a);
    XorSelf(b);
    XorZero(a);
    XorComm(0, a);
    XorComm(a, b);
    XorAssoc(b, a, a);
    XorSelf(a);
    XorZero(b);
  }

  lemma XorEqual(a: nat, b: nat)
    ensures Xor(a, b) == 0 <==> a == b
  {
    hide Xor;
    XorSelf(a);
    XorCancel(a, b);
    XorOfZero(b);
  }

  /** Moving one operand of a four-way exclusive or. */
  lemma XorSwapMiddle(a: nat, b: nat, c: nat, d: nat)
    ensures Xor(Xor(a, b), Xor(c, d)) == Xor(Xor(a, c), Xor(b, d))
  {
    XorAssoc(a, b, Xor(c, d));
    XorAssoc(b, c, d);
    XorComm(b, c);
    XorAssoc(c, b, d);
    XorAssoc(a, c, Xor(b, d));
  }

  /** Exclusive or works separately on the bits above and below position n. */
  lemma {:induction false} XorSplit(u: nat, a: nat, v: nat, b: nat, n: nat)
    requires a < Pow2(n) && b < Pow2(n)
    ensures Xor(u * Pow2(n) + a, v * Pow2(n) + b) == Xor(u, v) * Pow2(n) + Xor(a, b)
    ensures Xor(a, b) < Pow2(n)
    decreases n
  {
    hide Xor;
    if n == 0 {
      XorZero(0);
    } else {
      var q := Pow2(n - 1);
      XorSplit(u, a / 2, v, b / 2, n - 1);
      SplitHalf(u, a, q);
      SplitHalf(v, b, q);
      SplitHalf(Xor(u, v), Xor(a, b), q);
      XorBit(a, b);
      XorByHalves(u * (2 * q) + a, v * (2 * q) + b, a, b, Xor(u, v) * (2 * q) + Xor(a, b));
    }
  }

  /** x is the exclusive or of c and d when it agrees with it on the lowest bit and above. */
  lemma XorByHalves(c: nat, d: nat, a: nat, b: nat, x: nat)
    requires x / 2 == Xor(c / 2, d / 2) && x % 2 == (a + b) % 2
    requires c % 2 == a % 2 && d % 2 == b % 2
    ensures x == Xor(c, d)
  {
    XorBit(c, d);
    SameParity(c, a, d, b);
    hide Xor;
  }

  lemma SameParity(c: nat, a: nat, d: nat, b: nat)
    requires c % 2 == a % 2 && d % 2 == b % 2
    ensures (c + d) % 2 == (a + b) % 2
  {
  }

  lemma SplitHalf(u: nat, a: nat, q: nat)
    ensures (u * (2 * q) + a) / 2 == u * q + a / 2 && (u * (2 * q) + a) % 2 == a % 2
    ensures u * (2 * q) == 2 * (u * q)
  {
    assert u * (2 * q) == 2 * (u * q);
  }

  lemma XorBound(a: nat, b: nat, n: nat)
    requires a < Pow2(n) && b < Pow2(n)
    ensures Xor(a, b) < Pow2(n)
  {
    XorSplit(0, a, 0, b, n);
  }

  lemma {:induction false} AndOrBound(a: nat, b: nat, n: nat)
    requires a < Pow2(n) && b < Pow2(n)
    ensures And(a, b) < Pow2(n) && Or(a, b) < Pow2(n)
  {
    if n != 0 { AndOrBound(a / 2, b / 2, n - 1); }
  }

  /** Complement is exclusive or with all ones. */
  lemma {:induction false} XorOnes(a: nat, n: nat)
    requires a < Pow2(n)
    ensures Xor(a, Pow2(n) - 1) == Pow2(n) - 1 - a
  {
    hide Xor;
    if n == 0 {
      XorZero(0);
    } else {
      var m := Pow2(n - 1) - 1;
      XorOnes(a / 2, n - 1);
      Halves(m, 1);
      XorBit(a, 2 * m + 1);
      OnesByHalves(a, m, Xor(a, 2 * m + 1));
    }
  }

  lemma OnesByHalves(a: nat, m: nat, x: nat)
    requires x / 2 == m - a / 2 && x % 2 == (a + 2 * m + 1) % 2
    ensures x == 2 * m + 1 - a
  {
  }

  lemma Pow32()
    ensures Pow2(32) == WORD_LIMIT && Pow2(31) == 0x8000_0000 && Pow2(24) == 0x100_0000 && Pow2(8) == 0x100
  {
    assert Pow2(8) == 0x100;
    Pow2Add(8, 8);
    Pow2Add(16, 8);
    Pow2Add(24, 7);
    Pow2Add(24, 8);
  }

  lemma {:induction false} Pow2Add(m: nat, n: nat)
    ensures Pow2(m + n) == Pow2(m) * Pow2(n)
    decreases n
  {
    if n != 0 { Pow2Add(m, n - 1); }
  }

  // ------------------------------------------------------------------ bits

  /** Bit i of the binary representation of c. */
  predicate Bit(c: nat, i: nat)
    decreases i
  {
    if i == 0 then c % 2 == 1 else Bit(c / 2, i - 1)
  }

  lemma {:induction false} BitsOfXor(a: nat, b: nat, i: nat)
    ensures Bit(Xor(a, b), i) <==> Bit(a, i) != Bit(b, i)
    decreases i
  {
    hide Xor;
    XorBit(a, b);
    if i != 0 { BitsOfXor(a / 2, b / 2, i - 1); }
  }

  lemma AndBit(a: nat, b: nat)
    ensures And(a, b) / 2 == And(a / 2, b / 2) && And(a, b) % 2 == (if a % 2 == 1 && b % 2 == 1 then 1 else 0)
  {
    if a == 0 || b == 0 { assert And(a, b) == And(a / 2, b / 2) == 0; }
  }

  lemma {:induction false} BitsOfAnd(a: nat, b: nat, i: nat)
    ensures Bit(And(a, b), i) <==> Bit(a, i) && Bit(b, i)
    decreases i
  {
    hide And;
    AndBit(a, b);
    if i != 0 { BitsOfAnd(a / 2, b / 2, i - 1); }
  }

  lemma OrBit(a: nat, b: nat)
    ensures Or(a, b) / 2 == Or(a / 2, b / 2) && Or(a, b) % 2 == (if a % 2 + b % 2 > 0 then 1 else 0)
  {
    if a == 0 && b == 0 { assert Or(0, 0) == 0; }
  }

  lemma {:induction false} BitsOfOr(a: nat, b: nat, i: nat)
    ensures Bit(Or(a, b), i) <==> Bit(a, i) || Bit(b, i)
    decreases i
  {
    hide Or;
    OrBit(a, b);
    if i != 0 { BitsOfOr(a / 2, b / 2, i - 1); }
  }

  lemma {:induction false} BitsOfOnes(n: nat, i: nat)
    ensures Bit(Pow2(n) - 1, i) <==> i < n
    decreases n
  {
    if n == 0 {
      BitsOfZero(i);
    } else {
      Halves(Pow2(n - 1) - 1, 1);
      if i != 0 { BitsOfOnes(n - 1, i - 1); }
    }
  }

  lemma {:induction false} BitsOfZero(i: nat)
    ensures !Bit(0, i)
    decreases i
  {
    if i != 0 { BitsOfZero(i - 1); }
  }

  lemma BitsOfNot(a: Word, i: nat)
    requires i < 32
    ensures Bit(NotWord(a), i) <==> !Bit(a, i)
  {
    hide Xor, Bit, Pow2;
    Pow32();
    XorOnes(a, 32);
    BitsOfXor(a, Pow2(32) - 1, i);
    BitsOfOnes(32, i);
  }

  /** The bits are the binary digits. */
  lemma {:induction false} BitIsDigit(c: nat, i: nat)
    ensures Bit(c, i) <==> c / Pow2(i) % 2 == 1
    decreases i
  {
    if i != 0 {
      BitIsDigit(c / 2, i - 1);
      DivideTwice(c, Pow2(i - 1));
    }
  }

  lemma DivideTwice(c: nat, q: nat)
    requires q > 0
    ensures c / 2 / q == c / (2 * q)
  {
    var a, r := c / (2 * q), c % (2 * q);
    assert c == 2 * q * a + r;
    assert c / 2 == q * a + r / 2;
    assert r / 2 < q;
    DivUnique(c / 2, q, a, r / 2);
  }

  /** A number below 2^n is determined by its bits below n. */
  lemma {:induction false} SameBits(a: nat, b: nat, n: nat)
    requires a < Pow2(n) && b < Pow2(n) && forall i: nat :: i < n ==> Bit(a, i) == Bit(b, i)
    ensures a == b
    decreases n
  {
    if n != 0 {
      assert Bit(a, 0) == Bit(b, 0);
      forall i: nat | i < n - 1 ensures Bit(a / 2, i) == Bit(b / 2, i) {
        assert Bit(a, i + 1) == Bit(b, i + 1);
      }
      SameBits(a / 2, b / 2, n - 1);
    }
  }

  /** Bits below n of u * 2^n + a are those of a, and bit n is u's lowest. */
  lemma {:induction false} BitsBelow(u: nat, a: nat, n: nat, i: nat)
    requires a < Pow2(n) && i <= n
    ensures Bit(u * Pow2(n) + a, i) == if i < n then Bit(a, i) else u % 2 == 1
    decreases n
  {
    if n != 0 {
      SplitHalf(u, a, Pow2(n - 1));
      if i != 0 { BitsBelow(u, a / 2, n - 1, i - 1); }
    }
  }

  lemma EvenBits(a: nat, i: nat)
    ensures Bit(2 * a, i) == (i > 0 && Bit(a, i - 1))
  {
  }

  // ------------------------------------------------------------------ 32-bit operations

  function XorWord(a: Word, b: Word): Word {
    Pow32();
    XorBound(a, b, 32);
    Xor(a, b)
  }

  function AndWord(a: Word, b: Word): Word {
    Pow32();
    AndOrBound(a, b, 32);
    And(a, b)
  }

  function OrWord(a: Word, b: Word): Word {
    Pow32();
    AndOrBound(a, b, 32);
    Or(a, b)
  }

  function NotWord(a: Word): Word { WORD_LIMIT - 1 - a }

  function ToWord(n: int): Word { n % WORD_LIMIT }

  function Bswap(a: Word): Word {
    (a % 0x100) * 0x100_0000 + (a / 0x100 % 0x100) * 0x1_0000 + (a / 0x1_0000 % 0x100) * 0x100 + a / 0x100_0000
  }

  lemma BswapTwice(a: Word)
    ensures Bswap(Bswap(a)) == a
  {
    var b0, b1, b2, b3 := a % 0x100, a / 0x100 % 0x100, a / 0x1_0000 % 0x100, a / 0x100_0000;
    FromBytes(a);
    Bytes(b0, b1, b2, b3);
    assert Bswap(a) == b0 * 0x100_0000 + b1 * 0x1_0000 + b2 * 0x100 + b3;
  }

  lemma FromBytes(a: nat)
    ensures a == a / 0x100_0000 * 0x100_0000 + a / 0x1_0000 % 0x100 * 0x1_0000 + a / 0x100 % 0x100 * 0x100 + a % 0x100
  {
    assert a / 0x1_0000 == a / 0x100 / 0x100 && a / 0x100_0000 == a / 0x1_0000 / 0x100;
  }

  /** A word is determined by its four bytes. */
  lemma Bytes(b3: nat, b2: nat, b1: nat, b0: nat)
    requires b3 < 0x100 && b2 < 0x100 && b1 < 0x100 && b0 < 0x100
    ensures var w := b3 * 0x100_0000 + b2 * 0x1_0000 + b1 * 0x100 + b0;
            && w % 0x100 == b0 && w / 0x100 % 0x100 == b1
            && w / 0x1_0000 % 0x100 == b2 && w / 0x100_0000 == b3
  {
    var w := b3 * 0x100_0000 + b2 * 0x1_0000 + b1 * 0x100 + b0;
    assert w == 0x100 * (b3 * 0x1_0000 + b2 * 0x100 + b1) + b0;
    assert w == 0x1_0000 * (b3 * 0x100 + b2) + (b1 * 0x100 + b0);
    assert w == 0x100_0000 * b3 + (b2 * 0x1_0000 + b1 * 0x100 + b0);
    assert w / 0x100 == b3 * 0x1_0000 + b2 * 0x100 + b1;
    assert b3 * 0x1_0000 + b2 * 0x100 + b1 == 0x100 * (b3 * 0x100 + b2) + b1;
  }
}
