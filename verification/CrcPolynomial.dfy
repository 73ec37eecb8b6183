/** What the checksum register of Crc32.dfy is, in terms of polynomials over the two-element field.
    A polynomial is the set of its exponents; addition is symmetric difference. */
module CrcPolynomial {
  import opened Words
  import opened Crc32

  type Poly = set<nat>

  ghost function Add(a: Poly, b: Poly): (r: Poly)
    ensures forall e :: e in r <==> (e in a) != (e in b)
  {
    (a - b) + (b - a)
  }

  /** a(x) * x^k */
  ghost function Raise(a: Poly, k: nat): (r: Poly)
    ensures forall e: nat {:trigger e in r} :: e in r <==> e >= k && e - k in a
  {
    var r := set e | e in a :: e + k;
    assert forall e: nat {:trigger e in r} :: e >= k && e - k in a ==> e in r by {
      forall e: nat | e >= k && e - k in a ensures e in r {
        var d: nat := e - k;
        assert d in a && d + k == e;
      }
    }
    r
  }

  /** The polynomial of degree below 32 that a register stands for. */
  ghost function OfWord(c: Word): Poly { set i: nat | i < 32 && Bit(c, i) }

  /** The generator of IEEE 802.3, section 3.2.9: x^32 + x^26 + x^23 + x^22 + x^16 + x^12 + x^11 + x^10 +
      x^8 + x^7 + x^5 + x^4 + x^2 + x + 1. */
  ghost function Generator(): Poly { {0, 1, 2, 4, 5, 7, 8, 10, 11, 12, 16, 22, 23, 26, 32} }

  /** A bit sequence as a polynomial, highest power first. */
  ghost function OfBits(bits: seq<bool>): Poly {
    if bits == [] then {} else
      var n := |bits| - 1;
      Add(Raise(OfBits(bits[..n]), 1), if bits[n] then {0} else {})
  }

  /** Generator times the polynomial of q, by Horner's rule. */
  ghost function Product(q: seq<bool>): Poly {
    if q == [] then {} else
      var n := |q| - 1;
      Add(Raise(Product(q[..n]), 1), if q[n] then Generator() else {})
  }

  /** What is divided: the message followed by 32 zero bits, plus the start value above it. */
  ghost function Dividend(c: Word, bits: seq<bool>): Poly {
    Add(Raise(OfBits(bits), 32), Raise(OfWord(c), |bits|))
  }

  /** The quotient the register forgets: the bit that decides each subtraction. */
  ghost function Quotient(c: Word, bits: seq<bool>): (q: seq<bool>)
    ensures |q| == |bits|
  {
    if bits == [] then [] else
      var n := |bits| - 1;
      Quotient(c, bits[..n]) + [TopSet(Feed(c, bits[..n])) != bits[n]]
  }

  // ------------------------------------------------------------------ bits of a register

  lemma FourBits(d: nat)
    requires d < 16
    ensures Bit(d, 0) <==> d in {1, 3, 5, 7, 9, 11, 13, 15}
    ensures Bit(d, 1) <==> d in {2, 3, 6, 7, 10, 11, 14, 15}
    ensures Bit(d, 2) <==> d in {4, 5, 6, 7, 12, 13, 14, 15}
    ensures Bit(d, 3) <==> d >= 8
  {
    assert Bit(d, 1) == Bit(d / 2, 0) && Bit(d, 2) == Bit(d / 2, 1) == Bit(d / 2 / 2, 0);
    assert Bit(d, 3) == Bit(d / 2, 2) == Bit(d / 2 / 2, 1) == Bit(d / 2 / 2 / 2, 0);
  }

  /** The bits of a number whose last hexadecimal digit is d. */
  lemma DigitBits(u: nat, d: nat, i: nat)
    requires d < 16
    ensures Bit(16 * u + d, i) <==> if i < 4 then Bit(d, i) else Bit(u, i - 4)
  {
    assert Pow2(4) == 16;
    var c := 16 * u + d;
    if i < 4 {
      BitsBelow(u, d, 4, i);
    } else {
      assert Bit(c, i) == Bit(c / 2, i - 1) == Bit(c / 2 / 2, i - 2) == Bit(c / 2 / 2 / 2, i - 3);
    }
  }

  /** The constant of the source has the bits of the generator below x^32. */
  lemma PolyBits(e: nat)
    requires e < 32
    ensures Bit(POLY, e) <==> e in {0, 1, 2, 4, 5, 7, 8, 10, 11, 12, 16, 22, 23, 26}
  {
    BitsOfZero(e % 4);
    FourBits(0x7);
    FourBits(0xb);
    FourBits(0xd);
    FourBits(0x1);
    FourBits(0xc);
    FourBits(0x4);
    hide Bit;
    DigitBits(0x04c11db, 0x7, e);
    if e >= 4 { DigitBits(0x04c11d, 0xb, e - 4); }
    if e >= 8 { DigitBits(0x04c11, 0xd, e - 8); }
    if e >= 12 { DigitBits(0x04c1, 0x1, e - 12); }
    if e >= 16 { DigitBits(0x04c, 0x1, e - 16); }
    if e >= 20 { DigitBits(0x04, 0xc, e - 20); }
    if e >= 24 { DigitBits(0x0, 0x4, e - 24); }
    if e >= 28 { DigitBits(0x0, 0x0, e - 28); }
  }

  /** The generator of the source is that of the standard. */
  lemma GeneratorExactly()
    ensures OfWord(POLY) + {32} == Generator() == {0, 1, 2, 4, 5, 7, 8, 10, 11, 12, 16, 22, 23, 26, 32}
  {
    hide Bit;
    forall e: nat | e < 32 ensures e in OfWord(POLY) <==> e in Generator() {
      PolyBits(e);
    }
  }

  lemma DblBits(c: Word, i: nat)
    requires i < 32
    ensures Bit(Dbl(c), i) == (i > 0 && Bit(c, i - 1))
    ensures Bit(c, 31) == TopSet(c)
  {
    hide Bit, Pow2, Dbl, TopSet, Low31;
    Pow32();
    var u, a := TopBit(c), Low31(c);
    TopAndRest(c);
    DblOf(u, a);
    BitsBelow(u, a, 31, 31);
    EvenBits(a, i);
    if 0 < i { BitsBelow(u, a, 31, i - 1); }
  }

  lemma StepBits(c: Word, bit: bool, e: nat)
    requires e < 32
    ensures Bit(BitStep(c, bit), e) == ((e > 0 && Bit(c, e - 1)) != (TopSet(c) != bit && Bit(POLY, e)))
  {
    hide Xor, Bit, Dbl, TopSet;
    DblBits(c, e);
    BitsOfXor(Dbl(c), POLY, e);
  }

  /** One register step is multiplication by x, minus the generator when x^32 appears. */
  lemma StepIsReduction(c: Word, bit: bool)
    ensures Add(Raise(OfWord(c), 1), if bit then {32} else {}) ==
            Add(if Bit(c, 31) != bit then {0, 1, 2, 4, 5, 7, 8, 10, 11, 12, 16, 22, 23, 26, 32} else {},
                OfWord(BitStep(c, bit)))
    ensures Bit(c, 31) <==> TopSet(c)
  {
    hide Xor, Bit, BitStep, TopSet, Dbl, Generator;
    GeneratorExactly();
    DblBits(c, 31);
    var left := Add(Raise(OfWord(c), 1), if bit then {32} else {});
    var right := Add(if TopSet(c) != bit then OfWord(POLY) + {32} else {}, OfWord(BitStep(c, bit)));
    forall e: nat ensures e in left <==> e in right {
      if e < 32 { StepBits(c, bit, e); }
    }
  }

  lemma {:induction false} FeedLast(c: Word, bits: seq<bool>)
    requires bits != []
    ensures Feed(c, bits) == BitStep(Feed(c, bits[..|bits| - 1]), bits[|bits| - 1])
  {
    var n := |bits| - 1;
    assert bits == bits[..n] + [bits[n]];
    FeedConcat(c, bits[..n], [bits[n]]);
    var d := Feed(c, bits[..n]);
    assert Feed(d, [bits[n]]) == Feed(BitStep(d, bits[n]), []);
  }

  /** The dividend grows by one power of x and one message bit. */
  lemma DividendStep(c: Word, bits: seq<bool>)
    requires bits != []
    ensures var n := |bits| - 1;
            Dividend(c, bits) == Add(Raise(Dividend(c, bits[..n]), 1), if bits[n] then {32} else {})
  {
    hide OfWord;
    var n := |bits| - 1;
    DividendAlgebra(OfBits(bits[..n]), bits[n], OfWord(c), n);
  }

  lemma DividendAlgebra(m: Poly, bit: bool, start: Poly, n: nat)
    ensures Add(Raise(Add(Raise(m, 1), if bit then {0} else {}), 32), Raise(start, n + 1)) ==
            Add(Raise(Add(Raise(m, 32), Raise(start, n)), 1), if bit then {32} else {})
  {
    var left := Add(Raise(Add(Raise(m, 1), if bit then {0} else {}), 32), Raise(start, n + 1));
    var right := Add(Raise(Add(Raise(m, 32), Raise(start, n)), 1), if bit then {32} else {});
    forall e: nat ensures e in left <==> e in right {
      InLeft(m, bit, start, n, e);
      InRight(m, bit, start, n, e);
    }
  }

  lemma InLeft(m: Poly, bit: bool, start: Poly, n: nat, e: nat)
    ensures e in Add(Raise(Add(Raise(m, 1), if bit then {0} else {}), 32), Raise(start, n + 1)) <==>
            (((e >= 33 && e - 33 in m) != (bit && e == 32)) != (e >= n + 1 && e - (n + 1) in start))
  {
    hide Add, Raise;
    var low: Poly := if bit then {0} else {};
    var inner := Add(Raise(m, 1), low);
    if e >= 32 { assert e - 32 in inner <==> (e - 32 in Raise(m, 1)) != (e - 32 in low); }
  }

  lemma InRight(m: Poly, bit: bool, start: Poly, n: nat, e: nat)
    ensures e in Add(Raise(Add(Raise(m, 32), Raise(start, n)), 1), if bit then {32} else {}) <==>
            (((e >= 33 && e - 33 in m) != (bit && e == 32)) != (e >= n + 1 && e - (n + 1) in start))
  {
    hide Add, Raise;
    var inner := Add(Raise(m, 32), Raise(start, n));
    if e >= 1 { assert e - 1 in inner <==> (e - 1 in Raise(m, 32)) != (e - 1 in Raise(start, n)); }
  }

  /** Division with remainder: dividend = quotient * generator + register, and the register's
      polynomial has degree below 32. */
  lemma {:induction false} RegisterIsARemainder(c: Word, bits: seq<bool>)
    ensures Dividend(c, bits) == Add(Product(Quotient(c, bits)), OfWord(Feed(c, bits)))
    decreases |bits|
  {
    hide Bit, Feed, BitStep;
    if bits == [] {
      FeedNothing(c);
    } else {
      var n := |bits| - 1;
      var r := Feed(c, bits[..n]);
      var q := Quotient(c, bits[..n]);
      RegisterIsARemainder(c, bits[..n]);
      DividendStep(c, bits);
      FeedLast(c, bits);
      StepIsReduction(r, bits[n]);
      var quotient := Quotient(c, bits);
      assert quotient[..n] == q;
      var left := Dividend(c, bits);
      var right := Add(Product(quotient), OfWord(Feed(c, bits)));
      Regroup(Product(q), OfWord(r), if bits[n] then {32} else {},
              if quotient[n] then Generator() else {}, OfWord(Feed(c, bits)));
    }
  }

  lemma FeedNothing(c: Word)
    ensures Feed(c, []) == c
  {
  }

  lemma Regroup(p: Poly, r: Poly, b: Poly, g: Poly, r': Poly)
    requires Add(Raise(r, 1), b) == Add(g, r')
    ensures Add(Raise(Add(p, r), 1), b) == Add(Add(Raise(p, 1), g), r')
  {
    var left, right := Add(Raise(Add(p, r), 1), b), Add(Add(Raise(p, 1), g), r');
    var via := Add(Raise(r, 1), b);
    forall e: nat ensures e in left <==> e in right {
      assert e in via <==> e in Add(g, r');
    }
  }

  // ------------------------------------------------------------------ uniqueness

  ghost predicate Small(p: Poly) { forall e :: e in p ==> e < 32 }

  /** A multiple of the generator other than zero has degree 32 or more. */
  lemma {:induction false} ProductsAreLarge(q: seq<bool>, i: nat)
    requires i < |q| && q[i]
    ensures !Small(Product(q))
    decreases |q|
  {
    hide Bit, OfWord, Product;
    var n := |q| - 1;
    assert q == q[..n] + [q[n]];
    ProductLast(q[..n], q[n]);
    GeneratorDegree();
    if exists j: nat :: j < n && q[j] {
      var j: nat :| j < n && q[j];
      ProductsAreLarge(q[..n], j);
      var e :| e in Product(q[..n]) && e >= 32;
      assert e + 1 in Raise(Product(q[..n]), 1);
      assert e + 1 in Product(q);
    } else {
      ZeroProduct(q[..n]);
      assert 32 in Product(q);
    }
  }

  lemma GeneratorDegree()
    ensures 32 in Generator() && forall e :: e in Generator() ==> e <= 32
  {
  }

  lemma {:induction false} ZeroProduct(q: seq<bool>)
    requires forall j :: 0 <= j < |q| ==> !q[j]
    ensures Product(q) == {}
  {
    hide Generator;
    if q != [] { ZeroProduct(q[..|q| - 1]); }
  }

  ghost function XorBools(p: seq<bool>, q: seq<bool>): seq<bool>
    requires |p| == |q|
  {
    seq(|p|, i requires 0 <= i < |p| => p[i] != q[i])
  }

  lemma XorBoolsLast(p: seq<bool>, q: seq<bool>)
    requires |p| == |q| > 0
    ensures var n := |p| - 1;
            XorBools(p, q)[..n] == XorBools(p[..n], q[..n]) && XorBools(p, q) == XorBools(p, q)[..n] + [p[n] != q[n]]
  {
  }

  lemma {:induction false} ProductIsLinear(p: seq<bool>, q: seq<bool>)
    requires |p| == |q|
    ensures Product(XorBools(p, q)) == Add(Product(p), Product(q))
    decreases |p|
  {
    hide Generator;
    if p != [] {
      var n := |p| - 1;
      ProductIsLinear(p[..n], q[..n]);
      hide Product, XorBools;
      var x := XorBools(p, q);
      XorBoolsLast(p, q);
      assert p == p[..n] + [p[n]] && q == q[..n] + [q[n]];
      ProductLast(x[..n], p[n] != q[n]);
      ProductLast(p[..n], p[n]);
      ProductLast(q[..n], q[n]);
      LinearStep(Product(p[..n]), Product(q[..n]), p[n], q[n], Generator());
    }
  }

  lemma LinearStep(p: Poly, q: Poly, b: bool, c: bool, g: Poly)
    ensures Add(Raise(Add(p, q), 1), if b != c then g else {}) ==
            Add(Add(Raise(p, 1), if b then g else {}), Add(Raise(q, 1), if c then g else {}))
  {
    var sum := Add(p, q);
    var pg, qg := Add(Raise(p, 1), if b then g else {}), Add(Raise(q, 1), if c then g else {});
    var left, right := Add(Raise(sum, 1), if b != c then g else {}), Add(pg, qg);
    forall e: nat ensures e in left <==> e in right {
      if e >= 1 { assert e - 1 in sum <==> (e - 1 in p) != (e - 1 in q); }
      assert e in pg <==> (e >= 1 && e - 1 in p) != (b && e in g);
      assert e in qg <==> (e >= 1 && e - 1 in q) != (c && e in g);
    }
  }

  lemma ProductLast(q: seq<bool>, bit: bool)
    ensures Product(q + [bit]) == Add(Raise(Product(q), 1), if bit then Generator() else {})
  {
    assert (q + [bit])[..|q|] == q;
  }

  lemma {:induction false} LeadingZero(q: seq<bool>)
    ensures Product([false] + q) == Product(q)
    decreases |q|
  {
    hide Product, Generator;
    if q == [] {
      ZeroProduct([false] + q);
      ZeroProduct(q);
    } else {
      var n := |q| - 1;
      LeadingZero(q[..n]);
      assert q == q[..n] + [q[n]];
      ProductLast(q[..n], q[n]);
      ProductLast([false] + q[..n], q[n]);
      assert [false] + q == [false] + q[..n] + [q[n]];
    }
  }

  /** There is only one remainder: any two ways to write a polynomial as a multiple of the generator
      plus a polynomial of degree below 32 have the same second part. */
  lemma {:induction false} RemainderIsUnique(p: seq<bool>, r: Poly, q: seq<bool>, s: Poly)
    requires Small(r) && Small(s) && Add(Product(p), r) == Add(Product(q), s)
    ensures r == s
    decreases if |p| < |q| then |q| - |p| else |p| - |q|
  {
    if |p| < |q| {
      LeadingZero(p);
      RemainderIsUnique([false] + p, r, q, s);
    } else if |q| < |p| {
      LeadingZero(q);
      RemainderIsUnique(p, r, [false] + q, s);
    } else {
      ProductIsLinear(p, q);
      var x := XorBools(p, q);
      var product := Product(x);
      forall e: nat ensures e in product <==> (e in r) != (e in s) {
        assert e in Add(Product(p), r) <==> e in Add(Product(q), s);
      }
      if i: nat :| i < |x| && x[i] {
        ProductsAreLarge(x, i);
      } else {
        ZeroProduct(x);
        assert forall e :: e in r <==> e in s;
      }
    }
  }

  /** The checksum is the complement of the remainder of the message, followed by 32 zero bits and
      with its first 32 bits complemented, on division by the generator: it is that remainder, and
      nothing else is. */
  lemma CrcIsTheRemainder(buf: seq<Byte>, q: seq<bool>, r: Word)
    ensures Dividend(ONES, MessageBits(buf)) == Add(Product(q), OfWord(r)) ==> Crc(buf) == NotWord(r)
    ensures exists q' :: Dividend(ONES, MessageBits(buf)) == Add(Product(q'), OfWord(NotWord(Crc(buf))))
  {
    hide Bit, Feed, Product, Dividend;
    var bits := MessageBits(buf);
    RegisterIsARemainder(ONES, bits);
    assert NotWord(Crc(buf)) == Feed(ONES, bits);
    if Dividend(ONES, bits) == Add(Product(q), OfWord(r)) {
      RemainderIsUnique(q, OfWord(r), Quotient(ONES, bits), OfWord(Feed(ONES, bits)));
      SameWord(r, Feed(ONES, bits));
    }
  }

  lemma SameWord(a: Word, b: Word)
    requires OfWord(a) == OfWord(b)
    ensures a == b
  {
    hide Bit;
    Pow32();
    forall i: nat | i < 32 ensures Bit(a, i) == Bit(b, i) {
      assert i in OfWord(a) <==> i in OfWord(b);
    }
    SameBits(a, b, 32);
  }
}
