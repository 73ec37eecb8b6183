/** Three images.  On the first two biossums undoes its own work: a later repair falls inside a structure
    that has already been repaired, and a second run changes the file; a later repair makes the next run
    stop.  On the third the length of a table decides which byte is written. */
module BiosOverlap {
  import opened Wrappers
  import opened Words
  import opened BiosSums
  import opened BiosTheorems
  import opened BiosExact

  /** A 32-byte PCI32 directory at 16 whose second half is an MP floating pointer. */
  function Overlapping(): Image {
    seq(LEN_BIOS_DATA, i => ByteAt(i))
  }

  function ByteAt(i: int): Byte {
    if 16 <= i < 20 then Signature(Pci32)[i - 16]
    else if i == 25 then 2
    else if 32 <= i < 36 then Signature(Mp)[i - 32]
    else if i == 40 then 1
    else 0
  }

  lemma OverlappingHits(k: Kind, o: nat)
    ensures IsHit(Overlapping(), k, o) <==> (k == Pci32 && o == 16) || (k == Mp && o == 32)
  {
    var d := Overlapping();
    if IsHit(d, k, o) {
      assert d[o] == d[o..o + 4][0] && d[o + 1] == d[o..o + 4][1];
    }
    assert d[16..20] == Signature(Pci32);
    assert d[32..36] == Signature(Mp);
  }

  lemma HitsAfter(e: Image, k: Kind, o: nat)
    requires Agree(Overlapping(), e)
    ensures IsHit(e, k, o) <==> (k == Pci32 && o == 16) || (k == Mp && o == 32)
  {
    hide IsHit, Agree;
    SameHits(Overlapping(), e, k, o);
    OverlappingHits(k, o);
  }

  lemma LengthsAfter(e: Image)
    requires Agree(Overlapping(), e)
    ensures Length(e, Pci32, 16) == 32 && Length(e, Mp, 32) == 16
  {
    hide IsHit, Agree;
    OverlappingHits(Pci32, 16);
    OverlappingHits(Mp, 32);
    SameLength(Overlapping(), e, Pci32, 16);
    SameLength(Overlapping(), e, Mp, 32);
  }

  /** What one stage does to an image that a run has reached. */
  lemma Stage(e: Image, k: Kind)
    requires Agree(Overlapping(), e)
    ensures AllHeadersOk(e, k) && Agree(Overlapping(), Repaired(e, k))
    ensures k == Pci32 ==> Unique(e, k, 16) && HeaderOk(e, k, 16) && Repaired(e, k) == e[26 := Fix(e, k, 16)]
    ensures k == Mp ==> Unique(e, k, 32) && HeaderOk(e, k, 32) && Repaired(e, k) == e[42 := Fix(e, k, 32)]
    ensures k != Pci32 && k != Mp ==> Repaired(e, k) == e
  {
    hide IsHit, Agree, Fix, Length;
    forall o: nat ensures IsHit(e, k, o) <==> (k == Pci32 && o == 16) || (k == Mp && o == 32) {
      HitsAfter(e, k, o);
    }
    LengthsAfter(e);
    StageAgrees(Overlapping(), e, k);
    if k == Pci32 { RepairedAt(e, k, 16); }
    if k == Mp { RepairedAt(e, k, 32); }
  }

  /** The checksum of the MP structure is not zero. */
  lemma PointerChecksum(e: Image)
    requires Agree(Overlapping(), e) && HeaderOk(e, Mp, 32)
    requires forall p :: 32 <= p < 48 ==> e[p] == Overlapping()[p]
    ensures Fix(e, Mp, 32) == 0xA4
  {
    hide Agree;
    var d := Overlapping();
    LengthsAfter(e);
    SumButFrame(e, d, 32, 16, 10);
    PointerSum();
  }

  lemma PointerSum()
    ensures SumBut(Overlapping(), 32, 16, 10) == 0x15C
  {
    var d := Overlapping();
    assert SumBut(d, 32, 1, 10) == 0x5F;
    assert SumBut(d, 32, 2, 10) == 0x5F + 0x4D;
    assert SumBut(d, 32, 3, 10) == 0x5F + 0x4D + 0x50;
    assert SumBut(d, 32, 4, 10) == 0x15B;
    SumButZeros(d, 32, 4, 8, 10);
    assert SumBut(d, 32, 9, 10) == 0x15C;
    SumButZeros(d, 32, 9, 16, 10);
  }

  lemma {:induction false} SumButZeros(d: seq<Byte>, o: nat, n: nat, m: nat, c: nat)
    requires n <= m && o + m <= |d| && forall p :: o + n <= p < o + m ==> d[p] == 0
    ensures SumBut(d, o, m, c) == SumBut(d, o, n, c)
    decreases m
  {
    if n < m { SumButZeros(d, o, n, m - 1, c); }
  }

  lemma {:induction false} SumOfUpdate(d: Image, lo: nat, hi: nat, p: nat, v: Byte)
    requires lo <= p < hi <= LEN_BIOS_DATA
    ensures Sum(d[p := v], lo, hi) == Sum(d, lo, hi) - d[p] + v
    decreases hi
  {
    if hi - 1 == p {
      SumFrame(d, d[p := v], lo, hi - 1);
    } else {
      SumOfUpdate(d, lo, hi - 1, p, v);
    }
  }

  lemma DirectorySettled(d: Image)
    requires d == Overlapping() && Agree(d, d) && AllHeadersOk(d, Pci32) && Unique(d, Pci32, 16)
    ensures Sum(Repaired(d, Pci32), 16, 48) % 0x100 == 0
  {
    hide Agree, IsHit, Unique, AllHeadersOk, Repaired, Overlapping, HeaderOk, Fix, Sum, SumBut, Length;
    var e := Repaired(d, Pci32);
    StageAgrees(d, d, Pci32);
    OwnStageSettles(d, d, Pci32, 16);
    LengthsAfter(e);
    SumSplits(e, 16, 32, 10);
    NegatedCancels(SumBut(e, 16, 32, 10));
  }

  lemma PointerUntouched(d: Image, e: Image)
    requires d == Overlapping() && HeaderOk(d, Pci32, 16) && e == d[26 := Fix(d, Pci32, 16)]
    ensures e[42] == 0 && forall p :: 32 <= p < 48 ==> e[p] == d[p]
  {
    hide Fix, HeaderOk;
  }

  /** The repair of the MP structure undoes that of the PCI32 directory around it. */
  lemma RepairInsideUndoes()
    ensures Run(Overlapping()).Some? && Unique(Overlapping(), Pci32, 16)
    ensures Length(Overlapping(), Pci32, 16) == 32
    ensures Sum(Run(Overlapping()).value, 16, 48) % 0x100 == 0xA4
  {
    hide Agree, IsHit, Unique, AllHeadersOk, Repaired, Overlapping, HeaderOk, Fix, Sum, SumBut;
    var d := Overlapping();
    AgreeSelf(d);
    Stage(d, Pci32);
    LengthsAfter(d);
    var e := Repaired(d, Pci32);
    DirectorySettled(d);
    Stage(e, Mp);
    PointerUntouched(d, e);
    PointerChecksum(e);
    var f := Repaired(e, Mp);
    SumOfUpdate(e, 16, 48, 42, 0xA4);
    Stage(f, Pcmp);
    Stage(f, Pir);
    Stage(f, Pnp);
    LastStages(d, f);
    SumFrame(f, Final(f), 16, 48);
  }

  lemma LastStages(d: Image, f: Image)
    requires AllHeadersOk(d, Pci32) && AllHeadersOk(Repaired(d, Pci32), Mp) && f == Repaired(Repaired(d, Pci32), Mp)
    requires forall k :: k in {Pcmp, Pir, Pnp} ==> AllHeadersOk(f, k) && Repaired(f, k) == f
    ensures Stages(d, KINDS) == Some(f)
  {
    hide AllHeadersOk, Repaired;
    var rest := [Pcmp, Pir, Pnp];
    assert KINDS[1..][1..] == rest && rest[1..][1..][1..] == [];
    assert Stages(f, rest[1..][1..]) == Some(f);
    assert Stages(f, rest[1..]) == Some(f);
    assert Stages(f, rest) == Some(f);
    assert Stages(Repaired(d, Pci32), KINDS[1..]) == Some(f);
  }

  /** A second run writes another checksum for the directory. */
  lemma SecondRunRepairsAgain()
    ensures Run(Overlapping()).Some? && Run(Run(Overlapping()).value).Some?
    ensures FileAfter(FileAfter(Overlapping())) != FileAfter(Overlapping())
  {
    hide Run, Sum, Drift, Overlapping, Unique, IsHit;
    var d := Overlapping();
    RepairInsideUndoes();
    StructureSumsToDrift(d, Pci32, 16);
    SecondRunSucceedsExactly(d);
    forall o: nat ensures !IsHit(d, Pcmp, o) { OverlappingHits(Pcmp, o); }
    SecondRunExactly(d);
  }

  /** A PCMP table at 16 and behind it, at 48, a plug-and-play header whose checksum byte is the first
      of the three that the PCMP check wants to be zero. */
  function Stopping(): Image {
    seq(LEN_BIOS_DATA, i => StoppingByte(i))
  }

  function StoppingByte(i: int): Byte {
    if 16 <= i < 20 then Signature(Pcmp)[i - 16]
    else if 48 <= i < 52 then Signature(Pnp)[i - 48]
    else if i == 53 then 32
    else 0
  }

  lemma StoppingHits(k: Kind, o: nat)
    ensures IsHit(Stopping(), k, o) <==> (k == Pcmp && o == 16) || (k == Pnp && o == 48)
  {
    var d := Stopping();
    if IsHit(d, k, o) {
      assert d[o] == d[o..o + 4][0] && d[o + 1] == d[o..o + 4][1] && d[o + 2] == d[o..o + 4][2];
    }
    assert d[16..20] == Signature(Pcmp);
    assert d[48..52] == Signature(Pnp);
  }

  lemma StoppingBytes(d: Image)
    requires d == Stopping()
    ensures Length(d, Pcmp, 16) == 0 && Length(d, Pnp, 48) == 32 && d[56] == d[57] == d[58] == 0
  {
    hide Stopping, Signature;
    StoppingAt(20);
    StoppingAt(21);
    StoppingAt(53);
    StoppingAt(56);
    StoppingAt(57);
    StoppingAt(58);
  }

  lemma StoppingAt(i: nat)
    requires i < LEN_BIOS_DATA
    ensures Stopping()[i] == StoppingByte(i)
  {
  }

  lemma StoppingLengths(e: Image)
    requires Agree(Stopping(), e)
    ensures Length(e, Pcmp, 16) == 0 && Length(e, Pnp, 48) == 32 && e[57] == 0
  {
    hide IsHit, Agree, Stopping, Length;
    StoppingBytes(Stopping());
    StoppingHits(Pcmp, 16);
    StoppingHits(Pnp, 48);
    SameLength(Stopping(), e, Pcmp, 16);
    SameLength(Stopping(), e, Pnp, 48);
    Byte41(Stopping(), e, 16);
  }

  /** Every stage succeeds on an image that the first run has reached, as long as the bytes that the
      PCMP check looks at are zero. */
  lemma StoppingStage(e: Image, k: Kind)
    requires Agree(Stopping(), e) && (k == Pcmp ==> e[56] == 0 && e[58] == 0)
    ensures AllHeadersOk(e, k) && Agree(Stopping(), Repaired(e, k))
    ensures k == Pcmp ==> Repaired(e, k)[56] == e[56] && Repaired(e, k)[58] == e[58]
    ensures k != Pcmp && k != Pnp ==> Repaired(e, k) == e
  {
    hide Agree, IsHit, Stopping, Length, Fix;
    var d := Stopping();
    forall o: nat ensures IsHit(e, k, o) <==> (k == Pcmp && o == 16) || (k == Pnp && o == 48) {
      SameHits(d, e, k, o);
      StoppingHits(k, o);
    }
    StoppingLengths(e);
    StageAgrees(d, e, k);
    if k == Pcmp { RepairedAt(e, k, 16); }
  }

  lemma StoppingRuns()
    ensures Run(Stopping()).Some?
  {
    hide Agree, AllHeadersOk, Repaired, Stopping, Length;
    var d := Stopping();
    AgreeSelf(d);
    StoppingBytes(Stopping());
    StoppingStage(d, Pci32);
    StoppingStage(d, Mp);
    StoppingStage(d, Pcmp);
    var e := Repaired(d, Pcmp);
    StoppingStage(e, Pir);
    StoppingStage(e, Pnp);
    var rest := [Pcmp, Pir, Pnp];
    assert KINDS[1..][1..] == rest && rest[1..][1..][1..] == [];
    assert Stages(e, rest[1..][1..]).Some?;
    assert Stages(e, rest[1..]).Some?;
    assert Stages(d, rest).Some?;
    assert Stages(d, KINDS[1..]).Some?;
    RunOfStages(d);
  }

  lemma StoppingUnique()
    ensures Unique(Stopping(), Pnp, 48)
    ensures Untouched(Stopping(), Pnp, 48)
  {
    hide Stopping, IsHit;
    forall k, o: nat ensures IsHit(Stopping(), k, o) <==> (k == Pcmp && o == 16) || (k == Pnp && o == 48) {
      StoppingHits(k, o);
    }
    StoppingBytes(Stopping());
    var d := Stopping();
    forall q: nat | 48 <= q < 80 ensures !WrittenBefore(d, Rank(Pnp), q) {
      if k :| Rank(k) < Rank(Pnp) && WrittenFor(d, k, q) { HitOfUnique(d, k, q - ChecksumAt(k)); }
    }
  }

  lemma StoppingSum()
    ensures SumBut(Stopping(), 48, 32, 8) == 0x152
  {
    var d := Stopping();
    assert SumBut(d, 48, 1, 8) == 0x24;
    assert SumBut(d, 48, 2, 8) == 0x74;
    assert SumBut(d, 48, 3, 8) == 0xE2;
    assert SumBut(d, 48, 4, 8) == 0x132;
    assert SumBut(d, 48, 6, 8) == 0x152;
    SumButZeros(d, 48, 6, 32, 8);
  }

  /** After a run without error the next run stops with one. */
  lemma SecondRunStops()
    ensures Run(Stopping()).Some? && Run(Run(Stopping()).value).None?
  {
    hide Run, Stopping, IsHit, Unique, Length, SumBut, Untouched;
    var d := Stopping();
    StoppingRuns();
    StoppingUnique();
    StoppingBytes(Stopping());
    StoppingSum();
    WrittenValue(d, Pnp, 48);
    StoppingHits(Pcmp, 16);
    SecondRunSucceedsExactly(d);
  }

  /** An interrupt routing table of 32 bytes at 16, and a byte at 64 that does not belong to it. */
  function Routing(): Image {
    seq(LEN_BIOS_DATA, i => RoutingByte(i))
  }

  function RoutingByte(i: int): Byte {
    if i == 16 then 0x24 else if i == 17 then 0x50 else if i == 18 then 0x49 else if i == 19 then 0x52
    else if i == 22 then 0x20
    else if i == 64 then 1
    else 0
  }

  lemma RoutingHits(k: Kind, o: nat)
    ensures IsHit(Routing(), k, o) <==> k == Pir && o == 16
  {
    var d := Routing();
    if IsHit(d, k, o) {
      assert d[o] == d[o..o + 4][0] && d[o + 1] == d[o..o + 4][1] && d[o + 2] == d[o..o + 4][2];
    }
    assert d[16..20] == Signature(Pir);
  }

  lemma RoutingStage(k: Kind)
    ensures AllHeadersOk(Routing(), k) && (k != Pir ==> Repaired(Routing(), k) == Routing())
    ensures Unique(Routing(), Pir, 16)
  {
    hide IsHit, Fix, Length, Routing;
    forall k, o: nat ensures IsHit(Routing(), k, o) <==> k == Pir && o == 16 { RoutingHits(k, o); }
    RoutingBytes();
  }

  lemma RoutingBytes()
    ensures Length(Routing(), Pir, 16) == 32
  {
    assert Routing()[22] == 0x20 && Routing()[23] == 0;
  }

  lemma RoutingSum()
    ensures SumBut(Routing(), 16, 32, 31) == 0x12F
  {
    var d := Routing();
    assert SumBut(d, 16, 1, 31) == 0x24;
    assert SumBut(d, 16, 2, 31) == 0x74;
    assert SumBut(d, 16, 3, 31) == 0xBD;
    assert SumBut(d, 16, 4, 31) == 0x10F;
    assert SumBut(d, 16, 7, 31) == 0x12F;
    SumButZeros(d, 16, 7, 32, 31);
  }

  lemma RoutingRuns()
    ensures Run(Routing()).Some?
  {
    hide AllHeadersOk, Repaired, Routing, Unique;
    var d := Routing();
    RoutingStage(Pci32);
    RoutingStage(Mp);
    RoutingStage(Pcmp);
    RoutingStage(Pir);
    AgreeSelf(d);
    StageAgrees(d, d, Pir);
    AgreeSelf(d);
    HeadersKept(d, d, Repaired(d, Pir), Pnp) by { RoutingStage(Pnp); }
    var rest := [Pir, Pnp];
    assert KINDS[1..][1..][1..] == rest && rest[1..] == [Pnp] && [Pnp][1..] == [];
    assert Stages(Repaired(d, Pir), rest[1..]).Some?;
    assert Stages(d, rest).Some?;
    assert Stages(d, KINDS[1..][1..]).Some?;
    assert Stages(d, KINDS[1..]).Some?;
    RunOfStages(d);
  }

  /** The checksum covers the 32 bytes that the table claims and not the byte at 64. */
  lemma RoutingIsRepaired()
    ensures Run(Routing()).Some? && Run(Routing()).value[0x2F] == 0xD1
    ensures Sum(Run(Routing()).value, 0x10, 0x30) % 0x100 == 0
  {
    hide Run, Routing, IsHit, Unique, Length, SumBut, Sum;
    var d := Routing();
    RoutingRuns();
    RoutingStage(Pir);
    RoutingBytes();
    RoutingSum();
    forall k, o: nat ensures IsHit(d, k, o) <==> k == Pir && o == 16 { RoutingHits(k, o); }
    assert Untouched(d, Pir, 16) by { NothingBefore(d); }
    assert Undisturbed(d, Pir, 16) by { NothingBefore(d); }
    WrittenValue(d, Pir, 16);
    StructureSumsToZero(d, Pir, 16);
  }

  lemma NothingBefore(d: Image)
    requires forall k, o: nat :: IsHit(d, k, o) ==> k == Pir
    ensures forall k, o: nat :: Unique(d, k, o) ==> k == Pir
    ensures forall k, p: nat :: WrittenFor(d, k, p) ==> k == Pir
  {
    hide IsHit;
  }
}
