/** The five structures of BiosSums.dfy with their layout written out: signature, length bytes and checksum
    offset of each.  What a run does is stated here on the bytes of the image alone. */
module BiosLayout {
  import opened Wrappers
  import opened Words
  import opened BiosSums
  import opened BiosTheorems
  import opened BiosExact

  /** The four bytes stand at o, a paragraph boundary that is searched. */
  predicate SignedAt(d: Image, o: nat, a: Byte, b: Byte, c: Byte, e: Byte) {
    16 <= o <= 0xFFF0 && o % 16 == 0 && d[o] == a && d[o + 1] == b && d[o + 2] == c && d[o + 3] == e
  }

  /** They stand nowhere else. */
  ghost predicate OnlyAt(d: Image, o: nat, a: Byte, b: Byte, c: Byte, e: Byte) {
    SignedAt(d, o, a, b, c, e) && forall o': nat :: SignedAt(d, o', a, b, c, e) ==> o' == o
  }

  /** No such signature that stands only once has its checksum byte, `at` bytes behind it, in [lo, hi). */
  ghost predicate NoneWithin(d: Image, a: Byte, b: Byte, c: Byte, e: Byte, at: nat, lo: nat, hi: nat) {
    forall o: nat :: OnlyAt(d, o, a, b, c, e) ==> !(lo <= o + at < hi)
  }

  // ------------------------------------------------------------------ the layout

  lemma HitsExactly(d: Image, o: nat)
    ensures IsHit(d, Pci32, o) <==> SignedAt(d, o, 0x5F, 0x33, 0x32, 0x5F)
    ensures IsHit(d, Mp, o) <==> SignedAt(d, o, 0x5F, 0x4D, 0x50, 0x5F)
    ensures IsHit(d, Pcmp, o) <==> SignedAt(d, o, 0x50, 0x43, 0x4D, 0x50)
    ensures IsHit(d, Pir, o) <==> SignedAt(d, o, 0x24, 0x50, 0x49, 0x52)
    ensures IsHit(d, Pnp, o) <==> SignedAt(d, o, 0x24, 0x50, 0x6E, 0x50)
  {
    if 16 <= o <= LAST_PARAGRAPH && o % 16 == 0 {
      hide IsHit;
      HitAt(d, Pci32, o);
      HitAt(d, Mp, o);
      HitAt(d, Pcmp, o);
      HitAt(d, Pir, o);
      HitAt(d, Pnp, o);
    }
  }

  lemma UniquesExactly(d: Image, o: nat)
    ensures Unique(d, Pci32, o) <==> OnlyAt(d, o, 0x5F, 0x33, 0x32, 0x5F)
    ensures Unique(d, Mp, o) <==> OnlyAt(d, o, 0x5F, 0x4D, 0x50, 0x5F)
    ensures Unique(d, Pcmp, o) <==> OnlyAt(d, o, 0x50, 0x43, 0x4D, 0x50)
    ensures Unique(d, Pir, o) <==> OnlyAt(d, o, 0x24, 0x50, 0x49, 0x52)
    ensures Unique(d, Pnp, o) <==> OnlyAt(d, o, 0x24, 0x50, 0x6E, 0x50)
  {
    hide IsHit, SignedAt;
    forall o': nat
      ensures IsHit(d, Pci32, o') <==> SignedAt(d, o', 0x5F, 0x33, 0x32, 0x5F)
      ensures IsHit(d, Mp, o') <==> SignedAt(d, o', 0x5F, 0x4D, 0x50, 0x5F)
      ensures IsHit(d, Pcmp, o') <==> SignedAt(d, o', 0x50, 0x43, 0x4D, 0x50)
      ensures IsHit(d, Pir, o') <==> SignedAt(d, o', 0x24, 0x50, 0x49, 0x52)
      ensures IsHit(d, Pnp, o') <==> SignedAt(d, o', 0x24, 0x50, 0x6E, 0x50)
    {
      HitsExactly(d, o');
    }
  }

  /** A sum over a range adds up the bytes in it. */
  lemma {:induction false} SumExactly(d: Image, lo: nat, mid: nat, hi: nat)
    requires lo <= mid <= hi <= 0x1_0000
    ensures Sum(d, lo, hi) == Sum(d, lo, mid) + Sum(d, mid, hi)
    ensures Sum(d, lo, lo) == 0 && (lo < 0x1_0000 ==> Sum(d, lo, lo + 1) == d[lo])
    decreases hi
  {
    if mid < hi { SumExactly(d, lo, mid, hi - 1); }
  }

  // ------------------------------------------------------------------ which bytes a run changes

  /** A run changes the checksum bytes of structures that are found once, and the last byte of the image. */
  lemma OnlyChecksumsChange(d: Image, p: nat)
    requires Run(d).Some? && p < 0x1_0000 && Run(d).value[p] != d[p]
    ensures
      || p == 0xFFFF
      || (p >= 10 && OnlyAt(d, p - 10, 0x5F, 0x33, 0x32, 0x5F))
      || (p >= 10 && OnlyAt(d, p - 10, 0x5F, 0x4D, 0x50, 0x5F))
      || (p >= 7 && OnlyAt(d, p - 7, 0x50, 0x43, 0x4D, 0x50))
      || (p >= 31 && OnlyAt(d, p - 31, 0x24, 0x50, 0x49, 0x52))
      || (p >= 8 && OnlyAt(d, p - 8, 0x24, 0x50, 0x6E, 0x50))
  {
    RunAgrees(d);
    hide Unique, OnlyAt, Run;
    assert Writable(d, p);
    if p >= 10 { UniquesExactly(d, p - 10); }
    if p >= 7 { UniquesExactly(d, p - 7); }
    if p >= 31 { UniquesExactly(d, p - 31); }
    if p >= 8 { UniquesExactly(d, p - 8); }
  }

  // ------------------------------------------------------------------ structures that sum to zero

  /** A PCI32 directory ("_32_", length in paragraphs at 9, checksum at 10) into which no later repair falls. */
  lemma DirectorySumsToZero(d: Image, o: nat, n: nat)
    requires Run(d).Some? && OnlyAt(d, o, 0x5F, 0x33, 0x32, 0x5F) && n == 16 * (d[o + 9] as nat) > 10
    requires NoneWithin(d, 0x5F, 0x4D, 0x50, 0x5F, 10, o, o + n)
    requires NoneWithin(d, 0x50, 0x43, 0x4D, 0x50, 7, o, o + n)
    requires NoneWithin(d, 0x24, 0x50, 0x49, 0x52, 31, o, o + n)
    requires NoneWithin(d, 0x24, 0x50, 0x6E, 0x50, 8, o, o + n)
    ensures o + n <= 0xFFFF && Sum(Run(d).value, o, o + n) % 0x100 == 0
  {
    hide Run, Sum, IsHit, Unique, OnlyAt, HeaderOk;
    UniquesExactly(d, o);
    HitOfUnique(d, Pci32, o);
    forall k: Kind, o': nat | Rank(k) > Rank(Pci32) && Unique(d, k, o')
      ensures !(o <= o' + ChecksumAt(k) < o + Length(d, Pci32, o))
    {
      UniquesExactly(d, o');
    }
    SettledSum(d, Pci32, o);
  }

  /** An MP floating pointer ("_MP_", length in paragraphs at 8, checksum at 10). */
  lemma PointerSumsToZero(d: Image, o: nat, n: nat)
    requires Run(d).Some? && OnlyAt(d, o, 0x5F, 0x4D, 0x50, 0x5F) && n == 16 * (d[o + 8] as nat) > 10
    requires NoneWithin(d, 0x50, 0x43, 0x4D, 0x50, 7, o, o + n)
    requires NoneWithin(d, 0x24, 0x50, 0x49, 0x52, 31, o, o + n)
    requires NoneWithin(d, 0x24, 0x50, 0x6E, 0x50, 8, o, o + n)
    ensures o + n <= 0xFFFF && Sum(Run(d).value, o, o + n) % 0x100 == 0
  {
    hide Run, Sum, IsHit, Unique, OnlyAt, HeaderOk;
    UniquesExactly(d, o);
    HitOfUnique(d, Mp, o);
    forall k: Kind, o': nat | Rank(k) > Rank(Mp) && Unique(d, k, o')
      ensures !(o <= o' + ChecksumAt(k) < o + Length(d, Mp, o))
    {
      UniquesExactly(d, o');
    }
    SettledSum(d, Mp, o);
  }

  /** An MP configuration table ("PCMP", length at 4 and 5, checksum at 7). */
  lemma ConfigurationSumsToZero(d: Image, o: nat, n: nat)
    requires Run(d).Some? && OnlyAt(d, o, 0x50, 0x43, 0x4D, 0x50)
    requires n == 0x100 * (d[o + 5] as nat) + d[o + 4] > 7
    requires NoneWithin(d, 0x24, 0x50, 0x49, 0x52, 31, o, o + n)
    requires NoneWithin(d, 0x24, 0x50, 0x6E, 0x50, 8, o, o + n)
    ensures o + n <= 0xFFFF && Sum(Run(d).value, o, o + n) % 0x100 == 0
  {
    hide Run, Sum, IsHit, Unique, OnlyAt, HeaderOk;
    UniquesExactly(d, o);
    HitOfUnique(d, Pcmp, o);
    forall k: Kind, o': nat | Rank(k) > Rank(Pcmp) && Unique(d, k, o')
      ensures !(o <= o' + ChecksumAt(k) < o + Length(d, Pcmp, o))
    {
      UniquesExactly(d, o');
    }
    SettledSum(d, Pcmp, o);
  }

  /** A PCI interrupt routing table ("$PIR", length at 6 and 7, checksum at 31). */
  lemma RoutingSumsToZero(d: Image, o: nat, n: nat)
    requires Run(d).Some? && OnlyAt(d, o, 0x24, 0x50, 0x49, 0x52)
    requires n == 0x100 * (d[o + 7] as nat) + d[o + 6] > 31
    requires NoneWithin(d, 0x24, 0x50, 0x6E, 0x50, 8, o, o + n)
    ensures o + n <= 0xFFFF && Sum(Run(d).value, o, o + n) % 0x100 == 0
  {
    hide Run, Sum, IsHit, Unique, OnlyAt, HeaderOk;
    UniquesExactly(d, o);
    HitOfUnique(d, Pir, o);
    forall k: Kind, o': nat | Rank(k) > Rank(Pir) && Unique(d, k, o')
      ensures !(o <= o' + ChecksumAt(k) < o + Length(d, Pir, o))
    {
      UniquesExactly(d, o');
    }
    SettledSum(d, Pir, o);
  }

  /** A plug-and-play header ("$PnP", length at 5, checksum at 8): nothing is repaired after it but the image. */
  lemma PlugAndPlaySumsToZero(d: Image, o: nat, n: nat)
    requires Run(d).Some? && OnlyAt(d, o, 0x24, 0x50, 0x6E, 0x50) && n == d[o + 5] > 8
    ensures o + n <= 0xFFFF && Sum(Run(d).value, o, o + n) % 0x100 == 0
  {
    hide Run, Sum, IsHit, Unique, OnlyAt, HeaderOk;
    UniquesExactly(d, o);
    HitOfUnique(d, Pnp, o);
    SettledSum(d, Pnp, o);
  }

  lemma SettledSum(d: Image, k: Kind, o: nat)
    requires Run(d).Some? && o <= LAST_PARAGRAPH && ChecksumAt(k) < Length(d, k, o)
    requires Unique(d, k, o) && Undisturbed(d, k, o)
    ensures o + Length(d, k, o) <= MAX_OFFSET && Sum(Run(d).value, o, o + Length(d, k, o)) % 0x100 == 0
  {
    hide Unique, Undisturbed, Run, Sum, Length;
    AfterRun(d, k, o);
    StructureSumsToZero(d, k, o);
  }

  // ------------------------------------------------------------------ when a run stops with an error

  /** A structure at o has its header and its claimed length below the last byte of the image. */
  predicate BoundedAt(d: Image, o: nat) {
    && (SignedAt(d, o, 0x5F, 0x33, 0x32, 0x5F) ==> o + 16 <= 0xFFFF && o + 16 * (d[o + 9] as nat) <= 0xFFFF)
    && (SignedAt(d, o, 0x5F, 0x4D, 0x50, 0x5F) ==> o + 16 <= 0xFFFF && o + 16 * (d[o + 8] as nat) <= 0xFFFF)
    && (SignedAt(d, o, 0x50, 0x43, 0x4D, 0x50) ==>
          o + 42 <= 0xFFFF && o + 0x100 * (d[o + 5] as nat) + d[o + 4] <= 0xFFFF)
    && (SignedAt(d, o, 0x24, 0x50, 0x49, 0x52) ==>
          o + 32 <= 0xFFFF && o + 0x100 * (d[o + 7] as nat) + d[o + 6] <= 0xFFFF)
    && (SignedAt(d, o, 0x24, 0x50, 0x6E, 0x50) ==> o + 32 <= 0xFFFF && o + d[o + 5] <= 0xFFFF)
  }

  /** A PCMP table at o has no extended tables: the three bytes that say so are zero, the last of them after
      the stages of PCI32 and MP, whose checksums may lie there. */
  ghost predicate NotExtendedAt(d: Image, o: nat) {
    SignedAt(d, o, 0x50, 0x43, 0x4D, 0x50) ==>
      o + 42 < 0x1_0000 && d[o + 40] == 0 && d[o + 41] == 0 && Reached(d, 2)[o + 42] == 0
  }

  predicate InBounds(d: Image, k: Kind, o: nat) {
    IsHit(d, k, o) ==> o + MinHeader(k) <= MAX_OFFSET && o + Length(d, k, o) <= MAX_OFFSET
  }

  lemma BoundedExactly(d: Image, o: nat)
    ensures BoundedAt(d, o) <==> forall k :: InBounds(d, k, o)
  {
    HitsExactly(d, o);
    hide IsHit, SignedAt;
    if forall k :: InBounds(d, k, o) {
      assert InBounds(d, Pci32, o) && InBounds(d, Mp, o) && InBounds(d, Pcmp, o);
      assert InBounds(d, Pir, o) && InBounds(d, Pnp, o);
    }
  }

  lemma {:induction false} BoundedStagesSucceed(d: Image, e: Image, ks: seq<Kind>)
    requires Agree(d, e) && Pcmp !in ks && forall o: nat :: BoundedAt(d, o)
    ensures Stages(e, ks).Some? && Agree(d, Stages(e, ks).value)
    decreases |ks|
  {
    hide Agree, AllHeadersOk, BoundedAt;
    if ks != [] {
      assert ks[0] in ks;
      AgreeSelf(d);
      BoundedHeaders(d, ks[0]);
      HeadersKept(d, d, e, ks[0]);
      StageAgrees(d, e, ks[0]);
      BoundedStagesSucceed(d, Repaired(e, ks[0]), ks[1..]);
    }
  }

  lemma BoundedHeaders(d: Image, k: Kind)
    requires k != Pcmp
    requires forall o: nat :: BoundedAt(d, o)
    ensures AllHeadersOk(d, k)
  {
    hide BoundedAt, Length, MinHeader;
    forall o: nat | IsHit(d, k, o) ensures o <= LAST_PARAGRAPH && HeaderOk(d, k, o) {
      BoundedExactly(d, o);
      assert InBounds(d, k, o);
    }
  }

  /** The header checks of PCMP on the image that the first two stages have left. */
  lemma PcmpHeadersExactly(d: Image, e: Image)
    requires Agree(d, e) && (forall o: nat :: BoundedAt(d, o))
    requires Stages(d, KINDS[..2]) == Some(e) && e == Reached(d, 2)
    ensures AllHeadersOk(e, Pcmp) <==> forall o: nat :: NotExtendedAt(d, o)
  {
    hide BoundedAt, Length, Agree, IsHit, Stages, Reached, SignedAt;
    forall o: nat
      ensures NotExtendedAt(d, o) <==> (IsHit(e, Pcmp, o) ==> o <= LAST_PARAGRAPH && HeaderOk(e, Pcmp, o))
    {
      PcmpHeaderExactly(d, e, o);
    }
  }

  lemma PcmpHeaderExactly(d: Image, e: Image, o: nat)
    requires Agree(d, e) && BoundedAt(d, o) && Stages(d, KINDS[..2]) == Some(e) && e == Reached(d, 2)
    ensures NotExtendedAt(d, o) <==> (IsHit(e, Pcmp, o) ==> o <= LAST_PARAGRAPH && HeaderOk(e, Pcmp, o))
  {
    HitsExactly(d, o);
    BoundedExactly(d, o);
    assert InBounds(d, Pcmp, o);
    hide Length, Agree, Stages, Reached, BoundedAt, IsHit, SignedAt;
    SameHits(d, e, Pcmp, o);
    if IsHit(d, Pcmp, o) {
      HitIsLow(d, Pcmp, o);
      SameLength(d, e, Pcmp, o);
      if o + 42 < LEN_BIOS_DATA {
        Byte40(d, o);
        Byte41(d, e, o);
      }
    }
  }

  lemma SucceedingIsBounded(d: Image, o: nat)
    requires Run(d).Some?
    ensures BoundedAt(d, o)
  {
    hide Run, Agree, Stages, BoundedAt, AllHeadersOk, IsHit;
    AgreeSelf(d);
    forall k ensures InBounds(d, k, o) {
      StageSucceeds(d, k);
      HeaderInBounds(d, Reached(d, Rank(k)), k, o);
    }
    BoundedExactly(d, o);
  }

  lemma HeaderInBounds(d: Image, e: Image, k: Kind, o: nat)
    requires Agree(d, e) && AllHeadersOk(e, k)
    ensures InBounds(d, k, o)
  {
    hide Agree, IsHit, Length;
    SameHits(d, e, k, o);
    if IsHit(d, k, o) {
      HitIsLow(d, k, o);
      SameLength(d, e, k, o);
      assert HeaderOk(e, k, o);
    }
  }

  /** A run stops with an error exactly when a structure does not fit the image or a PCMP table says that it
      has extended tables. */
  lemma RunSucceedsExactly(d: Image)
    ensures Run(d).Some? <==> (forall o: nat :: BoundedAt(d, o)) && (forall o: nat :: NotExtendedAt(d, o))
  {
    hide Run, Agree, Stages, BoundedAt, NotExtendedAt, AllHeadersOk, Reached;
    if Run(d).Some? {
      forall o: nat ensures BoundedAt(d, o) { SucceedingIsBounded(d, o); }
      StageSucceeds(d, Pcmp);
      PrefixRuns(d, 2);
      FirstTwo(d);
      PcmpHeadersExactly(d, Reached(d, 2));
    } else if forall o: nat :: BoundedAt(d, o) {
      FirstTwo(d);
      PcmpHeadersExactly(d, Reached(d, 2));
      if forall o: nat :: NotExtendedAt(d, o) { AllStagesSucceed(d); }
    }
  }

  lemma FirstTwo(d: Image)
    requires forall o: nat :: BoundedAt(d, o)
    ensures Stages(d, KINDS[..2]) == Some(Reached(d, 2)) && Agree(d, Reached(d, 2)) && Rank(Pcmp) == 2
  {
    hide Agree, BoundedAt, Stages;
    AgreeSelf(d);
    assert KINDS[..2] == [Pci32, Mp];
    BoundedStagesSucceed(d, d, KINDS[..2]);
  }

  lemma AllStagesSucceed(d: Image)
    requires (forall o: nat :: BoundedAt(d, o)) && AllHeadersOk(Reached(d, 2), Pcmp)
    ensures Run(d).Some?
  {
    hide Agree, BoundedAt, AllHeadersOk, Repaired, Reached;
    FirstTwo(d);
    var e := Reached(d, 2);
    var rest := [Pir, Pnp];
    StageAgrees(d, e, Pcmp);
    BoundedStagesSucceed(d, Repaired(e, Pcmp), rest);
    assert KINDS == KINDS[..2] + [Pcmp, Pir, Pnp] && [Pcmp, Pir, Pnp][1..] == rest;
    StagesConcat(d, KINDS[..2], [Pcmp, Pir, Pnp]);
    RunOfStages(d);
  }

  /** The byte in question is the one the run started from unless a structure found once has its checksum
      there. */
  lemma ExtensionByte(d: Image, o: nat)
    requires (forall o': nat :: BoundedAt(d, o')) && o % 16 == 0 && o + 42 < 0x1_0000
    requires !OnlyAt(d, o + 32, 0x5F, 0x33, 0x32, 0x5F) && !OnlyAt(d, o + 32, 0x5F, 0x4D, 0x50, 0x5F)
    ensures Reached(d, 2)[o + 42] == d[o + 42]
  {
    hide Agree, BoundedAt, Stages, Unique, OnlyAt;
    AgreeSelf(d);
    FirstTwo(d);
    UniquesExactly(d, o + 32);
    assert KINDS[..2] == [Pci32, Mp];
    StagesTouch(d, d, KINDS[..2], o + 42);
  }
}
