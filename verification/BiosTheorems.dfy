/** What an error-free run of BiosSums leaves behind: the repairs do not undo each other. */
module BiosTheorems {
  import opened Wrappers
  import opened BiosSums

  // ------------------------------------------------------------------ where a run may write

  /** Position p is the checksum byte of the one structure of kind k. */
  ghost predicate WrittenFor(d: Image, k: Kind, p: nat) {
    p >= ChecksumAt(k) && Unique(d, k, p - ChecksumAt(k))
  }

  ghost predicate Writable(d: Image, p: nat) {
    WrittenFor(d, Pci32, p) || WrittenFor(d, Mp, p) || WrittenFor(d, Pcmp, p) ||
    WrittenFor(d, Pir, p) || WrittenFor(d, Pnp, p) || p == BIOS_OFFSET
  }

  /** e differs from d only where a run on d may write. */
  ghost predicate Agree(d: Image, e: Image) {
    forall p: nat :: p < LEN_BIOS_DATA && d[p] != e[p] ==> Writable(d, p)
  }

  lemma SignaturesDiffer(d: Image, k: Kind, k': Kind, o: nat)
    requires IsHit(d, k, o) && IsHit(d, k', o)
    ensures k == k'
  {
    var s, s' := Signature(k), Signature(k');
    assert s[1] == s'[1] && s[2] == s'[2] && s[3] == s'[3] && s[0] == s'[0];
  }

  /** No write reaches the first four bytes of a paragraph. */
  lemma WritesMissSignatures(d: Image, p: nat)
    requires Writable(d, p)
    ensures p % 16 in {7, 8, 10, 15}
  {
    hide IsHit, Signature, WrittenFor;
    if p != BIOS_OFFSET {
      var k :| WrittenFor(d, k, p);
      CheckedRemainder(d, k, p);
    }
  }

  lemma CheckedRemainder(d: Image, k: Kind, p: nat)
    requires WrittenFor(d, k, p)
    ensures p % 16 == ChecksumAt(k) % 16
  {
  }

  /** The signatures found are the same before and after. */
  lemma SameHits(d: Image, e: Image, k: Kind, o: nat)
    requires Agree(d, e)
    ensures IsHit(d, k, o) <==> IsHit(e, k, o)
  {
    hide Writable;
    if 16 <= o <= LAST_PARAGRAPH && o % 16 == 0 {
      forall p: nat | o <= p < o + 4 ensures d[p] == e[p] {
        if d[p] != e[p] { WritesMissSignatures(d, p); }
      }
      assert d[o..o + 4] == e[o..o + 4];
    }
  }

  lemma SameUnique(d: Image, e: Image, k: Kind, o: nat)
    requires Agree(d, e)
    ensures Unique(d, k, o) <==> Unique(e, k, o)
  {
    hide Agree, IsHit;
    forall o': nat ensures IsHit(d, k, o') <==> IsHit(e, k, o') {
      SameHits(d, e, k, o');
    }
  }

  /** Where the structure at `o` keeps its length. */
  predicate IsLengthByte(k: Kind, j: nat) {
    match k
    case Pci32 => j == 9
    case Mp => j == 8
    case Pcmp => 4 <= j <= 5
    case Pir => 6 <= j <= 7
    case Pnp => j == 5
  }

  /** No write reaches the length bytes of a structure. */
  lemma LengthByteIsSafe(d: Image, k: Kind, o: nat, j: nat)
    requires IsHit(d, k, o) && IsLengthByte(k, j)
    ensures !Writable(d, o + j)
  {
    hide Signature;
    if Writable(d, o + j) {
      WritesMissSignatures(d, o + j);
      assert o % 16 == 0;
      if j == 8 {
        WriteAt8(d, o);
        SignaturesDiffer(d, Mp, Pnp, o);
      } else {
        assert j == 7;
        WriteAt7(d, o);
        SignaturesDiffer(d, Pir, Pcmp, o);
      }
    }
  }

  lemma WriteAt8(d: Image, o: nat)
    requires o % 16 == 0 && Writable(d, o + 8)
    ensures IsHit(d, Pnp, o)
  {
    hide Signature;
  }

  lemma WriteAt7(d: Image, o: nat)
    requires o % 16 == 0 && Writable(d, o + 7)
    ensures IsHit(d, Pcmp, o)
  {
    hide Signature;
  }

  lemma SameLength(d: Image, e: Image, k: Kind, o: nat)
    requires Agree(d, e) && IsHit(d, k, o)
    ensures Length(d, k, o) == Length(e, k, o)
  {
    hide Writable, Signature;
    match k {
      case Pci32 => LengthByteIsSafe(d, k, o, 9);
      case Mp => LengthByteIsSafe(d, k, o, 8);
      case Pcmp => LengthByteIsSafe(d, k, o, 4); LengthByteIsSafe(d, k, o, 5);
      case Pir => LengthByteIsSafe(d, k, o, 6); LengthByteIsSafe(d, k, o, 7);
      case Pnp => LengthByteIsSafe(d, k, o, 5);
    }
  }

  /** Two structures never share a checksum byte. */
  lemma WritesAreApart(d: Image, k: Kind, o: nat, k': Kind, o': nat)
    requires IsHit(d, k, o) && IsHit(d, k', o') && o + ChecksumAt(k) == o' + ChecksumAt(k')
    ensures k == k' && o == o'
  {
    if o == o' { SignaturesDiffer(d, k, k', o); }
  }

  // ------------------------------------------------------------------ one stage

  lemma RepairedAt(e: Image, k: Kind, o: nat)
    requires AllHeadersOk(e, k) && Unique(e, k, o)
    ensures HeaderOk(e, k, o) && Repaired(e, k) == e[o + ChecksumAt(k) := Fix(e, k, o)]
  {
    hide HeaderOk, Fix, Signature;
  }

  lemma StageAgrees(d: Image, e: Image, k: Kind)
    requires Agree(d, e) && AllHeadersOk(e, k)
    ensures Agree(d, Repaired(e, k))
  {
    hide IsHit, HeaderOk, Fix;
    if o: nat :| Unique(e, k, o) {
      RepairedAt(e, k, o);
      SameUnique(d, e, k, o);
      assert WrittenFor(d, k, o + ChecksumAt(k));
    }
  }

  /** The checksum byte of the structure at `o` is the one its other bytes ask for. */
  ghost predicate Settled(e: Image, k: Kind, o: nat) {
    && o <= LAST_PARAGRAPH && o + MinHeader(k) <= MAX_OFFSET
    && o + Length(e, k, o) <= MAX_OFFSET
    && e[o + ChecksumAt(k)] == Negated(SumBut(e, o, Length(e, k, o), ChecksumAt(k)))
  }

  /** The place of a kind in the order in which `main` treats them. */
  function Rank(k: Kind): nat {
    match k
    case Pci32 => 0
    case Mp => 1
    case Pcmp => 2
    case Pir => 3
    case Pnp => 4
  }

  /** No checksum byte that is written later lies inside the structure at `o`. */
  ghost predicate Undisturbed(d: Image, k: Kind, o: nat)
    requires o <= LAST_PARAGRAPH
  {
    forall k': Kind, o': nat :: Rank(k') > Rank(k) && Unique(d, k', o') ==>
      !(o <= o' + ChecksumAt(k') < o + Length(d, k, o))
  }

  lemma OwnStageSettles(d: Image, e: Image, k: Kind, o: nat)
    requires Agree(d, e) && Unique(d, k, o) && AllHeadersOk(e, k)
    ensures Settled(Repaired(e, k), k, o)
  {
    hide Agree, IsHit;
    SameUnique(d, e, k, o);
    RepairedAt(e, k, o);
    StageAgrees(d, e, k);
    var r := Repaired(e, k);
    HitOfUnique(d, k, o);
    SameLength(d, e, k, o);
    SameLength(d, r, k, o);
    hide Length;
    SumButFrame(e, r, o, Length(e, k, o), ChecksumAt(k));
  }

  lemma HitOfUnique(d: Image, k: Kind, o: nat)
    requires Unique(d, k, o)
    ensures IsHit(d, k, o) && o <= LAST_PARAGRAPH
  {
  }

  // ------------------------------------------------------------------ all stages

  lemma {:induction false} StagesAgree(d: Image, e: Image, ks: seq<Kind>)
    requires Agree(d, e) && Stages(e, ks).Some?
    ensures Agree(d, Stages(e, ks).value)
    decreases |ks|
  {
    hide Agree, AllHeadersOk;
    if ks != [] {
      StageAgrees(d, e, ks[0]);
      StagesAgree(d, Repaired(e, ks[0]), ks[1..]);
    }
  }

  lemma FinalAgrees(d: Image, e: Image)
    requires Agree(d, e)
    ensures Agree(d, Final(e))
  {
    hide Sum;
  }

  lemma AgreeSelf(d: Image)
    ensures Agree(d, d)
  {
  }

  lemma RunAgrees(d: Image)
    ensures Run(d).Some? ==> Agree(d, Run(d).value)
  {
    hide Agree, Stages, Final;
    if Run(d).Some? {
      AgreeSelf(d);
      StagesAgree(d, d, KINDS);
      FinalAgrees(d, Stages(d, KINDS).value);
    }
  }

  lemma SameLengthOfUnique(d: Image, e: Image, k: Kind, o: nat)
    requires Agree(d, e) && Unique(d, k, o) && o <= LAST_PARAGRAPH
    ensures Length(d, k, o) == Length(e, k, o)
  {
    SameLength(d, e, k, o);
  }

  lemma SettledMissesLastByte(e: Image, k: Kind, o: nat)
    requires Settled(e, k, o)
    ensures o + Length(e, k, o) <= BIOS_OFFSET && o + ChecksumAt(k) < BIOS_OFFSET
  {
  }

  // ------------------------------------------------------------------ main results

  /** After an error-free run the whole image sums to zero. */
  lemma ImageSumsToZero(d: Image)
    ensures Run(d).Some? ==> Sum(Run(d).value, 0, LEN_BIOS_DATA) % 0x100 == 0
  {
    hide Stages;
    if Run(d).Some? {
      var e := Stages(d, KINDS).value;
      SumFrame(e, Final(e), 0, MAX_OFFSET);
      NegatedCancels(Sum(e, 0, MAX_OFFSET));
      SumUnfolds(Final(e));
    }
  }

  lemma SumUnfolds(d: Image)
    ensures Sum(d, 0, LEN_BIOS_DATA) == Sum(d, 0, MAX_OFFSET) + d[MAX_OFFSET]
  {
  }

  /** A run changes no signature and no length of a structure. */
  lemma StructuresStayPut(d: Image, k: Kind, o: nat)
    ensures Run(d).Some? ==> (IsHit(d, k, o) <==> IsHit(Run(d).value, k, o))
    ensures Run(d).Some? && IsHit(d, k, o) ==> Length(d, k, o) == Length(Run(d).value, k, o)
  {
    if Run(d).Some? {
      RunAgrees(d);
      hide Agree, Run, Length;
      SameHits(d, Run(d).value, k, o);
      if IsHit(d, k, o) { SameLength(d, Run(d).value, k, o); }
    }
  }

  /** The image file after a run: unchanged when the run stops with an error. */
  ghost function FileAfter(d: Image): Image {
    match Run(d)
    case None => d
    case Some(r) => r
  }

  lemma SettledStageIsIdle(r: Image, k: Kind)
    requires AllHeadersOk(r, k)
    requires forall o: nat :: Unique(r, k, o) ==> Settled(r, k, o)
    ensures Repaired(r, k) == r
  {
    if o: nat :| Unique(r, k, o) {
      RepairedAt(r, k, o);
      assert r[o + ChecksumAt(k) := r[o + ChecksumAt(k)]] == r;
    }
  }

  lemma {:induction false} SettledStagesAreIdle(r: Image, ks: seq<Kind>)
    requires forall k: Kind, o: nat :: Unique(r, k, o) ==> Settled(r, k, o)
    ensures Stages(r, ks) == None || Stages(r, ks) == Some(r)
    decreases |ks|
  {
    hide AllHeadersOk, Unique, Settled;
    if ks != [] && AllHeadersOk(r, ks[0]) {
      SettledStageIsIdle(r, ks[0]);
      SettledStagesAreIdle(r, ks[1..]);
    }
  }
}
