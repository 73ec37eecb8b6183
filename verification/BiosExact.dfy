/** How structures that contain each other's checksum bytes come out of a run of biossums: exactly when
    they still sum to zero, when a second run succeeds, and when it changes nothing. */
module BiosExact {
  import opened Wrappers
  import opened Words
  import opened BiosSums
  import opened BiosTheorems

  // ------------------------------------------------------------------ every byte is written at most once

  lemma {:induction false} StagesConcat(e: Image, a: seq<Kind>, b: seq<Kind>)
    ensures Stages(e, a + b) == match Stages(e, a) case None => None case Some(f) => Stages(f, b)
    decreases |a|
  {
    hide AllHeadersOk, Repaired;
    if a == [] {
      assert a + b == b;
    } else {
      assert (a + b)[1..] == a[1..] + b;
      if AllHeadersOk(e, a[0]) { StagesConcat(Repaired(e, a[0]), a[1..], b); }
    }
  }

  lemma StageTouches(d: Image, e: Image, k: Kind, p: nat)
    requires Agree(d, e) && AllHeadersOk(e, k) && p < LEN_BIOS_DATA && !WrittenFor(d, k, p)
    ensures Repaired(e, k)[p] == e[p]
  {
    hide Agree, IsHit, Fix, HeaderOk, AllHeadersOk;
    if o: nat :| Unique(e, k, o) {
      RepairedAt(e, k, o);
      SameUnique(d, e, k, o);
    }
  }

  lemma {:induction false} StagesTouch(d: Image, e: Image, ks: seq<Kind>, p: nat)
    requires Agree(d, e) && Stages(e, ks).Some? && p < LEN_BIOS_DATA
    requires forall k :: k in ks ==> !WrittenFor(d, k, p)
    ensures Stages(e, ks).value[p] == e[p]
    decreases |ks|
  {
    hide Agree, AllHeadersOk, WrittenFor, Repaired;
    if ks != [] {
      assert ks[0] in ks && forall k :: k in ks[1..] ==> k in ks;
      StageTouches(d, e, ks[0], p);
      StageAgrees(d, e, ks[0]);
      StagesTouch(d, Repaired(e, ks[0]), ks[1..], p);
    }
  }

  /** The image after the first n stages. */
  ghost function Reached(d: Image, n: nat): Image
    requires n <= 5
  {
    if Stages(d, KINDS[..n]).Some? then Stages(d, KINDS[..n]).value else d
  }

  lemma PrefixRuns(d: Image, n: nat)
    requires n <= 5 && Run(d).Some?
    ensures Stages(d, KINDS[..n]).Some? && Stages(Reached(d, n), KINDS[n..]).Some?
    ensures Run(d).value == Final(Stages(Reached(d, n), KINDS[n..]).value)
    ensures Agree(d, Reached(d, n))
  {
    hide Stages, Agree, Final;
    assert KINDS[..n] + KINDS[n..] == KINDS;
    StagesConcat(d, KINDS[..n], KINDS[n..]);
    AgreeSelf(d);
    StagesAgree(d, d, KINDS[..n]);
  }

  lemma KindAt(k: Kind)
    ensures Rank(k) < 5 && KINDS[Rank(k)] == k
  {
  }

  lemma KindIn(k: Kind, n: nat)
    requires n <= 5
    ensures k in KINDS[..n] <==> Rank(k) < n
    ensures k in KINDS[n..] <==> Rank(k) >= n
  {
    KindAt(k);
    if Rank(k) < n { assert KINDS[..n][Rank(k)] == k; } else { assert KINDS[n..][Rank(k) - n] == k; }
    forall i | 0 <= i < 5 ensures Rank(KINDS[i]) == i {
    }
  }

  /** Position p is the checksum byte of a structure treated among the first n kinds, or after them. */
  ghost predicate WrittenBefore(d: Image, n: nat, p: nat) { exists k :: Rank(k) < n && WrittenFor(d, k, p) }

  ghost predicate WrittenFrom(d: Image, n: nat, p: nat) { exists k :: Rank(k) >= n && WrittenFor(d, k, p) }

  lemma WriterIsUnique(d: Image, k: Kind, k': Kind, p: nat)
    requires WrittenFor(d, k, p) && WrittenFor(d, k', p)
    ensures k == k'
  {
    hide IsHit;
    HitOfUnique(d, k, p - ChecksumAt(k));
    HitOfUnique(d, k', p - ChecksumAt(k'));
    WritesAreApart(d, k, p - ChecksumAt(k), k', p - ChecksumAt(k'));
  }

  ghost predicate WrittenLater(d: Image, k: Kind, p: nat) { WrittenFrom(d, Rank(k) + 1, p) }

  /** After n stages a byte has its final value if a stage so far writes it, and otherwise still its first. */
  lemma WrittenOnce(d: Image, n: nat, p: nat)
    requires n <= 5 && Run(d).Some? && p < BIOS_OFFSET
    ensures Reached(d, n)[p] == if WrittenBefore(d, n, p) then Run(d).value[p] else d[p]
    ensures !WrittenFrom(d, n, p) ==> Run(d).value[p] == Reached(d, n)[p]
  {
    PrefixRuns(d, n);
    hide Agree, Stages, WrittenFor, Run, Sum;
    AgreeSelf(d);
    forall k ensures (k in KINDS[..n] <==> Rank(k) < n) && (k in KINDS[n..] <==> Rank(k) >= n) { KindIn(k, n); }
    if !WrittenBefore(d, n, p) { StagesTouch(d, d, KINDS[..n], p); }
    if !WrittenFrom(d, n, p) { StagesTouch(d, Reached(d, n), KINDS[n..], p); }
    if WrittenBefore(d, n, p) && WrittenFrom(d, n, p) {
      var k :| Rank(k) < n && WrittenFor(d, k, p);
      var k' :| Rank(k') >= n && WrittenFor(d, k', p);
      WriterIsUnique(d, k, k', p);
      assert false;
    }
  }

  // ------------------------------------------------------------------ what later writes add to a structure

  /** How much the stages after that of k change byte p. */
  ghost function DriftAt(d: Image, r: Image, k: Kind, p: nat): int
    requires p < LEN_BIOS_DATA
  {
    if WrittenLater(d, k, p) then (r[p] as int) - d[p] else 0
  }

  /** The sum of these changes over [o, o + n). */
  ghost function Drift(d: Image, r: Image, k: Kind, o: nat, n: nat): int
    requires o + n <= LEN_BIOS_DATA
  {
    if n == 0 then 0 else Drift(d, r, k, o, n - 1) + DriftAt(d, r, k, o + n - 1)
  }

  lemma {:induction false} SumButDrift(d: Image, e: Image, r: Image, k: Kind, o: nat, n: nat, c: nat)
    requires o + n <= LEN_BIOS_DATA
    requires forall p: nat :: o <= p < o + n ==> (r[p] as int) - e[p] == DriftAt(d, r, k, p)
    requires c < n ==> DriftAt(d, r, k, o + c) == 0
    ensures SumBut(r, o, n, c) == SumBut(e, o, n, c) + Drift(d, r, k, o, n)
    decreases n
  {
    hide DriftAt;
    if n > 0 { SumButDrift(d, e, r, k, o, n - 1, c); }
  }

  lemma OneStage(e: Image, k: Kind)
    ensures Stages(e, [k]) == if AllHeadersOk(e, k) then Some(Repaired(e, k)) else None
  {
    hide AllHeadersOk, Repaired;
    assert [k][1..] == [];
    if AllHeadersOk(e, k) { assert Stages(e, [k]) == Stages(Repaired(e, k), []); }
  }

  lemma OwnStage(d: Image, k: Kind, o: nat)
    requires Run(d).Some? && Unique(d, k, o)
    ensures Rank(k) < 5 && Settled(Reached(d, Rank(k) + 1), k, o)
  {
    hide Agree, Unique, AllHeadersOk, Settled, Stages, Repaired, Run, Final, Rank;
    KindAt(k);
    var n := Rank(k);
    PrefixRuns(d, n);
    PrefixRuns(d, n + 1);
    assert KINDS[..n + 1] == KINDS[..n] + [k];
    StagesConcat(d, KINDS[..n], [k]);
    var e := Reached(d, n);
    OneStage(e, k);
    OwnStageSettles(d, e, k, o);
  }

  lemma OwnByte(d: Image, k: Kind, o: nat)
    requires Unique(d, k, o)
    ensures WrittenFor(d, k, o + ChecksumAt(k)) && !WrittenLater(d, k, o + ChecksumAt(k))
  {
    hide Unique;
    var p := o + ChecksumAt(k);
    assert WrittenFor(d, k, p);
    if WrittenLater(d, k, p) {
      var k' :| Rank(k') >= Rank(k) + 1 && WrittenFor(d, k', p);
      WriterIsUnique(d, k, k', p);
      assert false;
    }
  }

  lemma DriftIsTheChange(d: Image, k: Kind, p: nat)
    requires Run(d).Some? && p < BIOS_OFFSET
    ensures Rank(k) < 5
    ensures (Run(d).value[p] as int) - Reached(d, Rank(k) + 1)[p] == DriftAt(d, Run(d).value, k, p)
  {
    var n := Rank(k) + 1;
    WrittenOnce(d, n, p);
    hide WrittenFor, Run, Stages;
    if WrittenFrom(d, n, p) && WrittenBefore(d, n, p) {
      var k1 :| Rank(k1) < n && WrittenFor(d, k1, p);
      var k2 :| Rank(k2) >= n && WrittenFor(d, k2, p);
      WriterIsUnique(d, k1, k2, p);
      assert false;
    }
  }

  lemma NegatedExactly(s: nat, s': nat)
    ensures Negated(s) == Negated(s') <==> ((s' as int) - s) % 0x100 == 0
    ensures (s' + Negated(s)) % 0x100 == ((s' as int) - s) % 0x100
  {
    hide Negated;
    NegatedForm(s);
    NegatedForm(s');
    Shifted((s' as int) - s, RoundsUp(s));
    Shifted((s' as int) - s, RoundsUp(s) - RoundsUp(s'));
    ByteChange(Negated(s), Negated(s'));
  }

  function RoundsUp(s: nat): nat { if s % 0x100 == 0 then s / 0x100 else s / 0x100 + 1 }

  lemma NegatedForm(s: nat)
    ensures Negated(s) + s == 0x100 * RoundsUp(s)
  {
  }

  lemma Shifted(x: int, m: int)
    ensures (x + 0x100 * m) % 0x100 == x % 0x100
  {
  }

  lemma ByteChange(a: Byte, b: Byte)
    ensures ((a as int) - b) % 0x100 == 0 <==> a == b
  {
  }

  /** What the run makes of the bytes of a structure found exactly once. */
  lemma AfterRun(d: Image, k: Kind, o: nat)
    requires Run(d).Some? && Unique(d, k, o) && o <= LAST_PARAGRAPH
    ensures o + Length(d, k, o) <= MAX_OFFSET && o + ChecksumAt(k) < BIOS_OFFSET && o + MinHeader(k) <= MAX_OFFSET
    ensures Length(Run(d).value, k, o) == Length(d, k, o)
    ensures var n := Length(d, k, o);
            var s: int := (SumBut(Run(d).value, o, n, ChecksumAt(k)) as int) - Drift(d, Run(d).value, k, o, n);
            s >= 0 && Run(d).value[o + ChecksumAt(k)] == Negated(s)
  {
    hide Run, Unique, Agree, Stages, SumBut, Drift, DriftAt;
    var r := Run(d).value;
    OwnStage(d, k, o);
    var e := Reached(d, Rank(k) + 1);
    PrefixRuns(d, Rank(k) + 1);
    RunAgrees(d);
    SameLengthOfUnique(d, e, k, o);
    SameLengthOfUnique(d, r, k, o);
    SettledMissesLastByte(e, k, o);
    var n, c := Length(d, k, o), ChecksumAt(k);
    OwnByte(d, k, o);
    forall p: nat | o <= p < o + n || p == o + c ensures (r[p] as int) - e[p] == DriftAt(d, r, k, p) {
      DriftIsTheChange(d, k, p);
    }
    OwnDrift(d, r, k, o);
    SumButDrift(d, e, r, k, o, n, c);
  }

  lemma OwnDrift(d: Image, r: Image, k: Kind, o: nat)
    requires Unique(d, k, o) && o + ChecksumAt(k) < LEN_BIOS_DATA
    ensures DriftAt(d, r, k, o + ChecksumAt(k)) == 0
  {
    OwnByte(d, k, o);
  }

  // ------------------------------------------------------------------ exactly when a structure is right

  /** The sum of a structure after the run is the sum of what later stages changed in it, modulo 256. */
  lemma StructureSumsToDrift(d: Image, k: Kind, o: nat)
    requires o <= LAST_PARAGRAPH && ChecksumAt(k) < Length(d, k, o)
    ensures Run(d).Some? && Unique(d, k, o) ==>
              var n := Length(d, k, o);
              o + n <= LEN_BIOS_DATA && Sum(Run(d).value, o, o + n) % 0x100 == Drift(d, Run(d).value, k, o, n) % 0x100
  {
    hide Run, Unique, Sum, SumBut, Drift;
    if Run(d).Some? && Unique(d, k, o) {
      var n, c, r := Length(d, k, o), ChecksumAt(k), Run(d).value;
      AfterRun(d, k, o);
      SumSplits(r, o, n, c);
      NegatedExactly((SumBut(r, o, n, c) as int) - Drift(d, r, k, o, n), SumBut(r, o, n, c));
    }
  }

  /** Whether or not its length covers the checksum byte, that byte is right exactly when the later
      changes cancel. */
  lemma SettledExactly(d: Image, k: Kind, o: nat)
    requires o <= LAST_PARAGRAPH
    ensures Run(d).Some? && Unique(d, k, o) ==>
              o + Length(d, k, o) <= LEN_BIOS_DATA &&
              (Settled(Run(d).value, k, o) <==> Drift(d, Run(d).value, k, o, Length(d, k, o)) % 0x100 == 0)
  {
    hide Run, Unique, SumBut, Drift;
    if Run(d).Some? && Unique(d, k, o) {
      var n, c, r := Length(d, k, o), ChecksumAt(k), Run(d).value;
      AfterRun(d, k, o);
      NegatedExactly((SumBut(r, o, n, c) as int) - Drift(d, r, k, o, n), SumBut(r, o, n, c));
    }
  }

  lemma {:induction false} NoDrift(d: Image, r: Image, k: Kind, o: nat, n: nat)
    requires o + n <= LEN_BIOS_DATA && forall p: nat :: o <= p < o + n ==> !WrittenLater(d, k, p)
    ensures Drift(d, r, k, o, n) == 0
    decreases n
  {
    if n > 0 { NoDrift(d, r, k, o, n - 1); }
  }

  lemma {:induction false} OneDrift(d: Image, r: Image, k: Kind, o: nat, n: nat, p: nat)
    requires o + n <= LEN_BIOS_DATA && o <= p < o + n && WrittenLater(d, k, p)
    requires forall q: nat :: o <= q < o + n && q != p ==> !WrittenLater(d, k, q)
    ensures Drift(d, r, k, o, n) == (r[p] as int) - d[p]
    decreases n
  {
    hide WrittenFrom;
    if p == o + n - 1 {
      NoDrift(d, r, k, o, n - 1);
    } else {
      OneDrift(d, r, k, o, n - 1, p);
    }
  }

  /** The only checksum byte that is written later inside the structure at o is that of (k', o'). */
  ghost predicate OnlyIntruder(d: Image, k: Kind, o: nat, k': Kind, o': nat)
    requires o <= LAST_PARAGRAPH
  {
    && Rank(k') > Rank(k) && Unique(d, k', o') && o <= o' + ChecksumAt(k') < o + Length(d, k, o)
    && forall q: nat :: o <= q < o + Length(d, k, o) && q != o' + ChecksumAt(k') ==> !WrittenLater(d, k, q)
  }

  /** With one intruder the structure still sums to zero exactly when the run leaves that byte as it was. */
  lemma OneIntruder(d: Image, k: Kind, o: nat, k': Kind, o': nat)
    requires o <= LAST_PARAGRAPH && ChecksumAt(k) < Length(d, k, o)
    requires Run(d).Some? && Unique(d, k, o) && OnlyIntruder(d, k, o, k', o')
    ensures o + Length(d, k, o) <= LEN_BIOS_DATA
    ensures Sum(Run(d).value, o, o + Length(d, k, o)) % 0x100 == 0 <==>
            Run(d).value[o' + ChecksumAt(k')] == d[o' + ChecksumAt(k')]
  {
    hide Run, Unique, Sum;
    var p := o' + ChecksumAt(k');
    StructureSumsToDrift(d, k, o);
    AfterRun(d, k, o);
    OwnByte(d, k', o');
    hide WrittenFor;
    assert WrittenLater(d, k, p);
    OneDrift(d, Run(d).value, k, o, Length(d, k, o), p);
    ByteChange(Run(d).value[p], d[p]);
  }

  /** Nothing written before its own stage lies inside the structure at o. */
  ghost predicate Untouched(d: Image, k: Kind, o: nat)
    requires o <= LAST_PARAGRAPH
  {
    forall q: nat :: o <= q < o + Length(d, k, o) ==> !WrittenBefore(d, Rank(k), q)
  }

  /** The byte a run writes for such a structure is known from the image it starts from. */
  lemma WrittenValue(d: Image, k: Kind, o: nat)
    requires Run(d).Some? && Unique(d, k, o) && o <= LAST_PARAGRAPH && Untouched(d, k, o)
    ensures o + Length(d, k, o) <= MAX_OFFSET && o + ChecksumAt(k) < BIOS_OFFSET
    ensures Run(d).value[o + ChecksumAt(k)] == Negated(SumBut(d, o, Length(d, k, o), ChecksumAt(k)))
  {
    hide Run, Unique, Agree, Stages, SumBut;
    var n, c, m := Length(d, k, o), ChecksumAt(k), Rank(k) + 1;
    AfterRun(d, k, o);
    OwnStage(d, k, o);
    PrefixRuns(d, m);
    var e := Reached(d, m);
    SameLengthOfUnique(d, e, k, o);
    OwnByte(d, k, o);
    WrittenOnce(d, m, o + c);
    forall q: nat | o <= q < o + n && q != o + c ensures d[q] == e[q] {
      NotYetWritten(d, k, o, q);
      WrittenOnce(d, m, q);
    }
    SumButFrame(d, e, o, n, c);
  }

  lemma NotYetWritten(d: Image, k: Kind, o: nat, q: nat)
    requires Unique(d, k, o) && q != o + ChecksumAt(k) && !WrittenBefore(d, Rank(k), q)
    ensures !WrittenBefore(d, Rank(k) + 1, q)
  {
    hide IsHit;
    if k' :| Rank(k') < Rank(k) + 1 && WrittenFor(d, k', q) {
      SameRank(k, k');
    }
  }

  lemma SameRank(k: Kind, k': Kind)
    ensures Rank(k) == Rank(k') ==> k == k'
  {
  }

  /** So the outer structure comes out right exactly when the inner one's checksum was right before. */
  lemma OneIntruderExactly(d: Image, k: Kind, o: nat, k': Kind, o': nat)
    requires o <= LAST_PARAGRAPH && ChecksumAt(k) < Length(d, k, o) && o' <= LAST_PARAGRAPH
    requires Run(d).Some? && Unique(d, k, o) && OnlyIntruder(d, k, o, k', o') && Untouched(d, k', o')
    ensures o + Length(d, k, o) <= LEN_BIOS_DATA
    ensures Sum(Run(d).value, o, o + Length(d, k, o)) % 0x100 == 0 <==> Settled(d, k', o')
  {
    hide Run, Unique, Sum, SumBut, WrittenFrom, Untouched;
    OneIntruder(d, k, o, k', o');
    WrittenValue(d, k', o');
    AfterRun(d, k', o');
  }

  // ------------------------------------------------------------------ several intruders, known from the start

  /** What the run will write at p, read from the image it starts from: the checksum that the structure
      with its checksum byte at p asks for. */
  ghost function Wanted(d: Image, k: Kind, p: nat): Byte
    requires p < LEN_BIOS_DATA && WrittenLater(d, k, p)
  {
    var k' :| Rank(k') >= Rank(k) + 1 && WrittenFor(d, k', p);
    HitOfUnique(d, k', p - ChecksumAt(k'));
    WantedOf(d, k', p - ChecksumAt(k'))
  }

  ghost function WantedOf(d: Image, k: Kind, o: nat): Byte
    requires o <= LAST_PARAGRAPH
  {
    if o + Length(d, k, o) <= LEN_BIOS_DATA then Negated(SumBut(d, o, Length(d, k, o), ChecksumAt(k))) else 0
  }

  ghost function KnownDriftAt(d: Image, k: Kind, p: nat): int
    requires p < LEN_BIOS_DATA
  {
    if WrittenLater(d, k, p) then (Wanted(d, k, p) as int) - d[p] else 0
  }

  ghost function KnownDrift(d: Image, k: Kind, o: nat, n: nat): int
    requires o + n <= LEN_BIOS_DATA
  {
    if n == 0 then 0 else KnownDrift(d, k, o, n - 1) + KnownDriftAt(d, k, o + n - 1)
  }

  /** Nothing written before its own stage lies inside any later structure whose checksum byte is in [o, o + n). */
  ghost predicate IntrudersUntouched(d: Image, k: Kind, o: nat, n: nat) {
    forall k': Kind, o': nat ::
      Rank(k') > Rank(k) && Unique(d, k', o') && o <= o' + ChecksumAt(k') < o + n ==>
        o' <= LAST_PARAGRAPH && Untouched(d, k', o')
  }

  lemma WantedIsWritten(d: Image, k: Kind, o: nat, n: nat, p: nat)
    requires Run(d).Some? && IntrudersUntouched(d, k, o, n) && o <= p < o + n && p < LEN_BIOS_DATA
    ensures DriftAt(d, Run(d).value, k, p) == KnownDriftAt(d, k, p)
  {
    hide Run, Unique, Untouched, SumBut;
    if WrittenLater(d, k, p) {
      forall k' | Rank(k') >= Rank(k) + 1 && WrittenFor(d, k', p)
        ensures p - ChecksumAt(k') <= LAST_PARAGRAPH && Run(d).value[p] == WantedOf(d, k', p - ChecksumAt(k'))
      {
        var o' := p - ChecksumAt(k');
        assert o' + ChecksumAt(k') == p;
        HitOfUnique(d, k', o');
        WrittenValue(d, k', o');
      }
    }
  }

  lemma {:induction false} DriftIsKnown(d: Image, k: Kind, o: nat, n: nat, m: nat)
    requires Run(d).Some? && m <= n && o + n <= LEN_BIOS_DATA && IntrudersUntouched(d, k, o, n)
    ensures Drift(d, Run(d).value, k, o, m) == KnownDrift(d, k, o, m)
    decreases m
  {
    hide Run, DriftAt, KnownDriftAt, IntrudersUntouched;
    if m > 0 {
      WantedIsWritten(d, k, o, n, o + m - 1);
      DriftIsKnown(d, k, o, n, m - 1);
    }
  }

  /** With any number of intruders that are themselves untouched, the sum after the run can be read from the
      image before it. */
  lemma StructureSumsToKnownDrift(d: Image, k: Kind, o: nat)
    requires o <= LAST_PARAGRAPH && ChecksumAt(k) < Length(d, k, o)
    requires Run(d).Some? && Unique(d, k, o) && IntrudersUntouched(d, k, o, Length(d, k, o))
    ensures var n := Length(d, k, o);
            o + n <= LEN_BIOS_DATA && Sum(Run(d).value, o, o + n) % 0x100 == KnownDrift(d, k, o, n) % 0x100
  {
    hide Run, Unique, IntrudersUntouched, Sum, Drift, KnownDrift;
    StructureSumsToDrift(d, k, o);
    DriftIsKnown(d, k, o, Length(d, k, o), Length(d, k, o));
  }

  // ------------------------------------------------------------------ no intruders

  lemma UndisturbedHasNoDrift(d: Image, r: Image, k: Kind, o: nat)
    requires o <= LAST_PARAGRAPH && Undisturbed(d, k, o) && o + Length(d, k, o) <= LEN_BIOS_DATA
    ensures Drift(d, r, k, o, Length(d, k, o)) == 0
  {
    hide Unique;
    NoDrift(d, r, k, o, Length(d, k, o));
  }

  /** A structure found exactly once whose length covers its checksum byte, and in which no checksum byte that
      is written later lies, sums to zero. */
  lemma StructureSumsToZero(d: Image, k: Kind, o: nat)
    requires o <= LAST_PARAGRAPH && ChecksumAt(k) < Length(d, k, o)
    ensures Run(d).Some? && Unique(d, k, o) && Undisturbed(d, k, o) ==>
              o + Length(d, k, o) <= LEN_BIOS_DATA &&
              Sum(Run(d).value, o, o + Length(d, k, o)) % 0x100 == 0
  {
    hide Run, Unique, Undisturbed, Sum, Drift;
    if Run(d).Some? && Unique(d, k, o) && Undisturbed(d, k, o) {
      StructureSumsToDrift(d, k, o);
      UndisturbedHasNoDrift(d, Run(d).value, k, o);
    }
  }

  // ------------------------------------------------------------------ a second run

  /** Header checks other than those of PCMP look only at bytes that no run changes. */
  lemma HeadersKept(d: Image, e: Image, f: Image, k: Kind)
    requires Agree(d, e) && Agree(d, f) && AllHeadersOk(e, k) && k != Pcmp
    ensures AllHeadersOk(f, k)
  {
    hide Agree, IsHit, Length;
    forall o: nat | IsHit(f, k, o) ensures o <= LAST_PARAGRAPH && HeaderOk(f, k, o) {
      SameHits(d, f, k, o);
      SameHits(d, e, k, o);
      HitIsLow(d, k, o);
      SameLength(d, e, k, o);
      SameLength(d, f, k, o);
    }
  }

  lemma HitIsLow(d: Image, k: Kind, o: nat)
    requires IsHit(d, k, o)
    ensures o <= LAST_PARAGRAPH && o % 16 == 0
  {
  }

  /** The bytes that the PCMP check wants to be zero. */
  ghost predicate PcmpZero(d: Image, f: Image) {
    forall o: nat :: IsHit(d, Pcmp, o) ==> o + 42 < LEN_BIOS_DATA && f[o + 40] == 0 && f[o + 42] == 0
  }

  lemma PcmpHeaders(d: Image, e: Image, f: Image)
    requires Agree(d, e) && Agree(d, f) && AllHeadersOk(e, Pcmp)
    ensures AllHeadersOk(f, Pcmp) <==> PcmpZero(d, f)
  {
    hide IsHit, Length, Agree;
    forall o: nat ensures IsHit(d, Pcmp, o) <==> IsHit(f, Pcmp, o) { SameHits(d, f, Pcmp, o); }
    forall o: nat | IsHit(d, Pcmp, o)
      ensures o <= LAST_PARAGRAPH && o + 42 < LEN_BIOS_DATA
      ensures HeaderOk(f, Pcmp, o) <==> f[o + 40] == 0 && f[o + 42] == 0
    {
      SameHits(d, e, Pcmp, o);
      HitIsLow(d, Pcmp, o);
      SameLength(d, e, Pcmp, o);
      SameLength(d, f, Pcmp, o);
      Byte41(d, e, o);
      Byte41(d, f, o);
    }
  }

  lemma Byte41(d: Image, e: Image, o: nat)
    requires Agree(d, e) && o % 16 == 0 && o + 41 < LEN_BIOS_DATA
    ensures e[o + 41] == d[o + 41]
  {
    hide Writable;
    if d[o + 41] != e[o + 41] { WritesMissSignatures(d, o + 41); }
  }

  lemma StageSucceeds(d: Image, k: Kind)
    requires Run(d).Some?
    ensures Rank(k) < 5 && AllHeadersOk(Reached(d, Rank(k)), k) && Agree(d, Reached(d, Rank(k)))
  {
    hide Agree, AllHeadersOk, Stages, Repaired, Run, Final, Rank;
    KindAt(k);
    var n := Rank(k);
    PrefixRuns(d, n);
    PrefixRuns(d, n + 1);
    assert KINDS[..n + 1] == KINDS[..n] + [k];
    StagesConcat(d, KINDS[..n], [k]);
    OneStage(Reached(d, n), k);
  }

  lemma {:induction false} OtherStagesSucceed(d: Image, e: Image, ks: seq<Kind>)
    requires Run(d).Some? && Agree(d, e) && Pcmp !in ks
    ensures Stages(e, ks).Some? && Agree(d, Stages(e, ks).value)
    decreases |ks|
  {
    hide Agree, AllHeadersOk, Run;
    if ks != [] {
      assert ks[0] in ks;
      StageSucceeds(d, ks[0]);
      HeadersKept(d, Reached(d, Rank(ks[0])), e, ks[0]);
      StageAgrees(d, e, ks[0]);
      OtherStagesSucceed(d, Repaired(e, ks[0]), ks[1..]);
    }
  }

  /** The two stages before that of PCMP write only at offset 10 of a paragraph. */
  lemma Byte40(d: Image, o: nat)
    requires Stages(d, KINDS[..2]).Some? && o % 16 == 0 && o + 40 < LEN_BIOS_DATA
    ensures Reached(d, 2)[o + 40] == d[o + 40]
  {
    hide Stages, WrittenFor, Agree;
    AgreeSelf(d);
    assert KINDS[..2] == [Pci32, Mp];
    forall k | k in KINDS[..2] ensures !WrittenFor(d, k, o + 40) {
      if WrittenFor(d, k, o + 40) { CheckedRemainder(d, k, o + 40); }
    }
    StagesTouch(d, d, KINDS[..2], o + 40);
  }

  lemma SecondRunStages(d: Image)
    requires Run(d).Some?
    ensures var r := Run(d).value;
            && Stages(r, KINDS[..2]).Some? && Agree(d, Reached(r, 2))
            && (Run(r).Some? <==> AllHeadersOk(Reached(r, 2), Pcmp))
  {
    hide Agree, AllHeadersOk, Repaired;
    RunAgrees(d);
    var r := Run(d).value;
    hide Run;
    assert KINDS[..2] == [Pci32, Mp] && KINDS == KINDS[..2] + [Pcmp, Pir, Pnp] && [Pcmp, Pir, Pnp][1..] == [Pir, Pnp];
    OtherStagesSucceed(d, r, KINDS[..2]);
    StagesConcat(r, KINDS[..2], [Pcmp, Pir, Pnp]);
    var e := Reached(r, 2);
    if AllHeadersOk(e, Pcmp) {
      StageAgrees(d, e, Pcmp);
      OtherStagesSucceed(d, Repaired(e, Pcmp), [Pir, Pnp]);
    }
    RunOfStages(r);
  }

  lemma RunOfStages(d: Image)
    ensures Run(d).Some? <==> Stages(d, KINDS).Some?
  {
  }

  /** A second run stops with an error exactly when the first has put a byte that is not zero where the
      PCMP check looks, or the second does so before it looks. */
  lemma SecondRunSucceedsExactly(d: Image)
    ensures Run(d).Some? ==>
              (Run(Run(d).value).Some? <==>
               forall o: nat :: IsHit(d, Pcmp, o) ==>
                 o + 42 < LEN_BIOS_DATA && Run(d).value[o + 40] == 0 && Reached(Run(d).value, 2)[o + 42] == 0)
  {
    if Run(d).Some? {
      var r := Run(d).value;
      SecondRunStages(d);
      StageSucceeds(d, Pcmp);
      PcmpHeaders(d, Reached(d, Rank(Pcmp)), Reached(r, 2));
      hide Run, Stages, IsHit, AllHeadersOk;
      forall o: nat | IsHit(d, Pcmp, o) && o + 42 < LEN_BIOS_DATA ensures Reached(r, 2)[o + 40] == r[o + 40] {
        HitIsLow(d, Pcmp, o);
        Byte40(r, o);
      }
    }
  }

  /** What later stages change in each structure found exactly once cancels. */
  ghost predicate AllDriftsCancel(d: Image, r: Image) {
    forall k: Kind, o: nat :: Unique(d, k, o) ==>
      o <= LAST_PARAGRAPH && o + Length(d, k, o) <= LEN_BIOS_DATA && Drift(d, r, k, o, Length(d, k, o)) % 0x100 == 0
  }

  lemma CancelledIsSettled(d: Image)
    requires Run(d).Some?
    ensures AllDriftsCancel(d, Run(d).value) <==>
            forall k: Kind, o: nat :: Unique(d, k, o) ==> Settled(Run(d).value, k, o)
  {
    hide Run, Unique, Settled, Drift;
    forall k: Kind, o: nat | Unique(d, k, o)
      ensures o <= LAST_PARAGRAPH && o + Length(d, k, o) <= LEN_BIOS_DATA
      ensures Settled(Run(d).value, k, o) <==> Drift(d, Run(d).value, k, o, Length(d, k, o)) % 0x100 == 0
    {
      HitOfUnique(d, k, o);
      SettledExactly(d, k, o);
    }
  }

  lemma SettledIsIdle(d: Image)
    requires Run(d).Some? && Run(Run(d).value).Some?
    requires forall k: Kind, o: nat :: Unique(d, k, o) ==> Settled(Run(d).value, k, o)
    ensures Run(Run(d).value) == Some(Run(d).value)
  {
    hide Stages, Unique, Settled, Sum, Agree;
    var r := Run(d).value;
    RunAgrees(d);
    forall k: Kind, o: nat | Unique(r, k, o) ensures Settled(r, k, o) { SameUnique(d, r, k, o); }
    SettledStagesAreIdle(r, KINDS);
    var e := Stages(d, KINDS).value;
    SumFrame(e, r, 0, MAX_OFFSET);
    assert Final(r) == r;
  }

  lemma IdleIsSettled(r: Image, k: Kind, o: nat)
    requires Run(r) == Some(r) && Unique(r, k, o)
    ensures Settled(r, k, o)
  {
    hide Run, Unique, Stages, SumBut;
    HitOfUnique(r, k, o);
    OwnStage(r, k, o);
    var n := Rank(k) + 1;
    var e := Reached(r, n);
    PrefixRuns(r, n);
    SameLengthOfUnique(r, e, k, o);
    SettledMissesLastByte(e, k, o);
    forall p: nat | p < BIOS_OFFSET ensures e[p] == r[p] { WrittenOnce(r, n, p); }
    SumButFrame(e, r, o, Length(r, k, o), ChecksumAt(k));
  }

  /** Running the tool twice gives the same file exactly when a run stops with an error, or what later
      stages change in each structure cancels. */
  lemma SecondRunExactly(d: Image)
    ensures FileAfter(FileAfter(d)) == FileAfter(d) <==>
            (Run(d).None? || Run(Run(d).value).None? || AllDriftsCancel(d, Run(d).value))
  {
    hide Unique, Settled, AllDriftsCancel, Stages, Final;
    if Run(d).Some? && Run(Run(d).value).Some? {
      var r := Run(d).value;
      CancelledIsSettled(d);
      if AllDriftsCancel(d, r) { SettledIsIdle(d); }
      if Run(r).value == r {
        RunAgrees(d);
        hide Run, Agree;
        forall k: Kind, o: nat | Unique(d, k, o) ensures Settled(r, k, o) {
          SameUnique(d, r, k, o);
          IdleIsSettled(r, k, o);
        }
      }
    }
  }

  ghost predicate NoneDisturbed(d: Image) {
    forall k: Kind, o: nat :: Unique(d, k, o) ==> o <= LAST_PARAGRAPH && Undisturbed(d, k, o)
  }

  /** Running the tool a second time changes no byte, when no structure contains a checksum byte that is
      written after its own. */
  lemma SecondRunChangesNothing(d: Image)
    requires NoneDisturbed(d)
    ensures FileAfter(FileAfter(d)) == FileAfter(d)
  {
    hide Run, Unique, Undisturbed, Drift, FileAfter;
    if Run(d).Some? {
      forall k: Kind, o: nat | Unique(d, k, o)
        ensures o <= LAST_PARAGRAPH && o + Length(d, k, o) <= LEN_BIOS_DATA
        ensures Drift(d, Run(d).value, k, o, Length(d, k, o)) % 0x100 == 0
      {
        AfterRun(d, k, o);
        UndisturbedHasNoDrift(d, Run(d).value, k, o);
      }
    }
    SecondRunExactly(d);
  }
}
