/** The BIOS checksum fixer of biossums.c: five kinds of structure are searched for in a 64 KiB
    image; a structure found exactly once has its checksum byte repaired, and at the end the last
    byte of the image is set so that the image sums to zero. */
module BiosSums {
  import opened Wrappers
  import opened Words

  const LEN_BIOS_DATA := 0x10000
  const MAX_OFFSET := 0xFFFF
  const BIOS_OFFSET := 0xFFFF
  const LAST_PARAGRAPH := 0xFFF0

  /** In the order in which `main` treats them. */
  datatype Kind = Pci32 | Mp | Pcmp | Pir | Pnp

  type Image = s: seq<Byte> | |s| == LEN_BIOS_DATA witness seq(LEN_BIOS_DATA, _ => 0)

  // ------------------------------------------------------------------ structures

  function Signature(k: Kind): (s: seq<Byte>)
    ensures |s| == 4
  {
    match k
    case Pci32 => [0x5F, 0x33, 0x32, 0x5F]
    case Mp => [0x5F, 0x4D, 0x50, 0x5F]
    case Pcmp => [0x50, 0x43, 0x4D, 0x50]
    case Pir => [0x24, 0x50, 0x49, 0x52]
    case Pnp => [0x24, 0x50, 0x6E, 0x50]
  }

  function ChecksumAt(k: Kind): nat {
    match k
    case Pci32 => 10
    case Mp => 10
    case Pcmp => 7
    case Pir => 31
    case Pnp => 8
  }

  function MinHeader(k: Kind): nat {
    match k
    case Pci32 => 16
    case Mp => 16
    case Pcmp => 42
    case Pir => 32
    case Pnp => 32
  }

  function LittleEndian(low: nat, high: nat): nat { low + high * 0x100 }

  /** The length the structure at `o` claims to have. */
  function Length(d: Image, k: Kind, o: nat): nat
    requires o <= LAST_PARAGRAPH
  {
    match k
    case Pci32 => d[o + 9] * 16
    case Mp => d[o + 8] * 16
    case Pcmp => LittleEndian(d[o + 4], d[o + 5])
    case Pir => LittleEndian(d[o + 6], d[o + 7])
    case Pnp => d[o + 5]
  }

  /** Only paragraph boundaries from 16 on are searched. */
  predicate IsHit(d: Image, k: Kind, o: nat) {
    16 <= o <= LAST_PARAGRAPH && o % 16 == 0 && d[o..o + 4] == Signature(k)
  }

  predicate HeaderOk(d: Image, k: Kind, o: nat)
    requires o <= LAST_PARAGRAPH
  {
    && o + MinHeader(k) <= MAX_OFFSET
    && o + Length(d, k, o) <= MAX_OFFSET
    && (k.Pcmp? ==> d[o + 40] == 0 && d[o + 41] == 0 && d[o + 42] == 0)
  }

  ghost predicate AllHeadersOk(d: Image, k: Kind) {
    forall o :: IsHit(d, k, o) ==> HeaderOk(d, k, o)
  }

  ghost predicate Unique(d: Image, k: Kind, o: nat) {
    IsHit(d, k, o) && forall o' :: IsHit(d, k, o') ==> o' == o
  }

  // ------------------------------------------------------------------ sums

  function Sum(d: seq<Byte>, lo: nat, hi: nat): nat
    requires lo <= hi <= |d|
  {
    if lo == hi then 0 else Sum(d, lo, hi - 1) + d[hi - 1]
  }

  /** The sum over [o, o + n) without the byte at o + c. */
  function SumBut(d: seq<Byte>, o: nat, n: nat, c: nat): nat
    requires o + n <= |d|
  {
    if n == 0 then 0 else SumBut(d, o, n - 1, c) + (if n - 1 == c then 0 else d[o + n - 1])
  }

  /** -s on unsigned bytes. */
  function Negated(s: nat): Byte { (0x100 - s % 0x100) % 0x100 }

  /** The checksum byte that makes the structure at `o` sum to zero. */
  function Fix(d: Image, k: Kind, o: nat): Byte
    requires o <= LAST_PARAGRAPH && HeaderOk(d, k, o)
  {
    Negated(SumBut(d, o, Length(d, k, o), ChecksumAt(k)))
  }

  lemma {:induction false} SumFrame(d: seq<Byte>, e: seq<Byte>, lo: nat, hi: nat)
    requires |d| == |e| && lo <= hi <= |d| && forall p :: lo <= p < hi ==> d[p] == e[p]
    ensures Sum(d, lo, hi) == Sum(e, lo, hi)
    decreases hi
  {
    if lo < hi { SumFrame(d, e, lo, hi - 1); }
  }

  lemma {:induction false} SumButFrame(d: seq<Byte>, e: seq<Byte>, o: nat, n: nat, c: nat)
    requires |d| == |e| && o + n <= |d| && forall p :: o <= p < o + n && p != o + c ==> d[p] == e[p]
    ensures SumBut(d, o, n, c) == SumBut(e, o, n, c)
    decreases n
  {
    if n > 0 { SumButFrame(d, e, o, n - 1, c); }
  }

  lemma {:induction false} SumSplits(d: seq<Byte>, o: nat, n: nat, c: nat)
    requires o + n <= |d|
    ensures Sum(d, o, o + n) == SumBut(d, o, n, c) + (if c < n then d[o + c] else 0)
    decreases n
  {
    if n > 0 { SumSplits(d, o, n - 1, c); }
  }

  lemma NegatedCancels(s: nat)
    ensures (s + Negated(s)) % 0x100 == 0
  {
  }

  // ------------------------------------------------------------------ specification of a run

  ghost function Repaired(d: Image, k: Kind): Image
    requires AllHeadersOk(d, k)
  {
    if o: nat :| Unique(d, k, o) then d[o + ChecksumAt(k) := Fix(d, k, o)] else d
  }

  ghost function Stages(d: Image, ks: seq<Kind>): Option<Image>
    decreases |ks|
  {
    if ks == [] then Some(d)
    else if AllHeadersOk(d, ks[0]) then Stages(Repaired(d, ks[0]), ks[1..])
    else None
  }

  const KINDS: seq<Kind> := [Pci32, Mp, Pcmp, Pir, Pnp]

  function Final(d: Image): Image { d[BIOS_OFFSET := Negated(Sum(d, 0, MAX_OFFSET))] }

  /** The image a run writes back, or None when it stops with an error and writes nothing. */
  ghost function Run(d: Image): Option<Image> {
    match Stages(d, KINDS)
    case None => None
    case Some(e) => Some(Final(e))
  }

  // ------------------------------------------------------------------ the code

  function RoundUp(offset: nat): (r: nat)
    ensures offset % 16 == 0 ==> r == offset
  {
    (offset + 15) / 16 * 16
  }

  lemma HitAt(d: Image, k: Kind, o: nat)
    requires 16 <= o <= LAST_PARAGRAPH && o % 16 == 0
    ensures var s := Signature(k);
            IsHit(d, k, o) <==> d[o] == s[0] && d[o + 1] == s[1] && d[o + 2] == s[2] && d[o + 3] == s[3]
  {
    var s := Signature(k);
    assert d[o..o + 4] == [d[o], d[o + 1], d[o + 2], d[o + 3]] && s == [s[0], s[1], s[2], s[3]];
  }

  /** The five scanners differ in the signature only. */
  method GetOffset(data: array<Byte>, offset0: nat, k: Kind) returns (result: int)
    requires data.Length == LEN_BIOS_DATA
    ensures result == -1 ==> forall o: nat :: RoundUp(offset0) < o ==> !IsHit(data[..], k, o)
    ensures result != -1 ==> RoundUp(offset0) < result <= LAST_PARAGRAPH && IsHit(data[..], k, result)
    ensures result != -1 ==> forall o: nat :: RoundUp(offset0) < o < result ==> !IsHit(data[..], k, o)
  {
    result := -1;
    var offset := offset0 + 0x0F;
    offset := offset / 16 * 16;
    ghost var from := offset;
    Rounded(offset0);
    hide RoundUp;
    ghost var d: Image := data[..];
    var s := Signature(k);
    hide IsHit, Signature, NoHit;
    NoHitHere(d, k, from);
    while offset + 16 < MAX_OFFSET
      invariant offset % 16 == 0 && from <= offset && NoHit(d, k, from, offset)
    {
      HitAt(d, k, offset + 16);
      NoHitBetween(d, k, from, offset);
      offset := offset + 16;
      if data[offset] == s[0] && data[offset + 1] == s[1] && data[offset + 2] == s[2] && data[offset + 3] == s[3] {
        assert data[..] == d;
        NoHitMeans(d, k, from, offset - 1);
        return offset;
      }
    }
    assert data[..] == d;
    NoHitLeft(d, k, from, offset);
  }

  lemma Rounded(offset: nat)
    ensures (offset + 0x0F) / 16 * 16 == RoundUp(offset) && RoundUp(offset) % 16 == 0
  {
  }

  ghost predicate NoHit(d: Image, k: Kind, from: nat, to: nat) { forall o: nat :: from < o <= to ==> !IsHit(d, k, o) }

  lemma NoHitHere(d: Image, k: Kind, from: nat)
    ensures NoHit(d, k, from, from)
  {
  }

  lemma NoHitBetween(d: Image, k: Kind, from: nat, o: nat)
    requires o % 16 == 0 && NoHit(d, k, from, o)
    ensures NoHit(d, k, from, o + 15)
    ensures !IsHit(d, k, o + 16) ==> NoHit(d, k, from, o + 16)
  {
    hide Signature;
  }

  lemma NoHitMeans(d: Image, k: Kind, from: nat, to: nat)
    requires NoHit(d, k, from, to)
    ensures forall o: nat :: from < o < to + 1 ==> !IsHit(d, k, o)
  {
  }

  lemma NoHitLeft(d: Image, k: Kind, from: nat, o: nat)
    requires o + 16 >= MAX_OFFSET && o % 16 == 0 && NoHit(d, k, from, o)
    ensures forall o': nat :: from < o' ==> !IsHit(d, k, o')
  {
    hide Signature;
  }

  /** The five `calc_value` functions; `ok` is false when a `check` fails and the program stops. */
  method CalcValue(data: array<Byte>, offset: nat, k: Kind) returns (ok: bool, value: Byte)
    requires data.Length == LEN_BIOS_DATA && offset <= LAST_PARAGRAPH
    ensures ok == HeaderOk(data[..], k, offset)
    ensures ok ==> value == Fix(data[..], k, offset)
  {
    ok, value := false, 0;
    if offset + MinHeader(k) > MAX_OFFSET { return; }
    var len := Length(data[..], k, offset);
    if offset + len > MAX_OFFSET { return; }
    if k.Pcmp? {
      if data[offset + 40] != 0 || data[offset + 41] != 0 || data[offset + 42] != 0 { return; }
    }
    var sum := SumStructure(data, offset, len, ChecksumAt(k));
    hide SumBut;
    ok, value := true, Negated(sum);
    NegatedOfByte(SumBut(data[..], offset, len, ChecksumAt(k)));
  }

  /** The summing loop of `calc_value`, on unsigned bytes. */
  method SumStructure(data: array<Byte>, offset: nat, len: nat, c: nat) returns (sum: Byte)
    requires offset + len <= data.Length
    ensures sum == SumBut(data[..], offset, len, c) % 0x100
  {
    sum := 0;
    var i := 0;
    while i < len
      invariant 0 <= i <= len
      invariant sum == SumBut(data[..], offset, i, c) % 0x100
    {
      if i != c {
        sum := (sum + data[offset + i]) % 0x100;
      }
      i := i + 1;
    }
  }

  lemma NegatedOfByte(s: nat)
    ensures Negated(s % 0x100) == Negated(s)
  {
  }

  /** The search loop of one block of `main`: how many hits, the last one and its checksum. */
  method ScanHits(data: array<Byte>, k: Kind) returns (ok: bool, hits: nat, offset: nat, newVal: Byte)
    requires data.Length == LEN_BIOS_DATA
    ensures ok == AllHeadersOk(data[..], k)
    ensures ok && hits == 1 ==> Unique(data[..], k, offset) && newVal == Fix(data[..], k, offset)
    ensures ok && hits != 1 ==> forall o: nat :: !Unique(data[..], k, o)
  {
    hide Fix, HeaderOk, Length, Signature, MinHeader, ChecksumAt;
    ghost var d: Image := data[..];
    hits, offset, newVal := 0, 0, 0;
    ghost var first: nat := 0;
    var tmp := GetOffset(data, offset, k);
    assert RoundUp(offset) == offset && data[..] == d;
    while tmp != -1
      invariant 0 <= offset <= LAST_PARAGRAPH && offset % 16 == 0
      invariant tmp == -1 ==> forall o: nat :: offset < o ==> !IsHit(d, k, o)
      invariant tmp != -1 ==> offset < tmp && IsHit(d, k, tmp)
      invariant tmp != -1 ==> forall o: nat :: offset < o < tmp ==> !IsHit(d, k, o)
      invariant forall o: nat :: o <= offset && IsHit(d, k, o) ==> HeaderOk(d, k, o)
      invariant hits == 0 ==> offset == 0
      invariant hits >= 1 ==> IsHit(d, k, offset) && HeaderOk(d, k, offset) && newVal == Fix(d, k, offset)
      invariant hits == 1 ==> forall o: nat :: o < offset ==> !IsHit(d, k, o)
      invariant hits >= 2 ==> first < offset && IsHit(d, k, first)
      decreases if tmp == -1 then 0 else LEN_BIOS_DATA - offset
    {
      first := offset;
      offset := tmp;
      ok, newVal := CalcValue(data, offset, k);
      if !ok { return; }
      hits := hits + 1;
      tmp := GetOffset(data, offset, k);
      assert RoundUp(offset) == offset && data[..] == d;
    }
    ok := true;
  }

  /** One of the five search-and-repair blocks of `main`. */
  method RepairKind(data: array<Byte>, k: Kind) returns (ok: bool)
    requires data.Length == LEN_BIOS_DATA
    modifies data
    ensures ok == AllHeadersOk(old(data[..]), k)
    ensures data[..] == if ok then Repaired(old(data[..]), k) else old(data[..])
  {
    hide Fix, Length, Signature;
    ghost var d: Image := data[..];
    var hits, offset, newVal;
    ok, hits, offset, newVal := ScanHits(data, k);
    if ok && hits == 1 {
      if data[offset + ChecksumAt(k)] != newVal {
        data[offset + ChecksumAt(k)] := newVal;
      }
      assert data[..] == d[offset + ChecksumAt(k) := newVal];
    }
  }

  method RepairImage(data: array<Byte>) returns (ok: bool)
    requires data.Length == LEN_BIOS_DATA
    modifies data
    ensures ok == Run(old(data[..])).Some?
    ensures ok ==> data[..] == Run(old(data[..])).value
  {
    ghost var d: Image := data[..];
    var n := 0;
    while n < 5
      invariant 0 <= n <= 5
      invariant Stages(d, KINDS) == Stages(data[..], KINDS[n..])
    {
      ok := RepairKind(data, KINDS[n]);
      if !ok { return; }
      n := n + 1;
    }
    ghost var e: Image := data[..];
    var value := BiosCalcValue(data);
    if data[BIOS_OFFSET] != value { data[BIOS_OFFSET] := value; }
    assert data[..] == Final(e);
    ok := true;
  }

  method BiosCalcValue(data: array<Byte>) returns (value: Byte)
    requires data.Length == LEN_BIOS_DATA
    ensures value == Negated(Sum(data[..], 0, MAX_OFFSET))
  {
    var sum: Byte := 0;
    var i := 0;
    while i < MAX_OFFSET
      invariant 0 <= i <= MAX_OFFSET
      invariant sum == Sum(data[..], 0, i) % 0x100
    {
      sum := (sum + data[i]) % 0x100;
      i := i + 1;
    }
    value := Negated(sum);
    NegatedOfByte(Sum(data[..], 0, MAX_OFFSET));
  }
}
