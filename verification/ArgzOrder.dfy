/** Ordered insertion into an argz vector. */
module ArgzOrder {
  import opened Wrappers
  import opened Argz
  import opened Sequences

  /** `strcmp` on characters: negative, zero or positive. */
  function Compare(a: string, b: string): int {
    if a == "" && b == "" then 0
    else if a == "" then -1
    else if b == "" then 1
    else if a[0] < b[0] then -1
    else if b[0] < a[0] then 1
    else Compare(a[1..], b[1..])
  }

  /** a and b agree on their first k characters, and there a ends before b does or has a smaller character. */
  predicate PrecedesAt(a: string, b: string, k: nat) {
    && k <= |a| && k <= |b| && a[..k] == b[..k]
    && (k == |a| < |b| || (k < |a| && k < |b| && a[k] < b[k]))
  }

  /** The alphabetical order. */
  ghost predicate Less(a: string, b: string) { exists k: nat :: PrecedesAt(a, b, k) }

  ghost predicate Sorted(ps: seq<string>) {
    forall i, j :: 0 <= i < j < |ps| ==> Less(ps[i], ps[j])
  }

  function Inserted(ps: seq<string>, e: string): seq<string> {
    if ps == [] then [e]
    else if Compare(e, ps[0]) < 0 then [e] + ps
    else if Compare(e, ps[0]) == 0 then ps
    else [ps[0]] + Inserted(ps[1..], e)
  }

  function InsertedAll(ps: seq<string>, es: seq<string>): seq<string>
    decreases |es|
  {
    if es == [] then ps else InsertedAll(Inserted(ps, es[0]), es[1..])
  }

  // ------------------------------------------------------------------ the order

  lemma {:induction false} CompareAntisymmetric(a: string, b: string)
    ensures (Compare(a, b) < 0) == (Compare(b, a) > 0) && (Compare(a, b) == 0 <==> a == b)
    decreases |a|
  {
    if a != "" && b != "" && a[0] == b[0] {
      CompareAntisymmetric(a[1..], b[1..]);
      assert a == [a[0]] + a[1..] && b == [b[0]] + b[1..];
    }
  }

  lemma {:induction false} CompareIsAlphabetical(a: string, b: string)
    ensures Compare(a, b) < 0 <==> Less(a, b)
    decreases |a|
  {
    if a != "" && b != "" && a[0] == b[0] {
      CompareIsAlphabetical(a[1..], b[1..]);
      assert a == [a[0]] + a[1..] && b == [b[0]] + b[1..];
      if k: nat :| PrecedesAt(a[1..], b[1..], k) {
        assert a[..k + 1] == [a[0]] + a[1..][..k] && b[..k + 1] == [b[0]] + b[1..][..k];
        assert PrecedesAt(a, b, k + 1);
      }
      if k: nat :| PrecedesAt(a, b, k) {
        assert k > 0 && a[1..][..k - 1] == a[..k][1..] && b[1..][..k - 1] == b[..k][1..];
        assert PrecedesAt(a[1..], b[1..], k - 1);
      }
    } else if a == "" && b != "" {
      assert PrecedesAt(a, b, 0);
    } else if a != "" && b != "" {
      if a[0] < b[0] { assert PrecedesAt(a, b, 0); }
      assert forall k: nat :: 0 < k <= |a| && k <= |b| ==> a[..k][0] == a[0] && b[..k][0] == b[0];
    }
  }

  /** What the three outcomes of a comparison mean. */
  lemma CompareExactly(a: string, b: string)
    ensures Compare(a, b) < 0 <==> Less(a, b)
    ensures Compare(a, b) == 0 <==> a == b
    ensures Compare(a, b) > 0 <==> Less(b, a)
  {
    CompareAntisymmetric(b, a);
    CompareAntisymmetric(a, b);
    CompareIsAlphabetical(a, b);
    CompareIsAlphabetical(b, a);
  }

  lemma {:induction false} CompareTransitive(a: string, b: string, c: string)
    requires Compare(a, b) < 0 && Compare(b, c) < 0
    ensures Compare(a, c) < 0
    decreases |a|
  {
    if a != "" && c != "" && a[0] == b[0] == c[0] {
      CompareTransitive(a[1..], b[1..], c[1..]);
    }
  }

  lemma LessTransitive(a: string, b: string, c: string)
    requires Less(a, b) && Less(b, c)
    ensures Less(a, c)
  {
    hide Less, Compare;
    CompareExactly(a, b);
    CompareExactly(b, c);
    CompareExactly(a, c);
    CompareTransitive(a, b, c);
  }

  // ------------------------------------------------------------------ insertion

  lemma {:induction false} InsertedMembers(ps: seq<string>, e: string, x: string)
    ensures x in Inserted(ps, e) <==> x in ps || x == e
    decreases |ps|
  {
    if ps != [] {
      CompareAntisymmetric(e, ps[0]);
      assert ps == [ps[0]] + ps[1..];
      if Compare(e, ps[0]) > 0 { InsertedMembers(ps[1..], e, x); }
    }
  }

  /** In any list, sorted or not, the entry goes before the first one that is not less, unless that one is
      the entry itself. */
  lemma {:induction false} InsertedExactly(ps: seq<string>, e: string) returns (n: nat)
    ensures n <= |ps| && forall i :: 0 <= i < n ==> Less(ps[i], e)
    ensures n < |ps| ==> ps[n] == e || Less(e, ps[n])
    ensures Inserted(ps, e) == if n < |ps| && ps[n] == e then ps else ps[..n] + [e] + ps[n..]
    decreases |ps|
  {
    hide Less, Compare;
    n := 0;
    if ps != [] {
      CompareExactly(e, ps[0]);
      if Compare(e, ps[0]) > 0 {
        var m := InsertedExactly(ps[1..], e);
        n := m + 1;
        PlacedBehind(ps, e, m);
      }
    }
  }

  /** A place in the rest of a list, seen from the whole list. */
  lemma PlacedBehind(ps: seq<string>, e: string, m: nat)
    requires m < |ps|
    ensures [ps[0]] + (ps[1..][..m] + [e] + ps[1..][m..]) == ps[..m + 1] + [e] + ps[m + 1..]
    ensures [ps[0]] + ps[1..] == ps
  {
    assert ps[..m + 1] == [ps[0]] + ps[1..][..m] && ps[m + 1..] == ps[1..][m..];
  }

  /** Insertion keeps a vector strictly sorted, and therefore free of duplicates. */
  lemma {:induction false} InsertedStaysSorted(ps: seq<string>, e: string)
    requires Sorted(ps)
    ensures Sorted(Inserted(ps, e))
    decreases |ps|
  {
    hide Less, Compare;
    if ps != [] {
      CompareExactly(e, ps[0]);
      if Compare(e, ps[0]) < 0 {
        forall j | 0 <= j < |ps| ensures Less(e, ps[j]) {
          if j > 0 { LessTransitive(e, ps[0], ps[j]); }
        }
      } else if e != ps[0] {
        InsertedStaysSorted(ps[1..], e);
        var rest := Inserted(ps[1..], e);
        forall j | 0 <= j < |rest| ensures Less(ps[0], rest[j]) {
          assert rest[j] in rest;
          InsertedMembers(ps[1..], e, rest[j]);
          if rest[j] in ps[1..] {
            var k :| 0 <= k < |ps[1..]| && ps[1..][k] == rest[j];
            assert Less(ps[0], ps[k + 1]);
          }
        }
      }
    }
  }

  lemma {:induction false} InsertedAllSorted(ps: seq<string>, es: seq<string>)
    requires Sorted(ps)
    ensures Sorted(InsertedAll(ps, es))
    ensures forall x :: x in InsertedAll(ps, es) <==> x in ps || x in es
    decreases |es|
  {
    if es != [] {
      InsertedStaysSorted(ps, es[0]);
      InsertedAllSorted(Inserted(ps, es[0]), es[1..]);
      assert es == [es[0]] + es[1..];
      forall x ensures x in InsertedAll(ps, es) <==> x in ps || x in es {
        InsertedMembers(ps, es[0], x);
      }
    }
  }

  /** A strictly sorted vector is determined by its entries. */
  lemma {:induction false} SortedIsUnique(ps: seq<string>, qs: seq<string>)
    requires Sorted(ps) && Sorted(qs) && forall x :: x in ps <==> x in qs
    ensures ps == qs
    decreases |ps|
  {
    if ps == [] {
      FirstIsMember(qs);
    } else {
      assert ps[0] in ps && ps[0] in qs && qs[0] in ps;
      FirstIsLeast(ps, qs[0]);
      FirstIsLeast(qs, ps[0]);
      CompareExactly(ps[0], qs[0]);
      assert ps[0] == qs[0];
      forall x ensures x in ps[1..] <==> x in qs[1..] {
        RestMembers(ps, x);
        RestMembers(qs, x);
      }
      SortedIsUnique(ps[1..], qs[1..]);
    }
  }

  lemma FirstIsMember(ps: seq<string>)
    ensures ps != [] ==> ps[0] in ps
  {
  }

  lemma FirstIsLeast(ps: seq<string>, x: string)
    requires Sorted(ps) && x in ps
    ensures x == ps[0] || Less(ps[0], x)
  {
    var i :| 0 <= i < |ps| && ps[i] == x;
  }

  lemma RestMembers(ps: seq<string>, x: string)
    requires Sorted(ps) && ps != []
    ensures x in ps[1..] <==> x in ps && x != ps[0]
  {
    CompareExactly(ps[0], ps[0]);
    assert ps == [ps[0]] + ps[1..];
    if x in ps[1..] {
      var i :| 0 <= i < |ps[1..]| && ps[1..][i] == x;
      assert Less(ps[0], ps[i + 1]);
    }
  }

  /** Starting from an empty vector, the result is strictly sorted, holds exactly the inserted
      entries, and does not depend on the order or number of the insertions. */
  lemma InsertionsSortTheEntries(es: seq<string>, fs: seq<string>)
    requires forall x :: x in es <==> x in fs
    ensures Sorted(InsertedAll([], es)) && forall x :: x in InsertedAll([], es) <==> x in es
    ensures InsertedAll([], es) == InsertedAll([], fs)
  {
    InsertedAllSorted([], es);
    InsertedAllSorted([], fs);
    SortedIsUnique(InsertedAll([], es), InsertedAll([], fs));
  }

  // ------------------------------------------------------------------ the code

  /** An argz vector: its bytes, and for the proof the entries they hold. */
  class Vector {
    var buf: string
    ghost var entries: seq<string>

    ghost predicate Valid()
      reads this
    {
      Entries(entries) && buf == Packed(entries)
    }

    constructor ()
      ensures Valid() && entries == []
    {
      buf, entries := "", [];
    }

    /** The search loop: where the entry belongs, or that it is there already. */
    method FindPlace(entry: string) returns (before: Option<nat>, present: bool, ghost n: nat)
      requires Valid() && entry != "" && IsText(entry)
      ensures n <= |entries|
      ensures present ==> Inserted(entries, entry) == entries
      ensures !present ==> Inserted(entries, entry) == entries[..n] + ([entry] + entries[n..])
      ensures EntryStarts(buf, entries, n, before)
    {
      FirstEntry(buf, entries);
      NothingPassed(entries, entry);
      present := false;
      before := NextEntry(buf, None);
      n := 0;
      while before.Some?
        invariant 0 <= n <= |entries| && EntryStarts(buf, entries, n, before) && BelongsFrom(entries, n, entry)
        decreases |entries| - n
      {
        hide Packed, EndOf, Compare, Inserted, NextEntry, EntryStarts, BelongsFrom, Entries;
        var b := before.value;
        EntriesAreText(entries);
        NextEntryStarts(buf, entries, n, b);
        var cmp := Compare(entry, buf[b..EndOf(buf, b)]);
        PlaceStep(entries, n, entry);
        if cmp < 0 { return; }
        if cmp == 0 {
          present := true;
          return;
        }
        before := NextEntry(buf, before);
        n := n + 1;
      }
      hide Inserted, Packed;
      NoEntryLeft(buf, entries, n);
      BelongsAtEnd(entries, entry);
    }

    /** `lt_argz_insertinorder`, with the insertion at an entry boundary as one update of the bytes. */
    method InsertInOrder(entry: string)
      requires Valid() && entry != "" && IsText(entry)
      modifies this
      ensures Valid() && entries == Inserted(old(entries), entry)
    {
      hide Packed, Inserted;
      var before, present;
      ghost var n;
      before, present, n := FindPlace(entry);
      if present { return; }
      if before.Some? {
        buf := buf[..before.value] + (entry + [EOS]) + buf[before.value..];
      } else {
        NoEntryLeft(buf, entries, n);
        NoBytes();
        buf := buf + (entry + [EOS]);
      }
      InsertedBytes(entries, n, entry);
      assert entries[..n] + [entry] + entries[n..] == entries[..n] + ([entry] + entries[n..]);
      entries := entries[..n] + [entry] + entries[n..];
    }
  }

  /** Any sequence of `lt_argz_insertinorder` calls. */
  method InsertAll(vector: Vector, es: seq<string>)
    requires vector.Valid() && Entries(es)
    modifies vector
    ensures vector.Valid() && vector.entries == InsertedAll(old(vector.entries), es)
  {
    var i := 0;
    assert es[0..] == es;
    while i < |es|
      invariant 0 <= i <= |es| && vector.Valid()
      invariant InsertedAll(vector.entries, es[i..]) == InsertedAll(old(vector.entries), es)
    {
      hide Inserted, Packed;
      assert es[i..][0] == es[i] && es[i..][1..] == es[i + 1..];
      vector.InsertInOrder(es[i]);
      i := i + 1;
    }
    assert es[i..] == [];
  }

  /** The entry belongs behind the first n. */
  predicate BelongsFrom(ps: seq<string>, n: nat, e: string) {
    n <= |ps| && Inserted(ps, e) == ps[..n] + Inserted(ps[n..], e)
  }

  lemma NothingPassed(ps: seq<string>, e: string)
    ensures BelongsFrom(ps, 0, e)
  {
    hide Inserted;
    assert ps[0..] == ps;
  }

  lemma BelongsAtEnd(ps: seq<string>, e: string)
    requires BelongsFrom(ps, |ps|, e)
    ensures Inserted(ps, e) == ps[..|ps|] + ([e] + ps[|ps|..])
  {
    assert ps[|ps|..] == [];
  }

  lemma EntriesAreText(ps: seq<string>)
    requires Entries(ps)
    ensures forall i :: 0 <= i < |ps| ==> IsText(ps[i])
  {
  }

  /** One comparison of the search, in terms of the whole list. */
  lemma PlaceStep(ps: seq<string>, n: nat, e: string)
    requires n < |ps| && BelongsFrom(ps, n, e)
    ensures Compare(e, ps[n]) < 0 ==> Inserted(ps, e) == ps[..n] + ([e] + ps[n..])
    ensures Compare(e, ps[n]) == 0 ==> Inserted(ps, e) == ps
    ensures Compare(e, ps[n]) > 0 ==> BelongsFrom(ps, n + 1, e)
  {
    var rest := ps[n..];
    var cmp := Compare(e, ps[n]);
    assert rest[0] == ps[n] && rest[1..] == ps[n + 1..];
    assert Inserted(rest, e) ==
      if cmp < 0 then [e] + rest else if cmp == 0 then rest else [ps[n]] + Inserted(rest[1..], e);
    hide Compare, Inserted;
    assert ps[..n] + rest == ps;
    Regroup(ps[..n], ps[n], Inserted(rest[1..], e));
    assert ps[..n + 1] == ps[..n] + [ps[n]];
  }

  lemma NoBytes()
    ensures Packed([]) == ""
  {
  }

  lemma InsertedBytes(ps: seq<string>, n: nat, e: string)
    requires n <= |ps|
    ensures Packed(ps[..n] + [e] + ps[n..]) == Packed(ps[..n]) + (e + [EOS]) + Packed(ps[n..])
    ensures ps[..n] + ps[n..] == ps
    ensures Packed(ps[..n]) + Packed(ps[n..]) == Packed(ps)
  {
    hide Packed;
    PackedConcat(ps[..n] + [e], ps[n..]);
    PackedConcat(ps[..n], [e]);
    PackedOne(e);
    PackedConcat(ps[..n], ps[n..]);
    assert ps[..n] + ps[n..] == ps;
  }
}
