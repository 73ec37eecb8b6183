/** Every rewrite lowers a measure of the live instructions: their number, then the number of mov and
    lea instructions, then the number of pairs of a push before a later instruction that is no push. */
module PeepholeTermination {
  import opened Wrappers
  import opened Machine
  import opened Peephole
  import opened PeepholeSound
  import opened PeepholePass

  predicate IsCopy(i: Instr) { i.Lea? || (i.Bin? && i.bop == Mov) }

  function Copies(p: seq<Instr>): nat {
    if p == [] then 0 else (if IsCopy(p[0]) then 1 else 0) + Copies(p[1..])
  }

  function Pushes(p: seq<Instr>): nat {
    if p == [] then 0 else (if p[0].Push? then 1 else 0) + Pushes(p[1..])
  }

  function Others(p: seq<Instr>): nat {
    if p == [] then 0 else (if p[0].Push? then 0 else 1) + Others(p[1..])
  }

  function Inversions(p: seq<Instr>): nat {
    if p == [] then 0 else (if p[0].Push? then Others(p[1..]) else 0) + Inversions(p[1..])
  }

  predicate Lower(q: seq<Instr>, p: seq<Instr>) {
    || |q| < |p|
    || (|q| == |p| && Copies(q) < Copies(p))
    || (|q| == |p| && Copies(q) == Copies(p) && Inversions(q) < Inversions(p))
  }

  lemma {:induction false} CountsConcat(a: seq<Instr>, b: seq<Instr>)
    ensures Copies(a + b) == Copies(a) + Copies(b)
    ensures Pushes(a + b) == Pushes(a) + Pushes(b)
    ensures Others(a + b) == Others(a) + Others(b)
    ensures Inversions(a + b) == Inversions(a) + Inversions(b) + Pushes(a) * Others(b)
    decreases |a|
  {
    if a == [] {
      assert a + b == b;
    } else {
      assert (a + b)[1..] == a[1..] + b;
      CountsConcat(a[1..], b);
      assert Pushes(a) * Others(b) == (if a[0].Push? then 1 else 0) * Others(b) + Pushes(a[1..]) * Others(b);
    }
  }

  /** Lower, and with the pushes and non-pushes unchanged when only the inversions drop. */
  predicate LocallyLower(q: seq<Instr>, p: seq<Instr>) {
    || |q| < |p|
    || (|q| == |p| && Copies(q) < Copies(p))
    || (|q| == |p| && Copies(q) == Copies(p) && Inversions(q) < Inversions(p)
        && Pushes(q) == Pushes(p) && Others(q) == Others(p))
  }

  lemma LowerInContext(before: seq<Instr>, q: seq<Instr>, p: seq<Instr>, after: seq<Instr>)
    requires LocallyLower(q, p)
    ensures Lower(before + q + after, before + p + after)
  {
    hide Copies, Pushes, Others, Inversions;
    CountsConcat(before + q, after);
    CountsConcat(before, q);
    CountsConcat(before + p, after);
    CountsConcat(before, p);
  }

  lemma Counts1(a: Instr)
    ensures Copies([a]) == (if IsCopy(a) then 1 else 0)
    ensures Pushes([a]) == (if a.Push? then 1 else 0) && Others([a]) == (if a.Push? then 0 else 1)
    ensures Inversions([a]) == 0
  {
    assert [a][1..] == [];
  }

  lemma Counts2(a: Instr, b: Instr)
    ensures Copies([a, b]) == (if IsCopy(a) then 1 else 0) + (if IsCopy(b) then 1 else 0)
    ensures Pushes([a, b]) == (if a.Push? then 1 else 0) + (if b.Push? then 1 else 0)
    ensures Others([a, b]) == (if a.Push? then 0 else 1) + (if b.Push? then 0 else 1)
    ensures Inversions([a, b]) == if a.Push? && !b.Push? then 1 else 0
  {
    hide Copies, Pushes, Others, Inversions;
    Counts1(a);
    Counts1(b);
    CountsConcat([a], [b]);
    assert [a] + [b] == [a, b];
  }

  lemma {:induction false} KeptShorter(out: seq<Slot>)
    ensures |Kept(out)| <= |out|
    ensures None in out ==> |Kept(out)| < |out|
    decreases |out|
  {
    if out != [] {
      KeptShorter(out[1..]);
      assert out == [out[0]] + out[1..];
    }
  }

  /** Most patches flag at least one record. */
  lemma SomeRecordFlagged(w: Window)
    requires Rewrite(w).Some?
    requires Rewrite(w).value.rule !in {PushMovTop, SubMovTop, SwapPush, LeaEsp}
    ensures None in Rewrite(w).value.out
  {
    if w[0].Push? {
      SomePushFlagged(w);
    } else {
      hide RewritePush;
      var out := Rewrite(w).value.out;
      assert |out| >= 1 && (out[0].None? || out[|out| - 1].None?);
    }
  }

  lemma SomePushFlagged(w: Window)
    requires Rewrite(w).Some? && w[0].Push?
    requires Rewrite(w).value.rule !in {PushMovTop, SubMovTop, SwapPush, LeaEsp}
    ensures None in Rewrite(w).value.out
  {
    assert Rewrite(w) == RewritePush(w);
    var out := Rewrite(w).value.out;
    hide RewriteSwap;
    assert |out| >= 1 && (out[0].None? || out[|out| - 1].None?);
  }

  /** push esp; sub [esp], 4 in place of two records of which the second was a mov. */
  lemma PushFixLowers(w: Window)
    requires Rewrite(w).Some? && Rewrite(w).value.rule in {PushMovTop, SubMovTop}
    ensures |Rewrite(w).value.out| == 2 && LocallyLower(Kept(Rewrite(w).value.out), w[..2])
  {
    hide Copies, Pushes, Others, Inversions, Kept;
    var out := Rewrite(w).value.out;
    assert |out| == 2 && out[0].Some? && out[0].value.Push?;
    assert IsCopy(w[1]) && !IsCopy(w[0]);
    assert w[..2] == [w[0], w[1]] && out == [out[0], out[1]];
    KeptPair(out[0].value, out[1]);
    Counts2(w[0], w[1]);
    if out[1].Some? {
      assert !IsCopy(out[1].value);
      Counts2(out[0].value, out[1].value);
    }
  }

  lemma SwapLowers(w: Window)
    requires Rewrite(w).Some? && Rewrite(w).value.rule == SwapPush
    ensures |Rewrite(w).value.out| == 2 && LocallyLower(Kept(Rewrite(w).value.out), w[..2])
  {
    hide Copies, Pushes, Others, Inversions, Kept;
    var out := Rewrite(w).value.out;
    assert |out| == 2 && out[0].Some? && out[1] == Some(w[0]);
    assert w[0].Push? && !w[1].Push? && !out[0].value.Push? && IsCopy(out[0].value) == IsCopy(w[1]);
    assert w[..2] == [w[0], w[1]] && out == [out[0], out[1]];
    KeptPair(out[0].value, out[1]);
    Counts2(w[0], w[1]);
    Counts2(out[0].value, w[0]);
  }

  lemma LeaEspLowers(w: Window)
    requires Rewrite(w).Some? && Rewrite(w).value.rule == LeaEsp
    ensures |Rewrite(w).value.out| == 1 && LocallyLower(Kept(Rewrite(w).value.out), w[..1])
  {
    hide Copies, Pushes, Others, Inversions, Kept;
    var out := Rewrite(w).value.out;
    assert |out| == 1 && w[..1] == [w[0]];
    Counts1(w[0]);
    if out[0].None? {
      KeptShorter(out);
    } else {
      KeptOne(out[0].value, 0);
      assert out == [Some(out[0].value)] + seq(0, _ => None);
      Counts1(out[0].value);
    }
  }

  /** Every patch, counted or not, leaves less than the records it replaces. */
  lemma PatchLowers(w: Window)
    requires Rewrite(w).Some?
    ensures |Rewrite(w).value.out| <= |w|
    ensures LocallyLower(Kept(Rewrite(w).value.out), w[..|Rewrite(w).value.out|])
  {
    hide Copies, Pushes, Others, Inversions, Kept;
    PatchFits(w);
    match Rewrite(w).value.rule {
      case PushMovTop => PushFixLowers(w);
      case SubMovTop => PushFixLowers(w);
      case SwapPush => SwapLowers(w);
      case LeaEsp => LeaEspLowers(w);
      case _ =>
        SomeRecordFlagged(w);
        KeptShorter(Rewrite(w).value.out);
    }
  }

  // ------------------------------------------------------------------ passes

  lemma LowerTransitive(r: seq<Instr>, q: seq<Instr>, p: seq<Instr>)
    requires (r == q || Lower(r, q)) && (q == p || Lower(q, p))
    ensures r == p || Lower(r, p)
    ensures r != q || q != p ==> Lower(r, p)
  {
  }

  lemma StepLowers(p: Progress, i: nat)
    requires i <= |p.trace|
    ensures var q := PassStep(p, i);
            || q == p
            || (Lower(Live(q.trace), Live(p.trace)) && p.count <= q.count)
  {
    hide Rewrite, Safe, Lower, Live, Kept, Patched;
    var w := WindowAt(p.trace, i);
    if w.Some? && Rewrite(w.value).Some? {
      var out := Rewrite(w.value).value.out;
      PatchLowers(w.value);
      PatchInContext(p.trace, i, out);
      LowerInContext(Live(p.trace[..i]), Kept(out), w.value[..|out|], Live(p.trace[i + |out|..]));
    }
  }

  lemma {:induction false} PassFromLowers(p: Progress, i: nat)
    requires i <= |p.trace|
    ensures p.count <= PassFrom(p, i).count
    ensures PassFrom(p, i) == p || Lower(Live(PassFrom(p, i).trace), Live(p.trace))
    decreases |p.trace| - i
  {
    hide PassStep, Live, Lower;
    if i < |p.trace| {
      var q := PassStep(p, i);
      var r := PassFrom(q, i + 1);
      StepLowers(p, i);
      PassFromLowers(q, i + 1);
      LowerTransitive(Live(r.trace), Live(q.trace), Live(p.trace));
      LowerIrreflexive(Live(p.trace));
    }
  }

  lemma LowerIrreflexive(p: seq<Instr>)
    ensures !Lower(p, p)
  {
  }

  /** A pass that counts a rewrite lowers the measure, and the sweep after it keeps the live
      instructions. */
  lemma CountedPassLowers(t: seq<Record>)
    requires Pass(t).count > 0
    ensures Lower(Live(Swept(Pass(t).trace)), Live(t))
  {
    hide PassFrom, Lower, Live;
    PassFromLowers(Progress(t, 0, true), 0);
    SweepKeepsLive(Pass(t).trace);
  }
}
