/** The optimiser as the code runs it: records overwritten and flagged in place, flagged records
    erased, and passes repeated until one counts no rewrite. */
module PeepholeCode {
  import opened Wrappers
  import opened Machine
  import opened Peephole
  import opened PeepholePass
  import opened PeepholeTermination
  import opened Sequences

  /** Passes and sweeps until a pass counts nothing; the recursion ends on every trace. */
  function Fixpoint(t: seq<Record>): Progress
    decreases |Live(t)|, Copies(Live(t)), Inversions(Live(t))
  {
    var p := Pass(t);
    if p.count < 1 then Progress(Swept(p.trace), 0, p.safe)
    else
      CountedPassLowers(t);
      var r := Fixpoint(Swept(p.trace));
      Progress(r.trace, p.count + r.count, p.safe && r.safe)
  }

  class InstSequence {
    var insts: seq<Record>

    constructor (insts: seq<Record>)
      ensures this.insts == insts
    {
      this.insts := insts;
    }

    /** The window of decoded records; `reLoop` when one of them is already flagged. */
    method Gather(i: nat) returns (reLoop: bool, window: seq<Instr>)
      requires i < |insts|
      ensures WindowAt(insts, i) == if reLoop || |window| < 2 then None else Some(window)
    {
      reLoop, window := false, [];
      var nhas := 0;
      while nhas < 6
        invariant 0 <= nhas <= 6 && i + nhas <= |insts|
        invariant window == Instrs(insts[i..i + nhas])
        invariant forall j :: i <= j < i + nhas ==> !insts[j].flagged
      {
        if i + nhas >= |insts| { break; }
        if insts[i + nhas].flagged {
          reLoop := true;
          break;
        }
        window := window + [insts[i + nhas].ins];
        nhas := nhas + 1;
      }
      if reLoop {
        assert insts[i + nhas].flagged;
      }
    }

    /** Overwrites or flags the window's first records. */
    method WriteRecords(i: nat, out: seq<Slot>)
      requires i + |out| <= |insts|
      modifies this
      ensures insts == Patched(old(insts), i, out)
    {
      var j := 0;
      while j < |out|
        invariant 0 <= j <= |out| && |insts| == |old(insts)|
        invariant forall k :: 0 <= k < |insts| && !(i <= k < i + j) ==> insts[k] == old(insts)[k]
        invariant forall k :: 0 <= k < j ==>
          insts[i + k] == if out[k].Some? then Record(out[k].value, false) else Record(old(insts)[i + k].ins, true)
      {
        if out[j].Some? {
          insts := insts[i + j := Record(out[j].value, false)];
        } else {
          insts := insts[i + j := insts[i + j].(flagged := true)];
        }
        j := j + 1;
      }
      WrittenAt(old(insts), insts, i, out);
    }

    /** One round of the pass: match the window at i and apply the rule, if any. */
    method MatchAt(i: nat, nrc0: nat, ghost safe0: bool) returns (nrc: nat, ghost safe: bool)
      requires i < |insts|
      modifies this
      ensures Progress(insts, nrc, safe) == PassStep(Progress(old(insts), nrc0, safe0), i)
    {
      hide Rewrite, Safe, Patched, WindowAt;
      nrc, safe := nrc0, safe0;
      var reLoop, window := Gather(i);
      if !reLoop && |window| >= 2 {
        WindowIsWindow(insts, i);
        var patch := Rewrite(window);
        if patch.Some? {
          PatchFits(window);
          PatchInContext(insts, i, patch.value.out);
          WriteRecords(i, patch.value.out);
          if patch.value.counted { nrc := nrc + 1; }
          safe := safe && Safe(window, patch.value.rule);
        }
      }
    }

    /** `doDeobfuscateNormal`: one pass from top to bottom. */
    method DoDeobfuscateNormal() returns (nrc: nat, ghost safe: bool)
      modifies this
      ensures Progress(insts, nrc, safe) == Pass(old(insts))
    {
      hide PassStep;
      nrc, safe := 0, true;
      var i := 0;
      while i < |insts|
        invariant 0 <= i <= |insts| && |insts| == |old(insts)|
        invariant PassFrom(Progress(insts, nrc, safe), i) == Pass(old(insts))
      {
        nrc, safe := MatchAt(i, nrc, safe);
        i := i + 1;
      }
    }

    /** `deleteFlagedInSeq`. */
    method DeleteFlagged()
      modifies this
      ensures insts == Swept(old(insts))
    {
      var tr := 0;
      assert insts[..0] == [] && insts[0..] == insts;
      while tr < |insts|
        invariant 0 <= tr <= |insts|
        invariant insts[..tr] + Swept(insts[tr..]) == Swept(old(insts))
        decreases |insts| - tr
      {
        SweptStep(insts, tr);
        hide Swept;
        if insts[tr].flagged {
          insts := insts[..tr] + insts[tr + 1..];
        } else {
          tr := tr + 1;
        }
      }
      assert insts[..tr] == insts && insts[tr..] == [];
    }

    /** `dobCurrentSequenceAll`, without the push/pop matcher between the sweeps. */
    method DobCurrentSequenceAll() returns (nr: nat, ghost safe: bool)
      modifies this
      ensures Progress(insts, nr, safe) == Fixpoint(old(insts))
    {
      nr, safe := 0, true;
      while true
        invariant var r := Fixpoint(insts);
                  Progress(r.trace, nr + r.count, safe && r.safe) == Fixpoint(old(insts))
        decreases |Live(insts)|, Copies(Live(insts)), Inversions(Live(insts))
      {
        hide Pass, Live, Swept, Copies, Inversions;
        ghost var t := insts;
        var nonce: nat;
        ghost var ok: bool;
        nonce, ok := DoDeobfuscateNormal();
        DeleteFlagged();
        safe := safe && ok;
        if nonce < 1 { return; }
        CountedPassLowers(t);
        nr := nr + nonce;
      }
    }
  }

  /** What the sweep's step at tr leaves: the record taken out, or passed. */
  lemma SweptStep(t: seq<Record>, tr: nat)
    requires tr < |t|
    ensures t[tr].flagged ==>
              var u := t[..tr] + t[tr + 1..]; u[..tr] + Swept(u[tr..]) == t[..tr] + Swept(t[tr..])
    ensures !t[tr].flagged ==> t[..tr + 1] + Swept(t[tr + 1..]) == t[..tr] + Swept(t[tr..])
  {
    var rest := Swept(t[tr + 1..]);
    assert t[tr..][1..] == t[tr + 1..];
    assert Swept(t[tr..]) == (if t[tr].flagged then [] else [t[tr]]) + rest;
    hide Swept;
    if t[tr].flagged {
      var u := t[..tr] + t[tr + 1..];
      assert u[..tr] == t[..tr] && u[tr..] == t[tr + 1..] && [] + rest == rest;
    } else {
      assert t[..tr + 1] == t[..tr] + [t[tr]];
      assert t[..tr] + ([t[tr]] + rest) == t[..tr] + [t[tr]] + rest;
    }
  }

  lemma WrittenAt(before: seq<Record>, after: seq<Record>, i: nat, out: seq<Slot>)
    requires i + |out| <= |before| == |after|
    requires forall k :: 0 <= k < |after| && !(i <= k < i + |out|) ==> after[k] == before[k]
    requires forall k :: 0 <= k < |out| ==>
      after[i + k] == if out[k].Some? then Record(out[k].value, false) else Record(before[i + k].ins, true)
    ensures after == Patched(before, i, out)
  {
    var n := |out|;
    assert after[..i] == before[..i] && after[i + n..] == before[i + n..];
    assert after[i..i + n] == Written(before[i..i + n], out);
    assert after == after[..i] + after[i..i + n] + after[i + n..];
  }

  /** The whole clean-up preserves what the trace does, when every rewrite's side condition held,
      and leaves no flagged record. */
  lemma {:induction false} FixpointPreserves(t: seq<Record>)
    ensures Fixpoint(t).safe ==> Preserves(Live(t), Live(Fixpoint(t).trace))
    ensures Unflagged(Fixpoint(t).trace)
    decreases |Live(t)|, Copies(Live(t)), Inversions(Live(t))
  {
    hide Pass, Live, Swept, Preserves, Copies, Inversions;
    var p := Pass(t);
    PassPreserves(t);
    SweepKeepsLive(p.trace);
    if p.count >= 1 {
      CountedPassLowers(t);
      FixpointPreserves(Swept(p.trace));
      if Fixpoint(t).safe {
        PreservesTransitive(Live(t), Live(p.trace), Live(Fixpoint(t).trace));
      }
    }
  }

  predicate SelfExchange(i: Instr) { i.Xchg? && i.a == i.b }

  predicate NoSelfExchange(t: seq<Record>) { forall j :: 0 <= j < |t| ==> !SelfExchange(t[j].ins) }

  predicate Unflagged(t: seq<Record>) { forall j :: 0 <= j < |t| ==> !t[j].flagged }

  /** No rule applies at record i. */
  predicate AtRest(t: seq<Record>, i: nat)
    requires i <= |t|
  {
    WindowAt(t, i).Some? ==> Rewrite(WindowAt(t, i).value).None?
  }

  predicate Quiet(t: seq<Record>) { forall i :: 0 <= i < |t| ==> AtRest(t, i) }

  lemma OnlySelfExchangeUncounted(w: Window)
    requires Rewrite(w).Some? && !SelfExchange(w[0])
    ensures Rewrite(w).value.counted
  {
  }

  /** The trace that the last pass of the loop is given. */
  function LastTrace(t: seq<Record>): (u: seq<Record>)
    ensures Pass(u).count == 0
    decreases |Live(t)|, Copies(Live(t)), Inversions(Live(t))
  {
    if Pass(t).count < 1 then t
    else
      CountedPassLowers(t);
      LastTrace(Swept(Pass(t).trace))
  }

  lemma {:induction false} LoopEnds(t: seq<Record>)
    ensures Fixpoint(t).trace == Swept(Pass(LastTrace(t)).trace)
    ensures Unflagged(t) ==> Unflagged(LastTrace(t))
    decreases |Live(t)|, Copies(Live(t)), Inversions(Live(t))
  {
    hide Pass, Live, Swept, Copies, Inversions;
    if Pass(t).count >= 1 {
      CountedPassLowers(t);
      SweepKeepsLive(Pass(t).trace);
      LoopEnds(Swept(Pass(t).trace));
    }
  }

  // ------------------------------------------------------------------ the last pass

  /** The trace without its self-exchanges, apart from one in last place, for which there is no window. */
  function Stripped(t: seq<Record>): seq<Record> {
    if |t| <= 1 then t else (if SelfExchange(t[0].ins) then [] else [t[0]]) + Stripped(t[1..])
  }

  /** The same records, with those that Stripped drops flagged. */
  function Marked(t: seq<Record>): (r: seq<Record>)
    ensures |r| == |t|
  {
    if |t| <= 1 then t
    else [if SelfExchange(t[0].ins) then t[0].(flagged := true) else t[0]] + Marked(t[1..])
  }

  lemma {:induction false} MarkedIsStripped(t: seq<Record>)
    requires Unflagged(t)
    ensures Swept(Marked(t)) == Stripped(t)
    decreases |t|
  {
    if |t| <= 1 {
      NothingToSweep(t);
    } else {
      MarkedIsStripped(t[1..]);
      assert Marked(t)[1..] == Marked(t[1..]);
    }
  }

  /** A round that is not counted flags a self-exchange or does nothing. */
  lemma UncountedStep(p: Progress, i: nat)
    requires i < |p.trace| && UnflaggedFrom(p.trace, i) && PassStep(p, i).count == p.count
    ensures PassStep(p, i).trace ==
            if i + 1 < |p.trace| && SelfExchange(p.trace[i].ins) then p.trace[i := p.trace[i].(flagged := true)]
            else p.trace
  {
    var t := p.trace;
    var w := WindowAt(t, i);
    if w.Some? {
      assert w.value[0] == t[i].ins;
      if SelfExchange(w.value[0]) {
        ExchangePatch(w.value);
        ExchangeFlagged(t, i);
      } else if Rewrite(w.value).Some? {
        OnlySelfExchangeUncounted(w.value);
      }
    }
    hide Rewrite, Safe, Patched;
  }

  lemma ExchangePatch(w: Window)
    requires SelfExchange(w[0])
    ensures Rewrite(w) == Some(Patch(SelfXchg, [None], false))
  {
  }

  lemma ExchangeFlagged(t: seq<Record>, i: nat)
    requires i < |t|
    ensures Patched(t, i, [None]) == t[i := t[i].(flagged := true)]
  {
    assert Written(t[i..i + 1], [None]) == [t[i].(flagged := true)];
  }

  predicate UnflaggedFrom(t: seq<Record>, i: nat) { forall j :: i <= j < |t| ==> !t[j].flagged }

  lemma {:induction false} UncountedPass(p: Progress, i: nat)
    requires i <= |p.trace| && UnflaggedFrom(p.trace, i) && PassFrom(p, i).count == p.count
    ensures PassFrom(p, i).trace == p.trace[..i] + Marked(p.trace[i..])
    decreases |p.trace| - i
  {
    hide PassStep, Marked, Lower, Live;
    var t := p.trace;
    if i == |t| {
      NothingMarked(t[i..]);
    } else {
      var q := PassStep(p, i);
      StepLowers(p, i);
      PassFromLowers(q, i + 1);
      UncountedStep(p, i);
      assert UnflaggedFrom(q.trace, i + 1);
      UncountedPass(q, i + 1);
      hide PassFrom, UnflaggedFrom;
      MarkedStep(t, i);
      assert t[i + 1..] == q.trace[i + 1..];
      assert q.trace[..i + 1] == t[..i] + [q.trace[i]];
      Regroup(t[..i], q.trace[i], Marked(t[i + 1..]));
    }
  }

  lemma MarkedStep(t: seq<Record>, i: nat)
    requires i < |t|
    ensures Marked(t[i..]) ==
            [if i + 1 < |t| && SelfExchange(t[i].ins) then t[i].(flagged := true) else t[i]] + Marked(t[i + 1..])
  {
    assert t[i..][1..] == t[i + 1..];
    if i + 1 == |t| { assert t[i..] == [t[i]] && Marked(t[i + 1..]) == []; }
  }

  lemma NothingMarked(t: seq<Record>)
    requires |t| == 0
    ensures Marked(t) == []
  {
  }

  // ------------------------------------------------------------------ traces to which no rule applies

  /** A round lowers the measure unless no rule applies. */
  lemma StepAtRest(p: Progress, i: nat)
    requires i <= |p.trace|
    ensures AtRest(p.trace, i) ==> PassStep(p, i) == p
    ensures !AtRest(p.trace, i) ==> Lower(Live(PassStep(p, i).trace), Live(p.trace))
  {
    hide Rewrite, Safe, Lower, Live, Kept, Patched;
    var w := WindowAt(p.trace, i);
    if w.Some? && Rewrite(w.value).Some? {
      var out := Rewrite(w.value).value.out;
      PatchLowers(w.value);
      PatchInContext(p.trace, i, out);
      LowerInContext(Live(p.trace[..i]), Kept(out), w.value[..|out|], Live(p.trace[i + |out|..]));
    }
  }

  lemma {:induction false} PassAtRest(p: Progress, i: nat)
    requires i <= |p.trace|
    ensures (forall j :: i <= j < |p.trace| ==> AtRest(p.trace, j)) ==> PassFrom(p, i) == p
    ensures !(forall j :: i <= j < |p.trace| ==> AtRest(p.trace, j)) ==>
              Lower(Live(PassFrom(p, i).trace), Live(p.trace))
    decreases |p.trace| - i
  {
    hide AtRest, PassStep, Lower, Live;
    if i < |p.trace| {
      StepAtRest(p, i);
      if AtRest(p.trace, i) {
        PassAtRest(p, i + 1);
      } else {
        var q := PassStep(p, i);
        PassFromLowers(q, i + 1);
        LowerTransitive(Live(PassFrom(q, i + 1).trace), Live(q.trace), Live(p.trace));
        LowerIrreflexive(Live(p.trace));
      }
    }
  }

  /** The loop leaves a trace without flags as it is exactly when no rule applies to it. */
  lemma {:induction false} LoopIsIdleExactly(t: seq<Record>)
    requires Unflagged(t)
    ensures Quiet(t) ==> Fixpoint(t).trace == t
    ensures !Quiet(t) ==> Lower(Live(Fixpoint(t).trace), Live(t))
    decreases |Live(t)|, Copies(Live(t)), Inversions(Live(t))
  {
    hide AtRest, PassFrom, Live, Swept, Copies, Inversions;
    PassAtRest(Progress(t, 0, true), 0);
    var p := Pass(t);
    SweepKeepsLive(p.trace);
    if Quiet(t) {
      NothingToSweep(t);
    } else if p.count >= 1 {
      var u := Swept(p.trace);
      CountedPassLowers(t);
      LoopIsIdleExactly(u);
      LowerTransitive(Live(Fixpoint(u).trace), Live(u), Live(t));
    }
  }

  /** What the loop ends with: its last pass strips self-exchanges, which is not counted, and does nothing
      else.  Without one to strip no rule applies any more; in any case none applies exactly when running
      the clean-up again changes nothing. */
  lemma StopsAtAFixpoint(t: seq<Record>)
    requires Unflagged(t)
    ensures Fixpoint(t).trace == Stripped(LastTrace(t))
    ensures NoSelfExchange(LastTrace(t)) ==> Fixpoint(t).trace == LastTrace(t) && Quiet(Fixpoint(t).trace)
    ensures Quiet(Fixpoint(t).trace) <==> Fixpoint(Fixpoint(t).trace).trace == Fixpoint(t).trace
  {
    var u := LastTrace(t);
    var p := Progress(u, 0, true);
    assert u[0..] == u && u[..0] == [];
    hide LastTrace, Fixpoint, PassFrom, Quiet, Stripped, Marked, Live, Lower;
    LoopEnds(t);
    UncountedPass(p, 0);
    assert [] + Marked(u) == Marked(u);
    MarkedIsStripped(u);
    if NoSelfExchange(u) { UncountedAtRest(u); }
    var v := Fixpoint(t).trace;
    FixpointPreserves(t);
    LoopIsIdleExactly(v);
    LowerIrreflexive(Live(v));
  }

  lemma UncountedAtRest(u: seq<Record>)
    requires Unflagged(u) && NoSelfExchange(u) && Pass(u).count == 0
    ensures Stripped(u) == u && Quiet(u)
  {
    NothingStripped(u);
    UncountedPass(Progress(u, 0, true), 0);
    assert u[0..] == u && [] + Marked(u) == Marked(u);
    NothingMarkedWithout(u);
    PassAtRest(Progress(u, 0, true), 0);
    LowerIrreflexive(Live(u));
    hide PassFrom, AtRest, Live, Lower;
  }

  lemma {:induction false} NothingStripped(t: seq<Record>)
    requires NoSelfExchange(t)
    ensures Stripped(t) == t
    decreases |t|
  {
    if |t| > 1 { NothingStripped(t[1..]); }
  }

  lemma {:induction false} NothingMarkedWithout(t: seq<Record>)
    requires NoSelfExchange(t)
    ensures Marked(t) == t
    decreases |t|
  {
    if |t| > 1 { NothingMarkedWithout(t[1..]); }
  }

  lemma {:induction false} NothingToSweep(t: seq<Record>)
    requires Unflagged(t)
    ensures Swept(t) == t
  {
    if t != [] { NothingToSweep(t[1..]); }
  }

  /** The removal of a self-exchange is not counted, so the loop can stop although a rule has come to
      apply: not eax; xchg ebx, ebx; not eax  is left as two complements that cancel. */
  lemma LoopCanStopEarly()
    ensures var complement, exchange := Record(Un(Not, Gpr(0)), false), Record(Xchg(Gpr(1), Gpr(1)), false);
            && Fixpoint([complement, exchange, complement]).trace == [complement, complement]
            && Pass([complement, complement]).count == 1
  {
    var complement, exchange := Record(Un(Not, Gpr(0)), false), Record(Xchg(Gpr(1), Gpr(1)), false);
    ExchangeRemoved(complement, exchange);
    ComplementsCancel(complement);
    hide Pass;
  }

  lemma ExchangeRemoved(complement: Record, exchange: Record)
    requires complement == Record(Un(Not, Gpr(0)), false) && exchange == Record(Xchg(Gpr(1), Gpr(1)), false)
    ensures var p := Pass([complement, exchange, complement]);
            p.count == 0 && Swept(p.trace) == [complement, complement]
  {
    var t := [complement, exchange, complement];
    var p0 := Progress(t, 0, true);
    WindowOf(t, 0, [complement.ins, exchange.ins, complement.ins]);
    assert PassStep(p0, 0) == p0;
    WindowOf(t, 1, [exchange.ins, complement.ins]);
    var p2 := PassStep(p0, 1);
    assert p2.trace == [complement, exchange.(flagged := true), complement] && p2.count == 0;
    assert PassStep(p2, 2) == p2;
    hide PassStep;
    PassOf3(t, p0, p2);
    SweepOf3(p2.trace);
  }

  lemma ComplementsCancel(complement: Record)
    requires complement == Record(Un(Not, Gpr(0)), false)
    ensures Pass([complement, complement]).count == 1
  {
    var u := [complement, complement];
    var q0 := Progress(u, 0, true);
    WindowOf(u, 0, [complement.ins, complement.ins]);
    var q1 := PassStep(q0, 0);
    assert q1.count == 1;
    assert PassStep(q1, 1) == q1;
    hide PassStep;
    assert Pass(u) == PassFrom(q1, 1) == PassFrom(q1, 2) == q1;
  }

  lemma WindowOf(t: seq<Record>, i: nat, w: seq<Instr>)
    requires i <= |t| && |w| == Min(6, |t| - i) >= 2
    requires forall j :: 0 <= j < |w| ==> !t[i + j].flagged && t[i + j].ins == w[j]
    ensures WindowAt(t, i) == Some(w)
  {
    forall j | i <= j < i + |w| ensures !t[j].flagged {
      var k := j - i;
      assert t[i + k].ins == w[k];
    }
    assert Instrs(t[i..i + |w|]) == w;
  }

  lemma PassOf3(t: seq<Record>, p0: Progress, p2: Progress)
    requires |t| == 3 && p0 == Progress(t, 0, true)
    requires PassStep(p0, 0) == p0 && PassStep(p0, 1) == p2 && PassStep(p2, 2) == p2
    ensures Pass(t) == p2
  {
    hide PassStep;
    assert PassFrom(p0, 0) == PassFrom(p0, 1) == PassFrom(p2, 2) == PassFrom(p2, 3) == p2;
  }

  lemma SweepOf3(t: seq<Record>)
    requires |t| == 3 && !t[0].flagged && t[1].flagged && !t[2].flagged
    ensures Swept(t) == [t[0], t[2]]
  {
    assert t[1..][1..] == [t[2]] && [t[2]][1..] == [];
    assert Swept(t[1..]) == Swept([t[2]]) == [t[2]];
  }
}
