/** The pass over a whole trace, the sweep of flagged records and the loop around both. */
module PeepholePass {
  import opened Wrappers
  import opened Machine
  import opened Peephole
  import opened PeepholeSound

  /** A trace record: its instruction and whether it is flagged for deletion. */
  datatype Record = Record(ins: Instr, flagged: bool)

  function Live(t: seq<Record>): seq<Instr> {
    if t == [] then [] else (if t[0].flagged then [] else [t[0].ins]) + Live(t[1..])
  }

  function Instrs(t: seq<Record>): (r: seq<Instr>)
    ensures |r| == |t|
  {
    seq(|t|, i requires 0 <= i < |t| => t[i].ins)
  }

  function Min(a: nat, b: nat): nat { if a < b then a else b }

  /** The up to six records from i on; none if there are fewer than two or one of them is flagged. */
  function WindowAt(t: seq<Record>, i: nat): Option<seq<Instr>>
    requires i <= |t|
  {
    var n := Min(6, |t| - i);
    if n < 2 || exists j :: i <= j < i + n && t[j].flagged then None else Some(Instrs(t[i..i + n]))
  }

  function Written(t: seq<Record>, out: seq<Slot>): (r: seq<Record>)
    requires |t| == |out|
    ensures |r| == |t|
  {
    seq(|t|, j requires 0 <= j < |t| =>
      if out[j].Some? then Record(out[j].value, false) else Record(t[j].ins, true))
  }

  function Patched(t: seq<Record>, i: nat, out: seq<Slot>): (r: seq<Record>)
    requires i + |out| <= |t|
    ensures |r| == |t|
  {
    t[..i] + Written(t[i..i + |out|], out) + t[i + |out|..]
  }

  /** A pass in progress: the records, the rewrites counted, and whether all side conditions held. */
  datatype Progress = Progress(trace: seq<Record>, count: nat, safe: bool)

  function PassStep(p: Progress, i: nat): (r: Progress)
    requires i <= |p.trace|
    ensures |r.trace| == |p.trace|
  {
    match WindowAt(p.trace, i)
    case None => p
    case Some(w) =>
      match Rewrite(w)
      case None => p
      case Some(patch) =>
        PatchFits(w);
        Progress(Patched(p.trace, i, patch.out),
                 if patch.counted then p.count + 1 else p.count, p.safe && Safe(w, patch.rule))
  }

  function PassFrom(p: Progress, i: nat): (r: Progress)
    requires i <= |p.trace|
    ensures |r.trace| == |p.trace|
    decreases |p.trace| - i
  {
    if i == |p.trace| then p else PassFrom(PassStep(p, i), i + 1)
  }

  function Pass(t: seq<Record>): Progress { PassFrom(Progress(t, 0, true), 0) }

  function Swept(t: seq<Record>): seq<Record> {
    if t == [] then [] else (if t[0].flagged then [] else [t[0]]) + Swept(t[1..])
  }

  // ------------------------------------------------------------------ live instructions

  lemma {:induction false} LiveConcat(a: seq<Record>, b: seq<Record>)
    ensures Live(a + b) == Live(a) + Live(b)
    decreases |a|
  {
    if a == [] {
      assert a + b == b;
    } else {
      assert (a + b)[1..] == a[1..] + b;
      LiveConcat(a[1..], b);
    }
  }

  lemma {:induction false} LiveUnflagged(t: seq<Record>)
    requires forall j :: 0 <= j < |t| ==> !t[j].flagged
    ensures Live(t) == Instrs(t)
    decreases |t|
  {
    if t != [] {
      LiveUnflagged(t[1..]);
      assert Instrs(t) == [t[0].ins] + Instrs(t[1..]);
    }
  }

  lemma {:induction false} LiveWritten(t: seq<Record>, out: seq<Slot>)
    requires |t| == |out|
    ensures Live(Written(t, out)) == Kept(out)
    decreases |t|
  {
    if t != [] {
      LiveWritten(t[1..], out[1..]);
      assert Written(t, out)[1..] == Written(t[1..], out[1..]);
    }
  }

  lemma {:induction false} SweepKeepsLive(t: seq<Record>)
    ensures Live(Swept(t)) == Live(t) && forall j :: 0 <= j < |Swept(t)| ==> !Swept(t)[j].flagged
    decreases |t|
  {
    if t != [] {
      SweepKeepsLive(t[1..]);
      LiveConcat(if t[0].flagged then [] else [t[0]], Swept(t[1..]));
    }
  }

  lemma WindowPrefix(t: seq<Record>, i: nat, n: nat)
    requires i <= |t| && WindowAt(t, i).Some? && n <= |WindowAt(t, i).value|
    ensures i + n <= |t| && Instrs(t[i..i + n]) == WindowAt(t, i).value[..n]
    ensures forall j :: i <= j < i + n ==> !t[j].flagged
  {
  }

  lemma LiveOfParts(t: seq<Record>, a: seq<Record>, b: seq<Record>, c: seq<Record>)
    requires t == a + b + c
    ensures Live(t) == Live(a) + Live(b) + Live(c)
  {
    LiveConcat(a + b, c);
    LiveConcat(a, b);
  }

  /** A patch replaces one stretch of live instructions by the ones it keeps. */
  lemma PatchInContext(t: seq<Record>, i: nat, out: seq<Slot>)
    requires i <= |t| && WindowAt(t, i).Some? && |out| <= |WindowAt(t, i).value|
    ensures i + |out| <= |t|
    ensures Live(t) == Live(t[..i]) + WindowAt(t, i).value[..|out|] + Live(t[i + |out|..])
    ensures Live(Patched(t, i, out)) == Live(t[..i]) + Kept(out) + Live(t[i + |out|..])
  {
    var n := |out|;
    WindowPrefix(t, i, n);
    var before, mid, after := t[..i], t[i..i + n], t[i + n..];
    LiveUnflagged(mid);
    LiveWritten(mid, out);
    assert Patched(t, i, out) == before + Written(mid, out) + after;
    hide *;
    assert t == before + mid + after;
    LiveOfParts(t, before, mid, after);
    LiveOfParts(Patched(t, i, out), before, Written(mid, out), after);
  }

  lemma WindowIsWindow(t: seq<Record>, i: nat)
    requires i <= |t| && WindowAt(t, i).Some?
    ensures 2 <= |WindowAt(t, i).value| <= 6
  {
  }

  lemma StepPreserves(p: Progress, i: nat)
    requires i <= |p.trace|
    ensures PassStep(p, i).safe ==> p.safe && Preserves(Live(p.trace), Live(PassStep(p, i).trace))
  {
    hide Rewrite, Safe, Preserves, Live, Kept, Patched;
    PreservesSelf(Live(p.trace));
    var w := WindowAt(p.trace, i);
    if w.Some? && Rewrite(w.value).Some? && PassStep(p, i).safe {
      var out := Rewrite(w.value).value.out;
      WindowSound(w.value);
      PatchInContext(p.trace, i, out);
      PreservesInContext(Live(p.trace[..i]), w.value[..|out|], Kept(out), Live(p.trace[i + |out|..]));
    }
  }

  lemma {:induction false} PassFromPreserves(p: Progress, i: nat)
    requires i <= |p.trace|
    ensures PassFrom(p, i).safe ==> p.safe && Preserves(Live(p.trace), Live(PassFrom(p, i).trace))
    decreases |p.trace| - i
  {
    hide PassStep, Preserves, Live;
    if i < |p.trace| {
      var q := PassStep(p, i);
      PassFromPreserves(q, i + 1);
      StepPreserves(p, i);
      if PassFrom(p, i).safe {
        PreservesTransitive(Live(p.trace), Live(q.trace), Live(PassFrom(p, i).trace));
      }
    } else {
      PreservesSelf(Live(p.trace));
    }
  }

  /** One pass over a trace of any length preserves what the trace does. */
  lemma PassPreserves(t: seq<Record>)
    ensures Pass(t).safe ==> Preserves(Live(t), Live(Pass(t).trace))
  {
    PassFromPreserves(Progress(t, 0, true), 0);
  }
}
