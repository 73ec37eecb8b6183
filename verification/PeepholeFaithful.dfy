/** When a window's rewrite preserves what its records did, and how to show that it does not. */
module PeepholeFaithful {
  import opened Wrappers
  import opened Words
  import opened Machine
  import opened Peephole
  import opened PeepholeRules
  import opened PeepholeSound

  /** The rewrite of this window preserves what its records did. */
  ghost predicate Faithful(w: Window)
    requires Rewrite(w).Some?
  {
    PatchFits(w);
    Preserves(w[..|Rewrite(w).value.out|], Kept(Rewrite(w).value.out))
  }

  /** The instruction runs on some state: its operands are encodable and the machine gives them a
      meaning. */
  predicate Runs(i: Instr) {
    match i
    case Push(_) => true
    case Pop(x) => x.Gpr? || x.Stk?
    case Bin(op, d, s) =>
      if d == Esp then (op == Add || op == Sub) && s.Imm? && s.n % 4 == 0
      else (d.Gpr? || d.Stk?) && !(d.Stk? && s.Stk?)
    case Un(_, d) => d.Gpr? || d.Stk?
    case Xchg(a, b) => (a.Gpr? || a.Stk?) && (b.Gpr? || b.Stk?) && !(a.Stk? && b.Stk?)
    case Lea(d, base, disp) =>
      if d == Esp then base == Esp && disp % 4 == 0 else d.Gpr? && (base.Gpr? || base == Esp)
  }

  /** All registers r except register i, which holds v; n stack words t. */
  function Sample(i: RegNo, v: Word, r: Word, e: Word, t: Word, n: nat): (s: State)
    ensures Valid(s)
  {
    State(seq(7, _ => r)[i := v], e, seq(n, _ => Some(t)))
  }

  function Depth(o: Operand): nat {
    match o
    case Stk(k) => k + 2
    case Imm(n) => if n < 0 then -n else n
    case _ => 0
  }

  lemma RunsExactly(i: Instr)
    ensures Runs(i) <==> exists s :: Valid(s) && Step(i, s).Some?
  {
    hide Unary, Binary, ToWord;
    forall s | Valid(s) && Step(i, s).Some? ensures Runs(i) {
    }
    if Runs(i) {
      var depth := match First(i) case Some(o) => Depth(o) case None => 0;
      var depth' := match Second(i) case Some(o) => Depth(o) case None => 0;
      var disp := if i.Lea? then Depth(Imm(i.disp)) else 0;
      var s := Sample(0, 0, 0, 0, 0, 1 + depth + depth' + disp);
      assert Step(i, s).Some?;
    }
  }

  /** The rule fires on the window, and every record it replaces runs on some state. */
  predicate Fires(w: Window, rule: Rule) {
    && Rewrite(w).Some? && Rewrite(w).value.rule == rule
    && forall i :: 0 <= i < |w| && i < |Rewrite(w).value.out| ==> Runs(w[i])
  }

  lemma SafeIsFaithful(w: Window)
    requires Rewrite(w).Some? && Safe(w, Rewrite(w).value.rule)
    ensures Faithful(w)
  {
    WindowSound(w);
  }

  // ------------------------------------------------------------------ refuting a rewrite

  lemma Refuted(w: Window, s: State)
    requires Rewrite(w).Some? && Valid(s) && !Sound(w, Rewrite(w).value, s)
    ensures !Faithful(w)
  {
    PatchFits(w);
    var p := Rewrite(w).value;
    assert !Outcome(Exec(w[..|p.out|], s), Exec(Kept(p.out), s));
  }

  /** What the first n records do. */
  function RunFirst(w: Window, n: nat, s: State): (r: Option<State>)
    requires Valid(s) && 1 <= n <= |w|
    ensures r.Some? ==> Valid(r.value)
  {
    if n == 1 then Step(w[0], s) else Then(RunFirst(w, n - 1, s), w[n - 1])
  }

  lemma {:induction false} RunFirstIsExec(w: Window, n: nat, s: State)
    requires Valid(s) && 1 <= n <= |w|
    ensures Exec(w[..n], s) == RunFirst(w, n, s)
    decreases n
  {
    hide Step, Exec;
    if n == 1 {
      Exec1(w[0], s);
      assert w[..1] == [w[0]];
    } else {
      RunFirstIsExec(w, n - 1, s);
      ExecSnoc(w[..n - 1], w[n - 1], s);
      assert w[..n] == w[..n - 1] + [w[n - 1]];
    }
  }

  lemma Running(w: Window, s: State)
    requires Valid(s)
    ensures RunFirst(w, 2, s) == Then(Step(w[0], s), w[1])
    ensures |w| >= 3 ==> RunFirst(w, 3, s) == Then(Then(Step(w[0], s), w[1]), w[2])
    ensures |w| >= 4 ==> RunFirst(w, 4, s) == Then(Then(Then(Step(w[0], s), w[1]), w[2]), w[3])
    ensures |w| >= 5 ==> RunFirst(w, 5, s) == Then(Then(Then(Then(Step(w[0], s), w[1]), w[2]), w[3]), w[4])
  {
    hide Step;
  }

  lemma RefutedNone(w: Window, rule: Rule, n: nat, s: State)
    requires Valid(s) && 1 <= n <= |w| && Rewrite(w) == Gone(rule, n) && !Outcome(RunFirst(w, n, s), Some(s))
    ensures !Faithful(w)
  {
    hide Exec, RunFirst, Outcome, Rewrite, Kept;
    RunFirstIsExec(w, n, s);
    KeptNone(n);
    Exec0(s);
    Refuted(w, s);
  }

  lemma RefutedOne(w: Window, rule: Rule, i: Instr, n: nat, s: State)
    requires Valid(s) && 1 <= n <= |w| && Rewrite(w) == One(rule, i, n) && !Outcome(RunFirst(w, n, s), Step(i, s))
    ensures !Faithful(w)
  {
    hide Exec, Step, Then, RunFirst, Outcome, Rewrite, Kept;
    RunFirstIsExec(w, n, s);
    KeptOne(i, n - 1);
    Exec1(i, s);
    Refuted(w, s);
  }

  lemma RefutedTwo(w: Window, rule: Rule, i: Instr, j: Instr, s: State)
    requires Valid(s) && |w| >= 3 && Rewrite(w) == Three(rule, i, j)
    requires !Outcome(Then(Then(Step(w[0], s), w[1]), w[2]), Then(Step(i, s), j))
    ensures !Faithful(w)
  {
    hide Exec, Step, Then, RunFirst, Outcome, Rewrite, Kept;
    RunFirstIsExec(w, 3, s);
    Running(w, s);
    KeptTwo(i, j);
    Exec2(i, j, s);
    Refuted(w, s);
  }

  /** The first record dropped. */
  lemma RefutedSecond(w: Window, rule: Rule, s: State)
    requires Valid(s) && Rewrite(w) == Some(Patch(rule, [None, Some(w[1])], true))
    requires !Outcome(Then(Step(w[0], s), w[1]), Step(w[1], s))
    ensures !Faithful(w)
  {
    hide Exec, Step, Then, RunFirst, Outcome, Rewrite, Kept;
    RunFirstIsExec(w, 2, s);
    Running(w, s);
    KeptSecond(w[1]);
    Exec1(w[1], s);
    Refuted(w, s);
  }

  lemma RefutedMiddle(w: Window, rule: Rule, s: State)
    requires Valid(s) && |w| >= 3 && Rewrite(w) == Some(Patch(rule, [None, Some(w[1]), None], true))
    requires !Outcome(Then(Then(Step(w[0], s), w[1]), w[2]), Step(w[1], s))
    ensures !Faithful(w)
  {
    hide Exec, Step, Then, RunFirst, Outcome, Rewrite, Kept;
    RunFirstIsExec(w, 3, s);
    Running(w, s);
    KeptMiddle(w[1]);
    Exec1(w[1], s);
    Refuted(w, s);
  }

  lemma RefutedPair(w: Window, rule: Rule, i: Instr, j: Slot, s: State)
    requires Valid(s) && Rewrite(w) == Some(Patch(rule, [Some(i), j], true))
    requires !Outcome(Then(Step(w[0], s), w[1]), if j.None? then Step(i, s) else Then(Step(i, s), j.value))
    ensures !Faithful(w)
  {
    hide Exec, Step, Then, RunFirst, Outcome, Rewrite, Kept;
    RunFirstIsExec(w, 2, s);
    Running(w, s);
    KeptPair(i, j);
    Exec1(i, s);
    if j.Some? { Exec2(i, j.value, s); }
    Refuted(w, s);
  }

  /** Two outcomes that disagree on an operand's value. */
  lemma DifferAt(t: Option<State>, u: Option<State>, o: Operand)
    requires t.Some? && Valid(t.value) && Read(t.value, o).Some?
    requires u.Some? ==> Valid(u.value) && Read(u.value, o) != Read(t.value, o)
    ensures !Outcome(t, u)
  {
  }
}
