/** One window of the optimiser preserves what the trace does, for every rule and every window. */
module PeepholeSound {
  import opened Wrappers
  import opened Words
  import opened Machine
  import opened Peephole
  import opened PeepholeRules

  /** From state s the patched records do at least what the records they replace did. */
  ghost predicate Sound(w: Window, p: Patch, s: State)
    requires Valid(s)
  {
    |p.out| <= |w| && Outcome(Exec(w[..|p.out|], s), Exec(Kept(p.out), s))
  }

  lemma PrefixExec(w: Window, s: State)
    requires Valid(s)
    ensures Exec(w[..1], s) == Step(w[0], s)
    ensures Exec(w[..2], s) == Then(Step(w[0], s), w[1])
    ensures |w| >= 3 ==> Exec(w[..3], s) == Then(Then(Step(w[0], s), w[1]), w[2])
    ensures |w| >= 4 ==> Exec(w[..4], s) == Then(Then(Then(Step(w[0], s), w[1]), w[2]), w[3])
    ensures |w| >= 5 ==> Exec(w[..5], s) == Then(Then(Then(Then(Step(w[0], s), w[1]), w[2]), w[3]), w[4])
  {
    hide Step, Exec, Then;
    Exec1(w[0], s);
    Exec2(w[0], w[1], s);
    assert w[..1] == [w[0]] && w[..2] == [w[0], w[1]];
    if |w| >= 3 {
      Exec3(w[0], w[1], w[2], s);
      assert w[..3] == [w[0], w[1], w[2]];
    }
    if |w| >= 4 {
      Exec4(w[0], w[1], w[2], w[3], s);
      assert w[..4] == [w[0], w[1], w[2], w[3]];
    }
    if |w| >= 5 {
      Exec5(w[0], w[1], w[2], w[3], w[4], s);
      assert w[..5] == [w[0], w[1], w[2], w[3], w[4]];
    }
  }

  lemma {:induction false} KeptNone(n: nat)
    ensures Kept(seq(n, _ => None)) == []
    decreases n
  {
    if n > 0 {
      var out: seq<Slot> := seq(n, _ => None);
      assert out[1..] == seq(n - 1, _ => None);
      KeptNone(n - 1);
    }
  }

  lemma KeptOne(i: Instr, n: nat)
    ensures Kept([Some(i)] + seq(n, _ => None)) == [i]
  {
    KeptNone(n);
    var out: seq<Slot> := [Some(i)] + seq(n, _ => None);
    assert out[1..] == seq(n, _ => None);
  }

  lemma KeptPair(a: Instr, b: Slot)
    ensures Kept([Some(a), b]) == if b.None? then [a] else [a, b.value]
  {
    var out := [Some(a), b];
    assert out[1..] == [b] && [b][1..] == [];
    assert Kept([b]) == if b.None? then [] else [b.value];
  }

  lemma KeptMiddle(b: Instr)
    ensures Kept([None, Some(b), None]) == [b]
  {
    var out: seq<Slot> := [None, Some(b), None];
    assert out[1..] == [Some(b), None];
    KeptPair(b, None);
  }

  lemma KeptTwo(a: Instr, b: Instr)
    ensures Kept([Some(a), Some(b), None]) == [a, b]
  {
    var out: seq<Slot> := [Some(a), Some(b), None];
    assert out[1..] == [Some(b), None];
    KeptPair(b, None);
  }

  /** All the flagged-only patches. */
  lemma SoundGone(w: Window, rule: Rule, n: nat, s: State)
    requires Valid(s) && n <= |w| && Outcome(Exec(w[..n], s), Some(s))
    ensures Sound(w, Gone(rule, n).value, s)
  {
    hide Exec;
    KeptNone(n);
    Exec0(s);
  }

  /** All the patches that leave one instruction. */
  lemma SoundOne(w: Window, rule: Rule, i: Instr, n: nat, s: State)
    requires Valid(s) && 0 < n <= |w| && Outcome(Exec(w[..n], s), Step(i, s))
    ensures Sound(w, One(rule, i, n).value, s)
  {
    hide Exec, Step;
    KeptOne(i, n - 1);
    Exec1(i, s);
  }

  lemma SoundUnary(w: Window, s: State)
    requires Valid(s) && w[0].Un? && RewriteUnary(w).Some?
    ensures Sound(w, RewriteUnary(w).value, s)
  {
    hide Exec, Step, Sound;
    PrefixExec(w, s);
    CancelUnary(w[0].uop, w[0].d, s);
    SoundGone(w, Cancel, 2, s);
  }

  lemma SoundXchg(w: Window, s: State)
    requires Valid(s) && w[0].Xchg? && RewriteXchg(w).Some?
    ensures Sound(w, RewriteXchg(w).value, s)
  {
    hide Exec, Step, Sound;
    PrefixExec(w, s);
    var a, b := w[0].a, w[0].b;
    if a == b {
      SelfXchgIsNop(a, s);
      SoundGone(w, SelfXchg, 1, s);
      SameOut(w, Gone(SelfXchg, 1).value, RewriteXchg(w).value, s);
    } else if w[1].Xchg? {
      CancelXchg(a, b, w[1], s);
      SoundGone(w, Cancel, 2, s);
    } else {
      UnaryThroughXchg(a, b, w[1].uop, w[1].d, w[2], s);
      SoundOne(w, XchgUnaryXchg, Un(w[1].uop, if w[1].d == a then b else a), 3, s);
    }
  }

  /** Only the records of a patch matter. */
  lemma SameOut(w: Window, p: Patch, q: Patch, s: State)
    requires Valid(s) && Sound(w, p, s) && p.out == q.out
    ensures Sound(w, q, s)
  {
  }

  /** push y in place of the first record, and the correction for esp in place of the second. */
  lemma SoundPushFix(w: Window, rule: Rule, y: Operand, s: State)
    requires Valid(s)
    requires y != Esp ==> Outcome(Exec(w[..2], s), Step(Push(y), s))
    requires y == Esp ==> Outcome(Exec(w[..2], s), Then(Step(Push(y), s), Bin(Sub, Stk(0), Imm(4))))
    ensures Sound(w, Patch(rule, [Some(Push(y)), if y == Esp then Some(Bin(Sub, Stk(0), Imm(4))) else None], true), s)
  {
    hide Exec, Step;
    var fix: Slot := if y == Esp then Some(Bin(Sub, Stk(0), Imm(4))) else None;
    KeptPair(Push(y), fix);
    Exec1(Push(y), s);
    Exec2(Push(y), Bin(Sub, Stk(0), Imm(4)), s);
  }

  lemma SoundSaveLong(w: Window, s: State)
    requires Valid(s) && w[0].Push? && w[1].Bin? && w[1].bop == Mov && RewriteSaveLong(w).Some?
    requires RewriteSaveLong(w).value.rule == SaveMovMovRestore ==> w[2].d != w[0].x || w[1].s == w[0].x
    requires RewriteSaveLong(w).value.rule == NegBySub ==> w[0].x.Gpr? && w[2].s.Gpr? && w[0].x != w[2].s
    ensures Sound(w, RewriteSaveLong(w).value, s)
  {
    hide Exec, Step, Sound;
    PrefixExec(w, s);
    var x, y := w[0].x, w[1].s;
    if w[2].bop == Mov {
      SaveMovMovRestoreIsMov(x, y, w[2].d, s);
      SoundOne(w, SaveMovMovRestore, Bin(Mov, w[2].d, y), 4, s);
    } else {
      if w[3].Xchg? { NegByXchg(x, w[2].s, w[3], s); } else { NegByMov(x, w[2].s, s); }
      SoundOne(w, NegBySub, Un(Neg, w[2].s), 5, s);
    }
  }

  lemma SoundSave3(w: Window, s: State)
    requires Valid(s) && |w| >= 3 && w[0].Push? && w[1].Bin? && w[1].bop == Mov
    requires RewriteSave3(w[2], w[0].x, w[1].d, w[1].s).Some?
    ensures Sound(w, RewriteSave3(w[2], w[0].x, w[1].d, w[1].s).value, s)
  {
    hide Exec, Step, Sound;
    PrefixExec(w, s);
    var x, d, y := w[0].x, w[1].d, w[1].s;
    if (d.Gpr? || d == Esp) && x == d && y == Esp {
      SaveEspXchgIsPush(x, s);
      SoundTwo(w, SaveEspXchg, Push(Esp), Bin(Sub, Stk(0), Imm(4)), s);
    } else if (d.Gpr? || d == Esp) && x == d && y == Stk(1) {
      SaveMovPopIsXchg(x, s);
      SoundOne(w, SaveMovPop, Xchg(Stk(0), x), 3, s);
    } else if y == Stk(0) {
      PushTopMovAddIsPop(d, s);
      SoundOne(w, PushTopMovAdd, Pop(d), 3, s);
    } else {
      SaveMovRestoreIsXchg(x, y, s);
      SoundOne(w, SaveMovRestoreXchg, Xchg(x, y), 3, s);
    }
  }

  lemma SoundPushPop(w: Window, s: State)
    requires Valid(s) && w[0].Push? && w[1].Pop? && RewritePushPop(w).Some?
    ensures Sound(w, RewritePushPop(w).value, s)
  {
    hide Exec, Step, Sound;
    PrefixExec(w, s);
    var x, y := w[0].x, w[1].x;
    PushThenPop(x, y, s);
    if x == y { SoundGone(w, PushPop, 2, s); } else { SoundOne(w, PushPop, Bin(Mov, y, x), 2, s); }
  }

  lemma SoundPushAdd(w: Window, s: State)
    requires Valid(s) && w[0].Push? && w[1].Bin? && w[1].bop == Add && RewritePushAdd(w).Some?
    requires Rewrite(w) == RewritePushAdd(w) && Safe(w, RewritePushAdd(w).value.rule)
    ensures Sound(w, RewritePushAdd(w).value, s)
  {
    hide Exec, Step, Sound;
    PrefixExec(w, s);
    if w[0].x != Esp {
      PushBinPopIsMovBin(w[0].x, Add, w[1].s, w[2].x, s);
      SoundTwo(w, PushAddPop, Bin(Mov, w[2].x, w[0].x), Bin(Add, w[2].x, w[1].s), s);
    } else if w[1].d == Stk(1) && w[2].x == Stk(0) {
      PushEspAddPopIsMov(w[1].s, s);
      SoundOne(w, PushEspAddPop, Bin(Mov, Stk(0), Esp), 3, s);
    } else {
      PushEspAddPopIsLea(w[2].x, w[1].s.n, s);
      SoundOne(w, PushEspAddLea, Lea(w[2].x, Esp, w[1].s.n), 3, s);
    }
  }

  lemma SoundPushSub(w: Window, s: State)
    requires Valid(s) && w[0].Push? && w[1].Bin? && w[1].bop == Sub && RewritePushSub(w).Some?
    ensures Sound(w, RewritePushSub(w).value, s)
  {
    hide Exec, Step, Sound;
    PrefixExec(w, s);
    PushZeroSubPopIsNeg(w[1].s, s);
    SoundOne(w, PushZeroSubNeg, Un(Neg, w[1].s), 3, s);
  }

  lemma SoundSwap(w: Window, s: State)
    requires Valid(s) && w[0].Push? && RewriteSwap(w).Some?
    requires || (w[0].x != Stk(0) && !(w[1].Xchg? && w[1].b == w[0].x))
             || (w[1].Bin? && w[1].s.Imm? && NoEffect(w[1].bop, w[1].s.n))
    ensures Sound(w, RewriteSwap(w).value, s)
  {
    hide Exec, Step;
    PrefixExec(w, s);
    var y := Second(w[1]).value;
    if w[1].Bin? {
      if w[0].x != Stk(0) { SwapBin(w[0].x, w[1].bop, y, s); } else { SwapIdle(w[0].x, w[1].bop, y.n, s); }
      Exec2(Bin(w[1].bop, Stk(0), y), w[0], s);
      KeptPair(Bin(w[1].bop, Stk(0), y), Some(w[0]));
    } else {
      SwapXchg(w[0].x, y, s);
      Exec2(Xchg(Stk(0), y), w[0], s);
      KeptPair(Xchg(Stk(0), y), Some(w[0]));
    }
  }

  lemma SoundPushLea(w: Window, s: State)
    requires Valid(s) && w[0].Push? && w[1].Lea? && RewritePushLea(w).Some?
    ensures Sound(w, RewritePushLea(w).value, s)
  {
    hide Exec, Step, Sound;
    PrefixExec(w, s);
    SaveLeaXchgIsPush(w[0].x, s);
    SoundOne(w, SaveLeaXchg, Push(Esp), 3, s);
  }

  lemma SoundRestore(w: Window, s: State)
    requires Valid(s) && |w| >= 3 && w[0].Push? && w[2] == Pop(w[0].x) && RewriteRestore(w[0].x, w[1]).Some?
    requires Rewrite(w) == RewriteRestore(w[0].x, w[1]) && Safe(w, SaveOpRestore)
    ensures Sound(w, RewriteRestore(w[0].x, w[1]).value, s)
  {
    hide Exec, Step, Sound;
    PrefixExec(w, s);
    var x := w[0].x;
    var i := RewriteRestore(x, w[1]).value.out[0].value;
    match w[1] {
      case Bin(op, d, y) => if d == Stk(0) { SaveBinRestore(x, op, y, s); } else { SaveBinFromRestore(x, op, d, s); }
      case Xchg(a, b) => if a == Stk(0) { SaveXchgRestore(x, b, s); } else { SaveXchgFromRestore(x, a, s); }
      case Un(op, _) => SaveUnaryRestore(x, op, s);
      case Push(_) => SavePushRestore(x, s);
      case Pop(_) => SavePopRestore(s);
    }
    SoundOne(w, SaveOpRestore, i, 3, s);
  }

  lemma SoundElsewhere(w: Window, s: State)
    requires Valid(s) && |w| >= 3 && w[0].Push? && w[2].Pop? && w[2].x != w[0].x
    requires RewriteElsewhere(w[0].x, w[1], w[2].x).Some?
    requires !(w[0].x.Stk? && w[2].x.Stk?)
    requires Second(w[1]) != Some(w[2].x) || (w[1].Bin? && w[0].x.Imm? && Absorbs(w[1].bop, w[0].x.n))
    ensures Sound(w, RewriteElsewhere(w[0].x, w[1], w[2].x).value, s)
  {
    hide Exec, Step, Sound;
    PrefixExec(w, s);
    var x, d, y := w[0].x, w[2].x, Second(w[1]).value;
    if w[1].Bin? {
      if y != d { PushBinPopIsMovBin(x, w[1].bop, y, d, s); } else { PushConstantPopIsMovBin(x.n, w[1].bop, d, s); }
      SoundTwo(w, PushOpPop, Bin(Mov, d, x), Bin(w[1].bop, d, y), s);
    } else {
      PushXchgPopIsMovXchg(x, y, d, s);
      SoundTwo(w, PushOpPop, Bin(Mov, d, x), Xchg(d, y), s);
    }
  }

  lemma SoundPushMov(w: Window, s: State)
    requires Valid(s) && w[0].Push? && w[1].Bin? && w[1].bop == Mov && RewritePushMov(w).Some?
    requires Rewrite(w) == RewritePushMov(w) && Safe(w, RewritePushMov(w).value.rule)
    ensures Sound(w, RewritePushMov(w).value, s)
  {
    hide Exec, Step, Sound;
    PrefixExec(w, s);
    if w[1].d.Stk? {
      PushThenStore(w[0].x, w[1].s, s);
      SoundPushFix(w, PushMovTop, w[1].s, s);
    } else if RewriteSave3(w[2], w[0].x, w[1].d, w[1].s).Some? {
      SoundSave3(w, s);
    } else {
      SoundSaveLong(w, s);
    }
  }

  lemma SoundPush(w: Window, s: State)
    requires Valid(s) && w[0].Push? && RewritePush(w).Some?
    requires Rewrite(w) == RewritePush(w) && Safe(w, RewritePush(w).value.rule)
    ensures Sound(w, RewritePush(w).value, s)
  {
    hide Exec, Step, Sound, Kept;
    if w[1].Bin? && w[1].bop == Mov && RewritePushMov(w).Some? {
      SoundPushMov(w, s);
    } else if w[1].Pop? && RewritePushPop(w).Some? {
      SoundPushPop(w, s);
    } else if w[1].Bin? && w[1].bop == Add && RewritePushAdd(w).Some? {
      SoundPushAdd(w, s);
    } else if w[1].Bin? && w[1].bop == Sub && RewritePushSub(w).Some? {
      SoundPushSub(w, s);
    } else if w[1].Lea? && RewritePushLea(w).Some? {
      SoundPushLea(w, s);
    } else if RewriteSwap(w).Some? {
      SoundSwap(w, s);
    } else if w[0].x == w[2].x {
      SoundRestore(w, s);
    } else {
      SoundElsewhere(w, s);
    }
  }

  lemma SoundAround(w: Window, op: BinOp, s: State)
    requires Valid(s) && w[0].Bin? && w[0].bop == op && (op == Add || op == Sub)
    requires RewriteAround(w, Opposite(op)).Some?
    requires (w[0].s != w[0].d && w[1].s != w[0].d) ||
             (w[0].s == w[0].d && w[1].s == w[0].d && w[1].bop == Sub) ||
             (w[0].s.Imm? && ToWord(w[0].s.n) == 0)
    ensures Sound(w, RewriteAround(w, Opposite(op)).value, s)
  {
    hide Exec, Step;
    PrefixExec(w, s);
    if w[0].s != w[0].d && w[1].s != w[0].d {
      CancelAround(w[0].d, op, w[0].s, w[1].bop, w[1].s, s);
    } else if w[0].s.Imm? && ToWord(w[0].s.n) == 0 {
      CancelZero(w[0].d, op, w[0].s.n, w[1].bop, w[1].s, s);
    } else {
      CancelSelf(w[0].d, op, s);
    }
    KeptMiddle(w[1]);
    Exec1(w[1], s);
  }

  lemma SoundAddSub(w: Window, s: State)
    requires Valid(s) && AddOrSub(w[0])
    requires var p := if w[0].bop == Add then RewriteAdd(w) else RewriteSub(w);
             p.Some? && Rewrite(w) == p && Safe(w, p.value.rule)
    ensures Sound(w, Rewrite(w).value, s)
  {
    hide Exec, Step, Sound, Kept;
    PrefixExec(w, s);
    if w[0].s == Imm(0) {
      AddZeroIsNop(w[0].bop, w[0].d, s);
      SoundGone(w, AddZero, 1, s);
    } else if Rewrite(w).value.rule == SubMovTop {
      ReserveThenStore(w[1].s, s);
      SoundPushFix(w, SubMovTop, w[1].s, s);
    } else {
      SoundAround(w, w[0].bop, s);
    }
  }

  lemma SoundMov(w: Window, s: State)
    requires Valid(s) && w[0].Bin? && w[0].bop == Mov && RewriteMov(w).Some?
    requires Rewrite(w) == RewriteMov(w) && Safe(w, RewriteMov(w).value.rule)
    ensures Sound(w, RewriteMov(w).value, s)
  {
    hide Exec, Step, Sound, Kept, FoldBinary, FoldUnary;
    PrefixExec(w, s);
    var p := RewriteMov(w).value;
    var a, b := w[0].d, w[0].s;
    match p.rule {
      case DeadMov =>
        MovThenMov(a, b, w[1].s, s);
        SoundSecond(w, DeadMov, s);
      case MovFold =>
        if w[1].Bin? {
          MovThenBin(w[1].bop, a, b.n, w[1].s.n, s);
          SoundOne(w, MovFold, Bin(Mov, a, Imm(FoldBinary(w[1].bop, b.n, w[1].s.n))), 2, s);
        } else {
          MovThenUnary(w[1].uop, a, b.n, s);
          SoundOne(w, MovFold, Bin(Mov, a, Imm(FoldUnary(w[1].uop, b.n))), 2, s);
        }
      case MovPop =>
        MovThenReleaseIsPop(a, s);
        SoundOne(w, MovPop, Pop(a), 2, s);
      case MovZeroAdd =>
        MovZeroThenAdd(a, w[1].s, s);
        SoundOne(w, MovZeroAdd, Bin(Mov, a, w[1].s), 2, s);
      case MovOpCancel =>
        if a.Gpr? || w[1].d != Esp {
          CancelConstant(a, b.n, w[1].bop, w[1].d, w[1].s, w[2].bop, w[2].s.n, s);
        } else if a.Stk? {
          CancelOnStack(a.k, b.n, w[1], w[2].bop, w[2].s.n, s);
        } else {
          NowhereToMove(a, b, s);
        }
        SoundTwo(w, MovOpCancel, Bin(Mov, a, Imm(0)), w[1], s);
    }
  }

  lemma SoundTwo(w: Window, rule: Rule, i: Instr, j: Instr, s: State)
    requires Valid(s) && |w| >= 3 && Outcome(Exec(w[..3], s), Then(Step(i, s), j))
    ensures Sound(w, Patch(rule, [Some(i), Some(j), None], true), s)
  {
    hide Exec, Step;
    KeptTwo(i, j);
    Exec2(i, j, s);
  }

  lemma KeptSecond(b: Instr)
    ensures Kept([None, Some(b)]) == [b]
  {
    var out: seq<Slot> := [None, Some(b)];
    assert out[1..] == [Some(b)] && [Some(b)][1..] == [];
    assert Kept([Some(b)]) == [b] + Kept([]);
  }

  /** The first record is flagged because the second makes it pointless. */
  lemma SoundSecond(w: Window, rule: Rule, s: State)
    requires Valid(s) && Outcome(Exec(w[..2], s), Step(w[1], s))
    ensures Sound(w, Patch(rule, [None, Some(w[1])], true), s)
  {
    hide Exec, Step;
    KeptSecond(w[1]);
    Exec1(w[1], s);
  }

  lemma SoundXor(w: Window, s: State)
    requires Valid(s) && w[0].Bin? && w[0].bop == XorOp && RewriteXor(w).Some?
    requires Rewrite(w) == RewriteXor(w) && Safe(w, RewriteXor(w).value.rule)
    ensures Sound(w, RewriteXor(w).value, s)
  {
    hide Exec, Step, Sound, Kept;
    PrefixExec(w, s);
    var a, b := w[0].d, w[0].s;
    if w[1] == w[0] {
      XorTwice(a, b, s);
      SoundGone(w, XorPair, 2, s);
    } else {
      XorThrice(a, b, s);
      SoundOne(w, XorSwap, Xchg(a, b), 3, s);
    }
  }

  lemma SoundLea(w: Window, s: State)
    requires Valid(s) && w[0].Lea? && RewriteLea(w).Some?
    requires Rewrite(w) == RewriteLea(w) && Safe(w, RewriteLea(w).value.rule)
    ensures Sound(w, RewriteLea(w).value, s)
  {
    hide Exec, Step, Sound, Kept;
    PrefixExec(w, s);
    var d, base, disp := w[0].d, w[0].base, w[0].disp;
    if w[1].Lea? && w[1].d == d {
      LeaThenLea(d, base, disp, w[1].base, w[1].disp, s);
      SoundSecond(w, LeaLea, s);
    } else if w[1].Bin? && w[1].d == d {
      LeaThenAmount(d, base, disp, w[1].bop, w[1].s.n, s);
      SoundOne(w, LeaFold, Lea(d, base, if w[1].bop == Sub then disp - w[1].s.n else disp + w[1].s.n), 2, s);
    } else if w[1].Un? && w[1].d == d {
      LeaThenCount(d, base, disp, s);
      SoundOne(w, LeaFold, Lea(d, base, if w[1].uop == Inc then disp + 1 else disp - 1), 2, s);
    } else {
      LeaEspIsAdjust(disp, s);
      if disp == 0 {
        SoundGone(w, LeaEsp, 1, s);
      } else if disp > 0 {
        SoundOne(w, LeaEsp, Bin(Add, Esp, Imm(disp)), 1, s);
      } else {
        SoundOne(w, LeaEsp, Bin(Sub, Esp, Imm(-disp)), 1, s);
      }
    }
  }

  lemma SoundMerge(w: Window, s: State)
    requires Valid(s) && RewriteMerge(w).Some?
    ensures Sound(w, RewriteMerge(w).value, s)
  {
    hide Exec, Step, Sound, Kept;
    PrefixExec(w, s);
    var delta := Signed(w[0]) + Signed(w[1]);
    if delta == 0 {
      AmountsMerge(w[0], w[1], None, s);
      SoundGone(w, AddMerge, 2, s);
    } else {
      var m := if delta > 0 then Bin(Add, w[0].d, Imm(delta)) else Bin(Sub, w[0].d, Imm(-delta));
      AmountsMerge(w[0], w[1], Some(m), s);
      SoundOne(w, AddMerge, m, 2, s);
    }
  }

  lemma SoundDead(w: Window, s: State)
    requires Valid(s) && RewriteDead(w).Some? && !w[0].Xchg?
    ensures Sound(w, RewriteDead(w).value, s)
  {
    hide Exec, Step, Sound;
    PrefixExec(w, s);
    OverwrittenTop(w[0], w[1].s, s);
    SoundSecond(w, DeadStackOp, s);
  }

  /** Every rewrite whose side condition holds preserves what the window did. */
  lemma WindowSound(w: Window)
    requires Rewrite(w).Some? && Safe(w, Rewrite(w).value.rule)
    ensures |Rewrite(w).value.out| <= |w|
    ensures Preserves(w[..|Rewrite(w).value.out|], Kept(Rewrite(w).value.out))
  {
    PatchFits(w);
    var p := Rewrite(w).value;
    forall s: State | Valid(s) ensures Outcome(Exec(w[..|p.out|], s), Exec(Kept(p.out), s)) {
      WindowSoundFrom(w, s);
      hide Exec;
    }
  }

  lemma WindowSoundFrom(w: Window, s: State)
    requires Valid(s) && Rewrite(w).Some? && Safe(w, Rewrite(w).value.rule)
    ensures Sound(w, Rewrite(w).value, s)
  {
    hide Exec, Step, Sound, Kept;
    var p := ByMnemonic(w);
    if p.Some? {
      match w[0] {
        case Un(_, _) => SoundUnary(w, s);
        case Xchg(_, _) => SoundXchg(w, s);
        case Push(_) => SoundPush(w, s);
        case Bin(op, _, _) =>
          if op == Add || op == Sub { SoundAddSub(w, s); }
          else if op == Mov { SoundMov(w, s); }
          else { SoundXor(w, s); }
        case Lea(_, _, _) => SoundLea(w, s);
        case Pop(_) =>
      }
    } else if RewriteMerge(w).Some? {
      SoundMerge(w, s);
    } else {
      SoundDead(w, s);
    }
  }
}
