/** The exact conditions of the rules on pushed words, stated as in PeepholeExactMoves.dfy. */
module PeepholeExactStack {
  import opened Wrappers
  import opened Words
  import opened Machine
  import opened Peephole
  import opened PeepholeRules
  import opened PeepholeFaithful
  import opened PeepholeExactMoves

  lemma BelowZero()
    ensures ToWord(-4) == WORD_LIMIT - 4
  {
  }

  lemma FourApart(v: int)
    ensures ToWord(v + (WORD_LIMIT - 4)) != ToWord(v)
  {
  }

  // ------------------------------------------------------------------ a store absorbed by a push

  /** A value that operand y does not have in a state whose registers and stack pointer are zero. */
  function NotValue(y: Operand): Word {
    match y
    case Imm(n) => ToWord(n + 1)
    case _ => 1
  }

  lemma NotValueDiffers(y: Operand, s: State)
    requires Valid(s) && !y.Stk? && s.esp in {0, WORD_LIMIT - 4}
    requires forall r :: 0 <= r < 7 ==> s.regs[r] == 0
    ensures Read(s, y).Some? && Read(s, y).value != NotValue(y)
  {
    if y.Imm? { ConsecutiveDiffer(y.n); }
  }

  function Fix(y: Operand): Slot { if y == Esp then Some(Bin(Sub, Stk(0), Imm(4))) else None }

  /** push y, and the correction when y is esp. */
  function PushedResult(y: Operand, s: State): Option<State>
    requires Valid(s)
  {
    if Fix(y).None? then Step(Push(y), s) else Then(Step(Push(y), s), Fix(y).value)
  }

  lemma PushMovTopShape(w: Window)
    requires Fires(w, PushMovTop)
    ensures w[0].Push? && w[1].Bin? && w[1] == Bin(Mov, w[1].d, w[1].s) && w[1].d.Stk? && !w[1].s.Stk?
    ensures Rewrite(w) == Some(Patch(PushMovTop, [Some(Push(w[1].s)), Fix(w[1].s)], true))
  {
    assert |Rewrite(w).value.out| == 2;
    assert Runs(w[1]);
  }

  /** push x; mov [esp + 4k], y  becomes  push y: right exactly when the displacement is zero. */
  lemma PushMovTopIsExact(w: Window)
    requires Fires(w, PushMovTop)
    ensures Faithful(w) <==> Safe(w, PushMovTop)
  {
    PushMovTopShape(w);
    hide Rewrite, Faithful, Step, Outcome;
    if Safe(w, PushMovTop) {
      SafeIsFaithful(w);
    } else {
      var x, y, k := w[0].x, w[1].s, w[1].d.k;
      var s := Sample(0, 0, 0, 0, NotValue(y), k + 1 + (if x.Stk? then x.k else 0));
      StoreBelowTop(x, y, k, s);
      RefutedPair(w, PushMovTop, Push(y), Fix(y), s);
    }
  }

  lemma StoreBelowTop(x: Operand, y: Operand, k: nat, s: State)
    requires k != 0 && !y.Stk? && s == Sample(0, 0, 0, 0, NotValue(y), k + 1 + (if x.Stk? then x.k else 0))
    ensures !Outcome(Then(Step(Push(x), s), Bin(Mov, Stk(k), y)), PushedResult(y, s))
  {
    hide NotValue, Outcome, Binary;
    var pushed := Step(Push(x), s);
    assert pushed.Some? && pushed.value.esp == WORD_LIMIT - 4;
    NotValueDiffers(y, pushed.value);
    DifferAt(Then(pushed, Bin(Mov, Stk(k), y)), PushedResult(y, s), Stk(k));
  }

  lemma SubMovTopShape(w: Window)
    requires Fires(w, SubMovTop)
    ensures w[0].Bin? && w[0].s.Imm? && w[0] == Bin(Sub, Esp, Imm(w[0].s.n)) && w[0].s.n % 0x10000 == 4
    ensures w[1].Bin? && w[1] == Bin(Mov, w[1].d, w[1].s) && w[1].d.Stk? && !w[1].s.Stk?
    ensures Rewrite(w) == Some(Patch(SubMovTop, [Some(Push(w[1].s)), Fix(w[1].s)], true))
  {
    assert |Rewrite(w).value.out| == 2;
    assert Runs(w[1]);
  }

  /** sub esp, n; mov [esp + 4k], y  becomes  push y: right exactly when n is 4 and the displacement
      zero, of which the code tests only that the low half of n is 4. */
  lemma SubMovTopIsExact(w: Window)
    requires Fires(w, SubMovTop)
    ensures Faithful(w) <==> Safe(w, SubMovTop)
  {
    SubMovTopShape(w);
    hide Rewrite, Faithful, Step, Outcome;
    if Safe(w, SubMovTop) {
      SafeIsFaithful(w);
    } else {
      var n, y, k := w[0].s.n, w[1].s, w[1].d.k;
      var s := Sample(0, 0, 0, 0, NotValue(y), k + 1 + Depth(Imm(n)));
      SubMovDiffers(n, y, k, s);
      RefutedPair(w, SubMovTop, Push(y), Fix(y), s);
    }
  }

  lemma SubMovDiffers(n: int, y: Operand, k: nat, s: State)
    requires n % 0x10000 == 4 && !y.Stk? && (n != 4 || k != 0)
    requires s == Sample(0, 0, 0, 0, NotValue(y), k + 1 + Depth(Imm(n)))
    ensures !Outcome(Then(Step(Bin(Sub, Esp, Imm(n)), s), Bin(Mov, Stk(k), y)), PushedResult(y, s))
  {
    hide ToWord, Binary, NotValue, Adjust, Sample;
    Reserved(n, k, NotValue(y), s);
    EspMove(Sub, n, s);
    var reserved := Adjust(s, -n).value;
    NonStackReads(y, reserved);
    if n != 4 {
      DepthsDiffer(reserved, y, k, s);
    } else {
      BelowZero();
      NotValueDiffers(y, reserved);
      DifferAt(Step(Bin(Mov, Stk(k), y), reserved), PushedResult(y, s), Stk(k));
    }
  }

  lemma DepthsDiffer(reserved: State, y: Operand, k: nat, s: State)
    requires Valid(reserved) && Valid(s) && Read(reserved, y).Some? && !y.Stk? && k < |reserved.stack| != |s.stack| + 1
    ensures !Outcome(Step(Bin(Mov, Stk(k), y), reserved), PushedResult(y, s))
  {
    hide ToWord, Binary;
  }

  /** Reserving n bytes, of which the code has tested the low half. */
  lemma Reserved(n: int, k: nat, t: Word, s: State)
    requires n % 0x10000 == 4 && s == Sample(0, 0, 0, 0, t, k + 1 + Depth(Imm(n)))
    ensures Valid(s) && s.esp == 0 && Adjust(s, -n).Some?
    ensures k < |Adjust(s, -n).value.stack| == |s.stack| + n / 4
    ensures n != 4 ==> n / 4 != 1
    ensures Adjust(s, -n).value.esp == ToWord(-n) && Adjust(s, -n).value.regs == s.regs
    ensures forall r :: 0 <= r < 7 ==> s.regs[r] == 0
    ensures k > 0 ==> s.stack[k - 1] == Some(t)
  {
    assert n % 4 == 0;
  }

  lemma NonStackReads(y: Operand, s: State)
    requires Valid(s) && !y.Stk?
    ensures Read(s, y).Some?
  {
  }

  // ------------------------------------------------------------------ registers saved and restored

  lemma SaveMovMovRestoreShape(w: Window)
    requires Fires(w, SaveMovMovRestore)
    ensures |w| >= 4 && w[0].Push? && w[0].x.Gpr? && w[1].Bin? && w[1] == Bin(Mov, w[0].x, w[1].s) && NoEsp(w[1].s)
    ensures w[2].Bin? && w[2] == Bin(Mov, w[2].d, w[0].x) && w[3] == Pop(w[0].x)
    ensures Rewrite(w) == One(SaveMovMovRestore, Bin(Mov, w[2].d, w[1].s), 4)
  {
    assert |Rewrite(w).value.out| == 4;
    assert Runs(w[1]);
  }

  /** push a; mov a, b; mov c, a; pop a  becomes  mov c, b: right unless c is a and b is not. */
  lemma SaveMovMovRestoreIsExact(w: Window)
    requires Fires(w, SaveMovMovRestore)
    ensures Faithful(w) <==> Safe(w, SaveMovMovRestore)
  {
    SaveMovMovRestoreShape(w);
    hide Rewrite, Faithful, Step, Outcome;
    if Safe(w, SaveMovMovRestore) {
      SafeIsFaithful(w);
    } else {
      var a, b := w[0].x, w[1].s;
      var s := Sample(a.r, NotValue(b), 0, 0, 0, 0);
      CopyToSaved(a, b, s);
      Running(w, s);
      RefutedOne(w, SaveMovMovRestore, Bin(Mov, a, b), 4, s);
    }
  }

  lemma CopyToSaved(a: Operand, b: Operand, s: State)
    requires a.Gpr? && NoEsp(b) && b != a && s == Sample(a.r, NotValue(b), 0, 0, 0, 0)
    ensures !Outcome(Then(Then(Then(Step(Push(a), s), Bin(Mov, a, b)), Bin(Mov, a, a)), Pop(a)),
                     Step(Bin(Mov, a, b), s))
  {
    hide Outcome;
    if b.Imm? { ConsecutiveDiffer(b.n); }
    hide ToWord;
    DifferAt(Then(Then(Then(Step(Push(a), s), Bin(Mov, a, b)), Bin(Mov, a, a)), Pop(a)), Step(Bin(Mov, a, b), s), a);
  }

  lemma NegBySubShape(w: Window)
    requires Fires(w, NegBySub)
    ensures |w| >= 5 && w[0].Push? && w[0].x.Gpr? && w[1] == Bin(Mov, w[0].x, Imm(0)) && w[4] == Pop(w[0].x)
    ensures w[2].Bin? && w[2] == Bin(Sub, w[0].x, w[2].s) && (w[2].s.Gpr? || w[2].s.Stk?)
    ensures w[3] == Bin(Mov, w[2].s, w[0].x) || (w[3].Xchg? && Partner(w[3], w[0].x) == Some(w[2].s))
    ensures Rewrite(w) == One(NegBySub, Un(Neg, w[2].s), 5)
  {
    assert |Rewrite(w).value.out| == 5;
    assert Runs(w[1]) && Runs(w[3]);
  }

  /** The five-instruction negation idiom on a and b: right exactly when they are distinct registers. */
  lemma NegBySubIsExact(w: Window)
    requires Fires(w, NegBySub)
    ensures Faithful(w) <==> Safe(w, NegBySub)
  {
    NegBySubShape(w);
    hide Rewrite, Faithful, Step, Outcome;
    if Safe(w, NegBySub) {
      SafeIsFaithful(w);
    } else {
      var a, b := w[0].x, w[2].s;
      var s := Sample(a.r, 1, 1, 0, 1, if b.Stk? then b.k + 1 else 0);
      if b == a { NegSelf(a, w[3], s); } else { NegOnStack(a, b.k, w[3], s); }
      Running(w, s);
      RefutedOne(w, NegBySub, Un(Neg, b), 5, s);
    }
  }

  lemma NegSelf(a: Operand, i: Instr, s: State)
    requires Valid(s) && a.Gpr? && s.regs[a.r] == 1
    requires i == Bin(Mov, a, a) || (i.Xchg? && Partner(i, a) == Some(a))
    ensures !Outcome(Then(Then(Then(Then(Step(Push(a), s), Bin(Mov, a, Imm(0))), Bin(Sub, a, a)), i), Pop(a)),
                     Step(Un(Neg, a), s))
  {
    hide Outcome;
    DifferAt(Then(Then(Then(Then(Step(Push(a), s), Bin(Mov, a, Imm(0))), Bin(Sub, a, a)), i), Pop(a)),
             Step(Un(Neg, a), s), a);
  }

  /** The idiom on a stack word hits the word above the one meant, or the saved register. */
  lemma NegOnStack(a: Operand, k: nat, i: Instr, s: State)
    requires a.Gpr? && s == Sample(a.r, 1, 1, 0, 1, k + 1)
    requires i == Bin(Mov, Stk(k), a) || (i.Xchg? && Partner(i, a) == Some(Stk(k)))
    ensures !Outcome(Then(Then(Then(Then(Step(Push(a), s), Bin(Mov, a, Imm(0))), Bin(Sub, a, Stk(k))), i), Pop(a)),
                     Step(Un(Neg, Stk(k)), s))
  {
    hide Outcome;
    var t := Then(Then(Then(Then(Step(Push(a), s), Bin(Mov, a, Imm(0))), Bin(Sub, a, Stk(k))), i), Pop(a));
    DifferAt(t, Step(Un(Neg, Stk(k)), s), if k == 0 then a else Stk(k - 1));
  }

  // ------------------------------------------------------------------ a stack word overwritten

  lemma DeadStackOpShape(w: Window)
    requires Fires(w, DeadStackOp)
    ensures w[1].Bin? && w[1] == Bin(Mov, Stk(0), w[1].s) && !w[1].s.Stk?
    ensures w[0].Xchg? ==> w[0].b.Gpr? && w[0] == Xchg(Stk(0), w[0].b)
    ensures Rewrite(w) == Some(Patch(DeadStackOp, [None, Some(w[1])], true))
  {
    assert |Rewrite(w).value.out| == 2;
    assert Runs(w[0]) && Runs(w[1]);
  }

  /** An operation before mov [esp], z is dead unless it is an exchange, which also writes a register. */
  lemma DeadStackOpIsExact(w: Window)
    requires Fires(w, DeadStackOp)
    ensures Faithful(w) <==> Safe(w, DeadStackOp)
  {
    DeadStackOpShape(w);
    hide Rewrite, Faithful, Step, Outcome;
    if Safe(w, DeadStackOp) {
      SafeIsFaithful(w);
    } else {
      var r := w[0].b;
      var s := Sample(r.r, 1, 0, 0, 0, 1);
      ExchangeLost(r, w[1].s, s);
      RefutedSecond(w, DeadStackOp, s);
    }
  }

  lemma ExchangeLost(r: Operand, z: Operand, s: State)
    requires r.Gpr? && !z.Stk? && s == Sample(r.r, 1, 0, 0, 0, 1)
    ensures !Outcome(Then(Step(Xchg(Stk(0), r), s), Bin(Mov, Stk(0), z)), Step(Bin(Mov, Stk(0), z), s))
  {
    hide Outcome;
    DifferAt(Then(Step(Xchg(Stk(0), r), s), Bin(Mov, Stk(0), z)), Step(Bin(Mov, Stk(0), z), s), r);
  }

  // ------------------------------------------------------------------ operations that change a word

  /** A word and an operand on which the operation changes the word. */
  function ChangedBy(i: Instr): (Word, Word) {
    if i.Bin? && i.bop == AndOp then (1, 0) else (0, 1)
  }

  lemma OperationShows(i: Instr)
    requires i.Bin?
    ensures var (word, v) := ChangedBy(i); Binary(i.bop, word, v) != word && Binary(i.bop, word, word) == word
  {
    hide And, Or, Xor;
    AndZero(1);
    AndSelf(1);
    OrZero(1);
    OrZero(0);
    XorOfZero(1);
    XorZero(0);
  }

  /** The word that shows that a constant has an effect: all ones for and, otherwise zero. */
  function Shows(op: BinOp): Word { if op == AndOp then WORD_LIMIT - 1 else 0 }

  lemma EffectShows(op: BinOp, n: int)
    requires op != Mov && !NoEffect(op, n)
    ensures Binary(op, Shows(op), ToWord(n)) != Shows(op)
  {
    hide And, Or, Xor;
    Pow32();
    AndOrOnes(ToWord(n), 32);
    OrZero(ToWord(n));
    XorOfZero(ToWord(n));
    var z: int := ToWord(n);
    if z != 0 { NonzeroAmount(z); }
  }

  // ------------------------------------------------------------------ an operation moved ahead of a push

  lemma SwapPushShape(w: Window)
    requires Fires(w, SwapPush)
    ensures w[0].Push? && Second(w[1]).Some? && NoEsp(Second(w[1]).value)
    ensures || (w[1].Bin? && w[1].bop != Mov && w[1].d == Stk(1) &&
                Rewrite(w) == Some(Patch(SwapPush, [Some(Bin(w[1].bop, Stk(0), w[1].s)), Some(w[0])], true)))
            || (w[1].Xchg? && w[1].a == Stk(1) && w[1].b.Gpr? &&
                Rewrite(w) == Some(Patch(SwapPush, [Some(Xchg(Stk(0), w[1].b)), Some(w[0])], true)))
  {
    assert |Rewrite(w).value.out| == 2;
    assert Runs(w[1]);
  }

  /** Moving an operation on [esp + 4] ahead of a push is right unless the operation writes what is
      pushed and is not the identity. */
  lemma SwapPushIsExact(w: Window)
    requires Fires(w, SwapPush)
    ensures Faithful(w) <==> Safe(w, SwapPush)
  {
    SwapPushShape(w);
    hide Rewrite, Faithful, Step, Outcome, NoEffect, ChangedBy, Shows;
    if Safe(w, SwapPush) {
      SafeIsFaithful(w);
    } else if w[1].Bin? && w[1].s.Imm? {
      var op, n := w[1].bop, w[1].s.n;
      var s := Sample(0, 0, 0, 0, Shows(op), 1);
      SwapConstantDiffers(op, n, s);
      RefutedPair(w, SwapPush, Bin(op, Stk(0), Imm(n)), Some(Push(Stk(0))), s);
    } else {
      var y := Second(w[1]).value;
      var s := Sample(y.r, ChangedBy(w[1]).1, 0, 0, ChangedBy(w[1]).0, 1);
      var moved := if w[1].Bin? then Bin(w[1].bop, Stk(0), y) else Xchg(Stk(0), y);
      SwapDiffers(w[0].x, w[1], moved, y, s);
      RefutedPair(w, SwapPush, moved, Some(w[0]), s);
    }
  }

  lemma SwapConstantDiffers(op: BinOp, n: int, s: State)
    requires op != Mov && !NoEffect(op, n) && s == Sample(0, 0, 0, 0, Shows(op), 1)
    ensures !Outcome(Then(Step(Push(Stk(0)), s), Bin(op, Stk(1), Imm(n))),
                     Then(Step(Bin(op, Stk(0), Imm(n)), s), Push(Stk(0))))
  {
    hide Binary, Outcome, NoEffect, Shows;
    EffectShows(op, n);
    DifferAt(Then(Step(Push(Stk(0)), s), Bin(op, Stk(1), Imm(n))),
             Then(Step(Bin(op, Stk(0), Imm(n)), s), Push(Stk(0))), Stk(0));
  }

  lemma SwapDiffers(x: Operand, i: Instr, moved: Instr, y: Operand, s: State)
    requires y.Gpr? && s == Sample(y.r, ChangedBy(i).1, 0, 0, ChangedBy(i).0, 1)
    requires || (i.Bin? && i.bop != Mov && i.d == Stk(1) && i.s == y && moved == Bin(i.bop, Stk(0), y) && x == Stk(0))
             || (i == Xchg(Stk(1), y) && moved == Xchg(Stk(0), y) && (x == Stk(0) || x == y))
    ensures !Outcome(Then(Step(Push(x), s), i), Then(Step(moved, s), Push(x)))
  {
    hide Binary, Outcome;
    if i.Bin? { OperationShows(i); }
    DifferAt(Then(Step(Push(x), s), i), Then(Step(moved, s), Push(x)), Stk(0));
  }

  // ------------------------------------------------------------------ a word pushed, changed and popped

  lemma PushAddPopShape(w: Window)
    requires Fires(w, PushAddPop)
    ensures |w| >= 3 && w[0].Push? && w[0].x != Esp && w[1].Bin? && w[1] == Bin(Add, Stk(0), w[1].s) && !w[1].s.Stk?
    ensures w[2].Pop? && (w[2].x.Gpr? || w[2].x.Stk?)
    ensures Rewrite(w) == Three(PushAddPop, Bin(Mov, w[2].x, w[0].x), Bin(Add, w[2].x, w[1].s))
  {
    assert |Rewrite(w).value.out| == 3;
    assert Runs(w[1]) && Runs(w[2]);
  }

  /** push x; add [esp], y; pop d  becomes  mov d, x; add d, y: right exactly when y is not the stack
      pointer and not overwritten by the mov, and the mov is not from memory to memory. */
  lemma PushAddPopIsExact(w: Window)
    requires Fires(w, PushAddPop)
    ensures Faithful(w) <==> Safe(w, PushAddPop)
  {
    PushAddPopShape(w);
    hide Rewrite, Faithful, Step, Outcome;
    if Safe(w, PushAddPop) {
      SafeIsFaithful(w);
    } else {
      var x, y, d := w[0].x, w[1].s, w[2].x;
      var s := AddPopSample(x, y, d);
      AddPopDiffers(x, y, d, s);
      RefutedTwo(w, PushAddPop, Bin(Mov, d, x), Bin(Add, d, y), s);
    }
  }

  function WordsFor(o: Operand): nat { if o.Stk? then o.k + 1 else 0 }

  /** d holds another value than x when it is also added. */
  function AddPopSample(x: Operand, y: Operand, d: Operand): (s: State)
    ensures Valid(s)
  {
    Sample(if d.Gpr? then d.r else 0, if y == d then NotValue(x) else 0, 0, 0, 0, WordsFor(x) + WordsFor(d))
  }

  lemma AddPopDiffers(x: Operand, y: Operand, d: Operand, s: State)
    requires x != Esp && !y.Stk? && (d.Gpr? || d.Stk?) && s == AddPopSample(x, y, d)
    requires y == Esp || (x.Stk? && d.Stk?) || (y == d && x != d)
    ensures !Outcome(Then(Then(Step(Push(x), s), Bin(Add, Stk(0), y)), Pop(d)),
                     Then(Step(Bin(Mov, d, x), s), Bin(Add, d, y)))
  {
    hide Binary, ToWord, Outcome;
    var t := Then(Then(Step(Push(x), s), Bin(Add, Stk(0), y)), Pop(d));
    var u := Then(Step(Bin(Mov, d, x), s), Bin(Add, d, y));
    PushedAndPopped(x, Add, y, d, s);
    if x.Stk? && d.Stk? {
      assert u.None?;
      DifferAt(t, u, d);
    } else {
      MovedAndOperated(x, Add, y, d, s);
      var v: Word := Read(s, x).value;
      WordIsWrapped(v);
      WordIsWrapped(0);
      if y == Esp {
        BelowZero();
        BinaryAmount(Add, v, WORD_LIMIT - 4);
        BinaryAmount(Add, v, 0);
        FourApart(v);
      } else {
        SavedDiffers(x, d, s);
        BinaryAmount(Add, v, s.regs[d.r]);
        BinaryAmount(Add, v, v);
        SameDisplacement(s.regs[d.r], v, v);
      }
      DifferAt(t, u, d);
    }
  }

  lemma SavedDiffers(x: Operand, d: Operand, s: State)
    requires d.Gpr? && x != d && x != Esp && s == AddPopSample(x, d, d)
    ensures Read(s, x).Some? && Read(s, x).value != s.regs[d.r]
  {
    if x.Imm? { ConsecutiveDiffer(x.n); }
  }

  /** The value y has after a push. */
  function Pushed(y: Operand, s: State): Option<Word>
    requires Valid(s)
  {
    if y == Esp then Some(ToWord(s.esp - 4)) else Read(s, y)
  }

  lemma PushedAndPopped(x: Operand, op: BinOp, y: Operand, d: Operand, s: State)
    requires Valid(s) && !y.Stk? && op != Mov && (d.Gpr? || d.Stk?)
    requires Read(s, x).Some? && (d.Stk? ==> d.k < |s.stack|)
    ensures var t := Then(Then(Step(Push(x), s), Bin(op, Stk(0), y)), Pop(d));
            t.Some? && Read(t.value, d) == Some(Binary(op, Read(s, x).value, Pushed(y, s).value))
  {
    hide Binary, ToWord;
  }

  lemma MovedAndOperated(x: Operand, op: BinOp, y: Operand, d: Operand, s: State)
    requires Valid(s) && !y.Stk? && op != Mov && (d.Gpr? || d.Stk?) && !(x.Stk? && d.Stk?)
    requires Read(s, x).Some? && (d.Stk? ==> d.k < |s.stack|)
    ensures var u := Then(Step(Bin(Mov, d, x), s), Bin(op, d, y));
            u.Some? && Read(u.value, d) ==
              Some(Binary(op, Read(s, x).value, if y == d then Read(s, x).value else Read(s, y).value))
  {
    hide Binary, ToWord;
  }

  lemma PushOpPopShape(w: Window)
    requires Fires(w, PushOpPop)
    ensures |w| >= 3 && w[0].Push? && w[2].Pop? && (w[2].x.Gpr? || w[2].x.Stk?) && w[2].x != w[0].x
    ensures || (w[1].Bin? && w[1].bop != Mov && w[1].d == Stk(0) && NoEsp(w[1].s) &&
                Rewrite(w) == Three(PushOpPop, Bin(Mov, w[2].x, w[0].x), Bin(w[1].bop, w[2].x, w[1].s)))
            || (w[1].Xchg? && w[1].a == Stk(0) && w[1].b.Gpr? &&
                Rewrite(w) == Three(PushOpPop, Bin(Mov, w[2].x, w[0].x), Xchg(w[2].x, w[1].b)))
  {
    assert |Rewrite(w).value.out| == 3;
    assert Runs(w[1]) && Runs(w[2]);
  }

  /** push x; op [esp], y; pop d  becomes  mov d, x; op d, y: right unless y is d and x is not a
      constant that absorbs it, or the mov is from memory to memory. */
  lemma PushOpPopIsExact(w: Window)
    requires Fires(w, PushOpPop)
    ensures Faithful(w) <==> Safe(w, PushOpPop)
  {
    PushOpPopShape(w);
    hide Rewrite, Faithful, Step, Outcome, Absorbs;
    if Safe(w, PushOpPop) {
      SafeIsFaithful(w);
    } else {
      var x, d := w[0].x, w[2].x;
      if w[1].Bin? {
        var s := OpPopSample(x, w[1].bop, d);
        OpPopDiffers(x, w[1].bop, w[1].s, d, s);
        RefutedTwo(w, PushOpPop, Bin(Mov, d, x), Bin(w[1].bop, d, w[1].s), s);
      } else {
        var s := Sample(if d.Gpr? then d.r else 0, NotValue(x), 0, 0, 0, WordsFor(x) + WordsFor(d));
        XchgPopDiffers(x, w[1].b, d, s);
        RefutedTwo(w, PushOpPop, Bin(Mov, d, x), Xchg(d, w[1].b), s);
      }
    }
  }

  /** d holds a value on which op of x and d is not op of x and x. */
  function OpPopSample(x: Operand, op: BinOp, d: Operand): (s: State)
    ensures Valid(s)
  {
    var r := if d.Gpr? then d.r else 0;
    var n := WordsFor(x) + WordsFor(d);
    match op
    case AndOp => Sample(r, 0, 1, 1, 1, n)
    case OrOp => Sample(r, WORD_LIMIT - 1, 0, 0, 0, n)
    case _ => Sample(r, NotValue(x), 0, 0, 0, n)
  }

  lemma OpPopDiffers(x: Operand, op: BinOp, y: Operand, d: Operand, s: State)
    requires op != Mov && NoEsp(y) && (d.Gpr? || d.Stk?) && x != d && s == OpPopSample(x, op, d)
    requires (x.Stk? && d.Stk?) || (y == d && !(x.Imm? && Absorbs(op, x.n)))
    ensures !Outcome(Then(Then(Step(Push(x), s), Bin(op, Stk(0), y)), Pop(d)),
                     Then(Step(Bin(Mov, d, x), s), Bin(op, d, y)))
  {
    hide Binary, ToWord, Outcome, NotValue, Absorbs, Sample;
    OpPopReads(x, op, d, s);
    var t := Then(Then(Step(Push(x), s), Bin(op, Stk(0), y)), Pop(d));
    var u := Then(Step(Bin(Mov, d, x), s), Bin(op, d, y));
    PushedAndPopped(x, op, y, d, s);
    if x.Stk? && d.Stk? {
      assert u.None?;
      DifferAt(t, u, d);
    } else {
      MovedAndOperated(x, op, y, d, s);
      OpPopValues(x, op, d, s);
      DifferAt(t, u, d);
    }
  }

  lemma OpPopReads(x: Operand, op: BinOp, d: Operand, s: State)
    requires s == OpPopSample(x, op, d)
    ensures Valid(s) && Read(s, x).Some? && (d.Stk? ==> d.k < |s.stack|)
  {
  }

  lemma OpPopValues(x: Operand, op: BinOp, d: Operand, s: State)
    requires op != Mov && d.Gpr? && x != d && s == OpPopSample(x, op, d) && !(x.Imm? && Absorbs(op, x.n))
    ensures Valid(s) && Read(s, x).Some?
    ensures Binary(op, Read(s, x).value, s.regs[d.r]) != Binary(op, Read(s, x).value, Read(s, x).value)
  {
    OpPopReads(x, op, d, s);
    var v := Read(s, x).value;
    SampleDiffers(x, op, d, s);
    hide ToWord, OpPopSample;
    match op {
      case AndOp => AndSelf(v); AndZero(v);
      case OrOp => OrSelf(v); Pow32(); AndOrOnes(v, 32);
      case XorOp => XorSelf(v); XorEqual(v, s.regs[d.r]);
      case Add => SameDisplacement(s.regs[d.r], v, v);
      case Sub => DifferenceShows(v, s.regs[d.r]);
    }
  }

  /** The sample's d differs from its x, where x is not the constant that absorbs. */
  lemma SampleDiffers(x: Operand, op: BinOp, d: Operand, s: State)
    requires op != Mov && d.Gpr? && x != d && s == OpPopSample(x, op, d) && !(x.Imm? && Absorbs(op, x.n))
    requires Valid(s) && Read(s, x).Some?
    ensures Read(s, x).value != s.regs[d.r]
    ensures op == AndOp ==> s.regs[d.r] == 0
    ensures op == OrOp ==> s.regs[d.r] == WORD_LIMIT - 1
  {
    if x.Imm? { ConsecutiveDiffer(x.n); }
  }

  lemma DifferenceShows(v: Word, w: Word)
    requires v != w
    ensures ToWord(v - w) != ToWord(v - v)
  {
  }

  lemma XchgPopDiffers(x: Operand, y: Operand, d: Operand, s: State)
    requires y.Gpr? && (d.Gpr? || d.Stk?) && x != d && ((x.Stk? && d.Stk?) || y == d)
    requires s == Sample(if d.Gpr? then d.r else 0, NotValue(x), 0, 0, 0, WordsFor(x) + WordsFor(d))
    ensures !Outcome(Then(Then(Step(Push(x), s), Xchg(Stk(0), y)), Pop(d)), Then(Step(Bin(Mov, d, x), s), Xchg(d, y)))
  {
    hide Outcome;
    var t := Then(Then(Step(Push(x), s), Xchg(Stk(0), y)), Pop(d));
    var u := Then(Step(Bin(Mov, d, x), s), Xchg(d, y));
    if x.Stk? && d.Stk? {
      assert u.None?;
    } else if x.Imm? {
      ConsecutiveDiffer(x.n);
    }
    hide ToWord;
    DifferAt(t, u, d);
  }

  // ------------------------------------------------------------------ a word pushed and popped back

  lemma SaveOpRestoreShape(w: Window)
    requires Fires(w, SaveOpRestore)
    ensures |w| >= 3 && w[0].Push? && w[2] == Pop(w[0].x) && (w[0].x.Gpr? || w[0].x.Stk?) && Runs(w[1])
    ensures RewriteRestore(w[0].x, w[1]).Some? && Rewrite(w) == RewriteRestore(w[0].x, w[1])
    ensures w[1].Bin? && w[1].d == Stk(0) ==> w[1].bop in {Sub, AndOp, OrOp, XorOp}
    ensures w[1].Pop? ==> w[0].x.Stk?
  {
    assert |Rewrite(w).value.out| == 3;
    assert Runs(w[1]) && Runs(w[2]);
  }

  /** push x; i; pop x  becomes i on x: right exactly when i does not use the stack pointer's value,
      is not an operation on x itself whose result the pop discards, and does not move another stack
      word under x. */
  lemma SaveOpRestoreIsExact(w: Window)
    requires Fires(w, SaveOpRestore)
    ensures Faithful(w) <==> Safe(w, SaveOpRestore)
  {
    SaveOpRestoreShape(w);
    hide Rewrite, Faithful, Step, Outcome;
    if Safe(w, SaveOpRestore) {
      SafeIsFaithful(w);
    } else {
      var x := w[0].x;
      var i := RewriteRestore(x, w[1]).value.out[0].value;
      var s := RestoreSample(x, w[1]);
      RestoreDiffers(x, w[1], i, s);
      Running(w, s);
      RefutedOne(w, SaveOpRestore, i, 3, s);
    }
  }

  /** A state that shows an unsafe instance. */
  function RestoreSample(x: Operand, i: Instr): (s: State)
    ensures Valid(s)
  {
    var r := if x.Gpr? then x.r else 0;
    match i
    case Bin(op, d, _) =>
      if d == Stk(0) then Sample(r, if op == AndOp then 4 else 0, 0, 4, if op == AndOp then 4 else 0, WordsFor(x))
      else Sample(r, 1, 0, 0, 0, 0)
    case _ =>
      var n := WordsFor(x);
      State(seq(7, _ => 0), 0, [Some(1)] + seq(n, j => if j + 1 == n - 1 then Some(2) else Some(1)))
  }

  lemma RestoreDiffers(x: Operand, i: Instr, j: Instr, s: State)
    requires (x.Gpr? || x.Stk?) && Runs(i) && RewriteRestore(x, i).Some? && j == RewriteRestore(x, i).value.out[0].value
    requires match i
             case Bin(op, d, y) =>
               if d == Stk(0) then y == Esp && op in {Sub, AndOp, OrOp, XorOp} else d == x && op in {Add, Sub, XorOp}
             case Push(_) => x.Stk? && x.k > 0
             case Pop(_) => x.Stk? && x.k > 0
             case _ => false
    requires s == RestoreSample(x, i)
    ensures !Outcome(Then(Then(Step(Push(x), s), i), Pop(x)), Step(j, s))
  {
    hide Outcome;
    match i {
      case Bin(op, d, _) =>
        hide Binary;
        if d == Stk(0) { EspOperandDiffers(x, op, s); } else { ResultDiscarded(x, op, s); }
      case Push(_) => CopyMisplaced(x.k, s);
      case Pop(_) => WordMisplaced(x.k, s);
    }
  }

  lemma EspOperandDiffers(x: Operand, op: BinOp, s: State)
    requires (x.Gpr? || x.Stk?) && op in {Sub, AndOp, OrOp, XorOp} && s == RestoreSample(x, Bin(op, Stk(0), Esp))
    ensures !Outcome(Then(Then(Step(Push(x), s), Bin(op, Stk(0), Esp)), Pop(x)), Step(Bin(op, x, Esp), s))
  {
    hide Binary, Outcome;
    var v := if op == AndOp then 4 else 0;
    assert Read(s, x) == Some(v) && s.esp == 4 && ToWord(s.esp - 4) == 0;
    PushedAndPopped(x, op, Esp, x, s);
    OperatedEsp(x, op, s);
    EspShows(op, v);
    DifferAt(Then(Then(Step(Push(x), s), Bin(op, Stk(0), Esp)), Pop(x)), Step(Bin(op, x, Esp), s), x);
  }

  lemma OperatedEsp(x: Operand, op: BinOp, s: State)
    requires Valid(s) && (x.Gpr? || x.Stk?) && Read(s, x).Some? && op != Mov
    ensures var u := Step(Bin(op, x, Esp), s); u.Some? && Read(u.value, x) == Some(Binary(op, Read(s, x).value, s.esp))
  {
    hide Binary;
  }

  lemma EspShows(op: BinOp, v: Word)
    requires op in {Sub, AndOp, OrOp, XorOp} && v == (if op == AndOp then 4 else 0)
    ensures Binary(op, v, 0) != Binary(op, v, 4)
  {
    hide And, Or, Xor;
    AndSelf(4);
    AndZero(4);
    OrZero(4);
    OrZero(0);
    XorOfZero(4);
    XorZero(0);
  }

  lemma ResultDiscarded(x: Operand, op: BinOp, s: State)
    requires x.Gpr? && op in {Add, Sub, XorOp} && Valid(s) && s.regs[x.r] == 1
    ensures !Outcome(Then(Then(Step(Push(x), s), Bin(op, x, Stk(0))), Pop(x)), Step(Bin(op, x, x), s))
  {
    hide Xor, Outcome;
    XorSelf(1);
    DifferAt(Then(Then(Step(Push(x), s), Bin(op, x, Stk(0))), Pop(x)), Step(Bin(op, x, x), s), x);
  }

  /** push [esp+4k]; push [esp]; pop [esp+4k]  writes the word above the one meant. */
  lemma CopyMisplaced(k: nat, s: State)
    requires k > 0 && s == RestoreSample(Stk(k), Push(Stk(0)))
    ensures !Outcome(Then(Then(Step(Push(Stk(k)), s), Push(Stk(0))), Pop(Stk(k))), Step(Push(Stk(k)), s))
  {
    hide Outcome, ToWord;
    assert s.stack[k] == Some(2) && s.stack[k - 1] == Some(1);
    DifferAt(Then(Then(Step(Push(Stk(k)), s), Push(Stk(0))), Pop(Stk(k))), Step(Push(Stk(k)), s), Stk(k));
  }

  lemma WordMisplaced(k: nat, s: State)
    requires k > 0 && s == RestoreSample(Stk(k), Pop(Stk(0)))
    ensures !Outcome(Then(Then(Step(Push(Stk(k)), s), Pop(Stk(0))), Pop(Stk(k))), Step(Pop(Stk(k)), s))
  {
    hide Outcome, ToWord;
    assert s.stack[k] == Some(2) && s.stack[0] == Some(1);
    DifferAt(Then(Then(Step(Push(Stk(k)), s), Pop(Stk(0))), Pop(Stk(k))), Step(Pop(Stk(k)), s), Stk(k));
  }
}
