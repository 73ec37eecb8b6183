/** The exact conditions of the rules on registers, constants and the stack pointer: where the code
    applies a rule without testing its condition, the rewrite preserves the window if and only if the
    condition holds. */
module PeepholeExactMoves {
  import opened Wrappers
  import opened Words
  import opened Machine
  import opened Peephole
  import opened PeepholeRules
  import opened PeepholeFaithful

  // ------------------------------------------------------------------ values

  lemma SubSelf(m: Word)
    ensures Binary(Sub, m, m) == ToWord(0)
  {
  }

  lemma ConsecutiveDiffer(z: int)
    ensures ToWord(z) != ToWord(z + 1)
  {
    WrapSum(z, 1);
  }

  lemma SameDisplacement(x: Word, y: Word, n: int)
    requires x != y
    ensures ToWord(x + n) != ToWord(y + n)
  {
    WrapSum(x + n, -n);
    WrapSum(y + n, -n);
    WordIsWrapped(x);
    WordIsWrapped(y);
  }

  lemma NonzeroAmount(z: int)
    requires z != 0 && -WORD_LIMIT < z < WORD_LIMIT
    ensures ToWord(z) != 0 && ToWord(-z) != 0
  {
  }

  // ------------------------------------------------------------------ dead loads

  lemma DeadMovShape(w: Window)
    requires Fires(w, DeadMov)
    ensures w[0].Bin? && w[0].bop == Mov && w[1].Bin? && w[1] == Bin(Mov, w[0].d, w[1].s) && Runs(w[0]) && Runs(w[1])
    ensures Rewrite(w) == Some(Patch(DeadMov, [None, Some(w[1])], true))
  {
    assert |Rewrite(w).value.out| == 2;
  }

  /** mov a, x; mov a, y: dropping the first is right unless the second reads a. */
  lemma DeadMovIsExact(w: Window)
    requires Fires(w, DeadMov)
    ensures Faithful(w) <==> Safe(w, DeadMov)
  {
    DeadMovShape(w);
    hide Rewrite, Faithful, Step, Outcome;
    if Safe(w, DeadMov) {
      SafeIsFaithful(w);
    } else {
      var a, x := w[0].d, w[0].s;
      var base := Sample(a.r, 0, 0, 0, 0, if x.Stk? then x.k + 1 else 0);
      var v: int := Read(base, x).value;
      var s := base.(regs := base.regs[a.r := ToWord(v + 1)]);
      SecondLoadReads(a, x, v, s);
      RefutedSecond(w, DeadMov, s);
    }
  }

  lemma SecondLoadReads(a: Operand, x: Operand, v: int, s: State)
    requires Valid(s) && a.Gpr? && x != a && Read(s, x).Some? && Read(s, x).value == v && s.regs[a.r] == ToWord(v + 1)
    ensures !Outcome(Then(Step(Bin(Mov, a, x), s), Bin(Mov, a, a)), Step(Bin(Mov, a, a), s))
  {
    hide Outcome;
    DifferAt(Then(Step(Bin(Mov, a, x), s), Bin(Mov, a, a)), Step(Bin(Mov, a, a), s), a);
  }

  lemma MovZeroAddShape(w: Window)
    requires Fires(w, MovZeroAdd)
    ensures w[0] == Bin(Mov, w[0].d, Imm(0)) && w[1].Bin? && w[1] == Bin(Add, w[0].d, w[1].s)
    ensures Runs(w[0]) && Runs(w[1])
    ensures Rewrite(w) == One(MovZeroAdd, Bin(Mov, w[0].d, w[1].s), 2)
  {
    assert |Rewrite(w).value.out| == 2;
  }

  /** mov a, 0; add a, y: loading y instead is right unless y is a. */
  lemma MovZeroAddIsExact(w: Window)
    requires Fires(w, MovZeroAdd)
    ensures Faithful(w) <==> Safe(w, MovZeroAdd)
  {
    MovZeroAddShape(w);
    hide Rewrite, Faithful, Step, Outcome;
    if Safe(w, MovZeroAdd) {
      SafeIsFaithful(w);
    } else {
      var a := w[0].d;
      var s := Sample(a.r, 1, 0, 0, 0, 0);
      ZeroAddedReads(a, s);
      Running(w, s);
      RefutedOne(w, MovZeroAdd, Bin(Mov, a, a), 2, s);
    }
  }

  lemma ZeroAddedReads(a: Operand, s: State)
    requires Valid(s) && a.Gpr? && s.regs[a.r] == 1
    ensures !Outcome(Then(Step(Bin(Mov, a, Imm(0)), s), Bin(Add, a, a)), Step(Bin(Mov, a, a), s))
  {
    hide Outcome;
    DifferAt(Then(Step(Bin(Mov, a, Imm(0)), s), Bin(Add, a, a)), Step(Bin(Mov, a, a), s), a);
  }

  lemma XorPairShape(w: Window)
    requires Fires(w, XorPair)
    ensures w[0].Bin? && w[0].bop == XorOp && w[1] == w[0] && Runs(w[0]) && Rewrite(w) == Gone(XorPair, 2)
  {
    assert |Rewrite(w).value.out| == 2;
  }

  /** xor a, b twice: dropping both is right unless b is a. */
  lemma XorPairIsExact(w: Window)
    requires Fires(w, XorPair)
    ensures Faithful(w) <==> Safe(w, XorPair)
  {
    XorPairShape(w);
    hide Rewrite, Faithful, Step, Outcome;
    if Safe(w, XorPair) {
      SafeIsFaithful(w);
    } else {
      var a := w[0].d;
      var s := Sample(a.r, 1, 0, 0, 0, 0);
      XorSelfClears(a, s);
      Running(w, s);
      RefutedNone(w, XorPair, 2, s);
    }
  }

  lemma XorSelfClears(a: Operand, s: State)
    requires Valid(s) && a.Gpr? && s.regs[a.r] == 1
    ensures !Outcome(Then(Step(Bin(XorOp, a, a), s), Bin(XorOp, a, a)), Some(s))
  {
    hide Outcome, Xor;
    XorSelf(1);
    XorSelf(0);
    DifferAt(Then(Step(Bin(XorOp, a, a), s), Bin(XorOp, a, a)), Some(s), a);
  }

  // ------------------------------------------------------------------ lea

  lemma LeaLeaShape(w: Window)
    requires Fires(w, LeaLea)
    ensures w[0].Lea? && w[1].Lea? && w[1].d == w[0].d && Runs(w[0]) && Runs(w[1])
    ensures Rewrite(w) == Some(Patch(LeaLea, [None, Some(w[1])], true))
  {
    assert |Rewrite(w).value.out| == 2;
  }

  /** lea d, m; lea d, n: dropping the first is right unless the second is based on d and the first
      changed it. */
  lemma LeaLeaIsExact(w: Window)
    requires Fires(w, LeaLea)
    ensures Faithful(w) <==> Safe(w, LeaLea)
  {
    LeaLeaShape(w);
    hide Rewrite, Faithful, Step, Outcome;
    if Safe(w, LeaLea) {
      SafeIsFaithful(w);
    } else {
      var d, base, m, n := w[0].d, w[0].base, w[0].disp, w[1].disp;
      if d.Gpr? {
        var v: Word := if base == d then 0 else ToWord(m + 1);
        var s := Sample(d.r, v, 0, 0, 0, 0);
        LeasDiffer(d, base, m, n, v, s);
        RefutedSecond(w, LeaLea, s);
      } else {
        var s := Sample(0, 0, 0, 0, 0, Depth(Imm(m)) + Depth(Imm(n)));
        EspLeasDiffer(m, n, s);
        RefutedSecond(w, LeaLea, s);
      }
    }
  }

  lemma LeasDiffer(d: Operand, base: Operand, m: int, n: int, v: Word, s: State)
    requires Valid(s) && d.Gpr? && s.regs[d.r] == v && (base.Gpr? || base == Esp)
    requires if base == d then v == 0 && ToWord(m) != 0 else v == ToWord(m + 1) && Read(s, base) == Some(0)
    ensures !Outcome(Then(Step(Lea(d, base, m), s), Lea(d, d, n)), Step(Lea(d, d, n), s))
  {
    hide ToWord, Step, Outcome;
    LeaStep(d, base, 0, m, s);
    LeaStep(d, d, v, n, s);
    var first := s.(regs := s.regs[d.r := ToWord(m)]);
    LeaStep(d, d, ToWord(m), n, first);
    if base != d { ConsecutiveDiffer(m); }
    SameDisplacement(ToWord(m), v, n);
    DifferAt(Then(Step(Lea(d, base, m), s), Lea(d, d, n)), Step(Lea(d, d, n), s), d);
  }

  lemma EspLeasDiffer(m: int, n: int, s: State)
    requires Valid(s) && m % 4 == 0 && n % 4 == 0 && m != 0 && |s.stack| >= Depth(Imm(m)) + Depth(Imm(n))
    ensures !Outcome(Then(Step(Lea(Esp, Esp, m), s), Lea(Esp, Esp, n)), Step(Lea(Esp, Esp, n), s))
  {
    AdjustDepth(s, m);
    AdjustDepth(s, n);
    AdjustDepth(Adjust(s, m).value, n);
    hide Adjust;
  }

  /** How many words are left on the stack after moving the stack pointer. */
  lemma AdjustDepth(s: State, m: int)
    requires Valid(s) && m % 4 == 0 && m / 4 <= |s.stack|
    ensures Adjust(s, m).Some? && |Adjust(s, m).value.stack| == |s.stack| - m / 4
  {
  }

  // ------------------------------------------------------------------ a constant loaded and taken off

  lemma MovOpCancelShape(w: Window)
    requires Fires(w, MovOpCancel)
    ensures |w| >= 3 && w[0].Bin? && w[0].bop == Mov && w[0].s.Imm? && AddOrSub(w[1]) && w[1].s != w[0].d
    ensures w[2].Bin? && w[2].d == w[0].d && w[2].s.Imm? && Runs(w[0]) && Runs(w[1])
    ensures (w[2].bop == Sub && w[2].s == w[0].s) || (w[2].bop == Add && ToWord(w[0].s.n + w[2].s.n) == 0)
    ensures Rewrite(w) == Three(MovOpCancel, Bin(Mov, w[0].d, Imm(0)), w[1])
  {
    assert |Rewrite(w).value.out| == 3;
  }

  /** mov a, n; (add|sub) b, c; sub a, n, or add a, -n: loading 0 instead is right unless the middle
      moves the stack pointer, so that the last instruction takes n off another stack word. */
  lemma MovOpCancelIsExact(w: Window)
    requires Fires(w, MovOpCancel)
    ensures Faithful(w) <==> Safe(w, MovOpCancel)
  {
    MovOpCancelShape(w);
    hide Rewrite, Faithful, Step, Outcome;
    if Safe(w, MovOpCancel) {
      SafeIsFaithful(w);
    } else {
      var k, n, m := w[0].d.k, w[0].s.n, Signed(w[1]);
      assert m % 4 == 0 by { DivisibleBothWays(w[1].s.n); }
      var s := Sample(0, 0, 0, 0, 0, k + 1 + Depth(Imm(m)));
      OtherWordChanges(k, n, w[1], w[2].bop, w[2].s.n, s);
      RefutedTwo(w, MovOpCancel, Bin(Mov, Stk(k), Imm(0)), w[1], s);
    }
  }

  lemma DivisibleBothWays(n: int)
    requires n % 4 == 0
    ensures (-n) % 4 == 0
  {
  }

  lemma OtherWordChanges(k: nat, n: int, i: Instr, last: BinOp, l: int, s: State)
    requires Valid(s) && AddOrSub(i) && i.d == Esp && i.s.Imm? && ToWord(n) != 0
    requires (last == Sub && l == n) || (last == Add && ToWord(n + l) == 0)
    requires var m := Signed(i); m != 0 && m % 4 == 0 && (m < 0 ==> -m <= 4 * k) && |s.stack| == k + 1 + Depth(Imm(m))
    requires forall j :: 0 <= j < |s.stack| ==> s.stack[j] == Some(0)
    ensures !Outcome(Then(Then(Step(Bin(Mov, Stk(k), Imm(n)), s), i), Bin(last, Stk(k), Imm(l))),
                     Then(Step(Bin(Mov, Stk(k), Imm(0)), s), i))
  {
    hide Step, Adjust, Write, Read, Outcome, Binary, ToWord;
    var m := Signed(i);
    WordIsWrapped(0);
    StoreStep(k, n, s);
    StoreStep(k, 0, s);
    StoredThenMoved(k, ToWord(n), m, s);
    StoredThenMoved(k, 0, m, s);
    var t, u := Write(s, Stk(k), ToWord(n)).value, Write(s, Stk(k), 0).value;
    MoveStep(i, t);
    MoveStep(i, u);
    var moved := Adjust(t, m).value;
    OperateStep(k, last, l, moved);
    TakenOff(n, last, l);
    WriteReads(moved, Stk(k), Binary(last, 0, ToWord(l)));
    DifferAt(Step(Bin(last, Stk(k), Imm(l)), moved), Adjust(u, m), Stk(k));
  }

  lemma WriteReads(s: State, d: Operand, v: Word)
    requires Valid(s) && d.Stk? && Read(s, d).Some?
    ensures Write(s, d, v).Some? && Read(Write(s, d, v).value, d) == Some(v)
  {
  }

  /** After the move [esp + 4 * k] is another word, which is 0. */
  lemma StoredThenMoved(k: nat, v: Word, m: int, s: State)
    requires Valid(s) && m != 0 && m % 4 == 0 && (m < 0 ==> -m <= 4 * k) && |s.stack| == k + 1 + Depth(Imm(m))
    requires forall j :: 0 <= j < |s.stack| ==> s.stack[j] == Some(0)
    ensures Write(s, Stk(k), v).Some? && Adjust(Write(s, Stk(k), v).value, m).Some?
    ensures Read(Adjust(Write(s, Stk(k), v).value, m).value, Stk(k)) == Some(0)
  {
    hide ToWord;
  }

  lemma TakenOff(n: int, last: BinOp, l: int)
    requires ToWord(n) != 0 && ((last == Sub && l == n) || (last == Add && ToWord(n + l) == 0))
    ensures Binary(last, 0, ToWord(l)) != 0
  {
    if last == Add {
      hide Binary;
      var z: int := ToWord(l);
      WrapSum(l, n);
      WordIsWrapped(ToWord(l));
      WordIsWrapped(ToWord(n));
      BinaryAmount(Add, 0, ToWord(l));
    } else {
      NonzeroAmount(ToWord(n));
    }
  }

  // ------------------------------------------------------------------ an amount added around another

  lemma AddOpSubShape(w: Window)
    requires Fires(w, AddOpSub)
    ensures |w| >= 3 && AddOrSub(w[0]) && AddOrSub(w[1]) && w[1].d == w[0].d && Runs(w[0]) && Runs(w[1])
    ensures w[2] == Bin(Opposite(w[0].bop), w[0].d, w[0].s)
    ensures Rewrite(w) == Some(Patch(AddOpSub, [None, Some(w[1]), None], true))
  {
    assert |Rewrite(w).value.out| == 3;
  }

  /** add a, b; (add|sub) a, c; sub a, b  and its mirror image: keeping the middle alone is right unless
      b or c is a, the two are a and it adds, and the amount is not a zero constant. */
  lemma AddOpSubIsExact(w: Window)
    requires Fires(w, AddOpSub)
    ensures Faithful(w) <==> Safe(w, AddOpSub)
  {
    AddOpSubShape(w);
    hide Rewrite, Faithful, Step, Outcome, AroundSample;
    if Safe(w, AddOpSub) {
      SafeIsFaithful(w);
    } else {
      var a, b, c := w[0].d, w[0].s, w[1].s;
      var s := AroundSample(a, w[0].bop, b, w[1].bop, c);
      AroundDiffers(a, w[0].bop, b, w[1].bop, c, s);
      RefutedMiddle(w, AddOpSub, s);
    }
  }

  /** A state on which an unsafe instance of the rule shows. */
  function AroundSample(a: Operand, op: BinOp, b: Operand, mid: BinOp, c: Operand): (s: State)
    requires a.Gpr?
    ensures Valid(s)
  {
    if c == a then Sample(a.r, if b == a then 1 else 0, 1, 1, 1, if b.Stk? then b.k + 1 else 0)
    else
      var x := if !c.Imm? then 0 else if op == mid then -c.n else c.n;
      Sample(a.r, ToWord(x + 1), 0, 0, 0, if c.Stk? then c.k + 1 else 0)
  }

  lemma AroundDiffers(a: Operand, op: BinOp, b: Operand, mid: BinOp, c: Operand, s: State)
    requires Valid(s) && a.Gpr? && (op == Add || op == Sub) && (mid == Add || mid == Sub)
    requires (b == a || c == a) && (b == a && c == a ==> mid == Add) && (b.Imm? ==> ToWord(b.n) != 0)
    requires s == AroundSample(a, op, b, mid, c)
    ensures !Outcome(Then(Then(Step(Bin(op, a, b), s), Bin(mid, a, c)), Bin(Opposite(op), a, b)),
                     Step(Bin(mid, a, c), s))
  {
    hide Step, Outcome;
    if c != a {
      AroundOuter(op, mid, a, c, s);
    } else if b == a {
      AroundSelf(op, a, s);
    } else {
      AroundMiddle(op, mid, a, b, s);
    }
  }

  lemma AroundSelf(op: BinOp, a: Operand, s: State)
    requires Valid(s) && (op == Add || op == Sub) && a.Gpr? && s.regs[a.r] == 1
    ensures !Outcome(Then(Then(Step(Bin(op, a, a), s), Bin(Add, a, a)), Bin(Opposite(op), a, a)),
                     Step(Bin(Add, a, a), s))
  {
    hide Outcome;
    DifferAt(Then(Then(Step(Bin(op, a, a), s), Bin(Add, a, a)), Bin(Opposite(op), a, a)), Step(Bin(Add, a, a), s), a);
  }

  lemma AroundMiddle(op: BinOp, mid: BinOp, a: Operand, b: Operand, s: State)
    requires Valid(s) && (op == Add || op == Sub) && (mid == Add || mid == Sub) && a.Gpr? && b != a
    requires s.regs[a.r] == 0 && Read(s, b).Some? && Read(s, b).value != 0
    ensures !Outcome(Then(Then(Step(Bin(op, a, b), s), Bin(mid, a, a)), Bin(Opposite(op), a, b)),
                     Step(Bin(mid, a, a), s))
  {
    hide Binary, Outcome;
    var x := Read(s, b).value;
    var t := Then(Then(Step(Bin(op, a, b), s), Bin(mid, a, a)), Bin(Opposite(op), a, b));
    var m := Binary(op, 0, x);
    assert t.Some? && t.value.regs[a.r] == Binary(Opposite(op), Binary(mid, m, m), x);
    var u := Step(Bin(mid, a, a), s);
    assert u.Some? && u.value.regs[a.r] == Binary(mid, 0, 0);
    MiddleValues(op, mid, x);
    DifferAt(t, u, a);
  }

  lemma MiddleValues(op: BinOp, mid: BinOp, x: Word)
    requires (op == Add || op == Sub) && (mid == Add || mid == Sub) && x != 0
    ensures var m := Binary(op, 0, x); Binary(Opposite(op), Binary(mid, m, m), x) != Binary(mid, 0, 0)
  {
    hide Binary, ToWord;
    var z := Amount(op, x);
    var m := Binary(op, 0, x);
    BinaryAmount(op, 0, x);
    WordIsWrapped(0);
    SubSelf(0);
    AmountOfSum(Add, 0, 0);
    NonzeroAmount(z);
    if mid == Add {
      AmountOfSum(Add, z, z);
      BinaryAmount(Opposite(op), Binary(Add, m, m), x);
      WrapSum(z + z, -z);
    } else {
      SubSelf(m);
      BinaryAmount(Opposite(op), 0, x);
    }
  }

  lemma AroundOuter(op: BinOp, mid: BinOp, a: Operand, c: Operand, s: State)
    requires Valid(s) && (op == Add || op == Sub) && (mid == Add || mid == Sub) && a.Gpr? && c != a && Read(s, c).Some?
    requires var n: int := if c.Imm? then c.n else 0;
             Read(s, c).value == ToWord(n) && s.regs[a.r] == ToWord((if op == mid then -n else n) + 1)
    ensures !Outcome(Then(Then(Step(Bin(op, a, a), s), Bin(mid, a, c)), Bin(Opposite(op), a, a)),
                     Step(Bin(mid, a, c), s))
  {
    hide Binary, Outcome;
    var v, x := s.regs[a.r], Read(s, c).value;
    var t := Then(Then(Step(Bin(op, a, a), s), Bin(mid, a, c)), Bin(Opposite(op), a, a));
    var m := Binary(mid, Binary(op, v, v), x);
    assert t.Some? && t.value.regs[a.r] == Binary(Opposite(op), m, m);
    var u := Step(Bin(mid, a, c), s);
    assert u.Some? && u.value.regs[a.r] == Binary(mid, v, x);
    OuterValues(op, mid, if c.Imm? then c.n else 0);
    DifferAt(t, u, a);
  }

  lemma OuterValues(op: BinOp, mid: BinOp, n: int)
    requires (op == Add || op == Sub) && (mid == Add || mid == Sub)
    ensures var v, x := ToWord((if op == mid then -n else n) + 1), ToWord(n);
            var m := Binary(mid, Binary(op, v, v), x);
            Binary(Opposite(op), m, m) != Binary(mid, v, x)
  {
    hide Binary, ToWord;
    var y := if mid == Add then n else -n;
    var start := (if op == mid then -n else n) + 1;
    AmountOfSum(mid, start, n);
    SubSelf(ToWord(start));
    if op == Add {
      assert start + y == 1;
      SubSelf(Binary(mid, Binary(op, ToWord(start), ToWord(start)), ToWord(n)));
      ConsecutiveDiffer(0);
    } else {
      AmountOfSum(mid, 0, n);
      AmountOfSum(Add, y, y);
      assert start + y == y + y + 1;
      ConsecutiveDiffer(y + y);
    }
  }
}
