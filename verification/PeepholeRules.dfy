/** Every rule of the optimiser, on its own window: under the rule's side condition the rewritten
    records do what the original ones did. */
module PeepholeRules {
  import opened Wrappers
  import opened Words
  import opened Machine
  import opened Peephole

  // ------------------------------------------------------------------ short traces

  function Then(o: Option<State>, i: Instr): (r: Option<State>)
    requires o.Some? ==> Valid(o.value)
    ensures r.Some? ==> Valid(r.value)
  {
    if o.None? then None else Step(i, o.value)
  }

  lemma Exec0(s: State)
    requires Valid(s)
    ensures Exec([], s) == Some(s)
  {
  }

  lemma ExecSnoc(p: seq<Instr>, i: Instr, s: State)
    requires Valid(s)
    ensures Exec(p + [i], s) == Then(Exec(p, s), i)
  {
    hide Step;
    ExecConcat(p, [i], s);
    if Exec(p, s).Some? {
      var t := Exec(p, s).value;
      assert Exec([i], t) == match Step(i, t) case None => None case Some(u) => Exec([], u);
    }
  }

  lemma Exec1(a: Instr, s: State)
    requires Valid(s)
    ensures Exec([a], s) == Step(a, s)
  {
    ExecSnoc([], a, s);
    assert [] + [a] == [a];
  }

  lemma Exec2(a: Instr, b: Instr, s: State)
    requires Valid(s)
    ensures Exec([a, b], s) == Then(Step(a, s), b)
  {
    hide Step;
    Exec1(a, s);
    ExecSnoc([a], b, s);
    assert [a] + [b] == [a, b];
  }

  lemma Exec3(a: Instr, b: Instr, c: Instr, s: State)
    requires Valid(s)
    ensures Exec([a, b, c], s) == Then(Then(Step(a, s), b), c)
  {
    hide Step;
    Exec2(a, b, s);
    ExecSnoc([a, b], c, s);
    assert [a, b] + [c] == [a, b, c];
  }

  lemma Exec4(a: Instr, b: Instr, c: Instr, d: Instr, s: State)
    requires Valid(s)
    ensures Exec([a, b, c, d], s) == Then(Then(Then(Step(a, s), b), c), d)
  {
    hide Step;
    Exec3(a, b, c, s);
    ExecSnoc([a, b, c], d, s);
    assert [a, b, c] + [d] == [a, b, c, d];
  }

  lemma Exec5(a: Instr, b: Instr, c: Instr, d: Instr, e: Instr, s: State)
    requires Valid(s)
    ensures Exec([a, b, c, d, e], s) == Then(Then(Then(Then(Step(a, s), b), c), d), e)
  {
    hide Step;
    Exec4(a, b, c, d, s);
    ExecSnoc([a, b, c, d], e, s);
    assert [a, b, c, d] + [e] == [a, b, c, d, e];
  }

  // ------------------------------------------------------------------ reading and writing

  lemma UnaryTwice(op: UnOp, v: Word)
    requires op in {ByteSwap, Neg, Not}
    ensures Unary(op, Unary(op, v)) == v
  {
    hide Bswap;
    BswapTwice(v);
  }

  lemma CancelUnary(op: UnOp, d: Operand, s: State)
    requires Valid(s) && op in {ByteSwap, Neg, Not}
    ensures Outcome(Then(Step(Un(op, d), s), Un(op, d)), Some(s))
  {
    hide Unary;
    var v := Read(s, d);
    if v.Some? { UnaryTwice(op, v.value); }
  }

  lemma CancelXchg(a: Operand, b: Operand, i: Instr, s: State)
    requires Valid(s) && a != b && i.Xchg? && Partner(i, a) == Some(b)
    ensures Outcome(Then(Step(Xchg(a, b), s), i), Some(s))
  {
  }

  lemma SelfXchgIsNop(a: Operand, s: State)
    requires Valid(s)
    ensures Outcome(Step(Xchg(a, a), s), Some(s))
  {
  }

  lemma UnaryThroughXchg(a: Operand, b: Operand, op: UnOp, x: Operand, i: Instr, s: State)
    requires Valid(s) && a != b && i.Xchg? && Partner(i, a) == Some(b) && (x == a || x == b)
    ensures Outcome(Then(Then(Step(Xchg(a, b), s), Un(op, x)), i), Step(Un(op, if x == a then b else a), s))
  {
    hide Unary;
  }

  // ------------------------------------------------------------------ push rules

  /** push x; mov [esp], y  is  push y, with a correction when y is esp. */
  lemma PushThenStore(x: Operand, y: Operand, s: State)
    requires Valid(s)
    ensures y != Esp ==> Outcome(Then(Step(Push(x), s), Bin(Mov, Stk(0), y)), Step(Push(y), s))
    ensures y == Esp ==> Outcome(Then(Step(Push(x), s), Bin(Mov, Stk(0), y)),
                                 Then(Step(Push(y), s), Bin(Sub, Stk(0), Imm(4))))
  {
  }

  lemma ReserveThenStore(y: Operand, s: State)
    requires Valid(s)
    ensures y != Esp ==> Outcome(Then(Step(Bin(Sub, Esp, Imm(4)), s), Bin(Mov, Stk(0), y)), Step(Push(y), s))
    ensures y == Esp ==> Outcome(Then(Step(Bin(Sub, Esp, Imm(4)), s), Bin(Mov, Stk(0), y)),
                                 Then(Step(Push(y), s), Bin(Sub, Stk(0), Imm(4))))
  {
    var t := Adjust(s, -4);
    assert t.Some? && |t.value.stack| == |s.stack| + 1;
    assert forall v: Option<Word> :: t.value.stack[0 := v] == [v] + s.stack;
  }

  lemma PushThenPop(x: Operand, y: Operand, s: State)
    requires Valid(s) && !(x.Stk? && y.Stk?)
    ensures x == y ==> Outcome(Then(Step(Push(x), s), Pop(y)), Some(s))
    ensures x != y ==> Outcome(Then(Step(Push(x), s), Pop(y)), Step(Bin(Mov, y, x), s))
  {
  }

  lemma SaveMovPopIsXchg(x: Operand, s: State)
    requires Valid(s) && (x.Gpr? || x == Esp)
    ensures Outcome(Then(Then(Step(Push(x), s), Bin(Mov, x, Stk(1))), Pop(Stk(0))), Step(Xchg(Stk(0), x), s))
  {
  }

  lemma PushTopMovAddIsPop(d: Operand, s: State)
    requires Valid(s)
    ensures Outcome(Then(Then(Step(Push(Stk(0)), s), Bin(Mov, d, Stk(0))), Bin(Add, Esp, Imm(8))), Step(Pop(d), s))
  {
  }

  lemma SaveMovRestoreIsXchg(a: Operand, b: Operand, s: State)
    requires Valid(s) && NoEsp(a) && NoEsp(b)
    ensures Outcome(Then(Then(Step(Push(a), s), Bin(Mov, a, b)), Pop(b)), Step(Xchg(a, b), s))
  {
  }

  lemma SaveMovMovRestoreIsMov(a: Operand, b: Operand, c: Operand, s: State)
    requires Valid(s) && NoEsp(a) && NoEsp(b) && NoEsp(c) && (c != a || b == a)
    ensures Outcome(Then(Then(Then(Step(Push(a), s), Bin(Mov, a, b)), Bin(Mov, c, a)), Pop(a)), Step(Bin(Mov, c, b), s))
  {
  }

  lemma NegByXchg(a: Operand, b: Operand, i: Instr, s: State)
    requires Valid(s) && a.Gpr? && b.Gpr? && a != b && i.Xchg? && Partner(i, a) == Some(b)
    ensures Outcome(Then(Then(Then(Then(Step(Push(a), s), Bin(Mov, a, Imm(0))), Bin(Sub, a, b)), i), Pop(a)),
                    Step(Un(Neg, b), s))
  {
    PushedAndReleased(s.esp);
    WordIsWrapped(0);
    SubIsNeg(s.regs[b.r]);
    hide ToWord, Binary, Unary;
  }

  lemma NegByMov(a: Operand, b: Operand, s: State)
    requires Valid(s) && a.Gpr? && b.Gpr? && a != b
    ensures Outcome(Then(Then(Then(Then(Step(Push(a), s), Bin(Mov, a, Imm(0))), Bin(Sub, a, b)), Bin(Mov, b, a)),
                         Pop(a)),
                    Step(Un(Neg, b), s))
  {
    PushedAndReleased(s.esp);
    WordIsWrapped(0);
    SubIsNeg(s.regs[b.r]);
    hide ToWord, Binary, Unary;
  }

  /** The stack pointer is back after a push and a pop. */
  lemma PushedAndReleased(e: Word)
    ensures ToWord(ToWord(e - 4) + 4) == e
  {
    WrapSum(e - 4, 4);
    WordIsWrapped(e);
  }

  lemma SubIsNeg(v: Word)
    ensures Binary(Sub, 0, v) == Unary(Neg, v)
  {
  }

  lemma PushEspAddPopIsMov(y: Operand, s: State)
    requires Valid(s)
    ensures Outcome(Then(Then(Step(Push(Esp), s), Bin(Add, Stk(1), y)), Pop(Stk(0))), Step(Bin(Mov, Stk(0), Esp), s))
  {
  }

  lemma PushEspAddPopIsLea(d: Operand, n: int, s: State)
    requires Valid(s) && (d.Gpr? || d == Esp)
    ensures Outcome(Then(Then(Step(Push(Esp), s), Bin(Add, Stk(0), Imm(n))), Pop(d)), Step(Lea(d, Esp, n), s))
  {
    hide Binary, ToWord, Leq;
    var pushed := State(s.regs, ToWord(s.esp - 4), [Some(s.esp)] + s.stack);
    assert Step(Push(Esp), s) == Some(pushed);
    AmountOfSum(Add, s.esp, n);
    WordIsWrapped(s.esp);
    WrapSum(s.esp - 4, 4);
    var added := pushed.(stack := [Some(ToWord(s.esp + n))] + s.stack);
    assert pushed.stack[0 := added.stack[0]] == added.stack;
    assert Step(Bin(Add, Stk(0), Imm(n)), pushed) == Some(added);
    assert added.stack[1..] == s.stack;
    if d.Gpr? { LeqRefl(s.(regs := s.regs[d.r := ToWord(s.esp + n)])); }
  }

  /** push x; mov x, esp; xchg [esp], x  pushes the stack pointer as it is after the push. */
  lemma SaveEspXchgIsPush(x: Operand, s: State)
    requires Valid(s) && (x.Gpr? || x == Esp)
    ensures Outcome(Then(Then(Step(Push(x), s), Bin(Mov, x, Esp)), Xchg(Stk(0), x)),
                    Then(Step(Push(Esp), s), Bin(Sub, Stk(0), Imm(4))))
  {
  }

  lemma SaveLeaXchgIsPush(x: Operand, s: State)
    requires Valid(s) && (x.Gpr? || x == Esp)
    ensures Outcome(Then(Then(Step(Push(x), s), Lea(x, Esp, 4)), Xchg(Stk(0), x)), Step(Push(Esp), s))
  {
  }

  /** push x; op [esp], y; pop d  is  mov d, x; op d, y. */
  lemma PushBinPopIsMovBin(x: Operand, op: BinOp, y: Operand, d: Operand, s: State)
    requires Valid(s) && y != Esp && !(x.Stk? && d.Stk?) && (y != d || x == d)
    ensures Outcome(Then(Then(Step(Push(x), s), Bin(op, Stk(0), y)), Pop(d)),
                    Then(Step(Bin(Mov, d, x), s), Bin(op, d, y)))
  {
    if d != Esp && !y.Stk? {
      PushStep(x, s);
      MovStep(d, x, s);
      if Read(s, x).Some? && Read(s, y).Some? {
        var v, w := Read(s, x).value, Read(s, y).value;
        OperatePushed(op, y, v, s);
        PopPushed(d, Binary(op, v, w), s);
        WritesAlike(d, v, Binary(op, v, w), s);
        hide Binary, Step, Read, Write, Leq;
        if Write(s, d, v).Some? {
          OperateWritten(d, v, op, y, s);
          LeqRefl(Write(s, d, Binary(op, v, w)).value);
          if y != d { ReadOther(s, d, v, y); } else { WriteTwice(d, v, v, s); }
        }
      }
    } else {
      hide Binary, ToWord;
    }
  }

  function PushedWord(s: State, v: Word): (r: State)
    ensures Valid(s) ==> Valid(r)
  {
    State(s.regs, ToWord(s.esp - 4), [Some(v)] + s.stack)
  }

  lemma PushStep(x: Operand, s: State)
    requires Valid(s)
    ensures Step(Push(x), s) == match Read(s, x) case None => None case Some(v) => Some(PushedWord(s, v))
  {
  }

  lemma MovStep(d: Operand, x: Operand, s: State)
    requires Valid(s) && d != Esp && !(d.Stk? && x.Stk?)
    ensures Step(Bin(Mov, d, x), s) == match Read(s, x) case None => None case Some(v) => Write(s, d, v)
  {
  }

  lemma BinStep(op: BinOp, d: Operand, x: Operand, s: State)
    requires Valid(s) && d != Esp && op != Mov
    ensures Step(Bin(op, d, x), s) ==
            if (d.Stk? && x.Stk?) || Read(s, x).None? || Read(s, d).None? then None
            else Write(s, d, Binary(op, Read(s, d).value, Read(s, x).value))
  {
    hide Binary;
  }

  /** An operation on the word just pushed. */
  lemma OperatePushed(op: BinOp, y: Operand, v: Word, s: State)
    requires Valid(s) && !y.Stk? && y != Esp
    ensures Step(Bin(op, Stk(0), y), PushedWord(s, v)) == Some(PushedWord(s, Binary(op, v, Read(s, y).value)))
  {
    var w := Read(s, y).value;
    assert ([Some(v)] + s.stack)[0 := Some(Binary(op, v, w))] == [Some(Binary(op, v, w))] + s.stack;
    assert op == Mov ==> Binary(op, v, w) == w;
    hide Binary, ToWord;
  }

  lemma PopPushed(d: Operand, v: Word, s: State)
    requires Valid(s)
    ensures Step(Pop(d), PushedWord(s, v)) == Write(s, d, v)
  {
    PushedAndReleased(s.esp);
    assert ([Some(v)] + s.stack)[1..] == s.stack;
  }

  lemma OperateWritten(d: Operand, v: Word, op: BinOp, y: Operand, s: State)
    requires Valid(s) && d != Esp && !y.Stk? && y != Esp && Write(s, d, v).Some?
    ensures var t := Write(s, d, v).value;
            Read(t, y).Some? && Step(Bin(op, d, y), t) == Write(s, d, Binary(op, v, Read(t, y).value))
  {
    var t := Write(s, d, v).value;
    var w := Read(t, y).value;
    WriteTwice(d, v, Binary(op, v, w), s);
    assert op == Mov ==> Binary(op, v, w) == w;
    hide Binary, ToWord, Read, Write;
  }

  lemma PushConstantPopIsMovBin(n: int, op: BinOp, d: Operand, s: State)
    requires Valid(s) && Absorbs(op, n)
    ensures Outcome(Then(Then(Step(Push(Imm(n)), s), Bin(op, Stk(0), d)), Pop(d)),
                    Then(Step(Bin(Mov, d, Imm(n)), s), Bin(op, d, d)))
  {
    PushedAndReleased(s.esp);
    hide Binary, ToWord;
    forall v: Word ensures Binary(op, ToWord(n), v) == ToWord(n) { AbsorbsValue(op, n, v); }
  }

  lemma AbsorbsValue(op: BinOp, n: int, v: Word)
    requires Absorbs(op, n)
    ensures Binary(op, ToWord(n), v) == ToWord(n)
  {
    hide And, Or;
    Pow32();
    AndOrOnes(v, 32);
    assert And(0, v) == 0 by { AndZero(v); }
  }

  lemma NoEffectValue(op: BinOp, n: int, v: Word)
    requires NoEffect(op, n)
    ensures Binary(op, v, ToWord(n)) == v
  {
    hide And, Or, Xor;
    Pow32();
    AndOrOnes(v, 32);
    OrZero(v);
    XorZero(v);
    WordIsWrapped(v);
  }

  lemma PushXchgPopIsMovXchg(x: Operand, y: Operand, d: Operand, s: State)
    requires Valid(s) && y != d && !(x.Stk? && d.Stk?)
    ensures Outcome(Then(Then(Step(Push(x), s), Xchg(Stk(0), y)), Pop(d)), Then(Step(Bin(Mov, d, x), s), Xchg(d, y)))
  {
    PushedAndReleased(s.esp);
    hide ToWord, Binary;
    if x.Gpr? {
      RegisterXchgPop(x, y, d, s);
    }
  }

  lemma RegisterXchgPop(x: Operand, y: Operand, d: Operand, s: State)
    requires Valid(s) && y != d && x.Gpr?
    ensures Outcome(Then(Then(Step(Push(x), s), Xchg(Stk(0), y)), Pop(d)), Then(Step(Bin(Mov, d, x), s), Xchg(d, y)))
  {
    PushedAndReleased(s.esp);
    hide ToWord, Binary;
  }

  /** push x; i; pop x,  where i works on the pushed word, is i on x itself. */
  lemma SaveBinRestore(x: Operand, op: BinOp, y: Operand, s: State)
    requires Valid(s) && y != Esp
    ensures Outcome(Then(Then(Step(Push(x), s), Bin(op, Stk(0), y)), Pop(x)), Step(Bin(op, x, y), s))
  {
    hide Binary;
  }

  lemma SaveBinFromRestore(x: Operand, op: BinOp, d: Operand, s: State)
    requires Valid(s) && d != Stk(0) && (d != x || op in {Mov, AndOp, OrOp})
    ensures Outcome(Then(Then(Step(Push(x), s), Bin(op, d, Stk(0))), Pop(x)), Step(Bin(op, d, x), s))
  {
    PushedAndReleased(s.esp);
    hide ToWord;
    if d == x {
      if d.Gpr? { SavedOperandKept(op, s.regs[x.r]); }
      hide Binary;
      assert d.Gpr? && op in {AndOp, OrOp} ==> s.regs[d.r := s.regs[d.r]] == s.regs;
    } else {
      hide Binary;
    }
  }

  lemma SavedOperandKept(op: BinOp, v: Word)
    requires op in {Mov, AndOp, OrOp}
    ensures Binary(op, v, v) == v
  {
    hide And, Or;
    AndSelf(v);
    OrSelf(v);
  }

  lemma SaveXchgRestore(x: Operand, y: Operand, s: State)
    requires Valid(s)
    ensures Outcome(Then(Then(Step(Push(x), s), Xchg(Stk(0), y)), Pop(x)), Step(Xchg(x, y), s))
  {
    PushedAndReleased(s.esp);
    hide ToWord;
  }

  lemma SaveXchgFromRestore(x: Operand, a: Operand, s: State)
    requires Valid(s) && a != Stk(0)
    ensures Outcome(Then(Then(Step(Push(x), s), Xchg(a, Stk(0))), Pop(x)), Step(Xchg(a, x), s))
  {
    PushedAndReleased(s.esp);
    hide ToWord;
  }

  lemma SaveUnaryRestore(x: Operand, op: UnOp, s: State)
    requires Valid(s)
    ensures Outcome(Then(Then(Step(Push(x), s), Un(op, Stk(0))), Pop(x)), Step(Un(op, x), s))
  {
    hide Unary;
  }

  lemma SavePushRestore(x: Operand, s: State)
    requires Valid(s) && (x.Stk? ==> x == Stk(0))
    ensures Outcome(Then(Then(Step(Push(x), s), Push(Stk(0))), Pop(x)), Step(Push(x), s))
  {
  }

  lemma SavePopRestore(s: State)
    requires Valid(s)
    ensures Outcome(Then(Then(Step(Push(Stk(0)), s), Pop(Stk(0))), Pop(Stk(0))), Step(Pop(Stk(0)), s))
  {
    PushedAndReleased(s.esp);
    hide ToWord;
  }

  lemma PushZeroSubPopIsNeg(x: Operand, s: State)
    requires Valid(s)
    ensures Outcome(Then(Then(Step(Push(Imm(0)), s), Bin(Sub, Stk(0), x)), Pop(x)), Step(Un(Neg, x), s))
  {
  }

  lemma SwapBin(x: Operand, op: BinOp, y: Operand, s: State)
    requires Valid(s) && NoEsp(y) && x != Stk(0)
    ensures Outcome(Then(Step(Push(x), s), Bin(op, Stk(1), y)), Then(Step(Bin(op, Stk(0), y), s), Push(x)))
  {
    hide Binary;
  }

  lemma SwapIdle(x: Operand, op: BinOp, n: int, s: State)
    requires Valid(s) && NoEffect(op, n)
    ensures Outcome(Then(Step(Push(x), s), Bin(op, Stk(1), Imm(n))), Then(Step(Bin(op, Stk(0), Imm(n)), s), Push(x)))
  {
    assert op != Mov;
    hide Binary, NoEffect;
    forall v: Word ensures Binary(op, v, ToWord(n)) == v { NoEffectValue(op, n, v); }
    var p := Step(Push(x), s);
    if p.Some? && |p.value.stack| > 1 && p.value.stack[1].Some? {
      assert p.value.stack[1 := p.value.stack[1]] == p.value.stack;
      assert s.stack[0 := s.stack[0]] == s.stack;
    }
  }

  lemma SwapXchg(x: Operand, y: Operand, s: State)
    requires Valid(s) && NoEsp(y) && x != Stk(0) && x != y
    ensures Outcome(Then(Step(Push(x), s), Xchg(Stk(1), y)), Then(Step(Xchg(Stk(0), y), s), Push(x)))
  {
  }

  // ------------------------------------------------------------------ arithmetic rules

  /** ToWord is a ring homomorphism as far as the rules need it. */
  lemma WrapSum(m: int, n: int)
    ensures ToWord(ToWord(m) + n) == ToWord(m + n) && ToWord(ToWord(m) - n) == ToWord(m - n)
    ensures ToWord(n + ToWord(m)) == ToWord(n + m) && ToWord(n - ToWord(m)) == ToWord(n - m)
  {
    var q := m / WORD_LIMIT;
    assert m == WORD_LIMIT * q + ToWord(m);
    WrapMultiple(ToWord(m) + n, q);
    WrapMultiple(ToWord(m) - n, q);
    WrapMultiple(n - ToWord(m), -q);
  }

  lemma WrapMultiple(x: int, q: int)
    ensures ToWord(x + WORD_LIMIT * q) == ToWord(x)
  {
  }

  lemma WordIsWrapped(v: Word)
    ensures ToWord(v) == v
  {
  }

  /** add and sub of any operand, as a signed amount. */
  function Amount(op: BinOp, w: Word): int
    requires op == Add || op == Sub
  {
    if op == Add then w else -(w as int)
  }

  lemma BinaryAmount(op: BinOp, v: Word, w: Word)
    requires op == Add || op == Sub
    ensures Binary(op, v, w) == ToWord(v + Amount(op, w))
  {
  }

  function Opposite(op: BinOp): BinOp
    requires op == Add || op == Sub
  {
    if op == Add then Sub else Add
  }

  lemma AmountsCancel(v: Word, op: BinOp, w: Word, mid: BinOp, x: Word)
    requires (op == Add || op == Sub) && (mid == Add || mid == Sub)
    ensures Binary(Opposite(op), Binary(mid, Binary(op, v, w), x), w) == Binary(mid, v, x)
  {
    hide Binary, ToWord;
    var a, b := Amount(op, w), Amount(mid, x);
    var z: int := v;
    var first, second := Binary(op, v, w), Binary(mid, Binary(op, v, w), x);
    BinaryAmount(op, v, w);
    BinaryAmount(mid, first, x);
    BinaryAmount(Opposite(op), second, w);
    BinaryAmount(mid, v, x);
    WrapSum(z + a, b);
    WrapSum(z + a + b, -a);
  }

  lemma AddZeroIsNop(op: BinOp, d: Operand, s: State)
    requires Valid(s) && (op == Add || op == Sub)
    ensures Outcome(Step(Bin(op, d, Imm(0)), s), Some(s))
  {
    if d != Esp {
      var v := Read(s, d);
      if v.Some? { WordIsWrapped(v.value); }
    } else {
      WordIsWrapped(s.esp);
    }
  }

  /** Moving the stack pointer twice is moving it once, where both moves are possible. */
  lemma AdjustTwice(s: State, m: int, n: int)
    requires Valid(s) && Adjust(s, m).Some?
    ensures Outcome(Adjust(Adjust(s, m).value, n), Adjust(s, m + n))
  {
    WrapSum(s.esp + m, n);
    AdjustShape(s, m);
    var t := Adjust(s, m).value;
    AdjustShape(t, n);
    AdjustShape(s, m + n);
    hide ToWord, Adjust, Moved;
    if Adjust(t, n).Some? {
      FoldedQuotient(m, n);
      MovedTwice(s.stack, m / 4, n / 4);
    }
  }

  /** The stack after moving esp up by q words, or down. */
  function Moved(st: seq<Option<Word>>, q: int): seq<Option<Word>>
    requires q <= |st|
  {
    if q >= 0 then st[q..] else seq(-q, _ => None) + st
  }

  lemma AdjustShape(s: State, m: int)
    requires Valid(s)
    ensures Adjust(s, m).Some? <==> m % 4 == 0 && m / 4 <= |s.stack|
    ensures Adjust(s, m).Some? ==>
              Adjust(s, m).value == s.(esp := ToWord(s.esp + m), stack := Moved(s.stack, m / 4))
  {
    if m % 4 == 0 && m < 0 { assert (-m) / 4 == -(m / 4); }
  }

  lemma MovedTwice(st: seq<Option<Word>>, p: int, q: int)
    requires p <= |st| && q <= |Moved(st, p)|
    ensures p + q <= |st|
    ensures var t, u := Moved(Moved(st, p), q), Moved(st, p + q);
            |t| == |u| && forall k :: 0 <= k < |t| && t[k].Some? ==> t[k] == u[k]
  {
  }

  lemma FoldedQuotient(m: int, n: int)
    requires m % 4 == 0 && n % 4 == 0
    ensures (m + n) % 4 == 0 && (m + n) / 4 == m / 4 + n / 4
  {
  }

  /** What add, sub and lea do to the stack pointer. */
  lemma EspMove(op: BinOp, n: int, s: State)
    requires Valid(s) && (op == Add || op == Sub)
    ensures Step(Bin(op, Esp, Imm(n)), s) == Adjust(s, if op == Add then n else -n)
  {
  }

  lemma CancelAround(a: Operand, op: BinOp, b: Operand, mid: BinOp, c: Operand, s: State)
    requires Valid(s) && (op == Add || op == Sub) && (mid == Add || mid == Sub) && b != a && c != a
    ensures Outcome(Then(Then(Step(Bin(op, a, b), s), Bin(mid, a, c)), Bin(Opposite(op), a, b)),
                    Step(Bin(mid, a, c), s))
  {
    if a == Esp {
      hide Adjust, Leq;
      if b.Imm? && c.Imm? { CancelAroundEsp(op, b.n, mid, c.n, s); }
    } else {
      hide Step, Outcome;
      CancelAroundValue(a, op, b, mid, c, s);
    }
  }

  lemma CancelAroundValue(a: Operand, op: BinOp, b: Operand, mid: BinOp, c: Operand, s: State)
    requires Valid(s) && (op == Add || op == Sub) && (mid == Add || mid == Sub) && b != a && c != a && a != Esp
    ensures Outcome(Then(Then(Step(Bin(op, a, b), s), Bin(mid, a, c)), Bin(Opposite(op), a, b)),
                    Step(Bin(mid, a, c), s))
  {
    hide Binary, Step, Read, Write, Leq;
    BinStep(op, a, b, s);
    BinStep(mid, a, c, s);
    var v, w, x := Read(s, a), Read(s, b), Read(s, c);
    if v.Some? && w.Some? && Write(s, a, Binary(op, v.value, w.value)).Some? {
      var v1 := Binary(op, v.value, w.value);
      ReadOther(s, a, v1, c);
      BinStep(mid, a, c, Write(s, a, v1).value);
      WriteTwice(a, v1, v1, s);
      if x.Some? {
        var v2, last := Binary(mid, v1, x.value), Binary(mid, v.value, x.value);
        AmountsCancel(v.value, op, w.value, mid, x.value);
        WriteTwice(a, v1, v2, s);
        if Write(s, a, v2).Some? {
          WriteTwice(a, v2, last, s);
          ReadOther(s, a, v2, b);
          BinStep(Opposite(op), a, b, Write(s, a, v2).value);
          if Write(s, a, last).Some? { LeqRefl(Write(s, a, last).value); }
        }
      }
    }
  }

  lemma ReadOther(s: State, d: Operand, v: Word, o: Operand)
    requires Valid(s) && Write(s, d, v).Some? && o != d
    ensures Read(Write(s, d, v).value, o) == Read(s, o)
  {
  }

  lemma CancelAroundEsp(op: BinOp, b: int, mid: BinOp, c: int, s: State)
    requires Valid(s) && (op == Add || op == Sub) && (mid == Add || mid == Sub)
    ensures Outcome(Then(Then(Step(Bin(op, Esp, Imm(b)), s), Bin(mid, Esp, Imm(c))), Bin(Opposite(op), Esp, Imm(b))),
                    Step(Bin(mid, Esp, Imm(c)), s))
  {
    hide Step, Adjust, Leq;
    var m, n := if op == Add then b else -b, if mid == Add then c else -c;
    EspMove(op, b, s);
    EspMove(mid, c, s);
    if Adjust(s, m).Some? {
      var t := Adjust(s, m).value;
      EspMove(mid, c, t);
      if Adjust(t, n).Some? {
        EspMove(Opposite(op), b, Adjust(t, n).value);
        CancelAdjust(s, m, n);
      }
    }
  }

  /** add a, a; sub a, a; sub a, a  and the like: the last subtraction leaves zero. */
  lemma CancelSelf(a: Operand, op: BinOp, s: State)
    requires Valid(s) && (op == Add || op == Sub)
    ensures Outcome(Then(Then(Step(Bin(op, a, a), s), Bin(Sub, a, a)), Bin(Opposite(op), a, a)),
                    Step(Bin(Sub, a, a), s))
  {
  }

  /** A zero amount is no amount. */
  lemma CancelZero(a: Operand, op: BinOp, n: int, mid: BinOp, c: Operand, s: State)
    requires Valid(s) && (op == Add || op == Sub) && (mid == Add || mid == Sub) && ToWord(n) == 0
    ensures Outcome(Then(Then(Step(Bin(op, a, Imm(n)), s), Bin(mid, a, c)), Bin(Opposite(op), a, Imm(n))),
                    Step(Bin(mid, a, c), s))
  {
    if c != a && !a.Imm? {
      CancelAround(a, op, Imm(n), mid, c, s);
    } else if a.Gpr? || a.Stk? {
      ZeroAmount(op, n);
      ZeroAmount(Opposite(op), n);
    }
  }

  lemma ZeroAmount(op: BinOp, n: int)
    requires (op == Add || op == Sub) && ToWord(n) == 0
    ensures forall v: Word :: Binary(op, v, ToWord(n)) == v
  {
  }

  lemma CancelAdjust(s: State, m: int, n: int)
    requires Valid(s) && Adjust(s, m).Some? && Adjust(Adjust(s, m).value, n).Some?
    ensures Outcome(Adjust(Adjust(Adjust(s, m).value, n).value, -m), Adjust(s, n))
  {
    var u := Adjust(Adjust(s, m).value, n).value;
    AdjustTwice(s, m, n);
    if Adjust(u, -m).Some? {
      var t := Adjust(s, m + n).value;
      AdjustMonotone(u, t, -m);
      AdjustTwice(s, m + n, -m);
      LeqTransitive(Adjust(u, -m).value, Adjust(t, -m).value, Adjust(s, n).value);
    }
  }

  lemma FoldUnaryValue(op: UnOp, n: int)
    requires op != ByteSwap
    ensures ToWord(FoldUnary(op, n)) == Unary(op, ToWord(n))
  {
    WrapSum(n, 1);
    WrapSum(n, -1);
    WrapSum(n, 0);
    var q := n / WORD_LIMIT;
    assert n == WORD_LIMIT * q + ToWord(n);
    var w: int := ToWord(n);
    WrapMultiple(-w - 1, -q);
    assert -n - 1 == -w - 1 + WORD_LIMIT * (-q);
    assert -w - 1 == NotWord(ToWord(n)) + WORD_LIMIT * (-1);
    WrapMultiple(NotWord(ToWord(n)), -1);
    WordIsWrapped(NotWord(ToWord(n)));
  }

  lemma FoldBinaryValue(op: BinOp, n: int, m: int)
    ensures ToWord(FoldBinary(op, n, m)) == Binary(op, ToWord(n), ToWord(m))
  {
    hide AndWord, OrWord, XorWord;
    WrapSum(n, ToWord(m));
    WrapSum(m, n);
    WordIsWrapped(AndWord(ToWord(n), ToWord(m)));
    WordIsWrapped(OrWord(ToWord(n), ToWord(m)));
    WordIsWrapped(XorWord(ToWord(n), ToWord(m)));
  }

  lemma MovThenBin(op: BinOp, a: Operand, n: int, m: int, s: State)
    requires Valid(s) && op != Mov
    ensures Outcome(Then(Step(Bin(Mov, a, Imm(n)), s), Bin(op, a, Imm(m))),
                    Step(Bin(Mov, a, Imm(FoldBinary(op, n, m))), s))
  {
    hide Binary, FoldBinary;
    FoldBinaryValue(op, n, m);
  }

  lemma MovThenUnary(op: UnOp, a: Operand, n: int, s: State)
    requires Valid(s) && op != ByteSwap
    ensures Outcome(Then(Step(Bin(Mov, a, Imm(n)), s), Un(op, a)), Step(Bin(Mov, a, Imm(FoldUnary(op, n))), s))
  {
    hide Unary, FoldUnary;
    FoldUnaryValue(op, n);
  }

  lemma MovThenReleaseIsPop(a: Operand, s: State)
    requires Valid(s)
    ensures Outcome(Then(Step(Bin(Mov, a, Stk(0)), s), Bin(Add, Esp, Imm(4))), Step(Pop(a), s))
  {
  }

  lemma MovZeroThenAdd(a: Operand, y: Operand, s: State)
    requires Valid(s) && y != a
    ensures Outcome(Then(Step(Bin(Mov, a, Imm(0)), s), Bin(Add, a, y)), Step(Bin(Mov, a, y), s))
  {
    var w := Read(s, y);
    if w.Some? { WordIsWrapped(w.value); }
  }

  lemma MovThenMov(a: Operand, x: Operand, y: Operand, s: State)
    requires Valid(s) && (y != a || x == a)
    ensures Outcome(Then(Step(Bin(Mov, a, x), s), Bin(Mov, a, y)), Step(Bin(Mov, a, y), s))
  {
  }

  /** Undoing a loaded constant after one addition or subtraction: the constant may as well be 0. */
  lemma ConstantCancels(mid: BinOp, n: int, last: BinOp, m: int, x: Word)
    requires (mid == Add || mid == Sub) && ((last == Sub && m == n) || (last == Add && ToWord(n + m) == 0))
    ensures Binary(last, Binary(mid, ToWord(n), x), ToWord(m)) == Binary(mid, 0, x)
  {
    hide Binary, ToWord;
    var b := Amount(mid, x);
    var c := if last == Add then m else -m;
    BinaryAmount(mid, ToWord(n), x);
    BinaryAmount(mid, 0, x);
    WrapSum(n, b);
    AmountOfSum(last, n + b, m);
    WrapSum(n + c, b);
    WordIsWrapped(0);
    assert ToWord(n + c) == 0;
  }

  /** An instruction that neither reads, writes nor moves operand a does not notice its value. */
  lemma MiddleIsIndependent(a: Operand, v: Word, mid: BinOp, c: Operand, d: Operand, s: State)
    requires Valid(s) && (a.Gpr? || (a.Stk? && c != Esp)) && c != a && d != a && mid != Mov
    requires Write(s, a, v).Some?
    ensures Step(Bin(mid, c, d), Write(s, a, v).value) ==
            (match Step(Bin(mid, c, d), s) case None => None case Some(t) => Write(t, a, v))
    ensures Step(Bin(mid, c, d), s).Some? ==> Write(Step(Bin(mid, c, d), s).value, a, v).Some?
  {
    if c == Esp {
      hide ToWord;
    } else {
      var t := Write(s, a, v).value;
      BinStep(mid, c, d, s);
      BinStep(mid, c, d, t);
      ReadOther(s, a, v, c);
      ReadOther(s, a, v, d);
      hide Binary, Step, Read, Write;
      var x, w := Read(s, d), Read(s, c);
      if x.Some? && w.Some? { WritesCommute(a, v, c, Binary(mid, w.value, x.value), s); }
    }
  }

  lemma WritesCommute(a: Operand, v: Word, c: Operand, y: Word, s: State)
    requires Valid(s) && Write(s, a, v).Some? && a != c
    ensures Write(s, c, y).Some? <==> Write(Write(s, a, v).value, c, y).Some?
    ensures Write(s, c, y).Some? ==>
              Write(Write(s, c, y).value, a, v).Some? &&
              Write(Write(s, a, v).value, c, y) == Write(Write(s, c, y).value, a, v)
  {
    if c.Gpr? && a.Gpr? {
      assert s.regs[a.r := v][c.r := y] == s.regs[c.r := y][a.r := v];
    } else if c.Stk? && a.Stk? && c.k < |s.stack| {
      assert s.stack[a.k := Some(v)][c.k := Some(y)] == s.stack[c.k := Some(y)][a.k := Some(v)];
    }
  }

  lemma CancelConstant(a: Operand, n: int, mid: BinOp, c: Operand, d: Operand, last: BinOp, m: int, s: State)
    requires Valid(s) && (a.Gpr? || c != Esp) && d != a && (mid == Add || mid == Sub)
    requires (last == Sub && m == n) || (last == Add && ToWord(n + m) == 0)
    ensures Outcome(Then(Then(Step(Bin(Mov, a, Imm(n)), s), Bin(mid, c, d)), Bin(last, a, Imm(m))),
                    Then(Step(Bin(Mov, a, Imm(0)), s), Bin(mid, c, d)))
  {
    hide Binary, Adjust;
    if c == a {
      hide Step, Outcome;
      CancelLoaded(a, n, mid, d, last, m, s);
    } else if Write(s, a, ToWord(n)).Some? {
      WritesAlike(a, ToWord(n), 0, s);
      ZeroLeft(n, last, m);
      WordIsWrapped(0);
      MiddleIsIndependent(a, ToWord(n), mid, c, d, s);
      MiddleIsIndependent(a, 0, mid, c, d, s);
      LoadStep(a, n, s);
      LoadStep(a, 0, s);
      hide Step, Read, Write, Leq, ToWord;
      var t := Step(Bin(mid, c, d), s);
      if t.Some? {
        WriteTwice(a, ToWord(n), 0, t.value);
        TakeStep(a, ToWord(n), last, m, t.value);
        LeqRefl(Write(t.value, a, 0).value);
      }
    }
  }

  /** The cases in which a moved stack pointer does no harm: nothing is taken off, the stack pointer
      stays, or the word meant after the move has no value. */
  lemma CancelOnStack(k: nat, n: int, i: Instr, last: BinOp, m: int, s: State)
    requires Valid(s) && AddOrSub(i) && i.d == Esp && (ToWord(n) == 0 || SameWordOrNone(k, i))
    requires (last == Sub && m == n) || (last == Add && ToWord(n + m) == 0)
    ensures Outcome(Then(Then(Step(Bin(Mov, Stk(k), Imm(n)), s), i), Bin(last, Stk(k), Imm(m))),
                    Then(Step(Bin(Mov, Stk(k), Imm(0)), s), i))
  {
    hide Step, Adjust, Write, Read, Leq;
    StoreStep(k, n, s);
    StoreStep(k, 0, s);
    WordIsWrapped(0);
    var stored := Write(s, Stk(k), ToWord(n));
    if stored.Some? {
      MoveStep(i, stored.value);
      var moved := Step(i, stored.value);
      if moved.Some? {
        if ToWord(n) == 0 {
          CancelNothing(k, n, last, m, moved.value);
        } else if Signed(i) == 0 {
          AdjustByZero(stored.value);
          CancelStored(k, n, last, m, s);
          MoveStep(i, Write(s, Stk(k), 0).value);
          AdjustByZero(Write(s, Stk(k), 0).value);
          LeqRefl(Write(s, Stk(k), 0).value);
        } else {
          UncoveredWord(stored.value, Signed(i), k);
          OperateStep(k, last, m, moved.value);
        }
      }
    }
  }

  lemma NowhereToMove(a: Operand, b: Operand, s: State)
    requires Valid(s) && (a == Esp || a.Imm?)
    ensures Step(Bin(Mov, a, b), s).None?
  {
  }

  lemma StoreStep(k: nat, n: int, s: State)
    requires Valid(s)
    ensures Step(Bin(Mov, Stk(k), Imm(n)), s) == Write(s, Stk(k), ToWord(n))
  {
  }

  lemma OperateStep(k: nat, op: BinOp, m: int, s: State)
    requires Valid(s) && op != Mov
    ensures Read(s, Stk(k)).None? ==> Step(Bin(op, Stk(k), Imm(m)), s).None?
    ensures Read(s, Stk(k)).Some? ==>
              Step(Bin(op, Stk(k), Imm(m)), s) == Write(s, Stk(k), Binary(op, Read(s, Stk(k)).value, ToWord(m)))
  {
    hide Binary;
  }

  lemma MoveStep(i: Instr, s: State)
    requires Valid(s) && AddOrSub(i) && i.d == Esp
    ensures Step(i, s).Some? ==> i.s.Imm?
    ensures i.s.Imm? ==> Step(i, s) == Adjust(s, Signed(i))
  {
    if i.s.Imm? { EspMove(i.bop, i.s.n, s); }
  }

  /** Moving the stack pointer down uncovers words without a value. */
  lemma UncoveredWord(s: State, a: int, k: nat)
    requires Valid(s) && a < 0 && -a > 4 * k && Adjust(s, a).Some?
    ensures Read(Adjust(s, a).value, Stk(k)).None?
  {
  }

  lemma CancelNothing(k: nat, n: int, last: BinOp, m: int, t: State)
    requires Valid(t) && ToWord(n) == 0
    requires (last == Sub && m == n) || (last == Add && ToWord(n + m) == 0)
    ensures Outcome(Step(Bin(last, Stk(k), Imm(m)), t), Some(t))
  {
    WrapSum(n, m);
    assert NoEffect(last, m);
    var v := Read(t, Stk(k));
    if v.Some? {
      NoEffectValue(last, m, v.value);
      WriteBack(Stk(k), t);
    }
  }

  lemma CancelStored(k: nat, n: int, last: BinOp, m: int, s: State)
    requires Valid(s) && Write(s, Stk(k), ToWord(n)).Some?
    requires (last == Sub && m == n) || (last == Add && ToWord(n + m) == 0)
    ensures Step(Bin(last, Stk(k), Imm(m)), Write(s, Stk(k), ToWord(n)).value) == Write(s, Stk(k), 0)
    ensures Write(s, Stk(k), 0).Some?
  {
    hide Binary;
    ZeroLeft(n, last, m);
    WriteTwice(Stk(k), ToWord(n), 0, s);
  }

  lemma CancelLoaded(a: Operand, n: int, mid: BinOp, d: Operand, last: BinOp, m: int, s: State)
    requires Valid(s) && a != Esp && d != a && (mid == Add || mid == Sub)
    requires (last == Sub && m == n) || (last == Add && ToWord(n + m) == 0)
    ensures Outcome(Then(Then(Step(Bin(Mov, a, Imm(n)), s), Bin(mid, a, d)), Bin(last, a, Imm(m))),
                    Then(Step(Bin(Mov, a, Imm(0)), s), Bin(mid, a, d)))
  {
    WordIsWrapped(0);
    if Write(s, a, ToWord(n)).Some? {
      WritesAlike(a, ToWord(n), 0, s);
      LoadStep(a, n, s);
      LoadStep(a, 0, s);
      OperateLoaded(a, ToWord(n), mid, d, s);
      OperateLoaded(a, 0, mid, d, s);
      hide Binary, Step, Read, Write, Leq, ToWord;
      var x := Read(s, d);
      if x.Some? && !(a.Stk? && d.Stk?) {
        var v, w := Binary(mid, ToWord(n), x.value), Binary(mid, 0, x.value);
        ConstantCancels(mid, n, last, m, x.value);
        WritesAlike(a, ToWord(n), v, s);
        WritesAlike(a, ToWord(n), w, s);
        TakeStep(a, v, last, m, s);
        WriteTwice(a, v, w, s);
        LeqRefl(Write(s, a, w).value);
      }
    }
  }

  /** An operation on a loaded operand overwrites it. */
  lemma OperateLoaded(a: Operand, v: Word, op: BinOp, d: Operand, s: State)
    requires Valid(s) && Write(s, a, v).Some? && d != a && (op == Add || op == Sub)
    ensures Step(Bin(op, a, d), Write(s, a, v).value) ==
            if a.Stk? && d.Stk? then None else
              match Read(s, d) case None => None case Some(x) => Write(s, a, Binary(op, v, x))
  {
    hide Binary;
    WriteTwice(a, v, v, s);
    ReadOther(s, a, v, d);
    var x := Read(s, d);
    if x.Some? { WriteTwice(a, v, Binary(op, v, x.value), s); }
  }

  lemma LoadStep(a: Operand, n: int, s: State)
    requires Valid(s) && Write(s, a, ToWord(n)).Some?
    ensures Step(Bin(Mov, a, Imm(n)), s) == Write(s, a, ToWord(n))
  {
  }

  lemma TakeStep(a: Operand, v: Word, op: BinOp, m: int, s: State)
    requires Valid(s) && Write(s, a, v).Some? && (op == Add || op == Sub)
    ensures Step(Bin(op, a, Imm(m)), Write(s, a, v).value) == Write(Write(s, a, v).value, a, Binary(op, v, ToWord(m)))
  {
    WriteTwice(a, v, Binary(op, v, ToWord(m)), s);
    hide Binary, ToWord;
  }

  lemma WritesAlike(a: Operand, v: Word, w: Word, s: State)
    requires Valid(s)
    ensures Write(s, a, v).Some? <==> Write(s, a, w).Some?
  {
  }

  lemma ZeroLeft(n: int, last: BinOp, m: int)
    requires (last == Sub && m == n) || (last == Add && ToWord(n + m) == 0)
    ensures Binary(last, ToWord(n), ToWord(m)) == 0
  {
    ConstantCancels(Add, n, last, m, 0);
    WordIsWrapped(ToWord(n));
  }

  lemma XorTwice(a: Operand, b: Operand, s: State)
    requires Valid(s) && a != b
    ensures Outcome(Then(Step(Bin(XorOp, a, b), s), Bin(XorOp, a, b)), Some(s))
  {
    hide Xor;
    var v, w := Read(s, a), Read(s, b);
    if v.Some? && w.Some? { XorCancel(v.value, w.value); }
  }

  /** The three exclusive ors of the swap, on values. */
  lemma XorSwapValues(v: Word, w: Word)
    ensures XorWord(w, XorWord(v, w)) == v
    ensures XorWord(XorWord(v, w), v) == w
  {
    hide Xor;
    XorCancel(v, w);
    XorCancel(w, v);
    XorComm(v, w);
  }

  lemma XorThrice(a: Operand, b: Operand, s: State)
    requires Valid(s) && a != b
    ensures Outcome(Then(Then(Step(Bin(XorOp, a, b), s), Bin(XorOp, b, a)), Bin(XorOp, a, b)), Step(Xchg(a, b), s))
  {
    hide XorWord;
    var v, w := Read(s, a), Read(s, b);
    if v.Some? && w.Some? { XorSwapValues(v.value, w.value); }
  }

  lemma LeaThenLea(d: Operand, base: Operand, m: int, base': Operand, n: int, s: State)
    requires Valid(s)
    requires base' != d || (base == d && (m == 0 || (d.Gpr? && ToWord(m) == 0)))
    ensures Outcome(Then(Step(Lea(d, base, m), s), Lea(d, base', n)), Step(Lea(d, base', n), s))
  {
    hide Adjust;
    if base' == d {
      hide ToWord;
      if d.Gpr? {
        WrapSum(m, s.regs[d.r]);
        WordIsWrapped(s.regs[d.r]);
        WriteBack(d, s);
      } else if d == Esp {
        AdjustByZero(s);
      }
    }
  }

  lemma LeaThenAmount(d: Operand, base: Operand, disp: int, op: BinOp, n: int, s: State)
    requires Valid(s) && (op == Add || op == Sub)
    ensures Outcome(Then(Step(Lea(d, base, disp), s), Bin(op, d, Imm(n))),
                    Step(Lea(d, base, disp + (if op == Add then n else -n)), s))
  {
    var delta := if op == Add then n else -n;
    if d == Esp {
      EspLea(base, disp, s);
      EspLea(base, disp + delta, s);
      hide Adjust, Leq, Step;
      if base == Esp && Adjust(s, disp).Some? {
        EspMove(op, n, Adjust(s, disp).value);
        AdjustTwice(s, disp, delta);
      }
    } else if d.Gpr? && (base.Gpr? || base == Esp) {
      hide Binary, ToWord, Leq, Step;
      var v: int := if base.Gpr? then s.regs[base.r] else s.esp;
      AmountOfSum(op, v + disp, n);
      AmountOnRegister(d, ToWord(v + disp), op, n, s);
      LeqRefl(s.(regs := s.regs[d.r := ToWord(v + disp + delta)]));
      LeaStep(d, base, v, disp, s);
      LeaStep(d, base, v, disp + delta, s);
    }
  }

  lemma EspLea(base: Operand, disp: int, s: State)
    requires Valid(s)
    ensures Step(Lea(Esp, base, disp), s) == if base == Esp then Adjust(s, disp) else None
  {
  }

  lemma AmountOnRegister(d: Operand, v: Word, op: BinOp, n: int, s: State)
    requires Valid(s) && d.Gpr? && (op == Add || op == Sub)
    ensures Step(Bin(op, d, Imm(n)), s.(regs := s.regs[d.r := v])) ==
            Some(s.(regs := s.regs[d.r := Binary(op, v, ToWord(n))]))
  {
    hide Binary, ToWord;
    assert s.regs[d.r := v][d.r := Binary(op, v, ToWord(n))] == s.regs[d.r := Binary(op, v, ToWord(n))];
  }

  lemma LeaStep(d: Operand, base: Operand, v: int, disp: int, s: State)
    requires Valid(s) && d.Gpr? && (base.Gpr? || base == Esp) && Read(s, base).Some? && v == Read(s, base).value
    ensures Step(Lea(d, base, disp), s) == Some(s.(regs := s.regs[d.r := ToWord(v + disp)]))
  {
  }

  lemma AmountOfSum(op: BinOp, x: int, n: int)
    requires op == Add || op == Sub
    ensures Binary(op, ToWord(x), ToWord(n)) == ToWord(x + (if op == Add then n else -n))
  {
    WrapSum(x, ToWord(n));
    WrapSum(n, x);
  }

  lemma LeaThenCount(d: Operand, base: Operand, disp: int, s: State)
    requires Valid(s)
    ensures Outcome(Then(Step(Lea(d, base, disp), s), Un(Inc, d)), Step(Lea(d, base, disp + 1), s))
    ensures Outcome(Then(Step(Lea(d, base, disp), s), Un(Dec, d)), Step(Lea(d, base, disp - 1), s))
  {
    hide Adjust;
    var v: Word := if base.Gpr? then s.regs[base.r] else s.esp;
    WrapSum(v + disp, 1);
  }

  lemma LeaEspIsAdjust(disp: int, s: State)
    requires Valid(s)
    ensures disp == 0 ==> Outcome(Step(Lea(Esp, Esp, disp), s), Some(s))
    ensures disp > 0 ==> Outcome(Step(Lea(Esp, Esp, disp), s), Step(Bin(Add, Esp, Imm(disp)), s))
    ensures disp < 0 ==> Outcome(Step(Lea(Esp, Esp, disp), s), Step(Bin(Sub, Esp, Imm(-disp)), s))
  {
    WordIsWrapped(s.esp);
  }

  /** add and sub of a constant, in one form. */
  lemma AmountStep(i: Instr, s: State)
    requires Valid(s) && AddOrSub(i) && i.s.Imm?
    ensures Step(i, s) ==
            if i.d == Esp then Adjust(s, Signed(i))
            else match Read(s, i.d) case None => None case Some(v) => Write(s, i.d, ToWord(v + Signed(i)))
  {
    hide Adjust;
    var v := Read(s, i.d);
    if v.Some? {
      WrapSum(i.s.n, v.value);
    }
  }

  lemma WriteTwice(d: Operand, v: Word, w: Word, s: State)
    requires Valid(s) && Write(s, d, v).Some?
    ensures Read(Write(s, d, v).value, d) == Some(v)
    ensures Write(Write(s, d, v).value, d, w) == Write(s, d, w)
  {
    match d {
      case Gpr(r) => assert s.regs[r := v][r := w] == s.regs[r := w];
      case Stk(k) => assert s.stack[k := Some(v)][k := Some(w)] == s.stack[k := Some(w)];
    }
  }

  lemma WriteBack(d: Operand, s: State)
    requires Valid(s) && Read(s, d).Some? && Write(s, d, Read(s, d).value).Some?
    ensures Write(s, d, Read(s, d).value) == Some(s)
  {
    match d {
      case Gpr(r) => assert s.regs[r := s.regs[r]] == s.regs;
      case Stk(k) => assert s.stack[k := s.stack[k]] == s.stack;
    }
  }

  /** Two moves by a constant are one move by the sum, and none when the sum is zero. */
  lemma AmountsMerge(i: Instr, j: Instr, m: Option<Instr>, s: State)
    requires Valid(s) && AddOrSub(i) && AddOrSub(j) && i.d == j.d && i.s.Imm? && j.s.Imm?
    requires m.None? ==> Signed(i) + Signed(j) == 0
    requires m.Some? ==>
               && AddOrSub(m.value) && m.value.s.Imm? && m.value.d == i.d
               && Signed(m.value) == Signed(i) + Signed(j)
    ensures Outcome(Then(Step(i, s), j), if m.None? then Some(s) else Step(m.value, s))
  {
    hide Step, Adjust, Read, Write;
    var a, b := Signed(i), Signed(j);
    AmountStep(i, s);
    if m.Some? { AmountStep(m.value, s); }
    if Step(i, s).Some? {
      var t := Step(i, s).value;
      AmountStep(j, t);
      if i.d == Esp {
        AdjustTwice(s, a, b);
        AdjustByZero(s);
      } else {
        var v := Read(s, i.d).value;
        WrapSum(v + a, b);
        WriteTwice(i.d, ToWord(v + a), ToWord(v + a + b), s);
        WordIsWrapped(v);
        if Write(s, i.d, v).Some? { WriteBack(i.d, s); LeqRefl(s); }
        if Step(i, s).Some? && Then(Step(i, s), j).Some? { LeqRefl(Then(Step(i, s), j).value); }
      }
    }
  }

  lemma AdjustByZero(s: State)
    requires Valid(s)
    ensures Adjust(s, 0) == Some(s)
  {
    WordIsWrapped(s.esp);
  }

  lemma OverwrittenTop(i: Instr, y: Operand, s: State)
    requires Valid(s) && i.Bin? && i.d == Stk(0)
    ensures Outcome(Then(Step(i, s), Bin(Mov, Stk(0), y)), Step(Bin(Mov, Stk(0), y), s))
  {
    hide Binary;
  }
}
