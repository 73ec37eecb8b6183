/** The rules of Peephole.dfy as a table, rule by rule: the instructions each one looks for, in the order in
    which the rules take precedence, and the records it leaves.  `Rewrite` applies the first rule of the
    table that matches, and none when none does. */
module PeepholeTable {
  import opened Wrappers
  import opened Machine
  import opened Peephole

  // ------------------------------------------------------------------ the table

  predicate IsReg(o: Operand) { o.Gpr? || o == Esp }

  predicate TwoOperands(i: Instr) { i.Bin? || i.Xchg? }

  /** The operand with which an exchange swaps a, by whichever side a is on. */
  predicate Swaps(i: Instr, a: Operand, b: Operand) { i == Xchg(a, b) || i == Xchg(b, a) }

  /** The instruction whose operand [esp] is replaced by o; the first one counts if both are [esp]. */
  function AtTop(i: Instr, o: Operand): Option<Instr> {
    match i
    case Bin(op, d, s) => if d == Stk(0) then Some(Bin(op, o, s)) else if s == Stk(0) then Some(Bin(op, d, o)) else None
    case Xchg(a, b) => if a == Stk(0) then Some(Xchg(o, b)) else if b == Stk(0) then Some(Xchg(a, o)) else None
    case Un(op, d) => if d == Stk(0) then Some(Un(op, o)) else None
    case Push(y) => if y == Stk(0) then Some(Push(o)) else None
    case Pop(y) => if y == Stk(0) then Some(Pop(o)) else None
    case Lea(_, _, _) => None
  }

  /** A two-operand instruction with its first operand replaced. */
  function Onto(i: Instr, d: Operand): Instr
    requires TwoOperands(i)
  {
    if i.Bin? then Bin(i.bop, d, i.s) else Xchg(d, i.b)
  }

  /** Its second operand does not involve the stack pointer. */
  predicate FreeSource(i: Instr) { TwoOperands(i) && NoEsp(if i.Bin? then i.s else i.b) }

  predicate Matches(w: Window, rule: Rule) {
    match rule
    // bswap a; bswap a    neg a; neg a    not a; not a    xchg a, b; xchg a, b
    case Cancel =>
      || (w[0].Un? && w[0].uop in {ByteSwap, Neg, Not} && w[1] == w[0])
      || (w[0].Xchg? && w[0].a != w[0].b && Swaps(w[1], w[0].a, w[0].b))
    // xchg a, a
    case SelfXchg => w[0].Xchg? && w[0].a == w[0].b
    // xchg a, b; op a; xchg a, b
    case XchgUnaryXchg =>
      && w[0].Xchg? && w[0].a != w[0].b && |w| >= 3 && Swaps(w[2], w[0].a, w[0].b)
      && w[1].Un? && (w[1].d == w[0].a || w[1].d == w[0].b)
    // push x; mov [esp + n], s
    case PushMovTop => w[0].Push? && w[1].Bin? && w[1].bop == Mov && w[1].d.Stk?
    // push r; mov r, esp; xchg [esp], r
    case SaveEspXchg =>
      w[0].Push? && IsReg(w[0].x) && |w| >= 3 && w[1] == Bin(Mov, w[0].x, Esp) && w[2] == Xchg(Stk(0), w[0].x)
    // push r; mov r, [esp + 4]; pop [esp]
    case SaveMovPop =>
      w[0].Push? && IsReg(w[0].x) && |w| >= 3 && w[1] == Bin(Mov, w[0].x, Stk(1)) && w[2] == Pop(Stk(0))
    // push [esp]; mov d, [esp]; add esp, 8
    case PushTopMovAdd =>
      && w[0] == Push(Stk(0)) && |w| >= 3 && w[2] == Bin(Add, Esp, Imm(8))
      && w[1].Bin? && w[1].bop == Mov && w[1].s == Stk(0) && !w[1].d.Stk?
    // push x; mov x, s; pop s
    case SaveMovRestoreXchg =>
      && w[0].Push? && NoEsp(w[0].x) && |w| >= 3
      && w[1].Bin? && w[1].bop == Mov && w[1].d == w[0].x && NoEsp(w[1].s) && w[2] == Pop(w[1].s)
    // push x; mov x, s; mov d, x; pop x
    case SaveMovMovRestore =>
      && w[0].Push? && NoEsp(w[0].x) && |w| >= 4 && w[3] == Pop(w[0].x)
      && w[1].Bin? && w[1].bop == Mov && w[1].d == w[0].x && NoEsp(w[1].s)
      && w[2].Bin? && w[2].bop == Mov && w[2].s == w[0].x && NoEsp(w[2].d)
    // push x; mov x, 0; sub x, y; xchg x, y (or mov y, x); pop x
    case NegBySub =>
      && w[0].Push? && !w[0].x.Stk? && |w| >= 5 && w[1] == Bin(Mov, w[0].x, Imm(0)) && w[4] == Pop(w[0].x)
      && w[2].Bin? && w[2].bop == Sub && w[2].d == w[0].x
      && (Swaps(w[3], w[0].x, w[2].s) || w[3] == Bin(Mov, w[2].s, w[0].x))
    // push x; pop y
    case PushPop => w[0].Push? && w[1].Pop? && !(w[0].x.Stk? && w[1].x.Stk?)
    // push esp; add [esp + 4], s; pop [esp]
    case PushEspAddPop =>
      w[0] == Push(Esp) && |w| >= 3 && w[1].Bin? && w[1].bop == Add && w[1].d == Stk(1) && w[2] == Pop(Stk(0))
    // push esp; add [esp], n; pop r
    case PushEspAddLea =>
      && w[0] == Push(Esp) && |w| >= 3 && w[1].Bin? && w[1].bop == Add && w[1].d == Stk(0) && w[1].s.Imm?
      && w[2].Pop? && IsReg(w[2].x)
    // push x; add [esp], s; pop y
    case PushAddPop =>
      && w[0].Push? && w[0].x != Esp && |w| >= 3 && w[2].Pop?
      && w[1].Bin? && w[1].bop == Add && w[1].d == Stk(0)
    // push r; lea r, [esp + 4]; xchg [esp], r
    case SaveLeaXchg =>
      w[0].Push? && IsReg(w[0].x) && |w| >= 3 && w[1] == Lea(w[0].x, Esp, 4) && w[2] == Xchg(Stk(0), w[0].x)
    // push 0; sub [esp], y; pop y
    case PushZeroSubNeg =>
      && w[0] == Push(Imm(0)) && |w| >= 3 && w[1].Bin? && w[1].bop == Sub && w[1].d == Stk(0)
      && w[2] == Pop(w[1].s)
    // push x; op [esp + 4], s
    case SwapPush => w[0].Push? && First(w[1]) == Some(Stk(1)) && FreeSource(w[1])
    // push x; an instruction on [esp]; pop x
    case SaveOpRestore => w[0].Push? && |w| >= 3 && w[2] == Pop(w[0].x) && AtTop(w[1], w[0].x).Some?
    // push x; op [esp], s; pop y
    case PushOpPop =>
      w[0].Push? && |w| >= 3 && w[2].Pop? && w[2].x != w[0].x && First(w[1]) == Some(Stk(0)) && FreeSource(w[1])
    // add a, 0    sub a, 0
    case AddZero => AddOrSub(w[0]) && w[0].s == Imm(0)
    // add a, b; add (or sub) a, c; sub a, b    sub a, b; add (or sub) a, c; add a, b
    case AddOpSub =>
      && AddOrSub(w[0]) && |w| >= 3 && AddOrSub(w[1]) && w[1].d == w[0].d
      && w[2] == Bin(if w[0].bop == Add then Sub else Add, w[0].d, w[0].s)
    // sub esp, 4; mov [esp + n], s
    case SubMovTop =>
      && w[0].Bin? && w[0].bop == Sub && w[0].d == Esp && w[0].s.Imm? && w[0].s.n % 0x1_0000 == 4
      && w[1].Bin? && w[1].bop == Mov && w[1].d.Stk?
    // mov a, n; op a, m    mov a, n; op a
    case MovFold =>
      && w[0].Bin? && w[0].bop == Mov && w[0].s.Imm? && First(w[1]) == Some(w[0].d)
      && ((w[1].Bin? && w[1].bop != Mov && w[1].s.Imm?) || (w[1].Un? && w[1].uop != ByteSwap))
    // mov a, [esp]; add esp, 4
    case MovPop => w[0].Bin? && w[0].bop == Mov && w[0].s == Stk(0) && w[1] == Bin(Add, Esp, Imm(4))
    // mov a, 0; add a, s
    case MovZeroAdd =>
      w[0].Bin? && w[0].bop == Mov && w[0].s == Imm(0) && w[1].Bin? && w[1].bop == Add && w[1].d == w[0].d
    // mov a, b; mov a, s
    case DeadMov => w[0].Bin? && w[0].bop == Mov && w[1].Bin? && w[1].bop == Mov && w[1].d == w[0].d
    // mov a, n; add (or sub) d, s; sub a, n (or add a, m with n + m = 0)
    case MovOpCancel =>
      && w[0].Bin? && w[0].bop == Mov && w[0].s.Imm? && |w| >= 3 && AddOrSub(w[1]) && w[1].s != w[0].d
      && w[2].Bin? && w[2].d == w[0].d && w[2].s.Imm?
      && ((w[2].bop == Sub && w[2].s == w[0].s)
          || (w[2].bop == Add && (w[0].s.n + w[2].s.n) % 0x1_0000_0000 == 0))
    // xor a, b; xor a, b
    case XorPair => w[0].Bin? && w[0].bop == XorOp && w[1] == w[0]
    // xor a, b; xor b, a; xor a, b
    case XorSwap =>
      w[0].Bin? && w[0].bop == XorOp && |w| >= 3 && w[1] == Bin(XorOp, w[0].s, w[0].d) && w[2] == w[0]
    // lea d, [...]; lea d, [...]
    case LeaLea => w[0].Lea? && w[1].Lea? && w[1].d == w[0].d
    // lea d, [...]; add (or sub) d, m    lea d, [...]; inc (or dec) d
    case LeaFold =>
      && w[0].Lea? && First(w[1]) == Some(w[0].d)
      && ((AddOrSub(w[1]) && w[1].s.Imm?) || (w[1].Un? && w[1].uop in {Inc, Dec}))
    // lea esp, [esp + n]
    case LeaEsp => w[0].Lea? && w[0].d == Esp && w[0].base == Esp && First(w[1]) != Some(Esp)
    // add (or sub) a, n; add (or sub) a, m
    case AddMerge =>
      AddOrSub(w[0]) && AddOrSub(w[1]) && w[1].d == w[0].d && w[0].s.Imm? && w[1].s.Imm?
    // op [esp], s; mov [esp], t
    case DeadStackOp =>
      && TwoOperands(w[0]) && First(w[0]) == Some(Stk(0)) && w[1].Bin? && w[1].bop == Mov && w[1].d == Stk(0)
      && !(w[0].Xchg? && |w| >= 3 && Swaps(w[2], w[0].a, w[0].b))
  }

  /** The place of a rule in the table. */
  function Place(rule: Rule): nat {
    match rule
    case SelfXchg => 0 case Cancel => 1 case XchgUnaryXchg => 2 case PushMovTop => 3 case SaveEspXchg => 4
    case SaveMovPop => 5 case PushTopMovAdd => 6 case SaveMovRestoreXchg => 7 case SaveMovMovRestore => 8
    case NegBySub => 9 case PushPop => 10 case PushEspAddPop => 11 case PushEspAddLea => 12 case PushAddPop => 13
    case SaveLeaXchg => 14 case PushZeroSubNeg => 15 case SwapPush => 16 case SaveOpRestore => 17
    case PushOpPop => 18 case AddZero => 19 case AddOpSub => 20 case SubMovTop => 21 case DeadMov => 22
    case MovFold => 23 case MovPop => 24 case MovZeroAdd => 25 case MovOpCancel => 26 case XorPair => 27
    case XorSwap => 28 case LeaLea => 29 case LeaFold => 30 case LeaEsp => 31 case AddMerge => 32
    case DeadStackOp => 33
  }

  /** add a, n or sub a, -n, or nothing for 0. */
  function Moved(d: Operand, n: int): Slot {
    if n == 0 then None else if n > 0 then Some(Bin(Add, d, Imm(n))) else Some(Bin(Sub, d, Imm(-n)))
  }

  /** The records after the rule; None is a record flagged for deletion. */
  function Left(w: Window, rule: Rule): seq<Slot>
    requires Matches(w, rule)
  {
    match rule
    case Cancel => [None, None]
    case SelfXchg => [None]
    case XchgUnaryXchg => [Some(Un(w[1].uop, if w[1].d == w[0].a then w[0].b else w[0].a)), None, None]
    case PushMovTop => [Some(Push(w[1].s)), if w[1].s == Esp then Some(Bin(Sub, Stk(0), Imm(4))) else None]
    case SaveEspXchg => [Some(Push(Esp)), Some(Bin(Sub, Stk(0), Imm(4))), None]
    case SaveMovPop => [Some(Xchg(Stk(0), w[0].x)), None, None]
    case PushTopMovAdd => [Some(Pop(w[1].d)), None, None]
    case SaveMovRestoreXchg => [Some(Xchg(w[0].x, w[1].s)), None, None]
    case SaveMovMovRestore => [Some(Bin(Mov, w[2].d, w[1].s)), None, None, None]
    case NegBySub => [Some(Un(Neg, w[2].s)), None, None, None, None]
    case PushPop => [if w[0].x == w[1].x then None else Some(Bin(Mov, w[1].x, w[0].x)), None]
    case PushEspAddPop => [Some(Bin(Mov, Stk(0), Esp)), None, None]
    case PushEspAddLea => [Some(Lea(w[2].x, Esp, w[1].s.n)), None, None]
    case PushAddPop => [Some(Bin(Mov, w[2].x, w[0].x)), Some(Bin(Add, w[2].x, w[1].s)), None]
    case SaveLeaXchg => [Some(Push(Esp)), None, None]
    case PushZeroSubNeg => [Some(Un(Neg, w[1].s)), None, None]
    case SwapPush => [Some(Onto(w[1], Stk(0))), Some(w[0])]
    case SaveOpRestore => [AtTop(w[1], w[0].x), None, None]
    case PushOpPop => [Some(Bin(Mov, w[2].x, w[0].x)), Some(Onto(w[1], w[2].x)), None]
    case AddZero => [None]
    case AddOpSub => [None, Some(w[1]), None]
    case SubMovTop => [Some(Push(w[1].s)), if w[1].s == Esp then Some(Bin(Sub, Stk(0), Imm(4))) else None]
    case MovFold =>
      [Some(Bin(Mov, w[0].d, Imm(
         if w[1].Bin? then FoldBinary(w[1].bop, w[0].s.n, w[1].s.n) else FoldUnary(w[1].uop, w[0].s.n)))), None]
    case MovPop => [Some(Pop(w[0].d)), None]
    case MovZeroAdd => [Some(Bin(Mov, w[0].d, w[1].s)), None]
    case DeadMov => [None, Some(w[1])]
    case MovOpCancel => [Some(Bin(Mov, w[0].d, Imm(0))), Some(w[1]), None]
    case XorPair => [None, None]
    case XorSwap => [Some(Xchg(w[0].d, w[0].s)), None, None]
    case LeaLea => [None, Some(w[1])]
    case LeaFold =>
      var m := if w[1].Un? then (if w[1].uop == Inc then 1 else -1) else Signed(w[1]);
      [Some(Lea(w[0].d, w[0].base, w[0].disp + m)), None]
    case LeaEsp => [Moved(Esp, w[0].disp)]
    case AddMerge => [Moved(w[0].d, Signed(w[0]) + Signed(w[1])), None]
    case DeadStackOp => [None, Some(w[1])]
  }

  // ------------------------------------------------------------------ the code applies the table

  /** The rule that fires is the first in the table that matches, and leaves what the table says. */
  ghost predicate ByTable(w: Window, p: Option<Patch>) {
    match p
    case None => forall r :: !Matches(w, r)
    case Some(patch) =>
      && Matches(w, patch.rule) && (forall r :: Matches(w, r) ==> Place(patch.rule) <= Place(r))
      && patch.out == Left(w, patch.rule) && patch.counted == (patch.rule != SelfXchg)
  }

  lemma UnaryByTable(w: Window)
    requires w[0].Un?
    ensures ByTable(w, Rewrite(w))
  {
  }

  lemma PopByTable(w: Window)
    requires w[0].Pop?
    ensures ByTable(w, Rewrite(w))
  {
  }

  lemma SelfExchangeByTable(w: Window)
    requires w[0].Xchg? && w[0].a == w[0].b
    ensures ByTable(w, Rewrite(w))
  {
  }

  lemma ExchangePairByTable(w: Window)
    requires w[0].Xchg? && w[0].a != w[0].b && w[1].Xchg?
    ensures ByTable(w, Rewrite(w))
  {
  }

  lemma ExchangeAroundByTable(w: Window)
    requires w[0].Xchg? && w[0].a != w[0].b && !w[1].Xchg?
    ensures ByTable(w, Rewrite(w))
  {
  }

  lemma LeaLeaByTable(w: Window)
    requires w[0].Lea? && w[1].Lea?
    ensures ByTable(w, Rewrite(w))
  {
  }

  lemma LeaOtherByTable(w: Window)
    requires w[0].Lea? && !w[1].Lea?
    ensures ByTable(w, Rewrite(w))
  {
  }

  lemma PushMovTopByTable(w: Window)
    requires w[0].Push? && w[1].Bin? && w[1].bop == Mov && w[1].d.Stk?
    ensures ByTable(w, Rewrite(w))
  {
  }

  lemma ShortPushMovByTable(w: Window)
    requires w[0].Push? && w[1].Bin? && w[1].bop == Mov && !w[1].d.Stk? && |w| < 4
    ensures ByTable(w, Rewrite(w))
  {
  }

  lemma PushMovMovByTable(w: Window)
    requires w[0].Push? && w[1].Bin? && w[1].bop == Mov && !w[1].d.Stk?
    requires |w| >= 4 && w[2].Bin? && w[2].bop == Mov
    ensures ByTable(w, Rewrite(w))
  {
  }

  lemma PushMovSubByTable(w: Window)
    requires w[0].Push? && w[1].Bin? && w[1].bop == Mov && !w[1].d.Stk?
    requires |w| >= 4 && w[2].Bin? && w[2].bop != Mov
    ensures ByTable(w, Rewrite(w))
  {
  }

  lemma PushMovOtherByTable(w: Window)
    requires w[0].Push? && w[1].Bin? && w[1].bop == Mov && !w[1].d.Stk?
    requires |w| >= 4 && !w[2].Bin?
    ensures ByTable(w, Rewrite(w))
  {
  }

  lemma PushEspAddByTable(w: Window)
    requires w[0].Push? && w[1].Bin? && w[1].bop == Add && w[0].x == Esp
    ensures ByTable(w, Rewrite(w))
  {
  }

  lemma PushAddByTable(w: Window)
    requires w[0].Push? && w[1].Bin? && w[1].bop == Add && w[0].x != Esp
    ensures ByTable(w, Rewrite(w))
  {
  }

  lemma PushSubByTable(w: Window)
    requires w[0].Push? && w[1].Bin? && w[1].bop == Sub
    ensures ByTable(w, Rewrite(w))
  {
  }

  lemma PushBitwiseByTable(w: Window)
    requires w[0].Push? && w[1].Bin? && w[1].bop in {AndOp, OrOp, XorOp}
    ensures ByTable(w, Rewrite(w))
  {
  }

  lemma PushPopByTable(w: Window)
    requires w[0].Push? && w[1].Pop?
    ensures ByTable(w, Rewrite(w))
  {
  }

  lemma PushXchgByTable(w: Window)
    requires w[0].Push? && w[1].Xchg?
    ensures ByTable(w, Rewrite(w))
  {
  }

  lemma PushOtherByTable(w: Window)
    requires w[0].Push? && (w[1].Push? || w[1].Un? || w[1].Lea?)
    ensures ByTable(w, Rewrite(w))
  {
  }

  lemma AddByTable(w: Window)
    requires w[0].Bin? && w[0].bop == Add
    ensures ByTable(w, Rewrite(w))
  {
  }

  lemma SubMovByTable(w: Window)
    requires w[0].Bin? && w[0].bop == Sub && w[1].Bin? && w[1].bop == Mov
    ensures ByTable(w, Rewrite(w))
  {
  }

  lemma SubByTable(w: Window)
    requires w[0].Bin? && w[0].bop == Sub && !(w[1].Bin? && w[1].bop == Mov)
    ensures ByTable(w, Rewrite(w))
  {
  }

  lemma MovMovByTable(w: Window)
    requires w[0].Bin? && w[0].bop == Mov && w[1].Bin? && w[1].bop == Mov
    ensures ByTable(w, Rewrite(w))
  {
  }

  lemma MovSameByTable(w: Window)
    requires w[0].Bin? && w[0].bop == Mov && w[1].Bin? && w[1].bop != Mov && w[1].d == w[0].d
    ensures ByTable(w, Rewrite(w))
  {
    hide FoldBinary, FoldUnary;
  }

  lemma MovDifferentByTable(w: Window)
    requires w[0].Bin? && w[0].bop == Mov && w[1].Bin? && w[1].bop != Mov && w[1].d != w[0].d
    ensures ByTable(w, Rewrite(w))
  {
  }

  lemma MovOtherByTable(w: Window)
    requires w[0].Bin? && w[0].bop == Mov && !w[1].Bin?
    ensures ByTable(w, Rewrite(w))
  {
  }

  lemma XorByTable(w: Window)
    requires w[0].Bin? && w[0].bop == XorOp
    ensures ByTable(w, Rewrite(w))
  {
  }

  lemma AndOrByTable(w: Window)
    requires w[0].Bin? && w[0].bop in {AndOp, OrOp}
    ensures ByTable(w, Rewrite(w))
  {
  }

  /** Every window is rewritten as the table says. */
  lemma RewriteByTable(w: Window)
    ensures ByTable(w, Rewrite(w))
  {
    hide Rewrite, ByTable;
    match w[0] {
      case Un(_, _) => UnaryByTable(w);
      case Pop(_) => PopByTable(w);
      case Xchg(a, b) =>
        if a == b {
          SelfExchangeByTable(w);
        } else if w[1].Xchg? {
          ExchangePairByTable(w);
        } else {
          ExchangeAroundByTable(w);
        }
      case Lea(_, _, _) => if w[1].Lea? { LeaLeaByTable(w); } else { LeaOtherByTable(w); }
      case Push(_) => PushByTable(w);
      case Bin(Add, _, _) => AddByTable(w);
      case Bin(Sub, _, _) => if w[1].Bin? && w[1].bop == Mov { SubMovByTable(w); } else { SubByTable(w); }
      case Bin(Mov, _, _) =>
        if !w[1].Bin? {
          MovOtherByTable(w);
        } else if w[1].bop == Mov {
          MovMovByTable(w);
        } else if w[1].d == w[0].d {
          MovSameByTable(w);
        } else {
          MovDifferentByTable(w);
        }
      case Bin(XorOp, _, _) => XorByTable(w);
      case Bin(AndOp, _, _) => AndOrByTable(w);
      case Bin(OrOp, _, _) => AndOrByTable(w);
    }
  }

  lemma PushByTable(w: Window)
    requires w[0].Push?
    ensures ByTable(w, Rewrite(w))
  {
    hide Rewrite, ByTable;
    match w[1] {
      case Bin(Mov, d, _) =>
        if d.Stk? {
          PushMovTopByTable(w);
        } else if |w| < 4 {
          ShortPushMovByTable(w);
        } else if !w[2].Bin? {
          PushMovOtherByTable(w);
        } else if w[2].bop == Mov {
          PushMovMovByTable(w);
        } else {
          PushMovSubByTable(w);
        }
      case Bin(Add, _, _) => if w[0].x == Esp { PushEspAddByTable(w); } else { PushAddByTable(w); }
      case Bin(Sub, _, _) => PushSubByTable(w);
      case Bin(AndOp, _, _) => PushBitwiseByTable(w);
      case Bin(OrOp, _, _) => PushBitwiseByTable(w);
      case Bin(XorOp, _, _) => PushBitwiseByTable(w);
      case Pop(_) => PushPopByTable(w);
      case Xchg(_, _) => PushXchgByTable(w);
      case _ => PushOtherByTable(w);
    }
  }
}
