/** The peephole optimiser of xvmdebugframe.cpp on the instructions of Machine.dfy.  `Rewrite` is one
    window of `doDeobfuscateNormal`: which rule matches first, what the window's first records then
    hold (None for a record flagged for deletion) and whether the rewrite is counted. */
module Peephole {
  import opened Wrappers
  import opened Words
  import opened Machine

  datatype Rule =
    | Cancel | SelfXchg | XchgUnaryXchg
    | PushMovTop | SaveEspXchg | SaveMovPop | PushTopMovAdd | SaveMovRestoreXchg | SaveMovMovRestore | NegBySub
    | PushPop | PushEspAddPop | PushEspAddLea | PushAddPop | SaveLeaXchg | PushZeroSubNeg
    | SwapPush | SaveOpRestore | PushOpPop
    | AddZero | AddOpSub | SubMovTop
    | MovFold | MovPop | MovZeroAdd | DeadMov | MovOpCancel
    | XorPair | XorSwap
    | LeaLea | LeaFold | LeaEsp
    | AddMerge | DeadStackOp

  type Slot = Option<Instr>

  datatype Patch = Patch(rule: Rule, out: seq<Slot>, counted: bool)

  type Window = w: seq<Instr> | 2 <= |w| <= 6 witness [Push(Esp), Push(Esp)]

  // ------------------------------------------------------------------ operands of a window

  function First(i: Instr): Option<Operand> {
    match i
    case Push(x) => Some(x)
    case Pop(x) => Some(x)
    case Bin(_, d, _) => Some(d)
    case Un(_, d) => Some(d)
    case Xchg(a, _) => Some(a)
    case Lea(d, _, _) => Some(d)
  }

  function Second(i: Instr): Option<Operand> {
    match i
    case Bin(_, _, s) => Some(s)
    case Xchg(_, b) => Some(b)
    case _ => None
  }

  /** Neither the stack pointer nor memory addressed through it. */
  predicate NoEsp(o: Operand) { o.Gpr? || o.Imm? }

  predicate AddOrSub(i: Instr) { i.Bin? && (i.bop == Add || i.bop == Sub) }

  function Gone(rule: Rule, n: nat): Option<Patch> { Some(Patch(rule, seq(n, _ => None), true)) }

  function One(rule: Rule, i: Instr, n: nat): Option<Patch>
    requires n > 0
  {
    Some(Patch(rule, [Some(i)] + seq(n - 1, _ => None), true))
  }

  function Three(rule: Rule, i: Instr, j: Instr): Option<Patch> { Some(Patch(rule, [Some(i), Some(j), None], true)) }

  // ------------------------------------------------------------------ rules by first instruction

  function RewriteUnary(w: Window): Option<Patch>
    requires w[0].Un?
  {
    if w[0].uop in {ByteSwap, Neg, Not} && w[1] == w[0] then Gone(Cancel, 2) else None
  }

  /** The second operand of an exchange when its first, in either order, is a. */
  function Partner(i: Instr, a: Operand): Option<Operand>
    requires i.Xchg?
  {
    if a == i.b then Some(i.a) else if a == i.a then Some(i.b) else None
  }

  function RewriteXchg(w: Window): Option<Patch>
    requires w[0].Xchg?
  {
    var (a, b) := (w[0].a, w[0].b);
    if a == b then Some(Patch(SelfXchg, [None], false))
    else if w[1].Xchg? then
      if Partner(w[1], a) == Some(b) then Gone(Cancel, 2) else None
    else if |w| >= 3 && w[2].Xchg? && Partner(w[2], a) == Some(b) && w[1].Un? then
      if w[1].d == a then One(XchgUnaryXchg, Un(w[1].uop, b), 3)
      else if w[1].d == b then One(XchgUnaryXchg, Un(w[1].uop, a), 3)
      else None
    else None
  }

  function RewritePushMov(w: Window): Option<Patch>
    requires w[0].Push? && w[1].Bin?
  {
    var (x, d, s) := (w[0].x, w[1].d, w[1].s);
    if d.Stk? then  // the displacement is not tested
      Some(Patch(PushMovTop, [Some(Push(s)), if s == Esp then Some(Bin(Sub, Stk(0), Imm(4))) else None], true))
    else if |w| < 3 then None
    else
      var short := RewriteSave3(w[2], x, d, s);
      if short.Some? then short else RewriteSaveLong(w)
  }

  function RewriteSave3(third: Instr, x: Operand, d: Operand, s: Operand): Option<Patch> {
    var isReg := d.Gpr? || d == Esp;
    if isReg && x == d && s == Esp then
      if third == Xchg(Stk(0), x) then Three(SaveEspXchg, Push(Esp), Bin(Sub, Stk(0), Imm(4))) else None
    else if isReg && x == d && s == Stk(1) then
      if third == Pop(Stk(0)) then One(SaveMovPop, Xchg(Stk(0), x), 3) else None
    else if x == Stk(0) && s == Stk(0) && third == Bin(Add, Esp, Imm(8)) then One(PushTopMovAdd, Pop(d), 3)
    else if NoEsp(x) && x == d && NoEsp(s) && third == Pop(s) then One(SaveMovRestoreXchg, Xchg(x, s), 3)
    else None
  }

  function RewriteSaveLong(w: Window): Option<Patch>
    requires w[0].Push? && w[1].Bin?
  {
    var (x, d, s) := (w[0].x, w[1].d, w[1].s);
    if |w| >= 4 && w[2].Bin? && w[2].bop == Mov && w[3] == Pop(x) && x == d && x == w[2].s
       && NoEsp(x) && NoEsp(s) && NoEsp(w[2].d) then
      One(SaveMovMovRestore, Bin(Mov, w[2].d, s), 4)
    else if |w| >= 5 && w[2].Bin? && w[2].bop == Sub && w[4] == Pop(x) && s == Imm(0) && x == d && x == w[2].d then
      if w[3].Xchg? && Partner(w[3], x) == Some(w[2].s) then One(NegBySub, Un(Neg, w[2].s), 5)
      else if w[3] == Bin(Mov, w[2].s, x) then One(NegBySub, Un(Neg, w[2].s), 5)
      else None
    else None
  }

  function RewritePushPop(w: Window): Option<Patch>
    requires w[0].Push? && w[1].Pop?
  {
    var (x, y) := (w[0].x, w[1].x);
    if x.Stk? && y.Stk? then None
    else if x == y then Gone(PushPop, 2)
    else One(PushPop, Bin(Mov, y, x), 2)
  }

  function RewritePushAdd(w: Window): Option<Patch>
    requires w[0].Push? && w[1].Bin?
  {
    if |w| < 3 || !w[2].Pop? then None
    else if w[0].x == Esp then
      if w[1].d == Stk(1) && w[2].x == Stk(0) then One(PushEspAddPop, Bin(Mov, Stk(0), Esp), 3)
      else if w[1].d == Stk(0) && w[1].s.Imm? && (w[2].x.Gpr? || w[2].x == Esp) then
        One(PushEspAddLea, Lea(w[2].x, Esp, w[1].s.n), 3)
      else None
    else if w[1].d == Stk(0) then Three(PushAddPop, Bin(Mov, w[2].x, w[0].x), Bin(Add, w[2].x, w[1].s))
    else None
  }

  function RewritePushLea(w: Window): Option<Patch>
    requires w[0].Push? && w[1].Lea?
  {
    var x := w[0].x;
    if |w| >= 3 && (x.Gpr? || x == Esp) && w[1] == Lea(x, Esp, 4) && w[2] == Xchg(Stk(0), x) then
      One(SaveLeaXchg, Push(Esp), 3)
    else None
  }

  function RewritePushSub(w: Window): Option<Patch>
    requires w[0].Push? && w[1].Bin?
  {
    if |w| >= 3 && w[0].x == Imm(0) && w[1].d == Stk(0) && w[2] == Pop(w[1].s) then
      One(PushZeroSubNeg, Un(Neg, w[1].s), 3)
    else None
  }

  /** An operation on the word below a pushed one is moved ahead of the push. */
  function RewriteSwap(w: Window): Option<Patch>
    requires w[0].Push?
  {
    if First(w[1]) == Some(Stk(1)) && Second(w[1]).Some? && NoEsp(Second(w[1]).value) then
      var moved := if w[1].Bin? then Bin(w[1].bop, Stk(0), w[1].s)
                   else Xchg(Stk(0), Second(w[1]).value);
      Some(Patch(SwapPush, [Some(moved), Some(w[0])], true))
    else None
  }

  /** A word is pushed, one instruction works on it, and it is popped where it came from. */
  function RewriteRestore(x: Operand, i: Instr): Option<Patch> {
    match i
    case Bin(op, d, s) =>
      if d == Stk(0) then One(SaveOpRestore, Bin(op, x, s), 3)
      else if s == Stk(0) then One(SaveOpRestore, Bin(op, d, x), 3)
      else None
    case Xchg(a, b) =>
      if a == Stk(0) then One(SaveOpRestore, Xchg(x, b), 3)
      else if b == Stk(0) then One(SaveOpRestore, Xchg(a, x), 3)
      else None
    case Un(op, d) => if d == Stk(0) then One(SaveOpRestore, Un(op, x), 3) else None
    case Push(y) => if y == Stk(0) then One(SaveOpRestore, Push(x), 3) else None
    case Pop(y) => if y == Stk(0) then One(SaveOpRestore, Pop(x), 3) else None
    case Lea(_, _, _) => None
  }

  /** The same with the word popped elsewhere. */
  function RewriteElsewhere(x: Operand, i: Instr, d: Operand): Option<Patch> {
    if First(i) == Some(Stk(0)) && Second(i).Some? && NoEsp(Second(i).value) then
      Three(PushOpPop, Bin(Mov, d, x), if i.Bin? then Bin(i.bop, d, i.s) else Xchg(d, Second(i).value))
    else None
  }

  function RewriteBetween(w: Window): Option<Patch>
    requires w[0].Push?
  {
    if |w| < 3 || !w[2].Pop? then None
    else if w[0].x == w[2].x then RewriteRestore(w[0].x, w[1])
    else RewriteElsewhere(w[0].x, w[1], w[2].x)
  }

  function RewritePush(w: Window): Option<Patch>
    requires w[0].Push?
  {
    var p :=
      match w[1]
      case Bin(Mov, _, _) => RewritePushMov(w)
      case Pop(_) => RewritePushPop(w)
      case Bin(Add, _, _) => RewritePushAdd(w)
      case Bin(Sub, _, _) => RewritePushSub(w)
      case Lea(_, _, _) => RewritePushLea(w)
      case _ => None;
    if p.Some? then p
    else
      var q := RewriteSwap(w);
      if q.Some? then q else RewriteBetween(w)
  }

  /** add a, b; (add|sub) a, c; sub a, b  and the same with add and sub exchanged. */
  function RewriteAround(w: Window, back: BinOp): Option<Patch>
    requires w[0].Bin?
  {
    if |w| >= 3 && AddOrSub(w[1]) && w[1].d == w[0].d && w[2] == Bin(back, w[0].d, w[0].s) then
      Some(Patch(AddOpSub, [None, Some(w[1]), None], true))
    else None
  }

  function RewriteAdd(w: Window): Option<Patch>
    requires w[0].Bin?
  {
    if w[0].s == Imm(0) then Gone(AddZero, 1) else RewriteAround(w, Sub)
  }

  function RewriteSub(w: Window): Option<Patch>
    requires w[0].Bin?
  {
    if w[0].s == Imm(0) then Gone(AddZero, 1)
    else if w[1].Bin? && w[1].bop == Mov && w[0].d == Esp && w[0].s.Imm? && w[0].s.n % 0x1_0000 == 4 && w[1].d.Stk? then
      // only the low half of the constant is tested, and not the displacement
      var s := w[1].s;
      Some(Patch(SubMovTop, [Some(Push(s)), if s == Esp then Some(Bin(Sub, Stk(0), Imm(4))) else None], true))
    else RewriteAround(w, Add)
  }

  function FoldBinary(op: BinOp, n: int, m: int): int {
    match op
    case Mov => m
    case Add => n + m
    case Sub => n - m
    case AndOp => AndWord(ToWord(n), ToWord(m))
    case OrOp => OrWord(ToWord(n), ToWord(m))
    case XorOp => XorWord(ToWord(n), ToWord(m))
  }

  function FoldUnary(op: UnOp, n: int): int {
    match op
    case Not => -n - 1
    case Neg => -n
    case Inc => n + 1
    case Dec => n - 1
    case ByteSwap => n
  }

  /** mov a, b followed by a two-operand instruction. */
  function RewriteMovBin(a: Operand, b: Operand, op: BinOp, c: Operand, d: Operand): Option<Patch> {
    if op == Mov then
      if a == c then Some(Patch(DeadMov, [None, Some(Bin(op, c, d))], true)) else None
    else if a == c && b.Imm? && d.Imm? then One(MovFold, Bin(Mov, a, Imm(FoldBinary(op, b.n, d.n))), 2)
    else if op == Add && b == Stk(0) && c == Esp && d == Imm(4) then One(MovPop, Pop(a), 2)
    else if op == Add && b == Imm(0) && a == c then One(MovZeroAdd, Bin(Mov, a, d), 2)
    else None
  }

  function RewriteMov(w: Window): Option<Patch>
    requires w[0].Bin?
  {
    var (a, b) := (w[0].d, w[0].s);
    var p :=
      match w[1]
      case Bin(op, c, d) => RewriteMovBin(a, b, op, c, d)
      case Un(op, c) =>
        if op != ByteSwap && a == c && b.Imm? then One(MovFold, Bin(Mov, a, Imm(FoldUnary(op, b.n))), 2) else None
      case _ => None;
    if p.Some? then p
    else if |w| >= 3 && b.Imm? && AddOrSub(w[1]) && w[1].s != a && w[2].Bin? && w[2].d == a && w[2].s.Imm?
         && ((w[2].bop == Sub && w[2].s == b) || (w[2].bop == Add && ToWord(b.n + w[2].s.n) == 0)) then
      Some(Patch(MovOpCancel, [Some(Bin(Mov, a, Imm(0))), Some(w[1]), None], true))
    else None
  }

  function RewriteXor(w: Window): Option<Patch>
    requires w[0].Bin?
  {
    var (a, b) := (w[0].d, w[0].s);
    if w[1] == w[0] then Gone(XorPair, 2)
    else if |w| >= 3 && w[1] == Bin(XorOp, b, a) && w[2] == w[0] then One(XorSwap, Xchg(a, b), 3)
    else None
  }

  function RewriteLea(w: Window): Option<Patch>
    requires w[0].Lea?
  {
    var (d, base, disp) := (w[0].d, w[0].base, w[0].disp);
    if w[1].Lea? && w[1].d == d then Some(Patch(LeaLea, [None, Some(w[1])], true))
    else if First(w[1]) == Some(d) then
      match w[1]
      case Bin(Sub, _, Imm(m)) => One(LeaFold, Lea(d, base, disp - m), 2)
      case Bin(Add, _, Imm(m)) => One(LeaFold, Lea(d, base, disp + m), 2)
      case Un(Inc, _) => One(LeaFold, Lea(d, base, disp + 1), 2)
      case Un(Dec, _) => One(LeaFold, Lea(d, base, disp - 1), 2)
      case _ => None
    else if d == Esp && base == Esp then
      if disp == 0 then Gone(LeaEsp, 1)
      else if disp > 0 then One(LeaEsp, Bin(Add, Esp, Imm(disp)), 1)
      else One(LeaEsp, Bin(Sub, Esp, Imm(-disp)), 1)
    else None
  }

  // ------------------------------------------------------------------ rules tried last

  function Signed(i: Instr): int
    requires AddOrSub(i) && i.s.Imm?
  {
    if i.bop == Add then i.s.n else -i.s.n
  }

  function RewriteMerge(w: Window): Option<Patch> {
    if AddOrSub(w[0]) && AddOrSub(w[1]) && w[0].d == w[1].d && w[0].s.Imm? && w[1].s.Imm? then
      var delta := Signed(w[0]) + Signed(w[1]);
      if delta == 0 then Gone(AddMerge, 2)
      else if delta > 0 then One(AddMerge, Bin(Add, w[0].d, Imm(delta)), 2)
      else One(AddMerge, Bin(Sub, w[0].d, Imm(-delta)), 2)
    else None
  }

  /** The attempt at an exchange on both sides of `w[1]` has swapped the first record's operands. */
  predicate OperandsSwapped(w: Window) {
    && w[0].Xchg? && |w| >= 3 && w[2].Xchg? && Partner(w[2], w[0].a) == Some(w[0].b)
    && First(w[1]) == Some(w[0].a)
  }

  function RewriteDead(w: Window): Option<Patch> {
    if OperandsSwapped(w) then None
    else if First(w[0]) == Some(Stk(0)) && Second(w[0]).Some? && w[1].Bin? && w[1].bop == Mov && w[1].d == Stk(0) then
      Some(Patch(DeadStackOp, [None, Some(w[1])], true))
    else None
  }

  function ByMnemonic(w: Window): Option<Patch> {
    match w[0]
    case Un(_, _) => RewriteUnary(w)
    case Xchg(_, _) => RewriteXchg(w)
    case Push(_) => RewritePush(w)
    case Bin(op, _, _) =>
      (match op
       case Add => RewriteAdd(w)
       case Sub => RewriteSub(w)
       case Mov => RewriteMov(w)
       case XorOp => RewriteXor(w)
       case _ => None)
    case Lea(_, _, _) => RewriteLea(w)
    case Pop(_) => None
  }

  function Rewrite(w: Window): Option<Patch> {
    var p := ByMnemonic(w);
    if p.Some? then p
    else
      var q := RewriteMerge(w);
      if q.Some? then q else RewriteDead(w)
  }

  lemma PatchFits(w: Window)
    requires Rewrite(w).Some?
    ensures 1 <= |Rewrite(w).value.out| <= |w|
  {
  }

  /** The instructions left in patched records. */
  function Kept(out: seq<Slot>): seq<Instr> {
    if out == [] then []
    else (if out[0].Some? then [out[0].value] else []) + Kept(out[1..])
  }

  // ------------------------------------------------------------------ side conditions

  /** op with this constant leaves every word as it is. */
  predicate NoEffect(op: BinOp, n: int) {
    match op
    case Mov => false
    case AndOp => ToWord(n) == WORD_LIMIT - 1
    case _ => ToWord(n) == 0
  }

  /** op of this constant and any word is the constant. */
  predicate Absorbs(op: BinOp, n: int) {
    (op == AndOp && ToWord(n) == 0) || (op == OrOp && ToWord(n) == WORD_LIMIT - 1)
  }

  /** Between a store to [esp + 4 * k] and an operation on it, i does not make esp point elsewhere with
      that word defined. */
  predicate SameWordOrNone(k: nat, i: Instr) {
    i.Bin? && (i.d == Esp ==>
      AddOrSub(i) && i.s.Imm? && (Signed(i) == 0 || (Signed(i) < 0 && -Signed(i) > 4 * k)))
  }

  /** What a rule needs and the code does not test. */
  predicate Safe(w: Window, rule: Rule)
    requires Rewrite(w).Some? && Rewrite(w).value.rule == rule
  {
    match rule
    case PushMovTop => w[1].d == Stk(0)
    case SubMovTop => w[0].s == Imm(4) && w[1].d == Stk(0)
    case SaveMovMovRestore => w[2].d != w[0].x || w[1].s == w[0].x
    case NegBySub => w[0].x.Gpr? && w[2].s.Gpr? && w[0].x != w[2].s
    case PushAddPop => w[1].s != Esp && !(w[0].x.Stk? && w[2].x.Stk?) && (w[1].s != w[2].x || w[0].x == w[2].x)
    case SaveOpRestore =>
      (match w[1]
       case Bin(op, d, s) => if d == Stk(0) then s != Esp else d != w[0].x || op in {Mov, AndOp, OrOp}
       case Push(_) => w[0].x.Stk? ==> w[0].x == Stk(0)
       case Pop(_) => w[0].x == Stk(0)
       case _ => true)
    case PushOpPop =>
      && !(w[0].x.Stk? && w[2].x.Stk?)
      && (Second(w[1]) != Some(w[2].x) || (w[1].Bin? && w[0].x.Imm? && Absorbs(w[1].bop, w[0].x.n)))
    case SwapPush =>
      || (w[0].x != Stk(0) && !(w[1].Xchg? && w[1].b == w[0].x))
      || (w[1].Bin? && w[1].s.Imm? && NoEffect(w[1].bop, w[1].s.n))
    case AddOpSub =>
      || (w[0].s != w[0].d && w[1].s != w[0].d)
      || (w[0].s == w[0].d && w[1].s == w[0].d && w[1].bop == Sub)
      || (w[0].s.Imm? && ToWord(w[0].s.n) == 0)
    case MovZeroAdd => w[1].s != w[0].d
    case DeadMov => w[1].s != w[0].d || w[0].s == w[0].d
    case MovOpCancel =>
      w[0].d.Gpr? || ToWord(w[0].s.n) == 0 || w[1].d != Esp || (w[0].d.Stk? && SameWordOrNone(w[0].d.k, w[1]))
    case XorPair => w[0].d != w[0].s
    case LeaLea =>
      || w[1].base != w[0].d
      || (w[0].base == w[0].d && (w[0].disp == 0 || (w[0].d.Gpr? && ToWord(w[0].disp) == 0)))
    case DeadStackOp => !w[0].Xchg?
    case _ => true
  }
}
