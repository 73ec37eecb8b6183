/** A 32-bit register machine for traces: seven general registers, the stack pointer, and the words
    on the stack.  Words below the stack pointer have no value, and a word uncovered by moving the
    stack pointer down has none until it is written.  An instruction whose operands the machine
    does not give a meaning to (writing esp other than by a constant, reading a word without a
    value, two memory operands) does not run. */
module Machine {
  import opened Wrappers
  import opened Words

  type RegNo = r: nat | r < 7

  /** Stk(k) is the memory word [esp + 4 * k]. */
  datatype Operand = Gpr(r: RegNo) | Esp | Imm(n: int) | Stk(k: nat)

  datatype UnOp = Not | Neg | Inc | Dec | ByteSwap
  datatype BinOp = Mov | Add | Sub | AndOp | OrOp | XorOp

  datatype Instr =
    | Push(x: Operand)
    | Pop(x: Operand)
    | Bin(bop: BinOp, d: Operand, s: Operand)
    | Un(uop: UnOp, d: Operand)
    | Xchg(a: Operand, b: Operand)
    | Lea(d: Operand, base: Operand, disp: int)

  /** Top of the stack first; None is a word without a value. */
  datatype State = State(regs: seq<Word>, esp: Word, stack: seq<Option<Word>>)

  predicate Valid(s: State) { |s.regs| == 7 }

  function Read(s: State, o: Operand): Option<Word>
    requires Valid(s)
  {
    match o
    case Gpr(r) => Some(s.regs[r])
    case Esp => Some(s.esp)
    case Imm(n) => Some(ToWord(n))
    case Stk(k) => if k < |s.stack| then s.stack[k] else None
  }

  function Write(s: State, o: Operand, v: Word): (r: Option<State>)
    requires Valid(s)
    ensures r.Some? ==> Valid(r.value)
  {
    match o
    case Gpr(r) => Some(s.(regs := s.regs[r := v]))
    case Stk(k) => if k < |s.stack| then Some(s.(stack := s.stack[k := Some(v)])) else None
    case Esp => None
    case Imm(_) => None
  }

  /** Moving the stack pointer by n bytes. */
  function Adjust(s: State, n: int): (r: Option<State>)
    requires Valid(s)
    ensures r.Some? ==> Valid(r.value)
  {
    if n % 4 != 0 then None
    else if n >= 0 then
      if n / 4 <= |s.stack| then Some(s.(esp := ToWord(s.esp + n), stack := s.stack[n / 4..])) else None
    else Some(s.(esp := ToWord(s.esp + n), stack := seq((-n) / 4, _ => None) + s.stack))
  }

  function Unary(op: UnOp, v: Word): Word {
    match op
    case Not => NotWord(v)
    case Neg => ToWord(-(v as int))
    case Inc => ToWord(v + 1)
    case Dec => ToWord(v - 1)
    case ByteSwap => Bswap(v)
  }

  function Binary(op: BinOp, v: Word, w: Word): Word {
    match op
    case Mov => w
    case Add => ToWord(v + w)
    case Sub => ToWord(v - w)
    case AndOp => AndWord(v, w)
    case OrOp => OrWord(v, w)
    case XorOp => XorWord(v, w)
  }

  function StepPush(s: State, x: Operand): (r: Option<State>)
    requires Valid(s)
    ensures r.Some? ==> Valid(r.value)
  {
    match Read(s, x)
    case None => None
    case Some(v) => Some(s.(esp := ToWord(s.esp - 4), stack := [Some(v)] + s.stack))
  }

  /** The address of a memory operand of pop is computed after the stack pointer has moved. */
  function StepPop(s: State, x: Operand): (r: Option<State>)
    requires Valid(s)
    ensures r.Some? ==> Valid(r.value)
  {
    if s.stack == [] || s.stack[0].None? then None
    else Write(s.(esp := ToWord(s.esp + 4), stack := s.stack[1..]), x, s.stack[0].value)
  }

  function StepBin(s: State, op: BinOp, d: Operand, src: Operand): (r: Option<State>)
    requires Valid(s)
    ensures r.Some? ==> Valid(r.value)
  {
    if d.Stk? && src.Stk? then None
    else if d == Esp then
      if op == Add && src.Imm? then Adjust(s, src.n)
      else if op == Sub && src.Imm? then Adjust(s, -src.n)
      else None
    else
      match Read(s, src)
      case None => None
      case Some(w) =>
        if op == Mov then Write(s, d, w) else
          match Read(s, d)
          case None => None
          case Some(v) => Write(s, d, Binary(op, v, w))
  }

  function StepUn(s: State, op: UnOp, d: Operand): (r: Option<State>)
    requires Valid(s)
    ensures r.Some? ==> Valid(r.value)
  {
    match Read(s, d)
    case None => None
    case Some(v) => Write(s, d, Unary(op, v))
  }

  function StepXchg(s: State, a: Operand, b: Operand): (r: Option<State>)
    requires Valid(s)
    ensures r.Some? ==> Valid(r.value)
  {
    if a.Stk? && b.Stk? then None else
      match (Read(s, a), Read(s, b))
      case (Some(v), Some(w)) =>
        (match Write(s, a, w)
         case None => None
         case Some(t) => Write(t, b, v))
      case _ => None
  }

  function StepLea(s: State, d: Operand, base: Operand, disp: int): (r: Option<State>)
    requires Valid(s)
    ensures r.Some? ==> Valid(r.value)
  {
    if d == Esp && base == Esp then Adjust(s, disp)
    else if d.Gpr? && base.Gpr? then Write(s, d, ToWord(s.regs[base.r] + disp))
    else if d.Gpr? && base == Esp then Write(s, d, ToWord(s.esp + disp))
    else None
  }

  function Step(i: Instr, s: State): (r: Option<State>)
    requires Valid(s)
    ensures r.Some? ==> Valid(r.value)
  {
    match i
    case Push(x) => StepPush(s, x)
    case Pop(x) => StepPop(s, x)
    case Bin(op, d, src) => StepBin(s, op, d, src)
    case Un(op, d) => StepUn(s, op, d)
    case Xchg(a, b) => StepXchg(s, a, b)
    case Lea(d, base, disp) => StepLea(s, d, base, disp)
  }

  function Exec(p: seq<Instr>, s: State): (r: Option<State>)
    requires Valid(s)
    ensures r.Some? ==> Valid(r.value)
    decreases |p|
  {
    if p == [] then Some(s) else
      match Step(p[0], s)
      case None => None
      case Some(t) => Exec(p[1..], t)
  }

  // ------------------------------------------------------------------ refinement

  /** t agrees with s on registers, stack pointer and every stack word that has a value in s. */
  ghost predicate Leq(s: State, t: State) {
    && s.regs == t.regs && s.esp == t.esp && |s.stack| == |t.stack|
    && forall k :: 0 <= k < |s.stack| && s.stack[k].Some? ==> s.stack[k] == t.stack[k]
  }

  /** r is at least as good an outcome as the outcome q of the original. */
  ghost predicate Outcome(q: Option<State>, r: Option<State>) {
    q.Some? ==> r.Some? && Leq(q.value, r.value)
  }

  /** Whenever p runs, so does q, with the same registers, stack pointer and live stack words. */
  ghost predicate Preserves(p: seq<Instr>, q: seq<Instr>) {
    forall s: State :: Valid(s) ==> Outcome(Exec(p, s), Exec(q, s))
  }

  lemma LeqRefl(s: State)
    ensures Leq(s, s)
  {
  }

  lemma StepMonotone(i: Instr, s: State, t: State)
    requires Valid(s) && Valid(t) && Leq(s, t)
    ensures Outcome(Step(i, s), Step(i, t))
  {
    hide Read, Write, Adjust, Leq, Unary, Binary;
    match i {
      case Push(x) =>
        ReadMonotone(s, t, x);
        if Read(s, x).Some? { PushMonotone(s, t, Read(s, x).value); }
      case Pop(x) =>
        if StepPop(s, x).Some? {
          PopMonotone(s, t);
          WriteMonotone(s.(esp := ToWord(s.esp + 4), stack := s.stack[1..]),
                        t.(esp := ToWord(t.esp + 4), stack := t.stack[1..]), x, s.stack[0].value);
        }
      case Bin(op, d, src) =>
        ReadMonotone(s, t, src);
        ReadMonotone(s, t, d);
        if d == Esp && src.Imm? {
          AdjustMonotone(s, t, src.n);
          AdjustMonotone(s, t, -src.n);
        } else if StepBin(s, op, d, src).Some? {
          var v := if op == Mov then Read(s, src).value else Binary(op, Read(s, d).value, Read(s, src).value);
          WriteMonotone(s, t, d, v);
        }
      case Un(op, d) =>
        ReadMonotone(s, t, d);
        if Read(s, d).Some? { WriteMonotone(s, t, d, Unary(op, Read(s, d).value)); }
      case Xchg(a, b) =>
        ReadMonotone(s, t, a);
        ReadMonotone(s, t, b);
        if StepXchg(s, a, b).Some? {
          WriteMonotone(s, t, a, Read(s, b).value);
          WriteMonotone(Write(s, a, Read(s, b).value).value, Write(t, a, Read(s, b).value).value, b, Read(s, a).value);
        }
      case Lea(d, base, disp) =>
        AdjustMonotone(s, t, disp);
        LeqFields(s, t);
        if d.Gpr? && base.Gpr? {
          WriteMonotone(s, t, d, ToWord(s.regs[base.r] + disp));
        } else if d.Gpr? && base == Esp {
          WriteMonotone(s, t, d, ToWord(s.esp + disp));
        }
    }
  }

  lemma LeqFields(s: State, t: State)
    requires Leq(s, t)
    ensures s.regs == t.regs && s.esp == t.esp && |s.stack| == |t.stack|
  {
  }

  lemma ReadMonotone(s: State, t: State, o: Operand)
    requires Valid(s) && Valid(t) && Leq(s, t)
    ensures Read(s, o).Some? ==> Read(s, o) == Read(t, o)
  {
  }

  lemma WriteMonotone(s: State, t: State, o: Operand, v: Word)
    requires Valid(s) && Valid(t) && Leq(s, t)
    ensures Outcome(Write(s, o, v), Write(t, o, v))
  {
  }

  lemma AdjustMonotone(s: State, t: State, n: int)
    requires Valid(s) && Valid(t) && Leq(s, t)
    ensures Outcome(Adjust(s, n), Adjust(t, n))
  {
  }

  lemma PushMonotone(s: State, t: State, v: Word)
    requires Leq(s, t)
    ensures Leq(s.(esp := ToWord(s.esp - 4), stack := [Some(v)] + s.stack),
                t.(esp := ToWord(t.esp - 4), stack := [Some(v)] + t.stack))
  {
  }

  lemma PopMonotone(s: State, t: State)
    requires Leq(s, t) && s.stack != [] && s.stack[0].Some?
    ensures t.stack != [] && t.stack[0] == s.stack[0]
    ensures Leq(s.(esp := ToWord(s.esp + 4), stack := s.stack[1..]),
                t.(esp := ToWord(t.esp + 4), stack := t.stack[1..]))
  {
  }

  lemma {:induction false} ExecMonotone(p: seq<Instr>, s: State, t: State)
    requires Valid(s) && Valid(t) && Leq(s, t)
    ensures Outcome(Exec(p, s), Exec(p, t))
    decreases |p|
  {
    hide Step, Leq;
    if p != [] {
      StepMonotone(p[0], s, t);
      if Step(p[0], s).Some? {
        ExecMonotone(p[1..], Step(p[0], s).value, Step(p[0], t).value);
      }
    }
  }

  lemma {:induction false} ExecConcat(p: seq<Instr>, q: seq<Instr>, s: State)
    requires Valid(s)
    ensures Exec(p + q, s) == match Exec(p, s) case None => None case Some(t) => Exec(q, t)
    decreases |p|
  {
    hide Step;
    if p == [] {
      assert p + q == q;
    } else {
      assert (p + q)[1..] == p[1..] + q;
      if Step(p[0], s).Some? { ExecConcat(p[1..], q, Step(p[0], s).value); }
    }
  }

  lemma LeqTransitive(s: State, t: State, u: State)
    requires Leq(s, t) && Leq(t, u)
    ensures Leq(s, u)
  {
  }

  lemma PreservesSelf(p: seq<Instr>)
    ensures Preserves(p, p)
  {
  }

  lemma PreservesTransitive(p: seq<Instr>, q: seq<Instr>, r: seq<Instr>)
    requires Preserves(p, q) && Preserves(q, r)
    ensures Preserves(p, r)
  {
    forall s: State | Valid(s) ensures Outcome(Exec(p, s), Exec(r, s)) {
      assert Outcome(Exec(p, s), Exec(q, s)) && Outcome(Exec(q, s), Exec(r, s));
      hide Exec;
    }
  }

  /** Replacing a part of a trace preserves what the whole trace does. */
  lemma PreservesInContext(before: seq<Instr>, p: seq<Instr>, q: seq<Instr>, after: seq<Instr>)
    requires Preserves(p, q)
    ensures Preserves(before + p + after, before + q + after)
  {
    hide Exec, Leq;
    forall s: State | Valid(s)
      ensures Outcome(Exec(before + p + after, s), Exec(before + q + after, s))
    {
      ExecConcat(before + p, after, s);
      ExecConcat(before, p, s);
      ExecConcat(before + q, after, s);
      ExecConcat(before, q, s);
      if Exec(before, s).Some? {
        var t := Exec(before, s).value;
        assert Outcome(Exec(p, t), Exec(q, t));
        if Exec(p, t).Some? {
          ExecMonotone(after, Exec(p, t).value, Exec(q, t).value);
        }
      }
    }
  }
}
