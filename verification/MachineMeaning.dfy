/** What the instructions of Machine.dfy do to the bits and bytes of a word, to what the operands read, and
    to the words above the stack pointer. */
module MachineMeaning {
  import opened Wrappers
  import opened Words
  import opened Machine

  // ------------------------------------------------------------------ results

  /** The bitwise operations work on each bit by itself. */
  lemma BitsExactly(v: Word, w: Word, i: nat)
    requires i < 32
    ensures Bit(Binary(AndOp, v, w), i) <==> Bit(v, i) && Bit(w, i)
    ensures Bit(Binary(OrOp, v, w), i) <==> Bit(v, i) || Bit(w, i)
    ensures Bit(Binary(XorOp, v, w), i) <==> Bit(v, i) != Bit(w, i)
    ensures Bit(Unary(Not, v), i) <==> !Bit(v, i)
    ensures Bit(v, i) <==> v / Pow2(i) % 2 == 1
  {
    BitsOfAnd(v, w, i);
    BitsOfOr(v, w, i);
    BitsOfXor(v, w, i);
    BitsOfNot(v, i);
    BitIsDigit(v, i);
  }

  /** Sums and differences wrap around at 2^32. */
  lemma SumsExactly(v: Word, w: Word)
    ensures Binary(Add, v, w) == if v + w < 0x1_0000_0000 then v + w else v + w - 0x1_0000_0000
    ensures Binary(Sub, v, w) == if w <= v then v - w else v + 0x1_0000_0000 - w
    ensures Unary(Neg, v) == if v == 0 then 0 else 0x1_0000_0000 - v
    ensures Unary(Inc, v) == if v == 0xffff_ffff then 0 else v + 1
    ensures Unary(Dec, v) == if v == 0 then 0xffff_ffff else v - 1
    ensures Binary(Mov, v, w) == w
  {
  }

  /** A byte swap exchanges the outer and the inner bytes. */
  lemma ByteSwapExactly(v: Word)
    ensures var w := Unary(ByteSwap, v);
            && w % 0x100 == v / 0x100_0000 && w / 0x100 % 0x100 == v / 0x1_0000 % 0x100
            && w / 0x1_0000 % 0x100 == v / 0x100 % 0x100 && w / 0x100_0000 == v % 0x100
  {
    Bytes(v % 0x100, v / 0x100 % 0x100, v / 0x1_0000 % 0x100, v / 0x100_0000);
  }

  // ------------------------------------------------------------------ operands

  /** A write is read back, and no other register or stack word changes. */
  lemma WrittenIsRead(s: State, o: Operand, v: Word, p: Operand)
    requires Valid(s)
    ensures Write(s, o, v).Some? <==> o.Gpr? || (o.Stk? && o.k < |s.stack|)
    ensures Write(s, o, v).Some? ==>
              var t := Write(s, o, v).value;
              Valid(t) && Read(t, p) == (if p == o then Some(v) else Read(s, p)) && |t.stack| == |s.stack|
  {
  }

  lemma ConstantsWrap(s: State, n: int)
    requires Valid(s)
    ensures Read(s, Imm(n)) == Some(n % 0x1_0000_0000) && Read(s, Esp) == Some(s.esp)
  {
  }

  /** mov copies, the other operations combine what destination and source held before. */
  lemma OperationExactly(s: State, op: BinOp, d: Operand, src: Operand, p: Operand)
    requires Valid(s) && d != Esp && Step(Bin(op, d, src), s).Some?
    ensures var t := Step(Bin(op, d, src), s).value;
            && Read(s, src).Some? && (op != Mov ==> Read(s, d).Some?)
            && Read(t, d) == (if op == Mov then Read(s, src)
                              else Some(Binary(op, Read(s, d).value, Read(s, src).value)))
            && (p != d ==> Read(t, p) == Read(s, p)) && |t.stack| == |s.stack|
  {
    WrittenIsRead(s, d, if op == Mov then Read(s, src).value else Binary(op, Read(s, d).value, Read(s, src).value), p);
    hide Binary;
  }

  lemma UnaryExactly(s: State, op: UnOp, d: Operand, p: Operand)
    requires Valid(s) && Step(Un(op, d), s).Some?
    ensures var t := Step(Un(op, d), s).value;
            && Read(s, d).Some? && Read(t, d) == Some(Unary(op, Read(s, d).value))
            && (p != d ==> Read(t, p) == Read(s, p)) && |t.stack| == |s.stack|
  {
    WrittenIsRead(s, d, Unary(op, Read(s, d).value), p);
    hide Unary;
  }

  lemma ExchangeExactly(s: State, a: Operand, b: Operand, p: Operand)
    requires Valid(s) && Step(Xchg(a, b), s).Some?
    ensures var t := Step(Xchg(a, b), s).value;
            && Read(t, a) == Read(s, b) && Read(t, b) == Read(s, a)
            && (p != a && p != b ==> Read(t, p) == Read(s, p)) && |t.stack| == |s.stack|
  {
  }

  /** lea takes the address, modulo 2^32, and reads no memory. */
  lemma AddressExactly(s: State, d: Operand, base: Operand, disp: int, p: Operand)
    requires Valid(s) && d != Esp && Step(Lea(d, base, disp), s).Some?
    ensures var t := Step(Lea(d, base, disp), s).value;
            && Read(s, base).Some? && Read(t, d) == Some((Read(s, base).value + disp) % 0x1_0000_0000)
            && (p != d ==> Read(t, p) == Read(s, p)) && |t.stack| == |s.stack|
  {
  }

  // ------------------------------------------------------------------ the stack

  /** push lowers esp by 4, puts the value on top and moves every other word one place away. */
  lemma PushExactly(s: State, x: Operand, k: nat)
    requires Valid(s) && Step(Push(x), s).Some?
    ensures var t := Step(Push(x), s).value;
            && t.regs == s.regs && (t.esp + 4) % 0x1_0000_0000 == s.esp && |t.stack| == |s.stack| + 1
            && Read(t, Stk(0)) == Read(s, x) && Read(t, Stk(k + 1)) == Read(s, Stk(k))
  {
  }

  /** A pop into a register takes the top word and undoes what the push did to the stack. */
  lemma PopExactly(s: State, x: Operand, r: RegNo)
    requires Valid(s) && Step(Push(x), s).Some?
    ensures Read(s, x).Some?
    ensures Step(Pop(Gpr(r)), Step(Push(x), s).value) == Some(s.(regs := s.regs[r := Read(s, x).value]))
  {
    var t := Step(Push(x), s).value;
    assert t.stack[1..] == s.stack;
  }

  /** pop [esp + 4 * k] writes the word that many places below the one it took. */
  lemma PopToStack(s: State, k: nat, j: nat)
    requires Valid(s) && Step(Pop(Stk(k)), s).Some?
    ensures var t := Step(Pop(Stk(k)), s).value;
            && t.regs == s.regs && t.esp == (s.esp + 4) % 0x1_0000_0000 && |t.stack| + 1 == |s.stack|
            && Read(t, Stk(j)) == if j == k then Read(s, Stk(0)) else Read(s, Stk(j + 1))
  {
  }

  /** add esp, 4 * n and lea esp, [esp + 4 * n] drop n words. */
  lemma DroppedWords(s: State, n: nat, k: nat)
    requires Valid(s)
    ensures Step(Lea(Esp, Esp, 4 * n), s) == Step(Bin(Add, Esp, Imm(4 * n)), s)
    ensures Step(Bin(Add, Esp, Imm(4 * n)), s).Some? <==> n <= |s.stack|
    ensures n <= |s.stack| ==>
              var t := Step(Bin(Add, Esp, Imm(4 * n)), s).value;
              && t.regs == s.regs && t.esp == (s.esp + 4 * n) % 0x1_0000_0000 && |t.stack| + n == |s.stack|
              && Read(t, Stk(k)) == Read(s, Stk(k + n))
  {
    FourTimes(n);
  }

  /** sub esp, 4 * n and lea esp, [esp - 4 * n] make room for n words without a value. */
  lemma RoomForWords(s: State, n: nat, k: nat)
    requires Valid(s)
    ensures Step(Lea(Esp, Esp, -4 * n), s) == Step(Bin(Sub, Esp, Imm(4 * n)), s)
    ensures Step(Bin(Sub, Esp, Imm(4 * n)), s).Some?
    ensures var t := Step(Bin(Sub, Esp, Imm(4 * n)), s).value;
            && t.regs == s.regs && t.esp == (s.esp - 4 * n) % 0x1_0000_0000 && |t.stack| == |s.stack| + n
            && Read(t, Stk(k)) == if k < n then None else Read(s, Stk(k - n))
  {
    FourTimes(n);
    var t := Step(Bin(Sub, Esp, Imm(4 * n)), s).value;
    assert t.stack == seq(n, _ => None) + s.stack;
  }

  lemma FourTimes(n: nat)
    ensures (4 * n) / 4 == n && (4 * n) % 4 == 0 && (-4 * n) % 4 == 0 && -(-4 * n) == 4 * n
  {
  }

  // ------------------------------------------------------------------ preservation

  /** What it means that q preserves p: where p runs, so does q, with the same stack pointer and the same number
      of stack words, and every operand that has a value after p has it after q. */
  lemma PreservationMeans(p: seq<Instr>, q: seq<Instr>, s: State, o: Operand)
    requires Preserves(p, q) && Valid(s) && Exec(p, s).Some?
    ensures Exec(q, s).Some?
    ensures var t, u := Exec(p, s).value, Exec(q, s).value;
            && u.esp == t.esp && |u.stack| == |t.stack|
            && (Read(t, o).Some? ==> Read(u, o) == Read(t, o))
  {
    hide Exec, Read;
    assert Outcome(Exec(p, s), Exec(q, s));
    LeqFields(Exec(p, s).value, Exec(q, s).value);
    ReadMonotone(Exec(p, s).value, Exec(q, s).value, o);
  }
}
