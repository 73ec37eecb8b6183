/** What a round of the optimiser does to the records, in terms of the rule table, and what the loop leaves:
    traces in which no pattern of the table is left. */
module PeepholeNormal {
  import opened Wrappers
  import opened Words
  import opened Machine
  import opened Peephole
  import opened PeepholeTable
  import opened PeepholePass
  import opened PeepholeCode

  // ------------------------------------------------------------------ folded constants

  /** What the folded constant is, as a number for sums and differences and bit by bit for the others. */
  lemma FoldsExactly(n: int, m: int, i: nat)
    requires i < 32
    ensures FoldBinary(Add, n, m) == n + m && FoldBinary(Sub, n, m) == n - m
    ensures FoldUnary(Neg, n) == -n && FoldUnary(Inc, n) == n + 1 && FoldUnary(Dec, n) == n - 1
    ensures var a: nat, b: nat := n % 0x1_0000_0000, m % 0x1_0000_0000;
            var both, either, one := FoldBinary(AndOp, n, m), FoldBinary(OrOp, n, m), FoldBinary(XorOp, n, m);
            && 0 <= both < 0x1_0000_0000 && (Bit(both, i) <==> Bit(a, i) && Bit(b, i))
            && 0 <= either < 0x1_0000_0000 && (Bit(either, i) <==> Bit(a, i) || Bit(b, i))
            && 0 <= one < 0x1_0000_0000 && (Bit(one, i) <==> Bit(a, i) != Bit(b, i))
            && (Bit(FoldUnary(Not, n) % 0x1_0000_0000, i) <==> !Bit(a, i))
  {
    var a, b := ToWord(n), ToWord(m);
    hide Bit, And, Or, Xor;
    BitsOfAnd(a, b, i);
    BitsOfOr(a, b, i);
    BitsOfXor(a, b, i);
    BitsOfNot(a, i);
    assert (-n - 1) % 0x1_0000_0000 == NotWord(a);
  }

  /** mov eax, 6; and eax, 3 becomes mov eax, 2. */
  lemma FoldedAnd()
    ensures Rewrite([Bin(Mov, Gpr(0), Imm(6)), Bin(AndOp, Gpr(0), Imm(3))]) ==
            Some(Patch(MovFold, [Some(Bin(Mov, Gpr(0), Imm(2))), None], true))
  {
    assert And(6, 3) == 2;
    var w: Window := [Bin(Mov, Gpr(0), Imm(6)), Bin(AndOp, Gpr(0), Imm(3))];
    assert Matches(w, MovFold) && Left(w, MovFold) == [Some(Bin(Mov, Gpr(0), Imm(2))), None];
    forall r | Matches(w, r) ensures Place(MovFold) <= Place(r) {
    }
    FirstIsApplied(w, MovFold);
  }

  // ------------------------------------------------------------------ one round

  /** A window takes the next six records, or the up to five that are left if there are at least two; there
      is none if one of them is flagged. */
  lemma WindowExactly(t: seq<Record>, i: nat)
    requires i <= |t|
    ensures var n := if i + 6 <= |t| then 6 else |t| - i;
            && (WindowAt(t, i).Some? <==> n >= 2 && forall j :: i <= j < i + n ==> !t[j].flagged)
            && (WindowAt(t, i).Some? ==>
                  |WindowAt(t, i).value| == n && forall j :: 0 <= j < n ==> WindowAt(t, i).value[j] == t[i + j].ins)
  {
  }

  /** The records behind record i after a patch: those it keeps are written, those it drops are flagged. */
  predicate Overwritten(t: seq<Record>, u: seq<Record>, i: nat, out: seq<Slot>) {
    && |u| == |t| && i + |out| <= |t|
    && (forall j :: 0 <= j < |t| && !(i <= j < i + |out|) ==> u[j] == t[j])
    && (forall j :: 0 <= j < |out| ==>
          match out[j]
          case None => u[i + j].flagged && u[i + j].ins == t[i + j].ins
          case Some(ins) => !u[i + j].flagged && u[i + j].ins == ins)
  }

  /** One round of a pass: without a match nothing happens; otherwise the first rule of the table that matches
      is applied, and counted unless it removes an exchange of an operand with itself. */
  lemma RoundByTable(p: Progress, i: nat)
    requires i <= |p.trace|
    ensures var w := WindowAt(p.trace, i);
            && (w.None? ==> PassStep(p, i) == p)
            && (w.Some? ==>
                  && 2 <= |w.value| <= 6
                  && ((forall r :: !Matches(w.value, r)) ==> PassStep(p, i) == p)
                  && (forall r :: FirstMatch(w.value, r) ==>
                        && Overwritten(p.trace, PassStep(p, i).trace, i, Left(w.value, r))
                        && PassStep(p, i).count == p.count + (if r == SelfXchg then 0 else 1)))
  {
    var w := WindowAt(p.trace, i);
    if w.Some? {
      WindowIsWindow(p.trace, i);
      RewriteByTable(w.value);
      forall r | FirstMatch(w.value, r)
        ensures Rewrite(w.value) == Some(Patch(r, Left(w.value, r), r != SelfXchg))
      {
        FirstIsApplied(w.value, r);
      }
      if Rewrite(w.value).Some? {
        PatchFits(w.value);
        PatchInContext(p.trace, i, Rewrite(w.value).value.out);
        PatchOverwrites(p.trace, i, Rewrite(w.value).value.out);
      }
      hide Rewrite, Matches, Left, Place, Overwritten, FirstMatch, Patched, Safe, WindowAt;
    }
  }

  /** The rule matches, and no rule before it in the table does. */
  ghost predicate FirstMatch(w: Window, rule: Rule) {
    Matches(w, rule) && forall r :: Matches(w, r) ==> Place(rule) <= Place(r)
  }

  lemma PlacesDiffer(r: Rule, r': Rule)
    ensures Place(r) == Place(r') ==> r == r'
  {
  }

  lemma FirstIsApplied(w: Window, rule: Rule)
    requires FirstMatch(w, rule)
    ensures Rewrite(w) == Some(Patch(rule, Left(w, rule), rule != SelfXchg))
  {
    hide Rewrite, Matches, Left, Place;
    RewriteByTable(w);
    if Rewrite(w).Some? { PlacesDiffer(rule, Rewrite(w).value.rule); }
  }

  lemma PatchOverwrites(t: seq<Record>, i: nat, out: seq<Slot>)
    requires i + |out| <= |t|
    ensures Overwritten(t, Patched(t, i, out), i, out)
  {
    var u := Patched(t, i, out);
    forall j | 0 <= j < |out|
      ensures u[i + j] == if out[j].Some? then Record(out[j].value, false) else Record(t[i + j].ins, true)
    {
      assert u[i + j] == Written(t[i..i + |out|], out)[j];
    }
  }

  // ------------------------------------------------------------------ what the loop leaves

  /** Some window of the trace shows the pattern of a rule. */
  ghost predicate ShowsPattern(t: seq<Record>, i: nat, rule: Rule)
    requires i <= |t|
  {
    WindowAt(t, i).Some? && 2 <= |WindowAt(t, i).value| <= 6 && Matches(WindowAt(t, i).value, rule)
  }

  /** A trace is quiet exactly when it shows no pattern of the table. */
  lemma QuietByTable(t: seq<Record>)
    ensures Quiet(t) <==> forall i, r :: 0 <= i < |t| ==> !ShowsPattern(t, i, r)
  {
    if Quiet(t) {
      forall i, r | 0 <= i < |t| ensures !ShowsPattern(t, i, r) {
        assert AtRest(t, i);
        RestByTable(t, i);
      }
    } else {
      var i :| 0 <= i < |t| && !AtRest(t, i);
      RestByTable(t, i);
    }
  }

  lemma RestByTable(t: seq<Record>, i: nat)
    requires i <= |t|
    ensures AtRest(t, i) <==> forall r :: !ShowsPattern(t, i, r)
  {
    hide Rewrite, Matches, Left, Place, WindowAt;
    if WindowAt(t, i).Some? {
      WindowIsWindow(t, i);
      var p := Rewrite(WindowAt(t, i).value);
      RewriteByTable(WindowAt(t, i).value);
      if p.Some? { assert ShowsPattern(t, i, p.value.rule); }
    }
  }

  /** When its last pass has no exchange of an operand with itself to remove, the loop ends with a trace that
      shows no pattern of the table; and it changes every trace that shows one. */
  lemma LoopRemovesEveryPattern(t: seq<Record>, i: nat, rule: Rule)
    requires Unflagged(t)
    ensures NoSelfExchange(LastTrace(t)) && i < |Fixpoint(t).trace| ==> !ShowsPattern(Fixpoint(t).trace, i, rule)
    ensures i < |t| && ShowsPattern(t, i, rule) ==> Fixpoint(t).trace != t
  {
    StopsAtAFixpoint(t);
    hide ShowsPattern, Fixpoint, LastTrace, Quiet;
    QuietByTable(Fixpoint(t).trace);
    QuietByTable(t);
  }
}
