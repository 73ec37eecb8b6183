/** Peephole.Safe is exact: on every window whose records run, the rewrite the code makes preserves
    the window if and only if the condition holds; and fifteen rules have windows on which it fails. */
module PeepholeExact {
  import opened Wrappers
  import opened Machine
  import opened Peephole
  import opened PeepholeFaithful
  import opened PeepholeExactMoves
  import opened PeepholeExactStack

  lemma RewriteIsExact(w: Window)
    requires Rewrite(w).Some? && Fires(w, Rewrite(w).value.rule)
    ensures Faithful(w) <==> Safe(w, Rewrite(w).value.rule)
  {
    hide Rewrite, Fires, Faithful, Safe;
    match Rewrite(w).value.rule {
      case PushMovTop => PushMovTopIsExact(w);
      case SubMovTop => SubMovTopIsExact(w);
      case SaveMovMovRestore => SaveMovMovRestoreIsExact(w);
      case NegBySub => NegBySubIsExact(w);
      case PushAddPop => PushAddPopIsExact(w);
      case SaveOpRestore => SaveOpRestoreIsExact(w);
      case PushOpPop => PushOpPopIsExact(w);
      case SwapPush => SwapPushIsExact(w);
      case AddOpSub => AddOpSubIsExact(w);
      case MovZeroAdd => MovZeroAddIsExact(w);
      case DeadMov => DeadMovIsExact(w);
      case MovOpCancel => MovOpCancelIsExact(w);
      case XorPair => XorPairIsExact(w);
      case LeaLea => LeaLeaIsExact(w);
      case DeadStackOp => DeadStackOpIsExact(w);
      case _ => Unconditional(w); SafeIsFaithful(w);
    }
  }

  /** A window on which the rule fires and changes what the trace does. */
  function FailingWindow(rule: Rule): Option<Window> {
    match rule
    case PushMovTop => Some([Push(Gpr(0)), Bin(Mov, Stk(1), Gpr(1))])
    case SubMovTop => Some([Bin(Sub, Esp, Imm(0x10004)), Bin(Mov, Stk(0), Gpr(0))])
    case SaveMovMovRestore => Some([Push(Gpr(0)), Bin(Mov, Gpr(0), Gpr(1)), Bin(Mov, Gpr(0), Gpr(0)), Pop(Gpr(0))])
    case NegBySub =>
      Some([Push(Gpr(0)), Bin(Mov, Gpr(0), Imm(0)), Bin(Sub, Gpr(0), Stk(1)), Xchg(Gpr(0), Stk(1)), Pop(Gpr(0))])
    case PushAddPop => Some([Push(Gpr(0)), Bin(Add, Stk(0), Gpr(1)), Pop(Gpr(1))])
    case SaveOpRestore => Some([Push(Gpr(0)), Bin(Add, Gpr(0), Stk(0)), Pop(Gpr(0))])
    case PushOpPop => Some([Push(Imm(5)), Bin(Sub, Stk(0), Gpr(0)), Pop(Gpr(0))])
    case SwapPush => Some([Push(Stk(0)), Bin(Add, Stk(1), Imm(5))])
    case AddOpSub => Some([Bin(Add, Gpr(0), Gpr(0)), Bin(Add, Gpr(0), Gpr(1)), Bin(Sub, Gpr(0), Gpr(0))])
    case MovZeroAdd => Some([Bin(Mov, Gpr(0), Imm(0)), Bin(Add, Gpr(0), Gpr(0))])
    case DeadMov => Some([Bin(Mov, Gpr(0), Gpr(1)), Bin(Mov, Gpr(0), Gpr(0))])
    case MovOpCancel => Some([Bin(Mov, Stk(0), Imm(5)), Bin(Add, Esp, Imm(4)), Bin(Sub, Stk(0), Imm(5))])
    case XorPair => Some([Bin(XorOp, Gpr(0), Gpr(0)), Bin(XorOp, Gpr(0), Gpr(0))])
    case LeaLea => Some([Lea(Esp, Esp, 4), Lea(Esp, Esp, 8)])
    case DeadStackOp => Some([Xchg(Stk(0), Gpr(0)), Bin(Mov, Stk(0), Gpr(1))])
    case _ => None
  }

  /** The conditions are needed where there is one, and hold of every window where there is none. */
  lemma ConditionsMatter(rule: Rule, w: Window)
    ensures FailingWindow(rule) == Some(w) ==> Fires(w, rule) && !Faithful(w)
    ensures FailingWindow(rule).None? && Rewrite(w).Some? && Rewrite(w).value.rule == rule ==>
              Safe(w, rule) && Faithful(w)
  {
    if FailingWindow(rule) == Some(w) {
      FailingFires(rule, w);
      hide FailingWindow, Fires, Safe, Rewrite, Faithful;
      RewriteIsExact(w);
    } else if FailingWindow(rule).None? && Rewrite(w).Some? && Rewrite(w).value.rule == rule {
      hide Rewrite, Faithful;
      Unconditional(w);
      SafeIsFaithful(w);
    }
  }

  lemma FailingFires(rule: Rule, w: Window)
    requires FailingWindow(rule) == Some(w)
    ensures Fires(w, rule) && !Safe(w, rule)
  {
    if rule in {PushMovTop, SaveMovMovRestore, NegBySub} {
      FailingSaves(rule, w);
    } else if rule in {PushAddPop, SaveOpRestore, PushOpPop, SwapPush} {
      FailingPushes(rule, w);
    } else if rule in {MovZeroAdd, DeadMov, MovOpCancel} {
      FailingLoads(rule, w);
    } else if rule in {SubMovTop, AddOpSub} {
      FailingSums(rule, w);
    } else {
      hide RewritePush, RewriteMov, RewriteAdd, RewriteSub;
    }
  }

  lemma FailingSums(rule: Rule, w: Window)
    requires FailingWindow(rule) == Some(w) && rule in {SubMovTop, AddOpSub}
    ensures Fires(w, rule) && !Safe(w, rule)
  {
    assert Rewrite(w) == if rule == AddOpSub then RewriteAdd(w) else RewriteSub(w);
  }

  lemma FailingSaves(rule: Rule, w: Window)
    requires FailingWindow(rule) == Some(w) && rule in {PushMovTop, SaveMovMovRestore, NegBySub}
    ensures Fires(w, rule) && !Safe(w, rule)
  {
    assert Rewrite(w) == RewritePushMov(w);
  }

  lemma FailingPushes(rule: Rule, w: Window)
    requires FailingWindow(rule) == Some(w) && rule in {PushAddPop, SaveOpRestore, PushOpPop, SwapPush}
    ensures Fires(w, rule) && !Safe(w, rule)
  {
    hide RewritePushMov;
    assert Rewrite(w) == RewritePush(w);
  }

  lemma FailingLoads(rule: Rule, w: Window)
    requires FailingWindow(rule) == Some(w) && rule in {MovZeroAdd, DeadMov, MovOpCancel}
    ensures Fires(w, rule) && !Safe(w, rule)
  {
    assert Rewrite(w) == RewriteMov(w);
  }

  lemma Unconditional(w: Window)
    requires Rewrite(w).Some? && FailingWindow(Rewrite(w).value.rule).None?
    ensures Safe(w, Rewrite(w).value.rule)
  {
    hide Rewrite;
  }
}
