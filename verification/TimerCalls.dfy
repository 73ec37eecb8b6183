/** What the calls of the timer interface mean for the runs that follow them: when a timer fires after its
    registration or activation, that it does not after its deactivation or removal, and which slots and which
    bound each call leaves behind. */
module TimerCalls {
  import opened Wrappers
  import opened NaiveScheduler
  import opened TimerRuns
  import opened TimerDevices

  /** A timer armed at `now` with period q has fired these many times, at these times, after n ticks. */
  predicate FiredSince(times: seq<nat>, now: nat, q: nat, active: bool, continuous: bool, n: nat)
    requires q > 0
  {
    && |times| == (if !active then 0 else if continuous then n / q else if q <= n then 1 else 0)
    && forall j :: 0 <= j < |times| ==> times[j] == now + (j + 1) * q
  }

  lemma FiredOnce(now: nat, q: nat, n: nat)
    requires q > 0
    ensures FiredSince(if q <= n then [now + q] else [], now, q, true, false, n)
  {
  }

  lemma FiredRepeatedly(times: seq<nat>, now: nat, q: nat, n: nat)
    requires OnSchedule(times, now + q, q, now, n)
    ensures q > 0 && FiredSince(times, now, q, true, true, n)
  {
    forall j | 0 <= j < |times| ensures times[j] == now + (j + 1) * q {
      assert (j + 1) * q == q + j * q;
    }
  }

  /** The times at which slot i has fired beyond those in the log before. */
  predicate FiredAt(before: seq<Firing>, after: seq<Firing>, i: nat, times: seq<nat>) {
    FiringsOf(after, i) == FiringsOf(before, i) + times
  }

  /** A slot that has just been armed with period q, and is left alone, fires as it was armed to. */
  lemma ArmedSlotFires(p: Callbacks, v: View, ops: seq<Op>, i: nat, q: nat) returns (times: seq<nat>)
    requires WellBehaved(p) && Spares(p, i) && ValidView(v) && LegalRun(p, v, ops) && RunSpares(ops, i)
    requires i < MAX_TIMERS && v.timers[i].inUse && v.timers[i].funct.Some?
    requires v.timers[i].period == q > 0 && (v.timers[i].active ==> v.timers[i].timeToFire == v.now + q)
    ensures FiredAt(v.log, Run(p, v, ops).log, i, times)
    ensures FiredSince(times, v.now, q, v.timers[i].active, v.timers[i].continuous, Elapsed(ops))
  {
    var t, n := v.timers[i], Elapsed(ops);
    hide WellBehaved, Spares, Run, LegalRun, FiringsOf, FiringTimes, RunSpares, TableOk, FiredSince, OnSchedule;
    if !t.active {
      InactiveStaysQuiet(p, v, ops, i);
      times := [];
      NeverFired(v.now, q, t.continuous, n);
    } else if t.continuous {
      ContinuousTimerNeverDrifts(p, v, ops, i);
      times := FiringTimes(t, v.now, n);
      FiredRepeatedly(times, v.now, q, n);
    } else {
      OneShotTimerFiresOnce(p, v, ops, i);
      times := if q <= n then [v.now + q] else [];
      FiredOnce(v.now, q, n);
    }
  }

  lemma NeverFired(now: nat, q: nat, continuous: bool, n: nat)
    requires q > 0
    ensures FiredSince([], now, q, false, continuous, n)
  {
  }

  // ------------------------------------------------------------------ registration

  /** The slot a registration takes is the first that is not in use, and afterwards it holds what was asked
      for; a period of 0 counts as 1. */
  lemma RegistrationTakesFirstFree(v: View, h: Option<Handler>, ticks: Ticks, continuous: bool, active: bool)
    requires ValidView(v) && h != Some(NullTimer)
    ensures var c := Register(h, ticks, continuous, active);
            && Legal(v, c) && 1 <= v.num <= 64 == |v.timers|
            && (v.num == 64 ==> RegisteredSlot(v) == None && Apply(v, c) == v)
            && (v.num < 64 ==>
                  && RegisteredSlot(v).Some? && 1 <= RegisteredSlot(v).value <= v.num
                  && Taken(v, RegisteredSlot(v).value, c, Apply(v, c)))
  {
    if v.num < MAX_TIMERS {
      assert SlotOk(v.timers[v.num], v.num, v.num, v.now, v.now + 1);
    }
  }

  /** r is v with slot s, the first one that was free, filled as the registration c asks. */
  predicate Taken(v: View, s: nat, c: Call, r: View)
    requires c.Register? && 1 <= s <= v.num < 64 == |v.timers|
  {
    && !v.timers[s].inUse && (forall j :: 1 <= j < s ==> v.timers[j].inUse)
    && |r.timers| == 64 && (forall j :: 0 <= j < 64 && j != s ==> r.timers[j] == v.timers[j])
    && Holds(r.timers[s], v.now, if c.ticks == 0 then 1 else c.ticks, c)
    && (s < v.num ==> r.num == v.num) && (s == v.num ==> r.num == s + 1)
    && r.now == v.now && r.triggered == v.triggered && r.world == v.world && r.log == v.log
  }

  predicate Holds(t: Timer, now: nat, q: nat, c: Call)
    requires c.Register?
  {
    && t.inUse && t.period == q && t.timeToFire == now + q
    && t.active == c.active && t.continuous == c.continuous && t.funct == c.handler && t.param == 0
  }

  /** A registered timer that nothing else operates on fires as it was registered to: every q ticks, once
      after q ticks, or never while it is inactive. */
  lemma RegisteredTimerFires(
      p: Callbacks, v: View, ops: seq<Op>, k: nat, ticks: Ticks, continuous: bool, active: bool)
      returns (s: nat, times: seq<nat>)
    requires WellBehaved(p) && ValidView(v) && v.num < 64
    requires ValidView(Apply(v, Register(Some(Device(k)), ticks, continuous, active)))
    requires LegalRun(p, Apply(v, Register(Some(Device(k)), ticks, continuous, active)), ops)
    requires RegisteredSlot(v).Some? ==>
               Spares(p, RegisteredSlot(v).value) && RunSpares(ops, RegisteredSlot(v).value)
    ensures s < 64 == |v.timers| && !v.timers[s].inUse && RegisteredSlot(v) == Some(s)
    ensures var q := if ticks == 0 then 1 else ticks;
            var r := Run(p, Apply(v, Register(Some(Device(k)), ticks, continuous, active)), ops);
            && FiredAt(v.log, r.log, s, times) && FiredSince(times, v.now, q, active, continuous, Elapsed(ops))
  {
    var c := Register(Some(Device(k)), ticks, continuous, active);
    RegistrationTakesFirstFree(v, Some(Device(k)), ticks, continuous, active);
    s := RegisteredSlot(v).value;
    assert Taken(v, s, c, Apply(v, c));
    hide WellBehaved, ValidView, Spares, Run, LegalRun, FiringsOf, RunSpares, FiredSince, FiredAt;
    hide Apply, Legal, RegisteredSlot;
    times := ArmedSlotFires(p, Apply(v, c), ops, s, if ticks == 0 then 1 else ticks);
  }

  // ------------------------------------------------------------------ activation and deactivation

  /** An activated timer that nothing else operates on fires from then on with the period given, 0 counting
      as 1: again and again or once, as it was activated. */
  lemma ActivatedTimerFires(p: Callbacks, v: View, ops: seq<Op>, i: nat, ticks: Ticks, continuous: bool)
      returns (times: seq<nat>)
    requires WellBehaved(p) && Spares(p, i) && ValidView(v) && RunSpares(ops, i)
    requires 1 <= i < v.num && v.timers[i].funct.Some?
    requires ValidView(Apply(v, Activate(i, ticks, continuous)))
    requires LegalRun(p, Apply(v, Activate(i, ticks, continuous)), ops)
    ensures var r := Run(p, Apply(v, Activate(i, ticks, continuous)), ops);
            && FiredAt(v.log, r.log, i, times)
            && FiredSince(times, v.now, if ticks == 0 then 1 else ticks, true, continuous, Elapsed(ops))
  {
    hide WellBehaved, Spares, Run, LegalRun, FiringsOf, RunSpares, FiredSince, FiredAt;
    times := ArmedSlotFires(p, Apply(v, Activate(i, ticks, continuous)), ops, i, if ticks == 0 then 1 else ticks);
  }

  /** A deactivated timer that nothing else operates on does not fire again and stays inactive. */
  lemma DeactivatedTimerIsSilent(p: Callbacks, v: View, ops: seq<Op>, i: nat)
    requires WellBehaved(p) && Spares(p, i) && ValidView(v) && RunSpares(ops, i)
    requires 1 <= i < v.num && v.timers[i].funct.Some?
    requires ValidView(Apply(v, Deactivate(i))) && LegalRun(p, Apply(v, Deactivate(i)), ops)
    ensures var r := Run(p, Apply(v, Deactivate(i)), ops);
            && FiredAt(v.log, r.log, i, []) && |r.timers| == 64
            && !r.timers[i].active && r.timers[i].inUse && r.timers[i].funct == v.timers[i].funct
  {
    hide WellBehaved, Spares, Run, LegalRun, FiringsOf, RunSpares;
    InactiveStaysQuiet(p, Apply(v, Deactivate(i)), ops, i);
  }

  /** Activation, deactivation and setting a parameter change nothing but these fields of the one slot. */
  lemma OneSlotChanges(v: View, i: nat, c: Call)
    requires ValidView(v) && Legal(v, c) && i < 64 && (c.Activate? || c.Deactivate? || c.SetParam?)
    ensures var r := Apply(v, c);
            && |r.timers| == |v.timers| == 64 && r == v.(timers := r.timers)
            && (c.index != i ==> r.timers[i] == v.timers[i])
            && (c.index == i ==>
                  && r.timers[i].inUse == v.timers[i].inUse && r.timers[i].funct == v.timers[i].funct
                  && r.timers[i].param == (if c.SetParam? then c.param else v.timers[i].param)
                  && r.timers[i].active == (c.Activate? || (c.SetParam? && v.timers[i].active))
                  && r.timers[i].continuous == (if c.Activate? then c.continuous else v.timers[i].continuous)
                  && (!c.Activate? ==> r.timers[i].period == v.timers[i].period
                                       && r.timers[i].timeToFire == v.timers[i].timeToFire))
  {
  }

  // ------------------------------------------------------------------ removal

  /** Removing an active timer is refused.  Otherwise the slot is free and without a handler; the bound
      drops by one when it was the last slot, whatever the slots below it hold. */
  lemma RemovalFreesTheSlot(v: View, i: nat, j: nat)
    requires ValidView(v) && 1 <= i < v.num && v.timers[i].inUse && j < 64
    ensures Legal(v, Unregister(i)) && 1 <= v.num <= 64 == |v.timers| == |Apply(v, Unregister(i)).timers|
    ensures v.timers[i].active ==> Apply(v, Unregister(i)) == v
    ensures var r := Apply(v, Unregister(i));
            !v.timers[i].active ==>
              && r == v.(timers := r.timers, num := r.num)
              && (j != i ==> r.timers[j] == v.timers[j])
              && !r.timers[i].inUse && !r.timers[i].active && r.timers[i].funct == None
              && r.timers[i].period == r.timers[i].timeToFire == 0x7fff_ffff_ffff_ffff
              && (i < v.num - 1 ==> r.num == v.num) && (i == v.num - 1 ==> r.num == i)
  {
  }

  /** A registration undone: the same slots are in use and hold what they held, and the next registration
      gets the same slot.  The bound is what it was, unless the slot taken was the last one below it. */
  lemma RemovalUndoesRegistration(v: View, h: Option<Handler>, ticks: Ticks, continuous: bool, j: nat)
    requires ValidView(v) && h != Some(NullTimer) && v.num < 64 && j < 64
    ensures RegisteredSlot(v).Some? && 1 <= RegisteredSlot(v).value < 64 == |v.timers|
    ensures var s := RegisteredSlot(v).value;
            var w := Apply(v, Register(h, ticks, continuous, false));
            && 1 <= w.num <= 64 == |w.timers| && Legal(w, Unregister(s))
            && var r := Apply(w, Unregister(s));
            && |r.timers| == 64 && r.timers[j].inUse == v.timers[j].inUse
            && (v.timers[j].inUse ==> r.timers[j] == v.timers[j])
            && r.num == (if s == v.num - 1 then s else v.num)
            && RegisteredSlot(r) == Some(s)
  {
    RegistrationTakesFirstFree(v, h, ticks, continuous, false);
    var s := RegisteredSlot(v).value;
    var w := Apply(v, Register(h, ticks, continuous, false));
    ApplyKeepsValid(v, Register(h, ticks, continuous, false));
    RemovalFreesTheSlot(w, s, j);
    var r := Apply(w, Unregister(s));
    ApplyKeepsValid(w, Unregister(s));
    RegistrationTakesFirstFree(r, h, ticks, continuous, false);
  }

  /** No device registers timers. */
  ghost predicate RegistersNone(p: Callbacks) {
    forall k, u :: ValidView(u) ==> forall c :: c in p(k, u).0 ==> !c.Register?
  }

  /** Slot j has no handler, and the log shows the same firings of it as before. */
  ghost predicate Empty(v: View, before: seq<Firing>, j: nat) {
    ValidView(v) && j < MAX_TIMERS && v.timers[j].funct == None && FiringsOf(v.log, j) == FiringsOf(before, j)
  }

  lemma FireStaysEmpty(p: Callbacks, v: View, slot: nat, j: nat, before: seq<Firing>)
    requires WellBehaved(p) && RegistersNone(p) && Empty(v, before, j)
    requires slot < MAX_TIMERS && v.timers[slot].funct.Some?
    ensures Empty(Fire(p, v, slot), before, j)
  {
    FireKeepsValid(p, v, slot);
    var h := v.timers[slot].funct.value;
    StaysEmpty(Called(v, slot, h), React(p, h, Called(v, slot, h)).0, j);
    FiringsOfAppend(v.log, Firing(v.now, slot, h), j);
  }

  lemma {:induction false} DeliverStaysEmpty(
      p: Callbacks, v: View, due: seq<bool>, from: nat, j: nat, before: seq<Firing>)
    requires WellBehaved(p) && RegistersNone(p) && Empty(v, before, j) && |due| == MAX_TIMERS && from <= MAX_TIMERS
    ensures Empty(Deliver(p, v, due, from), before, j)
    decreases MAX_TIMERS - from
  {
    hide WellBehaved, RegistersNone, Fire, FiringsOf;
    if from < MAX_TIMERS {
      DeliverUnfolds(p, v, due, from);
      if due[from] && v.timers[from].funct.Some? {
        FireStaysEmpty(p, v, from, j, before);
        DeliverStaysEmpty(p, Fire(p, v, from), due, from + 1, j, before);
      } else {
        DeliverStaysEmpty(p, v, due, from + 1, j, before);
      }
    } else {
      AllDelivered(p, v, due);
    }
  }

  lemma {:induction false} TicksStayEmpty(p: Callbacks, v: View, n: nat, j: nat, before: seq<Firing>)
    requires WellBehaved(p) && RegistersNone(p) && Empty(v, before, j) && v.now + n <= HORIZON
    ensures Empty(Ticked(p, v, n), before, j)
    decreases n
  {
    hide WellBehaved, RegistersNone, Deliver, FiringsOf;
    if n != 0 {
      var w := v.(now := v.now + 1);
      ScanKeepsValid(w);
      DeliverStaysEmpty(p, Scan(w), DueSlots(w), 0, j, before);
      TicksStayEmpty(p, Tick(p, v), n - 1, j, before);
    }
  }

  lemma {:induction false} RunStaysEmpty(p: Callbacks, v: View, ops: seq<Op>, j: nat, before: seq<Firing>)
    requires WellBehaved(p) && RegistersNone(p) && ValidView(v) && LegalRun(p, v, ops) && Empty(v, before, j)
    requires forall op :: op in ops && op.Use? ==> !op.call.Register?
    ensures Empty(Run(p, v, ops), before, j)
    decreases |ops|
  {
    hide WellBehaved, RegistersNone, Ticked, FiringsOf;
    if ops != [] {
      assert ops[0] in ops;
      match ops[0] {
        case Use(c) =>
          ApplyKeepsValid(v, c);
          RunStaysEmpty(p, Apply(v, c), ops[1..], j, before);
        case Pass(n) =>
          TicksStayEmpty(p, v, n, j, before);
          RunStaysEmpty(p, Ticked(p, v, n), ops[1..], j, before);
      }
    }
  }

  /** A removed timer does not fire any more as long as nothing is registered in its place, even if its slot
      is activated. */
  lemma RemovedTimerIsGone(p: Callbacks, v: View, ops: seq<Op>, i: nat)
    requires WellBehaved(p) && RegistersNone(p) && ValidView(v) && 1 <= i < v.num
    requires v.timers[i].inUse && !v.timers[i].active
    requires ValidView(Apply(v, Unregister(i))) && LegalRun(p, Apply(v, Unregister(i)), ops)
    requires forall op :: op in ops && op.Use? ==> !op.call.Register?
    ensures FiredAt(v.log, Run(p, Apply(v, Unregister(i)), ops).log, i, [])
  {
    hide WellBehaved, RegistersNone, Run, LegalRun, FiringsOf;
    RunStaysEmpty(p, Apply(v, Unregister(i)), ops, i, v.log);
  }

  // ------------------------------------------------------------------ the null timer

  /** From the initial state, as long as nothing sets its parameter, the timer in slot 0 fires exactly every
      2^32 - 1 ticks, however other timers are registered, armed and removed. */
  lemma NullTimerNeverStops(p: Callbacks, ops: seq<Op>) returns (times: seq<nat>)
    requires WellBehaved(p) && Spares(p, 0) && RunSpares(ops, 0)
    requires ValidView(Initial()) && LegalRun(p, Initial(), ops)
    ensures var r := Run(p, Initial(), ops);
            && FiringsOf(r.log, 0) == times && |times| == Elapsed(ops) / 4_294_967_295
            && forall j :: 0 <= j < |times| ==> times[j] == (j + 1) * 4_294_967_295
  {
    hide WellBehaved, Spares, Run, LegalRun, FiringsOf, RunSpares, FiredSince;
    times := ArmedSlotFires(p, Initial(), ops, 0, 4_294_967_295);
    assert FiringsOf([], 0) == [] by { EmptyLog(); }
    AlwaysOn(times, Elapsed(ops));
  }

  lemma EmptyLog()
    ensures FiringsOf([], 0) == []
  {
  }

  lemma AlwaysOn(times: seq<nat>, n: nat)
    requires FiredSince(times, 0, 4_294_967_295, true, true, n)
    ensures |times| == n / 4_294_967_295 && forall j :: 0 <= j < |times| ==> times[j] == (j + 1) * 4_294_967_295
  {
  }
}
