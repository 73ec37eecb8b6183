/** Which slots of the timer table are in use: what registration hands out, and when only slots in use
    are active. */
module TimerRegistration {
  import opened Wrappers
  import opened NaiveScheduler
  import opened TimerRuns

  /** Registration never hands out a slot in use, and fails exactly when the bound is 64. */
  lemma RegistrationIsFresh(v: View)
    requires ValidView(v)
    ensures RegisteredSlot(v).None? <==> v.num == MAX_TIMERS
    ensures RegisteredSlot(v).Some? ==>
              1 <= RegisteredSlot(v).value <= v.num < MAX_TIMERS && !v.timers[RegisteredSlot(v).value].inUse
  {
    if v.num < MAX_TIMERS {
      assert SlotOk(v.timers[v.num], v.num, v.num, v.now, v.now + 1);
    }
  }

  // ------------------------------------------------------------------ a free slot that is not found

  const IDLE_CALL := Register(Some(Device(0)), 1, false, false)
  const IDLE_SLOT := Timer(true, 1, 1, false, false, Some(Device(0)), 0)

  /** The initial table with n idle timers registered. */
  function Filled(n: nat): View
    requires n < MAX_TIMERS
  {
    View([NULL_SLOT] + seq(n, _ => IDLE_SLOT) + seq(MAX_TIMERS - 1 - n, _ => FREE), n + 1, 0, 0, [], [])
  }

  lemma FilledIsValid(n: nat)
    requires n < MAX_TIMERS
    ensures ValidView(Filled(n)) && Filled(0) == Initial()
  {
    forall i | 0 <= i < MAX_TIMERS ensures SlotOk(Filled(n).timers[i], i, n + 1, 0, 1) {
    }
  }

  lemma RegistrationFills(n: nat)
    requires n + 1 < MAX_TIMERS
    ensures Legal(Filled(n), IDLE_CALL) && Apply(Filled(n), IDLE_CALL) == Filled(n + 1)
  {
    var v := Filled(n);
    var slot := FreeSlot(v.timers, 1, v.num);
    forall j | 1 <= j < v.num ensures v.timers[j].inUse {
    }
    assert v.timers[n + 1 := IDLE_SLOT] == Filled(n + 1).timers;
  }

  function FillThen(m: nat, last: Op): (ops: seq<Op>)
    ensures ops != []
  {
    if m == 0 then [last] else [Use(IDLE_CALL)] + FillThen(m - 1, last)
  }

  lemma {:induction false} FillThenRuns(p: Callbacks, n: nat, m: nat, last: Call)
    requires WellBehaved(p) && n + m < MAX_TIMERS && Legal(Filled(n + m), last)
    ensures ValidView(Filled(n)) && LegalRun(p, Filled(n), FillThen(m, Use(last)))
    ensures Run(p, Filled(n), FillThen(m, Use(last))) == Apply(Filled(n + m), last)
    decreases m
  {
    hide WellBehaved, Legal, Apply, Filled;
    FilledIsValid(n);
    var ops := FillThen(m, Use(last));
    if m == 0 {
      ApplyKeepsValid(Filled(n), last);
      assert ops[1..] == [];
    } else {
      RegistrationFills(n);
      FillThenRuns(p, n + 1, m - 1, last);
      assert ops[1..] == FillThen(m - 1, Use(last));
    }
  }

  /** 63 registrations and the removal of the fifth: slot 5 is free and registration still fails, because
      the bound stays 64. */
  lemma FreeSlotIsNotFound(p: Callbacks)
    requires WellBehaved(p)
    ensures ValidView(Initial()) && LegalRun(p, Initial(), FillThen(63, Use(Unregister(5))))
    ensures var v := Run(p, Initial(), FillThen(63, Use(Unregister(5))));
            v.num == MAX_TIMERS && !v.timers[5].inUse && RegisteredSlot(v).None?
  {
    hide WellBehaved, Legal, Apply, Filled, Initial, FillThen, ValidView, TableOk, Run, LegalRun, FreeSlot;
    FilledIsValid(0);
    HoleInFullTable();
    FillThenRuns(p, 0, 63, Unregister(5));
  }

  lemma HoleInFullTable()
    ensures Legal(Filled(63), Unregister(5))
    ensures var v := Apply(Filled(63), Unregister(5)); v.num == MAX_TIMERS == |v.timers| && !v.timers[5].inUse
  {
    assert Filled(63).timers[5] == IDLE_SLOT;
  }

  // ------------------------------------------------------------------ active slots in use

  /** Only slots in use are active. */
  predicate ActiveInUse(v: View) {
    forall i {:trigger v.timers[i]} :: 0 <= i < |v.timers| && v.timers[i].active ==> v.timers[i].inUse
  }

  /** The call does not activate a slot that is not in use, which the interface accepts. */
  predicate Careful(v: View, c: Call) {
    match c
    case Activate(i, _, _) => i < |v.timers| && v.timers[i].inUse
    case _ => true
  }

  /** A call keeps the active slots in use exactly when it is careful. */
  lemma CarefulExactly(v: View, c: Call)
    requires ValidView(v) && Legal(v, c) && ActiveInUse(v)
    ensures ActiveInUse(Apply(v, c)) <==> Careful(v, c)
  {
    if c.Activate? && !v.timers[c.index].inUse {
      assert Apply(v, c).timers[c.index].active && !Apply(v, c).timers[c.index].inUse;
    }
  }

  predicate CarefulAll(v: View, calls: seq<Call>)
    requires LegalAll(v, calls)
    decreases |calls|
  {
    calls == [] || (Careful(v, calls[0]) && CarefulAll(Apply(v, calls[0]), calls[1..]))
  }

  ghost predicate CarefulDevices(p: Callbacks)
    requires WellBehaved(p)
  {
    forall k, v :: ValidView(v) && ActiveInUse(v) ==> CarefulAll(v, p(k, v).0)
  }

  lemma {:induction false} CarefulCallsKeep(v: View, calls: seq<Call>)
    requires ValidView(v) && LegalAll(v, calls) && ActiveInUse(v) && CarefulAll(v, calls)
    ensures ActiveInUse(ApplyAll(v, calls))
    decreases |calls|
  {
    hide ActiveInUse, Careful;
    if calls != [] {
      CarefulExactly(v, calls[0]);
      ApplyKeepsValid(v, calls[0]);
      CarefulCallsKeep(Apply(v, calls[0]), calls[1..]);
    }
  }

  lemma FireKeeps(p: Callbacks, v: View, slot: nat)
    requires WellBehaved(p) && CarefulDevices(p) && ValidView(v) && ActiveInUse(v)
    requires slot < MAX_TIMERS && v.timers[slot].funct.Some?
    ensures ActiveInUse(Fire(p, v, slot))
  {
    var h := v.timers[slot].funct.value;
    var called := Called(v, slot, h);
    assert ActiveInUse(called);
    CarefulCallsKeep(called, React(p, h, called).0);
  }

  lemma {:induction false} DeliverKeeps(p: Callbacks, v: View, due: seq<bool>, i: nat)
    requires WellBehaved(p) && CarefulDevices(p) && ValidView(v) && ActiveInUse(v)
    requires |due| == MAX_TIMERS && i <= MAX_TIMERS
    ensures ActiveInUse(Deliver(p, v, due, i))
    decreases MAX_TIMERS - i
  {
    hide WellBehaved, CarefulDevices, Fire, ActiveInUse;
    if i < MAX_TIMERS {
      DeliverUnfolds(p, v, due, i);
      if due[i] && v.timers[i].funct.Some? {
        FireKeepsValid(p, v, i);
        FireKeeps(p, v, i);
        DeliverKeeps(p, Fire(p, v, i), due, i + 1);
      } else {
        DeliverKeeps(p, v, due, i + 1);
      }
    } else {
      AllDelivered(p, v, due);
    }
  }

  lemma {:induction false} TicksKeep(p: Callbacks, v: View, n: nat)
    requires WellBehaved(p) && CarefulDevices(p) && ValidView(v) && ActiveInUse(v) && v.now + n <= HORIZON
    ensures ActiveInUse(Ticked(p, v, n))
    decreases n
  {
    hide WellBehaved, CarefulDevices, Deliver;
    if n != 0 {
      var w := v.(now := v.now + 1);
      ScanKeepsValid(w);
      assert ActiveInUse(Scan(w));
      DeliverKeeps(p, Scan(w), DueSlots(w), 0);
      TicksKeep(p, Tick(p, v), n - 1);
    }
  }

  ghost predicate CarefulRun(p: Callbacks, v: View, ops: seq<Op>)
    requires WellBehaved(p) && ValidView(v) && LegalRun(p, v, ops)
    decreases |ops|
  {
    ops == [] ||
    match ops[0]
    case Use(c) => Careful(v, c) && (ApplyKeepsValid(v, c); CarefulRun(p, Apply(v, c), ops[1..]))
    case Pass(n) => CarefulRun(p, Ticked(p, v, n), ops[1..])
  }

  /** In every run in which neither the caller nor a device activates a slot that is not in use, every
      active slot is in use. */
  lemma {:induction false} ActiveImpliesInUse(p: Callbacks, v: View, ops: seq<Op>)
    requires WellBehaved(p) && CarefulDevices(p) && ValidView(v) && ActiveInUse(v)
    requires LegalRun(p, v, ops) && CarefulRun(p, v, ops)
    ensures ActiveInUse(Run(p, v, ops))
    decreases |ops|
  {
    hide WellBehaved, CarefulDevices, Careful, ActiveInUse;
    if ops != [] {
      match ops[0] {
        case Use(c) =>
          ApplyKeepsValid(v, c);
          CarefulExactly(v, c);
          ActiveImpliesInUse(p, Apply(v, c), ops[1..]);
        case Pass(n) =>
          TicksKeep(p, v, n);
          ActiveImpliesInUse(p, Ticked(p, v, n), ops[1..]);
      }
    }
  }

  /** A timer that is unregistered and then activated is active without being in use, and the next
      registration hands out its slot. */
  lemma UnusedSlotActivated(p: Callbacks)
    requires WellBehaved(p)
    ensures var v := Filled(2);
            && Legal(v, Unregister(1)) && Legal(Apply(v, Unregister(1)), Activate(1, 7, true))
            && var w := Apply(Apply(v, Unregister(1)), Activate(1, 7, true));
            ActiveInUse(v) && w.timers[1].active && !w.timers[1].inUse && RegisteredSlot(w) == Some(1)
  {
    var v := Filled(2);
    assert v.timers[1] == IDLE_SLOT;
    var u := Apply(v, Unregister(1));
    assert u.timers[1].period == MAX_TICKS && u.num == 3;
    var w := Apply(u, Activate(1, 7, true));
    assert w.timers[1].active && !w.timers[1].inUse;
    assert FreeSlot(w.timers, 1, w.num) == 1;
  }
}
