/** Bochs's timer scheduler: all timers hide behind one 32-bit countdown, which registration and
    activation skew and which `CountdownEvent` rebuilds.  Every operation is specified by what the
    scheduler of NaiveScheduler.dfy does, so the class refines that scheduler step by step.
    C++ arithmetic on Bit32u and Bit64u is written out with Wrap32 and Wrap64. */
module PcSystem {
  import opened Wrappers
  import opened NaiveScheduler

  function Wrap32(x: int): nat { if 0 <= x < 0x1_0000_0000 then x else x % 0x1_0000_0000 }

  function Wrap64(x: int): nat {
    if 0 <= x < 0x1_0000_0000_0000_0000 then x else x % 0x1_0000_0000_0000_0000
  }

  class Scheduler {
    const timer: array<Timer>
    const callbacks: Callbacks
    var numTimers: nat
    var triggeredTimer: nat
    var currCountdown: nat
    var currCountdownPeriod: nat
    var ticksTotal: nat
    var world: World
    var log: seq<Firing>  // every handler call so far; the model's record of what happened

    /** The clock as `time_ticks` reads it. */
    function TimeTicks(): nat
      reads this
    {
      Wrap64(ticksTotal + Wrap32(currCountdownPeriod - currCountdown))
    }

    function Observed(): View
      reads this, timer
    {
      View(timer[..], numTimers, TimeTicks(), triggeredTimer, world, log)
    }

    /** The invariant, with `currCountdown` possibly exhausted. */
    ghost predicate Counting()
      reads this, timer
    {
      && WellBehaved(callbacks)
      && 1 <= numTimers <= MAX_TIMERS == timer.Length
      && 0 <= currCountdown <= currCountdownPeriod < 0x1_0000_0000
      && ticksTotal + currCountdownPeriod - currCountdown <= HORIZON
      && TableOk(timer[..], numTimers, ticksTotal + currCountdownPeriod - currCountdown,
                 ticksTotal + currCountdownPeriod)
    }

    ghost predicate Valid()
      reads this, timer
    {
      Counting() && 0 < currCountdown
    }

    lemma TimeIsExact()
      requires 0 <= currCountdown <= currCountdownPeriod < 0x1_0000_0000
      requires ticksTotal + currCountdownPeriod - currCountdown <= HORIZON
      ensures TimeTicks() == ticksTotal + currCountdownPeriod - currCountdown
    {
    }

    /** What the invariant gives a reader of the fields: no active timer is due within the current
        period, and the null timer is due soon enough for a 32-bit countdown to reach it. */
    lemma CountdownIsSafe(i: nat)
      requires Valid() && i < MAX_TIMERS
      ensures ValidView(Observed())
      ensures timer[i].active || timer[i].inUse ==> i < numTimers
      ensures timer[i].active ==> TimeTicks() + currCountdown <= timer[i].timeToFire
      ensures timer[0].active && timer[0].timeToFire - TimeTicks() <= NULL_INTERVAL
      ensures timer[i].active ==> timer[i].timeToFire < 0x1_0000_0000_0000_0000
    {
      TimeIsExact();
      forall j | 0 <= j < MAX_TIMERS ensures SlotOk(timer[..][j], j, numTimers, TimeTicks(), TimeTicks() + 1) {
        assert SlotOk(timer[..][j], j, numTimers, TimeTicks(), ticksTotal + currCountdownPeriod);
      }
      assert SlotOk(timer[..][0], 0, numTimers, TimeTicks(), ticksTotal + currCountdownPeriod);
      assert SlotOk(timer[..][i], i, numTimers, TimeTicks(), ticksTotal + currCountdownPeriod);
    }

    /** After a change to slot `i` alone, the table is in order again if that slot is. */
    lemma SlotChanged(timers: seq<Timer>, num: nat, due: nat, i: nat)
      requires 0 <= currCountdown <= currCountdownPeriod && timer.Length == |timers| && 1 <= i < |timers|
      requires timer[..] == timers[i := timer[i]]
      requires TableOk(timers, num, ticksTotal + currCountdownPeriod - currCountdown, due)
      requires ticksTotal + currCountdownPeriod <= due && 1 <= numTimers <= MAX_TIMERS
      requires numTimers == num || (i == num && numTimers == num + 1) || (i == num - 1 && numTimers == num - 1)
      requires SlotOk(timer[i], i, numTimers, ticksTotal + currCountdownPeriod - currCountdown,
                      ticksTotal + currCountdownPeriod)
      ensures TableOk(timer[..], numTimers, ticksTotal + currCountdownPeriod - currCountdown,
                      ticksTotal + currCountdownPeriod)
    {
      SlotChange(timers, num, numTimers, ticksTotal + currCountdownPeriod - currCountdown, due,
                 ticksTotal + currCountdownPeriod, i, timer[i]);
    }

    /** Lowering a countdown that stays positive is what quiet ticks do. */
    lemma QuietStep(v: View, n: nat)
      requires Valid() && ValidView(v) && Observed() == v.(now := v.now + n)
      ensures v.now + n <= HORIZON && Ticked(callbacks, v, n) == Observed()
    {
      TimeIsExact();
      forall j | 0 <= j < MAX_TIMERS ensures SlotOk(v.timers[j], j, v.num, v.now, v.now + n + 1) {
        assert SlotOk(v.timers[j], j, v.num, v.now, v.now + 1);
        assert SlotOk(timer[..][j], j, numTimers, v.now + n, ticksTotal + currCountdownPeriod);
      }
      QuietTicks(callbacks, v, n);
    }

    constructor (callbacks: Callbacks)
      requires WellBehaved(callbacks)
      ensures Valid() && fresh(timer) && this.callbacks == callbacks
      ensures Observed() == Initial()
    {
      this.callbacks := callbacks;
      timer := new Timer[MAX_TIMERS](_ => FREE);
      numTimers, triggeredTimer := 1, 0;
      currCountdown, currCountdownPeriod, ticksTotal := NULL_INTERVAL, NULL_INTERVAL, 0;
      world, log := [], [];
      new;
      timer[0] := NULL_SLOT;
      assert timer[..] == Initial().timers;
    }

    /** What a due time is set to: the clock plus the delay, with nothing lost. */
    function DueAfter(ticks: Ticks): nat
      reads this
    {
      Wrap64(Wrap64(ticksTotal + Wrap32(currCountdownPeriod - currCountdown)) + ticks)
    }

    lemma DueIsExact(ticks: Ticks)
      requires 0 <= currCountdown <= currCountdownPeriod < 0x1_0000_0000
      requires ticksTotal + currCountdownPeriod - currCountdown <= HORIZON
      ensures DueAfter(ticks) == ticksTotal + currCountdownPeriod - currCountdown + ticks
    {
    }

    /** The search loop of registration. */
    method FindFreeSlot() returns (i: nat)
      requires 1 <= numTimers <= timer.Length
      ensures i == FreeSlot(timer[..], 1, numTimers)
    {
      i := 1;
      while i < numTimers
        invariant 1 <= i <= numTimers
        invariant FreeSlot(timer[..], i, numTimers) == FreeSlot(timer[..], 1, numTimers)
      {
        if !timer[i].inUse { break; }
        i := i + 1;
      }
    }

    method RegisterTimerTicks(funct: Option<Handler>, ticks0: Ticks, continuous: bool, active: bool)
      returns (id: int)
      requires Valid() && Legal(Observed(), Register(funct, ticks0, continuous, active))
      modifies this`numTimers, this`currCountdown, this`currCountdownPeriod, timer
      ensures Valid()
      ensures Observed() == Apply(old(Observed()), Register(funct, ticks0, continuous, active))
      ensures id == match RegisteredSlot(old(Observed())) case None => -1 case Some(slot) => slot
    {
      TimeIsExact();
      var ticks := ticks0;
      if ticks < 1 { ticks := 1; }
      var i := FindFreeSlot();
      if numTimers >= MAX_TIMERS { return -1; }
      hide WellBehaved, TableOk, FreeSlot;
      Install(i, funct, ticks, continuous, active);
      id := i;
    }

    /** The part of registration that fills slot i. */
    method Install(i: nat, funct: Option<Handler>, ticks: Ticks, continuous: bool, active: bool)
      requires Valid() && 1 <= i <= numTimers < MAX_TIMERS && 1 <= ticks && funct != Some(NullTimer)
      modifies this`numTimers, this`currCountdown, this`currCountdownPeriod, timer
      ensures Valid() && numTimers == old(if i == numTimers then numTimers + 1 else numTimers)
      ensures timer[..] ==
              old(timer[..])[i := Timer(true, ticks, old(TimeTicks()) + ticks, active, continuous, funct, 0)]
      ensures TimeTicks() == old(TimeTicks())
    {
      hide WellBehaved, TableOk;
      TimeIsExact();
      var due := DueAfter(ticks);
      DueIsExact(ticks);
      hide Wrap32, Wrap64, DueAfter;
      timer[i] := Timer(true, ticks, due, active, continuous, funct, 0);
      if active { Skew(ticks); }
      if i == numTimers { numTimers := numTimers + 1; }
      TimeIsExact();
      SlotChanged(old(timer[..]), old(numTimers), old(ticksTotal + currCountdownPeriod), i);
    }

    /** The shared tail of registration and activation: bring the end of the period forward. */
    method Skew(ticks: Ticks)
      requires 1 <= ticks
      requires 0 < currCountdown <= currCountdownPeriod < 0x1_0000_0000
      modifies this`currCountdown, this`currCountdownPeriod
      ensures currCountdown == if ticks < old(currCountdown) then ticks else old(currCountdown)
      ensures currCountdownPeriod - currCountdown == old(currCountdownPeriod - currCountdown)
      ensures 0 < currCountdown <= currCountdownPeriod < 0x1_0000_0000
    {
      if ticks < currCountdown {
        currCountdownPeriod := Wrap32(currCountdownPeriod - Wrap32(currCountdown - Wrap32(ticks)));
        currCountdown := Wrap32(ticks);
      }
    }

    method ActivateTimerTicks(i: nat, ticks0: Ticks, continuous: bool)
      requires Valid() && Legal(Observed(), Activate(i, ticks0, continuous))
      modifies this`currCountdown, this`currCountdownPeriod, timer
      ensures Valid() && Observed() == Apply(old(Observed()), Activate(i, ticks0, continuous))
    {
      assert SlotOk(timer[..][i], i, numTimers, ticksTotal + currCountdownPeriod - currCountdown,
                    ticksTotal + currCountdownPeriod);
      hide WellBehaved, TableOk, FreeSlot;
      TimeIsExact();
      var ticks := ticks0;
      if ticks < 1 { ticks := 1; }
      var due := DueAfter(ticks);
      DueIsExact(ticks);
      timer[i] := timer[i].(period := ticks, timeToFire := due, active := true, continuous := continuous);
      Skew(ticks);
      SlotChanged(old(timer[..]), old(numTimers), old(ticksTotal + currCountdownPeriod), i);
    }

    method DeactivateTimer(i: nat)
      requires Valid() && Legal(Observed(), Deactivate(i))
      modifies timer
      ensures Valid() && Observed() == Apply(old(Observed()), Deactivate(i))
    {
      timer[i] := timer[i].(active := false);
      SlotChanged(old(timer[..]), old(numTimers), old(ticksTotal + currCountdownPeriod), i);
    }

    method UnregisterTimer(i: nat) returns (ok: bool)
      requires Valid() && Legal(Observed(), Unregister(i))
      modifies this`numTimers, timer
      ensures Valid() && Observed() == Apply(old(Observed()), Unregister(i))
      ensures ok == !old(timer[i].active)
    {
      if timer[i].active { return false; }
      timer[i] := Timer(false, MAX_TICKS, MAX_TICKS, timer[i].active, false, None, timer[i].param);
      if i == numTimers - 1 { numTimers := numTimers - 1; }
      SlotChanged(old(timer[..]), old(numTimers), old(ticksTotal + currCountdownPeriod), i);
      return true;
    }

    method SetTimerParam(i: nat, param: nat)
      requires Valid() && Legal(Observed(), SetParam(i, param))
      modifies timer
      ensures Valid() && Observed() == Apply(old(Observed()), SetParam(i, param))
    {
      timer[i] := timer[i].(param := param);
    }

    method Perform(c: Call)
      requires Valid() && Legal(Observed(), c)
      modifies this`numTimers, this`currCountdown, this`currCountdownPeriod, timer
      ensures Valid() && Observed() == Apply(old(Observed()), c)
    {
      match c
      case Register(h, ticks, continuous, active) =>
        var _ := RegisterTimerTicks(h, ticks, continuous, active);
      case Activate(i, ticks, continuous) => ActivateTimerTicks(i, ticks, continuous);
      case Deactivate(i) => DeactivateTimer(i);
      case Unregister(i) => var _ := UnregisterTimer(i);
      case SetParam(i, param) => SetTimerParam(i, param);
    }

    method PerformAll(calls: seq<Call>)
      requires Valid() && LegalAll(Observed(), calls)
      modifies this`numTimers, this`currCountdown, this`currCountdownPeriod, timer
      ensures Valid() && Observed() == ApplyAll(old(Observed()), calls)
    {
      var k := 0;
      while k < |calls|
        invariant 0 <= k <= |calls| && Valid()
        invariant LegalAll(Observed(), calls[k..])
        invariant ApplyAll(Observed(), calls[k..]) == ApplyAll(old(Observed()), calls)
      {
        assert calls[k..][1..] == calls[k + 1..];
        Perform(calls[k]);
        k := k + 1;
      }
    }

    /** The call `timer[i].funct(timer[i].this_ptr)`, which re-enters the timer interface. */
    method CallHandler(i: nat)
      requires Valid() && i < MAX_TIMERS && timer[i].funct.Some? && triggeredTimer == i
      modifies this`numTimers, this`currCountdown, this`currCountdownPeriod, this`world, this`log, timer
      ensures Valid()
      ensures ValidView(old(Observed()))
      ensures Observed().(triggered := 0) == Fire(callbacks, old(Observed()), i)
    {
      CountdownIsSafe(0);
      var h := timer[i].funct.value;
      ghost var v0 := Called(Observed(), i, h);
      log := log + [Firing(TimeTicks(), i, h)];
      assert Observed() == v0;
      var (calls, world') := React(callbacks, h, Observed());
      PerformAll(calls);
      world := world';
    }

    /** The body of the scan for one slot: is it due, and what is the earliest due time now? */
    method ScanSlot(i: nat, min0: nat) returns (hit: bool, minTimeToFire: nat)
      requires i < timer.Length
      requires Due(timer[i], ticksTotal) ==> ticksTotal + timer[i].period < 0x1_0000_0000_0000_0000
      modifies timer
      ensures timer[..] == old(timer[..])[i := Advance(old(timer[i]), ticksTotal)]
      ensures hit == Due(old(timer[i]), ticksTotal)
      ensures minTimeToFire == if timer[i].active && timer[i].timeToFire < min0 then timer[i].timeToFire else min0
    {
      hit, minTimeToFire := false, min0;
      if timer[i].active {
        if ticksTotal == timer[i].timeToFire {
          hit := true;
          if !timer[i].continuous {
            timer[i] := timer[i].(active := false);
          } else {
            timer[i] := timer[i].(timeToFire := Wrap64(timer[i].timeToFire + timer[i].period));
            if timer[i].timeToFire < minTimeToFire { minTimeToFire := timer[i].timeToFire; }
          }
        } else {
          if timer[i].timeToFire < minTimeToFire { minTimeToFire := timer[i].timeToFire; }
        }
      }
    }

    /** First half of `countdownEvent`: advance the clock base, mark and re-arm what is due, and
        rebuild the countdown from the earliest remaining due time. */
    method ScanTimers(triggered: array<bool>) returns (first: nat, last: nat)
      requires Counting() && currCountdown == 0 && ticksTotal + currCountdownPeriod <= HORIZON
      requires triggered.Length == MAX_TIMERS
      modifies this`ticksTotal, this`currCountdown, this`currCountdownPeriod, timer, triggered
      ensures Valid() && Pending(old(Observed()))
      ensures Observed() == Scan(old(Observed()))
      ensures first <= numTimers && last < numTimers
      ensures forall j :: 0 <= j < numTimers ==> triggered[j] == DueSlots(old(Observed()))[j]
      ensures forall j :: 0 <= j < MAX_TIMERS && DueSlots(old(Observed()))[j] ==> first <= j <= last
    {
      hide WellBehaved, TableOk;
      ghost var v := Observed();
      TimeIsExact();
      ticksTotal := Wrap64(ticksTotal + currCountdownPeriod);
      assert ticksTotal == v.now;
      var minTimeToFire;
      first, last, minTimeToFire := ScanLoop(triggered, v);
      currCountdownPeriod := Wrap32(Wrap64(minTimeToFire - ticksTotal));
      currCountdown := currCountdownPeriod;
      hide Wrap32, Wrap64;
      forall j | numTimers <= j < MAX_TIMERS
        ensures timer[j] == Advance(v.timers[j], v.now) && !Due(v.timers[j], v.now)
      {
        IdleBeyondBound(v, j);
      }
      assert timer[..] == Scan(v).timers;
      ScanGivesTable(v, minTimeToFire);
    }

    /** The loop of the scan, on the table that view v shows. */
    method ScanLoop(triggered: array<bool>, ghost v: View) returns (first: nat, last: nat, minTimeToFire: nat)
      requires timer.Length == triggered.Length == MAX_TIMERS && 1 <= numTimers <= MAX_TIMERS
      requires Pending(v) && v.timers == timer[..] && v.num == numTimers && v.now == ticksTotal
      modifies timer, triggered
      ensures first <= numTimers && last < numTimers
      ensures v.now < minTimeToFire <= v.now + NULL_INTERVAL
      ensures forall j :: 0 <= j < numTimers ==>
        timer[j] == Advance(v.timers[j], v.now) && triggered[j] == Due(v.timers[j], v.now)
      ensures forall j :: numTimers <= j < MAX_TIMERS ==> timer[j] == v.timers[j]
      ensures forall j :: 0 <= j < numTimers && timer[j].active ==> minTimeToFire <= timer[j].timeToFire
      ensures forall j :: 0 <= j < numTimers && Due(v.timers[j], v.now) ==> first <= j <= last
    {
      hide TableOk;
      ghost var base := v.timers;
      first, last := numTimers, 0;
      minTimeToFire := 0xffff_ffff_ffff_ffff;
      var i := 0;
      while i < numTimers
        invariant 0 <= i <= numTimers && last < numTimers && first <= numTimers
        invariant ticksTotal == v.now < minTimeToFire
        invariant i > 0 ==> minTimeToFire <= v.now + NULL_INTERVAL
        invariant forall j :: 0 <= j < i ==> timer[j] == Advance(base[j], v.now) && triggered[j] == Due(base[j], v.now)
        invariant forall j :: 0 <= j < i && timer[j].active ==> minTimeToFire <= timer[j].timeToFire
        invariant forall j :: i <= j < MAX_TIMERS ==> timer[j] == base[j]
        invariant forall j :: 0 <= j < i && Due(base[j], v.now) ==> first <= j <= last
      {
        SlotAt(v, i);
        var hit;
        hit, minTimeToFire := ScanSlot(i, minTimeToFire);
        triggered[i] := hit;
        if hit {
          if i < first { first := i; }
          last := i;
        }
        i := i + 1;
      }
    }

    /** One round of the delivery loop of `countdownEvent`. */
    method DeliverSlot(i: nat, triggered: bool, ghost due: seq<bool>)
      requires Valid() && ValidView(Observed()) && i < MAX_TIMERS == |due| && triggered == due[i]
      modifies this`numTimers, this`currCountdown, this`currCountdownPeriod, this`triggeredTimer,
               this`world, this`log, timer
      ensures Valid() && ValidView(Observed())
      ensures Deliver(callbacks, Observed(), due, i + 1) == Deliver(callbacks, old(Observed()), due, i)
    {
      hide WellBehaved, TableOk, Deliver, Fire;
      ghost var v := Observed();
      DeliverUnfolds(callbacks, v, due, i);
      if triggered && timer[i].funct.Some? {
        triggeredTimer := i;
        FireIgnoresTriggered(callbacks, v, i);
        CallHandler(i);
        triggeredTimer := 0;
      }
      CountdownIsSafe(0);
    }

    method CountdownEvent()
      requires Counting() && currCountdown == 0
      modifies this, timer
      ensures Valid() && Pending(old(Observed()))
      ensures Observed() == Event(callbacks, old(Observed()))
    {
      hide Deliver, WellBehaved;
      TimeIsExact();
      var triggered := new bool[MAX_TIMERS];
      var first, last := ScanTimers(triggered);
      CountdownIsSafe(0);
      ghost var due := DueSlots(old(Observed()));
      ghost var scanned := Observed();
      ghost var flags := triggered[..];
      NothingToDeliver(callbacks, scanned, due, 0, if first <= last then first else MAX_TIMERS);
      var i := first;
      while i <= last
        invariant first <= i <= MAX_TIMERS && (first <= last ==> i <= last + 1)
        invariant Valid() && triggered[..] == flags
        invariant ValidView(Observed())
        invariant Deliver(callbacks, Observed(), due, if first <= last then i else MAX_TIMERS)
               == Deliver(callbacks, scanned, due, 0)
      {
        assert triggered[i] == flags[i] == due[i];
        DeliverSlot(i, triggered[i], due);
        i := i + 1;
      }
      if first <= last { NothingToDeliver(callbacks, Observed(), due, i, MAX_TIMERS); }
      AllDelivered(callbacks, Observed(), due);
    }

    method Tick1()
      requires Valid() && TimeTicks() < HORIZON
      modifies this, timer
      ensures Valid() && ValidView(old(Observed())) && Observed() == Tick(callbacks, old(Observed()))
    {
      CountdownIsSafe(0);
      TimeIsExact();
      hide Event, WellBehaved;
      ghost var v := Observed();
      currCountdown := Wrap32(currCountdown - 1);
      if currCountdown == 0 {
        assert Observed() == v.(now := v.now + 1);
        CountdownEvent();
      } else {
        QuietStep(v, 1);
      }
    }

    /** One round of the loop of `tickn`: spend the whole countdown and deliver the event. */
    method RunDown()
      requires Valid() && TimeTicks() + currCountdown <= HORIZON
      modifies this, timer
      ensures Valid() && ValidView(old(Observed())) && ValidView(Observed())
      ensures old(TimeTicks() + currCountdown) <= HORIZON
      ensures Observed() == Ticked(callbacks, old(Observed()), old(currCountdown))
    {
      hide Event, Ticked, WellBehaved;
      ghost var v := Observed();
      ghost var c := currCountdown;
      CountdownIsSafe(0);
      TimeIsExact();
      currCountdown := 0;
      TimeIsExact();
      assert Observed() == v.(now := v.now + c);
      CountdownEvent();
      CountdownIsSafe(0);
      EventAfterQuiet(callbacks, v, c);
    }

    /** The last line of `tickn`: what is left of the request is shorter than the countdown. */
    method SpendRest(n: nat)
      requires Valid() && n < currCountdown && TimeTicks() + n <= HORIZON
      modifies this`currCountdown
      ensures Valid() && ValidView(old(Observed())) && old(TimeTicks()) + n <= HORIZON
      ensures Observed() == Ticked(callbacks, old(Observed()), n)
    {
      hide Event, Ticked, WellBehaved;
      CountdownIsSafe(0);
      ghost var v := Observed();
      TimeIsExact();
      currCountdown := Wrap32(currCountdown - n);
      TimeIsExact();
      forall j | 0 <= j < MAX_TIMERS
        ensures SlotOk(timer[..][j], j, numTimers, v.now + n, ticksTotal + currCountdownPeriod)
      {
        assert SlotOk(v.timers[j], j, v.num, v.now, ticksTotal + currCountdownPeriod);
      }
      QuietStep(v, n);
    }

    method TickN(n0: nat)
      requires Valid() && TimeTicks() + n0 <= HORIZON
      modifies this, timer
      ensures Valid() && ValidView(old(Observed())) && old(TimeTicks()) + n0 <= HORIZON
      ensures Observed() == Ticked(callbacks, old(Observed()), n0)
    {
      hide Event, Tick, WellBehaved, TableOk;
      CountdownIsSafe(0);
      ghost var start := Observed();
      var n := n0;
      while n >= currCountdown
        invariant 0 <= n <= n0 && Valid() && ValidView(Observed()) && TimeTicks() == start.now + (n0 - n)
        invariant Ticked(callbacks, Observed(), n) == Ticked(callbacks, start, n0)
        decreases n
      {
        ghost var v := Observed();
        n := n - currCountdown;
        TicksCompose(callbacks, v, currCountdown, n);
        RunDown();
      }
      SpendRest(n);
    }
  }
}
