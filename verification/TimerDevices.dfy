/** What callbacks bring about when they use the timer interface while an event is being delivered: a
    timer that re-arms itself, one that stops another, two that are due at the same tick, and the device
    state that handlers leave behind.  The results are stated on the log of handler calls and on the slots. */
module TimerDevices {
  import opened Wrappers
  import opened NaiveScheduler
  import opened TimerRuns

  /** Whatever is called for another slot than i leaves slot j alone. */
  ghost predicate OthersSpare(p: Callbacks, i: nat, j: nat) {
    forall k, u :: ValidView(u) && u.triggered != i ==> NoneTouches(p(k, u).0, j)
  }

  /** Whenever device k is shown that slot i has triggered it makes these calls, if the interface accepts them. */
  ghost predicate Answers(p: Callbacks, k: nat, i: nat, calls: seq<Call>) {
    forall u :: ValidView(u) && u.triggered == i && LegalAll(u, calls) ==> p(k, u).0 == calls
  }

  lemma OtherFires(p: Callbacks, v: View, slot: nat, i: nat, j: nat)
    requires WellBehaved(p) && OthersSpare(p, i, j) && ValidView(v) && slot != i
    requires j < MAX_TIMERS && v.timers[j].inUse && slot < MAX_TIMERS && v.timers[slot].funct.Some?
    ensures ValidView(Fire(p, v, slot)) && Fire(p, v, slot).timers[j] == v.timers[j]
  {
    FireKeepsValid(p, v, slot);
    var h := v.timers[slot].funct.value;
    ApplyAllSpares(Called(v, slot, h), React(p, h, Called(v, slot, h)).0, j);
  }

  lemma OneCall(v: View, c: Call)
    requires LegalAll(v, [c])
    ensures 1 <= v.num <= MAX_TIMERS == |v.timers| && Legal(v, c) && ApplyAll(v, [c]) == Apply(v, c)
  {
    assert [c][1..] == [];
    assert ApplyAll(Apply(v, c), []) == Apply(v, c);
  }

  /** A call does the same to the slots whatever the trigger and the log are. */
  lemma SameSlots(v: View, u: View, c: Call)
    requires 1 <= v.num <= MAX_TIMERS == |v.timers| && u.timers == v.timers && u.num == v.num && u.now == v.now
    requires Legal(u, c)
    ensures Legal(v, c) && Apply(u, c).timers == Apply(v, c).timers && Apply(u, c).num == Apply(v, c).num
  {
  }

  /** The slots after the handler in slot i has made its calls. */
  lemma AnsweredCall(p: Callbacks, v: View, i: nat, k: nat, c: Call)
    requires WellBehaved(p) && Answers(p, k, i, [c]) && ValidView(v) && i < MAX_TIMERS && Legal(v, c)
    requires v.timers[i].inUse && v.timers[i].funct == Some(Device(k))
    ensures ValidView(Fire(p, v, i)) && 1 <= v.num <= MAX_TIMERS
    ensures Fire(p, v, i).timers == Apply(v, c).timers && Fire(p, v, i).num == Apply(v, c).num
  {
    FireKeepsValid(p, v, i);
    var called := Called(v, i, Device(k));
    assert ValidView(called) && called.triggered == i;
    OneIsLegal(called, c);
    SameSlots(v, called, c);
    assert p(k, called).0 == [c];
    hide WellBehaved, Answers, TableOk, Apply, Legal, LegalAll, ApplyAll;
    OneCall(called, c);
  }

  lemma OneIsLegal(v: View, c: Call)
    requires ValidView(v) && Legal(v, c)
    ensures LegalAll(v, [c])
  {
    assert [c][1..] == [];
    assert LegalAll(Apply(v, c), []);
  }

  /** A tick at which slot i alone is due: the timer is re-armed or disarmed, its device is shown the result
      with slot i triggered and the call logged, and what the device asks for is done. */
  lemma LoneTimerTick(p: Callbacks, v: View, i: nat, k: nat)
    requires WellBehaved(p) && ValidView(v) && v.now < HORIZON && i < MAX_TIMERS
    requires v.timers[i].funct == Some(Device(k))
    requires forall j :: 0 <= j < MAX_TIMERS ==>
               (v.timers[j].active && v.timers[j].timeToFire == v.now + 1 <==> j == i)
    ensures var t := v.timers[i];
            var after := if t.continuous then t.(timeToFire := v.now + 1 + t.period) else t.(active := false);
            var u := View(v.timers[i := after], v.num, v.now + 1, i, v.world,
                          v.log + [Firing(v.now + 1, i, Device(k))]);
            && LegalAll(u, p(k, u).0)
            && Tick(p, v) == ApplyAll(u, p(k, u).0).(world := p(k, u).1, triggered := 0)
  {
    var w := v.(now := v.now + 1);
    ScanKeepsValid(w);
    var t := v.timers[i];
    var after := if t.continuous then t.(timeToFire := v.now + 1 + t.period) else t.(active := false);
    assert Scan(w).timers == v.timers[i := after];
    hide WellBehaved, ValidView, ApplyAll, LegalAll, Deliver;
    LoneDelivery(p, Scan(w), DueSlots(w), i, k);
  }

  lemma LoneDelivery(p: Callbacks, w: View, due: seq<bool>, i: nat, k: nat)
    requires WellBehaved(p) && ValidView(w) && |due| == MAX_TIMERS && i < MAX_TIMERS
    requires w.timers[i].funct == Some(Device(k)) && forall j :: 0 <= j < MAX_TIMERS ==> (due[j] <==> j == i)
    ensures var u := Called(w, i, Device(k));
            && LegalAll(u, p(k, u).0)
            && Deliver(p, w, due, 0) == ApplyAll(u, p(k, u).0).(world := p(k, u).1, triggered := 0)
  {
    assert ValidView(Called(w, i, Device(k)));
    FireKeepsValid(p, w, i);
    var x := Fire(p, w, i);
    hide ValidView, ApplyAll, LegalAll, Deliver;
    NothingToDeliver(p, w, due, 0, i);
    DeliverUnfolds(p, w, due, i);
    NothingToDeliver(p, x, due, i + 1, MAX_TIMERS);
    AllDelivered(p, x, due);
  }

  // ------------------------------------------------------------------ a timer that re-arms itself

  /** A one-shot timer of period q in slot i. */
  predicate Single(t: Timer, k: nat, q: nat) {
    t.active && !t.continuous && t.inUse && t.funct == Some(Device(k)) && t.period == q
  }

  /** The last of these calls arms slot i with q, and the others leave it alone. */
  predicate RearmsLast(calls: seq<Call>, i: nat, q: Ticks) {
    && calls != [] && calls[|calls| - 1] == Activate(i, q, false)
    && NoneTouches(calls[..|calls| - 1], i)
  }

  /** Its device, told that slot i has triggered, does what it likes to other timers and then re-arms its own
      with q; nothing else operates on slot i. */
  ghost predicate RearmsItself(p: Callbacks, k: nat, i: nat, q: Ticks) {
    && 1 <= q && OthersSpare(p, i, i)
    && forall u :: ValidView(u) && u.triggered == i < u.num ==> RearmsLast(p(k, u).0, i, q)
  }

  /** Calls are performed one after the other. */
  lemma {:induction false} CallsCompose(v: View, a: seq<Call>, b: seq<Call>)
    requires LegalAll(v, a + b)
    ensures LegalAll(v, a) && LegalAll(ApplyAll(v, a), b)
    ensures ApplyAll(v, a + b) == ApplyAll(ApplyAll(v, a), b)
    decreases |a|
  {
    hide Apply, Legal;
    if a == [] {
      assert a + b == b;
    } else {
      assert (a + b)[1..] == a[1..] + b;
      CallsCompose(Apply(v, a[0]), a[1..], b);
    }
  }

  lemma LastCallRearms(v: View, calls: seq<Call>, i: nat, q: Ticks)
    requires ValidView(v) && LegalAll(v, calls) && RearmsLast(calls, i, q) && 1 <= q
    requires i < MAX_TIMERS && v.timers[i].inUse
    ensures |ApplyAll(v, calls).timers| == MAX_TIMERS
    ensures ApplyAll(v, calls).timers[i] ==
            v.timers[i].(period := q, timeToFire := v.now + q, active := true, continuous := false)
  {
    var before, last := calls[..|calls| - 1], calls[|calls| - 1];
    assert calls == before + [last];
    CallsCompose(v, before, [last]);
    ApplyAllKeepsValid(v, before);
    ApplyAllSpares(v, before, i);
    hide LegalAll, ApplyAll, TableOk;
    OneCall(ApplyAll(v, before), last);
  }

  lemma FireRearms(p: Callbacks, v: View, i: nat, k: nat, q: Ticks)
    requires WellBehaved(p) && RearmsItself(p, k, i, q) && ValidView(v) && i < MAX_TIMERS
    requires v.timers[i].inUse && v.timers[i].funct == Some(Device(k))
    ensures ValidView(Fire(p, v, i))
    ensures Fire(p, v, i).timers[i] ==
            v.timers[i].(period := q, timeToFire := v.now + q, active := true, continuous := false)
  {
    FireKeepsValid(p, v, i);
    assert SlotOk(v.timers[i], i, v.num, v.now, v.now + 1);
    var called := Called(v, i, Device(k));
    assert ValidView(called) && called.triggered == i < called.num;
    hide ApplyAll, LegalAll, RearmsLast, NoneTouches, TableOk;
    LastCallRearms(called, p(k, called).0, i, q);
  }

  lemma {:induction false} DeliverRearms(p: Callbacks, v: View, due: seq<bool>, from: nat, i: nat, k: nat, q: Ticks)
    requires WellBehaved(p) && RearmsItself(p, k, i, q) && ValidView(v) && |due| == MAX_TIMERS && from <= MAX_TIMERS
    requires i < MAX_TIMERS && v.timers[i].inUse && v.timers[i].funct == Some(Device(k))
    ensures var t := v.timers[i];
            var fires := from <= i && due[i];
            && Deliver(p, v, due, from).timers[i] ==
               (if fires then t.(period := q, timeToFire := v.now + q, active := true, continuous := false) else t)
            && FiringsOf(Deliver(p, v, due, from).log, i) == FiringsOf(v.log, i) + (if fires then [v.now] else [])
    decreases MAX_TIMERS - from
  {
    hide WellBehaved, Fire, RearmsItself, FiringsOf;
    if from < MAX_TIMERS {
      DeliverUnfolds(p, v, due, from);
      if due[from] && v.timers[from].funct.Some? {
        FireKeepsValid(p, v, from);
        if from == i { FireRearms(p, v, i, k, q); } else { OtherSparesIt(p, v, from, i, k, q); }
        FiringsOfAppend(v.log, Firing(v.now, from, v.timers[from].funct.value), i);
        DeliverRearms(p, Fire(p, v, from), due, from + 1, i, k, q);
      } else {
        DeliverRearms(p, v, due, from + 1, i, k, q);
      }
    } else {
      AllDelivered(p, v, due);
    }
  }

  lemma OtherSparesIt(p: Callbacks, v: View, slot: nat, i: nat, k: nat, q: Ticks)
    requires WellBehaved(p) && RearmsItself(p, k, i, q) && ValidView(v) && slot != i
    requires i < MAX_TIMERS && v.timers[i].inUse && slot < MAX_TIMERS && v.timers[slot].funct.Some?
    ensures ValidView(Fire(p, v, slot)) && Fire(p, v, slot).timers[i] == v.timers[i]
  {
    OtherFires(p, v, slot, i, i);
  }

  lemma TickRearms(p: Callbacks, v: View, i: nat, k: nat, q: Ticks)
    requires WellBehaved(p) && RearmsItself(p, k, i, q) && ValidView(v) && v.now < HORIZON && i < MAX_TIMERS
    requires Single(v.timers[i], k, q)
    ensures var t := v.timers[i];
            var fires := t.timeToFire == v.now + 1;
            && Tick(p, v).timers[i] == (if fires then t.(timeToFire := t.timeToFire + q) else t)
            && FiringsOf(Tick(p, v).log, i) == FiringsOf(v.log, i) + (if fires then [v.now + 1] else [])
  {
    hide WellBehaved, Deliver, RearmsItself, FiringsOf;
    var w := v.(now := v.now + 1);
    ScanKeepsValid(w);
    DeliverRearms(p, Scan(w), DueSlots(w), 0, i, k, q);
  }

  lemma {:induction false} TicksRearm(p: Callbacks, v: View, i: nat, k: nat, q: Ticks, n: nat)
    requires WellBehaved(p) && RearmsItself(p, k, i, q) && ValidView(v) && v.now + n <= HORIZON && i < MAX_TIMERS
    requires Single(v.timers[i], k, q) && v.now < v.timers[i].timeToFire
    ensures AfterAlone(v.timers[i], v.now, n, v.log, Ticked(p, v, n), i)
    decreases n
  {
    hide WellBehaved, Ticked, Tick, RearmsItself, FiringsOf, TableOk, Multiples;
    NoTicks(p, v);
    var t := v.timers[i];
    NoMultiples(t.timeToFire, t.period);
    if n != 0 {
      TicksRearm(p, v, i, k, q, n - 1);
      LastTick(p, v, n);
      TickRearms(p, Ticked(p, v, n - 1), i, k, q);
      MultiplesStep(t.timeToFire, t.period, FiredAfter(t.timeToFire - v.now, t.period, n - 1));
    }
  }

  lemma RearmedByTicks(p: Callbacks, v: View, i: nat, k: nat, q: Ticks, a: nat)
    requires WellBehaved(p) && RearmsItself(p, k, i, q) && ValidView(v) && v.now + a <= HORIZON && i < MAX_TIMERS
    requires Single(v.timers[i], k, q) && v.now < v.timers[i].timeToFire <= v.now + q
    ensures var w := Ticked(p, v, a);
            && AfterAlone(v.timers[i], v.now, a, v.log, w, i)
            && Single(w.timers[i], k, q) && v.now < v.timers[i].timeToFire <= v.now + v.timers[i].period
            && w.now < w.timers[i].timeToFire <= w.now + q
  {
    SingleMeans(v.timers[i], k, q);
    hide WellBehaved, RearmsItself, TableOk, Ticked, AfterAlone, Single;
    var w := Ticked(p, v, a);
    TicksRearm(p, v, i, k, q, a);
    StaysArmed(v.timers[i], v.now, a, v.log, w, i);
    StaysSingle(v.timers[i], w.timers[i], k, q);
  }

  lemma {:induction false} RearmedInRun(p: Callbacks, v: View, ops: seq<Op>, i: nat, k: nat, q: Ticks)
    requires WellBehaved(p) && RearmsItself(p, k, i, q) && ValidView(v)
    requires LegalRun(p, v, ops) && RunSpares(ops, i) && i < MAX_TIMERS
    requires Single(v.timers[i], k, q) && v.now < v.timers[i].timeToFire <= v.now + q
    ensures AfterAlone(v.timers[i], v.now, Elapsed(ops), v.log, Run(p, v, ops), i)
    decreases |ops|
  {
    hide *;
    NoTicks(p, v);
    var t := v.timers[i];
    SingleMeans(t, k, q);
    if ops == [] {
      EmptyRun(p, v);
      NothingElapsed(t, v, i);
    } else {
      SparesNext(ops, i);
      match ops[0] {
        case Use(c) =>
          UseStep(p, v, ops);
          UseSpares(v, c, i);
          RearmedInRun(p, Apply(v, c), ops[1..], i, k, q);
        case Pass(a) =>
          PassStep(p, v, ops);
          var w := Ticked(p, v, a);
          RearmedByTicks(p, v, i, k, q, a);
          RearmedInRun(p, w, ops[1..], i, k, q);
          AloneThenAlone(t, v.now, a, v.log, w, Elapsed(ops[1..]), Run(p, w, ops[1..]), i);
      }
    }
  }

  lemma SingleMeans(t: Timer, k: nat, q: nat)
    requires Single(t, k, q)
    ensures t.inUse && t.period == q
  {
  }

  lemma StaysSingle(t: Timer, u: Timer, k: nat, q: nat)
    requires Single(t, k, q) && u == t.(timeToFire := u.timeToFire)
    ensures Single(u, k, q)
  {
  }

  /** A one-shot timer activated with q whose handler answers each call by activating the timer it is told has
      triggered, again with q and after whatever it does to other timers, fires q, 2 * q, 3 * q, ... ticks
      later: n / q times when a run has taken n ticks, whatever the other timers do. */
  lemma SelfRearmingTimer(p: Callbacks, v: View, ops: seq<Op>, i: nat, k: nat, q: Ticks)
    requires WellBehaved(p) && RearmsItself(p, k, i, q) && ValidView(v)
    requires Legal(v, Activate(i, q, false)) && v.timers[i].funct == Some(Device(k))
    requires ValidView(Apply(v, Activate(i, q, false))) && LegalRun(p, Apply(v, Activate(i, q, false)), ops)
    requires RunSpares(ops, i)
    ensures var w := Apply(v, Activate(i, q, false));
            var times := FiringTimes(w.timers[i], v.now, Elapsed(ops));
            && FiringsOf(Run(p, w, ops).log, i) == FiringsOf(v.log, i) + times
            && |times| == Elapsed(ops) / q
            && forall j :: 0 <= j < |times| ==> times[j] == v.now + q + j * q
  {
    assert SlotOk(v.timers[i], i, v.num, v.now, v.now + 1);
    var w := Apply(v, Activate(i, q, false));
    hide WellBehaved, RearmsItself, Run, LegalRun, FiringsOf, FiringTimes, TableOk, Rearmed;
    RearmedInRun(p, w, ops, i, k, q);
    FiringTimesExactly(w.timers[i], v.now, Elapsed(ops));
  }

  // ------------------------------------------------------------------ a timer that stops another

  /** Slot i's device answers by deactivating slot j; nothing else operates on the two. */
  ghost predicate Stops(p: Callbacks, k: nat, i: nat, j: nat) {
    1 <= j && i != j && Answers(p, k, i, [Deactivate(j)]) && OthersSpare(p, i, i) && OthersSpare(p, i, j)
  }

  /** Slot i is waiting to fire first and to stop slot j, or has stopped it. */
  predicate AboutToStop(v: View, k: nat, i: nat, j: nat) {
    && i < |v.timers| && j < |v.timers|
    && v.timers[i].inUse && v.timers[i].funct == Some(Device(k)) && v.timers[j].inUse && v.timers[j].funct.Some?
    && (v.timers[j].active ==>
          v.timers[i].active && v.now < v.timers[i].timeToFire < v.timers[j].timeToFire)
  }

  lemma FireStops(p: Callbacks, v: View, i: nat, j: nat, k: nat)
    requires WellBehaved(p) && Stops(p, k, i, j) && ValidView(v) && i < MAX_TIMERS && j < MAX_TIMERS
    requires v.timers[i].inUse && v.timers[i].funct == Some(Device(k)) && v.timers[j].inUse
    ensures ValidView(Fire(p, v, i))
    ensures Fire(p, v, i).timers == v.timers[j := v.timers[j].(active := false)]
  {
    assert SlotOk(v.timers[j], j, v.num, v.now, v.now + 1);
    AnsweredCall(p, v, i, k, Deactivate(j));
  }

  lemma {:induction false} DeliverStops(p: Callbacks, v: View, due: seq<bool>, from: nat, i: nat, j: nat, k: nat)
    requires WellBehaved(p) && Stops(p, k, i, j) && ValidView(v) && |due| == MAX_TIMERS && from <= MAX_TIMERS
    requires i < MAX_TIMERS && j < MAX_TIMERS && v.timers[i].inUse && v.timers[i].funct == Some(Device(k))
    requires v.timers[j].inUse && v.timers[j].funct.Some? && !due[j]
    ensures var r := Deliver(p, v, due, from);
            var fires := from <= i && due[i];
            && r.timers[i] == v.timers[i]
            && r.timers[j] == (if fires then v.timers[j].(active := false) else v.timers[j])
            && FiringsOf(r.log, j) == FiringsOf(v.log, j)
            && FiringsOf(r.log, i) == FiringsOf(v.log, i) + (if fires then [v.now] else [])
    decreases MAX_TIMERS - from
  {
    hide WellBehaved, Fire, Stops, FiringsOf;
    if from < MAX_TIMERS {
      DeliverUnfolds(p, v, due, from);
      if due[from] && v.timers[from].funct.Some? {
        FireKeepsValid(p, v, from);
        if from == i { FireStops(p, v, i, j, k); } else { OthersStopNone(p, v, from, i, j, k); }
        var f := Firing(v.now, from, v.timers[from].funct.value);
        FiringsOfAppend(v.log, f, i);
        FiringsOfAppend(v.log, f, j);
        DeliverStops(p, Fire(p, v, from), due, from + 1, i, j, k);
      } else {
        DeliverStops(p, v, due, from + 1, i, j, k);
      }
    } else {
      AllDelivered(p, v, due);
    }
  }

  lemma OthersStopNone(p: Callbacks, v: View, slot: nat, i: nat, j: nat, k: nat)
    requires WellBehaved(p) && Stops(p, k, i, j) && ValidView(v) && slot != i && slot < MAX_TIMERS
    requires i < MAX_TIMERS && j < MAX_TIMERS && v.timers[i].inUse && v.timers[j].inUse && v.timers[slot].funct.Some?
    ensures ValidView(Fire(p, v, slot))
    ensures Fire(p, v, slot).timers[i] == v.timers[i] && Fire(p, v, slot).timers[j] == v.timers[j]
  {
    OtherFires(p, v, slot, i, i);
    OtherFires(p, v, slot, i, j);
  }

  lemma TickStops(p: Callbacks, v: View, i: nat, j: nat, k: nat)
    requires WellBehaved(p) && Stops(p, k, i, j) && ValidView(v) && v.now < HORIZON && AboutToStop(v, k, i, j)
    ensures var r := Tick(p, v);
            && AboutToStop(r, k, i, j) && FiringsOf(r.log, j) == FiringsOf(v.log, j)
            && (r.timers[j].active <==> v.timers[j].active && v.now + 1 < v.timers[i].timeToFire)
            && (v.timers[j].active && v.now + 1 < v.timers[i].timeToFire ==> r.timers[i] == v.timers[i])
  {
    hide WellBehaved, Deliver, Stops, FiringsOf;
    var w := v.(now := v.now + 1);
    ScanKeepsValid(w);
    DeliverStops(p, Scan(w), DueSlots(w), 0, i, j, k);
  }

  lemma {:induction false} TicksStop(p: Callbacks, v: View, i: nat, j: nat, k: nat, n: nat)
    requires WellBehaved(p) && Stops(p, k, i, j) && ValidView(v) && v.now + n <= HORIZON && AboutToStop(v, k, i, j)
    ensures var r := Ticked(p, v, n);
            && AboutToStop(r, k, i, j) && FiringsOf(r.log, j) == FiringsOf(v.log, j)
            && (r.timers[j].active <==> v.timers[j].active && v.now + n < v.timers[i].timeToFire)
            && (v.timers[j].active && v.now + n < v.timers[i].timeToFire ==> r.timers[i] == v.timers[i])
    decreases n
  {
    hide WellBehaved, Ticked, Tick, Stops, FiringsOf, TableOk;
    NoTicks(p, v);
    if n != 0 {
      TicksStop(p, v, i, j, k, n - 1);
      LastTick(p, v, n);
      TickStops(p, Ticked(p, v, n - 1), i, j, k);
    }
  }

  /** A handler that deactivates a timer due later stops it: over a run that leaves the two alone it never
      fires, and it is inactive once the first has fired. */
  lemma {:induction false} LaterTimerIsStopped(p: Callbacks, v: View, ops: seq<Op>, i: nat, j: nat, k: nat)
    requires WellBehaved(p) && Stops(p, k, i, j) && ValidView(v) && AboutToStop(v, k, i, j)
    requires LegalRun(p, v, ops) && RunSpares(ops, i) && RunSpares(ops, j)
    ensures var r := Run(p, v, ops);
            && AboutToStop(r, k, i, j) && FiringsOf(r.log, j) == FiringsOf(v.log, j)
            && (r.timers[j].active <==> v.timers[j].active && v.now + Elapsed(ops) < v.timers[i].timeToFire)
    decreases |ops|
  {
    AboutMeans(v, k, i, j);
    hide *;
    NoTicks(p, v);
    if ops == [] {
      EmptyRun(p, v);
      NotYetDue(v, k, i, j);
    } else {
      SparesNext(ops, i);
      SparesNext(ops, j);
      match ops[0] {
        case Use(c) =>
          UseStep(p, v, ops);
          UseSpares(v, c, i);
          UseSpares(v, c, j);
          StillAbout(v, Apply(v, c), k, i, j);
          LaterTimerIsStopped(p, Apply(v, c), ops[1..], i, j, k);
        case Pass(a) =>
          PassStep(p, v, ops);
          TicksStop(p, v, i, j, k, a);
          AboutMeans(Ticked(p, v, a), k, i, j);
          LaterTimerIsStopped(p, Ticked(p, v, a), ops[1..], i, j, k);
      }
    }
  }

  lemma AboutMeans(v: View, k: nat, i: nat, j: nat)
    requires AboutToStop(v, k, i, j)
    ensures i < |v.timers| && j < |v.timers| && v.timers[i].inUse && v.timers[j].inUse
  {
  }

  lemma NotYetDue(v: View, k: nat, i: nat, j: nat)
    requires AboutToStop(v, k, i, j)
    ensures i < |v.timers| && j < |v.timers|
    ensures v.timers[j].active ==> v.now < v.timers[i].timeToFire
  {
  }

  lemma StillAbout(v: View, w: View, k: nat, i: nat, j: nat)
    requires AboutToStop(v, k, i, j) && |w.timers| == |v.timers| && w.now == v.now
    requires w.timers[i] == v.timers[i] && w.timers[j] == v.timers[j]
    ensures AboutToStop(w, k, i, j)
  {
  }

  // ------------------------------------------------------------------ two timers due at the same tick

  /** The state in which slot `to` is reached when delivery is at slot `from`. */
  ghost function DeliveredTo(p: Callbacks, v: View, due: seq<bool>, from: nat, to: nat): (r: View)
    requires WellBehaved(p) && ValidView(v) && |due| == MAX_TIMERS && from <= to <= MAX_TIMERS
    ensures ValidView(r) && r.now == v.now
    ensures Deliver(p, v, due, from) == Deliver(p, r, due, to)
    decreases MAX_TIMERS - from
  {
    if from >= to then v
    else
      DeliverUnfolds(p, v, due, from);
      if due[from] && v.timers[from].funct.Some? then
        FireKeepsValid(p, v, from);
        DeliveredTo(p, Fire(p, v, from), due, from + 1, to)
      else DeliveredTo(p, v, due, from + 1, to)
  }

  /** The slots between do not operate on the two, and only firings of slots up to `to` are logged. */
  lemma {:induction false} ReachedAlone(
      p: Callbacks, v: View, due: seq<bool>, from: nat, to: nat, i: nat, j: nat)
    requires WellBehaved(p) && OthersSpare(p, i, i) && OthersSpare(p, i, j) && ValidView(v)
    requires |due| == MAX_TIMERS && from <= to <= MAX_TIMERS && i < MAX_TIMERS && j < MAX_TIMERS
    requires !(from <= i < to) && !(from <= j < to) && v.timers[i].inUse
    ensures var r := DeliveredTo(p, v, due, from, to);
            && (v.timers[j].inUse ==> r.timers[j] == v.timers[j]) && r.timers[i] == v.timers[i]
            && FiringsOf(r.log, j) == FiringsOf(v.log, j)
    decreases MAX_TIMERS - from
  {
    hide WellBehaved, Fire, OthersSpare, FiringsOf;
    if from < to {
      DeliverUnfolds(p, v, due, from);
      if due[from] && v.timers[from].funct.Some? {
        FireKeepsValid(p, v, from);
        OtherFires(p, v, from, i, i);
        if v.timers[j].inUse { OtherFires(p, v, from, i, j); }
        FiringsOfAppend(v.log, Firing(v.now, from, v.timers[from].funct.value), j);
        ReachedAlone(p, Fire(p, v, from), due, from + 1, to, i, j);
      } else {
        ReachedAlone(p, v, due, from + 1, to, i, j);
      }
    }
  }

  /** Whatever happens behind slot j is not a firing of slot j. */
  lemma {:induction false} NoMoreFirings(p: Callbacks, v: View, due: seq<bool>, from: nat, j: nat)
    requires WellBehaved(p) && ValidView(v) && |due| == MAX_TIMERS && j < from <= MAX_TIMERS
    ensures FiringsOf(Deliver(p, v, due, from).log, j) == FiringsOf(v.log, j)
    decreases MAX_TIMERS - from
  {
    hide WellBehaved, Fire, FiringsOf;
    if from < MAX_TIMERS {
      DeliverUnfolds(p, v, due, from);
      if due[from] && v.timers[from].funct.Some? {
        FireKeepsValid(p, v, from);
        FiringsOfAppend(v.log, Firing(v.now, from, v.timers[from].funct.value), j);
        NoMoreFirings(p, Fire(p, v, from), due, from + 1, j);
      } else {
        NoMoreFirings(p, v, due, from + 1, j);
      }
    } else {
      AllDelivered(p, v, due);
    }
  }

  /** Slots i < j are due at the next tick, and the handler in i operates on j. */
  predicate BothDue(v: View, k: nat, i: nat, j: nat) {
    && 1 <= i < j < |v.timers| == MAX_TIMERS
    && v.timers[i].inUse && v.timers[i].funct == Some(Device(k)) && v.timers[j].inUse && v.timers[j].funct.Some?
    && v.timers[i].active && v.timers[i].timeToFire == v.now + 1
    && v.timers[j].active && v.timers[j].timeToFire == v.now + 1
  }

  /** Delivery up to slot i and the call of its handler. */
  ghost function AfterFirst(p: Callbacks, v: View, i: nat): (r: View)
    requires WellBehaved(p) && ValidView(v) && v.now < HORIZON && i < MAX_TIMERS && v.timers[i].funct.Some?
  {
    var w := v.(now := v.now + 1);
    ScanKeepsValid(w);
    DeliveredTo(p, Scan(w), DueSlots(w), 0, i)
  }

  lemma FirstIsReached(p: Callbacks, v: View, k: nat, i: nat, j: nat)
    requires WellBehaved(p) && OthersSpare(p, i, i) && OthersSpare(p, i, j) && ValidView(v) && v.now < HORIZON
    requires BothDue(v, k, i, j)
    ensures var w := AfterFirst(p, v, i);
            && ValidView(w) && w.now == v.now + 1
            && w.timers[i].inUse && w.timers[i].funct == Some(Device(k))
            && w.timers[j].inUse && w.timers[j].funct.Some? && w.timers[j].funct == v.timers[j].funct
            && FiringsOf(w.log, j) == FiringsOf(v.log, j)
            && (!v.timers[j].continuous ==> !w.timers[j].active)
            && Tick(p, v) == Deliver(p, w, DueSlots(v.(now := v.now + 1)), i)
  {
    hide WellBehaved, Deliver, OthersSpare, FiringsOf;
    var w := v.(now := v.now + 1);
    ScanKeepsValid(w);
    ReachedAlone(p, Scan(w), DueSlots(w), 0, i, i, j);
  }

  /** A timer that is due in the same tick is called although a handler before it deactivates it. */
  lemma DeactivationIsTooLate(p: Callbacks, v: View, k: nat, i: nat, j: nat)
    requires WellBehaved(p) && Stops(p, k, i, j) && ValidView(v) && v.now < HORIZON && BothDue(v, k, i, j)
    ensures FiringsOf(Tick(p, v).log, j) == FiringsOf(v.log, j) + [v.now + 1]
  {
    FirstIsReached(p, v, k, i, j);
    var due := DueSlots(v.(now := v.now + 1));
    assert due[i] && due[j];
    var w := AfterFirst(p, v, i);
    FireStops(p, w, i, j, k);
    FireKeepsValid(p, w, i);
    DeliverUnfolds(p, w, due, i);
    var x := Fire(p, w, i);
    FiringsOfAppend(w.log, Firing(w.now, i, w.timers[i].funct.value), j);
    hide WellBehaved, Fire, Tick, AfterFirst, FiringsOf, DueSlots;
    LaterIsCalled(p, x, due, i, j);
  }

  /** From behind slot i, slot j is reached unchanged and called. */
  lemma LaterIsCalled(p: Callbacks, x: View, due: seq<bool>, i: nat, j: nat)
    requires WellBehaved(p) && OthersSpare(p, i, i) && OthersSpare(p, i, j) && ValidView(x) && |due| == MAX_TIMERS
    requires i < j < MAX_TIMERS && due[j] && x.timers[i].inUse && x.timers[j].inUse && x.timers[j].funct.Some?
    ensures FiringsOf(Deliver(p, x, due, i + 1).log, j) == FiringsOf(x.log, j) + [x.now]
  {
    hide WellBehaved, Fire, OthersSpare, FiringsOf;
    ReachedAlone(p, x, due, i + 1, j, i, j);
    var y := DeliveredTo(p, x, due, i + 1, j);
    DeliverUnfolds(p, y, due, j);
    FireKeepsValid(p, y, j);
    FiringsOfAppend(y.log, Firing(y.now, j, y.timers[j].funct.value), j);
    NoMoreFirings(p, Fire(p, y, j), due, j + 1, j);
  }

  /** Slot i's device answers by removing slot j; nothing else operates on the two or registers timers. */
  ghost predicate Removes(p: Callbacks, k: nat, i: nat, j: nat) {
    && 1 <= j && i != j && Answers(p, k, i, [Unregister(j)]) && OthersSpare(p, i, i) && OthersSpare(p, i, j)
    && forall d, u :: ValidView(u) && u.triggered != i ==> forall c :: c in p(d, u).0 ==> !c.Register?
  }

  lemma FireRemoves(p: Callbacks, v: View, i: nat, j: nat, k: nat)
    requires WellBehaved(p) && Removes(p, k, i, j) && ValidView(v) && i < MAX_TIMERS && j < MAX_TIMERS
    requires v.timers[i].inUse && v.timers[i].funct == Some(Device(k))
    requires v.timers[j].inUse && !v.timers[j].active
    ensures ValidView(Fire(p, v, i)) && Fire(p, v, i).timers[i] == v.timers[i]
    ensures Fire(p, v, i).timers[j].funct.None? && !Fire(p, v, i).timers[j].inUse
  {
    assert SlotOk(v.timers[j], j, v.num, v.now, v.now + 1);
    AnsweredCall(p, v, i, k, Unregister(j));
  }

  /** While nothing registers timers, a slot that holds no handler gets none. */
  lemma {:induction false} StaysEmpty(v: View, calls: seq<Call>, j: nat)
    requires ValidView(v) && LegalAll(v, calls) && j < MAX_TIMERS && v.timers[j].funct.None?
    requires forall c :: c in calls ==> !c.Register?
    ensures ValidView(ApplyAll(v, calls)) && ApplyAll(v, calls).timers[j].funct.None?
    decreases |calls|
  {
    if calls != [] {
      assert calls[0] in calls;
      ApplyKeepsValid(v, calls[0]);
      StaysEmpty(Apply(v, calls[0]), calls[1..], j);
    }
  }

  lemma {:induction false} EmptyIsReached(
      p: Callbacks, v: View, due: seq<bool>, from: nat, to: nat, i: nat, j: nat, k: nat)
    requires WellBehaved(p) && Removes(p, k, i, j) && ValidView(v) && |due| == MAX_TIMERS
    requires i < from <= to <= j < MAX_TIMERS && v.timers[j].funct.None?
    ensures var r := DeliveredTo(p, v, due, from, to);
            && r.timers[j].funct.None?
            && FiringsOf(r.log, j) == FiringsOf(v.log, j)
    decreases MAX_TIMERS - from
  {
    hide WellBehaved, Fire, FiringsOf;
    if from < to {
      DeliverUnfolds(p, v, due, from);
      if due[from] && v.timers[from].funct.Some? {
        FireKeepsValid(p, v, from);
        FireStaysEmpty(p, v, from, i, j, k);
        FiringsOfAppend(v.log, Firing(v.now, from, v.timers[from].funct.value), j);
        EmptyIsReached(p, Fire(p, v, from), due, from + 1, to, i, j, k);
      } else {
        EmptyIsReached(p, v, due, from + 1, to, i, j, k);
      }
    }
  }

  lemma FireStaysEmpty(p: Callbacks, v: View, slot: nat, i: nat, j: nat, k: nat)
    requires WellBehaved(p) && Removes(p, k, i, j) && ValidView(v) && slot != i
    requires j < MAX_TIMERS && v.timers[j].funct.None? && slot < MAX_TIMERS && v.timers[slot].funct.Some?
    ensures ValidView(Fire(p, v, slot)) && Fire(p, v, slot).timers[j].funct.None?
  {
    FireKeepsValid(p, v, slot);
    var h := v.timers[slot].funct.value;
    StaysEmpty(Called(v, slot, h), React(p, h, Called(v, slot, h)).0, j);
  }

  /** Removed by a handler before it, a one-shot timer that is due in the same tick is not called any more. */
  lemma RemovalIsNot(p: Callbacks, v: View, k: nat, i: nat, j: nat)
    requires WellBehaved(p) && Removes(p, k, i, j) && ValidView(v) && v.now < HORIZON
    requires BothDue(v, k, i, j) && !v.timers[j].continuous
    ensures FiringsOf(Tick(p, v).log, j) == FiringsOf(v.log, j)
  {
    FirstIsReached(p, v, k, i, j);
    hide WellBehaved, Fire, Deliver, FiringsOf, Removes, AfterFirst, Tick;
    RemovedBefore(p, AfterFirst(p, v, i), DueSlots(v.(now := v.now + 1)), i, j, k);
  }

  /** From slot i on, slot j is not called. */
  lemma RemovedBefore(p: Callbacks, w: View, due: seq<bool>, i: nat, j: nat, k: nat)
    requires WellBehaved(p) && Removes(p, k, i, j) && ValidView(w) && |due| == MAX_TIMERS && i < j < MAX_TIMERS
    requires due[i] && w.timers[i].inUse && w.timers[i].funct == Some(Device(k))
    requires w.timers[j].inUse && !w.timers[j].active
    ensures FiringsOf(Deliver(p, w, due, i).log, j) == FiringsOf(w.log, j)
  {
    hide WellBehaved, Fire, Deliver, FiringsOf, Removes;
    FireRemoves(p, w, i, j, k);
    FireKeepsValid(p, w, i);
    DeliverUnfolds(p, w, due, i);
    var x := Fire(p, w, i);
    FiringsOfAppend(w.log, Firing(w.now, i, w.timers[i].funct.value), j);
    EmptyIsReached(p, x, due, i + 1, j, i, j, k);
    var y := DeliveredTo(p, x, due, i + 1, j);
    DeliverUnfolds(p, y, due, j);
    NoMoreFirings(p, y, due, j + 1, j);
  }

  // ------------------------------------------------------------------ what handlers leave behind

  /** Every device adds its number, the slot it is told has triggered and the time it is shown to the device
      state, whatever calls it makes. */
  ghost predicate LeavesMark(p: Callbacks) {
    forall k, u :: p(k, u).1 == u.world + [k, u.triggered, u.now]
  }

  /** The devices called, with slots and times, in order; the null timer is none. */
  function DevicesOf(log: seq<Firing>): World {
    if log == [] then [] else
      var last := log[|log| - 1];
      DevicesOf(log[..|log| - 1]) +
      (match last.handler case NullTimer => [] case Device(k) => [k, last.slot, last.time])
  }

  lemma DevicesOfAppend(log: seq<Firing>, f: Firing)
    ensures DevicesOf(log + [f]) ==
            DevicesOf(log) + (match f.handler case NullTimer => [] case Device(k) => [k, f.slot, f.time])
  {
    assert (log + [f])[..|log|] == log;
  }

  lemma {:induction false} DeliverLeavesMarks(p: Callbacks, v: View, due: seq<bool>, from: nat)
    requires WellBehaved(p) && LeavesMark(p) && ValidView(v) && |due| == MAX_TIMERS && from <= MAX_TIMERS
    requires v.world == DevicesOf(v.log)
    ensures Deliver(p, v, due, from).world == DevicesOf(Deliver(p, v, due, from).log)
    decreases MAX_TIMERS - from
  {
    hide WellBehaved, LeavesMark, Fire, DevicesOf;
    if from < MAX_TIMERS {
      DeliverUnfolds(p, v, due, from);
      if due[from] && v.timers[from].funct.Some? {
        FireLeavesMark(p, v, from);
        DeliverLeavesMarks(p, Fire(p, v, from), due, from + 1);
      } else {
        DeliverLeavesMarks(p, v, due, from + 1);
      }
    } else {
      AllDelivered(p, v, due);
    }
  }

  lemma FireLeavesMark(p: Callbacks, v: View, slot: nat)
    requires WellBehaved(p) && LeavesMark(p) && ValidView(v) && slot < MAX_TIMERS && v.timers[slot].funct.Some?
    requires v.world == DevicesOf(v.log)
    ensures ValidView(Fire(p, v, slot)) && Fire(p, v, slot).world == DevicesOf(Fire(p, v, slot).log)
  {
    FireKeepsValid(p, v, slot);
    var h := v.timers[slot].funct.value;
    DevicesOfAppend(v.log, Firing(v.now, slot, h));
  }

  lemma {:induction false} TicksLeaveMarks(p: Callbacks, v: View, n: nat)
    requires WellBehaved(p) && LeavesMark(p) && ValidView(v) && v.now + n <= HORIZON
    requires v.world == DevicesOf(v.log)
    ensures Ticked(p, v, n).world == DevicesOf(Ticked(p, v, n).log)
    decreases n
  {
    hide WellBehaved, LeavesMark, Deliver, DevicesOf;
    if n != 0 {
      var w := v.(now := v.now + 1);
      ScanKeepsValid(w);
      DeliverLeavesMarks(p, Scan(w), DueSlots(w), 0);
      TicksLeaveMarks(p, Tick(p, v), n - 1);
    }
  }

  /** Over a run, what the devices leave behind is what the log says was called: every handler gets the state
      that the one before it left. */
  lemma {:induction false} DevicesActInTurn(p: Callbacks, v: View, ops: seq<Op>)
    requires WellBehaved(p) && LeavesMark(p) && ValidView(v) && LegalRun(p, v, ops) && v.world == DevicesOf(v.log)
    ensures Run(p, v, ops).world == DevicesOf(Run(p, v, ops).log)
    decreases |ops|
  {
    hide WellBehaved, LeavesMark, Ticked, Apply, DevicesOf;
    if ops != [] {
      match ops[0] {
        case Use(c) =>
          ApplyKeepsValid(v, c);
          DevicesActInTurn(p, Apply(v, c), ops[1..]);
        case Pass(n) =>
          TicksLeaveMarks(p, v, n);
          DevicesActInTurn(p, Ticked(p, v, n), ops[1..]);
      }
    }
  }

  // ------------------------------------------------------------------ devices and states of this kind

  /** Device k makes call c when slot i triggers, if the interface accepts it, and nothing else is ever called;
      every device leaves its mark. */
  ghost function OnTrigger(k: nat, i: nat, c: Call): Callbacks {
    (d: nat, u: View) =>
      (if d == k && u.triggered == i && LegalAll(u, [c]) then [c] else [], u.world + [d, u.triggered, u.now])
  }

  lemma OnTriggerIsWellBehaved(k: nat, i: nat, c: Call)
    ensures WellBehaved(OnTrigger(k, i, c)) && LeavesMark(OnTrigger(k, i, c))
  {
    hide Legal, Apply;
    forall d, u | ValidView(u) ensures LegalAll(u, OnTrigger(k, i, c)(d, u).0) {
    }
  }

  /** Devices as the theorems ask for exist, for every two slots that may be operated on and every period. */
  lemma SuchDevicesExist(k: nat, i: nat, j: nat, q: Ticks)
    requires 1 <= i && 1 <= j && i != j && 1 <= q
    ensures exists p :: WellBehaved(p) && LeavesMark(p) && RearmsItself(p, k, i, q)
    ensures exists p :: WellBehaved(p) && LeavesMark(p) && Stops(p, k, i, j)
    ensures exists p :: WellBehaved(p) && LeavesMark(p) && Removes(p, k, i, j)
  {
    hide WellBehaved, LeavesMark, LegalAll, ValidView;
    OnTriggerIsWellBehaved(k, i, Activate(i, q, false));
    OnTriggerIsWellBehaved(k, i, Deactivate(j));
    OnTriggerIsWellBehaved(k, i, Unregister(j));
    RearmingDevice(k, i, q);
    assert Stops(OnTrigger(k, i, Deactivate(j)), k, i, j);
    assert Removes(OnTrigger(k, i, Unregister(j)), k, i, j);
  }

  lemma RearmingDevice(k: nat, i: nat, q: Ticks)
    requires 1 <= i && 1 <= q
    ensures RearmsItself(OnTrigger(k, i, Activate(i, q, false)), k, i, q)
  {
    var c := Activate(i, q, false);
    forall u | ValidView(u) && u.triggered == i < u.num ensures LegalAll(u, [c]) {
      OneIsLegal(u, c);
    }
    assert RearmsLast([c], i, q);
    hide LegalAll, ValidView;
  }

  /** Two one-shot timers of devices 1 and 2 that are due at tick 10, seen at tick 9. */
  lemma TwoTimersDue()
    ensures var v := View([NULL_SLOT, Timer(true, 10, 10, true, false, Some(Device(1)), 0),
                           Timer(true, 10, 10, true, false, Some(Device(2)), 0)] + seq(61, _ => FREE),
                          3, 9, 0, [], []);
            ValidView(v) && BothDue(v, 1, 1, 2)
  {
  }
}
