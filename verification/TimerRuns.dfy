/** What the scheduler guarantees over whole runs.  The results are about NaiveScheduler's
    functions, which the methods of PcSystem.Scheduler are proved to compute. */
module TimerRuns {
  import opened Arithmetic
  import opened NaiveScheduler
  import PcSystem

  // ------------------------------------------------------------------ runs

  datatype Op = Use(call: Call) | Pass(ticks: nat)

  ghost predicate LegalRun(p: Callbacks, v: View, ops: seq<Op>)
    requires WellBehaved(p) && ValidView(v)
    decreases |ops|
  {
    ops == [] ||
    match ops[0]
    case Use(c) => Legal(v, c) && (ApplyKeepsValid(v, c); LegalRun(p, Apply(v, c), ops[1..]))
    case Pass(n) => v.now + n <= HORIZON && LegalRun(p, Ticked(p, v, n), ops[1..])
  }

  /** The naive scheduler driven by a sequence of interface calls and stretches of time. */
  ghost function Run(p: Callbacks, v: View, ops: seq<Op>): (r: View)
    requires WellBehaved(p) && ValidView(v) && LegalRun(p, v, ops)
    ensures ValidView(r) && v.now <= r.now
    decreases |ops|
  {
    if ops == [] then v else
      match ops[0]
      case Use(c) => (ApplyKeepsValid(v, c); Run(p, Apply(v, c), ops[1..]))
      case Pass(n) => Run(p, Ticked(p, v, n), ops[1..])
  }

  /** Bochs's scheduler and the naive one stay in step over every run: same timer table, same
      clock, same device state, and the same handlers called at the same times in the same order. */
  method Drive(s: PcSystem.Scheduler, ops: seq<Op>)
    requires s.Valid() && ValidView(s.Observed()) && LegalRun(s.callbacks, s.Observed(), ops)
    modifies s, s.timer
    ensures s.Valid() && ValidView(s.Observed())
    ensures s.Observed() == Run(s.callbacks, old(s.Observed()), ops)
    decreases |ops|
  {
    if ops != [] {
      match ops[0] {
        case Use(c) => ApplyKeepsValid(s.Observed(), c); s.Perform(c);
        case Pass(n) => s.TickN(n);
      }
      s.CountdownIsSafe(0);
      Drive(s, ops[1..]);
    }
  }

  lemma InitialIsValid()
    ensures ValidView(Initial())
  {
    forall i | 0 <= i < MAX_TIMERS ensures SlotOk(Initial().timers[i], i, 1, 0, 1) {
    }
  }

  // ------------------------------------------------------------------ firing order

  predicate Before(a: Firing, b: Firing) {
    a.time < b.time || (a.time == b.time && a.slot < b.slot)
  }

  ghost predicate Ordered(log: seq<Firing>) {
    forall a, b :: 0 <= a < b < |log| ==> Before(log[a], log[b])
  }

  /** Everything logged so far comes before a firing at `time` in slot `slot`. */
  ghost predicate Precedes(log: seq<Firing>, time: nat, slot: nat) {
    forall a :: 0 <= a < |log| ==> log[a].time < time || (log[a].time == time && log[a].slot < slot)
  }

  lemma {:induction false} DeliverOrders(p: Callbacks, v: View, due: seq<bool>, i: nat)
    requires WellBehaved(p) && ValidView(v) && |due| == MAX_TIMERS && i <= MAX_TIMERS
    requires Ordered(v.log) && Precedes(v.log, v.now, i)
    ensures Ordered(Deliver(p, v, due, i).log) && Precedes(Deliver(p, v, due, i).log, v.now + 1, 0)
    decreases MAX_TIMERS - i
  {
    hide WellBehaved, Fire;
    if i < MAX_TIMERS {
      DeliverUnfolds(p, v, due, i);
      if due[i] && v.timers[i].funct.Some? {
        FireKeepsValid(p, v, i);
        DeliverOrders(p, Fire(p, v, i), due, i + 1);
      } else {
        DeliverOrders(p, v, due, i + 1);
      }
    } else {
      AllDelivered(p, v, due);
    }
  }

  /** Over any stretch of time handlers are called in strictly increasing (time, slot) order: never
      late, never twice for one slot in one tick, lower slots first. */
  lemma {:induction false} TicksFireInOrder(p: Callbacks, v: View, n: nat)
    requires WellBehaved(p) && ValidView(v) && v.now + n <= HORIZON
    requires Ordered(v.log) && Precedes(v.log, v.now + 1, 0)
    ensures Ordered(Ticked(p, v, n).log) && Precedes(Ticked(p, v, n).log, v.now + n + 1, 0)
    decreases n
  {
    hide WellBehaved, Deliver;
    if n != 0 {
      var w := v.(now := v.now + 1);
      ScanKeepsValid(w);
      DeliverOrders(p, Scan(w), DueSlots(w), 0);
      TicksFireInOrder(p, Tick(p, v), n - 1);
    }
  }

  // ------------------------------------------------------------------ a timer left alone

  predicate Touches(c: Call, i: nat) {
    match c
    case Register(_, _, _, _) => false
    case Activate(j, _, _) => i == j
    case Deactivate(j) => i == j
    case Unregister(j) => i == j
    case SetParam(j, _) => i == j
  }

  /** No device ever operates on slot `i`; they may do anything to the other timers. */
  ghost predicate Spares(p: Callbacks, i: nat) {
    forall k, v :: ValidView(v) ==> NoneTouches(p(k, v).0, i)
  }

  predicate NoneTouches(calls: seq<Call>, i: nat) {
    forall c :: c in calls ==> !Touches(c, i)
  }

  lemma {:induction false} ApplyAllSpares(v: View, calls: seq<Call>, i: nat)
    requires ValidView(v) && LegalAll(v, calls) && NoneTouches(calls, i)
    requires i < MAX_TIMERS && v.timers[i].inUse
    ensures ValidView(ApplyAll(v, calls)) && ApplyAll(v, calls).timers[i] == v.timers[i]
    decreases |calls|
  {
    if calls != [] {
      assert calls[0] in calls;
      ApplyKeepsValid(v, calls[0]);
      ApplyAllSpares(Apply(v, calls[0]), calls[1..], i);
    }
  }

  lemma FireSpares(p: Callbacks, v: View, slot: nat, i: nat)
    requires WellBehaved(p) && Spares(p, i) && ValidView(v)
    requires i < MAX_TIMERS && v.timers[i].inUse && slot < MAX_TIMERS && v.timers[slot].funct.Some?
    ensures ValidView(Fire(p, v, slot)) && Fire(p, v, slot).timers[i] == v.timers[i]
  {
    FireKeepsValid(p, v, slot);
    var h := v.timers[slot].funct.value;
    ApplyAllSpares(Called(v, slot, h), React(p, h, Called(v, slot, h)).0, i);
  }

  /** The times at which slot `i` fired. */
  function FiringsOf(log: seq<Firing>, i: nat): seq<nat> {
    if log == [] then [] else
      var last := log[|log| - 1];
      FiringsOf(log[..|log| - 1], i) + (if last.slot == i then [last.time] else [])
  }

  lemma FiringsOfAppend(log: seq<Firing>, f: Firing, i: nat)
    ensures FiringsOf(log + [f], i) == FiringsOf(log, i) + (if f.slot == i then [f.time] else [])
  {
    assert (log + [f])[..|log|] == log;
  }

  lemma {:induction false} DeliverSpares(p: Callbacks, v: View, due: seq<bool>, from: nat, i: nat)
    requires WellBehaved(p) && Spares(p, i) && ValidView(v) && |due| == MAX_TIMERS && from <= MAX_TIMERS
    requires i < MAX_TIMERS && v.timers[i].inUse && v.timers[i].funct.Some?
    ensures Deliver(p, v, due, from).timers[i] == v.timers[i]
    ensures FiringsOf(Deliver(p, v, due, from).log, i) ==
            FiringsOf(v.log, i) + (if from <= i && due[i] then [v.now] else [])
    decreases MAX_TIMERS - from
  {
    hide WellBehaved, Fire, Spares, FiringsOf;
    if from < MAX_TIMERS {
      DeliverUnfolds(p, v, due, from);
      if due[from] && v.timers[from].funct.Some? {
        FireKeepsValid(p, v, from);
        FireSpares(p, v, from, i);
        FiringsOfAppend(v.log, Firing(v.now, from, v.timers[from].funct.value), i);
        DeliverSpares(p, Fire(p, v, from), due, from + 1, i);
      } else {
        DeliverSpares(p, v, due, from + 1, i);
      }
    } else {
      AllDelivered(p, v, due);
    }
  }

  lemma TickSpares(p: Callbacks, v: View, i: nat)
    requires WellBehaved(p) && Spares(p, i) && ValidView(v) && v.now < HORIZON
    requires i < MAX_TIMERS && v.timers[i].inUse && v.timers[i].funct.Some?
    ensures Tick(p, v).timers[i] == Advance(v.timers[i], v.now + 1)
    ensures FiringsOf(Tick(p, v).log, i) ==
            FiringsOf(v.log, i) + (if Due(v.timers[i], v.now + 1) then [v.now + 1] else [])
  {
    hide WellBehaved, Deliver, Spares, FiringsOf;
    var w := v.(now := v.now + 1);
    ScanKeepsValid(w);
    DeliverSpares(p, Scan(w), DueSlots(w), 0, i);
  }

  lemma NoTicks(p: Callbacks, v: View)
    requires WellBehaved(p) && ValidView(v)
    ensures Ticked(p, v, 0) == v && 1 <= v.num <= |v.timers| == MAX_TIMERS
  {
  }

  lemma LastTick(p: Callbacks, v: View, n: nat)
    requires WellBehaved(p) && ValidView(v) && 1 <= n && v.now + n <= HORIZON
    ensures Ticked(p, v, n) == Tick(p, Ticked(p, v, n - 1))
    ensures |Ticked(p, v, n - 1).timers| == |Ticked(p, v, n).timers| == MAX_TIMERS
  {
    hide WellBehaved, Tick;
    TicksCompose(p, v, n - 1, 1);
    var w := Ticked(p, v, n - 1);
    assert Ticked(p, w, 1) == Ticked(p, Tick(p, w), 0);
  }

  /** start, start + period, ... (k terms) */
  function Multiples(start: nat, period: nat, k: nat): seq<nat> {
    if k == 0 then [] else Multiples(start, period, k - 1) + [start + (k - 1) * period]
  }

  /** How often a timer due in `d` ticks and every `period` ticks after that has fired after n ticks. */
  function FiredAfter(d: nat, period: nat, n: nat): nat {
    if n == 0 then 0 else
      var k := FiredAfter(d, period, n - 1);
      if d + k * period == n then k + 1 else k
  }

  lemma {:induction false} FiredBounds(d: nat, period: nat, n: nat)
    requires 1 <= d <= period
    ensures var k := FiredAfter(d, period, n);
            n < d + k * period <= n + period
  {
    if n != 0 {
      FiredBounds(d, period, n - 1);
      var k := FiredAfter(d, period, n - 1);
      assert (k + 1) * period == k * period + period;
    }
  }

  lemma FiredIsQuotient(d: nat, period: nat, n: nat)
    requires 1 <= d <= period
    ensures FiredAfter(d, period, n) == (n + period - d) / period
  {
    FiredBounds(d, period, n);
    var k := FiredAfter(d, period, n);
    DivUnique(n + period - d, period, k, n + period - d - k * period);
  }

  lemma {:induction false} MultiplesAt(start: nat, period: nat, k: nat, j: nat)
    requires j < k
    ensures |Multiples(start, period, k)| == k && Multiples(start, period, k)[j] == start + j * period
  {
    if j < k - 1 {
      MultiplesAt(start, period, k - 1, j);
    } else if k > 1 {
      MultiplesAt(start, period, k - 1, 0);
    }
  }

  lemma NoMultiples(start: nat, period: nat)
    ensures Multiples(start, period, 0) == [] && 0 * period == 0
  {
  }

  lemma MultiplesStep(start: nat, period: nat, k: nat)
    ensures Multiples(start, period, k + 1) == Multiples(start, period, k) + [start + k * period]
    ensures (k + 1) * period == k * period + period
  {
  }

  /** A continuous timer that no device touches, after n ticks. */
  lemma {:induction false} LeftAlone(p: Callbacks, v: View, i: nat, n: nat)
    requires WellBehaved(p) && Spares(p, i) && ValidView(v) && v.now + n <= HORIZON && i < MAX_TIMERS
    requires v.timers[i].active && v.timers[i].continuous && v.timers[i].funct.Some? && v.timers[i].inUse
    requires v.now < v.timers[i].timeToFire
    ensures var t := v.timers[i];
            var fired := FiredAfter(t.timeToFire - v.now, t.period, n);
            && |Ticked(p, v, n).timers| == MAX_TIMERS
            && Ticked(p, v, n).timers[i] == t.(timeToFire := t.timeToFire + fired * t.period)
            && FiringsOf(Ticked(p, v, n).log, i) ==
               FiringsOf(v.log, i) + Multiples(t.timeToFire, t.period, fired)
    decreases n
  {
    hide WellBehaved, Ticked, Tick, Spares, FiringsOf, TableOk, Multiples;
    NoTicks(p, v);
    NoMultiples(v.timers[i].timeToFire, v.timers[i].period);
    if n != 0 {
      LeftAlone(p, v, i, n - 1);
      LastTick(p, v, n);
      var t := v.timers[i];
      var w := Ticked(p, v, n - 1);
      TickSpares(p, w, i);
      var before := FiredAfter(t.timeToFire - v.now, t.period, n - 1);
      MultiplesStep(t.timeToFire, t.period, before);
    }
  }

  /** The same for a one-shot timer: it fires when it comes due and is then inactive. */
  lemma {:induction false} OneShotLeftAlone(p: Callbacks, v: View, i: nat, n: nat)
    requires WellBehaved(p) && Spares(p, i) && ValidView(v) && v.now + n <= HORIZON && i < MAX_TIMERS
    requires v.timers[i].active && !v.timers[i].continuous && v.timers[i].funct.Some? && v.timers[i].inUse
    requires v.now < v.timers[i].timeToFire
    ensures var t := v.timers[i];
            var due := t.timeToFire <= v.now + n;
            && Ticked(p, v, n).timers[i] == (if due then t.(active := false) else t)
            && FiringsOf(Ticked(p, v, n).log, i) == FiringsOf(v.log, i) + (if due then [t.timeToFire] else [])
    decreases n
  {
    hide WellBehaved, Ticked, Tick, Spares, FiringsOf, TableOk;
    NoTicks(p, v);
    if n != 0 {
      OneShotLeftAlone(p, v, i, n - 1);
      LastTick(p, v, n);
      var w := Ticked(p, v, n - 1);
      TickSpares(p, w, i);
    }
  }

  // ------------------------------------------------------------------ whole runs

  /** The time a run takes. */
  function Elapsed(ops: seq<Op>): nat
    decreases |ops|
  {
    if ops == [] then 0 else (match ops[0] case Use(_) => 0 case Pass(n) => n) + Elapsed(ops[1..])
  }

  lemma EmptyRun(p: Callbacks, v: View)
    requires WellBehaved(p) && ValidView(v)
    ensures LegalRun(p, v, []) && Run(p, v, []) == v && Elapsed([]) == 0
  {
    hide WellBehaved, TableOk;
  }

  lemma UseStep(p: Callbacks, v: View, ops: seq<Op>)
    requires WellBehaved(p) && ValidView(v) && ops != [] && ops[0].Use? && LegalRun(p, v, ops)
    ensures var c := ops[0].call;
            && Legal(v, c) && 1 <= v.num <= MAX_TIMERS == |v.timers|
            && ValidView(Apply(v, c)) && LegalRun(p, Apply(v, c), ops[1..])
            && Run(p, v, ops) == Run(p, Apply(v, c), ops[1..]) && Elapsed(ops) == Elapsed(ops[1..])
  {
    ApplyKeepsValid(v, ops[0].call);
    hide Apply, Legal, WellBehaved;
  }

  lemma PassStep(p: Callbacks, v: View, ops: seq<Op>)
    requires WellBehaved(p) && ValidView(v) && ops != [] && ops[0].Pass? && LegalRun(p, v, ops)
    ensures var a := ops[0].ticks;
            && v.now + a <= HORIZON && LegalRun(p, Ticked(p, v, a), ops[1..])
            && Run(p, v, ops) == Run(p, Ticked(p, v, a), ops[1..]) && Elapsed(ops) == a + Elapsed(ops[1..])
  {
    hide Ticked, WellBehaved, TableOk;
  }

  /** No call of the run itself operates on slot i. */
  predicate RunSpares(ops: seq<Op>, i: nat) {
    forall op :: op in ops ==> op.Use? ==> !Touches(op.call, i)
  }

  /** From the initial state handlers are called in strictly increasing (time, slot) order over every run
      of interface calls and stretches of time. */
  lemma {:induction false} RunFiresInOrder(p: Callbacks, v: View, ops: seq<Op>)
    requires WellBehaved(p) && ValidView(v) && LegalRun(p, v, ops)
    requires Ordered(v.log) && Precedes(v.log, v.now + 1, 0)
    ensures Ordered(Run(p, v, ops).log) && Precedes(Run(p, v, ops).log, Run(p, v, ops).now + 1, 0)
    ensures Run(p, v, ops).now == v.now + Elapsed(ops)
    decreases |ops|
  {
    hide WellBehaved, Ordered, Precedes, Ticked, Apply;
    if ops != [] {
      match ops[0] {
        case Use(c) =>
          ApplyKeepsValid(v, c);
          RunFiresInOrder(p, Apply(v, c), ops[1..]);
        case Pass(n) =>
          TicksFireInOrder(p, v, n);
          RunFiresInOrder(p, Ticked(p, v, n), ops[1..]);
      }
    }
  }

  lemma FromTheStart(p: Callbacks, ops: seq<Op>)
    requires WellBehaved(p)
    ensures ValidView(Initial())
    ensures LegalRun(p, Initial(), ops) ==> Ordered(Run(p, Initial(), ops).log)
  {
    InitialIsValid();
    if LegalRun(p, Initial(), ops) { RunFiresInOrder(p, Initial(), ops); }
  }

  lemma MultiplesConcat(start: nat, period: nat, a: nat, b: nat)
    ensures Multiples(start, period, a) + Multiples(start + a * period, period, b) == Multiples(start, period, a + b)
    decreases b
  {
    hide Multiples;
    if b == 0 {
      NoMultiples(start + a * period, period);
      assert Multiples(start, period, a) + [] == Multiples(start, period, a);
    } else {
      MultiplesConcat(start, period, a, b - 1);
      MultiplesStep(start + a * period, period, b - 1);
      MultiplesStep(start, period, a + b - 1);
      SumOfProducts(a, b - 1, period);
    }
  }

  /** Counting firings over a + b ticks is counting them over a and then over b. */
  lemma {:induction false} FiredSplits(d: nat, period: nat, a: nat, b: nat)
    requires 1 <= d <= period
    ensures var k := FiredAfter(d, period, a);
            && a < d + k * period <= a + period
            && FiredAfter(d, period, a + b) == k + FiredAfter(d + k * period - a, period, b)
    decreases b
  {
    FiredBounds(d, period, a);
    if b > 0 {
      FiredSplits(d, period, a, b - 1);
      var k := FiredAfter(d, period, a);
      var rest: nat := d + k * period - a;
      SumOfProducts(k, FiredAfter(rest, period, b - 1), period);
    }
  }

  lemma UseSpares(v: View, c: Call, i: nat)
    requires ValidView(v) && Legal(v, c) && !Touches(c, i) && i < MAX_TIMERS && v.timers[i].inUse
    ensures ValidView(Apply(v, c)) && Apply(v, c).timers[i] == v.timers[i]
    ensures Apply(v, c).now == v.now && Apply(v, c).log == v.log
  {
    ApplyKeepsValid(v, c);
  }

  /** How often a continuous timer fires in the n ticks after `now`, and at what times. */
  function FireCount(t: Timer, now: nat, n: nat): nat {
    if now < t.timeToFire then FiredAfter(t.timeToFire - now, t.period, n) else 0
  }

  function FiringTimes(t: Timer, now: nat, n: nat): seq<nat> {
    Multiples(t.timeToFire, t.period, FireCount(t, now, n))
  }

  function Rearmed(t: Timer, now: nat, n: nat): Timer {
    t.(timeToFire := t.timeToFire + FireCount(t, now, n) * t.period)
  }

  /** View r is reached from a state with this log in n ticks after `now`, with timer t in slot i alone. */
  predicate AfterAlone(t: Timer, now: nat, n: nat, log: seq<Firing>, r: View, i: nat) {
    && i < |r.timers| == MAX_TIMERS && r.now == now + n
    && r.timers[i] == Rearmed(t, now, n)
    && FiringsOf(r.log, i) == FiringsOf(log, i) + FiringTimes(t, now, n)
  }

  /** The next due time after n ticks, and a period that goes on from there. */
  lemma RearmedIsLater(t: Timer, now: nat, a: nat, b: nat)
    requires now < t.timeToFire <= now + t.period
    ensures var u := Rearmed(t, now, a);
            && now + a < u.timeToFire <= now + a + t.period
            && FireCount(t, now, a + b) == FireCount(t, now, a) + FireCount(u, now + a, b)
            && Rearmed(u, now + a, b) == Rearmed(t, now, a + b)
            && FiringTimes(t, now, a) + FiringTimes(u, now + a, b) == FiringTimes(t, now, a + b)
  {
    hide Multiples, FiredAfter;
    var d := t.timeToFire - now;
    var k := FiredAfter(d, t.period, a);
    FiredSplits(d, t.period, a, b);
    var m := FiredAfter(d + k * t.period - a, t.period, b);
    MultiplesConcat(t.timeToFire, t.period, k, m);
    SumOfProducts(k, m, t.period);
  }

  lemma AloneThenAlone(t: Timer, now: nat, a: nat, log: seq<Firing>, w: View, b: nat, r: View, i: nat)
    requires now < t.timeToFire <= now + t.period
    requires AfterAlone(t, now, a, log, w, i) && AfterAlone(w.timers[i], w.now, b, w.log, r, i)
    ensures AfterAlone(t, now, a + b, log, r, i)
  {
    hide FiringsOf, FiringTimes, Rearmed, FireCount;
    RearmedIsLater(t, now, a, b);
  }

  lemma StaysArmed(t: Timer, now: nat, n: nat, log: seq<Firing>, w: View, i: nat)
    requires AfterAlone(t, now, n, log, w, i) && now < t.timeToFire <= now + t.period
    ensures i < |w.timers| && w.timers[i] == t.(timeToFire := w.timers[i].timeToFire)
    ensures w.now == now + n && w.now < w.timers[i].timeToFire <= w.now + t.period
  {
    hide FiringsOf, FiringTimes, FireCount;
    RearmedIsLater(t, now, n, 0);
  }

  lemma NothingElapsed(t: Timer, v: View, i: nat)
    requires i < |v.timers| == MAX_TIMERS && v.timers[i] == t
    ensures AfterAlone(t, v.now, 0, v.log, v, i)
  {
    NoMultiples(t.timeToFire, t.period);
    assert FiredAfter(1, t.period, 0) == 0;
  }

  lemma TicksLeaveAlone(p: Callbacks, v: View, i: nat, n: nat)
    requires WellBehaved(p) && Spares(p, i) && ValidView(v) && v.now + n <= HORIZON && i < MAX_TIMERS
    requires v.timers[i].active && v.timers[i].continuous && v.timers[i].funct.Some? && v.timers[i].inUse
    requires v.now < v.timers[i].timeToFire
    ensures AfterAlone(v.timers[i], v.now, n, v.log, Ticked(p, v, n), i)
  {
    hide WellBehaved, Ticked, Spares, FiringsOf, TableOk, FiredAfter, Multiples;
    LeftAlone(p, v, i, n);
  }

  /** LeftAlone over a run: other timers may be registered, re-armed and removed at any time. */
  lemma {:induction false} LeftAloneInRun(p: Callbacks, v: View, ops: seq<Op>, i: nat)
    requires WellBehaved(p) && Spares(p, i) && ValidView(v)
    requires LegalRun(p, v, ops) && RunSpares(ops, i) && i < MAX_TIMERS
    requires v.timers[i].active && v.timers[i].continuous && v.timers[i].funct.Some? && v.timers[i].inUse
    requires v.now < v.timers[i].timeToFire <= v.now + v.timers[i].period
    ensures AfterAlone(v.timers[i], v.now, Elapsed(ops), v.log, Run(p, v, ops), i)
    decreases |ops|
  {
    hide *;
    NoTicks(p, v);
    var t := v.timers[i];
    if ops == [] {
      EmptyRun(p, v);
      NothingElapsed(t, v, i);
    } else {
      SparesNext(ops, i);
      match ops[0] {
        case Use(c) =>
          UseStep(p, v, ops);
          UseSpares(v, c, i);
          LeftAloneInRun(p, Apply(v, c), ops[1..], i);
        case Pass(a) =>
          PassStep(p, v, ops);
          var w := Ticked(p, v, a);
          TicksLeaveAlone(p, v, i, a);
          StaysArmed(t, v.now, a, v.log, w, i);
          LeftAloneInRun(p, w, ops[1..], i);
          AloneThenAlone(t, v.now, a, v.log, w, Elapsed(ops[1..]), Run(p, w, ops[1..]), i);
      }
    }
  }

  lemma SparesNext(ops: seq<Op>, i: nat)
    requires ops != [] && RunSpares(ops, i)
    ensures RunSpares(ops[1..], i) && (ops[0].Use? ==> !Touches(ops[0].call, i))
  {
    assert ops[0] in ops && forall op :: op in ops[1..] ==> op in ops;
    hide Touches;
  }

  /** The due time and every period after it, as many as fit into n ticks. */
  predicate OnSchedule(times: seq<nat>, due: nat, period: nat, now: nat, n: nat) {
    && now < due <= now + period
    && |times| == (n + period - (due - now)) / period
    && forall j :: 0 <= j < |times| ==> times[j] == due + j * period
  }

  lemma FiringTimesExactly(t: Timer, now: nat, n: nat)
    requires now < t.timeToFire <= now + t.period
    ensures OnSchedule(FiringTimes(t, now, n), t.timeToFire, t.period, now, n)
  {
    hide FiredAfter, Multiples;
    FiredIsQuotient(t.timeToFire - now, t.period, n);
    var k := FireCount(t, now, n);
    if k == 0 { NoMultiples(t.timeToFire, t.period); } else { MultiplesAt(t.timeToFire, t.period, k, 0); }
    forall j | 0 <= j < k ensures Multiples(t.timeToFire, t.period, k)[j] == t.timeToFire + j * t.period {
      MultiplesAt(t.timeToFire, t.period, k, j);
    }
  }

  /** No drift over a run: the timer fires at its due time and every period after it, and at no other time,
      whatever happens to the other timers. */
  lemma ContinuousTimerNeverDrifts(p: Callbacks, v: View, ops: seq<Op>, i: nat)
    requires WellBehaved(p) && Spares(p, i) && ValidView(v)
    requires LegalRun(p, v, ops) && RunSpares(ops, i) && i < MAX_TIMERS
    requires v.timers[i].active && v.timers[i].continuous && v.timers[i].funct.Some?
    ensures var t := v.timers[i];
            var times := FiringTimes(t, v.now, Elapsed(ops));
            && FiringsOf(Run(p, v, ops).log, i) == FiringsOf(v.log, i) + times
            && OnSchedule(times, t.timeToFire, t.period, v.now, Elapsed(ops))
  {
    assert SlotOk(v.timers[i], i, v.num, v.now, v.now + 1);
    hide WellBehaved, Spares, Run, LegalRun, FiringsOf, FiringTimes, TableOk, Rearmed, OnSchedule;
    LeftAloneInRun(p, v, ops, i);
    FiringTimesExactly(v.timers[i], v.now, Elapsed(ops));
  }

  /** Activated with period q, it has fired n / q times when a run has taken n ticks. */
  lemma ActivatedTimerFiresOnSchedule(p: Callbacks, v: View, ops: seq<Op>, i: nat, ticks: Ticks)
    requires WellBehaved(p) && Spares(p, i) && ValidView(v)
    requires Legal(v, Activate(i, ticks, true)) && v.timers[i].funct.Some?
    requires ValidView(Apply(v, Activate(i, ticks, true))) && LegalRun(p, Apply(v, Activate(i, ticks, true)), ops)
    requires RunSpares(ops, i)
    ensures var w := Apply(v, Activate(i, ticks, true));
            var q, n := if ticks == 0 then 1 else ticks, Elapsed(ops);
            && q > 0
            && var times := FiringTimes(w.timers[i], v.now, n);
            && FiringsOf(Run(p, w, ops).log, i) == FiringsOf(v.log, i) + times
            && OnSchedule(times, v.now + q, q, v.now, n) && |times| == n / q
  {
    hide WellBehaved, Spares, Run, LegalRun, FiringsOf, FiringTimes, TableOk;
    NoTicks(p, v);
    ContinuousTimerNeverDrifts(p, Apply(v, Activate(i, ticks, true)), ops, i);
  }

  /** A one-shot timer that the run leaves alone fires once, on time, and is then inactive. */
  lemma {:induction false} OneShotTimerFiresOnce(p: Callbacks, v: View, ops: seq<Op>, i: nat)
    requires WellBehaved(p) && Spares(p, i) && ValidView(v)
    requires LegalRun(p, v, ops) && RunSpares(ops, i) && i < MAX_TIMERS
    requires v.timers[i].active && !v.timers[i].continuous && v.timers[i].funct.Some? && v.timers[i].inUse
    requires v.now < v.timers[i].timeToFire
    ensures var t := v.timers[i];
            var due := t.timeToFire <= v.now + Elapsed(ops);
            var r := Run(p, v, ops);
            && |r.timers| == MAX_TIMERS
            && r.timers[i] == (if due then t.(active := false) else t)
            && FiringsOf(r.log, i) == FiringsOf(v.log, i) + (if due then [t.timeToFire] else [])
    decreases |ops|
  {
    NoTicks(p, v);
    hide WellBehaved, Ticked, Spares, FiringsOf, Apply, Legal, TableOk;
    if ops != [] {
      assert ops[0] in ops && forall op :: op in ops[1..] ==> op in ops;
      match ops[0] {
        case Use(c) =>
          UseSpares(v, c, i);
          OneShotTimerFiresOnce(p, Apply(v, c), ops[1..], i);
        case Pass(a) =>
          OneShotLeftAlone(p, v, i, a);
          NoTicks(p, Ticked(p, v, a));
          if v.timers[i].timeToFire <= v.now + a {
            InactiveStaysQuiet(p, Ticked(p, v, a), ops[1..], i);
          } else {
            OneShotTimerFiresOnce(p, Ticked(p, v, a), ops[1..], i);
          }
      }
    }
  }

  /** An inactive timer that the run leaves alone stays as it is and does not fire. */
  lemma {:induction false} InactiveStaysQuiet(p: Callbacks, v: View, ops: seq<Op>, i: nat)
    requires WellBehaved(p) && Spares(p, i) && ValidView(v)
    requires LegalRun(p, v, ops) && RunSpares(ops, i) && i < MAX_TIMERS
    requires |v.timers| == MAX_TIMERS && !v.timers[i].active && v.timers[i].funct.Some? && v.timers[i].inUse
    ensures |Run(p, v, ops).timers| == MAX_TIMERS && Run(p, v, ops).timers[i] == v.timers[i]
    ensures FiringsOf(Run(p, v, ops).log, i) == FiringsOf(v.log, i)
    decreases |ops|
  {
    NoTicks(p, v);
    hide WellBehaved, Ticked, Spares, FiringsOf, Apply, Legal, TableOk;
    if ops != [] {
      assert ops[0] in ops && forall op :: op in ops[1..] ==> op in ops;
      match ops[0] {
        case Use(c) =>
          UseSpares(v, c, i);
          NoTicks(p, Apply(v, c));
          InactiveStaysQuiet(p, Apply(v, c), ops[1..], i);
        case Pass(a) =>
          InactiveTicks(p, v, i, a);
          InactiveStaysQuiet(p, Ticked(p, v, a), ops[1..], i);
      }
    }
  }

  lemma {:induction false} InactiveTicks(p: Callbacks, v: View, i: nat, n: nat)
    requires WellBehaved(p) && Spares(p, i) && ValidView(v) && v.now + n <= HORIZON && i < MAX_TIMERS
    requires |v.timers| == MAX_TIMERS && !v.timers[i].active && v.timers[i].funct.Some? && v.timers[i].inUse
    ensures |Ticked(p, v, n).timers| == MAX_TIMERS && Ticked(p, v, n).timers[i] == v.timers[i]
    ensures FiringsOf(Ticked(p, v, n).log, i) == FiringsOf(v.log, i)
    decreases n
  {
    hide WellBehaved, Ticked, Tick, Spares, FiringsOf, TableOk;
    NoTicks(p, v);
    if n != 0 {
      InactiveTicks(p, v, i, n - 1);
      LastTick(p, v, n);
      TickSpares(p, Ticked(p, v, n - 1), i);
    }
  }
}
