/** The obvious scheduler: a table of timer slots and a clock.  On every tick it scans all
    slots, re-arms or disarms those that are due, and then calls their handlers in slot order.
    It has no countdown; PcSystem.dfy proves that Bochs's countdown-driven form behaves like it. */
module NaiveScheduler {
  import opened Wrappers

  const MAX_TIMERS := 64
  const NULL_INTERVAL := 0xffff_ffff
  const MAX_TICKS := 0x7fff_ffff_ffff_ffff
  /** Time up to which sums of a clock value and a period stay below 2^64. */
  const HORIZON := 0x8000_0000_0000_0000

  /** A period or delay handed to the timer interface. */
  type Ticks = t: nat | t <= MAX_TICKS

  /** What a timer's `funct`/`this_ptr` pair designates. */
  datatype Handler = NullTimer | Device(id: nat)

  datatype Timer = Timer(
    inUse: bool, period: nat, timeToFire: nat, active: bool, continuous: bool,
    funct: Option<Handler>, param: nat)

  const FREE := Timer(false, 0, 0, false, false, None, 0)
  const NULL_SLOT := Timer(true, NULL_INTERVAL, NULL_INTERVAL, true, true, Some(NullTimer), 0)

  datatype Firing = Firing(time: nat, slot: nat, handler: Handler)

  /** State of the devices behind the callbacks. */
  type World = seq<nat>

  /** Everything a client of the timer interface can observe. */
  datatype View = View(timers: seq<Timer>, num: nat, now: nat, triggered: nat, world: World, log: seq<Firing>)

  datatype Call =
    | Register(handler: Option<Handler>, ticks: Ticks, continuous: bool, active: bool)
    | Activate(index: nat, ticks: Ticks, continuous: bool)
    | Deactivate(index: nat)
    | Unregister(index: nat)
    | SetParam(index: nat, param: nat)

  /** What device `id` does when its handler is called: an arbitrary function of what it can
      observe, giving the calls it makes to the timer interface and the new device state. */
  type Callbacks = (nat, View) -> (seq<Call>, World)

  // ------------------------------------------------------------------ validity

  /** Slot `i` of a table with `num` slots at time `now`, when nothing is due before `due`. */
  predicate SlotOk(t: Timer, i: nat, num: nat, now: nat, due: nat) {
    && (t.active ==> due <= t.timeToFire <= now + t.period)
    && (t.active || t.inUse ==> i < num && 1 <= t.period <= MAX_TICKS)
    && (t.funct.Some? ==> t.inUse)
  }

  predicate IsNullSlot(t: Timer) {
    t.inUse && t.active && t.continuous && t.period == NULL_INTERVAL && t.funct == Some(NullTimer)
  }

  predicate TableOk(timers: seq<Timer>, num: nat, now: nat, due: nat) {
    && |timers| == MAX_TIMERS
    && 1 <= num <= MAX_TIMERS
    && IsNullSlot(timers[0])
    && forall i :: 0 <= i < MAX_TIMERS ==> SlotOk(timers[i], i, num, now, due)
  }

  predicate ValidView(v: View) {
    v.now <= HORIZON && TableOk(v.timers, v.num, v.now, v.now + 1)
  }

  /** Changing one slot, and possibly the bound, while the next due time moves forward or stays. */
  lemma SlotChange(timers: seq<Timer>, num: nat, num': nat, now: nat, due: nat, due': nat, i: nat, t: Timer)
    requires TableOk(timers, num, now, due) && 1 <= i < MAX_TIMERS
    requires due' <= due && 1 <= num' <= MAX_TIMERS
    requires num' == num || (i == num && num' == num + 1) || (i == num - 1 && num' == num - 1)
    requires SlotOk(t, i, num', now, due')
    ensures TableOk(timers[i := t], num', now, due')
  {
    var changed := timers[i := t];
    forall j | 0 <= j < MAX_TIMERS ensures SlotOk(changed[j], j, num', now, due') {
      assert SlotOk(timers[j], j, num, now, due);
    }
  }

  function Initial(): View {
    View([NULL_SLOT] + seq(MAX_TIMERS - 1, _ => FREE), 1, 0, 0, [], [])
  }

  // ------------------------------------------------------------------ timer interface

  function Clamp(ticks: nat): nat { if ticks < 1 then 1 else ticks }

  /** First slot from `i` on that is not in use, or `num` when there is none. */
  function FreeSlot(timers: seq<Timer>, i: nat, num: nat): (r: nat)
    requires i <= num <= |timers|
    ensures i <= r <= num
    ensures r < num ==> !timers[r].inUse
    ensures forall j :: i <= j < r ==> timers[j].inUse
    decreases num - i
  {
    if i == num || !timers[i].inUse then i else FreeSlot(timers, i + 1, num)
  }

  /** The identifier a registration returns; None stands for the source's -1. */
  function RegisteredSlot(v: View): Option<nat>
    requires 1 <= v.num <= |v.timers|
  {
    if v.num >= MAX_TIMERS then None else Some(FreeSlot(v.timers, 1, v.num))
  }

  /** The calls the interface accepts from its users. */
  predicate Legal(v: View, c: Call) {
    match c
    case Register(h, _, _, _) => h != Some(NullTimer)
    case Activate(i, _, _) => 1 <= i < v.num <= |v.timers|
    case Deactivate(i) => 1 <= i < v.num <= |v.timers|
    case Unregister(i) => 1 <= i < v.num <= |v.timers| && v.timers[i].inUse
    case SetParam(i, _) => i < v.num <= |v.timers|
  }

  function Apply(v: View, c: Call): View
    requires 1 <= v.num <= MAX_TIMERS == |v.timers| && Legal(v, c)
  {
    match c
    case Register(h, ticks, continuous, active) =>
      var slot := RegisteredSlot(v);
      if slot.None? then v else
        var t := Timer(true, Clamp(ticks), v.now + Clamp(ticks), active, continuous, h, 0);
        v.(timers := v.timers[slot.value := t], num := if slot.value == v.num then v.num + 1 else v.num)
    case Activate(i, ticks, continuous) =>
      var t := v.timers[i].(period := Clamp(ticks), timeToFire := v.now + Clamp(ticks),
                            active := true, continuous := continuous);
      v.(timers := v.timers[i := t])
    case Deactivate(i) => v.(timers := v.timers[i := v.timers[i].(active := false)])
    case Unregister(i) =>
      if v.timers[i].active then v else
        var t := Timer(false, MAX_TICKS, MAX_TICKS, false, false, None, v.timers[i].param);
        v.(timers := v.timers[i := t], num := if i == v.num - 1 then v.num - 1 else v.num)
    case SetParam(i, param) => v.(timers := v.timers[i := v.timers[i].(param := param)])
  }

  lemma ApplyKeepsValid(v: View, c: Call)
    requires ValidView(v) && Legal(v, c)
    ensures ValidView(Apply(v, c))
    ensures Apply(v, c).now == v.now && Apply(v, c).log == v.log && Apply(v, c).world == v.world
    ensures Apply(v, c).triggered == v.triggered
  {
  }

  predicate LegalAll(v: View, calls: seq<Call>)
    decreases |calls|
  {
    calls == [] ||
    (1 <= v.num <= MAX_TIMERS == |v.timers| && Legal(v, calls[0]) && LegalAll(Apply(v, calls[0]), calls[1..]))
  }

  function ApplyAll(v: View, calls: seq<Call>): View
    requires LegalAll(v, calls)
    decreases |calls|
  {
    if calls == [] then v else ApplyAll(Apply(v, calls[0]), calls[1..])
  }

  lemma {:induction false} ApplyAllKeepsValid(v: View, calls: seq<Call>)
    requires ValidView(v) && LegalAll(v, calls)
    ensures ValidView(ApplyAll(v, calls))
    ensures ApplyAll(v, calls).now == v.now && ApplyAll(v, calls).log == v.log
    ensures ApplyAll(v, calls).world == v.world && ApplyAll(v, calls).triggered == v.triggered
    decreases |calls|
  {
    if calls != [] {
      ApplyKeepsValid(v, calls[0]);
      ApplyAllKeepsValid(Apply(v, calls[0]), calls[1..]);
    }
  }

  /** Devices only make calls the interface accepts, whatever they observe. */
  ghost predicate WellBehaved(p: Callbacks) {
    forall k, v :: ValidView(v) ==> LegalAll(v, p(k, v).0)
  }

  // ------------------------------------------------------------------ one tick

  /** What a handler does; the null timer's handler does nothing. */
  function React(p: Callbacks, h: Handler, v: View): (seq<Call>, World) {
    match h
    case NullTimer => ([], v.world)
    case Device(k) => p(k, v)
  }

  function Called(v: View, slot: nat, h: Handler): View {
    v.(triggered := slot, log := v.log + [Firing(v.now, slot, h)])
  }

  ghost function Fire(p: Callbacks, v: View, slot: nat): View
    requires WellBehaved(p) && ValidView(v) && slot < MAX_TIMERS && v.timers[slot].funct.Some?
  {
    var h := v.timers[slot].funct.value;
    var v0 := Called(v, slot, h);
    var (calls, world) := React(p, h, v0);
    ApplyAll(v0, calls).(world := world, triggered := 0)
  }

  lemma FireKeepsValid(p: Callbacks, v: View, slot: nat)
    requires WellBehaved(p) && ValidView(v) && slot < MAX_TIMERS && v.timers[slot].funct.Some?
    ensures ValidView(Fire(p, v, slot))
    ensures Fire(p, v, slot).now == v.now
    ensures Fire(p, v, slot).log == v.log + [Firing(v.now, slot, v.timers[slot].funct.value)]
  {
    var h := v.timers[slot].funct.value;
    var v0 := Called(v, slot, h);
    ApplyAllKeepsValid(v0, React(p, h, v0).0);
  }

  predicate Due(t: Timer, now: nat) { t.active && t.timeToFire == now }

  function DueSlots(v: View): (due: seq<bool>) {
    seq(|v.timers|, i requires 0 <= i < |v.timers| => Due(v.timers[i], v.now))
  }

  /** The scan's effect on one slot. */
  function Advance(t: Timer, now: nat): Timer {
    if !Due(t, now) then t
    else if t.continuous then t.(timeToFire := t.timeToFire + t.period)
    else t.(active := false)
  }

  function Scan(v: View): View {
    v.(timers := seq(|v.timers|, i requires 0 <= i < |v.timers| => Advance(v.timers[i], v.now)))
  }

  /** Calls the handlers of the due slots from `i` on; the handler is read at call time. */
  ghost function Deliver(p: Callbacks, v: View, due: seq<bool>, i: nat): (r: View)
    requires WellBehaved(p) && ValidView(v) && |due| == MAX_TIMERS && i <= MAX_TIMERS
    ensures ValidView(r) && r.now == v.now
    decreases |due| - i
  {
    if i == |due| then v
    else if due[i] && v.timers[i].funct.Some? then
      FireKeepsValid(p, v, i);
      Deliver(p, Fire(p, v, i), due, i + 1)
    else Deliver(p, v, due, i + 1)
  }

  /** The state after the clock has advanced to `v.now` and before the scan. */
  predicate Pending(v: View) {
    v.now <= HORIZON && TableOk(v.timers, v.num, v.now, v.now)
  }

  lemma ScanKeepsValid(v: View)
    requires Pending(v)
    ensures ValidView(Scan(v))
  {
    forall i | 0 <= i < MAX_TIMERS
      ensures SlotOk(Scan(v).timers[i], i, v.num, v.now, v.now + 1)
    {
      assert SlotOk(v.timers[i], i, v.num, v.now, v.now);
    }
  }

  /** After the scan nothing is due before `m`, when `m` bounds the re-armed slots below the table's bound. */
  lemma ScanGivesTable(v: View, m: nat)
    requires Pending(v) && v.now < m
    requires forall j :: 0 <= j < v.num && Scan(v).timers[j].active ==> m <= Scan(v).timers[j].timeToFire
    ensures TableOk(Scan(v).timers, v.num, v.now, m)
  {
    var timers := Scan(v).timers;
    forall j | 0 <= j < MAX_TIMERS ensures SlotOk(timers[j], j, v.num, v.now, m) {
      assert SlotOk(v.timers[j], j, v.num, v.now, v.now);
    }
  }

  lemma SlotAt(v: View, i: nat)
    requires Pending(v) && i < v.num
    ensures i < MAX_TIMERS == |v.timers| && SlotOk(v.timers[i], i, v.num, v.now, v.now)
    ensures i == 0 ==> IsNullSlot(v.timers[0])
  {
    assert SlotOk(v.timers[i], i, v.num, v.now, v.now);
  }

  lemma IdleBeyondBound(v: View, j: nat)
    requires Pending(v) && v.num <= j < MAX_TIMERS
    ensures !v.timers[j].active && Advance(v.timers[j], v.now) == v.timers[j]
  {
    assert SlotOk(v.timers[j], j, v.num, v.now, v.now);
  }

  ghost function Event(p: Callbacks, v: View): (r: View)
    requires WellBehaved(p) && Pending(v)
    ensures ValidView(r) && r.now == v.now
  {
    ScanKeepsValid(v);
    Deliver(p, Scan(v), DueSlots(v), 0)
  }

  ghost function Tick(p: Callbacks, v: View): (r: View)
    requires WellBehaved(p) && ValidView(v) && v.now < HORIZON
    ensures ValidView(r) && r.now == v.now + 1
  {
    Event(p, v.(now := v.now + 1))
  }

  ghost function Ticked(p: Callbacks, v: View, n: nat): (r: View)
    requires WellBehaved(p) && ValidView(v) && v.now + n <= HORIZON
    ensures ValidView(r) && r.now == v.now + n
    decreases n
  {
    if n == 0 then v else Ticked(p, Tick(p, v), n - 1)
  }

  // ------------------------------------------------------------------ composition

  /** Ticking a + b times is ticking a times and then b times: same state, same firing log. */
  lemma {:induction false} TicksCompose(p: Callbacks, v: View, a: nat, b: nat)
    requires WellBehaved(p) && ValidView(v) && v.now + a + b <= HORIZON
    ensures Ticked(p, v, a + b) == Ticked(p, Ticked(p, v, a), b)
    decreases a
  {
    hide Tick, WellBehaved;
    if a != 0 { TicksCompose(p, Tick(p, v), a - 1, b); }
  }

  lemma {:induction false} NothingToDeliver(p: Callbacks, v: View, due: seq<bool>, i: nat, j: nat)
    requires WellBehaved(p) && ValidView(v) && |due| == MAX_TIMERS && i <= j <= MAX_TIMERS
    requires forall k :: i <= k < j ==> !due[k]
    ensures Deliver(p, v, due, i) == Deliver(p, v, due, j)
    decreases j - i
  {
    if i < j { NothingToDeliver(p, v, due, i + 1, j); }
  }

  lemma DeliverUnfolds(p: Callbacks, v: View, due: seq<bool>, i: nat)
    requires WellBehaved(p) && ValidView(v) && |due| == MAX_TIMERS && i < MAX_TIMERS
    ensures v.timers[i].funct.Some? ==> ValidView(Fire(p, v, i))
    ensures due[i] && v.timers[i].funct.Some? ==>
              Deliver(p, v, due, i) == Deliver(p, Fire(p, v, i), due, i + 1)
    ensures !(due[i] && v.timers[i].funct.Some?) ==> Deliver(p, v, due, i) == Deliver(p, v, due, i + 1)
  {
    if v.timers[i].funct.Some? { FireKeepsValid(p, v, i); }
  }

  lemma FireIgnoresTriggered(p: Callbacks, v: View, i: nat)
    requires WellBehaved(p) && ValidView(v) && i < MAX_TIMERS && v.timers[i].funct.Some?
    ensures ValidView(v.(triggered := i)) && Fire(p, v.(triggered := i), i) == Fire(p, v, i)
    ensures Fire(p, v, i).triggered == 0
  {
    var h := v.timers[i].funct.value;
    assert Called(v.(triggered := i), i, h) == Called(v, i, h);
  }

  lemma AllDelivered(p: Callbacks, v: View, due: seq<bool>)
    requires WellBehaved(p) && ValidView(v) && |due| == MAX_TIMERS
    ensures Deliver(p, v, due, MAX_TIMERS) == v
  {
  }

  /** While no active timer comes due, ticks change nothing but the clock. */
  lemma {:induction false} QuietTicks(p: Callbacks, v: View, n: nat)
    requires WellBehaved(p) && ValidView(v) && v.now + n <= HORIZON
    requires TableOk(v.timers, v.num, v.now, v.now + n + 1)
    ensures Ticked(p, v, n) == v.(now := v.now + n)
    decreases n
  {
    if n != 0 {
      var w := v.(now := v.now + 1);
      forall i | 0 <= i < MAX_TIMERS ensures !Due(w.timers[i], w.now) {
        assert SlotOk(v.timers[i], i, v.num, v.now, v.now + n + 1);
      }
      assert Scan(w).timers == w.timers;
      assert Scan(w) == w;
      NothingToDeliver(p, w, DueSlots(w), 0, MAX_TIMERS);
      assert Tick(p, v) == w;
      QuietTicks(p, w, n - 1);
    }
  }

  /** When nothing comes due before tick c, c ticks amount to one event at the time of the last. */
  lemma EventAfterQuiet(p: Callbacks, v: View, c: nat)
    requires WellBehaved(p) && ValidView(v) && 1 <= c && v.now + c <= HORIZON
    requires TableOk(v.timers, v.num, v.now, v.now + c)
    ensures Pending(v.(now := v.now + c))
    ensures Ticked(p, v, c) == Event(p, v.(now := v.now + c))
  {
    hide Event;
    QuietTicks(p, v, c - 1);
    TicksCompose(p, v, c - 1, 1);
    var w := Ticked(p, v, c - 1);
    assert Ticked(p, w, 1) == Ticked(p, Tick(p, w), 0);
  }
}
