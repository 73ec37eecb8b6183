/** Virtual-time arithmetic over whole runs: strictly increasing microseconds from a coarse clock, and a
    32-bit millisecond counter widened to 64 bits. */
module Clocks {
  import opened Sequences

  const TWO32 := 0x1_0000_0000
  const TWO64 := 0x1_0000_0000_0000_0000

  function Max(a: int, b: int): int { if a > b then a else b }

  // ------------------------------------------------------------------ sequential microseconds

  /** `time_usec_sequential`; the value of `time_usec` at the call is its argument. */
  class SequentialClock {
    var lastTimeUsec: nat
    var usecSinceLast: nat
    ghost var previous: nat  // the last result, 0 before the first

    ghost predicate Valid()
      reads this
    {
      previous == lastTimeUsec + usecSinceLast
    }

    constructor ()
      ensures Valid() && previous == 0 && lastTimeUsec == 0
    {
      lastTimeUsec, usecSinceLast, previous := 0, 0, 0;
    }

    method TimeUsecSequential(timeUsec: nat) returns (r: nat)
      requires Valid() && lastTimeUsec <= timeUsec
      requires timeUsec < TWO64 - 1 && previous < TWO64 - 1
      modifies this
      ensures Valid() && lastTimeUsec == timeUsec && previous == r
      ensures r == Max(old(previous), timeUsec) + 1
    {
      if timeUsec != lastTimeUsec {
        var diff := (timeUsec - lastTimeUsec) % TWO64;
        lastTimeUsec := timeUsec;
        if diff >= usecSinceLast {
          usecSinceLast := 0;
        } else {
          usecSinceLast := usecSinceLast - diff;
        }
      }
      usecSinceLast := (usecSinceLast + 1) % TWO64;
      r := (timeUsec + usecSinceLast) % TWO64;
      previous := r;
    }
  }

  /** A run of calls at these emulated times. */
  method DriveSequential(clock: SequentialClock, times: seq<nat>) returns (results: seq<nat>)
    requires clock.Valid() && NonDecreasing([clock.lastTimeUsec] + times)
    requires clock.previous + |times| < TWO64 && forall t :: t in times ==> t + |times| < TWO64
    modifies clock
    ensures clock.Valid() && results == SequentialResults(times, old(clock.previous))
  {
    results := [];
    var i := 0;
    while i < |times|
      invariant 0 <= i <= |times| && clock.Valid()
      invariant clock.lastTimeUsec == ([old(clock.lastTimeUsec)] + times)[i]
      invariant clock.previous + (|times| - i) < TWO64
      invariant results + SequentialResults(times[i..], clock.previous) == SequentialResults(times, old(clock.previous))
    {
      assert ([old(clock.lastTimeUsec)] + times)[i + 1] == times[i] && times[i] in times;
      assert times[i..][0] == times[i] && times[i..][1..] == times[i + 1..];
      var r := clock.TimeUsecSequential(times[i]);
      results := results + [r];
      i := i + 1;
    }
  }

  predicate NonDecreasing(s: seq<nat>) { forall i, j :: 0 <= i < j < |s| ==> s[i] <= s[j] }

  /** The results of a run of calls, after a result `previous`. */
  function SequentialResults(times: seq<nat>, previous: nat): (r: seq<nat>)
    ensures |r| == |times|
    decreases |times|
  {
    if times == [] then [] else
      var now := Max(previous, times[0]) + 1;
      [now] + SequentialResults(times[1..], now)
  }

  /** Results strictly increase, stay ahead of emulated time, and lead it by no more than the number of
      calls made since it last moved ahead of them. */
  lemma {:induction false} ResultsStrictlyIncrease(times: seq<nat>, previous: nat, i: nat)
    requires i < |times|
    ensures var r := SequentialResults(times, previous);
            && r[i] > times[i] && r[i] > previous
            && (i > 0 ==> r[i - 1] < r[i])
            && r[i] <= Max(previous, MaxOf(times[..i + 1])) + i + 1
    decreases |times|
  {
    var now := Max(previous, times[0]) + 1;
    var r := SequentialResults(times, previous);
    assert r == [now] + SequentialResults(times[1..], now);
    if i > 0 {
      ResultsStrictlyIncrease(times[1..], now, i - 1);
      assert times[..i + 1][1..] == times[1..][..i];
    } else {
      assert times[..1][1..] == [];
    }
  }

  function MaxOf(s: seq<nat>): nat {
    if s == [] then 0 else Max(s[0], MaxOf(s[1..]))
  }

  // ------------------------------------------------------------------ the widened clock

  /** `bx_get_realtime64_usec` on Windows; the argument is what GetTickCount returns. */
  class RealtimeClock {
    var top: nat
    var bottom: nat

    /** The counter as this clock has followed it: the last true time it has seen. */
    ghost predicate Follows(ms: nat)
      reads this
    {
      top == ms / TWO32 * TWO32 && bottom == ms % TWO32
    }

    constructor ()
      ensures Follows(0)
    {
      top, bottom := 0, 0;
    }

    /** Whatever the counter returns, the clock goes on from its widening of it. */
    method GetRealtime64Usec(tickCount: nat, ghost before: nat) returns (usec: nat)
      requires Follows(before) && before < TWO64
      modifies this
      ensures Follows(Widened(before, tickCount % TWO32))
      ensures usec == Usec(Widened(before, tickCount % TWO32))
    {
      TopOf(before);
      HalvesOf(before, tickCount % TWO32);
      var newBottom := tickCount % TWO32;
      if newBottom < bottom {
        top := (top + TWO32) % TWO64;
      }
      bottom := newBottom;
      var interim := top / TWO32 * TWO32 + newBottom;  // the halves do not overlap, so `|` adds them
      usec := (interim * 1000) % TWO64;
    }
  }

  function Usec(ms: nat): nat { (ms * 1000) % TWO64 }

  /** The time that continues `before` on 64 bits and has these low 32 bits. */
  function Widened(before: nat, low: nat): nat {
    ((if low < before % TWO32 then before / TWO32 + 1 else before / TWO32) * TWO32 + low) % TWO64
  }

  lemma TopOf(before: nat)
    requires before < TWO64
    ensures (before / TWO32 * TWO32) / TWO32 * TWO32 == before / TWO32 * TWO32
    ensures var top := (before / TWO32 * TWO32 + TWO32) % TWO64;
            && top == (before / TWO32 + 1) % TWO32 * TWO32 && top / TWO32 * TWO32 == top
  {
  }

  lemma HalvesOf(before: nat, low: nat)
    requires before < TWO64 && low < TWO32
    ensures var h := (if low < before % TWO32 then before / TWO32 + 1 else before / TWO32) % TWO32;
            && Widened(before, low) == h * TWO32 + low
            && Widened(before, low) / TWO32 == h && Widened(before, low) % TWO32 == low
  {
    var q := if low < before % TWO32 then before / TWO32 + 1 else before / TWO32;
    assert 0 <= q <= TWO32 && TWO64 == TWO32 * TWO32;
    if q == TWO32 { Joined(0, low); } else { Joined(q, low); }
  }

  lemma Joined(h: nat, low: nat)
    requires h < TWO32 && low < TWO32
    ensures (h * TWO32 + low) / TWO32 == h && (h * TWO32 + low) % TWO32 == low && h * TWO32 + low < TWO64
  {
  }

  /** One widening is right exactly when less than 2^32 milliseconds have passed. */
  lemma WideningIsExact(before: nat, ms: nat)
    requires before <= ms < TWO64
    ensures Widened(before, ms % 0x1_0000_0000) == ms <==> ms - before < 0x1_0000_0000
    ensures Widened(before, ms % 0x1_0000_0000) <= ms
  {
    HalvesOf(before, ms % TWO32);
    var q, r, q', r' := before / TWO32, before % TWO32, ms / TWO32, ms % TWO32;
    assert before == q * TWO32 + r && ms == q' * TWO32 + r' && q' < TWO32;
  }

  /** What the counter returns at these true times. */
  function TickCounts(times: seq<nat>): (r: seq<nat>)
    ensures |r| == |times|
  {
    seq(|times|, i requires 0 <= i < |times| => TickCount(times[i]))
  }

  function TickCount(ms: nat): nat { ms % 0x1_0000_0000 }

  /** The results of a run of calls, from a clock that has followed the time to `before`. */
  function RealtimeResults(ticks: seq<nat>, before: nat): (r: seq<nat>)
    ensures |r| == |ticks|
  {
    if ticks == [] then [] else
      var ms := Widened(before, ticks[0] % TWO32);
      [Usec(ms)] + RealtimeResults(ticks[1..], ms)
  }

  method DriveRealtime(clock: RealtimeClock, ticks: seq<nat>, ghost before: nat) returns (results: seq<nat>)
    requires clock.Follows(before) && before < TWO64
    modifies clock
    ensures results == RealtimeResults(ticks, before)
  {
    results := [];
    var i := 0;
    ghost var now: nat := before;
    assert ticks[0..] == ticks;
    while i < |ticks|
      invariant 0 <= i <= |ticks| && clock.Follows(now) && now < TWO64
      invariant results + RealtimeResults(ticks[i..], now) == RealtimeResults(ticks, before)
    {
      hide Widened, Usec;
      RealtimeStep(ticks, i, now, results);
      var r := clock.GetRealtime64Usec(ticks[i], now);
      now := Widened(now, ticks[i] % TWO32);
      results := results + [r];
      i := i + 1;
    }
    assert ticks[i..] == [];
  }

  lemma RealtimeStep(ticks: seq<nat>, i: nat, now: nat, results: seq<nat>)
    requires i < |ticks|
    ensures var ms := Widened(now, ticks[i] % TWO32);
            && ms < TWO64
            && results + RealtimeResults(ticks[i..], now) ==
               results + [Usec(ms)] + RealtimeResults(ticks[i + 1..], ms)
  {
    assert ticks[i..][0] == ticks[i] && ticks[i..][1..] == ticks[i + 1..];
    var ms := Widened(now, ticks[i] % TWO32);
    var rest := RealtimeResults(ticks[i + 1..], ms);
    assert results + ([Usec(ms)] + rest) == results + [Usec(ms)] + rest;
  }

  /** The sample before sample i. */
  function Sampled(times: seq<nat>, before: nat, i: nat): nat
    requires i < |times|
  {
    if i == 0 then before else times[i - 1]
  }

  /** Successive samples, the first taken against `before`, are less than 2^32 milliseconds apart. */
  predicate Frequent(times: seq<nat>, before: nat) {
    forall i :: 0 <= i < |times| ==> times[i] < Sampled(times, before, i) + 0x1_0000_0000
  }

  /** Over a whole run the clock shows the true time, in microseconds, exactly when it is read often enough. */
  lemma {:induction false} RealtimeIsExact(times: seq<nat>, before: nat)
    requires NonDecreasing([before] + times) && forall t :: t in times ==> t * 1000 < TWO64
    ensures RealtimeResults(TickCounts(times), before) == AllUsecs(times) <==> Frequent(times, before)
    decreases |times|
  {
    if times == [] {
      assert AllUsecs(times) == [];
    } else {
      var ms := times[0];
      Continued(times, before);
      FirstResult(times, before);
      WideningIsExact(before, ms);
      SmallerIsDifferent(Widened(before, ms % TWO32), ms);
      hide *;
      SameHead(Usec(Widened(before, ms % TWO32)), RealtimeResults(TickCounts(times[1..]), Widened(before, ms % TWO32)),
               ms * 1000, AllUsecs(times[1..]));
      if Widened(before, ms % TWO32) == ms { RealtimeIsExact(times[1..], ms); }
    }
  }

  function AllUsecs(times: seq<nat>): seq<nat> { seq(|times|, i requires 0 <= i < |times| => times[i] * 1000) }

  lemma FirstResult(times: seq<nat>, before: nat)
    requires times != []
    ensures var ms := Widened(before, times[0] % TWO32);
            RealtimeResults(TickCounts(times), before) == [Usec(ms)] + RealtimeResults(TickCounts(times[1..]), ms)
    ensures AllUsecs(times) == [times[0] * 1000] + AllUsecs(times[1..])
  {
    hide Widened, Usec;
    assert TickCounts(times)[1..] == TickCounts(times[1..]);
    assert TickCounts(times)[0] % TWO32 == times[0] % TWO32;
  }

  lemma SmallerIsDifferent(w: nat, ms: nat)
    requires w <= ms && ms * 1000 < TWO64
    ensures Usec(w) == ms * 1000 <==> w == ms
  {
  }

  lemma Continued(times: seq<nat>, before: nat)
    requires times != [] && NonDecreasing([before] + times) && forall t :: t in times ==> t * 1000 < TWO64
    ensures NonDecreasing([times[0]] + times[1..]) && before <= times[0] < TWO64
    ensures times[0] * 1000 < TWO64 && forall t :: t in times[1..] ==> t * 1000 < TWO64
    ensures Frequent(times, before) <==> times[0] < before + TWO32 && Frequent(times[1..], times[0])
  {
    var a := [before] + times;
    assert [times[0]] + times[1..] == times == a[1..];
    assert a[0] == before && a[1] == times[0] && times[0] in times;
    assert forall t :: t in times[1..] ==> t in times;
    FrequentRest(times, before);
  }

  lemma FrequentRest(times: seq<nat>, before: nat)
    requires times != []
    ensures Frequent(times, before) <==> times[0] < before + TWO32 && Frequent(times[1..], times[0])
  {
    forall i: nat | i < |times| - 1
      ensures times[1..][i] == times[i + 1] && Sampled(times[1..], times[0], i) == Sampled(times, before, i + 1)
    {
    }
    if Frequent(times, before) {
      assert times[0] < Sampled(times, before, 0) + TWO32;
      forall i | 0 <= i < |times[1..]| ensures times[1..][i] < Sampled(times[1..], times[0], i) + TWO32 {
        assert times[i + 1] < Sampled(times, before, i + 1) + TWO32;
      }
    }
    if times[0] < before + TWO32 && Frequent(times[1..], times[0]) {
      forall i | 0 <= i < |times| ensures times[i] < Sampled(times, before, i) + TWO32 {
        if i > 0 { assert times[1..][i - 1] < Sampled(times[1..], times[0], i - 1) + TWO32; }
      }
    }
  }
}
