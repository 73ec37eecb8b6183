/** The tick accounting of Bochs's SMP loop: each processor runs one trace in turn, and after a round the
    instructions counted are divided among the processors as ticks.  The counter has 32 bits. */
module SmpClock {
  import opened Arithmetic

  const TWO32 := 0x1_0000_0000

  // ------------------------------------------------------------------ what is counted

  function SumOf(s: seq<nat>): nat {
    if s == [] then 0 else SumOf(s[..|s| - 1]) + s[|s| - 1]
  }

  /** What a trace of n instructions is worth: n, or the quantum when the processor was halted. */
  function Ran(n: nat, quantum: nat): nat { if n == 0 then quantum else n }

  /** What the loop counts for it, having cast n to 32 bits. */
  function Counted(n: nat, quantum: nat): nat { Ran(n % TWO32, quantum) }

  function AllRan(ns: seq<nat>, quantum: nat): (r: seq<nat>)
    ensures |r| == |ns|
  {
    seq(|ns|, i requires 0 <= i < |ns| => Ran(ns[i], quantum))
  }

  function AllCounted(ns: seq<nat>, quantum: nat): (r: seq<nat>)
    ensures |r| == |ns|
  {
    seq(|ns|, i requires 0 <= i < |ns| => Counted(ns[i], quantum))
  }

  // ------------------------------------------------------------------ specification of the loop

  /** A round of p traces ends with trace i. */
  predicate RoundEnds(p: nat, i: nat)
    requires p >= 1
  {
    i % p == 0
  }

  function Share(c: nat, p: nat): nat
    requires p >= 1
  {
    c / p
  }

  function Rest(c: nat, p: nat): (r: nat)
    requires p >= 1
    ensures r < p && r <= c
  {
    c % p
  }

  /** The counter when trace i has been added to it, before the division at the end of a round. */
  function Filled(p: nat, all: seq<nat>, i: nat): nat
    requires p >= 1 && i < |all|
    decreases i, 1
  {
    (Carried(p, all, i) + all[i]) % TWO32
  }

  /** The counter after i traces on p processors. */
  function Carried(p: nat, all: seq<nat>, i: nat): nat
    requires p >= 1 && i <= |all|
    decreases i, 0
  {
    if i == 0 then 0
    else if RoundEnds(p, i) then Rest(Filled(p, all, i - 1), p)
    else Filled(p, all, i - 1)
  }

  /** The tick requests of the rounds completed after i traces. */
  function Rounds(p: nat, all: seq<nat>, i: nat): seq<nat>
    requires p >= 1 && i <= |all|
    decreases i
  {
    if i == 0 then []
    else Rounds(p, all, i - 1) + (if RoundEnds(p, i) then [Share(Filled(p, all, i - 1), p)] else [])
  }

  /** How often the counter has wrapped. */
  function Lost(p: nat, all: seq<nat>, i: nat): nat
    requires p >= 1 && i <= |all|
    decreases i
  {
    if i == 0 then 0 else Lost(p, all, i - 1) + (Carried(p, all, i - 1) + all[i - 1]) / TWO32
  }

  // ------------------------------------------------------------------ when nothing is lost

  /** The trace with which the round of trace m - 1 starts. */
  function Start(p: nat, m: nat): nat
    requires p >= 1 && m >= 1
  {
    (m - 1) / p * p
  }

  /** What the counter has to hold after m traces: what the rounds before left over, and the counts of
      this round so far. */
  function Needed(p: nat, all: seq<nat>, m: nat): nat
    requires p >= 1 && 1 <= m <= |all| && Start(p, m) <= m
  {
    Rest(SumOf(all[..Start(p, m)]), p) + SumOf(all[Start(p, m)..m])
  }

  /** That always fits 32 bits. */
  ghost predicate NeverWraps(p: nat, all: seq<nat>, i: nat)
    requires p >= 1 && i <= |all|
  {
    forall m :: 1 <= m <= i ==> Start(p, m) <= m && Needed(p, all, m) < TWO32
  }

  lemma StartsBefore(p: nat, m: nat)
    requires p >= 1 && m >= 1
    ensures Start(p, m) < m
    ensures RoundEnds(p, m - 1) ==> Start(p, m) == m - 1
    ensures !RoundEnds(p, m - 1) ==> m >= 2 && Start(p, m) == Start(p, m - 1)
  {
    var q, r := (m - 1) / p, (m - 1) % p;
    assert m - 1 == q * p + r;
    if r != 0 { QuotientBelow(p, q, r); }
  }

  lemma QuotientBelow(p: nat, q: nat, r: nat)
    requires 0 < r < p
    ensures q * p + r >= 1 && (q * p + r - 1) / p == q
  {
    DivUnique(q * p + r - 1, p, q, r - 1);
  }

  lemma {:induction false} SumConcat(a: seq<nat>, b: seq<nat>)
    ensures SumOf(a + b) == SumOf(a) + SumOf(b)
    decreases |b|
  {
    if b == [] {
      assert a + b == a;
    } else {
      assert (a + b)[..|a + b| - 1] == a + b[..|b| - 1];
      SumConcat(a, b[..|b| - 1]);
    }
  }

  lemma SumNext(s: seq<nat>, from: nat, i: nat)
    requires from <= i < |s|
    ensures SumOf(s[from..i + 1]) == SumOf(s[from..i]) + s[i]
  {
    assert s[from..i + 1][..i - from] == s[from..i];
  }

  /** One more trace, as long as nothing has been lost. */
  lemma NeededStep(p: nat, all: seq<nat>, i: nat)
    requires p >= 1 && i < |all| && Start(p, i + 1) <= i + 1
    requires RoundEnds(p, i) ==> Carried(p, all, i) == Rest(SumOf(all[..i]), p)
    requires !RoundEnds(p, i) ==> i >= 1 && Start(p, i) <= i && Carried(p, all, i) == Needed(p, all, i)
    ensures Carried(p, all, i) + all[i] == Needed(p, all, i + 1)
  {
    hide Carried, SumOf, Start, RoundEnds, Rest;
    StartsBefore(p, i + 1);
    SumNext(all, Start(p, i + 1), i);
    if RoundEnds(p, i) { NoSum(all[i..i]); }
  }

  lemma NoSum(s: seq<nat>)
    requires |s| == 0
    ensures SumOf(s) == 0
  {
  }

  /** At the end of a round the remainder is that of everything counted. */
  lemma NeededRemainder(p: nat, all: seq<nat>, m: nat)
    requires p >= 1 && 1 <= m <= |all| && Start(p, m) <= m
    ensures Rest(Needed(p, all, m), p) == Rest(SumOf(all[..m]), p)
  {
    var s := Start(p, m);
    assert all[..m] == all[..s] + all[s..m];
    SumConcat(all[..s], all[s..m]);
    hide SumOf, Start;
    RemainderOfSum(SumOf(all[..s]), SumOf(all[s..m]), p);
  }

  /** The counter loses nothing exactly when what it has to hold always fits, and then it holds that. */
  lemma {:induction false} LosesNothingExactly(p: nat, all: seq<nat>, i: nat)
    requires p >= 1 && i <= |all|
    ensures Lost(p, all, i) == 0 <==> NeverWraps(p, all, i)
    ensures Lost(p, all, i) == 0 && RoundEnds(p, i) ==> Carried(p, all, i) == Rest(SumOf(all[..i]), p)
    ensures Lost(p, all, i) == 0 && !RoundEnds(p, i) ==>
              i >= 1 && Start(p, i) <= i && Carried(p, all, i) == Needed(p, all, i)
    decreases i
  {
    hide *;
    if i == 0 {
      NothingCounted(p, all);
    } else {
      LosesNothingExactly(p, all, i - 1);
      LostStep(p, all, i - 1);
      NeverWrapsStep(p, all, i - 1);
      if Lost(p, all, i - 1) == 0 {
        NeededStep(p, all, i - 1);
        if Needed(p, all, i) < TWO32 {
          CarriedStep(p, all, i - 1);
          NeededRemainder(p, all, i);
        }
      }
    }
  }

  lemma NothingCounted(p: nat, all: seq<nat>)
    requires p >= 1
    ensures Lost(p, all, 0) == 0 && NeverWraps(p, all, 0) && RoundEnds(p, 0)
    ensures Carried(p, all, 0) == Rest(SumOf(all[..0]), p)
  {
    DivUnique(0, p, 0, 0);
    NoSum(all[..0]);
  }

  lemma NeverWrapsStep(p: nat, all: seq<nat>, i: nat)
    requires p >= 1 && i < |all|
    ensures Start(p, i + 1) <= i + 1 && i + 1 - 1 == i
    ensures NeverWraps(p, all, i + 1) <==> NeverWraps(p, all, i) && Needed(p, all, i + 1) < TWO32
  {
    StartsBefore(p, i + 1);
    hide Start, Needed;
  }

  lemma LostStep(p: nat, all: seq<nat>, i: nat)
    requires p >= 1 && i < |all|
    ensures Lost(p, all, i + 1) == 0 <==> Lost(p, all, i) == 0 && Carried(p, all, i) + all[i] < TWO32
  {
    hide Carried;
  }

  lemma CarriedStep(p: nat, all: seq<nat>, i: nat)
    requires p >= 1 && i < |all| && Carried(p, all, i) + all[i] < TWO32
    ensures Carried(p, all, i + 1) ==
            if RoundEnds(p, i + 1) then Rest(Carried(p, all, i) + all[i], p) else Carried(p, all, i) + all[i]
  {
    assert Filled(p, all, i) == Carried(p, all, i) + all[i];
  }

  /** Traces of at most `most` instructions never make it wrap when a round of them fits. */
  lemma ShortTracesFit(p: nat, all: seq<nat>, most: nat)
    requires p >= 1 && p * (most + 1) < TWO32 && forall n :: n in all ==> n <= most
    ensures NeverWraps(p, all, |all|)
  {
    forall m | 1 <= m <= |all| ensures Start(p, m) <= m && Needed(p, all, m) < TWO32 {
      StartsBefore(p, m);
      var s := Start(p, m);
      RoundIsShort(p, m);
      assert forall n :: n in all[s..m] ==> n in all;
      SumBound(all[s..m], most);
      Monotone(m - s, p, most);
    }
  }

  lemma RoundIsShort(p: nat, m: nat)
    requires p >= 1 && m >= 1
    ensures 0 <= m - Start(p, m) <= p
  {
    StartsBefore(p, m);
    assert m - 1 == (m - 1) / p * p + (m - 1) % p;
  }

  lemma Monotone(a: nat, b: nat, c: nat)
    requires a <= b
    ensures a * c + b <= b * (c + 1)
  {
    assert b * (c + 1) == b * c + b && b * c == a * c + (b - a) * c;
  }

  lemma {:induction false} SumBound(s: seq<nat>, most: nat)
    requires forall n :: n in s ==> n <= most
    ensures SumOf(s) <= |s| * most
    decreases |s|
  {
    if s != [] {
      var n := |s| - 1;
      assert forall x :: x in s[..n] ==> x in s;
      SumBound(s[..n], most);
      assert s[n] in s && (n + 1) * most == n * most + most;
    }
  }

  // ------------------------------------------------------------------ the cast of a trace's count

  /** Casting the counts of the traces loses instructions exactly when one of them needs more than 32 bits. */
  lemma {:induction false} CastLosesNothingExactly(ns: seq<nat>, quantum: nat)
    requires quantum < TWO32
    ensures SumOf(AllCounted(ns, quantum)) <= SumOf(AllRan(ns, quantum))
    ensures SumOf(AllCounted(ns, quantum)) == SumOf(AllRan(ns, quantum)) <==> forall n :: n in ns ==> n < TWO32
    decreases |ns|
  {
    if ns == [] {
      NoSum(AllCounted(ns, quantum));
      NoSum(AllRan(ns, quantum));
    } else {
      var k := |ns| - 1;
      var rest := ns[..k];
      assert ns == rest + [ns[k]];
      assert AllCounted(ns, quantum)[..k] == AllCounted(rest, quantum);
      assert AllRan(ns, quantum)[..k] == AllRan(rest, quantum);
      assert AllCounted(ns, quantum)[k] == Counted(ns[k], quantum) && AllRan(ns, quantum)[k] == Ran(ns[k], quantum);
      CastLosesNothingExactly(rest, quantum);
      CastOne(ns[k], quantum);
      hide Counted, Ran, AllCounted, AllRan;
      assert SumOf(AllCounted(ns, quantum)) == SumOf(AllCounted(rest, quantum)) + Counted(ns[k], quantum);
      assert SumOf(AllRan(ns, quantum)) == SumOf(AllRan(rest, quantum)) + Ran(ns[k], quantum);
      assert ns[k] in ns && forall n :: n in ns <==> n in rest || n == ns[k];
    }
  }

  lemma CastOne(n: nat, quantum: nat)
    requires quantum < TWO32
    ensures Counted(n, quantum) <= Ran(n, quantum)
    ensures Counted(n, quantum) == Ran(n, quantum) <==> n < TWO32
  {
  }

  // ------------------------------------------------------------------ inputs on which instructions are lost

  /** Two processors, traces of 2^32 - 1 and 1 instructions: the counter wraps to zero, the round requests no
      tick and nothing is carried over. */
  lemma CounterWraps(quantum: nat)
    ensures var all := AllCounted([0xffff_ffff, 1], quantum);
            && SumOf(all) == 0x1_0000_0000 && !NeverWraps(2, all, 2)
            && Rounds(2, all, 2) == [0] && Carried(2, all, 2) == 0 && Lost(2, all, 2) == 1
  {
    var all := AllCounted([TWO32 - 1, 1], quantum);
    assert all == [TWO32 - 1, 1] && all[..2] == all && all[..1] == [TWO32 - 1];
    assert !RoundEnds(2, 1) && RoundEnds(2, 2) && Rest(0, 2) == 0 && Share(0, 2) == 0;
    NothingYet(2, all);
    hide *;
    SpecStep(2, all, 0);
    SpecStep(2, all, 1);
    LosesNothingExactly(2, all, 2);
  }

  lemma NothingYet(p: nat, all: seq<nat>)
    requires p >= 1
    ensures Carried(p, all, 0) == 0 && Rounds(p, all, 0) == [] && Lost(p, all, 0) == 0 && SumOf(all[..0]) == 0
  {
  }

  /** One processor, one trace of 2^32 + 5 instructions: five ticks. */
  lemma CastDropsInstructions(quantum: nat)
    ensures var all := AllCounted([0x1_0000_0005], quantum);
            && SumOf(AllRan([0x1_0000_0005], quantum)) == 0x1_0000_0005
            && Rounds(1, all, 1) == [5] && Carried(1, all, 1) == 0 && Lost(1, all, 1) == 0
  {
    var ns := [TWO32 + 5];
    var all, ran := AllCounted(ns, quantum), AllRan(ns, quantum);
    assert all == [5] && ran == [TWO32 + 5] && ran[..0] == [] && ran[..1] == ran;
    assert RoundEnds(1, 1) && Rest(5, 1) == 0 && Share(5, 1) == 5;
    NothingYet(1, all);
    NothingYet(1, ran);
    hide *;
    SpecStep(1, all, 0);
    SpecStep(1, ran, 0);
  }

  /** A halted processor, whose trace has no instruction, is taken to have run its quantum. */
  lemma HaltedRunsItsQuantum(quantum: nat, n: nat)
    requires quantum < 0x1_0000_0000 && 0 < n < 0x1_0000_0000
    ensures AllCounted([0, n], quantum) == [quantum, n] == AllRan([0, n], quantum)
    ensures Rounds(1, AllCounted([0], quantum), 1) == [quantum]
  {
    var all := AllCounted([0], quantum);
    assert all == [quantum];
    assert RoundEnds(1, 1) && Share(quantum, 1) == quantum;
    NothingYet(1, all);
    SpecStep(1, all, 0);
  }

  // ------------------------------------------------------------------ the code

  function Times(a: nat, b: nat): nat { a * b }

  /** Every instruction of the traces is accounted for as a tick or carried over. */
  predicate Conserved(p: nat, ns: seq<nat>, quantum: nat, rounds: seq<nat>, executed: nat) {
    Times(p, SumOf(rounds)) + executed == SumOf(AllRan(ns, quantum))
  }

  /** The SMP loop of `bx_begin_simulation`, run for as many traces as `ns` has entries; `ns[i]` is the
      number of instructions of the i-th trace and `rounds` the tick requests made so far. */
  method SmpLoop(processors: nat, quantum: nat, ns: seq<nat>)
    returns (rounds: seq<nat>, executed: nat, processor: nat, ghost lost: nat)
    requires processors >= 1 && quantum < TWO32
    ensures |ns| == Times(processors, |rounds|) + processor && processor < processors
    ensures rounds == Rounds(processors, AllCounted(ns, quantum), |ns|)
    ensures executed == Carried(processors, AllCounted(ns, quantum), |ns|) < TWO32
    ensures processor == 0 ==> executed < processors
    ensures Times(processors, SumOf(rounds)) + executed + TWO32 * lost == SumOf(AllCounted(ns, quantum))
    ensures lost == 0 <==> NeverWraps(processors, AllCounted(ns, quantum), |ns|)
    ensures Conserved(processors, ns, quantum, rounds, executed) <==>
            NeverWraps(processors, AllCounted(ns, quantum), |ns|) && forall n :: n in ns ==> n < TWO32
  {
    rounds, executed, processor, lost := [], 0, 0, 0;
    var i := 0;
    ghost var all := AllCounted(ns, quantum);
    hide *;
    LoopStarts(processors, all);
    while i < |ns|
      invariant 0 <= i <= |ns| && Underway(processors, all, i, rounds, executed, processor, lost)
    {
      var n := ns[i] % TWO32;
      if n == 0 { n := quantum; }  // the processor was halted
      CountedAt(ns, quantum, i);
      LoopStep(processors, all, i, rounds, executed, processor, lost);
      lost := lost + (executed + n) / TWO32;
      executed := (executed + n) % TWO32;
      processor := processor + 1;
      if processor == processors {
        processor := 0;
        var ticks;
        ticks, executed := EndRound(processors, executed);
        rounds := rounds + [ticks];
      }
      i := i + 1;
    }
    LoopEnds(processors, ns, quantum, rounds, executed, processor, lost);
  }

  /** The tick request at the end of a round, and what is carried over. */
  method EndRound(processors: nat, executed: nat) returns (ticks: nat, rest: nat)
    requires processors >= 1
    ensures ticks == Share(executed, processors) && rest == Rest(executed, processors)
    ensures rest < processors && Times(processors, ticks) + rest == executed
  {
    ticks := executed / processors;
    rest := executed % processors;
    assert executed == ticks * processors + rest;
  }

  /** The loop's variables after i traces. */
  ghost predicate Accounts(p: nat, all: seq<nat>, i: nat, rounds: seq<nat>, executed: nat, lost: nat)
    requires p >= 1 && i <= |all|
  {
    && executed == Carried(p, all, i) && rounds == Rounds(p, all, i) && lost == Lost(p, all, i)
    && Times(p, SumOf(rounds)) + executed + TWO32 * lost == SumOf(all[..i])
  }

  ghost predicate Underway(p: nat, all: seq<nat>, i: nat, rounds: seq<nat>, executed: nat, processor: nat, lost: nat)
    requires p >= 1 && i <= |all|
  {
    && Accounts(p, all, i, rounds, executed, lost)
    && processor < p && i == Times(p, |rounds|) + processor
    && executed < TWO32 && (processor == 0 ==> executed < p)
  }

  lemma CountedAt(ns: seq<nat>, quantum: nat, i: nat)
    requires i < |ns|
    ensures AllCounted(ns, quantum)[i] == var n := ns[i] % TWO32; if n == 0 then quantum else n
  {
  }

  lemma LoopStarts(p: nat, all: seq<nat>)
    requires p >= 1
    ensures Underway(p, all, 0, [], 0, 0, 0)
  {
    TimesZero(p);
  }

  lemma LoopStep(p: nat, all: seq<nat>, i: nat, rounds: seq<nat>, executed: nat, processor: nat, lost: nat)
    requires p >= 1 && i < |all| && Underway(p, all, i, rounds, executed, processor, lost)
    ensures var c := (executed + all[i]) % TWO32;
            var lost' := lost + (executed + all[i]) / TWO32;
            && processor < p
            && if processor + 1 == p then Underway(p, all, i + 1, rounds + [Share(c, p)], Rest(c, p), 0, lost')
               else Underway(p, all, i + 1, rounds, c, processor + 1, lost')
  {
    EndsRound(p, |rounds|, processor);
    hide RoundEnds, Share, Rest, Accounts;
    var c := (executed + all[i]) % TWO32;
    AccountsStep(p, all, i, rounds, executed, lost, c);
    RoundCount(p, |rounds|);
    hide Times;
  }

  lemma AccountsStep(p: nat, all: seq<nat>, i: nat, rounds: seq<nat>, executed: nat, lost: nat, c: nat)
    requires p >= 1 && i < |all| && Accounts(p, all, i, rounds, executed, lost) && c == (executed + all[i]) % TWO32
    ensures var lost' := lost + (executed + all[i]) / TWO32;
            if RoundEnds(p, i + 1) then Accounts(p, all, i + 1, rounds + [Share(c, p)], Rest(c, p), lost')
            else Accounts(p, all, i + 1, rounds, c, lost')
  {
    SpecStep(p, all, i);
    RoundAdded(p, rounds, c);
    var up := (executed + all[i]) / TWO32;
    assert TWO32 * up + c == executed + all[i];
    hide Carried, Rounds, Lost, SumOf, Times, RoundEnds, Share, Rest;
  }

  /** One step of the specification. */
  lemma SpecStep(p: nat, all: seq<nat>, i: nat)
    requires p >= 1 && i < |all|
    ensures var c := (Carried(p, all, i) + all[i]) % TWO32;
            && Carried(p, all, i + 1) == (if RoundEnds(p, i + 1) then Rest(c, p) else c)
            && Rounds(p, all, i + 1) == Rounds(p, all, i) + (if RoundEnds(p, i + 1) then [Share(c, p)] else [])
            && Lost(p, all, i + 1) == Lost(p, all, i) + (Carried(p, all, i) + all[i]) / TWO32
    ensures SumOf(all[..i + 1]) == SumOf(all[..i]) + all[i]
  {
    assert Filled(p, all, i) == (Carried(p, all, i) + all[i]) % TWO32;
    SumNext(all, 0, i);
    assert all[0..i] == all[..i] && all[0..i + 1] == all[..i + 1];
  }

  lemma RoundAdded(p: nat, rounds: seq<nat>, c: nat)
    requires p >= 1
    ensures Times(p, SumOf(rounds + [Share(c, p)])) + Rest(c, p) == Times(p, SumOf(rounds)) + c
  {
    assert (rounds + [Share(c, p)])[..|rounds|] == rounds;
    assert SumOf(rounds + [Share(c, p)]) == SumOf(rounds) + Share(c, p);
    Distributes(p, SumOf(rounds), Share(c, p));
    Split(p, c);
    hide *;
  }

  /** What holds at the end of the run. */
  lemma LoopEnds(p: nat, ns: seq<nat>, quantum: nat, rounds: seq<nat>, executed: nat, processor: nat, lost: nat)
    requires p >= 1 && quantum < TWO32
    requires Underway(p, AllCounted(ns, quantum), |ns|, rounds, executed, processor, lost)
    ensures |ns| == Times(p, |rounds|) + processor && processor < p
    ensures rounds == Rounds(p, AllCounted(ns, quantum), |ns|)
    ensures executed == Carried(p, AllCounted(ns, quantum), |ns|) < TWO32 && (processor == 0 ==> executed < p)
    ensures Times(p, SumOf(rounds)) + executed + TWO32 * lost == SumOf(AllCounted(ns, quantum))
    ensures lost == 0 <==> NeverWraps(p, AllCounted(ns, quantum), |ns|)
    ensures Conserved(p, ns, quantum, rounds, executed) <==>
            NeverWraps(p, AllCounted(ns, quantum), |ns|) && forall n :: n in ns ==> n < TWO32
  {
    assert AllCounted(ns, quantum)[..|ns|] == AllCounted(ns, quantum);
    LosesNothingExactly(p, AllCounted(ns, quantum), |ns|);
    CastLosesNothingExactly(ns, quantum);
    hide Carried, Rounds, Lost, SumOf, Times, AllCounted, AllRan, NeverWraps;
  }

  lemma Split(p: nat, c: nat)
    requires p >= 1
    ensures Times(p, Share(c, p)) + Rest(c, p) == c
  {
  }

  lemma EndsRound(p: nat, q: nat, r: nat)
    requires r < p
    ensures RoundEnds(p, Times(p, q) + r + 1) <==> r + 1 == p
  {
    if r + 1 == p {
      assert Times(p, q) + p == (q + 1) * p + 0;
      DivUnique(Times(p, q) + r + 1, p, q + 1, 0);
    } else {
      assert Times(p, q) == q * p;
      DivUnique(Times(p, q) + r + 1, p, q, r + 1);
    }
  }

  lemma RoundCount(p: nat, rounds: nat)
    ensures Times(p, rounds + 1) == Times(p, rounds) + p
  {
    Distributes(p, rounds, 1);
  }

  lemma TimesZero(p: nat)
    ensures Times(p, 0) == 0
  {
  }

  lemma Distributes(p: nat, a: nat, b: nat)
    ensures Times(p, a + b) == Times(p, a) + Times(p, b)
  {
    assert p * (a + b) == p * a + p * b;
  }
}
