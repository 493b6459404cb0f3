/** What the retry loop promises: order, conservation, termination and the exact outcome of a run. */
module RetryOutcome {
  import opened RetryLoop

  // ------------------------------------------------------------------------------------------
  // The reference rounds
  // ------------------------------------------------------------------------------------------

  predicate Increasing(xs: seq<nat>) { forall i, j :: 0 <= i < j < |xs| ==> xs[i] < xs[j] }

  lemma {:induction false} FailedOfMember(f: JobFn, xs: seq<nat>, attempt: nat, x: nat)
    ensures x in FailedOf(f, xs, attempt) <==> x in xs && f(x, attempt).Failed?
  {
    if xs != [] {
      assert xs == xs[..|xs| - 1] + [xs[|xs| - 1]];
      FailedOfMember(f, xs[..|xs| - 1], attempt, x);
    }
  }

  lemma {:induction false} FailedOfIncreasing(f: JobFn, xs: seq<nat>, attempt: nat)
    requires Increasing(xs)
    ensures Increasing(FailedOf(f, xs, attempt))
  {
    if xs != [] {
      var front := xs[..|xs| - 1];
      FailedOfIncreasing(f, front, attempt);
      forall i | 0 <= i < |FailedOf(f, front, attempt)|
        ensures FailedOf(f, front, attempt)[i] < xs[|xs| - 1]
      {
        FailedOfMember(f, front, attempt, FailedOf(f, front, attempt)[i]);
      }
    }
  }

  lemma {:induction false} SurvivorsIncreasing(f: JobFn, n: nat, r: nat)
    ensures Increasing(Survivors(f, n, r))
  {
    if r > 0 {
      SurvivorsIncreasing(f, n, r - 1);
      FailedOfIncreasing(f, Survivors(f, n, r - 1), r - 1);
    }
  }

  /** The survivors of `r` rounds are exactly the jobs whose first `r` attempts fail, in submission order. */
  lemma {:induction false} SurvivorsMeaning(f: JobFn, n: nat, r: nat)
    ensures Increasing(Survivors(f, n, r))
    ensures forall i: nat :: i in Survivors(f, n, r) <==> i < n && forall a: nat :: a < r ==> f(i, a).Failed?
  {
    SurvivorsIncreasing(f, n, r);
    if r == 0 {
      forall i: nat | i < n ensures i in Range(n) { assert Range(n)[i] == i; }
    } else {
      SurvivorsMeaning(f, n, r - 1);
      forall i: nat
        ensures i in Survivors(f, n, r) <==> i < n && forall a: nat :: a < r ==> f(i, a).Failed?
      {
        FailedOfMember(f, Survivors(f, n, r - 1), r - 1, i);
      }
    }
  }

  /** The calls of the first `r` rounds are exactly the attempts below `r` of jobs whose earlier attempts all fail. */
  lemma {:induction false} RoundsMeaning(f: JobFn, n: nat, r: nat, e: Entry)
    ensures e in Rounds(f, n, r)
       <==> e.attempt < r && e.index < n && forall a: nat :: a < e.attempt ==> f(e.index, a).Failed?
  {
    if r > 0 {
      RoundsMeaning(f, n, r - 1, e);
      var alive := Survivors(f, n, r - 1);
      SurvivorsMeaning(f, n, r - 1);
      assert e in Tagged(alive, r - 1) <==> e.attempt == r - 1 && e.index in alive by {
        if e.attempt == r - 1 && e.index in alive {
          var i :| 0 <= i < |alive| && alive[i] == e.index;
          assert Tagged(alive, r - 1)[i] == e;
        }
      }
    }
  }

  /** How many of the calls fail. */
  lemma {:induction false} FailedCallsMeaning(f: JobFn, calls: seq<Entry>)
    ensures FailedCalls(f, calls) == |FailingPositions(f, calls)|
  {
    if calls != [] {
      var front, last := calls[..|calls| - 1], |calls| - 1;
      FailedCallsMeaning(f, front);
      LastPosition(f, front, calls[last]);
      assert front + [calls[last]] == calls;
    }
  }

  function FailingPositions(f: JobFn, calls: seq<Entry>): set<int> {
    set k | 0 <= k < |calls| && f(calls[k].index, calls[k].attempt).Failed?
  }

  lemma LastPosition(f: JobFn, calls: seq<Entry>, e: Entry)
    ensures |FailingPositions(f, calls + [e])|
         == |FailingPositions(f, calls)| + if f(e.index, e.attempt).Failed? then 1 else 0
  {
    var fails := f(e.index, e.attempt).Failed?;
    assert FailingPositions(f, calls + [e]) == FailingPositions(f, calls) + (if fails then {|calls|} else {});
  }

  // ------------------------------------------------------------------------------------------
  // Order
  // ------------------------------------------------------------------------------------------

  /** Earlier attempts first, and submission order among equal attempts. */
  predicate Before(e: Entry, g: Entry) {
    e.attempt < g.attempt || (e.attempt == g.attempt && e.index < g.index)
  }

  predicate Ordered(es: seq<Entry>) { forall i, j :: 0 <= i < j < |es| ==> Before(es[i], es[j]) }

  /** Attempts never decrease along the queue, span two consecutive values at most, and keep submission
      order inside each value. */
  predicate RoundOrdered(queue: seq<Entry>) {
    && Ordered(queue)
    && forall i :: 0 <= i < |queue| ==> queue[i].attempt <= queue[0].attempt + 1
  }

  lemma PrefixIncreasing(f: JobFn, n: nat, r: nat, p: nat)
    requires p <= |Survivors(f, n, r)|
    ensures Increasing(Survivors(f, n, r)[..p]) && Increasing(Survivors(f, n, r)[p..])
    ensures Increasing(FailedOf(f, Survivors(f, n, r)[..p], r))
  {
    SurvivorsMeaning(f, n, r);
    FailedOfIncreasing(f, Survivors(f, n, r)[..p], r);
  }

  /** At every loop head the queue is in round order. */
  lemma RoundOrder(c: Config, f: JobFn, n: nat, k: nat)
    ensures !After(c, f, n, k).panicked ==> RoundOrdered(After(c, f, n, k).queue)
  {
    var r, p := EveryLoopHead(c, f, n, k);
    var s := After(c, f, n, k);
    if !s.panicked {
      PrefixIncreasing(f, n, r, p);
    }
  }

  lemma {:induction false} RoundsOrdered(f: JobFn, n: nat, r: nat)
    ensures Ordered(Rounds(f, n, r))
    ensures forall i :: 0 <= i < |Rounds(f, n, r)| ==> Rounds(f, n, r)[i].attempt < r
  {
    if r > 0 {
      RoundsOrdered(f, n, r - 1);
      SurvivorsMeaning(f, n, r - 1);
    }
  }

  /** The job function is called in round order, and never twice for the same job and attempt: nobody gets
      attempt k+1 before every job still alive has had attempt k. */
  lemma CallsInOrder(c: Config, f: JobFn, n: nat, k: nat)
    ensures Ordered(After(c, f, n, k).calls)
  {
    var r, p := EveryLoopHead(c, f, n, k);
    RoundsOrdered(f, n, r);
    PrefixIncreasing(f, n, r, p);
  }

  // ------------------------------------------------------------------------------------------
  // Conservation
  // ------------------------------------------------------------------------------------------

  function Indices(es: seq<Entry>): seq<nat> { seq(|es|, i requires 0 <= i < |es| => es[i].index) }

  /** Every job is in exactly one place. */
  ghost predicate Conserved(s: Loop, n: nat) {
    multiset(s.succeeded) + multiset(Indices(s.dead)) + multiset(Indices(s.queue)) == multiset(Range(n))
  }

  lemma IterateConserves(c: Config, f: JobFn, s: Loop, n: nat)
    requires Running(s) && Conserved(s, n)
    ensures var t := Iterate(c, f, s); !t.panicked ==> Conserved(t, n)
  {
    var t, e := Iterate(c, f, s), s.queue[0];
    assert Indices(s.queue) == [e.index] + Indices(s.queue[1..]);
    if f(e.index, e.attempt).Succeeded? {
    } else if e.attempt + 1 >= c.maxRetries {
      assert Indices(t.dead) == Indices(s.dead) + [e.index];
    } else if !t.panicked {
      assert Indices(t.queue) == Indices(s.queue[1..]) + [e.index];
    }
  }

  /** At every loop head each submitted job has succeeded, is dead or is queued, exactly once. */
  lemma {:induction false} Conservation(c: Config, f: JobFn, n: nat, k: nat)
    ensures var s := After(c, f, n, k);
            !s.panicked ==> Conserved(s, n) && |s.succeeded| + |s.dead| + |s.queue| == n
  {
    if k == 0 {
      assert Indices(Start(n).queue) == Range(n);
    } else {
      Conservation(c, f, n, k - 1);
      if Running(After(c, f, n, k - 1)) {
        IterateConserves(c, f, After(c, f, n, k - 1), n);
      }
    }
    var s := After(c, f, n, k);
    if !s.panicked {
      assert |multiset(s.succeeded)| == |s.succeeded| && |multiset(Indices(s.dead))| == |s.dead|;
      assert |multiset(Indices(s.queue))| == |s.queue| && |multiset(Range(n))| == n;
    }
  }

  // ------------------------------------------------------------------------------------------
  // Termination
  // ------------------------------------------------------------------------------------------

  /** The attempts the queued jobs may still have. */
  function Remaining(c: Config, queue: seq<Entry>): nat {
    if queue == [] then 0
    else
      Remaining(c, queue[1..]) + if queue[0].attempt < MaxAttempts(c) then MaxAttempts(c) - queue[0].attempt else 1
  }

  lemma {:induction false} RemainingSnoc(c: Config, queue: seq<Entry>, e: Entry)
    ensures Remaining(c, queue + [e]) == Remaining(c, queue) + Remaining(c, [e])
  {
    if queue == [] {
      assert queue + [e] == [e];
    } else {
      assert (queue + [e])[1..] == queue[1..] + [e];
      RemainingSnoc(c, queue[1..], e);
    }
  }

  /** The measure goes down in every iteration although failed jobs are pushed back. */
  lemma IterateDecreases(c: Config, f: JobFn, s: Loop)
    requires Running(s)
    ensures Remaining(c, Iterate(c, f, s).queue) < Remaining(c, s.queue)
  {
    var e := s.queue[0];
    RemainingSnoc(c, s.queue[1..], Entry(e.index, e.attempt + 1));
    assert Remaining(c, [Entry(e.index, e.attempt + 1)])
        == if e.attempt + 1 < MaxAttempts(c) then MaxAttempts(c) - e.attempt - 1 else 1;
  }

  lemma {:induction false} RemainingAtStart(c: Config, queue: seq<Entry>)
    requires forall i :: 0 <= i < |queue| ==> queue[i].attempt == 0
    ensures Remaining(c, queue) == |queue| * MaxAttempts(c)
  {
    if queue != [] { RemainingAtStart(c, queue[1..]); }
  }

  lemma {:induction false} IterationBound(c: Config, f: JobFn, n: nat, k: nat)
    ensures var s := After(c, f, n, k); Running(s) ==> k + Remaining(c, s.queue) <= n * MaxAttempts(c)
  {
    if k == 0 {
      RemainingAtStart(c, Start(n).queue);
    } else {
      IterationBound(c, f, n, k - 1);
      if Running(After(c, f, n, k - 1)) { IterateDecreases(c, f, After(c, f, n, k - 1)); }
    }
  }

  /** Every iteration makes one call. */
  lemma {:induction false} CallsMade(c: Config, f: JobFn, n: nat, k: nat)
    ensures Running(After(c, f, n, k)) ==> |After(c, f, n, k).calls| == k
  {
    if k > 0 { CallsMade(c, f, n, k - 1); }
  }

  /** After n * max(1, max_retries) iterations the loop has ended, whatever the jobs do. */
  lemma Terminates(c: Config, f: JobFn, n: nat)
    ensures !Running(After(c, f, n, n * MaxAttempts(c)))
  {
    var k := n * MaxAttempts(c);
    IterationBound(c, f, n, k);
    var s := After(c, f, n, k);
    if Running(s) {
      assert Remaining(c, s.queue) > 0 by { IterateDecreases(c, f, s); }
    }
  }

  // ------------------------------------------------------------------------------------------
  // Outcome
  // ------------------------------------------------------------------------------------------

  lemma {:induction false} LastRound(c: Config, f: JobFn, n: nat, s: Loop, r: nat, p: nat)
    requires InRound(c, f, n, s, r, p) && s.queue == []
    ensures var m := MaxAttempts(c) - 1; InRound(c, f, n, s, m, |Survivors(f, n, m)|)
    decreases MaxAttempts(c) - r
  {
    var alive := Survivors(f, n, r);
    assert |Tagged(alive[p..], r)| == |alive| - p;
    assert p == |alive|;
    if r + 1 < MaxAttempts(c) {
      NextRound(c, f, n, s, r);
      LastRound(c, f, n, s, r + 1, 0);
    }
  }

  lemma DeadInLastRound(c: Config, f: JobFn, alive: seq<nat>, s: Loop, m: nat)
    requires QueueInRound(c, f, alive, s, m, |alive|) && m + 1 == MaxAttempts(c)
    ensures s.dead == Tagged(FailedOf(f, alive, m), m)
  {
    assert alive[..|alive|] == alive;
  }

  lemma CallsInLastRound(f: JobFn, n: nat, s: Loop, m: nat)
    requires CallsInRound(f, n, s, m, |Survivors(f, n, m)|)
    ensures FailedCalls(f, s.calls) == Failures(f, n, m + 1) && s.calls == Rounds(f, n, m + 1)
  {
    assert Survivors(f, n, m)[..|Survivors(f, n, m)|] == Survivors(f, n, m);
  }

  /** A run that ends leaves exactly the jobs that failed every attempt in the dead letters, in submission
      order, with max(1, max_retries) attempts each; it has recorded every failure of every round. */
  ghost predicate Complete(c: Config, f: JobFn, n: nat, s: Loop) {
    var m := MaxAttempts(c);
    && s.dead == Tagged(Survivors(f, n, m), m - 1)
    && FailedCalls(f, s.calls) == Failures(f, n, m)
    && |s.succeeded| + |Survivors(f, n, m)| == n
    && s.calls == Rounds(f, n, m)
  }

  lemma NoOverflowAtEnd(c: Config, f: JobFn, n: nat, p: nat)
    requires p <= |Survivors(f, n, MaxAttempts(c) - 1)| && NoOverflowYet(c, f, n, MaxAttempts(c) - 1, p)
    ensures !NeedsOverflow(c, f, n)
  {
  }

  lemma EndIsComplete(c: Config, f: JobFn, n: nat, s: Loop)
    requires var m := MaxAttempts(c) - 1; InRound(c, f, n, s, m, |Survivors(f, n, m)|)
    requires |s.succeeded| + |s.dead| == n
    ensures Complete(c, f, n, s) && !NeedsOverflow(c, f, n)
  {
    var m := MaxAttempts(c) - 1;
    NoOverflowAtEnd(c, f, n, |Survivors(f, n, m)|);
    DeadInLastRound(c, f, Survivors(f, n, m), s, m);
    CallsInLastRound(f, n, s, m);
    assert Survivors(f, n, m + 1) == FailedOf(f, Survivors(f, n, m), m);
  }

  lemma RunOutcome(c: Config, f: JobFn, n: nat, k: nat)
    requires !Running(After(c, f, n, k)) && !After(c, f, n, k).panicked
    ensures Complete(c, f, n, After(c, f, n, k))
    ensures !NeedsOverflow(c, f, n)
  {
    var r, p := EveryLoopHead(c, f, n, k);
    var s := After(c, f, n, k);
    LastRound(c, f, n, s, r, p);
    Conservation(c, f, n, k);
    EndIsComplete(c, f, n, s);
  }

  /** The run ends in a panic. */
  predicate RunPanics(c: Config, f: JobFn, n: nat) { After(c, f, n, n * MaxAttempts(c)).panicked }

  /** The loop panics in `Duration` arithmetic if and only if some job has to wait for an overlong back-off. */
  lemma PanicsIff(c: Config, f: JobFn, n: nat)
    ensures RunPanics(c, f, n) <==> NeedsOverflow(c, f, n)
  {
    Terminates(c, f, n);
    PanicsIfNeeded(c, f, n, n * MaxAttempts(c));
  }

  lemma PanicsIfNeeded(c: Config, f: JobFn, n: nat, k: nat)
    requires !Running(After(c, f, n, k))
    ensures After(c, f, n, k).panicked <==> NeedsOverflow(c, f, n)
  {
    if After(c, f, n, k).panicked { OnlyIfNeeded(c, f, n, k); } else { RunOutcome(c, f, n, k); }
  }

  lemma OnlyIfNeeded(c: Config, f: JobFn, n: nat, k: nat)
    requires After(c, f, n, k).panicked
    ensures NeedsOverflow(c, f, n) && After(c, f, n, k).dead == []
  {
    var r, p := EveryLoopHead(c, f, n, k);
  }

  /** The failures a completed run reports are the failing calls among those of its rounds. */
  lemma FailuresMeaning(c: Config, f: JobFn, n: nat)
    requires !NeedsOverflow(c, f, n)
    ensures var m := MaxAttempts(c); Failures(f, n, m) == |FailingPositions(f, Rounds(f, n, m))|
  {
    Terminates(c, f, n);
    PanicsIff(c, f, n);
    var k := n * MaxAttempts(c);
    RunOutcome(c, f, n, k);
    FailedCallsMeaning(f, After(c, f, n, k).calls);
  }

  lemma {:induction false} BackoffMono(a: nat, b: nat)
    requires a <= b
    ensures Pow2(a) <= Pow2(b)
  {
    if a < b { BackoffMono(a, b - 1); }
  }

  lemma MulMono(x: nat, a: nat, b: nat)
    requires a <= b
    ensures x * a <= x * b
  {
  }

  /** A longest wait that fits is enough. */
  lemma NoPanicIfLongestFits(c: Config, f: JobFn, n: nat)
    requires c.maxRetries >= 2 ==> !Overflows(c, c.maxRetries - 2)
    ensures !NeedsOverflow(c, f, n)
  {
    forall a: nat | a + 1 < MaxAttempts(c) ensures !Overflows(c, a) {
      var e, l := if a < 31 then a else 31, if c.maxRetries - 2 < 31 then c.maxRetries - 2 else 31;
      BackoffMono(e, l);
      MulMono(c.baseDelay, Pow2(e), Pow2(l));
      assert Backoff(c, a) == c.baseDelay * Pow2(e) && Backoff(c, c.maxRetries - 2) == c.baseDelay * Pow2(l);
    }
  }

  lemma {:induction false} NoJobs(f: JobFn, r: nat)
    ensures Survivors(f, 0, r) == []
  {
    if r > 0 { NoJobs(f, r - 1); }
  }

  function AlwaysFails(index: nat, attempt: nat): Outcome { Failed("") }

  lemma {:induction false} NobodyIsSaved(n: nat, r: nat)
    ensures Survivors(AlwaysFails, n, r) == Range(n)
  {
    if r > 0 {
      NobodyIsSaved(n, r - 1);
      KeepsAll(AlwaysFails, Range(n), r - 1);
    }
  }

  /** No job function can make the loop panic if and only if there is no job, no retry, or the longest wait fits. */
  lemma NeverPanicsIff(c: Config, n: nat)
    ensures (forall f: JobFn :: !RunPanics(c, f, n))
       <==> n == 0 || c.maxRetries < 2 || !Overflows(c, c.maxRetries - 2)
  {
    forall f: JobFn ensures RunPanics(c, f, n) <==> NeedsOverflow(c, f, n) { PanicsIff(c, f, n); }
    NeverNeededIff(c, n);
  }

  lemma NeverNeededIff(c: Config, n: nat)
    ensures (forall f: JobFn :: !NeedsOverflow(c, f, n))
       <==> n == 0 || c.maxRetries < 2 || !Overflows(c, c.maxRetries - 2)
  {
    if n == 0 {
      forall f: JobFn ensures !NeedsOverflow(c, f, n) {
        if a: nat :| a + 1 < MaxAttempts(c) && Overflows(c, a) && Survivors(f, n, a + 1) != [] { NoJobs(f, a + 1); }
      }
    } else if c.maxRetries < 2 || !Overflows(c, c.maxRetries - 2) {
      forall f: JobFn ensures !NeedsOverflow(c, f, n) { NoPanicIfLongestFits(c, f, n); }
    } else {
      var a := c.maxRetries - 2;
      NobodyIsSaved(n, a + 1);
      assert |Range(n)| == n;
      assert a + 1 < MaxAttempts(c) && Overflows(c, a) && Survivors(AlwaysFails, n, a + 1) != [];
      assert NeedsOverflow(c, AlwaysFails, n);
    }
  }

  /** A job function that looks at the job only. */
  ghost predicate Deterministic(f: JobFn) {
    forall i: nat, a: nat :: f(i, a) == f(i, 0)
  }

  lemma {:induction false} KeepsAll(f: JobFn, xs: seq<nat>, attempt: nat)
    requires forall i :: 0 <= i < |xs| ==> f(xs[i], attempt).Failed?
    ensures FailedOf(f, xs, attempt) == xs
  {
    if xs != [] {
      KeepsAll(f, xs[..|xs| - 1], attempt);
      assert xs == xs[..|xs| - 1] + [xs[|xs| - 1]];
    }
  }

  lemma {:induction false} SameSurvivors(f: JobFn, n: nat, r: nat)
    requires Deterministic(f) && r >= 1
    ensures Survivors(f, n, r) == Survivors(f, n, 1)
  {
    if r > 1 {
      SameSurvivors(f, n, r - 1);
      SurvivorsMeaning(f, n, 1);
      forall i | 0 <= i < |Survivors(f, n, 1)| ensures f(Survivors(f, n, 1)[i], r - 1).Failed? {
        assert Survivors(f, n, 1)[i] in Survivors(f, n, 1);
        assert f(Survivors(f, n, 1)[i], 0).Failed?;
      }
      KeepsAll(f, Survivors(f, n, 1), r - 1);
    }
  }

  lemma {:induction false} SameFailures(f: JobFn, n: nat, r: nat)
    requires Deterministic(f)
    ensures Failures(f, n, r) == r * |Survivors(f, n, 1)|
  {
    if r > 0 {
      SameFailures(f, n, r - 1);
      SameSurvivors(f, n, r);
      var d := |Survivors(f, n, 1)|;
      assert (r - 1) * d + d == r * d;
    }
  }

  /** For a deterministic job function the failures recorded are max(1, max_retries) per dead letter. */
  lemma DeterministicFailures(c: Config, f: JobFn, n: nat, k: nat)
    requires Deterministic(f) && !Running(After(c, f, n, k)) && !After(c, f, n, k).panicked
    ensures var s := After(c, f, n, k); FailedCalls(f, s.calls) == |s.dead| * MaxAttempts(c)
  {
    var s, m := After(c, f, n, k), MaxAttempts(c);
    RunOutcome(c, f, n, k);
    assert |s.dead| == |Survivors(f, n, m)|;
    SameSurvivors(f, n, m);
    SameFailures(f, n, m);
    assert m * |s.dead| == |s.dead| * m;
  }
}
