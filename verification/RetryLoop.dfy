/**
 * The retry queue: a FIFO loop that pushes failed jobs back until they succeed or run out of attempts.
 *
 * Jobs are named by their submission index.  The outcome of a call is `jobFn(index, attempt)`: a run makes
 * each such call at most once (`CallsInOrder`), so these functions cover every job function, stateful or not.
 */
module RetryLoop {
  datatype Job = Job(id: nat, name: string)

  datatype Outcome = Succeeded | Failed(error: string)

  datatype DeadLetter = DeadLetter(job: Job, attempts: nat, lastError: string)

  datatype Report = Report(succeeded: nat, failed: nat, deadLetters: nat)

  /** A job and the number of attempts it has already had. */
  datatype Entry = Entry(index: nat, attempt: nat)

  type JobFn = (nat, nat) -> Outcome

  datatype Config = Config(maxRetries: nat, baseDelay: nat)

  /** The longest `Duration`, in nanoseconds: 2^64 seconds less one nanosecond. */
  const MAX_DURATION: nat := 0x1_0000_0000_0000_0000 * 1_000_000_000 - 1

  function Pow2(n: nat): nat { if n == 0 then 1 else 2 * Pow2(n - 1) }

  function Backoff(c: Config, attempt: nat): nat {
    c.baseDelay * Pow2(if attempt < 31 then attempt else 31)
  }

  /** `Duration * u32` panics when the product does not fit. */
  predicate Overflows(c: Config, attempt: nat) { Backoff(c, attempt) > MAX_DURATION }

  /** The delay is the base delay at first, doubles with every attempt up to the 31st, and stays there. */
  lemma BackoffDoubles(c: Config, attempt: nat)
    ensures Backoff(c, 0) == c.baseDelay
    ensures attempt < 31 ==> Backoff(c, attempt + 1) == 2 * Backoff(c, attempt)
    ensures attempt >= 31 ==> Backoff(c, attempt) == Backoff(c, 31)
  {
    if attempt < 31 {
      assert Pow2(attempt + 1) == 2 * Pow2(attempt);
      assert c.baseDelay * (2 * Pow2(attempt)) == 2 * (c.baseDelay * Pow2(attempt));
    }
  }

  /** A `Duration` holds u64 seconds and less than a second of nanoseconds. */
  lemma OverflowsIff(c: Config, attempt: nat)
    ensures Overflows(c, attempt) <==> Backoff(c, attempt) / 1_000_000_000 > 18_446_744_073_709_551_615
  {
  }

  /** How often a job that keeps failing is tried: once even when no retry is allowed. */
  function MaxAttempts(c: Config): nat { if c.maxRetries == 0 then 1 else c.maxRetries }

  /** max(1, max_retries) */
  lemma MaxAttemptsIs(c: Config)
    ensures c.maxRetries <= 1 ==> MaxAttempts(c) == 1
    ensures c.maxRetries >= 1 ==> MaxAttempts(c) == c.maxRetries
  {
  }

  // ------------------------------------------------------------------------------------------
  // The loop
  // ------------------------------------------------------------------------------------------

  datatype Loop = Loop(
    queue: seq<Entry>,
    succeeded: seq<nat>,   // in the order of success
    dead: seq<Entry>,      // with the attempt that failed last
    calls: seq<Entry>,     // every call of the job function
    panicked: bool)        // a back-off overflowed

  function Range(n: nat): seq<nat> { seq(n, i => i) }

  function Tagged(xs: seq<nat>, attempt: nat): seq<Entry> {
    seq(|xs|, i requires 0 <= i < |xs| => Entry(xs[i], attempt))
  }

  function Start(n: nat): Loop { Loop(Tagged(Range(n), 0), [], [], [], false) }

  predicate Running(s: Loop) { s.queue != [] && !s.panicked }

  function Iterate(c: Config, f: JobFn, s: Loop): Loop
    requires Running(s)
  {
    var e := s.queue[0];
    var s' := s.(queue := s.queue[1..], calls := s.calls + [e]);
    if f(e.index, e.attempt).Succeeded? then s'.(succeeded := s.succeeded + [e.index])
    else if e.attempt + 1 >= c.maxRetries then s'.(dead := s.dead + [e])
    else if Overflows(c, e.attempt) then s'.(panicked := true)
    else s'.(queue := s.queue[1..] + [Entry(e.index, e.attempt + 1)])
  }

  /** The state at the head of the loop after `k` iterations, or at its end if that comes first. */
  function After(c: Config, f: JobFn, n: nat, k: nat): Loop {
    if k == 0 then Start(n)
    else
      var s := After(c, f, n, k - 1);
      if Running(s) then Iterate(c, f, s) else s
  }

  // ------------------------------------------------------------------------------------------
  // The reference: whole rounds
  // ------------------------------------------------------------------------------------------

  function FailedOf(f: JobFn, xs: seq<nat>, attempt: nat): seq<nat> {
    if xs == [] then []
    else
      var x := xs[|xs| - 1];
      FailedOf(f, xs[..|xs| - 1], attempt) + if f(x, attempt).Failed? then [x] else []
  }

  /** The jobs that fail their first `r` attempts, in submission order. */
  function Survivors(f: JobFn, n: nat, r: nat): seq<nat> {
    if r == 0 then Range(n) else FailedOf(f, Survivors(f, n, r - 1), r - 1)
  }

  /** The calls of the first `r` rounds. */
  function Rounds(f: JobFn, n: nat, r: nat): seq<Entry> {
    if r == 0 then [] else Rounds(f, n, r - 1) + Tagged(Survivors(f, n, r - 1), r - 1)
  }

  /** All failures of the first `r` rounds. */
  function Failures(f: JobFn, n: nat, r: nat): nat {
    if r == 0 then 0 else Failures(f, n, r - 1) + |Survivors(f, n, r)|
  }

  function FailedCalls(f: JobFn, calls: seq<Entry>): nat {
    if calls == [] then 0
    else
      var e := calls[|calls| - 1];
      FailedCalls(f, calls[..|calls| - 1]) + if f(e.index, e.attempt).Failed? then 1 else 0
  }

  /** In round `r` with `p` survivors dealt with, the queue is the rest of the round followed by the jobs that
      have failed in it, except in the last round, whose failures are dead. */
  ghost predicate QueueInRound(c: Config, f: JobFn, alive: seq<nat>, s: Loop, r: nat, p: nat)
    requires p <= |alive|
  {
    var failed := FailedOf(f, alive[..p], r);
    if r + 1 < MaxAttempts(c) then
      s.queue == Tagged(alive[p..], r) + Tagged(failed, r + 1) && s.dead == []
    else
      s.queue == Tagged(alive[p..], r) && s.dead == Tagged(failed, r)
  }

  /** The calls made are those of whole rounds and of the first `p` survivors of round `r`. */
  ghost predicate CallsInRound(f: JobFn, n: nat, s: Loop, r: nat, p: nat)
    requires p <= |Survivors(f, n, r)|
  {
    && s.calls == Rounds(f, n, r) + Tagged(Survivors(f, n, r)[..p], r)
    && FailedCalls(f, s.calls) == Failures(f, n, r) + |FailedOf(f, Survivors(f, n, r)[..p], r)|
  }

  /** No back-off that had to be computed so far has overflowed. */
  ghost predicate NoOverflowYet(c: Config, f: JobFn, n: nat, r: nat, p: nat)
    requires p <= |Survivors(f, n, r)|
  {
    && (r + 1 < MaxAttempts(c) && Overflows(c, r) ==> FailedOf(f, Survivors(f, n, r)[..p], r) == [])
    && forall a {:trigger Overflows(c, a)} :: 0 <= a < r && Overflows(c, a) ==> Survivors(f, n, a + 1) == []
  }

  /** The loop is in round `r` and has dealt with the first `p` survivors of it. */
  ghost predicate InRound(c: Config, f: JobFn, n: nat, s: Loop, r: nat, p: nat) {
    && r < MaxAttempts(c) && p <= |Survivors(f, n, r)| && !s.panicked
    && QueueInRound(c, f, Survivors(f, n, r), s, r, p)
    && CallsInRound(f, n, s, r, p)
    && NoOverflowYet(c, f, n, r, p)
  }

  /** Some job has to wait for a back-off that does not fit a `Duration`. */
  ghost predicate NeedsOverflow(c: Config, f: JobFn, n: nat) {
    exists a: nat :: a + 1 < MaxAttempts(c) && Overflows(c, a) && Survivors(f, n, a + 1) != []
  }

  lemma FailedOfSnoc(f: JobFn, xs: seq<nat>, p: nat, attempt: nat)
    requires p < |xs|
    ensures FailedOf(f, xs[..p + 1], attempt)
         == FailedOf(f, xs[..p], attempt) + if f(xs[p], attempt).Failed? then [xs[p]] else []
  {
    assert xs[..p + 1][..p] == xs[..p];
  }

  lemma StartsInRound(c: Config, f: JobFn, n: nat)
    ensures InRound(c, f, n, Start(n), 0, 0)
  {
    assert Tagged(Survivors(f, n, 0)[..0], 0) == [];
    assert Survivors(f, n, 0)[0..] == Range(n);
    assert FailedOf(f, Survivors(f, n, 0)[..0], 0) == [];
    assert Tagged([], 1) == [];
  }

  /** The end of a round is the beginning of the next one. */
  lemma NextRound(c: Config, f: JobFn, n: nat, s: Loop, r: nat)
    requires InRound(c, f, n, s, r, |Survivors(f, n, r)|) && r + 1 < MaxAttempts(c)
    ensures InRound(c, f, n, s, r + 1, 0)
  {
    var alive, next := Survivors(f, n, r), Survivors(f, n, r + 1);
    assert alive[..|alive|] == alive;
    assert next == FailedOf(f, alive, r);
    assert s.queue == Tagged(next[0..], r + 1);
    assert Tagged(next[..0], r + 1) == [];
    assert FailedOf(f, next[..0], r + 1) == [];
    assert Tagged([], r + 2) == [];
  }

  lemma CallCounted(f: JobFn, calls: seq<Entry>, e: Entry)
    ensures FailedCalls(f, calls + [e])
         == FailedCalls(f, calls) + if f(e.index, e.attempt).Failed? then 1 else 0
  {
    assert (calls + [e])[..|calls|] == calls;
  }

  lemma IterateQueue(c: Config, f: JobFn, alive: seq<nat>, s: Loop, r: nat, p: nat)
    requires r < MaxAttempts(c) && p < |alive| && !s.panicked && QueueInRound(c, f, alive, s, r, p)
    ensures Running(s) && s.queue[0] == Entry(alive[p], r)
    ensures var t := Iterate(c, f, s); !t.panicked ==> QueueInRound(c, f, alive, t, r, p + 1)
  {
    var x := alive[p];
    assert Tagged(alive[p..], r) == [Entry(x, r)] + Tagged(alive[p + 1..], r);
    FailedOfSnoc(f, alive, p, r);
    var failed, failed' := FailedOf(f, alive[..p], r), FailedOf(f, alive[..p + 1], r);
    if f(x, r).Failed? {
      assert Tagged(failed', r) == Tagged(failed, r) + [Entry(x, r)];
      assert Tagged(failed', r + 1) == Tagged(failed, r + 1) + [Entry(x, r + 1)];
    }
  }

  lemma TaggedSnoc(xs: seq<nat>, p: nat, attempt: nat)
    requires p < |xs|
    ensures Tagged(xs[..p + 1], attempt) == Tagged(xs[..p], attempt) + [Entry(xs[p], attempt)]
  {
  }

  lemma IterateCalls(c: Config, f: JobFn, n: nat, s: Loop, r: nat, p: nat)
    requires p < |Survivors(f, n, r)| && CallsInRound(f, n, s, r, p)
    requires Running(s) && s.queue[0] == Entry(Survivors(f, n, r)[p], r)
    ensures CallsInRound(f, n, Iterate(c, f, s), r, p + 1)
  {
    var alive := Survivors(f, n, r);
    FailedOfSnoc(f, alive, p, r);
    CallCounted(f, s.calls, s.queue[0]);
    TaggedSnoc(alive, p, r);
    assert Iterate(c, f, s).calls == s.calls + [Entry(alive[p], r)];
  }

  /** One iteration deals with one more survivor of the round, unless its back-off overflows. */
  lemma IterateInRound(c: Config, f: JobFn, n: nat, s: Loop, r: nat, p: nat)
    requires InRound(c, f, n, s, r, p) && p < |Survivors(f, n, r)|
    ensures Running(s)
    ensures var t := Iterate(c, f, s);
            if t.panicked then NeedsOverflow(c, f, n) && t.dead == [] && CallsInRound(f, n, t, r, p + 1)
            else InRound(c, f, n, t, r, p + 1)
  {
    var alive := Survivors(f, n, r);
    IterateQueue(c, f, alive, s, r, p);
    IterateCalls(c, f, n, s, r, p);
    FailedOfSnoc(f, alive, p, r);
    if Iterate(c, f, s).panicked {
      SomeSurvivor(f, alive, p, r);
      assert Survivors(f, n, r + 1) != [];
    }
  }

  lemma {:induction false} SomeSurvivor(f: JobFn, xs: seq<nat>, p: nat, r: nat)
    requires p < |xs| && f(xs[p], r).Failed?
    ensures FailedOf(f, xs, r) != []
  {
    if p < |xs| - 1 { SomeSurvivor(f, xs[..|xs| - 1], p, r); }
  }

  ghost predicate Reached(c: Config, f: JobFn, n: nat, s: Loop, r: nat, p: nat) {
    if s.panicked then
      NeedsOverflow(c, f, n) && s.dead == [] && p <= |Survivors(f, n, r)| && CallsInRound(f, n, s, r, p)
    else InRound(c, f, n, s, r, p) && (s.queue != [] ==> p < |Survivors(f, n, r)|)
  }

  lemma QueueLeft(c: Config, f: JobFn, alive: seq<nat>, s: Loop, r: nat)
    requires QueueInRound(c, f, alive, s, r, |alive|) && r + 1 >= MaxAttempts(c)
    ensures s.queue == []
  {
  }

  lemma FirstLeft(c: Config, f: JobFn, n: nat, s: Loop, r: nat)
    requires InRound(c, f, n, s, r, 0)
    ensures s.queue != [] ==> 0 < |Survivors(f, n, r)|
  {
    assert FailedOf(f, Survivors(f, n, r)[..0], r) == [];
  }

  lemma NextHead(c: Config, f: JobFn, n: nat, s: Loop, r: nat, p: nat) returns (r': nat, p': nat)
    requires Reached(c, f, n, s, r, p) && Running(s)
    ensures Reached(c, f, n, Iterate(c, f, s), r', p')
  {
    IterateInRound(c, f, n, s, r, p);
    r', p' := r, p + 1;
    var t := Iterate(c, f, s);
    if !t.panicked && p' == |Survivors(f, n, r)| {
      if r + 1 < MaxAttempts(c) {
        NextRound(c, f, n, t, r);
        r', p' := r + 1, 0;
        FirstLeft(c, f, n, t, r');
      } else {
        QueueLeft(c, f, Survivors(f, n, r), t, r);
      }
    }
  }

  /** Every loop head is somewhere in some round, or the run has panicked because it had to. */
  lemma {:induction false} EveryLoopHead(c: Config, f: JobFn, n: nat, k: nat) returns (r: nat, p: nat)
    ensures Reached(c, f, n, After(c, f, n, k), r, p)
  {
    if k == 0 {
      r, p := 0, 0;
      StartsInRound(c, f, n);
      FirstLeft(c, f, n, Start(n), 0);
    } else {
      r, p := EveryLoopHead(c, f, n, k - 1);
      if Running(After(c, f, n, k - 1)) {
        r, p := NextHead(c, f, n, After(c, f, n, k - 1), r, p);
      }
    }
  }
}
