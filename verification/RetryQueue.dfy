/** `RetryQueue` as the object it is: `run` works through a double-ended queue and fills the shared dead
    letters, `drain_dead_letters` takes them away. */
module RetryQueue {
  import opened Wrappers
  import opened RetryLoop
  import opened RetryOutcome

  function ErrorOf(outcome: Outcome): string { match outcome case Failed(error) => error case Succeeded => "" }

  /** What is written about the last attempt of a buried job. */
  function Letter(jobs: seq<Job>, f: JobFn, e: Entry): DeadLetter {
    DeadLetter(
      if e.index < |jobs| then jobs[e.index] else Job(e.index, ""), e.attempt + 1, ErrorOf(f(e.index, e.attempt)))
  }

  function Letters(jobs: seq<Job>, f: JobFn, dead: seq<Entry>): seq<DeadLetter> {
    seq(|dead|, i requires 0 <= i < |dead| => Letter(jobs, f, dead[i]))
  }

  /** The dead letters of a run, from the reference rounds alone. */
  ghost predicate IsLetters(letters: seq<DeadLetter>, jobs: seq<Job>, f: JobFn, m: nat)
    requires m > 0
  {
    var dead := Survivors(f, |jobs|, m);
    && |letters| == |dead|
    && forall i :: 0 <= i < |dead| ==>
         && dead[i] < |jobs| && f(dead[i], m - 1).Failed?
         && letters[i] == DeadLetter(jobs[dead[i]], m, f(dead[i], m - 1).error)
  }

  lemma LettersSnoc(jobs: seq<Job>, f: JobFn, dead: seq<Entry>, e: Entry)
    ensures Letters(jobs, f, dead + [e]) == Letters(jobs, f, dead) + [Letter(jobs, f, e)]
  {
  }

  lemma LettersAreReference(letters: seq<DeadLetter>, jobs: seq<Job>, f: JobFn, m: nat, dead: seq<Entry>)
    requires m > 0 && letters == Letters(jobs, f, dead) && dead == Tagged(Survivors(f, |jobs|, m), m - 1)
    ensures IsLetters(letters, jobs, f, m)
  {
    SurvivorsMeaning(f, |jobs|, m);
    forall i | 0 <= i < |Survivors(f, |jobs|, m)|
      ensures var x := Survivors(f, |jobs|, m)[i]; dead[i] == Entry(x, m - 1) && x < |jobs| && f(x, m - 1).Failed?
    {
      assert Survivors(f, |jobs|, m)[i] in Survivors(f, |jobs|, m);
    }
  }

  /** The state is that of some loop head of the run. */
  ghost predicate AtHead(c: Config, f: JobFn, n: nat, s: Loop) {
    exists k: nat :: s == After(c, f, n, k)
  }

  /** The job at the front of the queue is one of the submitted jobs. */
  lemma QueuedIndices(c: Config, f: JobFn, n: nat, s: Loop)
    requires AtHead(c, f, n, s) && Running(s)
    ensures s.queue[0].index < n
  {
    var k: nat :| s == After(c, f, n, k);
    Conservation(c, f, n, k);
    assert Indices(s.queue)[0] in multiset(Indices(s.queue));
    assert s.queue[0].index in multiset(Range(n));
  }

  /** A loop that goes on has not made all the calls it may make. */
  lemma CallsLeft(c: Config, f: JobFn, n: nat, s: Loop)
    requires AtHead(c, f, n, s) && Running(s)
    ensures |s.calls| < n * MaxAttempts(c)
  {
    var k: nat :| s == After(c, f, n, k);
    CallsMade(c, f, n, k);
    IterationBound(c, f, n, k);
    IterateDecreases(c, f, s);
  }

  /** A run panics before it has buried anything. */
  lemma PanicMeansOverflow(c: Config, f: JobFn, n: nat, s: Loop)
    requires AtHead(c, f, n, s) && s.panicked
    ensures NeedsOverflow(c, f, n) && s.dead == []
  {
    var k: nat :| s == After(c, f, n, k);
    OnlyIfNeeded(c, f, n, k);
  }

  lemma NextIsHead(c: Config, f: JobFn, n: nat, s: Loop)
    requires AtHead(c, f, n, s) && Running(s)
    ensures AtHead(c, f, n, Iterate(c, f, s))
  {
    var k: nat :| s == After(c, f, n, k);
    assert Iterate(c, f, s) == After(c, f, n, k + 1);
  }

  /** The loop's own variables and the letters written so far agree with the loop head. */
  ghost predicate Tracks(
    s: Loop, jobs: seq<Job>, f: JobFn,
    queue: seq<Entry>, succeeded: nat, failed: nat, dead: nat, letters: seq<DeadLetter>)
  {
    && !s.panicked && queue == s.queue && succeeded == |s.succeeded| && dead == |s.dead|
    && failed == FailedCalls(f, s.calls) && letters == Letters(jobs, f, s.dead)
  }

  /** A turn whose job succeeds leads to the next loop head. */
  lemma TurnSucceeds(
    c: Config, jobs: seq<Job>, f: JobFn, s: Loop,
    queue: seq<Entry>, succeeded: nat, failed: nat, dead: nat, letters: seq<DeadLetter>)
    returns (t: Loop)
    requires AtHead(c, f, |jobs|, s) && queue != [] && Tracks(s, jobs, f, queue, succeeded, failed, dead, letters)
    requires f(queue[0].index, queue[0].attempt).Succeeded?
    ensures AtHead(c, f, |jobs|, t) && |t.calls| == |s.calls| + 1
    ensures Tracks(t, jobs, f, queue[1..], succeeded + 1, failed, dead, letters)
  {
    CallCounted(f, s.calls, queue[0]);
    NextIsHead(c, f, |jobs|, s);
    t := Iterate(c, f, s);
    assert t == s.(queue := queue[1..], calls := s.calls + [queue[0]], succeeded := s.succeeded + [queue[0].index]);
  }

  /** So does one whose job has had its last attempt. */
  lemma TurnBuries(
    c: Config, jobs: seq<Job>, f: JobFn, s: Loop,
    queue: seq<Entry>, succeeded: nat, failed: nat, dead: nat, letters: seq<DeadLetter>)
    returns (t: Loop)
    requires AtHead(c, f, |jobs|, s) && queue != [] && Tracks(s, jobs, f, queue, succeeded, failed, dead, letters)
    requires f(queue[0].index, queue[0].attempt).Failed? && queue[0].attempt + 1 >= c.maxRetries
    ensures AtHead(c, f, |jobs|, t) && |t.calls| == |s.calls| + 1
    ensures Tracks(t, jobs, f, queue[1..], succeeded, failed + 1, dead + 1, letters + [Letter(jobs, f, queue[0])])
  {
    CallCounted(f, s.calls, queue[0]);
    NextIsHead(c, f, |jobs|, s);
    LettersSnoc(jobs, f, s.dead, queue[0]);
    t := Iterate(c, f, s);
    assert t == s.(queue := queue[1..], calls := s.calls + [queue[0]], dead := s.dead + [queue[0]]);
  }

  /** And one whose job is tried again. */
  lemma TurnRetries(
    c: Config, jobs: seq<Job>, f: JobFn, s: Loop,
    queue: seq<Entry>, succeeded: nat, failed: nat, dead: nat, letters: seq<DeadLetter>)
    returns (t: Loop)
    requires AtHead(c, f, |jobs|, s) && queue != [] && Tracks(s, jobs, f, queue, succeeded, failed, dead, letters)
    requires f(queue[0].index, queue[0].attempt).Failed? && queue[0].attempt + 1 < c.maxRetries
    requires !Overflows(c, queue[0].attempt)
    ensures AtHead(c, f, |jobs|, t) && |t.calls| == |s.calls| + 1
    ensures Tracks(t, jobs, f, queue[1..] + [Entry(queue[0].index, queue[0].attempt + 1)],
                   succeeded, failed + 1, dead, letters)
  {
    CallCounted(f, s.calls, queue[0]);
    NextIsHead(c, f, |jobs|, s);
    t := RetryStep(c, f, s, queue);
  }

  lemma RetryStep(c: Config, f: JobFn, s: Loop, queue: seq<Entry>) returns (t: Loop)
    requires Running(s) && queue == s.queue && f(queue[0].index, queue[0].attempt).Failed?
    requires queue[0].attempt + 1 < c.maxRetries && !Overflows(c, queue[0].attempt)
    ensures t == Iterate(c, f, s) && !t.panicked && t.succeeded == s.succeeded && t.dead == s.dead
    ensures t.queue == queue[1..] + [Entry(queue[0].index, queue[0].attempt + 1)] && t.calls == s.calls + [queue[0]]
  {
    t := Iterate(c, f, s);
  }

  /** One that panics does so because the back-off overflows, and before anything has been buried. */
  lemma TurnPanics(c: Config, jobs: seq<Job>, f: JobFn, s: Loop)
    requires AtHead(c, f, |jobs|, s) && Running(s)
    requires var e := s.queue[0];
             f(e.index, e.attempt).Failed? && e.attempt + 1 < c.maxRetries && Overflows(c, e.attempt)
    ensures NeedsOverflow(c, f, |jobs|) && s.dead == []
  {
    NextIsHead(c, f, |jobs|, s);
    PanicMeansOverflow(c, f, |jobs|, Iterate(c, f, s));
  }

  /** What a completed run reports. */
  ghost predicate Reports(report: Report, c: Config, f: JobFn, n: nat) {
    var m := MaxAttempts(c);
    && report.deadLetters == |Survivors(f, n, m)|
    && report.succeeded + |Survivors(f, n, m)| == n
    && report.failed == Failures(f, n, m)
  }

  /** A loop that has ended without a panic has buried the reference's dead letters and counted right. */
  lemma Finished(
    c: Config, jobs: seq<Job>, f: JobFn, s: Loop,
    succeeded: nat, failed: nat, dead: nat, letters: seq<DeadLetter>)
    requires AtHead(c, f, |jobs|, s) && Tracks(s, jobs, f, [], succeeded, failed, dead, letters)
    ensures IsLetters(letters, jobs, f, MaxAttempts(c)) && !NeedsOverflow(c, f, |jobs|)
    ensures Reports(Report(succeeded, failed, dead), c, f, |jobs|)
  {
    var k: nat :| s == After(c, f, |jobs|, k);
    RunOutcome(c, f, |jobs|, k);
    LettersAreReference(letters, jobs, f, MaxAttempts(c), s.dead);
  }

  class RetryQueue {
    const maxRetries: nat
    const baseDelay: nat
    var deadLetters: seq<DeadLetter>

    constructor (maxRetries: nat, baseDelay: nat)
      ensures this.maxRetries == maxRetries && this.baseDelay == baseDelay && deadLetters == []
    {
      this.maxRetries, this.baseDelay, deadLetters := maxRetries, baseDelay, [];
    }

    function Cfg(): Config { Config(maxRetries, baseDelay) }

    /** `None` when a back-off overflows and the run panics: then nothing has been added to the dead letters. */
    method Run(jobs: seq<Job>, jobFn: JobFn) returns (report: Option<Report>)
      modifies this
      ensures report.None? <==> NeedsOverflow(Cfg(), jobFn, |jobs|)
      ensures report.None? ==> deadLetters == old(deadLetters)
      ensures report.Some? ==>
        && old(deadLetters) <= deadLetters
        && IsLetters(deadLetters[|old(deadLetters)|..], jobs, jobFn, MaxAttempts(Cfg()))
        && Reports(report.value, Cfg(), jobFn, |jobs|)
    {
      var queue := Tagged(Range(|jobs|), 0);
      var succeeded, failedTotal, dead := 0, 0, 0;
      ghost var c, bound := Cfg(), |jobs| * MaxAttempts(Cfg());
      ghost var s := After(c, jobFn, |jobs|, 0);
      ghost var letters: seq<DeadLetter> := [];
      while queue != []
        invariant AtHead(c, jobFn, |jobs|, s) && Tracks(s, jobs, jobFn, queue, succeeded, failedTotal, dead, letters)
        invariant deadLetters == old(deadLetters) + letters
        decreases bound - |s.calls|
      {
        var e := queue[0];
        ghost var before := queue;
        QueuedIndices(c, jobFn, |jobs|, s);
        CallsLeft(c, jobFn, |jobs|, s);
        queue := queue[1..];
        match jobFn(e.index, e.attempt) {
          case Succeeded =>
            s := TurnSucceeds(c, jobs, jobFn, s, before, succeeded, failedTotal, dead, letters);
            succeeded := succeeded + 1;
          case Failed(error) =>
            if e.attempt + 1 >= maxRetries {
              s := TurnBuries(c, jobs, jobFn, s, before, succeeded, failedTotal, dead, letters);
              assert Letter(jobs, jobFn, e) == DeadLetter(jobs[e.index], e.attempt + 1, error);
              letters := letters + [Letter(jobs, jobFn, e)];
              failedTotal := failedTotal + 1;
              deadLetters := deadLetters + [DeadLetter(jobs[e.index], e.attempt + 1, error)];
              dead := dead + 1;
            } else if Overflows(Cfg(), e.attempt) {
              TurnPanics(c, jobs, jobFn, s);
              return None;
            } else {
              s := TurnRetries(c, jobs, jobFn, s, before, succeeded, failedTotal, dead, letters);
              failedTotal := failedTotal + 1;
              queue := queue + [Entry(e.index, e.attempt + 1)];
            }
        }
      }
      Finished(c, jobs, jobFn, s, succeeded, failedTotal, dead, letters);
      assert deadLetters[|old(deadLetters)|..] == letters;
      report := Some(Report(succeeded, failedTotal, dead));
    }

    method DrainDeadLetters() returns (letters: seq<DeadLetter>)
      modifies this
      ensures letters == old(deadLetters) && deadLetters == []
    {
      letters := deadLetters;
      deadLetters := [];
    }
  }
}
