/** What every schedule of the worker-pool protocol comes to: which messages are processed, how long it
    can take, and when it can get stuck. */
module WorkerPoolOutcome {
  import opened Wrappers
  import opened WorkerPool

  /** No step is possible although `drop` has not returned. */
  ghost predicate Stuck(c: Config, s: State) {
    !Final(s) && forall step :: !Enabled(c, s, step)
  }

  // ------------------------------------------------------------------------------------------
  // Which messages are served
  // ------------------------------------------------------------------------------------------

  lemma {:induction false} FatalCountFront(ms: seq<Msg>)
    requires ms != []
    ensures FatalCount(ms) == FatalCount(ms[1..]) + if Fatal(ms[0]) then 1 else 0
  {
    if |ms| > 1 {
      assert ms[..|ms| - 1][1..] == ms[1..][..|ms| - 2];
      FatalCountFront(ms[..|ms| - 1]);
    }
  }

  /** `Served` is the only length that stops either at the end or right at the n-th fatal message. */
  lemma {:induction false} ServedUnique(ms: seq<Msg>, n: nat, k: nat)
    requires k <= |ms|
    requires k > 0 ==> FatalCount(ms[..k - 1]) < n
    requires k == |ms| || FatalCount(ms[..k]) == n
    ensures k == Served(ms, n)
    decreases |ms|
  {
    if k == 0 {
      assert ms[..0] == [];
    } else {
      var n' := if Fatal(ms[0]) then n - 1 else n;
      if k > 1 {
        assert ms[..k - 1][1..] == ms[1..][..k - 2];
        FatalCountFront(ms[..k - 1]);
      }
      if k < |ms| {
        assert ms[..k][1..] == ms[1..][..k - 1];
        FatalCountFront(ms[..k]);
      }
      ServedUnique(ms[1..], n', k - 1);
    }
  }

  /** A pool of `n` workers serves the whole list exactly when fewer than `n` of the messages before the
      last one are fatal. */
  lemma ServedAllIff(ms: seq<Msg>, n: nat)
    ensures Served(ms, n) == |ms| <==> ms == [] || FatalCount(ms[..|ms| - 1]) < n
  {
    if ms != [] && FatalCount(ms[..|ms| - 1]) < n {
      ServedUnique(ms, n, |ms|);
    } else if ms != [] {
      ServedBelow(ms, n);
    }
  }

  lemma {:induction false} ServedBelow(ms: seq<Msg>, n: nat)
    requires ms != [] && FatalCount(ms[..|ms| - 1]) >= n
    ensures Served(ms, n) < |ms|
    decreases |ms|
  {
    if n > 0 {
      assert |ms| > 1;
      assert ms[..|ms| - 1][1..] == ms[1..][..|ms| - 2];
      FatalCountFront(ms[..|ms| - 1]);
      ServedBelow(ms[1..], if Fatal(ms[0]) then n - 1 else n);
    }
  }

  lemma {:induction false} AllTakenCount(ws: seq<Worker>, m: Msg)
    requires AllTerminated(ws)
    ensures multiset(AllTaken(ws))[m] == HeldCount(ws, m)
  {
    if ws != [] {
      AllTakenCount(ws[1..], m);
      assert multiset(ws[0].taken + AllTaken(ws[1..]))[m]
          == multiset(ws[0].taken)[m] + multiset(AllTaken(ws[1..]))[m];
    }
  }

  /** In a final state the received messages are the served prefix, and each of them has been started by
      exactly one worker. */
  lemma FinalOutcome(c: Config, s: State)
    requires Inv(c, s) && Final(s)
    ensures Served(c.msgs, c.workers) <= |c.msgs|
    ensures s.received == c.msgs[..Served(c.msgs, c.workers)]
    ensures multiset(AllTaken(s.workers)) == multiset(s.received)
  {
    var k := |s.received|;
    assert AllTerminated(s.workers);
    assert s.received == c.msgs[..k];
    if k > 0 {
      assert s.received[..k - 1] == c.msgs[..k - 1];
    }
    if exists w :: 0 <= w < |s.workers| && s.workers[w].phase.Exited? {
      assert k == |c.msgs|;
    } else {
      assert forall w :: 0 <= w < |s.workers| ==> Doomed(s.workers[w]);
      DoomedBound(s.workers);
    }
    ServedUnique(c.msgs, c.workers, k);
    forall m ensures multiset(AllTaken(s.workers))[m] == multiset(s.received)[m] {
      AllTakenCount(s.workers, m);
    }
  }

  /** Whatever the schedule, a pool whose `drop` has returned has processed, each exactly once, the messages
      up to the one that killed the last worker, and no other. */
  lemma DropOutcome(c: Config, steps: seq<Step>, s: State)
    requires Leads(c, Init(c), steps, s) && Final(s)
    ensures Served(c.msgs, c.workers) <= |c.msgs|
    ensures multiset(AllTaken(s.workers)) == multiset(c.msgs[..Served(c.msgs, c.workers)])
  {
    InitInv(c);
    RunInv(c, Init(c), steps, s);
    FinalOutcome(c, s);
  }

  /** Every submitted message is processed exactly once on every schedule if and only if fewer messages than
      there are workers are fatal, not counting the last one. */
  lemma CompleteIff(c: Config, steps: seq<Step>, s: State)
    requires Leads(c, Init(c), steps, s) && Final(s)
    ensures multiset(AllTaken(s.workers)) == multiset(c.msgs)
       <==> c.msgs == [] || FatalCount(c.msgs[..|c.msgs| - 1]) < c.workers
  {
    DropOutcome(c, steps, s);
    ServedAllIff(c.msgs, c.workers);
    var k := Served(c.msgs, c.workers);
    if k == |c.msgs| {
      assert c.msgs[..k] == c.msgs;
    } else {
      assert |multiset(c.msgs[..k])| == k;
      assert |multiset(c.msgs)| == |c.msgs|;
    }
  }

  /** With pairwise distinct jobs, the i-th job is started once if it is served and never otherwise. */
  lemma ExactlyOnce(c: Config, steps: seq<Step>, s: State, i: nat)
    requires Leads(c, Init(c), steps, s) && Final(s)
    requires i < |c.msgs| && forall j, k :: 0 <= j < k < |c.msgs| ==> c.msgs[j] != c.msgs[k]
    ensures multiset(AllTaken(s.workers))[c.msgs[i]] == if i < Served(c.msgs, c.workers) then 1 else 0
  {
    DropOutcome(c, steps, s);
    var k := Served(c.msgs, c.workers);
    CountDistinct(c.msgs[..k], c.msgs[i]);
    assert c.msgs[i] in c.msgs[..k] <==> i < k by {
      if i < k { assert c.msgs[..k][i] == c.msgs[i]; }
    }
  }

  lemma {:induction false} CountDistinct(ms: seq<Msg>, m: Msg)
    requires forall j, k :: 0 <= j < k < |ms| ==> ms[j] != ms[k]
    ensures multiset(ms)[m] == if m in ms then 1 else 0
  {
    if ms != [] {
      assert ms == [ms[0]] + ms[1..];
      CountDistinct(ms[1..], m);
    }
  }

  // ------------------------------------------------------------------------------------------
  // Termination
  // ------------------------------------------------------------------------------------------

  lemma BudgetDecreases(c: Config, s: State, step: Step)
    requires Enabled(c, s, step)
    ensures Budget(Apply(c, s, step)) < Budget(s)
  {
    var t := Apply(c, s, step);
    if Mover(step).Some? {
      var w := Mover(step).value;
      UpdateRank(s.workers, w, t.workers[w]);
      assert t.workers == s.workers[w := t.workers[w]];
    }
  }

  /** No schedule is longer than the budget of its first state: 6 steps a message, 5 a worker and 2. */
  lemma {:induction false} ScheduleBound(c: Config, s: State, steps: seq<Step>, t: State)
    requires Inv(c, s) && Leads(c, s, steps, t)
    ensures |steps| <= Budget(s) - Budget(t) && Budget(t) >= 0
    decreases |steps|
  {
    if steps != [] {
      BudgetDecreases(c, s, steps[0]);
      StepInv(c, s, steps[0]);
      ScheduleBound(c, Apply(c, s, steps[0]), steps[1..], t);
    }
  }

  lemma RunBound(c: Config, steps: seq<Step>, s: State)
    requires Leads(c, Init(c), steps, s)
    ensures |steps| <= 6 * |c.msgs| + 5 * c.workers + 2
  {
    InitInv(c);
    FreshWorkers(Init(c).workers);
    ScheduleBound(c, Init(c), steps, s);
  }

  // ------------------------------------------------------------------------------------------
  // Progress
  // ------------------------------------------------------------------------------------------

  /** What the channel has to take once no worker is left to empty it: everything that is not served.
      Only a bounded channel whose receiver main keeps alive can block on that. */
  predicate CanAlwaysDrain(c: Config) {
    c.mainHoldsReceiver && c.capacity.Some? ==> |c.msgs| <= Served(c.msgs, c.workers) + c.capacity.value
  }

  /** Somebody can move as long as a worker is alive or main has not finished. */
  lemma WorkerProgress(c: Config, s: State)
    requires Inv(c, s) && !AllTerminated(s.workers)
    requires c.capacity.Some? ==> c.capacity.value > 0
    ensures exists step :: Enabled(c, s, step) && (!s.open ==> Mover(step).Some?)
  {
    var v: nat :| v < |s.workers| && !Terminated(s.workers[v].phase);
    // the owner of the mutex moves if there is one, v otherwise
    var w := if s.lock.Some? then s.lock.value else v;
    match s.workers[w].phase
    case Idle => assert Enabled(c, s, Lock(w));
    case Locked =>
      if s.queue != [] {
        assert Enabled(c, s, RecvOk(w));
      } else if !s.open {
        assert Enabled(c, s, RecvErr(w));
      } else if s.pending == [] {
        assert Enabled(c, s, DropSender);
      } else {
        assert Enabled(c, s, Send);
      }
    case Got(_) => assert Enabled(c, s, Unlock(w));
    case GotErr => assert Enabled(c, s, Unlock(w));
    case Ready(_) => assert Enabled(c, s, Dispatch(w));
    case Running(m) => assert Enabled(c, s, if Fatal(m) then Panic(w) else Return(w));
  }

  lemma MainProgress(c: Config, s: State)
    requires Inv(c, s) && AllTerminated(s.workers) && !Final(s)
    requires CanAlwaysDrain(c)
    ensures exists step :: Enabled(c, s, step)
  {
    if !s.open {
      assert Enabled(c, s, Join);
    } else if s.pending == [] || s.aborted {
      assert Enabled(c, s, DropSender);
    } else if !c.mainHoldsReceiver {
      assert Enabled(c, s, SendFails);
    } else {
      // all workers were stopped by fatal messages, so the served prefix has been received
      assert forall w :: 0 <= w < |s.workers| ==> Doomed(s.workers[w]);
      DoomedBound(s.workers);
      var k := |s.received|;
      assert s.received == c.msgs[..k];
      if k > 0 { assert s.received[..k - 1] == c.msgs[..k - 1]; }
      ServedUnique(c.msgs, c.workers, k);
      assert Enabled(c, s, Send);
    }
  }

  /** From every state some schedule runs until nothing can move. */
  lemma {:induction false} MaximalRun(c: Config, s: State) returns (steps: seq<Step>, t: State)
    requires Inv(c, s)
    ensures Leads(c, s, steps, t) && Inv(c, t) && forall step :: !Enabled(c, t, step)
    decreases Budget(s)
  {
    if step :| Enabled(c, s, step) {
      BudgetDecreases(c, s, step);
      StepInv(c, s, step);
      assert Budget(s) >= 0;
      var rest, u := MaximalRun(c, Apply(c, s, step));
      steps, t := [step] + rest, u;
      assert steps[1..] == rest;
    } else {
      steps, t := [], s;
    }
  }

  ghost predicate ReachesStuck(c: Config, steps: seq<Step>, s: State) {
    Leads(c, Init(c), steps, s) && Stuck(c, s)
  }

  lemma NeverStuck(c: Config, steps: seq<Step>, s: State)
    requires c.capacity.Some? ==> c.capacity.value > 0
    requires CanAlwaysDrain(c) && Leads(c, Init(c), steps, s)
    ensures !Stuck(c, s)
  {
    InitInv(c);
    RunInv(c, Init(c), steps, s);
    if !Final(s) {
      if AllTerminated(s.workers) { MainProgress(c, s); } else { WorkerProgress(c, s); }
    }
  }

  lemma SomeRunSticks(c: Config)
    requires !CanAlwaysDrain(c)
    ensures exists steps, s :: ReachesStuck(c, steps, s)
  {
    InitInv(c);
    var steps, t := MaximalRun(c, Init(c));
    if Final(t) {
      FinalOutcome(c, t);
      assert false;
    }
    assert ReachesStuck(c, steps, t);
  }

  /** No reachable state is stuck, for any schedule, if and only if the channel can take what no worker
      will receive.  In particular `ThreadPool` never deadlocks, panics or not. */
  lemma DeadlockFreeIff(c: Config)
    requires c.capacity.Some? ==> c.capacity.value > 0
    ensures (exists steps, s :: ReachesStuck(c, steps, s)) <==> !CanAlwaysDrain(c)
  {
    if CanAlwaysDrain(c) {
      forall steps, s ensures !ReachesStuck(c, steps, s) {
        if Leads(c, Init(c), steps, s) { NeverStuck(c, steps, s); }
      }
    } else {
      SomeRunSticks(c);
    }
  }
}
