/** The fan-out examples: one producer, N workers that count and add up what they take, and the totals
    main computes from the joined workers. */
module FanOut {
  import opened Wrappers
  import opened WorkerPool
  import opened WorkerPoolOutcome

  /** The items 1..n, in order. */
  function Items(n: nat): seq<Msg> {
    seq(n, i requires 0 <= i < n => Work(i + 1))
  }

  /** They are what the producer's loop sends: each of 1..n once, smallest first. */
  lemma ItemsAre(n: nat, i: nat)
    requires i < n
    ensures |Items(n)| == n && Items(n)[i] == Work(i + 1)
    ensures multiset(Items(n))[Work(i + 1)] == 1
  {
    CountDistinct(Items(n), Work(i + 1));
    assert Items(n)[i] in Items(n);
  }

  /** `sync_channel(capacity)`, or `channel` when there is no capacity; main keeps its receiver. */
  function FanOutConfig(n: nat, workers: nat, capacity: Option<nat>): Config {
    Config(workers, capacity, true, Items(n))
  }

  function Value(m: Msg): nat { if m.Poison? then 0 else m.value }

  function SumOf(ms: seq<Msg>): nat {
    if ms == [] then 0 else SumOf(ms[1..]) + Value(ms[0])
  }

  lemma {:induction false} SumOfConcat(a: seq<Msg>, b: seq<Msg>)
    ensures SumOf(a + b) == SumOf(a) + SumOf(b)
  {
    if a == [] {
      assert a + b == b;
    } else {
      assert (a + b)[1..] == a[1..] + b;
      SumOfConcat(a[1..], b);
    }
  }

  lemma SumOfRemove(b: seq<Msg>, i: nat)
    requires i < |b|
    ensures SumOf(b) == SumOf(b[..i] + b[i + 1..]) + Value(b[i])
    ensures multiset(b) == multiset(b[..i] + b[i + 1..]) + multiset{b[i]}
  {
    assert b == b[..i] + b[i..];
    assert b[i..] == [b[i]] + b[i + 1..];
    SumOfConcat(b[..i], b[i..]);
    SumOfConcat(b[..i], b[i + 1..]);
  }

  lemma SameSize(a: seq<Msg>, b: seq<Msg>)
    requires multiset(a) == multiset(b)
    ensures |a| == |b|
  {
    assert |a| == |multiset(a)| == |multiset(b)| == |b|;
  }

  /** Taking one and the same message out of both leaves the same. */
  lemma SameRest(a: seq<Msg>, b: seq<Msg>, i: nat)
    requires multiset(a) == multiset(b) && a != [] && i < |b| && b[i] == a[0]
    ensures multiset(a[1..]) == multiset(b[..i] + b[i + 1..])
  {
    SumOfRemove(b, i);
    assert a == [a[0]] + a[1..];
    assert multiset(a[1..]) == multiset(a) - multiset{a[0]};
    assert multiset(b[..i] + b[i + 1..]) == multiset(b) - multiset{a[0]};
  }

  lemma {:induction false} SumOfPermutation(a: seq<Msg>, b: seq<Msg>)
    requires multiset(a) == multiset(b)
    ensures |a| == |b| && SumOf(a) == SumOf(b)
  {
    SameSize(a, b);
    if a != [] {
      assert a[0] in multiset(b);
      var i :| 0 <= i < |b| && b[i] == a[0];
      SumOfRemove(b, i);
      SameRest(a, b, i);
      SumOfPermutation(a[1..], b[..i] + b[i + 1..]);
    }
  }

  lemma {:induction false} ItemsSum(n: nat)
    ensures SumOf(Items(n)) == n * (n + 1) / 2
  {
    if n > 0 {
      assert Items(n) == Items(n - 1) + [Work(n)];
      SumOfConcat(Items(n - 1), [Work(n)]);
      ItemsSum(n - 1);
      assert SumOf([Work(n)]) == n;
      assert n * (n + 1) == (n - 1) * n + 2 * n;
    }
  }

  lemma {:induction false} NoFatalItems(n: nat, k: nat)
    requires k <= n
    ensures FatalCount(Items(n)[..k]) == 0
  {
    if k > 0 {
      assert Items(n)[..k][..k - 1] == Items(n)[..k - 1];
      NoFatalItems(n, k - 1);
    }
  }

  lemma AllItemsServed(n: nat, workers: nat)
    requires workers > 0
    ensures Served(Items(n), workers) == n
  {
    ServedAllIff(Items(n), workers);
    if n > 0 { NoFatalItems(n, n - 1); }
  }

  /** Whatever the schedule, when all workers have been joined they have processed the items 1..n, each one
      exactly once, and their sums add up to n(n+1)/2. */
  lemma FanOutTotals(n: nat, workers: nat, capacity: Option<nat>, steps: seq<Step>, s: State)
    requires workers > 0
    requires var c := FanOutConfig(n, workers, capacity); Leads(c, Init(c), steps, s) && Final(s)
    ensures multiset(AllTaken(s.workers)) == multiset(Items(n))
    ensures |AllTaken(s.workers)| == Counted(AllTaken(s.workers)) == n
    ensures SumOf(AllTaken(s.workers)) == n * (n + 1) / 2
  {
    var c := FanOutConfig(n, workers, capacity);
    DropOutcome(c, steps, s);
    AllItemsServed(n, workers);
    assert Items(n)[..n] == Items(n);
    SumOfPermutation(AllTaken(s.workers), Items(n));
    assert Poison !in Items(n);
    ItemsSum(n);
  }

  /** The fan-out cannot deadlock: with a capacity of at least one and at least one worker no reachable state
      is stuck, and the buffer never holds more than its capacity. */
  lemma FanOutNeverStuck(n: nat, workers: nat, capacity: Option<nat>, steps: seq<Step>, s: State)
    requires workers > 0 && (capacity.Some? ==> capacity.value > 0)
    requires var c := FanOutConfig(n, workers, capacity); Leads(c, Init(c), steps, s)
    ensures !Stuck(FanOutConfig(n, workers, capacity), s)
    ensures capacity.Some? ==> |s.queue| <= capacity.value
    ensures |s.received| + |s.queue| + |s.pending| == n
  {
    var c := FanOutConfig(n, workers, capacity);
    AllItemsServed(n, workers);
    NeverStuck(c, steps, s);
    InitInv(c);
    RunInv(c, Init(c), steps, s);
    assert |s.received + s.queue + s.pending| == |c.msgs|;
  }

  /** Without a worker the bounded fan-out blocks as soon as there are more items than the buffer takes. */
  lemma NoWorkersStick(n: nat, capacity: nat)
    requires capacity > 0
    ensures (exists steps, s :: ReachesStuck(FanOutConfig(n, 0, Some(capacity)), steps, s)) <==> n > capacity
  {
    DeadlockFreeIff(FanOutConfig(n, 0, Some(capacity)));
  }

  /** How many of the messages are items: a worker that takes a poison pill stops without counting it. */
  function Counted(ms: seq<Msg>): int { |ms| - multiset(ms)[Poison] }

  /** A worker's own pair: how many items it took and their sum. */
  method WorkerResult(taken: seq<Msg>) returns (count: nat, sum: nat)
    ensures count == Counted(taken) && sum == SumOf(taken)
  {
    count, sum := 0, 0;
    for i := 0 to |taken|
      invariant count == Counted(taken[..i]) && sum == SumOf(taken[..i])
    {
      assert taken[..i + 1] == taken[..i] + [taken[i]];
      SumOfConcat(taken[..i], [taken[i]]);
      assert SumOf([taken[i]]) == Value(taken[i]);
      match taken[i] {
        case Poison =>
        case Work(v) => sum, count := sum + v, count + 1;
        case Panicking(v) => sum, count := sum + v, count + 1;
      }
    }
    assert taken[..|taken|] == taken;
  }

  lemma {:induction false} AllTakenSplit(ws: seq<Worker>, k: nat)
    requires k < |ws|
    ensures AllTaken(ws[..k + 1]) == AllTaken(ws[..k]) + ws[k].taken
  {
    if k == 0 {
      assert ws[..1][1..] == [];
    } else {
      assert ws[..k + 1][1..] == ws[1..][..k];
      assert ws[..k][1..] == ws[1..][..k - 1];
      AllTakenSplit(ws[1..], k - 1);
    }
  }

  /** Main's loop over the join handles. */
  method JoinAll(ws: seq<Worker>) returns (totalCount: nat, totalSum: nat)
    ensures totalCount == Counted(AllTaken(ws)) && totalSum == SumOf(AllTaken(ws))
  {
    totalCount, totalSum := 0, 0;
    for k := 0 to |ws|
      invariant totalCount == Counted(AllTaken(ws[..k])) && totalSum == SumOf(AllTaken(ws[..k]))
    {
      AllTakenSplit(ws, k);
      SumOfConcat(AllTaken(ws[..k]), ws[k].taken);
      var count, sum := WorkerResult(ws[k].taken);
      totalCount, totalSum := totalCount + count, totalSum + sum;
    }
    assert ws[..|ws|] == ws;
  }

  /** The scheduler picks any possible step, of main or of a worker, until all workers have been joined. */
  method Schedule(c: Config) returns (s: State, ghost steps: seq<Step>)
    requires CanAlwaysDrain(c) && (c.capacity.Some? ==> c.capacity.value > 0)
    ensures Leads(c, Init(c), steps, s) && Final(s)
  {
    s, steps := Init(c), [];
    InitInv(c);
    while !Final(s)
      invariant Leads(c, Init(c), steps, s) && Inv(c, s)
      decreases Budget(s)
    {
      SomeoneMoves(c, s);
      var step :| Enabled(c, s, step);
      BudgetDecreases(c, s, step);
      StepInv(c, s, step);
      LeadsSnoc(c, Init(c), steps, s, step);
      s, steps := Apply(c, s, step), steps + [step];
    }
  }

  lemma SomeoneMoves(c: Config, s: State)
    requires Inv(c, s) && !Final(s) && CanAlwaysDrain(c) && (c.capacity.Some? ==> c.capacity.value > 0)
    ensures exists step :: Enabled(c, s, step)
  {
    if AllTerminated(s.workers) { MainProgress(c, s); } else { WorkerProgress(c, s); }
  }

  /** The whole example, on every schedule. */
  method Run(n: nat, workers: nat, capacity: Option<nat>) returns (totalCount: nat, totalSum: nat)
    requires workers > 0 && (capacity.Some? ==> capacity.value > 0)
    ensures totalCount == n
    ensures totalSum == n * (n + 1) / 2
  {
    var c := FanOutConfig(n, workers, capacity);
    AllItemsServed(n, workers);
    var s, steps := Schedule(c);
    FanOutTotals(n, workers, capacity, steps, s);
    totalCount, totalSum := JoinAll(s.workers);
  }

  lemma {:induction false} LeadsSnoc(c: Config, s: State, steps: seq<Step>, t: State, step: Step)
    requires Leads(c, s, steps, t) && Enabled(c, t, step)
    ensures Leads(c, s, steps + [step], Apply(c, t, step))
    decreases |steps|
  {
    if steps == [] {
      assert ([step])[1..] == [];
    } else {
      assert (steps + [step])[1..] == steps[1..] + [step];
      LeadsSnoc(c, Apply(c, s, steps[0]), steps[1..], t, step);
    }
  }
}
