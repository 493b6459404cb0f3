/**
 * Many producers, one channel: P threads each send a block of M consecutive numbers while one consumer
 * receives until all senders are gone.  It is the shape of the fan-in example (the values are squared) and
 * of the multi-producer example (they are added up), for any interleaving of the threads.
 */
module Producers {
  datatype Item = Item(producer: nat, value: nat)

  datatype State = State(
    sent: seq<nat>,        // how many numbers each producer has sent
    dropped: seq<bool>,    // whose clone of the sender is gone
    original: bool,        // main still has the original sender
    queue: seq<Item>,
    received: seq<Item>,
    closed: bool)          // the consumer has seen the end of the channel

  datatype Step = Produce(p: nat) | DropClone(p: nat) | DropOriginal | Receive | Close

  function Init(producers: nat): State {
    State(seq(producers, _ => 0), seq(producers, _ => false), true, [], [], false)
  }

  /** The i-th number of producer `p`, counting from one, when each sends `m`. */
  function Number(m: nat, p: nat, i: nat): nat { p * m + i }

  predicate Enabled(m: nat, s: State, step: Step) {
    match step
    case Produce(p) => p < |s.sent| && s.sent[p] < m
    case DropClone(p) => p < |s.sent| == |s.dropped| && s.sent[p] >= m && !s.dropped[p]
    case DropOriginal => s.original
    case Receive => s.queue != [] && !s.closed
    case Close => s.queue == [] && !s.original && !s.closed && forall p :: 0 <= p < |s.dropped| ==> s.dropped[p]
  }

  function Apply(m: nat, s: State, step: Step): State
    requires Enabled(m, s, step)
  {
    match step
    case Produce(p) =>
      s.(sent := s.sent[p := s.sent[p] + 1], queue := s.queue + [Item(p, Number(m, p, s.sent[p] + 1))])
    case DropClone(p) => s.(dropped := s.dropped[p := true])
    case DropOriginal => s.(original := false)
    case Receive => s.(queue := s.queue[1..], received := s.received + [s.queue[0]])
    case Close => s.(closed := true)
  }

  ghost predicate Leads(m: nat, s: State, steps: seq<Step>, t: State)
    decreases |steps|
  {
    if steps == [] then s == t
    else Enabled(m, s, steps[0]) && Leads(m, Apply(m, s, steps[0]), steps[1..], t)
  }

  // ------------------------------------------------------------------------------------------
  // Sums and projections
  // ------------------------------------------------------------------------------------------

  function SumBy(f: nat -> nat, items: seq<Item>): nat {
    if items == [] then 0 else SumBy(f, items[..|items| - 1]) + f(items[|items| - 1].value)
  }

  /** f(lo+1) + ... + f(lo+k) */
  function BlockSum(f: nat -> nat, lo: nat, k: nat): nat {
    if k == 0 then 0 else BlockSum(f, lo, k - 1) + f(lo + k)
  }

  /** The blocks sent so far by producers `from` onwards. */
  function SentSum(f: nat -> nat, m: nat, sent: seq<nat>, from: nat): nat
    requires from <= |sent|
    decreases |sent| - from
  {
    if from == |sent| then 0 else BlockSum(f, from * m, sent[from]) + SentSum(f, m, sent, from + 1)
  }

  function Total(sent: seq<nat>): nat {
    if sent == [] then 0 else sent[0] + Total(sent[1..])
  }

  /** What producer `p` contributed, in the order it arrived. */
  function From(items: seq<Item>, p: nat): seq<nat> {
    if items == [] then []
    else
      var last := items[|items| - 1];
      From(items[..|items| - 1], p) + if last.producer == p then [last.value] else []
  }

  function Block(m: nat, p: nat, k: nat): seq<nat> { seq(k, i requires 0 <= i < k => Number(m, p, i + 1)) }

  lemma SumBySnoc(f: nat -> nat, items: seq<Item>, x: Item)
    ensures SumBy(f, items + [x]) == SumBy(f, items) + f(x.value)
  {
    assert (items + [x])[..|items|] == items;
  }

  lemma FromSnoc(items: seq<Item>, x: Item, p: nat)
    ensures From(items + [x], p) == From(items, p) + if x.producer == p then [x.value] else []
  {
    assert (items + [x])[..|items|] == items;
  }

  lemma {:induction false} SentSumUpdate(f: nat -> nat, m: nat, sent: seq<nat>, from: nat, p: nat)
    requires from <= |sent| && p < |sent|
    ensures SentSum(f, m, sent[p := sent[p] + 1], from)
         == SentSum(f, m, sent, from) + if from <= p then f(p * m + sent[p] + 1) else 0
    decreases |sent| - from
  {
    if from < |sent| { SentSumUpdate(f, m, sent, from + 1, p); }
  }

  lemma {:induction false} TotalUpdate(sent: seq<nat>, p: nat)
    requires p < |sent|
    ensures Total(sent[p := sent[p] + 1]) == Total(sent) + 1
  {
    if p > 0 {
      assert sent[p := sent[p] + 1][1..] == sent[1..][p - 1 := sent[p] + 1];
      TotalUpdate(sent[1..], p - 1);
    }
  }

  lemma {:induction false} TotalFull(sent: seq<nat>, m: nat)
    requires forall p :: 0 <= p < |sent| ==> sent[p] == m
    ensures Total(sent) == |sent| * m
  {
    if sent != [] { TotalFull(sent[1..], m); }
  }

  lemma {:induction false} NothingSent(f: nat -> nat, m: nat, sent: seq<nat>, from: nat)
    requires from <= |sent| && forall p :: 0 <= p < |sent| ==> sent[p] == 0
    ensures SentSum(f, m, sent, from) == 0
    decreases |sent| - from
  {
    if from < |sent| { NothingSent(f, m, sent, from + 1); }
  }

  lemma {:induction false} BlockSumSplit(f: nat -> nat, lo: nat, a: nat, b: nat)
    ensures BlockSum(f, lo, a + b) == BlockSum(f, lo, a) + BlockSum(f, lo + a, b)
  {
    if b > 0 { BlockSumSplit(f, lo, a, b - 1); }
  }

  /** The blocks of all producers tile 1..P*M without gap or overlap. */
  lemma {:induction false} BlocksTile(f: nat -> nat, m: nat, sent: seq<nat>, from: nat)
    requires from <= |sent| && forall p :: 0 <= p < |sent| ==> sent[p] == m
    ensures SentSum(f, m, sent, from) + BlockSum(f, 0, from * m) == BlockSum(f, 0, |sent| * m)
    decreases |sent| - from
  {
    if from < |sent| {
      BlocksTile(f, m, sent, from + 1);
      BlockSumSplit(f, 0, from * m, m);
      assert (from + 1) * m == from * m + m;
    }
  }

  // ------------------------------------------------------------------------------------------
  // The invariants
  // ------------------------------------------------------------------------------------------

  ghost predicate SenderInv(m: nat, s: State) {
    && |s.sent| == |s.dropped|
    && (forall p :: 0 <= p < |s.sent| ==> s.sent[p] <= m && (s.dropped[p] ==> s.sent[p] == m))
    && (s.closed ==> s.queue == [] && !s.original && forall p :: 0 <= p < |s.dropped| ==> s.dropped[p])
  }

  /** Each producer's numbers arrive in its own order. */
  ghost predicate OrderInv(m: nat, s: State) {
    forall p :: 0 <= p < |s.sent| ==> From(s.received + s.queue, p) == Block(m, p, s.sent[p])
  }

  ghost predicate SumInv(f: nat -> nat, m: nat, s: State) {
    SumBy(f, s.received + s.queue) == SentSum(f, m, s.sent, 0)
  }

  ghost predicate CountInv(s: State) {
    |s.received| + |s.queue| == Total(s.sent)
  }

  lemma {:induction false} NothingTotal(sent: seq<nat>)
    requires forall p :: 0 <= p < |sent| ==> sent[p] == 0
    ensures Total(sent) == 0
  {
    if sent != [] { NothingTotal(sent[1..]); }
  }

  lemma InitInv(f: nat -> nat, m: nat, producers: nat)
    ensures SenderInv(m, Init(producers)) && OrderInv(m, Init(producers))
    ensures SumInv(f, m, Init(producers)) && CountInv(Init(producers))
  {
    NothingSent(f, m, Init(producers).sent, 0);
    NothingTotal(Init(producers).sent);
  }

  lemma ChannelGrows(m: nat, s: State, step: Step)
    requires Enabled(m, s, step)
    ensures var t := Apply(m, s, step);
            if step.Produce? then
              t.received + t.queue
              == s.received + s.queue + [Item(step.p, Number(m, step.p, s.sent[step.p] + 1))]
            else
              t.received + t.queue == s.received + s.queue
  {
    if step.Receive? { assert s.queue == [s.queue[0]] + s.queue[1..]; }
  }

  lemma StepSender(m: nat, s: State, step: Step)
    requires Enabled(m, s, step) && SenderInv(m, s)
    ensures SenderInv(m, Apply(m, s, step))
  {
  }

  lemma StepOrder(m: nat, s: State, step: Step)
    requires Enabled(m, s, step) && OrderInv(m, s)
    ensures OrderInv(m, Apply(m, s, step))
  {
    var t := Apply(m, s, step);
    ChannelGrows(m, s, step);
    if step.Produce? {
      var x := Item(step.p, Number(m, step.p, s.sent[step.p] + 1));
      forall p | 0 <= p < |t.sent| ensures From(t.received + t.queue, p) == Block(m, p, t.sent[p]) {
        FromSnoc(s.received + s.queue, x, p);
      }
    }
  }

  lemma StepSum(f: nat -> nat, m: nat, s: State, step: Step)
    requires Enabled(m, s, step) && SumInv(f, m, s)
    ensures SumInv(f, m, Apply(m, s, step))
  {
    ChannelGrows(m, s, step);
    if step.Produce? {
      SumBySnoc(f, s.received + s.queue, Item(step.p, Number(m, step.p, s.sent[step.p] + 1)));
      SentSumUpdate(f, m, s.sent, 0, step.p);
    }
  }

  lemma StepCount(m: nat, s: State, step: Step)
    requires Enabled(m, s, step) && CountInv(s)
    ensures CountInv(Apply(m, s, step))
  {
    if step.Produce? { TotalUpdate(s.sent, step.p); }
  }

  lemma {:induction false} RunInv(f: nat -> nat, m: nat, s: State, steps: seq<Step>, t: State)
    requires SenderInv(m, s) && OrderInv(m, s) && SumInv(f, m, s) && CountInv(s) && Leads(m, s, steps, t)
    ensures SenderInv(m, t) && OrderInv(m, t) && SumInv(f, m, t) && CountInv(t) && |t.sent| == |s.sent|
    decreases |steps|
  {
    if steps != [] {
      StepSender(m, s, steps[0]);
      StepOrder(m, s, steps[0]);
      StepSum(f, m, s, steps[0]);
      StepCount(m, s, steps[0]);
      RunInv(f, m, Apply(m, s, steps[0]), steps[1..], t);
    }
  }

  /** Whatever the interleaving, a consumer that has seen the channel close has received every producer's
      block, in that producer's order, and nothing else; so any sum over the values is the sum over 1..P*M. */
  lemma ClosedOutcome(f: nat -> nat, m: nat, producers: nat, steps: seq<Step>, s: State)
    requires Leads(m, Init(producers), steps, s) && s.closed
    ensures |s.received| == producers * m
    ensures forall p :: 0 <= p < producers ==> From(s.received, p) == Block(m, p, m)
    ensures SumBy(f, s.received) == BlockSum(f, 0, producers * m)
  {
    InitInv(f, m, producers);
    RunInv(f, m, Init(producers), steps, s);
    assert s.received + s.queue == s.received;
    TotalFull(s.sent, m);
    BlocksTile(f, m, s.sent, 0);
  }

  // ------------------------------------------------------------------------------------------
  // Progress
  // ------------------------------------------------------------------------------------------

  function SendsLeft(m: nat, sent: seq<nat>, dropped: seq<bool>): nat
    requires |sent| == |dropped|
  {
    if sent == [] then 0
    else
      SendsLeft(m, sent[1..], dropped[1..])
      + (if sent[0] < m then 2 * (m - sent[0]) else 0) + if dropped[0] then 0 else 1
  }

  function StepsLeft(m: nat, s: State): nat
    requires |s.sent| == |s.dropped|
  {
    SendsLeft(m, s.sent, s.dropped) + |s.queue| + (if s.original then 1 else 0) + if s.closed then 0 else 1
  }

  lemma {:induction false} SendsLeftUpdate(m: nat, sent: seq<nat>, dropped: seq<bool>, p: nat)
    requires |sent| == |dropped| && p < |sent|
    ensures sent[p] < m ==>
      SendsLeft(m, sent[p := sent[p] + 1], dropped) == SendsLeft(m, sent, dropped) - 2
    ensures !dropped[p] ==> SendsLeft(m, sent, dropped[p := true]) == SendsLeft(m, sent, dropped) - 1
  {
    if p > 0 {
      assert sent[p := sent[p] + 1][1..] == sent[1..][p - 1 := sent[p] + 1];
      assert dropped[p := true][1..] == dropped[1..][p - 1 := true];
      SendsLeftUpdate(m, sent[1..], dropped[1..], p - 1);
    }
  }

  lemma StepsLeftDecreases(m: nat, s: State, step: Step)
    requires Enabled(m, s, step) && SenderInv(m, s)
    ensures |Apply(m, s, step).sent| == |Apply(m, s, step).dropped|
    ensures StepsLeft(m, Apply(m, s, step)) < StepsLeft(m, s)
  {
    match step
    case Produce(p) => SendsLeftUpdate(m, s.sent, s.dropped, p);
    case DropClone(p) => SendsLeftUpdate(m, s.sent, s.dropped, p);
    case _ =>
  }

  lemma SomeoneMoves(m: nat, s: State)
    requires SenderInv(m, s) && !s.closed
    ensures exists step :: Enabled(m, s, step)
  {
    if p: nat :| p < |s.sent| && !s.dropped[p] {
      assert Enabled(m, s, if s.sent[p] < m then Produce(p) else DropClone(p));
    } else if s.original {
      assert Enabled(m, s, DropOriginal);
    } else {
      assert Enabled(m, s, if s.queue != [] then Receive else Close);
    }
  }

  lemma {:induction false} LeadsSnoc(m: nat, s: State, steps: seq<Step>, t: State, step: Step)
    requires Leads(m, s, steps, t) && Enabled(m, t, step)
    ensures Leads(m, s, steps + [step], Apply(m, t, step))
    decreases |steps|
  {
    if steps == [] {
      assert ([step])[1..] == [];
    } else {
      assert (steps + [step])[1..] == steps[1..] + [step];
      LeadsSnoc(m, Apply(m, s, steps[0]), steps[1..], t, step);
    }
  }

  /** Any scheduler ends with a closed channel. */
  method Collect(m: nat, producers: nat) returns (s: State, ghost steps: seq<Step>)
    ensures Leads(m, Init(producers), steps, s) && s.closed
  {
    s, steps := Init(producers), [];
    while !s.closed
      invariant Leads(m, Init(producers), steps, s) && SenderInv(m, s)
      decreases StepsLeft(m, s)
    {
      SomeoneMoves(m, s);
      var step :| Enabled(m, s, step);
      StepsLeftDecreases(m, s, step);
      StepSender(m, s, step);
      LeadsSnoc(m, Init(producers), steps, s, step);
      s, steps := Apply(m, s, step), steps + [step];
    }
  }

  // ------------------------------------------------------------------------------------------
  // The two examples
  // ------------------------------------------------------------------------------------------

  function Same(v: nat): nat { v }

  function Square(v: nat): nat { v * v }

  lemma {:induction false} SumOfNumbers(n: nat)
    ensures 2 * BlockSum(Same, 0, n) == n * (n + 1)
  {
    if n > 0 { SumOfNumbers(n - 1); }
  }

  lemma {:induction false} SumOfSquares(n: nat)
    ensures 6 * BlockSum(Square, 0, n) == n * (n + 1) * (2 * n + 1)
  {
    if n > 0 {
      SumOfSquares(n - 1);
      assert BlockSum(Square, 0, n) == BlockSum(Square, 0, n - 1) + n * n;
      CubicStep(n);
    }
  }

  lemma CubicStep(n: nat)
    requires n > 0
    ensures (n - 1) * n * (2 * (n - 1) + 1) + 6 * (n * n) == n * (n + 1) * (2 * n + 1)
  {
    assert (n - 1) * n == n * n - n;
    assert n * (n + 1) == n * n + n;
    var q := n * n;
    assert (q - n) * (2 * n - 1) == 2 * (q * n) - q - 2 * (n * n) + n;
    assert (q + n) * (2 * n + 1) == 2 * (q * n) + q + 2 * (n * n) + n;
  }

  /** The consumer's loop: add up `f` of everything received. */
  method AddUp(f: nat -> nat, items: seq<Item>) returns (sum: nat)
    ensures sum == SumBy(f, items)
  {
    sum := 0;
    for i := 0 to |items|
      invariant sum == SumBy(f, items[..i])
    {
      assert items[..i + 1] == items[..i] + [items[i]];
      SumBySnoc(f, items[..i], items[i]);
      sum := sum + f(items[i].value);
    }
    assert items[..|items|] == items;
  }

  /** The multi-producer example: the consumer adds up what it receives. */
  method MultiProducerSum(m: nat, producers: nat) returns (sum: nat)
    ensures 2 * sum == producers * m * (producers * m + 1)
  {
    var s, steps := Collect(m, producers);
    ClosedOutcome(Same, m, producers, steps, s);
    SumOfNumbers(producers * m);
    sum := AddUp(Same, s.received);
  }

  lemma BlocksCoverIff(items: nat, workers: nat)
    requires workers > 0
    ensures workers * (items / workers) == items <==> items % workers == 0
  {
    assert items == workers * (items / workers) + items % workers;
  }

  /** The fan-in example: `items / workers` numbers for each worker, each number squared before it is sent.
      What the division leaves over is never computed. */
  method FanIn(items: nat, workers: nat) returns (count: nat, sum: nat)
    requires workers > 0
    ensures count == workers * (items / workers)
    ensures count == items <==> items % workers == 0
    ensures 6 * sum == count * (count + 1) * (2 * count + 1)
  {
    var m := items / workers;
    BlocksCoverIff(items, workers);
    var s, steps := Collect(m, workers);
    ClosedOutcome(Square, m, workers, steps, s);
    SumOfSquares(workers * m);
    count := |s.received|;
    sum := AddUp(Square, s.received);
  }
}
