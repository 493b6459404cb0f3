/**
 * The protocol behind `ThreadPool` and the fan-out examples: one main thread sends messages into a
 * channel, drops its sender and joins the workers in order, while N workers compete for the one
 * receiver behind a mutex.  Every atomic action is a `Step`; a schedule is any sequence of enabled steps.
 */
module WorkerPool {
  import opened Wrappers

  /** What travels through the channel.  A worker that takes a `Panicking` job dies while running it;
      a worker that takes `Poison` (the fan-out's `None`) leaves its loop. */
  datatype Msg = Work(value: nat) | Panicking(value: nat) | Poison

  /** The worker that takes a fatal message takes no other one. */
  predicate Fatal(m: Msg) { !m.Work? }

  /** Where a worker is in its loop.  `Locked`, `Got` and `GotErr` are inside the scope of the guard. */
  datatype Phase =
    | Idle                 // about to lock the receiver
    | Locked               // holds the guard, inside recv()
    | Got(msg: Msg)        // recv() returned Ok, guard still held
    | GotErr               // recv() returned Err, guard still held
    | Ready(msg: Msg)      // guard dropped, message not yet looked at
    | Running(msg: Msg)    // processing outside the lock
    | Exited               // left the loop because the channel is closed
    | Stopped              // left the loop because of a poison pill
    | Dead                 // the job panicked

  datatype Worker = Worker(phase: Phase, taken: seq<Msg>)

  /** `capacity` is `None` for `channel` and `Some(n)` for `sync_channel(n)`.  `ThreadPool::new` drops its
      own handle on the receiver when it returns; the fan-out's main keeps one until the end. */
  datatype Config = Config(workers: nat, capacity: Option<nat>, mainHoldsReceiver: bool, msgs: seq<Msg>)

  datatype State = State(
    pending: seq<Msg>,     // what main has still to send
    queue: seq<Msg>,       // the channel
    open: bool,            // the sender is alive
    aborted: bool,         // a send failed: main is unwinding
    lock: Option<nat>,     // who holds the mutex
    workers: seq<Worker>,
    joined: nat,           // how many workers main has joined
    received: seq<Msg>)    // everything recv() has returned, in order

  datatype Step =
    | Send | SendFails | DropSender | Join
    | Lock(w: nat) | RecvOk(w: nat) | RecvErr(w: nat) | Unlock(w: nat)
    | Dispatch(w: nat) | Return(w: nat) | Panic(w: nat)

  predicate Terminated(p: Phase) { p.Exited? || p.Stopped? || p.Dead? }

  predicate HasGuard(p: Phase) { p.Locked? || p.Got? || p.GotErr? }

  predicate AllTerminated(ws: seq<Worker>) {
    forall i :: 0 <= i < |ws| ==> Terminated(ws[i].phase)
  }

  /** The receiver lives as long as somebody holds an Arc to it. */
  predicate ReceiverGone(c: Config, s: State) { !c.mainHoldsReceiver && AllTerminated(s.workers) }

  predicate Room(c: Config, s: State) { c.capacity.Some? ==> |s.queue| < c.capacity.value }

  function Init(c: Config): State {
    State(c.msgs, [], true, false, None, seq(c.workers, _ => Worker(Idle, [])), 0, [])
  }

  predicate At(s: State, w: nat, p: Phase) { w < |s.workers| && s.workers[w].phase == p }

  predicate Enabled(c: Config, s: State, step: Step) {
    match step
    case Send => s.open && !s.aborted && s.pending != [] && !ReceiverGone(c, s) && Room(c, s)
    case SendFails => s.open && !s.aborted && s.pending != [] && ReceiverGone(c, s)
    case DropSender => s.open && (s.pending == [] || s.aborted)
    case Join => !s.open && s.joined < |s.workers| && Terminated(s.workers[s.joined].phase)
    case Lock(w) => At(s, w, Idle) && s.lock.None?
    case RecvOk(w) => At(s, w, Locked) && s.queue != []
    case RecvErr(w) => At(s, w, Locked) && s.queue == [] && !s.open
    case Unlock(w) => w < |s.workers| && (s.workers[w].phase.Got? || s.workers[w].phase.GotErr?)
    case Dispatch(w) => w < |s.workers| && s.workers[w].phase.Ready?
    case Return(w) => w < |s.workers| && s.workers[w].phase.Running? && !Fatal(s.workers[w].phase.msg)
    case Panic(w) => w < |s.workers| && s.workers[w].phase.Running? && Fatal(s.workers[w].phase.msg)
  }

  function Goto(s: State, w: nat, p: Phase): State
    requires w < |s.workers|
  {
    s.(workers := s.workers[w := s.workers[w].(phase := p)])
  }

  function Apply(c: Config, s: State, step: Step): State
    requires Enabled(c, s, step)
  {
    match step
    case Send => s.(pending := s.pending[1..], queue := s.queue + [s.pending[0]])
    case SendFails => s.(aborted := true)
    case DropSender => s.(open := false)
    case Join => s.(joined := s.joined + 1)
    case Lock(w) => Goto(s, w, Locked).(lock := Some(w))
    case RecvOk(w) =>
      Goto(s, w, Got(s.queue[0])).(queue := s.queue[1..], received := s.received + [s.queue[0]])
    case RecvErr(w) => Goto(s, w, GotErr)
    case Unlock(w) =>
      Goto(s, w, if s.workers[w].phase.Got? then Ready(s.workers[w].phase.msg) else Exited).(lock := None)
    case Dispatch(w) =>
      var m := s.workers[w].phase.msg;
      s.(workers := s.workers[w := Worker(if m.Poison? then Stopped else Running(m), s.workers[w].taken + [m])])
    case Return(w) => Goto(s, w, Idle)
    case Panic(w) => Goto(s, w, Dead)
  }

  /** `steps` is a schedule that leads from `s` to `t`. */
  ghost predicate Leads(c: Config, s: State, steps: seq<Step>, t: State)
    decreases |steps|
  {
    if steps == [] then s == t
    else Enabled(c, s, steps[0]) && Leads(c, Apply(c, s, steps[0]), steps[1..], t)
  }

  /** `drop` has returned. */
  predicate Final(s: State) { !s.open && s.joined == |s.workers| }

  // ------------------------------------------------------------------------------------------
  // Quantities
  // ------------------------------------------------------------------------------------------

  function FatalCount(ms: seq<Msg>): nat {
    if ms == [] then 0 else FatalCount(ms[..|ms| - 1]) + if Fatal(ms[|ms| - 1]) then 1 else 0
  }

  /** How many of `ms` a pool of `n` workers ever receives: it stops after the n-th fatal message. */
  function Served(ms: seq<Msg>, n: nat): nat {
    if ms == [] || n == 0 then 0
    else 1 + Served(ms[1..], if Fatal(ms[0]) then n - 1 else n)
  }

  /** The worker has received a fatal message and will receive nothing else. */
  predicate Doomed(w: Worker) {
    match w.phase
    case Got(m) => Fatal(m)
    case Ready(m) => Fatal(m)
    case Running(m) => Fatal(m)
    case Stopped => true
    case Dead => true
    case _ => false
  }

  function DoomedCount(ws: seq<Worker>): nat {
    if ws == [] then 0 else DoomedCount(ws[1..]) + if Doomed(ws[0]) then 1 else 0
  }

  function InHand(p: Phase): Option<Msg> {
    match p
    case Got(m) => Some(m)
    case Ready(m) => Some(m)
    case _ => None
  }

  /** How many copies of `m` the worker has started or holds in hand. */
  function Held(w: Worker, m: Msg): nat {
    multiset(w.taken)[m] + if InHand(w.phase) == Some(m) then 1 else 0
  }

  /** How many times message `m` is held, over all workers. */
  function HeldCount(ws: seq<Worker>, m: Msg): nat {
    if ws == [] then 0 else HeldCount(ws[1..], m) + Held(ws[0], m)
  }

  /** Every message some worker has started, worker by worker. */
  function AllTaken(ws: seq<Worker>): seq<Msg> {
    if ws == [] then [] else ws[0].taken + AllTaken(ws[1..])
  }

  function Rank(p: Phase): nat {
    match p
    case Got(_) => 7
    case Ready(_) => 6
    case Running(_) => 5
    case Idle => 4
    case Locked => 3
    case GotErr => 2
    case _ => 0
  }

  function RankSum(ws: seq<Worker>): nat {
    if ws == [] then 0 else RankSum(ws[1..]) + Rank(ws[0].phase)
  }

  /** An upper bound on the number of steps still to come, whatever the schedule. */
  function Budget(s: State): int {
    6 * |s.pending| + 5 * |s.queue| + RankSum(s.workers) + |s.workers| - s.joined
    + (if s.open then 1 else 0) + (if s.aborted then 0 else 1)
  }

  lemma {:induction false} UpdateDoomed(ws: seq<Worker>, i: nat, w: Worker)
    requires i < |ws|
    ensures DoomedCount(ws[i := w]) + (if Doomed(ws[i]) then 1 else 0)
         == DoomedCount(ws) + (if Doomed(w) then 1 else 0)
  {
    if i == 0 {
      assert ws[i := w][1..] == ws[1..];
    } else {
      assert ws[i := w][1..] == ws[1..][i - 1 := w];
      UpdateDoomed(ws[1..], i - 1, w);
    }
  }

  lemma {:induction false} UpdateHeld(ws: seq<Worker>, i: nat, w: Worker, m: Msg)
    requires i < |ws|
    ensures HeldCount(ws[i := w], m) + Held(ws[i], m) == HeldCount(ws, m) + Held(w, m)
  {
    if i == 0 {
      assert ws[i := w][1..] == ws[1..];
    } else {
      assert ws[i := w][1..] == ws[1..][i - 1 := w];
      UpdateHeld(ws[1..], i - 1, w, m);
    }
  }

  lemma {:induction false} UpdateRank(ws: seq<Worker>, i: nat, w: Worker)
    requires i < |ws|
    ensures RankSum(ws[i := w]) + Rank(ws[i].phase) == RankSum(ws) + Rank(w.phase)
  {
    if i == 0 {
      assert ws[i := w][1..] == ws[1..];
    } else {
      assert ws[i := w][1..] == ws[1..][i - 1 := w];
      UpdateRank(ws[1..], i - 1, w);
    }
  }

  lemma {:induction false} FreshWorkers(ws: seq<Worker>)
    requires forall i :: 0 <= i < |ws| ==> ws[i] == Worker(Idle, [])
    ensures DoomedCount(ws) == 0 && RankSum(ws) == 4 * |ws|
    ensures forall m :: HeldCount(ws, m) == 0
  {
    if ws != [] {
      FreshWorkers(ws[1..]);
    }
  }

  /** How many of the messages kill or stop the worker that takes them: those that are no ordinary work. */
  lemma {:induction false} FatalCountMeaning(ms: seq<Msg>)
    ensures FatalCount(ms) == |FatalPositions(ms)|
  {
    if ms != [] {
      var last := |ms| - 1;
      FatalCountMeaning(ms[..last]);
      LastFatal(ms[..last], ms[last]);
      assert ms[..last] + [ms[last]] == ms;
    }
  }

  lemma LastFatal(ms: seq<Msg>, m: Msg)
    ensures |FatalPositions(ms + [m])| == |FatalPositions(ms)| + if m.Work? then 0 else 1
  {
    assert FatalPositions(ms + [m]) == FatalPositions(ms) + (if m.Work? then {} else {|ms|});
  }

  function FatalPositions(ms: seq<Msg>): set<int> { set i | 0 <= i < |ms| && (ms[i].Panicking? || ms[i].Poison?) }

  /** What becomes of a message: ordinary work is run and the worker comes back for more, a panicking job is run and
      kills the worker, a poison pill stops it, and an error from recv() makes it leave. */
  lemma MessageFate(c: Config, s: State, step: Step)
    requires Enabled(c, s, step) && Mover(step).Some?
    requires Mover(step).value < |s.workers| == |Apply(c, s, step).workers|
    ensures var before, after := s.workers[Mover(step).value].phase, Apply(c, s, step).workers[Mover(step).value].phase;
            && !Terminated(before)
            && (before == Idle ==> after == Locked)
            && (before == Locked ==> after == if s.queue == [] then GotErr else Got(s.queue[0]))
            && (before.Got? ==> after == Ready(before.msg))
            && (before == GotErr ==> after == Exited)
            && (before.Ready? ==> after == if before.msg == Poison then Stopped else Running(before.msg))
            && (before.Running? && before.msg.Work? ==> after == Idle)
            && (before.Running? && before.msg.Panicking? ==> after == Dead)
  {
  }

  // ------------------------------------------------------------------------------------------
  // The invariant
  // ------------------------------------------------------------------------------------------

  /** Mutual exclusion: exactly the owner of the mutex is inside the guard's scope. */
  ghost predicate LockInv(s: State) {
    && (s.lock.Some? ==> s.lock.value < |s.workers|)
    && forall w :: 0 <= w < |s.workers| ==> (HasGuard(s.workers[w].phase) <==> s.lock == Some(w))
  }

  /** Nothing is lost, duplicated or reordered in the channel, and a bounded buffer keeps its bound. */
  ghost predicate ChannelInv(c: Config, s: State) {
    && s.received + s.queue + s.pending == c.msgs
    && (c.capacity.Some? ==> |s.queue| <= c.capacity.value)
  }

  /** Every message received is in exactly one worker's hands or log. */
  ghost predicate HeldInv(s: State) {
    forall m :: HeldCount(s.workers, m) == multiset(s.received)[m]
  }

  /** One doomed worker per fatal message received, and nothing is received once all are doomed. */
  ghost predicate DoomInv(c: Config, s: State) {
    && DoomedCount(s.workers) == FatalCount(s.received)
    && (s.received != [] ==> FatalCount(s.received[..|s.received| - 1]) < c.workers)
  }

  /** A worker sees the channel closed only when the sender is gone and nothing is left to receive. */
  ghost predicate CloseInv(c: Config, s: State) {
    && |s.workers| == c.workers
    && s.joined <= c.workers
    && (!s.open ==> s.pending == [] || s.aborted)
    && (s.aborted ==> ReceiverGone(c, s))
    && (s.open ==> s.joined == 0)
    && (forall w :: 0 <= w < s.joined ==> Terminated(s.workers[w].phase))
    && (forall w :: 0 <= w < |s.workers| && (s.workers[w].phase.GotErr? || s.workers[w].phase.Exited?) ==>
          !s.open && s.queue == [] && s.pending == [])
  }

  ghost predicate Inv(c: Config, s: State) {
    LockInv(s) && ChannelInv(c, s) && HeldInv(s) && DoomInv(c, s) && CloseInv(c, s)
  }

  lemma InitInv(c: Config)
    ensures Inv(c, Init(c))
  {
    FreshWorkers(Init(c).workers);
  }

  lemma {:induction false} DoomedBound(ws: seq<Worker>)
    ensures DoomedCount(ws) <= |ws|
    ensures (exists i :: 0 <= i < |ws| && !Doomed(ws[i])) ==> DoomedCount(ws) < |ws|
    ensures (forall i :: 0 <= i < |ws| ==> Doomed(ws[i])) ==> DoomedCount(ws) == |ws|
  {
    if ws != [] {
      DoomedBound(ws[1..]);
      if i :| 0 <= i < |ws| && !Doomed(ws[i]) {
        if i > 0 { assert ws[1..][i - 1] == ws[i]; }
      }
    }
  }

  lemma StepLock(c: Config, s: State, step: Step)
    requires LockInv(s) && Enabled(c, s, step)
    ensures LockInv(Apply(c, s, step))
  {
  }

  lemma StepChannel(c: Config, s: State, step: Step)
    requires ChannelInv(c, s) && Enabled(c, s, step)
    ensures ChannelInv(c, Apply(c, s, step))
  {
    var t := Apply(c, s, step);
    match step
    case Send =>
      assert s.pending == [s.pending[0]] + s.pending[1..];
      assert t.received + t.queue + t.pending == s.received + s.queue + s.pending;
    case RecvOk(w) =>
      assert s.queue == [s.queue[0]] + s.queue[1..];
      assert t.received + t.queue + t.pending == s.received + s.queue + s.pending;
    case _ =>
  }

  /** The one worker a step moves, if any. */
  function Mover(step: Step): Option<nat> {
    match step
    case Lock(w) => Some(w)
    case RecvOk(w) => Some(w)
    case RecvErr(w) => Some(w)
    case Unlock(w) => Some(w)
    case Dispatch(w) => Some(w)
    case Return(w) => Some(w)
    case Panic(w) => Some(w)
    case _ => None
  }

  /** Only the mover changes, and only a successful recv() receives. */
  lemma MoverFrame(c: Config, s: State, step: Step)
    requires Enabled(c, s, step) && Mover(step).Some?
    ensures var t := Apply(c, s, step);
            var w := Mover(step).value;
            && w < |s.workers| && |t.workers| == |s.workers|
            && t.workers == s.workers[w := t.workers[w]]
            && t.received == s.received + (if step.RecvOk? then [s.queue[0]] else [])
  {
  }

  /** What a step makes of the worker it moves. */
  lemma MoverWorker(c: Config, s: State, step: Step)
    requires Enabled(c, s, step) && Mover(step).Some?
    requires Mover(step).value < |s.workers| == |Apply(c, s, step).workers|
    ensures var before, after := s.workers[Mover(step).value], Apply(c, s, step).workers[Mover(step).value];
            && after.taken == before.taken + (if step.Dispatch? then [before.phase.msg] else [])
            && InHand(after.phase) == (if step.RecvOk? then Some(s.queue[0])
                                       else if step.Dispatch? then None else InHand(before.phase))
            && (step.RecvOk? ==> InHand(before.phase).None?)
            && (step.Dispatch? ==> InHand(before.phase) == Some(before.phase.msg))
  {
  }

  /** A successful recv() puts a message in the mover's hands; no other step gives or takes one. */
  lemma MoverHolds(c: Config, s: State, step: Step, m: Msg)
    requires Enabled(c, s, step) && Mover(step).Some?
    requires Mover(step).value < |s.workers| == |Apply(c, s, step).workers|
    ensures Held(Apply(c, s, step).workers[Mover(step).value], m)
         == Held(s.workers[Mover(step).value], m) + if step.RecvOk? && s.queue[0] == m then 1 else 0
  {
    MoverWorker(c, s, step);
  }

  lemma StepHeldOne(c: Config, s: State, step: Step, m: Msg)
    requires HeldCount(s.workers, m) == multiset(s.received)[m] && Enabled(c, s, step)
    ensures HeldCount(Apply(c, s, step).workers, m) == multiset(Apply(c, s, step).received)[m]
  {
    if Mover(step).Some? {
      var t, w := Apply(c, s, step), Mover(step).value;
      MoverFrame(c, s, step);
      MoverHolds(c, s, step, m);
      UpdateHeld(s.workers, w, t.workers[w], m);
      assert multiset(t.received)[m]
          == multiset(s.received)[m] + if step.RecvOk? && s.queue[0] == m then 1 else 0;
    }
  }

  lemma StepHeld(c: Config, s: State, step: Step)
    requires HeldInv(s) && Enabled(c, s, step)
    ensures HeldInv(Apply(c, s, step))
  {
    forall m ensures HeldCount(Apply(c, s, step).workers, m) == multiset(Apply(c, s, step).received)[m] {
      StepHeldOne(c, s, step, m);
    }
  }

  /** A successful recv() of a fatal message dooms the mover, and nothing else changes who is doomed. */
  lemma MoverDoom(c: Config, s: State, step: Step)
    requires Enabled(c, s, step) && Mover(step).Some?
    requires Mover(step).value < |s.workers| == |Apply(c, s, step).workers|
    ensures var before, after := s.workers[Mover(step).value], Apply(c, s, step).workers[Mover(step).value];
            && (step.RecvOk? ==> !Doomed(before) && (Doomed(after) <==> Fatal(s.queue[0])))
            && (!step.RecvOk? ==> (Doomed(after) <==> Doomed(before)))
  {
  }

  lemma FatalCountSnoc(ms: seq<Msg>, m: Msg)
    ensures (ms + [m])[..|ms|] == ms
    ensures FatalCount(ms + [m]) == FatalCount(ms) + if Fatal(m) then 1 else 0
  {
  }

  lemma StepDoom(c: Config, s: State, step: Step)
    requires DoomInv(c, s) && |s.workers| == c.workers && Enabled(c, s, step)
    ensures DoomInv(c, Apply(c, s, step))
  {
    if Mover(step).Some? {
      var t, w := Apply(c, s, step), Mover(step).value;
      MoverFrame(c, s, step);
      MoverDoom(c, s, step);
      UpdateDoomed(s.workers, w, t.workers[w]);
      if step.RecvOk? {
        FatalCountSnoc(s.received, s.queue[0]);
        DoomedBound(s.workers);
      }
    }
  }

  lemma StepClose(c: Config, s: State, step: Step)
    requires CloseInv(c, s) && Enabled(c, s, step)
    ensures CloseInv(c, Apply(c, s, step))
  {
  }

  lemma StepInv(c: Config, s: State, step: Step)
    requires Inv(c, s) && Enabled(c, s, step)
    ensures Inv(c, Apply(c, s, step))
  {
    StepLock(c, s, step);
    StepChannel(c, s, step);
    StepHeld(c, s, step);
    StepDoom(c, s, step);
    StepClose(c, s, step);
  }

  lemma {:induction false} RunInv(c: Config, s: State, steps: seq<Step>, t: State)
    requires Inv(c, s) && Leads(c, s, steps, t)
    ensures Inv(c, t)
    decreases |steps|
  {
    if steps != [] {
      StepInv(c, s, steps[0]);
      RunInv(c, Apply(c, s, steps[0]), steps[1..], t);
    }
  }
}
