/** `ThreadPool` as the object it is: fields updated in place by `execute`, by the workers and by `drop`.
    Each method is one or more steps of the `WorkerPool` protocol. */
module ThreadPool {
  import opened Wrappers
  import opened WorkerPool
  import opened WorkerPoolOutcome

  /** The action the worker's loop performs next, if it is not blocked. */
  function NextStep(s: State, w: nat): (step: Step)
    requires w < |s.workers|
    ensures Mover(step) == Some(w)
  {
    match s.workers[w].phase
    case Idle => Lock(w)
    case Locked => if s.queue != [] then RecvOk(w) else RecvErr(w)
    case Ready(_) => Dispatch(w)
    case Running(m) => if Fatal(m) then Panic(w) else Return(w)
    case _ => Unlock(w)
  }

  /** A worker has no choice: the only step it can take is the next one of its loop. */
  lemma OnlyNextStep(c: Config, s: State, step: Step)
    requires Enabled(c, s, step) && Mover(step).Some?
    ensures Mover(step).value < |s.workers| && step == NextStep(s, Mover(step).value)
  {
  }

  class ThreadPool {
    const size: nat
    var queue: seq<Msg>
    var senderAlive: bool
    var lock: Option<nat>
    var workers: seq<Worker>
    var joined: nat
    var received: seq<Msg>
    ghost var submitted: seq<Msg>

    ghost function Cfg(): Config
      reads this
    {
      Config(size, None, false, submitted)
    }

    function Now(): State
      reads this
    {
      State([], queue, senderAlive, false, lock, workers, joined, received)
    }

    ghost predicate Valid()
      reads this
    {
      Inv(Cfg(), Now())
    }

    constructor (size: nat)
      ensures Valid() && this.size == size
      ensures Now() == Init(Cfg()) && submitted == []
    {
      this.size := size;
      queue, senderAlive, lock, joined, received, submitted := [], true, None, 0, [], [];
      workers := seq(size, _ => Worker(Idle, []));
      new;
      InitInv(Cfg());
    }

    /** `send` fails, and `unwrap` panics, exactly when every worker has died or the pool has none. */
    method Execute(job: Msg) returns (sent: bool)
      requires Valid() && senderAlive
      modifies this
      ensures Valid() && senderAlive
      ensures sent <==> !AllTerminated(workers)
      ensures submitted == if sent then old(submitted) + [job] else old(submitted)
      ensures Now() == if sent then old(Now()).(queue := old(queue) + [job]) else old(Now())
    {
      sent := !AllTerminated(workers);
      if sent {
        ghost var c := Config(size, None, false, submitted + [job]);
        ghost var s := Now().(pending := [job]);
        assert Inv(c, s);
        StepInv(c, s, Send);
        queue := queue + [job];
        submitted := submitted + [job];
        assert Now() == Apply(c, s, Send);
      }
    }

    /** One turn of worker `w`: the next action of its loop, or nothing if it is blocked or has ended. */
    method WorkerTurn(w: nat) returns (moved: bool)
      requires Valid() && w < size
      modifies this
      ensures Valid() && submitted == old(submitted)
      ensures moved == Enabled(Cfg(), old(Now()), NextStep(old(Now()), w))
      ensures Now() == if moved then Apply(Cfg(), old(Now()), NextStep(old(Now()), w)) else old(Now())
    {
      ghost var s := Now();
      ghost var step := NextStep(s, w);
      moved := true;
      var me := workers[w];
      match me.phase {
        case Idle =>
          if lock.None? {
            lock := Some(w);
            workers := workers[w := me.(phase := Locked)];
          } else {
            moved := false;
          }
        case Locked =>
          if queue != [] {
            workers := workers[w := me.(phase := Got(queue[0]))];
            received := received + [queue[0]];
            queue := queue[1..];
          } else if !senderAlive {
            workers := workers[w := me.(phase := GotErr)];
          } else {
            moved := false;
          }
        case Got(job) =>
          lock := None;
          workers := workers[w := me.(phase := Ready(job))];
        case GotErr =>
          lock := None;
          workers := workers[w := me.(phase := Exited)];
        case Ready(job) =>
          workers := workers[w := Worker(if job.Poison? then Stopped else Running(job), me.taken + [job])];
        case Running(job) =>
          workers := workers[w := me.(phase := if Fatal(job) then Dead else Idle)];
        case _ =>
          moved := false;
      }
      if moved {
        StepInv(Cfg(), s, step);
      }
    }

    predicate CanMove(w: nat)
      requires w < |workers|
      reads this
    {
      Enabled(Config(size, None, false, []), Now(), NextStep(Now(), w))
    }

    /** `drop`: close the channel, then wait for the workers one after the other while the scheduler runs
        any worker it likes.  It always returns, and by then exactly the served jobs have been run, once. */
    method Drop()
      requires Valid() && senderAlive
      modifies this
      ensures Valid() && Final(Now()) && submitted == old(submitted)
      ensures Served(submitted, size) <= |submitted|
      ensures received == submitted[..Served(submitted, size)]
      ensures multiset(AllTaken(workers)) == multiset(received)
    {
      StepInv(Cfg(), Now(), DropSender);
      senderAlive := false;
      while joined < size
        invariant Valid() && !senderAlive && submitted == old(submitted)
        decreases Budget(Now())
      {
        if Terminated(workers[joined].phase) {
          StepInv(Cfg(), Now(), Join);
          joined := joined + 1;
        } else {
          SomeWorkerMoves();
          var w: nat :| w < |workers| && CanMove(w);
          BudgetDecreases(Cfg(), Now(), NextStep(Now(), w));
          var moved := WorkerTurn(w);
        }
      }
      FinalOutcome(Cfg(), Now());
    }

    lemma SomeWorkerMoves()
      requires Valid() && !senderAlive && joined < size && !Terminated(workers[joined].phase)
      ensures exists w: nat :: w < |workers| && CanMove(w)
    {
      WorkerProgress(Cfg(), Now());
      var step :| Enabled(Cfg(), Now(), step) && Mover(step).Some?;
      OnlyNextStep(Cfg(), Now(), step);
      assert CanMove(Mover(step).value);
    }
  }
}
