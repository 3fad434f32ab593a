/**
 * `RpmTimer::run` as an object: its locals become fields, the loop body a
 * method, the `decrease()` calls of finished workers another, and
 * `run_slice` / `run_iter` the two entry points that build a take closure
 * and drive the loop.
 */
module Runner {
  import opened Util
  import opened Sources
  import opened Scheduling
  import Config

  class Scheduler<T> {
    /** `pool_size`. */
    const poolSize: nat
    /** `self.rps_limit`. */
    const rpsLimit: real
    /** The take closure. */
    const source: ItemSource<T>

    var itemsReady: real
    var lastTickTime: real
    var finished: bool
    /** `working_threads`, the counter shared with the workers. */
    var workingThreads: nat
    /** The batches handed to `scope.execute`, in order. */
    var submitted: seq<seq<T>>

    ghost var requested: nat
    ghost var credited: real
    ghost var accrued: real
    ghost var slivers: real

    ghost predicate Valid()
      reads this, source
    {
      source.Valid()
    }

    ghost function State(): Loop<T>
      reads this, source
    {
      Loop(itemsReady, lastTickTime, finished, workingThreads, source.View(), submitted, requested, credited, accrued, slivers)
    }

    /** The set-up of `run` (src/lib.rs:270-275), with the CPU count and the clock as inputs. */
    constructor (timer: Config.RpmTimer, cpus: nat, source: ItemSource<T>, now: real)
      requires source.Valid()
      ensures Valid()
      ensures this.source == source
      ensures poolSize == Config.PoolSize(timer, cpus) && rpsLimit == timer.rpsLimit
      ensures State() == Start(source.View(), now)
    {
      poolSize := Config.PoolSize(timer, cpus);
      rpsLimit := timer.rpsLimit;
      this.source := source;
      itemsReady := 1.0;
      lastTickTime := now;
      finished := false;
      workingThreads := 0;
      submitted := [];
      requested := 0;
      credited := 0.0;
      accrued := 0.0;
      slivers := 0.0;
    }

    /**
     * The loop body (src/lib.rs:281-303), minus the thread spawn and the
     * sleep: the tick starts at `tickStart` and reads the clock at `readAt`.
     */
    method Tick(tickStart: real, readAt: real)
      requires Valid()
      modifies this, source
      ensures Valid()
      ensures State() == TickStep(old(State()), poolSize, rpsLimit, tickStart, readAt)
    {
      if workingThreads < poolSize {
        var secondsSinceLastTick := readAt - lastTickTime;
        AdmitBatch(tickStart, secondsSinceLastTick, readAt - tickStart);
      }
    }

    /**
     * The body of the `if` at src/lib.rs:281, run when a worker is free,
     * once `secondsSinceLastTick` has been measured `sliver` seconds after
     * the tick's start.
     */
    method AdmitBatch(tickStart: real, secondsSinceLastTick: real, sliver: real)
      requires Valid()
      modifies this, source
      ensures Valid()
      ensures State() == Admit(old(State()), rpsLimit, tickStart, secondsSinceLastTick, sliver)
    {
      AccrueCredits(tickStart, secondsSinceLastTick, sliver);
      var itemsToTake := ItemsToTake(itemsReady);
      if itemsToTake > 0 {
        DispatchBatch(itemsToTake);
      }
    }

    /** src/lib.rs:283-285: restart the measurement and add the credits earned since the last tick. */
    method AccrueCredits(tickStart: real, secondsSinceLastTick: real, sliver: real)
      requires Valid()
      modifies this
      ensures Valid()
      ensures State() == Accrue(old(State()), rpsLimit, tickStart, secondsSinceLastTick, sliver)
    {
      var credit := rpsLimit * secondsSinceLastTick;
      lastTickTime := tickStart;
      itemsReady := itemsReady + credit;
      credited := credited + credit;
      accrued := accrued + secondsSinceLastTick;
      slivers := slivers + sliver;
    }

    /** src/lib.rs:289-302: take `itemsToTake` items and hand them to one more worker. */
    method DispatchBatch(itemsToTake: nat)
      requires Valid()
      modifies this, source
      ensures Valid()
      ensures State() == Dispatch(old(State()), itemsToTake)
    {
      ghost var before := State();
      var takenItems, isFinished := source.Take(itemsToTake);
      finished := isFinished;
      itemsReady := itemsReady - itemsToTake as real;
      workingThreads := workingThreads + 1;
      submitted := submitted + [takenItems];
      requested := requested + itemsToTake;
      ghost var p := TakeFrom(before.source, itemsToTake);
      assert State() == before.(
        finished := p.finished,
        itemsReady := before.itemsReady - itemsToTake as real,
        workingThreads := before.workingThreads + 1,
        source := After(before.source, p),
        dispatched := before.dispatched + [p.batch],
        requested := before.requested + itemsToTake);
    }

    /** `count` workers finish their batch and call `decrease()`. */
    method WorkersFinished(count: nat)
      requires Valid() && count <= workingThreads
      modifies this`workingThreads
      ensures Valid()
      ensures State() == WorkersDone(old(State()), count)
    {
      workingThreads := workingThreads - count;
    }

    /**
     * `while !finished { ... }` for as many iterations as the schedule
     * provides; returns how many ran.
     */
    method Run(events: seq<Event>) returns (ticks: nat)
      requires Valid()
      modifies this, source
      ensures Valid()
      ensures ticks == Ticks(old(State()), poolSize, rpsLimit, events)
      ensures State() == RunLoop(old(State()), poolSize, rpsLimit, events)
    {
      ticks := 0;
      while !finished && ticks < |events|
        invariant Valid()
        invariant ticks <= |events|
        invariant RunLoop(State(), poolSize, rpsLimit, events[ticks..]) == RunLoop(old(State()), poolSize, rpsLimit, events)
        invariant ticks + Ticks(State(), poolSize, rpsLimit, events[ticks..]) == Ticks(old(State()), poolSize, rpsLimit, events)
        decreases |events| - ticks
      {
        ghost var before := State();
        var e := events[ticks];
        WorkersFinished(Min(e.finishedWorkers, workingThreads));
        Tick(e.tickStart, e.readAt);
        assert State() == Step(before, poolSize, rpsLimit, e);
        assert events[ticks..][0] == e && events[ticks..][1..] == events[ticks + 1..];
        ticks := ticks + 1;
      }
    }
  }

  /**
   * `run_slice`: batches are sub-slices of `items`. Returns the batches the
   * pool received, whether the loop stopped on its own, and how many
   * iterations it ran: it stops only on a finishing take or when the
   * schedule runs out.
   */
  method RunSlice<T>(timer: Config.RpmTimer, cpus: nat, items: seq<T>, now: real, events: seq<Event>)
    returns (batches: seq<seq<T>>, finished: bool, ticks: nat)
    ensures var s := Start(Source(SliceCursor, items, 0), now);
      var r := RunLoop(s, Config.PoolSize(timer, cpus), timer.rpsLimit, events);
      batches == r.dispatched && finished == r.finished
      && ticks == Ticks(s, Config.PoolSize(timer, cpus), timer.rpsLimit, events)
    ensures Flatten(batches) <= items
    ensures finished ==> Flatten(batches) == items
    ensures finished || ticks == |events|
    ensures Clocked(now, events) && timer.rpsLimit >= 0.0 ==>
      WithinRate(|Flatten(batches)|, timer.rpsLimit, (LastReading(now, events) - now) + Delays(events))
  {
    var source := new ItemSource.OverSlice(items);
    var scheduler := new Scheduler(timer, cpus, source, now);
    ticks := scheduler.Run(events);
    batches, finished := scheduler.submitted, scheduler.finished;
    ghost var s := Start(Source(SliceCursor, items, 0), now);
    RunCompletes(s, scheduler.poolSize, scheduler.rpsLimit, events);
    RunLoopExitsAfterFinishingTake(s, scheduler.poolSize, scheduler.rpsLimit, events);
    if Clocked(now, events) && timer.rpsLimit >= 0.0 {
      RunRespectsRate(s.source, now, scheduler.poolSize, scheduler.rpsLimit, events);
    }
  }

  /** `run_iter`: batches are collected from the iterator. Same contract. */
  method RunIter<T>(timer: Config.RpmTimer, cpus: nat, items: seq<T>, now: real, events: seq<Event>)
    returns (batches: seq<seq<T>>, finished: bool, ticks: nat)
    ensures var s := Start(Source(IterPull, items, 0), now);
      var r := RunLoop(s, Config.PoolSize(timer, cpus), timer.rpsLimit, events);
      batches == r.dispatched && finished == r.finished
      && ticks == Ticks(s, Config.PoolSize(timer, cpus), timer.rpsLimit, events)
    ensures Flatten(batches) <= items
    ensures finished ==> Flatten(batches) == items
    ensures finished || ticks == |events|
    ensures Clocked(now, events) && timer.rpsLimit >= 0.0 ==>
      WithinRate(|Flatten(batches)|, timer.rpsLimit, (LastReading(now, events) - now) + Delays(events))
  {
    var source := new ItemSource.OverIter(items);
    var scheduler := new Scheduler(timer, cpus, source, now);
    ticks := scheduler.Run(events);
    batches, finished := scheduler.submitted, scheduler.finished;
    ghost var s := Start(Source(IterPull, items, 0), now);
    RunCompletes(s, scheduler.poolSize, scheduler.rpsLimit, events);
    RunLoopExitsAfterFinishingTake(s, scheduler.poolSize, scheduler.rpsLimit, events);
    if Clocked(now, events) && timer.rpsLimit >= 0.0 {
      RunRespectsRate(s.source, now, scheduler.poolSize, scheduler.rpsLimit, events);
    }
  }
}
