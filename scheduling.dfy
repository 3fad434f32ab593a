/**
 * The admission logic of `RpmTimer::run`, made sequential and stated on
 * values: the state the control loop keeps between ticks, one tick of the
 * loop body, the worker completions that happen between ticks, and the
 * whole loop over a finite schedule of clock readings.
 */
module Scheduling {
  import opened Util
  import opened Sources

  /**
   * The loop's state. `itemsReady`, `lastTickTime`, `finished` and
   * `workingThreads` are the locals of `run`; `source` is the take closure's
   * state; `dispatched` lists the batches handed to the pool, in order.
   * `requested` (the sum of all `items_to_take`), `credited` (the sum of all
   * `rps * elapsed` added to `items_ready`), `accrued` (the seconds that
   * were turned into credit) and `slivers` (the sum, over ticks with a free
   * worker, of the time between the tick's start and the clock reading that
   * measures its elapsed seconds) are bookkeeping for the rate law.
   */
  datatype Loop<T> = Loop(
    itemsReady: real,
    lastTickTime: real,
    finished: bool,
    workingThreads: nat,
    source: Source<T>,
    dispatched: seq<seq<T>>,
    requested: nat,
    credited: real,
    accrued: real,
    slivers: real)

  /**
   * What the environment does around one loop iteration: how many running
   * workers complete before it, the clock at its start (`tick_start_time`),
   * and the clock a moment later, when `last_tick_time.elapsed_seconds()`
   * reads it (src/helpers.rs:10-14 subtracts `last_tick_time` from it).
   */
  datatype Event = Event(finishedWorkers: nat, tickStart: real, readAt: real)

  /**
   * A clock that never runs backwards, from the reading `from` on: every
   * iteration starts no earlier than the previous reading and is read no
   * earlier than it starts.
   */
  predicate Clocked(from: real, events: seq<Event>)
    decreases |events|
  {
    events == []
    || (from <= events[0].tickStart <= events[0].readAt && Clocked(events[0].readAt, events[1..]))
  }

  /** The last clock reading of a schedule that starts after the reading `from`. */
  function LastReading(from: real, events: seq<Event>): (t: real)
    ensures Clocked(from, events) ==> from <= t
    decreases |events|
  {
    if events == [] then from else LastReading(events[0].readAt, events[1..])
  }

  /** The total time between each iteration's start and its clock reading. */
  function Delays(events: seq<Event>): real
    decreases |events|
  {
    if events == [] then 0.0 else (events[0].readAt - events[0].tickStart) + Delays(events[1..])
  }

  /** src/lib.rs:272-275: no workers, the clock read once, one credit to start with. */
  function Start<T>(source: Source<T>, now: real): (r: Loop<T>)
    ensures r.source == source && r.dispatched == [] && !r.finished
    ensures r.itemsReady == 1.0 && r.workingThreads == 0 && r.lastTickTime == now
  {
    Loop(1.0, now, false, 0, source, [], 0, 0.0, 0.0, 0.0)
  }

  /** `items_ready.floor() as usize`: whole credits, a negative amount saturating to 0. */
  function ItemsToTake(itemsReady: real): (k: nat)
    ensures itemsReady < 1.0 ==> k == 0
    ensures itemsReady >= 1.0 ==> k as real <= itemsReady < k as real + 1.0
  {
    var whole := itemsReady.Floor;
    if whole < 0 then 0 else whole
  }

  /**
   * One pass of the loop body (src/lib.rs:281-303). Only with a free worker
   * does the tick read the clock at `readAt`, accrue `rps` times the seconds
   * since `last_tick_time`, move `last_tick_time` to the tick's start and,
   * when at least one whole credit is there, take that many items, spend
   * exactly that many credits and start one more worker.
   */
  function TickStep<T>(s: Loop<T>, poolSize: nat, rps: real, tickStart: real, readAt: real): (r: Loop<T>)
    requires WellFormed(s.source)
    ensures r.source.kind == s.source.kind && r.source.items == s.source.items
    ensures s.source.cursor <= r.source.cursor <= |r.source.items|
    ensures s.workingThreads <= r.workingThreads <= s.workingThreads + 1
    ensures r.lastTickTime == s.lastTickTime || r.lastTickTime == tickStart
  {
    if s.workingThreads < poolSize then Admit(s, rps, tickStart, readAt - s.lastTickTime, readAt - tickStart)
    else s
  }

  /**
   * The body of the `if` at src/lib.rs:281, once `elapsed` seconds have been
   * measured `sliver` seconds after the tick's start: accrue, then dispatch
   * when at least one whole credit is there.
   */
  function Admit<T>(s: Loop<T>, rps: real, tickStart: real, elapsed: real, sliver: real): (r: Loop<T>)
    requires WellFormed(s.source)
    ensures r.source.kind == s.source.kind && r.source.items == s.source.items
    ensures s.source.cursor <= r.source.cursor <= |r.source.items|
    ensures s.workingThreads <= r.workingThreads <= s.workingThreads + 1
    ensures r.lastTickTime == tickStart
  {
    var a := Accrue(s, rps, tickStart, elapsed, sliver);
    var k := ItemsToTake(a.itemsReady);
    if k > 0 then Dispatch(a, k) else a
  }

  /** src/lib.rs:283-285: restart the measurement at the tick's start and add `rps * elapsed` credits. */
  function Accrue<T>(s: Loop<T>, rps: real, tickStart: real, elapsed: real, sliver: real): (r: Loop<T>)
    ensures r.itemsReady == s.itemsReady + rps * elapsed && r.lastTickTime == tickStart
    ensures r.itemsReady - s.itemsReady == r.credited - s.credited
    ensures r.accrued - s.accrued == elapsed && r.slivers - s.slivers == sliver
    ensures r.(itemsReady := s.itemsReady, lastTickTime := s.lastTickTime, credited := s.credited,
               accrued := s.accrued, slivers := s.slivers) == s
  {
    s.(
      itemsReady := s.itemsReady + rps * elapsed,
      lastTickTime := tickStart,
      credited := s.credited + rps * elapsed,
      accrued := s.accrued + elapsed,
      slivers := s.slivers + sliver)
  }

  /**
   * src/lib.rs:289-302: take `k` items, record the flag, spend `k` credits,
   * count one more worker and hand the batch to the pool.
   */
  function Dispatch<T>(s: Loop<T>, k: nat): (r: Loop<T>)
    requires WellFormed(s.source)
    ensures r.source.kind == s.source.kind && r.source.items == s.source.items
    ensures s.source.cursor <= r.source.cursor <= |r.source.items|
    ensures r.workingThreads == s.workingThreads + 1 && r.lastTickTime == s.lastTickTime
    ensures r.itemsReady == s.itemsReady - k as real && r.requested == s.requested + k
    ensures r.credited == s.credited && r.accrued == s.accrued && r.slivers == s.slivers
    ensures |r.dispatched| == |s.dispatched| + 1 && r.dispatched[..|s.dispatched|] == s.dispatched
    ensures var p := TakeFrom(s.source, k);
      r.dispatched == s.dispatched + [p.batch] && r.finished == p.finished && r.source.cursor == p.cursor
  {
    var p := TakeFrom(s.source, k);
    s.(
      finished := p.finished,
      itemsReady := s.itemsReady - k as real,
      workingThreads := s.workingThreads + 1,
      source := After(s.source, p),
      dispatched := s.dispatched + [p.batch],
      requested := s.requested + k)
  }

  /** `count` running workers call `decrease()` (src/lib.rs:301, src/helpers.rs:28-30). */
  function WorkersDone<T>(s: Loop<T>, count: nat): (r: Loop<T>)
    requires count <= s.workingThreads
    ensures r.workingThreads + count == s.workingThreads
    ensures r.(workingThreads := s.workingThreads) == s
  {
    s.(workingThreads := s.workingThreads - count)
  }

  /** One iteration of `while !finished`: the completions that precede it, then the tick. */
  function Step<T>(s: Loop<T>, poolSize: nat, rps: real, e: Event): (r: Loop<T>)
    requires WellFormed(s.source)
    ensures r.source.kind == s.source.kind && r.source.items == s.source.items
    ensures s.source.cursor <= r.source.cursor <= |r.source.items|
    ensures r.lastTickTime == s.lastTickTime || r.lastTickTime == e.tickStart
  {
    TickStep(WorkersDone(s, Min(e.finishedWorkers, s.workingThreads)), poolSize, rps, e.tickStart, e.readAt)
  }

  /** `while !finished { ... }` over the iterations the schedule provides. */
  function RunLoop<T>(s: Loop<T>, poolSize: nat, rps: real, events: seq<Event>): (r: Loop<T>)
    requires WellFormed(s.source)
    ensures r.source.kind == s.source.kind && r.source.items == s.source.items
    ensures s.source.cursor <= r.source.cursor <= |r.source.items|
    decreases |events|
  {
    if s.finished || events == [] then s
    else RunLoop(Step(s, poolSize, rps, events[0]), poolSize, rps, events[1..])
  }

  /** How many iterations the loop runs on a schedule. */
  function Ticks<T>(s: Loop<T>, poolSize: nat, rps: real, events: seq<Event>): (n: nat)
    requires WellFormed(s.source)
    ensures n <= |events|
    decreases |events|
  {
    if s.finished || events == [] then 0
    else 1 + Ticks(Step(s, poolSize, rps, events[0]), poolSize, rps, events[1..])
  }

  /**
   * What holds between ticks whatever the clock and the workers do: at most
   * `poolSize` workers; the dispatched batches are exactly the source's
   * prefix up to the cursor; finished only once the source is drained; no
   * more items taken than requested; and every credit is accounted for.
   */
  ghost predicate Inv<T>(s: Loop<T>, poolSize: nat, rps: real)
  {
    WellFormed(s.source)
    && s.workingThreads <= poolSize
    && Flatten(s.dispatched) == s.source.items[..s.source.cursor]
    && (s.finished ==> s.source.cursor == |s.source.items|)
    && s.source.cursor <= s.requested
    && s.itemsReady + s.requested as real == 1.0 + s.credited
  }

  /** `taken` items are at most one more than `rps` items per second over `seconds`. */
  predicate WithinRate(taken: nat, rps: real, seconds: real)
  {
    taken as real <= 1.0 + rps * seconds
  }

  /** The credit granted so far is the rate times the seconds accrued. */
  ghost predicate Paced<T>(s: Loop<T>, rps: real)
  {
    s.credited == rps * s.accrued
  }

  /**
   * The seconds accrued are the clock time from `start` to the last tick
   * with a free worker, plus the slivers: each such tick measures its
   * elapsed time up to its clock reading but restarts the next measurement
   * from its earlier start, so the time in between is counted twice.
   */
  ghost predicate Timed<T>(s: Loop<T>, start: real)
  {
    s.accrued == (s.lastTickTime - start) + s.slivers
  }

  /**
   * A run starts in the invariant when its source has handed out nothing
   * yet, with one whole credit and none of it yet earned from the clock.
   */
  lemma StartInv<T>(source: Source<T>, now: real, poolSize: nat, rps: real)
    requires WellFormed(source) && source.cursor == 0
    ensures Inv(Start(source, now), poolSize, rps)
    ensures Paced(Start(source, now), rps) && Timed(Start(source, now), now)
  {
  }

  /** With every worker busy the tick changes nothing: credits, clock, flag, count and source stay. */
  lemma SaturatedTickIsNoOp<T>(s: Loop<T>, poolSize: nat, rps: real, tickStart: real, readAt: real)
    requires WellFormed(s.source) && s.workingThreads >= poolSize
    ensures TickStep(s, poolSize, rps, tickStart, readAt) == s
  {
  }

  /**
   * A tick with a free worker: credits grow by `rps` times the seconds since
   * the last tick; if `k`, the whole part, is positive, exactly `k` items are
   * asked for, exactly `k` credits are spent, one worker starts and the flag
   * is the source's. The credits left are the fractional part, below one.
   */
  lemma TickWithCapacity<T>(s: Loop<T>, poolSize: nat, rps: real, tickStart: real, readAt: real)
    requires WellFormed(s.source) && s.workingThreads < poolSize
    ensures var r := TickStep(s, poolSize, rps, tickStart, readAt);
      var ready := s.itemsReady + rps * (readAt - s.lastTickTime);
      var k := ItemsToTake(ready);
      r.lastTickTime == tickStart
      && r.itemsReady < 1.0
      && (ready >= 0.0 ==> r.itemsReady == ready - ready.Floor as real)
      && (k > 0 ==>
            var p := TakeFrom(s.source, k);
            r.itemsReady == ready - k as real
            && r.workingThreads == s.workingThreads + 1
            && r.finished == p.finished
            && r.source.cursor == p.cursor
            && r.dispatched == s.dispatched + [p.batch])
      && (k == 0 ==>
            r.itemsReady == ready && r.workingThreads == s.workingThreads
            && r.finished == s.finished && r.source == s.source && r.dispatched == s.dispatched)
  {
    assert TickStep(s, poolSize, rps, tickStart, readAt) == Admit(s, rps, tickStart, readAt - s.lastTickTime, readAt - tickStart);
  }

  /** With a non-negative rate and a clock read after the last tick, credits never go negative. */
  lemma TickKeepsCreditsNonNegative<T>(s: Loop<T>, poolSize: nat, rps: real, tickStart: real, readAt: real)
    requires WellFormed(s.source) && s.itemsReady >= 0.0 && rps >= 0.0 && s.lastTickTime <= readAt
    ensures TickStep(s, poolSize, rps, tickStart, readAt).itemsReady >= 0.0
  {
    if s.workingThreads < poolSize {
      var elapsed := readAt - s.lastTickTime;
      assert rps * elapsed >= 0.0;
      var a := Accrue(s, rps, tickStart, elapsed, readAt - tickStart);
      assert a.itemsReady >= 0.0;
      var k := ItemsToTake(a.itemsReady);
      if k > 0 {
        assert Dispatch(a, k).itemsReady == a.itemsReady - k as real;
      }
      assert TickStep(s, poolSize, rps, tickStart, readAt) == Admit(s, rps, tickStart, elapsed, readAt - tickStart);
    }
  }

  /** Credits start at 1.0, so the first tick with a free worker admits at least one item. */
  lemma FirstTickAdmits<T>(source: Source<T>, now: real, poolSize: nat, rps: real, tickStart: real, readAt: real)
    requires WellFormed(source) && poolSize > 0 && rps >= 0.0 && now <= readAt
    ensures var r := TickStep(Start(source, now), poolSize, rps, tickStart, readAt);
      |r.dispatched| == 1 && r.workingThreads == 1 && r.requested >= 1
  {
  }

  lemma {:induction false} TickPreservesInv<T>(s: Loop<T>, poolSize: nat, rps: real, tickStart: real, readAt: real)
    requires Inv(s, poolSize, rps)
    ensures Inv(TickStep(s, poolSize, rps, tickStart, readAt), poolSize, rps)
  {
    if s.workingThreads < poolSize {
      AdmitPreservesInv(s, poolSize, rps, tickStart, readAt - s.lastTickTime, readAt - tickStart);
    }
  }

  lemma {:induction false} AdmitPreservesInv<T>(s: Loop<T>, poolSize: nat, rps: real, tickStart: real, elapsed: real, sliver: real)
    requires Inv(s, poolSize, rps) && s.workingThreads < poolSize
    ensures Inv(Admit(s, rps, tickStart, elapsed, sliver), poolSize, rps)
  {
    var ready := s.itemsReady + rps * elapsed;
    var k := ItemsToTake(ready);
    if k > 0 {
      var p := TakeFrom(s.source, k);
      var items := s.source.items;
      FlattenAppend(s.dispatched, p.batch);
      assert items[..p.cursor] == items[..s.source.cursor] + items[s.source.cursor..p.cursor];
    }
  }

  lemma TickKeepsPace<T>(s: Loop<T>, poolSize: nat, rps: real, tickStart: real, readAt: real)
    requires WellFormed(s.source) && Paced(s, rps)
    ensures Paced(TickStep(s, poolSize, rps, tickStart, readAt), rps)
  {
  }

  lemma TickKeepsTime<T>(s: Loop<T>, start: real, poolSize: nat, rps: real, tickStart: real, readAt: real)
    requires WellFormed(s.source) && Timed(s, start)
    ensures Timed(TickStep(s, poolSize, rps, tickStart, readAt), start)
  {
  }

  lemma {:induction false} StepPreservesInv<T>(s: Loop<T>, poolSize: nat, rps: real, e: Event)
    requires Inv(s, poolSize, rps)
    ensures Inv(Step(s, poolSize, rps, e), poolSize, rps)
  {
    TickPreservesInv(WorkersDone(s, Min(e.finishedWorkers, s.workingThreads)), poolSize, rps, e.tickStart, e.readAt);
  }

  lemma {:induction false} RunLoopPreservesInv<T>(s: Loop<T>, poolSize: nat, rps: real, events: seq<Event>)
    requires Inv(s, poolSize, rps)
    ensures Inv(RunLoop(s, poolSize, rps, events), poolSize, rps)
    decreases |events|
  {
    if !s.finished && events != [] {
      StepPreservesInv(s, poolSize, rps, events[0]);
      RunLoopPreservesInv(Step(s, poolSize, rps, events[0]), poolSize, rps, events[1..]);
    }
  }

  lemma {:induction false} RunLoopKeepsCreditsNonNegative<T>(s: Loop<T>, from: real, poolSize: nat, rps: real, events: seq<Event>)
    requires WellFormed(s.source) && s.itemsReady >= 0.0 && rps >= 0.0
    requires s.lastTickTime <= from && Clocked(from, events)
    ensures RunLoop(s, poolSize, rps, events).itemsReady >= 0.0
    decreases |events|
  {
    if !s.finished && events != [] {
      var e := events[0];
      TickKeepsCreditsNonNegative(WorkersDone(s, Min(e.finishedWorkers, s.workingThreads)), poolSize, rps, e.tickStart, e.readAt);
      RunLoopKeepsCreditsNonNegative(Step(s, poolSize, rps, e), e.readAt, poolSize, rps, events[1..]);
    }
  }

  lemma {:induction false} RunLoopKeepsPace<T>(s: Loop<T>, poolSize: nat, rps: real, events: seq<Event>)
    requires WellFormed(s.source) && Paced(s, rps)
    ensures Paced(RunLoop(s, poolSize, rps, events), rps)
    decreases |events|
  {
    if !s.finished && events != [] {
      var e := events[0];
      TickKeepsPace(WorkersDone(s, Min(e.finishedWorkers, s.workingThreads)), poolSize, rps, e.tickStart, e.readAt);
      RunLoopKeepsPace(Step(s, poolSize, rps, e), poolSize, rps, events[1..]);
    }
  }

  lemma {:induction false} RunLoopKeepsTime<T>(s: Loop<T>, start: real, poolSize: nat, rps: real, events: seq<Event>)
    requires WellFormed(s.source) && Timed(s, start)
    ensures Timed(RunLoop(s, poolSize, rps, events), start)
    decreases |events|
  {
    if !s.finished && events != [] {
      var e := events[0];
      TickKeepsTime(WorkersDone(s, Min(e.finishedWorkers, s.workingThreads)), start, poolSize, rps, e.tickStart, e.readAt);
      RunLoopKeepsTime(Step(s, poolSize, rps, e), start, poolSize, rps, events[1..]);
    }
  }

  /**
   * The clock the loop keeps never gets ahead of the real one: the last tick
   * time at the end of a run is no later than the schedule's last reading,
   * and the slivers added during the run are at most the schedule's delays.
   */
  lemma {:induction false} RunLoopFollowsClock<T>(s: Loop<T>, from: real, poolSize: nat, rps: real, events: seq<Event>)
    requires WellFormed(s.source) && s.lastTickTime <= from && Clocked(from, events)
    ensures var r := RunLoop(s, poolSize, rps, events);
      r.lastTickTime <= LastReading(from, events) && r.slivers <= s.slivers + Delays(events)
    decreases |events|
  {
    if events != [] {
      var e := events[0];
      RunLoopFollowsClock(Step(s, poolSize, rps, e), e.readAt, poolSize, rps, events[1..]);
      if !s.finished {
        DelaysNonNegative(e.readAt, events[1..]);
      } else {
        DelaysNonNegative(from, events);
      }
    }
  }

  /** On a clock that never runs backwards every delay, hence their sum, is non-negative. */
  lemma {:induction false} DelaysNonNegative(from: real, events: seq<Event>)
    requires Clocked(from, events)
    ensures Delays(events) >= 0.0
    decreases |events|
  {
    if events != [] {
      DelaysNonNegative(events[0].readAt, events[1..]);
    }
  }

  /**
   * The loop stops on the first iteration after a take reports finished:
   * it runs `Ticks` iterations, none of the states before the last one is
   * finished, and the state it stops in is finished unless the schedule ran out.
   */
  lemma {:induction false} RunLoopExitsAfterFinishingTake<T>(s: Loop<T>, poolSize: nat, rps: real, events: seq<Event>)
    requires WellFormed(s.source)
    ensures var n := Ticks(s, poolSize, rps, events);
      RunLoop(s, poolSize, rps, events) == RunLoop(s, poolSize, rps, events[..n])
      && (n < |events| ==> RunLoop(s, poolSize, rps, events).finished)
      && (forall j :: 0 <= j < n ==> !RunLoop(s, poolSize, rps, events[..j]).finished)
    decreases |events|
  {
    var n := Ticks(s, poolSize, rps, events);
    if s.finished || events == [] {
      assert events[..0] == [];
    } else {
      var s' := Step(s, poolSize, rps, events[0]);
      var rest := events[1..];
      RunLoopExitsAfterFinishingTake(s', poolSize, rps, rest);
      assert events[..n][0] == events[0] && events[..n][1..] == rest[..n - 1];
      forall j | 0 <= j < n
        ensures !RunLoop(s, poolSize, rps, events[..j]).finished
      {
        if j > 0 {
          assert events[..j][0] == events[0] && events[..j][1..] == rest[..j - 1];
        } else {
          assert events[..j] == [];
        }
      }
    }
  }

  /** Completeness and order: when the loop ends, the batches laid end to end are the whole source. */
  lemma RunCompletes<T>(s: Loop<T>, poolSize: nat, rps: real, events: seq<Event>)
    requires Inv(s, poolSize, rps)
    ensures var r := RunLoop(s, poolSize, rps, events);
      Flatten(r.dispatched) == s.source.items[..r.source.cursor]
      && (r.finished ==> Flatten(r.dispatched) == s.source.items)
      && r.workingThreads <= poolSize
  {
    RunLoopPreservesInv(s, poolSize, rps, events);
  }

  /**
   * While every worker stays busy the loop changes nothing, so the time
   * spent saturated is not lost: the first iteration that finds a free
   * worker credits `rps` times all the seconds since the last tick that had one.
   */
  lemma {:induction false} BacklogCredited<T>(s: Loop<T>, poolSize: nat, rps: real, events: seq<Event>, e: Event)
    requires WellFormed(s.source) && !s.finished && 0 < poolSize == s.workingThreads
    requires forall i :: 0 <= i < |events| ==> events[i].finishedWorkers == 0
    requires e.finishedWorkers > 0
    ensures var r := RunLoop(s, poolSize, rps, events + [e]);
      r.lastTickTime == e.tickStart
      && r.credited == s.credited + rps * (e.readAt - s.lastTickTime)
      && r.accrued == s.accrued + (e.readAt - s.lastTickTime)
    decreases |events|
  {
    if events == [] {
      assert events + [e] == [e] && [e][1..] == [];
      FreedTickCredits(s, poolSize, rps, e);
      assert RunLoop(s, poolSize, rps, [e]) == RunLoop(Step(s, poolSize, rps, e), poolSize, rps, []);
    } else {
      assert (events + [e])[0] == events[0] && (events + [e])[1..] == events[1..] + [e];
      assert WorkersDone(s, 0) == s;
      SaturatedTickIsNoOp(s, poolSize, rps, events[0].tickStart, events[0].readAt);
      BacklogCredited(s, poolSize, rps, events[1..], e);
    }
  }

  /** An iteration whose completions free a worker credits the time since the last tick in full. */
  lemma FreedTickCredits<T>(s: Loop<T>, poolSize: nat, rps: real, e: Event)
    requires WellFormed(s.source) && s.workingThreads <= poolSize
    requires s.workingThreads < poolSize || (e.finishedWorkers > 0 && poolSize > 0)
    ensures var r := Step(s, poolSize, rps, e);
      r.lastTickTime == e.tickStart
      && r.credited == s.credited + rps * (e.readAt - s.lastTickTime)
      && r.accrued == s.accrued + (e.readAt - s.lastTickTime)
  {
    var free := WorkersDone(s, Min(e.finishedWorkers, s.workingThreads));
    assert free.workingThreads < poolSize;
    assert free.lastTickTime == s.lastTickTime && free.credited == s.credited && free.accrued == s.accrued;
    TickCredits(free, poolSize, rps, e.tickStart, e.readAt);
  }

  /** A tick with a free worker restarts the measurement at its start and credits everything since the last one. */
  lemma TickCredits<T>(s: Loop<T>, poolSize: nat, rps: real, tickStart: real, readAt: real)
    requires WellFormed(s.source) && s.workingThreads < poolSize
    ensures var r := TickStep(s, poolSize, rps, tickStart, readAt);
      r.lastTickTime == tickStart
      && r.credited == s.credited + rps * (readAt - s.lastTickTime)
      && r.accrued == s.accrued + (readAt - s.lastTickTime)
  {
    assert TickStep(s, poolSize, rps, tickStart, readAt) == Admit(s, rps, tickStart, readAt - s.lastTickTime, readAt - tickStart);
  }

  /**
   * The rate law: every credit is either still held or was requested, so
   * the items requested so far are at most one more than the credit the
   * clock granted, and more than it once a tick with a free worker has left
   * less than one credit. No more items are taken than requested.
   */
  lemma RateWithinOneItem<T>(s: Loop<T>, poolSize: nat, rps: real)
    requires Inv(s, poolSize, rps) && s.itemsReady >= 0.0
    ensures |Flatten(s.dispatched)| <= s.requested
    ensures s.requested as real <= 1.0 + s.credited
    ensures s.itemsReady < 1.0 ==> s.credited < s.requested as real
  {
  }

  /**
   * The same law in terms of time: at most `1 + rps * t` items after `t`
   * seconds, where `t` is the clock time since the start up to the last
   * tick with a free worker plus the slivers counted twice.
   */
  lemma PacedRateBound<T>(s: Loop<T>, start: real, poolSize: nat, rps: real)
    requires Inv(s, poolSize, rps) && Paced(s, rps) && Timed(s, start) && s.itemsReady >= 0.0
    ensures |Flatten(s.dispatched)| as real <= 1.0 + rps * ((s.lastTickTime - start) + s.slivers)
    ensures s.itemsReady < 1.0 ==> rps * ((s.lastTickTime - start) + s.slivers) < s.requested as real
  {
  }

  /**
   * The rate law over a run from its start at `now`: with a non-negative
   * rate and a clock that never runs backwards, the items taken are at most
   * `1 + rps * t`, where `t` is the clock time up to the last reading plus
   * the delays between each iteration's start and its clock reading.
   */
  lemma RunRespectsRate<T>(source: Source<T>, now: real, poolSize: nat, rps: real, events: seq<Event>)
    requires WellFormed(source) && source.cursor == 0
    requires rps >= 0.0 && Clocked(now, events)
    ensures var r := RunLoop(Start(source, now), poolSize, rps, events);
      WithinRate(|Flatten(r.dispatched)|, rps, (LastReading(now, events) - now) + Delays(events))
  {
    var s := Start(source, now);
    assert s.slivers == 0.0 && s.itemsReady == 1.0;
    StartInv(source, now, poolSize, rps);
    RunFromStateRespectsRate(s, now, poolSize, rps, events);
  }

  /**
   * At a rate of 0 only the starting credit (src/lib.rs:274) is ever spent:
   * a run asks for at most one item, so it finishes only on a source of at
   * most one item.
   */
  lemma ZeroRateTakesOneItem<T>(source: Source<T>, now: real, poolSize: nat, events: seq<Event>)
    requires WellFormed(source) && source.cursor == 0 && Clocked(now, events)
    ensures var r := RunLoop(Start(source, now), poolSize, 0.0, events);
      r.requested <= 1 && (r.finished ==> |source.items| <= 1)
  {
    var s := Start(source, now);
    StartInv(source, now, poolSize, 0.0);
    RunLoopKeepsAccounts(s, now, now, poolSize, 0.0, events);
    RateWithinOneItem(RunLoop(s, poolSize, 0.0, events), poolSize, 0.0);
  }

  /** The rate law over a run from any accounted state whose slivers are still zero. */
  lemma RunFromStateRespectsRate<T>(s: Loop<T>, now: real, poolSize: nat, rps: real, events: seq<Event>)
    requires Inv(s, poolSize, rps) && Paced(s, rps) && Timed(s, now) && s.itemsReady >= 0.0
    requires s.slivers == 0.0 && s.lastTickTime == now
    requires rps >= 0.0 && Clocked(now, events)
    ensures WithinRate(|Flatten(RunLoop(s, poolSize, rps, events).dispatched)|, rps, (LastReading(now, events) - now) + Delays(events))
  {
    RunLoopKeepsAccounts(s, now, now, poolSize, rps, events);
    ClockRateBound(RunLoop(s, poolSize, rps, events), now, poolSize, rps, LastReading(now, events), Delays(events));
  }

  /** The facts the rate law needs, carried across a whole run. */
  lemma RunLoopKeepsAccounts<T>(s: Loop<T>, start: real, from: real, poolSize: nat, rps: real, events: seq<Event>)
    requires Inv(s, poolSize, rps) && Paced(s, rps) && Timed(s, start) && s.itemsReady >= 0.0
    requires rps >= 0.0 && s.lastTickTime <= from && Clocked(from, events)
    ensures var r := RunLoop(s, poolSize, rps, events);
      Inv(r, poolSize, rps) && Paced(r, rps) && Timed(r, start) && r.itemsReady >= 0.0
      && r.lastTickTime <= LastReading(from, events) && r.slivers <= s.slivers + Delays(events)
  {
    RunLoopKeepsPace(s, poolSize, rps, events);
    RunLoopKeepsTime(s, start, poolSize, rps, events);
    RunLoopPreservesInv(s, poolSize, rps, events);
    RunLoopKeepsCreditsNonNegative(s, from, poolSize, rps, events);
    RunLoopFollowsClock(s, from, poolSize, rps, events);
  }

  /** The rate law at a state whose last tick and slivers are bounded by a clock reading and a delay. */
  lemma ClockRateBound<T>(r: Loop<T>, start: real, poolSize: nat, rps: real, last: real, delays: real)
    requires Inv(r, poolSize, rps) && Paced(r, rps) && Timed(r, start) && r.itemsReady >= 0.0
    requires rps >= 0.0 && r.lastTickTime <= last && r.slivers <= delays
    ensures WithinRate(|Flatten(r.dispatched)|, rps, (last - start) + delays)
  {
    PacedRateBound(r, start, poolSize, rps);
    var x := (r.lastTickTime - start) + r.slivers;
    var y := (last - start) + delays;
    assert rps * y - rps * x == rps * (y - x);
  }

  /** An empty slice: the first tick hands the pool one empty batch and the loop stops. */
  lemma EmptySliceRun<T>(source: Source<T>, now: real, poolSize: nat, rps: real, e: Event)
    requires source == Source(SliceCursor, [], 0)
    requires poolSize > 0 && rps >= 0.0 && Clocked(now, [e])
    ensures var r := RunLoop(Start(source, now), poolSize, rps, [e]);
      r.finished && r.dispatched == [[]] && Ticks(Start(source, now), poolSize, rps, [e]) == 1
  {
    assert now <= e.readAt;
    assert rps * (e.readAt - now) >= 0.0;
  }
}
