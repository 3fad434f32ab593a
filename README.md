# rpm-timer admission logic in Dafny

`rpm-timer` limits how fast a list of work items is handed to worker
threads, so that an API with a per-minute quota is never called faster
than asked. A control loop ticks at a fixed interval. On every tick that
finds a free worker it turns the elapsed time into fractional "credits"
(`rate × seconds`). It takes as many items as there are whole credits and
spends exactly that many credits. It then starts one worker on the batch.
The loop stops after the item source reports that it is finished.

This project models that admission logic, made sequential:

- `config.dfy` (module `Config`): the `RpmTimer` configuration value. It
  has the builders `tick`, `rps_limit`, `rpm_limit` and `max_threads`,
  `Default`, and the pool size a run derives from it.
- `sources.dfy` (module `Sources`): the two `take` closures.
  `run_slice` keeps a cursor into a slice. `run_iter` pulls from a
  forward-only iterator, modelled as the sequence it will yield plus the
  number of elements already pulled. Pure functions state each `take`.
  The class `ItemSource` implements both closures with state that changes
  in place; its constructor chooses the closure.
- `scheduling.dfy` (module `Scheduling`): the loop's state as a value
  (`Loop`), one tick (`TickStep`), worker completions (`WorkersDone`) and
  the whole loop over a finite schedule of clock readings (`RunLoop`).
  The invariants and lemmas about them are here too.
- `runner.dfy` (module `Runner`): the class `Scheduler`. Its fields are
  `run`'s locals and the shared worker counter, and its methods are proved
  against `TickStep` and `RunLoop`. It also holds the entry points
  `RunSlice` and `RunIter`.
- `util.dfy` (module `Util`): `Min` and `Flatten`, which lays batches end
  to end.

Inputs from the outside world are parameters. Each loop iteration is
given by an `Event`:
- the clock at the iteration's start, `tick_start_time` (`Event.tickStart`);
- the clock a moment later, when `last_tick_time.elapsed_seconds()` reads
  it (`Event.readAt`). The seconds since the last tick are therefore
  `readAt - lastTickTime`;
- how many workers finish before the iteration (`Event.finishedWorkers`,
  capped at the number running).

The CPU count is the parameter `cpus`. A schedule is `Clocked` when its
readings never run backwards. Credits are `real`.

Behaviours of the code that the model keeps:
- On an empty slice, the first tick hands the pool one empty batch and
  reports finished (`EmptySliceRun`). An empty iterator behaves the same way.
- When an iterator's remaining length is an exact multiple of the request,
  the last batch is empty (`IterExactMultiple`).
- After a take, the credits drop by the number of items requested
  (src/lib.rs:295), even when the source returned fewer.
- `last_tick_time` becomes `tick_start_time` (src/lib.rs:284). The elapsed
  seconds, though, are measured later, at `readAt` (src/lib.rs:282). The
  time between the two is credited twice, once in this tick and again in
  the next. The ghost field `slivers` sums these gaps, so the seconds
  credited are the clock time from the start to the last tick with a free
  worker plus `slivers` (`Timed`). The rate bound is stated over clock time
  plus the schedule's `Delays`.

## Model

| member | source | states |
|---|---|---|
| Config.Default | src/lib.rs:312-319 | the default is a 100 ms tick, 1.0 items per second (`rpm_limit(60)` leaves it unchanged) and no thread cap |
| Config.Tick | src/lib.rs:197-200 | sets the tick interval and leaves the rate and the thread cap unchanged |
| Config.RpsLimit | src/lib.rs:212-215 | sets the per-second rate and leaves the tick and the thread cap unchanged |
| Config.RpmLimit | src/lib.rs:205-207 | stores a per-minute value v as a per-second rate r with 60 r = v; tick and thread cap unchanged |
| Config.MaxThreads | src/lib.rs:222-225 | sets the thread cap and leaves the tick and the rate unchanged |
| Config.PoolSize | src/lib.rs:270 | the pool size is the thread cap when one is set, otherwise the CPU count |
| Config.RateSettersOverride | src/lib.rs:202-215 | whichever of `rpm_limit` and `rps_limit` is called last decides the rate |
| Config.RpmIsSixtyRps | src/lib.rs:205-207 | `rpm_limit(60 r)` configures the same value as `rps_limit(r)` |
| Config.FromMillis | src/lib.rs:315 | `Duration::from_millis(ms)` is exactly ms whole milliseconds |
| Config.BuildersCommute | src/lib.rs:197-225 | builders that set different fields can be chained in either order |
| Util.Min | src/lib.rs:241 | the result is at most both arguments and equals one of them |
| Sources.SliceTake | src/lib.rs:239-243 | the cursor moves forward by min(n, remaining) and stays within 0..len; the batch is exactly the items it skipped; finished iff the cursor reached len |
| Sources.Drawn | src/lib.rs:258 | `take(n)` on the iterator yields min(n, remaining) elements, which are the next ones in source order |
| Sources.IterTake | src/lib.rs:257-261 | the batch is the next min(n, remaining) elements; finished iff fewer than n came back |
| Sources.IterTakeDraws | src/lib.rs:258 | the iterator closure's batch is exactly the elements `take(n)` draws |
| Sources.IterTakeFull | src/lib.rs:257-261 | with at least n elements left, the iterator take returns the next n and is not finished |
| Sources.IterTakeAtEnd | src/lib.rs:257-261 | on an exhausted iterator a take returns an empty batch and reports finished |
| Sources.TakeFrom | src/lib.rs:238-262 | for either closure: the batch is the source segment from the old to the new cursor; its length is min(n, remaining); finished implies the source is drained |
| Sources.TakeEachPartitions | src/lib.rs:239-243 | the batches of successive takes, laid end to end, are exactly the items from the first cursor to the last: in order, no overlap, no gap |
| Sources.SliceFinishedIff | src/lib.rs:241-243 | a slice take reports finished iff the cursor is at the end after the call |
| Sources.IterFinishedIff | src/lib.rs:258-261 | an iterator take reports finished iff fewer than n items came back, that is, iff fewer than n remained |
| Sources.EmptySliceFinishesAtOnce | src/lib.rs:241-243 | on an empty slice the first take returns an empty batch with finished = true |
| Sources.IterExactMultiple | src/lib.rs:257-261 | with m·n items left and requests of n: m full, unfinished batches, then an empty batch with finished = true |
| Sources.SliceExactMultiple | src/lib.rs:239-243 | with m·n items left and requests of n: the m-th full batch already reports finished, so no trailing empty batch |
| Sources.ItemSource.OverSlice | src/lib.rs:236 | the slice cursor starts at 0 |
| Sources.ItemSource.OverIter | src/lib.rs:252-257 | the iterator closure starts with nothing pulled |
| Sources.ItemSource.Take | src/lib.rs:238-262 | one call of either closure: batch, flag and new cursor are exactly `TakeFrom` of the old state; the iterator variant pulls one element at a time |
| Scheduling.ItemsToTake | src/lib.rs:287 | `floor() as usize`: 0 below one credit, otherwise the whole part k with k ≤ credits < k + 1 |
| Scheduling.Start | src/lib.rs:272-275 | a run starts with no workers, 1.0 credit, nothing dispatched, not finished, and the last tick time at the first clock reading |
| Scheduling.TickStep | src/lib.rs:281-303 | a tick never touches another source, only moves the cursor forward within bounds, starts at most one worker, and either keeps the last tick time or sets it to the tick's start |
| Scheduling.Admit | src/lib.rs:282-303 | with a free worker: the last tick time becomes the tick's start, the cursor only moves forward within bounds, at most one worker starts |
| Scheduling.Accrue | src/lib.rs:282-285 | credits held grow by rate × elapsed and the last tick time becomes the tick's start; credits held and credits granted grow by the same amount; the seconds accrued grow by the elapsed seconds; nothing else changes except the last tick time |
| Scheduling.Dispatch | src/lib.rs:289-302 | a take of k items: the batch appended, the flag and the new cursor are those of `take(k)` on the source; k credits spent, k items requested, one more worker, one more batch appended after the old ones, cursor forward within bounds, the clock bookkeeping unchanged |
| Scheduling.WorkersDone | src/lib.rs:301 | `count` finishing workers lower the worker counter by exactly `count` and change nothing else |
| Scheduling.Step | src/lib.rs:278-303 | one loop iteration keeps the source's items and kind and moves its cursor forward within bounds |
| Scheduling.RunLoop | src/lib.rs:278-307 | the whole loop keeps the source's items and kind and moves its cursor forward within bounds |
| Scheduling.Ticks | src/lib.rs:278 | the loop runs at most as many iterations as the schedule offers |
| Scheduling.StartInv | src/lib.rs:272-275 | the initial state (no workers, 1.0 credit, nothing taken) satisfies the invariant, with its credit paced |
| Scheduling.SaturatedTickIsNoOp | src/lib.rs:281-304 | with every worker busy a tick leaves credits, last tick time, flag, worker count and source unchanged |
| Scheduling.TickWithCapacity | src/lib.rs:282-297 | with a free worker: the last tick time becomes the tick's start; credits grow by rate × (reading − last tick time); if k = floor > 0, exactly k items are asked for, k credits spent, one worker added and the flag taken from the source; the credit left is the fractional part, below 1 |
| Scheduling.TickKeepsCreditsNonNegative | src/lib.rs:282-295 | with rate ≥ 0 and a reading no earlier than the last tick time, credits stay ≥ 0 |
| Scheduling.TickCredits | src/lib.rs:282-285 | a tick with a free worker sets the last tick time to its start and credits rate × (reading − old last tick time) |
| Scheduling.FirstTickAdmits | src/lib.rs:274-297 | since credits start at 1.0, with a reading no earlier than the start, the first tick with a free worker dispatches one batch of at least one requested item |
| Scheduling.TickPreservesInv | src/lib.rs:281-303 | a tick keeps: workers ≤ pool size, batches = source prefix up to the cursor, finished ⇒ drained, taken ≤ requested, credits held + requested = 1 + credited |
| Scheduling.TickKeepsPace | src/lib.rs:282-285 | the credit granted stays rate × seconds accrued |
| Scheduling.TickKeepsTime | src/lib.rs:282-284 | the seconds accrued stay the clock time from the start to the last tick time, plus the slivers |
| Scheduling.StepPreservesInv | src/lib.rs:278-303 | worker completions followed by a tick keep the invariant |
| Scheduling.RunLoopPreservesInv | src/lib.rs:278-307 | the invariant (including workers ≤ pool size) holds after any number of iterations |
| Scheduling.RunLoopKeepsCreditsNonNegative | src/lib.rs:274-295 | with rate ≥ 0 and a `Clocked` schedule from a reading no earlier than the last tick time, credits stay ≥ 0 over a run |
| Scheduling.RunLoopKeepsPace | src/lib.rs:282-285 | over a run the credit granted stays rate × seconds accrued |
| Scheduling.RunLoopKeepsTime | src/lib.rs:278-307 | over a run the seconds accrued stay the clock time to the last tick time plus the slivers |
| Scheduling.RunLoopFollowsClock | src/lib.rs:279-284 | on a `Clocked` schedule the last tick time never passes the last reading, and the slivers grow by at most the schedule's delays |
| Scheduling.DelaysNonNegative | src/lib.rs:279-282 | on a `Clocked` schedule every reading comes after its tick's start, so the delays sum to ≥ 0 |
| Scheduling.RunLoopKeepsAccounts | src/lib.rs:274-307 | invariant, pacing, timing and non-negative credits hold at the end of a run; the last tick time is at most the last reading; the slivers at most the delays |
| Scheduling.BacklogCredited | src/lib.rs:281-285 | while every worker is busy the loop changes nothing; the first iteration that frees one sets the last tick time to its start and credits rate × all the seconds since the last tick that had a free worker |
| Scheduling.FreedTickCredits | src/lib.rs:281-285 | an iteration that has or frees a worker credits rate × (reading − last tick time) and restarts the measurement at its start |
| Scheduling.RunLoopExitsAfterFinishingTake | src/lib.rs:278-307 | the loop runs `Ticks` iterations; no earlier state is finished; it stops in a finished state unless the schedule ran out |
| Scheduling.RunCompletes | src/lib.rs:278-307 | at the end of a run the batches laid end to end are a prefix of the source in order, the whole source if finished; workers ≤ pool size |
| Scheduling.RateWithinOneItem | src/lib.rs:285-295 | items taken ≤ items requested ≤ 1 + credit granted; after a tick with a free worker, requested > credit granted |
| Scheduling.PacedRateBound | src/lib.rs:282-295 | items taken ≤ 1 + rate × (clock time to the last tick + slivers); after a tick with a free worker, requested > that credit |
| Scheduling.RunRespectsRate | src/lib.rs:272-307 | over a whole run with rate ≥ 0 on a `Clocked` schedule, items taken ≤ 1 + rate × (last reading − start + delays) |
| Scheduling.ZeroRateTakesOneItem | src/lib.rs:274-295 | at rate 0 a run asks for at most one item in all, so it can finish only on a source of at most one item |
| Scheduling.RunFromStateRespectsRate | src/lib.rs:278-307 | the same bound from any accounted state that has no slivers yet and whose last tick is the start |
| Scheduling.ClockRateBound | src/lib.rs:282-295 | an accounted state whose last tick is at most a reading and whose slivers are at most some delays took ≤ 1 + rate × (reading − start + delays) items |
| Scheduling.EmptySliceRun | src/lib.rs:238-243 | an empty slice: one iteration, one empty batch, loop finished |
| Runner.Scheduler.constructor | src/lib.rs:270-275 | pool size from the configuration, no workers, 1.0 credit, clock read once, not finished |
| Runner.Scheduler.Tick | src/lib.rs:281-303 | the loop body changes the fields exactly as `TickStep` does to the old state |
| Runner.Scheduler.AdmitBatch | src/lib.rs:282-303 | with a free worker, the fields change exactly as `Admit` does to the old state |
| Runner.Scheduler.AccrueCredits | src/lib.rs:282-285 | the fields change exactly as `Accrue` does; the source is untouched |
| Runner.Scheduler.DispatchBatch | src/lib.rs:289-302 | the take and the hand-over change the fields and the source exactly as `Dispatch` does |
| Runner.Scheduler.WorkersFinished | src/lib.rs:301 | finishing workers lower the worker counter by exactly their number, change nothing else and keep the scheduler valid |
| Runner.Scheduler.Run | src/lib.rs:277-308 | the loop ends in the state `RunLoop` gives and after `Ticks` iterations |
| Runner.RunSlice | src/lib.rs:232-245 | the pool receives the batches of `RunLoop` over the slice closure; laid end to end they are a prefix of the items, all of them once finished; the loop stops only when finished or when the schedule runs out; on a `Clocked` schedule with rate ≥ 0, items ≤ 1 + rate × (last reading − start + delays) |
| Runner.RunIter | src/lib.rs:252-263 | the same for the iterator closure, including the rate bound |

## Left out

- The `scoped_pool` thread pool, `scope.execute`, running the action and
  the join at scope exit (src/lib.rs:271, 277, 299-302). Only the batch
  handed over and the worker counter are modelled. Concurrency is
  replaced by completions that happen between ticks.
- `AtomicUsizeExtensions` (src/helpers.rs:17-35) is a plain counter field.
  `Instant::now` and the clock that `InstantExtensions::elapsed_seconds`
  reads are the readings `Event.tickStart` and `Event.readAt`. The
  conversion from `Duration` to seconds (src/helpers.rs:10-14) is exact.
- `sleep(self.tick - tick_start_time.elapsed())` (src/lib.rs:306) affects
  only timing. Its panic when a tick overruns its interval is not modelled.
- `num_cpus::get()` is the parameter `cpus`.
- Floating point: credits and rates are exact reals, not `f64`.
- `as usize` saturates at zero for negative credits. Its upper saturation
  and any `usize` overflow of `last_dispatched_item_index + items_to_dispatch`
  are not modelled, because integers are unbounded.
- `max_threads` takes anything `Into<Option<usize>>`. The model takes
  `Option<nat>`.
- The iterator is assumed to stay exhausted once it has returned `None`.
- The demo programs under examples/ are not part of this model.
- Runner.Scheduler.Run: `while !finished` has no bound in the code. At a
  rate of 0, only the item paid for by the starting credit is ever taken
  (`ZeroRateTakesOneItem`), so the loop never ends on a source that needs
  more than one take. At a negative rate it normally takes nothing at all.
  The model runs the loop over a finite schedule and stops when the
  schedule runs out.
- Runner.Scheduler.WorkersFinished: completions are grouped between two
  ticks rather than interleaved with the body of a tick. The body reads
  the counter once, before it increments it. A decrement that lands later
  in the body is seen by the next tick, and it can only lower the count.
