/**
 * The configuration value of the rate limiter (`RpmTimer` in src/lib.rs):
 * a tick interval, a target rate in items per second and an optional cap on
 * the number of worker threads. Every builder takes the value and returns it
 * with exactly one field replaced.
 */
module Config {

  datatype Option<T> = None | Some(value: T)

  /** `std::time::Duration`, kept as a whole number of nanoseconds. */
  datatype Duration = Duration(nanos: nat)

  /** `Duration::from_millis`: a whole number of milliseconds, exactly. */
  function FromMillis(ms: nat): (d: Duration)
    ensures d.nanos % 1_000_000 == 0 && d.nanos / 1_000_000 == ms
  {
    Duration(ms * 1_000_000)
  }

  /** `RpmTimer { tick, rps_limit, max_threads }`; `None` means "one thread per CPU". */
  datatype RpmTimer = RpmTimer(tick: Duration, rpsLimit: real, maxThreads: Option<nat>)

  /** `impl Default for RpmTimer`: 100 ms ticks, one item per second (60 per minute), no thread cap. */
  function Default(): (t: RpmTimer)
    ensures t.tick.nanos == 100_000_000
    ensures t.rpsLimit == 1.0 && RpmLimit(t, 60.0) == t
    ensures t.maxThreads == None
  {
    RpmTimer(FromMillis(100), 1.0, None)
  }

  /** `tick(value)`: replaces the tick interval only. */
  function Tick(t: RpmTimer, value: Duration): (r: RpmTimer)
    ensures r.tick == value
    ensures r.rpsLimit == t.rpsLimit && r.maxThreads == t.maxThreads
  {
    t.(tick := value)
  }

  /** `rps_limit(value)`: replaces the per-second rate only, whatever set it before. */
  function RpsLimit(t: RpmTimer, value: real): (r: RpmTimer)
    ensures r.rpsLimit == value
    ensures r.tick == t.tick && r.maxThreads == t.maxThreads
  {
    t.(rpsLimit := value)
  }

  /** `rpm_limit(value)`: a per-minute figure, stored as the equivalent per-second rate. */
  function RpmLimit(t: RpmTimer, value: real): (r: RpmTimer)
    ensures r.rpsLimit * 60.0 == value
    ensures r.tick == t.tick && r.maxThreads == t.maxThreads
  {
    RpsLimit(t, value / 60.0)
  }

  /** `max_threads(value)`: replaces the thread cap only. */
  function MaxThreads(t: RpmTimer, value: Option<nat>): (r: RpmTimer)
    ensures r.maxThreads == value
    ensures r.tick == t.tick && r.rpsLimit == t.rpsLimit
  {
    t.(maxThreads := value)
  }

  /**
   * `max_threads.unwrap_or_else(num_cpus::get)`: the size of the worker pool
   * of a run. The CPU count is a parameter, since it is a query of the host.
   */
  function PoolSize(t: RpmTimer, cpus: nat): (n: nat)
    ensures t.maxThreads.Some? ==> n == t.maxThreads.value
    ensures t.maxThreads.None? ==> n == cpus
  {
    match t.maxThreads
    case Some(m) => m
    case None => cpus
  }

  /** The two rate setters override each other: the last call wins. */
  lemma RateSettersOverride(t: RpmTimer, a: real, b: real)
    ensures RpsLimit(RpmLimit(t, a), b) == RpsLimit(t, b)
    ensures RpmLimit(RpsLimit(t, a), b) == RpmLimit(t, b)
    ensures RpmLimit(RpmLimit(t, a), b) == RpmLimit(t, b)
  {
  }

  /** A per-minute rate of 60 r is the per-second rate r. */
  lemma RpmIsSixtyRps(t: RpmTimer, r: real)
    ensures RpmLimit(t, r * 60.0) == RpsLimit(t, r)
  {
  }

  /** Builders touching different fields commute, so the order of the chain does not matter. */
  lemma BuildersCommute(t: RpmTimer, d: Duration, r: real, m: Option<nat>)
    ensures Tick(RpsLimit(t, r), d) == RpsLimit(Tick(t, d), r)
    ensures Tick(MaxThreads(t, m), d) == MaxThreads(Tick(t, d), m)
    ensures RpsLimit(MaxThreads(t, m), r) == MaxThreads(RpsLimit(t, r), m)
  {
  }
}
