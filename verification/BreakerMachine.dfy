/**
 The circuit breaker as a machine of atomic steps: a call is split at its `await`, so that calls,
 completions, manual trips and resets interleave freely.
 */
module BreakerMachine {

  datatype Phase = Closed | Open | HalfOpen

  datatype Config = Config(threshold: nat, timeout: nat, halfOpenMax: nat)

  /** The closure variables, and how many call bodies of either kind are running. */
  datatype Breaker = Breaker(
    phase: Phase,
    failureCount: nat,
    lastFailureTime: nat,
    halfOpenActive: int,
    closedRunning: nat,
    probesRunning: nat)

  /** How a call admitted in the closed phase ends. */
  datatype Outcome = Success | CountedFailure | IgnoredFailure

  datatype Event =
    | Arrive(now: nat)
    | ClosedEnds(outcome: Outcome, now: nat)
    | ProbeEnds(ok: bool, now: nat)
    | ManualTrip(now: nat)
    | ManualReset(now: nat)

  const INITIAL: Breaker := Breaker(Closed, 0, 0, 0, 0, 0)

  // ----- the program's functions -----

  function Trip(b: Breaker, now: nat): Breaker {
    if b.phase == Open then b else b.(phase := Open, lastFailureTime := now)
  }

  function Reset(b: Breaker): Breaker {
    b.(failureCount := 0, halfOpenActive := 0, phase := Closed)
  }

  predicate MayProbe(b: Breaker, cfg: Config, now: nat) {
    b.phase == Open && now - b.lastFailureTime >= cfg.timeout && b.halfOpenActive < cfg.halfOpenMax
  }

  function TryHalfOpen(b: Breaker, cfg: Config, now: nat): Breaker {
    if MayProbe(b, cfg, now) then b.(phase := HalfOpen, halfOpenActive := b.halfOpenActive + 1) else b
  }

  /** A call runs its body unless the circuit is open and no probe may start. */
  predicate Admits(b: Breaker, cfg: Config, now: nat) {
    b.phase == Open ==> MayProbe(b, cfg, now)
  }

  function Begin(b: Breaker, cfg: Config, now: nat): Breaker {
    if b.phase == Closed then b.(closedRunning := b.closedRunning + 1)
    else if !Admits(b, cfg, now) then b
    else
      var t := TryHalfOpen(b, cfg, now);
      t.(probesRunning := t.probesRunning + 1)
  }

  function EndClosed(b: Breaker, cfg: Config, outcome: Outcome, now: nat): Breaker
    requires b.closedRunning > 0
  {
    var r := b.(closedRunning := b.closedRunning - 1);
    match outcome
    case Success => r.(failureCount := 0)
    case IgnoredFailure => r
    case CountedFailure =>
      var f := r.(failureCount := r.failureCount + 1);
      if f.failureCount >= cfg.threshold then Trip(f, now) else f
  }

  function EndProbe(b: Breaker, ok: bool, now: nat): Breaker
    requires b.probesRunning > 0
  {
    var r := b.(probesRunning := b.probesRunning - 1);
    if ok then Reset(r) else Trip(r.(halfOpenActive := r.halfOpenActive - 1), now)
  }

  // ----- runs -----

  predicate Enabled(b: Breaker, e: Event) {
    (e.ClosedEnds? ==> b.closedRunning > 0) && (e.ProbeEnds? ==> b.probesRunning > 0)
  }

  function Step(b: Breaker, cfg: Config, e: Event): Breaker
    requires Enabled(b, e)
  {
    match e
    case Arrive(now) => Begin(b, cfg, now)
    case ClosedEnds(outcome, now) => EndClosed(b, cfg, outcome, now)
    case ProbeEnds(ok, now) => EndProbe(b, ok, now)
    case ManualTrip(now) => Trip(b, now)
    case ManualReset(_) => Reset(b)
  }

  /** Only running calls complete. */
  predicate Possible(trace: seq<Event>, cfg: Config)
    decreases |trace|, 0
  {
    trace == [] || (var n := |trace| - 1;
                    Possible(trace[..n], cfg) && Enabled(After(trace[..n], cfg), trace[n]))
  }

  function After(trace: seq<Event>, cfg: Config): Breaker
    requires Possible(trace, cfg)
    decreases |trace|, 1
  {
    if trace == [] then INITIAL else Step(After(trace[..|trace| - 1], cfg), cfg, trace[|trace| - 1])
  }

  lemma {:induction false} OneMore(trace: seq<Event>, cfg: Config, e: Event)
    requires Possible(trace, cfg) && Enabled(After(trace, cfg), e)
    ensures Possible(trace + [e], cfg) && After(trace + [e], cfg) == Step(After(trace, cfg), cfg, e)
  {
    assert (trace + [e])[..|trace|] == trace;
  }

  // ----- every interleaving -----

  /** Counted failures of calls admitted while closed, since the last success or reset. */
  function ConsecutiveFailures(trace: seq<Event>): nat {
    if trace == [] then 0
    else
      var before := ConsecutiveFailures(trace[..|trace| - 1]);
      match trace[|trace| - 1]
      case ClosedEnds(Success, _) => 0
      case ClosedEnds(CountedFailure, _) => before + 1
      case ClosedEnds(IgnoredFailure, _) => before
      case ProbeEnds(ok, _) => if ok then 0 else before
      case ManualReset(_) => 0
      case _ => before
  }

  /** Time of the step that last took the circuit from another phase to open. */
  function LastOpening(trace: seq<Event>, cfg: Config): nat
    requires Possible(trace, cfg)
  {
    if trace == [] then 0
    else
      var n := |trace| - 1;
      if After(trace[..n], cfg).phase != Open && After(trace, cfg).phase == Open then trace[n].now
      else LastOpening(trace[..n], cfg)
  }

  /** What holds after every run. */
  ghost predicate Sound(trace: seq<Event>, cfg: Config)
    requires Possible(trace, cfg)
  {
    var b := After(trace, cfg);
    && b.failureCount == ConsecutiveFailures(trace)
    && (b.phase == Closed ==> b.failureCount < cfg.threshold)
    && b.halfOpenActive <= cfg.halfOpenMax
    && b.lastFailureTime == LastOpening(trace, cfg)
  }

  lemma {:induction false} EveryRunSound(trace: seq<Event>, cfg: Config)
    requires Possible(trace, cfg) && cfg.threshold >= 1
    ensures Sound(trace, cfg)
  {
    if trace != [] { EveryRunSound(trace[..|trace| - 1], cfg); }
  }

  /** A body that starts while the circuit is open starts no earlier than the timeout after the opening. */
  lemma {:induction false} ProbeWaits(trace: seq<Event>, cfg: Config, now: nat)
    requires Possible(trace, cfg) && cfg.threshold >= 1
    requires After(trace, cfg).phase == Open && Admits(After(trace, cfg), cfg, now)
    ensures now >= LastOpening(trace, cfg) + cfg.timeout
  {
    EveryRunSound(trace, cfg);
  }

  /**
   A call starts its body at once while closed and whenever half-open, and while open exactly if the timeout
   has passed since that opening and the half-open counter is below its maximum.
   */
  lemma {:induction false} AdmitsExactly(trace: seq<Event>, cfg: Config, now: nat)
    requires Possible(trace, cfg) && cfg.threshold >= 1
    ensures var b := After(trace, cfg);
            var started := b.phase == Closed || b.phase == HalfOpen
                           || (now >= LastOpening(trace, cfg) + cfg.timeout && b.halfOpenActive < cfg.halfOpenMax);
            && Possible(trace + [Arrive(now)], cfg)
            && var a := After(trace + [Arrive(now)], cfg);
               && a.closedRunning == b.closedRunning + (if b.phase == Closed then 1 else 0)
               && a.probesRunning == b.probesRunning + (if started && b.phase != Closed then 1 else 0)
               && (a.phase == HalfOpen <==> started && b.phase != Closed)
  {
    EveryRunSound(trace, cfg);
    OneMore(trace, cfg, Arrive(now));
  }

  predicate Ordered(trace: seq<Event>) {
    trace == [] || (var n := |trace| - 1; Ordered(trace[..n]) && LastTime(trace[..n]) <= trace[n].now)
  }

  function LastTime(trace: seq<Event>): nat {
    if trace == [] then 0 else trace[|trace| - 1].now
  }

  /** With a clock that never runs backwards, half-open is only ever seen after the timeout has elapsed. */
  lemma {:induction false} HalfOpenAfterTimeout(trace: seq<Event>, cfg: Config)
    requires Possible(trace, cfg) && cfg.threshold >= 1 && Ordered(trace)
    ensures After(trace, cfg).phase == HalfOpen ==> LastTime(trace) >= LastOpening(trace, cfg) + cfg.timeout
  {
    if trace != [] {
      HalfOpenAfterTimeout(trace[..|trace| - 1], cfg);
      EveryRunSound(trace[..|trace| - 1], cfg);
    }
  }

  /** From closed the circuit opens by itself exactly at the threshold-th consecutive counted failure. */
  lemma {:induction false} OpensExactlyAtThreshold(trace: seq<Event>, cfg: Config, e: Event)
    requires Possible(trace + [e], cfg) && cfg.threshold >= 1 && !e.ManualTrip?
    requires Possible(trace, cfg) && After(trace, cfg).phase == Closed
    ensures After(trace + [e], cfg).phase == Open <==>
              ConsecutiveFailures(trace + [e]) == cfg.threshold || (e.ProbeEnds? && !e.ok)
  {
    assert (trace + [e])[..|trace|] == trace;
    EveryRunSound(trace, cfg);
    EveryRunSound(trace + [e], cfg);
  }

  // ----- the cap on concurrent probes -----

  /** Steps that let the counter drift from the number of running probes. */
  predicate Drifts(b: Breaker, e: Event) {
    || (e.Arrive? && b.phase == HalfOpen)
    || (e.ManualReset? && b.probesRunning > 0)
    || (e.ProbeEnds? && e.ok && b.probesRunning > 1)
  }

  /** The counter keeps counting the running probes exactly as long as no step drifts. */
  lemma CounterExact(b: Breaker, cfg: Config, e: Event)
    requires Enabled(b, e) && b.halfOpenActive == b.probesRunning
    ensures Step(b, cfg, e).halfOpenActive == Step(b, cfg, e).probesRunning <==> !Drifts(b, e)
  {}

  predicate NoDrift(trace: seq<Event>, cfg: Config)
    requires Possible(trace, cfg)
  {
    trace == [] || (var n := |trace| - 1;
                    NoDrift(trace[..n], cfg) && !Drifts(After(trace[..n], cfg), trace[n]))
  }

  /** Where no step drifts the documented cap on concurrent probes holds. */
  lemma {:induction false} CapWithoutDrift(trace: seq<Event>, cfg: Config)
    requires Possible(trace, cfg) && cfg.threshold >= 1 && NoDrift(trace, cfg)
    ensures After(trace, cfg).probesRunning == After(trace, cfg).halfOpenActive <= cfg.halfOpenMax
  {
    EveryRunSound(trace, cfg);
    if trace != [] {
      var n := |trace| - 1;
      CapWithoutDrift(trace[..n], cfg);
      CounterExact(After(trace[..n], cfg), cfg, trace[n]);
    }
  }

  /** A trip, the timeout, and then `n` calls: the first opens half way, the others walk in behind it. */
  function Crowd(cfg: Config, n: nat): seq<Event> {
    if n == 0 then [ManualTrip(0)] else Crowd(cfg, n - 1) + [Arrive(cfg.timeout)]
  }

  lemma {:induction false} TripFirst(cfg: Config)
    ensures Possible([ManualTrip(0)], cfg)
    ensures After([ManualTrip(0)], cfg) == Breaker(Open, 0, 0, 0, 0, 0)
  {
    assert [] + [ManualTrip(0)] == [ManualTrip(0)];
    OneMore([], cfg, ManualTrip(0));
  }

  /** The breaker with `n` probes running, all let in by one opening. */
  function Crowded(n: nat): Breaker {
    if n == 0 then Breaker(Open, 0, 0, 0, 0, 0) else Breaker(HalfOpen, 0, 0, 1, 0, n)
  }

  lemma CrowdGrows(cfg: Config, n: nat)
    requires cfg.halfOpenMax >= 1
    ensures Step(Crowded(n), cfg, Arrive(cfg.timeout)) == Crowded(n + 1)
  {}

  lemma {:induction false} CrowdRuns(cfg: Config, n: nat)
    requires cfg.halfOpenMax >= 1
    ensures Possible(Crowd(cfg, n), cfg) && After(Crowd(cfg, n), cfg) == Crowded(n)
  {
    if n == 0 {
      TripFirst(cfg);
    } else {
      CrowdRuns(cfg, n - 1);
      CrowdGrows(cfg, n - 1);
      OneMore(Crowd(cfg, n - 1), cfg, Arrive(cfg.timeout));
    }
  }

  /** Hence no cap holds over all runs: any number of probes can run at once. */
  lemma {:induction false} CapFails(cfg: Config, n: nat)
    requires cfg.halfOpenMax >= 1
    ensures exists trace :: Possible(trace, cfg) && After(trace, cfg).probesRunning >= n
  {
    CrowdRuns(cfg, n);
  }

  /** Every prefix of the run, and the run itself, has at most the documented number of probes. */
  predicate WithinCap(trace: seq<Event>, cfg: Config)
    requires Possible(trace, cfg)
  {
    After(trace, cfg).probesRunning <= cfg.halfOpenMax && (trace == [] || WithinCap(trace[..|trace| - 1], cfg))
  }

  /** A call is let in although the cap is reached: the test that `call` does not make. */
  predicate Overfills(b: Breaker, cfg: Config, e: Event) {
    e.Arrive? && b.phase != Closed && Admits(b, cfg, e.now) && b.probesRunning >= cfg.halfOpenMax
  }

  predicate NeverOverfills(trace: seq<Event>, cfg: Config)
    requires Possible(trace, cfg)
  {
    trace == [] || (var n := |trace| - 1;
                    NeverOverfills(trace[..n], cfg) && !Overfills(After(trace[..n], cfg), cfg, trace[n]))
  }

  /** A run keeps the documented cap throughout exactly if it never lets a call in with the cap reached. */
  lemma {:induction false} CapExactlyPerRun(trace: seq<Event>, cfg: Config)
    requires Possible(trace, cfg)
    ensures WithinCap(trace, cfg) <==> NeverOverfills(trace, cfg)
  {
    if trace != [] {
      var n := |trace| - 1;
      CapExactlyPerRun(trace[..n], cfg);
      if WithinCap(trace[..n], cfg) { StepAgainstCap(After(trace[..n], cfg), cfg, trace[n]); }
    }
  }

  lemma StepAgainstCap(b: Breaker, cfg: Config, e: Event)
    requires Enabled(b, e) && b.probesRunning <= cfg.halfOpenMax
    ensures Step(b, cfg, e).probesRunning <= cfg.halfOpenMax <==> !Overfills(b, cfg, e)
  {}

  /** Without any half-open calls allowed, no probe ever starts. */
  lemma {:induction false} NoProbesAtZero(trace: seq<Event>, cfg: Config)
    requires Possible(trace, cfg) && cfg.halfOpenMax == 0
    ensures var b := After(trace, cfg); b.probesRunning == 0 && b.halfOpenActive == 0 && b.phase != HalfOpen
  {
    if trace != [] { NoProbesAtZero(trace[..|trace| - 1], cfg); }
  }

  /** The documented cap holds over all runs exactly for the configuration that allows no probe at all. */
  lemma {:induction false} CapExactly(cfg: Config)
    ensures (forall trace | Possible(trace, cfg) :: After(trace, cfg).probesRunning <= cfg.halfOpenMax)
            <==> cfg.halfOpenMax == 0
  {
    if cfg.halfOpenMax == 0 {
      forall trace | Possible(trace, cfg) ensures After(trace, cfg).probesRunning <= cfg.halfOpenMax {
        NoProbesAtZero(trace, cfg);
      }
    } else {
      CapFails(cfg, cfg.halfOpenMax + 1);
    }
  }

  /** The cap also fails without any arrival in half-open: a reset forgets the probe that is still running. */
  lemma ResetForgetsProbes(threshold: nat)
    ensures var cfg, run := Config(threshold, 0, 1),
                            [ManualTrip(0), Arrive(0), ManualReset(0), ManualTrip(0), Arrive(0)];
            Possible(run, cfg) && After(run, cfg).probesRunning == 2
  {
    var cfg := Config(threshold, 0, 1);
    TripFirst(cfg);
    var r1 := [ManualTrip(0)];
    var r2 := r1 + [Arrive(0)];
    var r3 := r2 + [ManualReset(0)];
    var r4 := r3 + [ManualTrip(0)];
    OneMore(r1, cfg, Arrive(0));
    OneMore(r2, cfg, ManualReset(0));
    OneMore(r3, cfg, ManualTrip(0));
    OneMore(r4, cfg, Arrive(0));
    assert r4 + [Arrive(0)] == [ManualTrip(0), Arrive(0), ManualReset(0), ManualTrip(0), Arrive(0)];
  }

  /** And when such a crowd fails, the counter goes negative. */
  function Collapse(cfg: Config, n: nat, k: nat): seq<Event> {
    if k == 0 then Crowd(cfg, n) else Collapse(cfg, n, k - 1) + [ProbeEnds(false, cfg.timeout)]
  }

  lemma {:induction false} CollapseGoesNegative(cfg: Config, n: nat, k: nat)
    requires cfg.halfOpenMax >= 1 && 1 <= k <= n
    ensures Possible(Collapse(cfg, n, k), cfg)
    ensures After(Collapse(cfg, n, k), cfg) == Breaker(Open, 0, cfg.timeout, 1 - k, 0, n - k)
  {
    if k == 1 { CrowdRuns(cfg, n); } else { CollapseGoesNegative(cfg, n, k - 1); }
    OneMore(Collapse(cfg, n, k - 1), cfg, ProbeEnds(false, cfg.timeout));
  }
}
