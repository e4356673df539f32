/** The circuit breaker as an object: its fields follow the steps of `BreakerMachine`. */
module CircuitBreaker {
  import opened BreakerMachine

  datatype Admission = RunClosed | RunProbe | Reject

  class CircuitBreaker {
    const cfg: Config
    var phase: Phase
    var failureCount: nat
    var lastFailureTime: nat
    var halfOpenActive: int
    ghost var closedRunning: nat
    ghost var probesRunning: nat
    ghost var history: seq<Event>

    /** The object stands where its history leads. */
    ghost predicate Valid()
      reads this
    {
      Possible(history, cfg) && State() == After(history, cfg)
    }

    ghost function State(): Breaker
      reads this
    {
      Breaker(phase, failureCount, lastFailureTime, halfOpenActive, closedRunning, probesRunning)
    }

    constructor (cfg: Config)
      ensures State() == INITIAL && this.cfg == cfg && Valid() && history == []
    {
      this.cfg := cfg;
      phase, failureCount, lastFailureTime, halfOpenActive := Closed, 0, 0, 0;
      closedRunning, probesRunning, history := 0, 0, [];
    }

    /** One turn of the event loop: a call arrives or ends, or the circuit is tripped or reset by hand. */
    method Handle(e: Event)
      requires Valid() && Enabled(State(), e)
      modifies this
      ensures Valid() && history == old(history) + [e]
    {
      OneMore(history, cfg, e);
      match e {
        case Arrive(now) => var a := Begin(now);
        case ClosedEnds(outcome, now) => EndClosed(outcome, now);
        case ProbeEnds(ok, now) => EndProbe(ok, now);
        case ManualTrip(now) => Trip(now);
        case ManualReset(_) => Reset();
      }
      history := history + [e];
    }

    /** Objects that stand where some history leads keep the counters and the clock in step. */
    lemma ValidIsSound()
      requires Valid() && cfg.threshold >= 1
      ensures Sound(history, cfg)
      ensures halfOpenActive <= cfg.halfOpenMax && (phase == Closed ==> failureCount < cfg.threshold)
      ensures probesRunning <= cfg.halfOpenMax || !NeverOverfills(history, cfg)
    {
      EveryRunSound(history, cfg);
      CapExactlyPerRun(history, cfg);
    }

    method Trip(now: nat)
      modifies this
      ensures State() == BreakerMachine.Trip(old(State()), now) && history == old(history)
    {
      if phase == Open { return; }
      phase := Open;
      lastFailureTime := now;
    }

    method Reset()
      modifies this
      ensures State() == BreakerMachine.Reset(old(State())) && history == old(history)
    {
      failureCount := 0;
      halfOpenActive := 0;
      if phase != Closed { phase := Closed; }
    }

    method TryHalfOpen(now: nat) returns (ok: bool)
      modifies this
      ensures ok == MayProbe(old(State()), cfg, now)
      ensures State() == BreakerMachine.TryHalfOpen(old(State()), cfg, now) && history == old(history)
    {
      if phase != Open { return false; }
      if now - lastFailureTime < cfg.timeout { return false; }
      if halfOpenActive >= cfg.halfOpenMax { return false; }
      phase := HalfOpen;
      halfOpenActive := halfOpenActive + 1;
      return true;
    }

    /** `call` up to its await. */
    method Begin(now: nat) returns (a: Admission)
      modifies this
      ensures State() == BreakerMachine.Begin(old(State()), cfg, now) && history == old(history)
      ensures a == (if old(phase) == Closed then RunClosed
                    else if Admits(old(State()), cfg, now) then RunProbe else Reject)
    {
      if phase == Closed {
        closedRunning := closedRunning + 1;
        return RunClosed;
      }
      if phase == Open {
        var ok := TryHalfOpen(now);
        if !ok { return Reject; }
      }
      probesRunning := probesRunning + 1;
      return RunProbe;
    }

    /** The rest of a call admitted while closed. */
    method EndClosed(outcome: Outcome, now: nat)
      requires closedRunning > 0
      modifies this
      ensures State() == BreakerMachine.EndClosed(old(State()), cfg, outcome, now) && history == old(history)
    {
      closedRunning := closedRunning - 1;
      match outcome
      case Success => failureCount := 0;
      case IgnoredFailure =>
      case CountedFailure =>
        failureCount := failureCount + 1;
        if failureCount >= cfg.threshold { Trip(now); }
    }

    /** The rest of a call admitted as a probe. */
    method EndProbe(ok: bool, now: nat)
      requires probesRunning > 0
      modifies this
      ensures State() == BreakerMachine.EndProbe(old(State()), ok, now) && history == old(history)
    {
      probesRunning := probesRunning - 1;
      if ok {
        Reset();
      } else {
        halfOpenActive := halfOpenActive - 1;
        Trip(now);
      }
    }
  }
}
