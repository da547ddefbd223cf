/** `config/metrics.py`: a request counter and a latency histogram, updated one after the other by concurrent
    requests. */
module Metrics {

  /** The labels both metrics share. */
  datatype Series = Series(verb: string, view: string)

  /** A status code; Django refuses others. */
  type Status = x: nat | 100 <= x < 600 witness 200

  datatype Sample = Sample(series: Series, status: Status)

  /** How the request ended below the metrics middleware. */
  datatype Outcome = Returned(status: Status) | Raised

  function StatusOf(outcome: Outcome): Status {
    if outcome.Raised? then 500 else outcome.status
  }

  function At<K>(m: map<K, nat>, k: K): nat {
    if k in m then m[k] else 0
  }

  function Bump<K>(m: map<K, nat>, k: K): map<K, nat> {
    m[k := At(m, k) + 1]
  }

  // ----- One request on its own -----

  class Registry {
    var counts: map<Sample, nat>
    var observed: map<Series, nat>

    constructor ()
      ensures counts == map[] && observed == map[]
    {
      counts, observed := map[], map[];
    }

    method Inc(sample: Sample)
      modifies this`counts
      ensures counts == Bump(old(counts), sample)
    {
      counts := counts[sample := At(counts, sample) + 1];
    }

    method Observe(series: Series)
      modifies this`observed
      ensures observed == Bump(old(observed), series)
    {
      observed := observed[series := At(observed, series) + 1];
    }

    /** `_track_request_metrics` */
    method Track(series: Series, status: Status)
      modifies this
      ensures counts == Bump(old(counts), Sample(series, status)) && observed == Bump(old(observed), series)
    {
      Inc(Sample(series, status));
      Observe(series);
    }

    /** `MetricsMiddleware.__call__` around a request that ends with `outcome`: the outcome is passed on, raised
        or returned, and with metrics on it is tracked once, as status 500 when it was raised. */
    method Handle(enabled: bool, series: Series, outcome: Outcome) returns (passed: Outcome)
      modifies this
      ensures passed == outcome
      ensures !enabled ==> counts == old(counts) && observed == old(observed)
      ensures enabled ==> counts == Bump(old(counts), Sample(series, if outcome.Raised? then 500 else outcome.status))
      ensures enabled ==> observed == Bump(old(observed), series)
    {
      if !enabled {
        return outcome;
      }
      match outcome {
        case Raised => Track(series, 500);
        case Returned(status) => Track(series, status);
      }
      passed := outcome;
    }
  }

  // ----- Concurrent requests -----

  /** Where a worker is: below the middleware, about to count, or between the count and the observation. */
  datatype Phase =
    | Idle
    | Below(enabled: bool)
    | Ended(sample: Sample)
    | Counted(series: Series)

  /** `log` lists what requests with metrics on ended with, kept to state the invariant. */
  datatype State = State(workers: map<nat, Phase>, counts: map<Sample, nat>, observed: map<Series, nat>,
                         log: seq<Sample>)

  datatype Event =
    | Start(worker: nat, enabled: bool)
    | Finish(worker: nat, series: Series, outcome: Outcome)
    | CountIt(worker: nat)
    | ObserveIt(worker: nat)

  function PhaseOf(workers: map<nat, Phase>, w: nat): Phase {
    if w in workers then workers[w] else Idle
  }

  /** One atomic update. Steps a worker is not ready for do nothing. */
  function Step(s: State, e: Event): State {
    var phase := PhaseOf(s.workers, e.worker);
    match e
    case Start(w, enabled) =>
      if phase.Idle? then s.(workers := s.workers[w := Below(enabled)]) else s
    case Finish(w, series, outcome) =>
      if !phase.Below? then s
      else if !phase.enabled then s.(workers := s.workers[w := Idle])
      else
        var sample := Sample(series, StatusOf(outcome));
        s.(workers := s.workers[w := Ended(sample)], log := s.log + [sample])
    case CountIt(w) =>
      if !phase.Ended? then s
      else s.(workers := s.workers[w := Counted(phase.sample.series)], counts := Bump(s.counts, phase.sample))
    case ObserveIt(w) =>
      if !phase.Counted? then s
      else s.(workers := s.workers[w := Idle], observed := Bump(s.observed, phase.series))
  }

  function Run(s: State, es: seq<Event>): State
    decreases |es|
  {
    if es == [] then s else Run(Step(s, es[0]), es[1..])
  }

  /** The workers in a phase. */
  function In(workers: map<nat, Phase>, phase: Phase): set<nat> {
    set w | w in workers && workers[w] == phase
  }

  lemma MoveWorker(workers: map<nat, Phase>, w: nat, to: Phase, phase: Phase)
    requires phase != Idle && to != PhaseOf(workers, w)
    ensures |In(workers[w := to], phase)|
         == |In(workers, phase)| + (if phase == to then 1 else 0) - (if phase == PhaseOf(workers, w) then 1 else 0)
  {
    var before, after := In(workers, phase), In(workers[w := to], phase);
    if phase == to {
      assert after == before + {w} && w !in before;
    } else if phase == PhaseOf(workers, w) {
      assert after == before - {w} && w in before;
    } else {
      assert after == before;
    }
  }

  // ----- Totals -----

  /** The counter of a series summed over the statuses below `hi`. */
  function CountBelow(counts: map<Sample, nat>, series: Series, hi: nat): nat
    requires hi <= 600
  {
    if hi <= 100 then 0 else At(counts, Sample(series, hi - 1)) + CountBelow(counts, series, hi - 1)
  }

  function Count(counts: map<Sample, nat>, series: Series): nat {
    CountBelow(counts, series, 600)
  }

  function Occurrences(log: seq<Sample>, sample: Sample): nat {
    multiset(log)[sample]
  }

  /** The requests of a series in the log. */
  function Finished(log: seq<Sample>, series: Series): nat {
    if log == [] then 0
    else Finished(log[..|log| - 1], series) + if log[|log| - 1].series == series then 1 else 0
  }

  lemma {:induction false} BumpCountBelow(counts: map<Sample, nat>, sample: Sample, series: Series, hi: nat)
    requires hi <= 600
    ensures CountBelow(Bump(counts, sample), series, hi)
         == CountBelow(counts, series, hi) + if sample.series == series && sample.status < hi then 1 else 0
  {
    if hi > 100 {
      BumpCountBelow(counts, sample, series, hi - 1);
    }
  }

  lemma {:induction false} SameCounts(a: map<Sample, nat>, b: map<Sample, nat>, series: Series, hi: nat)
    requires hi <= 600 && forall sample :: At(a, sample) == At(b, sample)
    ensures CountBelow(a, series, hi) == CountBelow(b, series, hi)
  {
    if hi > 100 {
      SameCounts(a, b, series, hi - 1);
    }
  }

  /** The counter that was bumped once for every sample in the log. */
  ghost function Tally(log: seq<Sample>): map<Sample, nat> {
    if log == [] then map[] else Bump(Tally(log[..|log| - 1]), log[|log| - 1])
  }

  lemma {:induction false} NothingCounted(series: Series, hi: nat)
    requires hi <= 600
    ensures CountBelow(map[], series, hi) == 0
  {
    if hi > 100 {
      NothingCounted(series, hi - 1);
    }
  }

  lemma {:induction false} TallyCounts(log: seq<Sample>, series: Series)
    ensures forall sample :: At(Tally(log), sample) == Occurrences(log, sample)
    ensures Count(Tally(log), series) == Finished(log, series)
    decreases |log|
  {
    if log == [] {
      NothingCounted(series, 600);
    } else {
      var n := |log| - 1;
      TallyCounts(log[..n], series);
      BumpCountBelow(Tally(log[..n]), log[n], series, 600);
      assert log == log[..n] + [log[n]];
      assert multiset(log) == multiset(log[..n]) + multiset{log[n]};
      forall sample
        ensures At(Tally(log), sample) == Occurrences(log, sample)
      {
        assert At(Tally(log[..n]), sample) == Occurrences(log[..n], sample);
      }
    }
  }

  // ----- Conservation -----

  /** What ended is counted or about to be, and what is counted is observed or about to be. */
  ghost predicate Conserved(s: State) {
    && (forall sample :: Occurrences(s.log, sample) == At(s.counts, sample) + |In(s.workers, Ended(sample))|)
    && (forall series :: Count(s.counts, series) == At(s.observed, series) + |In(s.workers, Counted(series))|)
  }

  lemma StepConservesEnded(s: State, e: Event, sample: Sample)
    requires Occurrences(s.log, sample) == At(s.counts, sample) + |In(s.workers, Ended(sample))|
    ensures var s' := Step(s, e);
            Occurrences(s'.log, sample) == At(s'.counts, sample) + |In(s'.workers, Ended(sample))|
  {
    var s' := Step(s, e);
    if s' != s {
      MoveWorker(s.workers, e.worker, s'.workers[e.worker], Ended(sample));
    }
  }

  lemma StepConservesCounted(s: State, e: Event, series: Series)
    requires Count(s.counts, series) == At(s.observed, series) + |In(s.workers, Counted(series))|
    ensures var s' := Step(s, e);
            Count(s'.counts, series) == At(s'.observed, series) + |In(s'.workers, Counted(series))|
  {
    var s' := Step(s, e);
    if s' != s {
      MoveWorker(s.workers, e.worker, s'.workers[e.worker], Counted(series));
      if e.CountIt? {
        BumpCountBelow(s.counts, s.workers[e.worker].sample, series, 600);
      }
    }
  }

  lemma StepConserves(s: State, e: Event)
    requires Conserved(s)
    ensures Conserved(Step(s, e))
  {
    forall sample {
      StepConservesEnded(s, e, sample);
    }
    forall series {
      StepConservesCounted(s, e, series);
    }
  }

  /** At every step of any interleaving, per method and view: the counter summed over the statuses is the number
      of observations plus the requests between the two updates; and per status too the counter is the number
      of requests that ended that way less those about to be counted. */
  lemma {:induction false} ConservedAlways(s: State, es: seq<Event>)
    requires Conserved(s)
    ensures Conserved(Run(s, es))
    decreases |es|
  {
    if es != [] {
      StepConserves(s, es[0]);
      ConservedAlways(Step(s, es[0]), es[1..]);
    }
  }

  ghost predicate AtRest(s: State) {
    forall w | w in s.workers :: s.workers[w].Idle? || s.workers[w].Below?
  }

  /** When no request is being tracked, counter and histogram both hold exactly the requests that ended with
      metrics on, returned or raised. */
  lemma AgreeAtRest(s: State, es: seq<Event>, series: Series)
    requires Conserved(s) && AtRest(Run(s, es))
    ensures var s' := Run(s, es);
            Count(s'.counts, series) == At(s'.observed, series) == Finished(s'.log, series)
  {
    var s' := Run(s, es);
    ConservedAlways(s, es);
    assert In(s'.workers, Counted(series)) == {};
    TallyCounts(s'.log, series);
    forall sample
      ensures At(s'.counts, sample) == At(Tally(s'.log), sample)
    {
      assert In(s'.workers, Ended(sample)) == {};
    }
    SameCounts(s'.counts, Tally(s'.log), series, 600);
  }

  /** A process starts conserved. */
  lemma StartIsConserved()
    ensures Conserved(State(map[], map[], map[], []))
  {
    forall sample
      ensures In(map[], Ended(sample)) == {}
    {
    }
    forall series
      ensures Count(map[], series) == 0 && In(map[], Counted(series)) == {}
    {
      NothingCounted(series, 600);
    }
  }

  /** A request that nothing interleaves with leaves the metrics as the sequential middleware leaves them. */
  lemma UninterruptedRequest(s: State, w: nat, enabled: bool, series: Series, outcome: Outcome)
    requires PhaseOf(s.workers, w) == Idle
    ensures var s' := Run(s, [Start(w, enabled), Finish(w, series, outcome), CountIt(w), ObserveIt(w)]);
            && PhaseOf(s'.workers, w) == Idle
            && s'.counts == (if !enabled then s.counts
                             else Bump(s.counts, Sample(series, if outcome.Raised? then 500 else outcome.status)))
            && s'.observed == (if enabled then Bump(s.observed, series) else s.observed)
  {
    var all := [Start(w, enabled), Finish(w, series, outcome), CountIt(w), ObserveIt(w)];
    var s1 := Step(s, all[0]);
    var s2 := Step(s1, all[1]);
    var s3 := Step(s2, all[2]);
    var s4 := Step(s3, all[3]);
    assert all[1..] == [all[1], all[2], all[3]] && all[1..][1..] == [all[2], all[3]];
    assert all[1..][1..][1..] == [all[3]] && all[1..][1..][1..][1..] == [];
    assert Run(s3, [all[3]]) == Run(s4, []) == s4;
    assert Run(s2, [all[2], all[3]]) == Run(s3, [all[3]]);
    assert Run(s1, all[1..]) == Run(s2, [all[2], all[3]]);
  }
}
