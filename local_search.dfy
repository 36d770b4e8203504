/** The local-search driver of lin_kernighan/algorithms/utils/abc_opt.py.

    AbcOpt holds a tour, its tracked length and the set of hashes of the tours
    seen so far. Its `improve` hook is abstract in the source; here it is the
    `strategy` fixed at construction, which maps the current tour and length to
    the gain it reports and the tour and length it leaves. The length the
    driver recomputes from the weight matrix is `measure`. */
module LocalSearch {
  import opened Fingerprint
  import opened SearchRun

  class AbcOpt {
    var length: real
    var tour: seq<int>
    const strategy: (seq<int>, real) -> Step
    const measure: seq<int> -> real
    var solutions: Fingerprints
    const size: int
    var tabuList: TabuSet?
    var collector: Collector?

    /** AbcOpt.__init__: the hash set holds the hash of the starting tour, no
        tabu list is installed, and a collector exists, holding the starting
        length with gain 0, exactly when `collect` is set. */
    constructor(length: real, tour: seq<int>, strategy: (seq<int>, real) -> Step,
                measure: seq<int> -> real, collect: bool)
      requires |tour| >= 2
      ensures this.length == length && this.tour == tour
      ensures this.strategy == strategy && this.measure == measure
      ensures fresh(solutions) && solutions.hashes == {TourHash(tour).value}
      ensures size == |tour| && tabuList == null
      ensures collector != null <==> collect
      ensures collector != null ==> fresh(collector) && collector.samples == [Sample(length, 0.0)]
    {
      this.length := length;
      this.tour := tour;
      this.strategy := strategy;
      this.measure := measure;
      solutions := new Fingerprints({TourHash(tour).value});
      size := |tour|;
      tabuList := null;
      if collect {
        var c := new Collector();
        c.Update(length, 0.0);
        collector := c;
      } else {
        collector := null;
      }
    }

    /** One call of the abstract `improve`: it moves to the tour and tracked
        length the strategy gives and returns the gain. */
    method Improve() returns (gain: real)
      modifies this`tour, this`length
      ensures Step(gain, tour, length) == strategy(old(tour), old(length))
    {
      var step := strategy(tour, length);
      gain, tour, length := step.gain, step.tour, step.length;
    }

    /** AbcOpt.optimize: improves until the gain is not positive or a tour
        comes back, adding each new tour's hash to `solutions` and checking the
        tracked length after each round. It ends in the state OptimizeLoop
        gives and returns the current length and tour. */
    method Optimize() returns (status: Status, finalLength: real, finalTour: seq<int>)
      modifies this`tour, this`length, solutions
      ensures var run := OptimizeLoop(strategy, measure, TourHash, old(tour), old(length), 1.0, old(solutions.hashes));
        status == run.status && tour == run.tour && length == run.length && solutions.hashes == run.seen
      ensures finalLength == length && finalTour == tour
    {
      TourHashIsFingerprint();
      status, finalLength, finalTour := OptimizeWith(TourHash);
    }

    /** The loop of optimize, hashing tours with `hash`. */
    method OptimizeWith(hash: seq<int> -> Result<int>) returns (status: Status, finalLength: real, finalTour: seq<int>)
      requires IsFingerprint(hash)
      modifies this`tour, this`length, solutions
      ensures var run := OptimizeLoop(strategy, measure, hash, old(tour), old(length), 1.0, old(solutions.hashes));
        status == run.status && tour == run.tour && length == run.length && solutions.hashes == run.seen
      ensures finalLength == length && finalTour == tour
    {
      var gain: real := 1.0;
      ghost var run := OptimizeLoop(strategy, measure, hash, tour, length, gain, solutions.hashes);
      ghost var rounds: nat := 0;
      while gain > 0.0
        invariant Resumed(OptimizeLoop(strategy, measure, hash, tour, length, gain, solutions.hashes), rounds) == run
        decreases DefaultModule - |InRange(solutions.hashes)|
      {
        gain := Improve();
        rounds := rounds + 1;
        var h := hash(tour);
        assert HashesAt(hash, tour);
        if h.Failure? {
          return HashFailed, length, tour;
        }
        if h.value in solutions.hashes {
          return CycleDetected, length, tour;
        }
        InRangeGrows(solutions.hashes, h.value);
        InRangeBounded(solutions.hashes + {h.value});
        solutions.hashes := solutions.hashes + {h.value};
        if !Agree(measure(tour), length) {
          return LengthMismatch, length, tour;
        }
      }
      return Converged, length, tour;
    }

    /** AbcOpt.meta_heuristic_optimize, run for at most `budget` rounds: it
        installs the tabu list and collector, makes `solutions` the tabu list's
        own set, and improves until the gain is not positive; a gain above
        Epsilon is offered to the tabu list, whose refusal ends the run. It ends
        in the state MetaLoop gives and returns the current length and tour. */
    method MetaHeuristicOptimize(tabu: TabuSet, coll: Collector?, budget: nat)
      returns (status: Status, finalLength: real, finalTour: seq<int>)
      modifies this, tabu.data
      ensures tabuList == tabu && collector == coll && solutions == tabu.data
      ensures var run := MetaLoop(strategy, measure, tabu.policy, old(tour), old(length), 1.0,
                                  old(tabu.data.hashes), budget);
        status == run.status && tour == run.tour && length == run.length && tabu.data.hashes == run.seen
      ensures finalLength == length && finalTour == tour
    {
      var gain: real := 1.0;
      tabuList, collector := tabu, coll;
      solutions := tabu.data;
      ghost var run := MetaLoop(strategy, measure, tabu.policy, tour, length, gain, tabu.data.hashes, budget);
      var rounds: nat := 0;
      while gain > 0.0 && rounds < budget
        invariant rounds <= budget
        invariant tabuList == tabu && collector == coll && solutions == tabu.data
        invariant Resumed(MetaLoop(strategy, measure, tabu.policy, tour, length, gain, tabu.data.hashes,
                                   budget - rounds), rounds) == run
        decreases budget - rounds
      {
        ghost var before := MetaLoop(strategy, measure, tabu.policy, tour, length, gain, tabu.data.hashes,
                                     budget - rounds);
        gain := Improve();
        rounds := rounds + 1;
        if gain > Epsilon {
          var accepted := tabu.Append(length, tour);
          if !accepted {
            return TabuRejected, length, tour;
          }
        }
        if !Agree(measure(tour), length) {
          return LengthMismatch, length, tour;
        }
        assert before == Resumed(MetaLoop(strategy, measure, tabu.policy, tour, length, gain, tabu.data.hashes,
                                          budget - rounds), 1);
      }
      status := if gain > 0.0 then BudgetExhausted else Converged;
      return status, length, tour;
    }
  }
}
