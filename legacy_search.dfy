/** The earlier local-search driver, src/algorithms/utils/abc_opt.py.

    It keeps the same state as LocalSearch.AbcOpt and runs the same optimize
    loop, but its optimize makes a new collector on every call and returns
    only the tour, and its tabu_optimize never enters its loop. The hash of
    src/algorithms/utils/hash.py is not part of this model; TourHash, the
    fingerprint of the later version, stands in for it. */
module LegacySearch {
  import opened Fingerprint
  import opened SearchRun

  class AbcOpt {
    var length: real
    var tour: seq<int>
    const strategy: (seq<int>, real) -> Step
    const measure: seq<int> -> real
    var solutions: Fingerprints
    const size: int
    var tabuList: TabuSet?
    var collector: Collector?

    /** AbcOpt.__init__: the hash set holds the hash of the starting tour and
        neither a tabu list nor a collector is installed. */
    constructor(length: real, tour: seq<int>, strategy: (seq<int>, real) -> Step, measure: seq<int> -> real)
      requires |tour| >= 2
      ensures this.length == length && this.tour == tour
      ensures this.strategy == strategy && this.measure == measure
      ensures fresh(solutions) && solutions.hashes == {TourHash(tour).value}
      ensures size == |tour| && tabuList == null && collector == null
    {
      this.length := length;
      this.tour := tour;
      this.strategy := strategy;
      this.measure := measure;
      solutions := new Fingerprints({TourHash(tour).value});
      size := |tour|;
      tabuList := null;
      collector := null;
    }

    /** One call of the abstract `improve`. */
    method Improve() returns (gain: real)
      modifies this`tour, this`length
      ensures Step(gain, tour, length) == strategy(old(tour), old(length))
    {
      var step := strategy(tour, length);
      gain, tour, length := step.gain, step.tour, step.length;
    }

    /** AbcOpt.optimize: installs a new collector holding the starting length
        with gain 0, then runs the loop of OptimizeLoop and returns the tour
        alone. */
    method Optimize() returns (status: Status, finalTour: seq<int>)
      modifies this, solutions
      ensures fresh(collector) && collector.samples == [Sample(old(length), 0.0)]
      ensures tabuList == old(tabuList) && solutions == old(solutions)
      ensures var run := OptimizeLoop(strategy, measure, TourHash, old(tour), old(length), 1.0, old(solutions.hashes));
        status == run.status && tour == run.tour && length == run.length && solutions.hashes == run.seen
      ensures finalTour == tour
    {
      var c := new Collector();
      c.Update(length, 0.0);
      collector := c;
      TourHashIsFingerprint();
      status, finalTour := OptimizeWith(TourHash);
    }

    /** The loop of optimize, hashing tours with `hash`. */
    method OptimizeWith(hash: seq<int> -> Result<int>) returns (status: Status, finalTour: seq<int>)
      requires IsFingerprint(hash)
      modifies this`tour, this`length, solutions
      ensures tabuList == old(tabuList) && solutions == old(solutions) && collector == old(collector)
      ensures var run := OptimizeLoop(strategy, measure, hash, old(tour), old(length), 1.0, old(solutions.hashes));
        status == run.status && tour == run.tour && length == run.length && solutions.hashes == run.seen
      ensures finalTour == tour
    {
      var gain: real := 1.0;
      ghost var run := OptimizeLoop(strategy, measure, hash, tour, length, gain, solutions.hashes);
      ghost var rounds: nat := 0;
      while gain > 0.0
        invariant Resumed(OptimizeLoop(strategy, measure, hash, tour, length, gain, solutions.hashes), rounds) == run
        decreases DefaultModule - |InRange(solutions.hashes)|
      {
        gain := Improve();
        rounds := rounds + 1;
        var h := hash(tour);
        assert HashesAt(hash, tour);
        if h.Failure? {
          return HashFailed, tour;
        }
        if h.value in solutions.hashes {
          return CycleDetected, tour;
        }
        InRangeGrows(solutions.hashes, h.value);
        InRangeBounded(solutions.hashes + {h.value});
        solutions.hashes := solutions.hashes + {h.value};
        if !Agree(measure(tour), length) {
          return LengthMismatch, tour;
        }
      }
      return Converged, tour;
    }

    /** AbcOpt.tabu_optimize: installs the tabu list and collector and records
        the current length with gain 0. Its loop runs while `best_change > 0`
        with `best_change` set to -1 beforehand, so it never runs: improve is
        not called and the tour and length are returned unchanged. */
    method TabuOptimize(tabu: TabuSet, coll: Collector) returns (finalTour: seq<int>)
      modifies this, coll
      ensures tabuList == tabu && collector == coll
      ensures tour == old(tour) && length == old(length)
      ensures solutions == old(solutions) && solutions.hashes == old(solutions.hashes)
      ensures tabu.data.hashes == old(tabu.data.hashes)
      ensures coll.samples == old(coll.samples) + [Sample(length, 0.0)]
      ensures finalTour == tour
    {
      var bestChange := -1;
      tabuList, collector := tabu, coll;
      coll.Update(length, 0.0);
      if bestChange > 0 {
        assert false;
      }
      return tour;
    }
  }
}
