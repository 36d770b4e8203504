/** What the local-search drivers of both abc_opt.py files share: the
    collaborators they call (the hash set, the metrics collector, the tabu
    list), the outcome of a run, and the two loops written as functions of
    the state they start from. The driver classes (modules LocalSearch and
    LegacySearch) are proved to end in exactly the state these functions give. */
module SearchRun {
  import opened Fingerprint

  /** What one call of `improve` reports (its gain) and leaves behind (the new
      tour and tracked length). */
  datatype Step = Step(gain: real, tour: seq<int>, length: real)

  /** How a driver loop ends. Converged, CycleDetected and TabuRejected are
      normal returns; LengthMismatch is the AssertionError of the length check;
      HashFailed is the IndexError generate_hash raises on a tour shorter than
      two nodes; BudgetExhausted ends a tabu-controlled run after its budget
      of rounds. */
  datatype Status =
    | Converged
    | CycleDetected
    | TabuRejected
    | LengthMismatch
    | HashFailed
    | BudgetExhausted

  /** The end state of a loop: the tour and tracked length, the loop's `gain`
      variable, the hash set, and how many times `improve` was called. */
  datatype Run = Run(status: Status, tour: seq<int>, length: real, gain: real, seen: set<int>, rounds: nat)

  /** A run that had already done k rounds before the one given started. */
  function Resumed(r: Run, k: nat): (r': Run)
    ensures r'.rounds == r.rounds + k
  {
    r.(rounds := r.rounds + k)
  }

  /** The gain below which meta_heuristic_optimize does not offer the tour to the tabu list. */
  const Epsilon: real := 0.0000000001

  /** Python's round(x, 2), as the whole number of hundredths, halves rounded up. */
  function Round2(x: real): (r: int) {
    (x * 100.0 + 0.5).Floor
  }

  /** Round2 gives the whole number of hundredths nearest to x. */
  lemma Round2IsNearestHundredth(x: real)
    ensures Round2(x) as real - 0.5 <= x * 100.0 < Round2(x) as real + 0.5
  {
  }

  /** The length check of both drivers: the recomputed and the tracked length
      agree once rounded to two decimals. */
  predicate Agree(recomputed: real, tracked: real) {
    Round2(recomputed) == Round2(tracked)
  }

  /** Agreeing lengths differ by less than 0.01, and equal lengths always agree. */
  lemma AgreementIsCloseness(recomputed: real, tracked: real)
    ensures Agree(recomputed, tracked) ==> -0.01 < recomputed - tracked < 0.01
    ensures recomputed == tracked ==> Agree(recomputed, tracked)
  {
    Round2IsNearestHundredth(recomputed);
    Round2IsNearestHundredth(tracked);
  }

  // ---------------------------------------------------------------------
  // Collaborators
  // ---------------------------------------------------------------------

  /** A Python set of tour hashes. It is an object: meta_heuristic_optimize
      makes the driver and the tabu list share one. */
  class Fingerprints {
    var hashes: set<int>

    constructor(hashes: set<int>)
      ensures this.hashes == hashes
    {
      this.hashes := hashes;
    }
  }

  datatype Sample = Sample(length: real, gain: real)

  /** The metrics collector: it only records what it is given. */
  class Collector {
    var samples: seq<Sample>

    constructor()
      ensures samples == []
    {
      samples := [];
    }

    method Update(length: real, gain: real)
      modifies this
      ensures samples == old(samples) + [Sample(length, gain)]
    {
      samples := samples + [Sample(length, gain)];
    }
  }

  /** The tabu list: a shared hash set `data` and an `append(length, tour)`
      whose decision and effect on `data` are its own policy. */
  class TabuSet {
    const data: Fingerprints
    const policy: (set<int>, real, seq<int>) -> (bool, set<int>)

    constructor(policy: (set<int>, real, seq<int>) -> (bool, set<int>))
      ensures fresh(data) && data.hashes == {} && this.policy == policy
    {
      data := new Fingerprints({});
      this.policy := policy;
    }

    method Append(length: real, tour: seq<int>) returns (accepted: bool)
      modifies data
      ensures (accepted, data.hashes) == policy(old(data.hashes), length, tour)
    {
      var outcome := policy(data.hashes, length, tour);
      accepted := outcome.0;
      data.hashes := outcome.1;
    }
  }

  // ---------------------------------------------------------------------
  // The hash set is bounded
  // ---------------------------------------------------------------------

  /** The hashes of s that generate_hash can produce. */
  function InRange(s: set<int>): (r: set<int>)
    ensures r <= s
    ensures forall h | h in s && 0 <= h < DefaultModule :: h in r
  {
    set h | h in s && 0 <= h < DefaultModule
  }

  /** A set of integers drawn from [0, m) has at most m elements. */
  lemma {:induction false} BoundedSetSize(s: set<int>, m: nat)
    requires forall h | h in s :: 0 <= h < m
    ensures |s| <= m
  {
    if m == 0 {
      assert forall h :: h !in s;
      assert s == {};
    } else {
      var s' := s - {m - 1};
      BoundedSetSize(s', m - 1);
      assert |s| <= |s'| + 1;
    }
  }

  lemma InRangeBounded(s: set<int>)
    ensures |InRange(s)| <= DefaultModule
  {
    BoundedSetSize(InRange(s), DefaultModule);
  }

  /** Adding a new hash of generate_hash's range adds one to the bounded part. */
  lemma InRangeGrows(s: set<int>, h: int)
    requires 0 <= h < DefaultModule && h !in s
    ensures InRange(s + {h}) == InRange(s) + {h}
    ensures |InRange(s + {h})| == |InRange(s)| + 1
  {
    assert InRange(s + {h}) == InRange(s) + {h};
  }

  // ---------------------------------------------------------------------
  // optimize
  // ---------------------------------------------------------------------

  /** What optimize relies on of generate_hash, for one tour t: it fails
      exactly when t has fewer than two nodes and otherwise lies in
      [0, DefaultModule). */
  ghost predicate HashesAt(hash: seq<int> -> Result<int>, t: seq<int>) {
    (hash(t).Failure? <==> |t| < 2) && (hash(t).Success? ==> 0 <= hash(t).value < DefaultModule)
  }

  /** ... and for every tour. */
  ghost predicate IsFingerprint(hash: seq<int> -> Result<int>) {
    forall t :: HashesAt(hash, t)
  }

  /** generate_hash with its defaults is such a fingerprint. */
  lemma TourHashIsFingerprint()
    ensures IsFingerprint(TourHash)
  {
  }

  /** The `while gain > 0` loop of optimize, from a state with the given tour,
      tracked length, value of `gain` and hash set, for a fingerprint `hash`
      (the drivers use TourHash). Each round calls improve, hashes the new
      tour, stops at a hash already in the set, otherwise adds it and checks
      the tracked length.

      Every round that does not stop adds a hash of [0, DefaultModule) that was
      not there before, so the loop cannot run forever. */
  function OptimizeLoop(strategy: (seq<int>, real) -> Step, measure: seq<int> -> real, hash: seq<int> -> Result<int>,
                        tour: seq<int>, length: real, gain: real, seen: set<int>): (r: Run)
    requires IsFingerprint(hash)
    ensures seen <= r.seen
    ensures r.status in {Converged, CycleDetected, LengthMismatch, HashFailed}
    ensures gain > 0.0 ==> r.rounds >= 1
    ensures |r.seen| == |seen| + r.rounds - (if r.status in {CycleDetected, HashFailed} then 1 else 0)
    ensures |InRange(seen)| + r.rounds <= |InRange(r.seen)| + 1
    ensures r.status == Converged ==> r.gain <= 0.0
    ensures r.status == Converged && r.rounds > 0 ==> Agree(measure(r.tour), r.length)
    ensures r.status == LengthMismatch ==> !Agree(measure(r.tour), r.length)
    ensures r.status == HashFailed ==> |r.tour| < 2
    decreases DefaultModule - |InRange(seen)|
  {
    if gain <= 0.0 then Run(Converged, tour, length, gain, seen, 0)
    else
      var step := strategy(tour, length);
      assert HashesAt(hash, step.tour);
      match hash(step.tour)
      case Failure(_) => Run(HashFailed, step.tour, step.length, step.gain, seen, 1)
      case Success(h) =>
        if h in seen then Run(CycleDetected, step.tour, step.length, step.gain, seen, 1)
        else
          InRangeGrows(seen, h);
          if !Agree(measure(step.tour), step.length) then
            Run(LengthMismatch, step.tour, step.length, step.gain, seen + {h}, 1)
          else
            InRangeBounded(seen + {h});
            Resumed(OptimizeLoop(strategy, measure, hash, step.tour, step.length, step.gain, seen + {h}), 1)
  }

  /** When optimize stops on a repeated tour, or converges after at least one
      round, the hash of the final tour is in the set: the set records every
      tour the loop has seen. */
  lemma {:induction false} OptimizeRecordsFinalTour(strategy: (seq<int>, real) -> Step, measure: seq<int> -> real, hash: seq<int> -> Result<int>,
                                                    tour: seq<int>, length: real, gain: real, seen: set<int>)
    requires IsFingerprint(hash)
    ensures var r := OptimizeLoop(strategy, measure, hash, tour, length, gain, seen);
      (r.status == CycleDetected || (r.status == Converged && r.rounds > 0)) ==>
        hash(r.tour).Success? && hash(r.tour).value in r.seen
    decreases DefaultModule - |InRange(seen)|
  {
    if gain > 0.0 {
      var step := strategy(tour, length);
      assert HashesAt(hash, step.tour);
      match hash(step.tour)
      case Failure(_) =>
      case Success(h) =>
        if h !in seen && Agree(measure(step.tour), step.length) {
          InRangeGrows(seen, h);
          InRangeBounded(seen + {h});
          OptimizeRecordsFinalTour(strategy, measure, hash, step.tour, step.length, step.gain, seen + {h});
        }
    }
  }

  /** optimize calls improve at most DefaultModule + 1 times. */
  lemma OptimizeTerminates(strategy: (seq<int>, real) -> Step, measure: seq<int> -> real, hash: seq<int> -> Result<int>,
                           tour: seq<int>, length: real, gain: real, seen: set<int>)
    requires IsFingerprint(hash)
    ensures OptimizeLoop(strategy, measure, hash, tour, length, gain, seen).rounds
            <= DefaultModule - |InRange(seen)| + 1
  {
    InRangeBounded(OptimizeLoop(strategy, measure, hash, tour, length, gain, seen).seen);
  }

  /** A search that has run out of moves usually reports gain 0 and leaves the
      tour as it was. That tour's hash is already in the set, so optimize stops
      with CycleDetected rather than Converged. */
  lemma StalledTourIsACycle(strategy: (seq<int>, real) -> Step, measure: seq<int> -> real, hash: seq<int> -> Result<int>,
                            tour: seq<int>, length: real, seen: set<int>)
    requires IsFingerprint(hash)
    requires strategy(tour, length).gain <= 0.0 && strategy(tour, length).tour == tour
    requires hash(tour).Success? && hash(tour).value in seen
    ensures OptimizeLoop(strategy, measure, hash, tour, length, 1.0, seen).status == CycleDetected
  {
  }

  /** improve never makes the tracked length longer. */
  ghost predicate NeverLengthens(strategy: (seq<int>, real) -> Step) {
    forall t, l :: strategy(t, l).length <= l
  }

  /** When improve never lengthens the tour, optimize returns a length no
      greater than the one it started from. */
  lemma {:induction false} OptimizeNeverLengthens(strategy: (seq<int>, real) -> Step, measure: seq<int> -> real, hash: seq<int> -> Result<int>,
                                                  tour: seq<int>, length: real, gain: real, seen: set<int>)
    requires IsFingerprint(hash)
    requires NeverLengthens(strategy)
    ensures OptimizeLoop(strategy, measure, hash, tour, length, gain, seen).length <= length
    decreases DefaultModule - |InRange(seen)|
  {
    if gain > 0.0 {
      var step := strategy(tour, length);
      assert HashesAt(hash, step.tour);
      match hash(step.tour)
      case Failure(_) =>
      case Success(h) =>
        if h !in seen && Agree(measure(step.tour), step.length) {
          InRangeGrows(seen, h);
          InRangeBounded(seen + {h});
          OptimizeNeverLengthens(strategy, measure, hash, step.tour, step.length, step.gain, seen + {h});
        }
    }
  }

  // ---------------------------------------------------------------------
  // meta_heuristic_optimize
  // ---------------------------------------------------------------------

  /** The `while gain > 0` loop of meta_heuristic_optimize, with at most
      `budget` further rounds. Each round calls improve; when the gain exceeds
      Epsilon the tour is offered to the tabu list (`policy`), and a refusal
      ends the run; otherwise the tracked length is checked. */
  function MetaLoop(strategy: (seq<int>, real) -> Step, measure: seq<int> -> real,
                    policy: (set<int>, real, seq<int>) -> (bool, set<int>),
                    tour: seq<int>, length: real, gain: real, seen: set<int>, budget: nat): (r: Run)
    ensures r.rounds <= budget
    ensures r.status in {Converged, TabuRejected, LengthMismatch, BudgetExhausted}
    ensures r.status == Converged ==> r.gain <= 0.0
    ensures r.status == Converged && r.rounds > 0 ==> Agree(measure(r.tour), r.length)
    ensures r.status == TabuRejected ==> r.gain > Epsilon
    ensures r.status == LengthMismatch ==> !Agree(measure(r.tour), r.length)
    ensures r.status == BudgetExhausted ==> r.rounds == budget && r.gain > 0.0
    decreases budget
  {
    if gain <= 0.0 then Run(Converged, tour, length, gain, seen, 0)
    else if budget == 0 then Run(BudgetExhausted, tour, length, gain, seen, 0)
    else
      var step := strategy(tour, length);
      var offered := if step.gain > Epsilon then policy(seen, step.length, step.tour) else (true, seen);
      if !offered.0 then Run(TabuRejected, step.tour, step.length, step.gain, offered.1, 1)
      else if !Agree(measure(step.tour), step.length) then
        Run(LengthMismatch, step.tour, step.length, step.gain, offered.1, 1)
      else
        Resumed(MetaLoop(strategy, measure, policy, step.tour, step.length, step.gain, offered.1, budget - 1), 1)
  }

  /** The budget only bounds the run: a run that ended within budget b ends
      the same way with any larger budget. */
  lemma {:induction false} MetaBudgetIsOnlyABound(strategy: (seq<int>, real) -> Step, measure: seq<int> -> real,
                                                  policy: (set<int>, real, seq<int>) -> (bool, set<int>),
                                                  tour: seq<int>, length: real, gain: real, seen: set<int>,
                                                  b: nat, b': nat)
    requires b <= b'
    requires MetaLoop(strategy, measure, policy, tour, length, gain, seen, b).status != BudgetExhausted
    ensures MetaLoop(strategy, measure, policy, tour, length, gain, seen, b')
         == MetaLoop(strategy, measure, policy, tour, length, gain, seen, b)
    decreases b
  {
    if gain > 0.0 {
      var step := strategy(tour, length);
      var offered := if step.gain > Epsilon then policy(seen, step.length, step.tour) else (true, seen);
      if offered.0 && Agree(measure(step.tour), step.length) {
        MetaBudgetIsOnlyABound(strategy, measure, policy, step.tour, step.length, step.gain, offered.1, b - 1, b' - 1);
      }
    }
  }

  /** The tabu list is consulted only for gains above Epsilon: if improve
      never gains more, the run is never refused and the shared set is left
      as it was. */
  lemma {:induction false} MetaSmallGainsSkipTabu(strategy: (seq<int>, real) -> Step, measure: seq<int> -> real,
                                                  policy: (set<int>, real, seq<int>) -> (bool, set<int>),
                                                  tour: seq<int>, length: real, gain: real, seen: set<int>, budget: nat)
    requires forall t, l :: strategy(t, l).gain <= Epsilon
    ensures MetaLoop(strategy, measure, policy, tour, length, gain, seen, budget).status != TabuRejected
    ensures MetaLoop(strategy, measure, policy, tour, length, gain, seen, budget).seen == seen
    decreases budget
  {
    if gain > 0.0 && budget > 0 {
      var step := strategy(tour, length);
      if Agree(measure(step.tour), step.length) {
        MetaSmallGainsSkipTabu(strategy, measure, policy, step.tour, step.length, step.gain, seen, budget - 1);
      }
    }
  }
}
