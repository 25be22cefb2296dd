/** Hill climbing for the travelling salesman problem.  A tour visits every
    city once and returns to its start; a neighbour exchanges two cities of
    the tour; a neighbour is taken only when it is strictly shorter.  The
    random shuffle and the random pairs of positions are inputs here. */
module TravellingSalesman {

  /** `distances` is a square matrix with one row per city. */
  ghost predicate Square(distances: seq<seq<int>>)
  {
    forall a :: 0 <= a < |distances| ==> |distances[a]| == |distances|
  }

  /** `tour` lists each of the cities 0 .. n-1 exactly once. */
  ghost predicate IsTour(tour: seq<int>, n: nat)
  {
    |tour| == n &&
    (forall k :: 0 <= k < n ==> 0 <= tour[k] < n) &&
    (forall k, l :: 0 <= k < l < n ==> tour[k] != tour[l])
  }

  /** Every city of `tour` has a row and a column in `distances`. */
  ghost predicate OnMatrix(tour: seq<int>, distances: seq<seq<int>>)
  {
    Square(distances) && forall k :: 0 <= k < |tour| ==> 0 <= tour[k] < |distances|
  }

  /** The position after `i` on a round trip of `n` cities. */
  function Next(i: nat, n: nat): nat
  {
    if i + 1 < n then i + 1 else 0
  }

  /** The program finds the next position as `(i + 1) % n`. */
  lemma NextIsMod(i: nat, n: nat)
    requires i < n
    ensures (i + 1) % n == Next(i, n)
  {
  }

  /** Leg `i` of the round trip: from the `i`-th city to the next one, the
      last leg going back to the first city. */
  function Leg(tour: seq<int>, distances: seq<seq<int>>, i: nat): int
    requires OnMatrix(tour, distances) && i < |tour|
  {
    distances[tour[i]][tour[Next(i, |tour|)]]
  }

  /** The sum of the first `k` legs. */
  function CostUpTo(tour: seq<int>, distances: seq<seq<int>>, k: nat): int
    requires OnMatrix(tour, distances) && k <= |tour|
  {
    if k == 0 then 0 else CostUpTo(tour, distances, k - 1) + Leg(tour, distances, k - 1)
  }

  /** The length of the round trip: all legs, the closing one included. */
  function TourCost(tour: seq<int>, distances: seq<seq<int>>): int
    requires OnMatrix(tour, distances)
  {
    CostUpTo(tour, distances, |tour|)
  }

  /** The accumulator loop that sums the legs computes the tour's length. */
  method CalculateTotalDistance(tour: seq<int>, distances: seq<seq<int>>) returns (total: int)
    requires OnMatrix(tour, distances)
    ensures total == TourCost(tour, distances)
  {
    total := 0;
    var numCities := |tour|;
    for i := 0 to numCities
      invariant total == CostUpTo(tour, distances, i)
    {
      var fromCity := tour[i];
      NextIsMod(i, numCities);
      var toCity := tour[(i + 1) % numCities];
      total := total + distances[fromCity][toCity];
    }
  }

  /** The tour starting one city later. */
  function Rotate(tour: seq<int>): (r: seq<int>)
    requires |tour| > 0
    ensures |r| == |tour| && forall k :: 0 <= k < |tour| ==> r[k] == tour[Next(k, |tour|)]
  {
    tour[1..] + [tour[0]]
  }

  /** The length of a round trip does not depend on the city it starts from. */
  lemma RotateKeepsCost(tour: seq<int>, distances: seq<seq<int>>)
    requires OnMatrix(tour, distances) && |tour| > 0
    ensures OnMatrix(Rotate(tour), distances)
    ensures TourCost(Rotate(tour), distances) == TourCost(tour, distances)
  {
    var r := Rotate(tour);
    var n := |tour|;
    assert OnMatrix(r, distances) by {
      forall k | 0 <= k < n
        ensures 0 <= r[k] < |distances|
      {
        assert r[k] == tour[Next(k, n)];
      }
    }
    if n > 1 {
      RotatedPrefix(tour, distances, n - 1);
      assert r[n - 1] == tour[0] && r[0] == tour[1];
      assert Leg(r, distances, n - 1) == Leg(tour, distances, 0);
    } else {
      assert r == tour;
    }
  }

  lemma {:induction false} RotatedPrefix(tour: seq<int>, distances: seq<seq<int>>, k: nat)
    requires k < |tour| && OnMatrix(tour, distances) && OnMatrix(Rotate(tour), distances)
    ensures CostUpTo(Rotate(tour), distances, k) == CostUpTo(tour, distances, k + 1) - Leg(tour, distances, 0)
  {
    if k > 0 {
      RotatedPrefix(tour, distances, k - 1);
      var r := Rotate(tour);
      var n := |tour|;
      assert r[k - 1] == tour[k] && r[k] == tour[Next(k, n)];
      assert Leg(r, distances, k - 1) == Leg(tour, distances, k);
    }
  }

  /** The matrices the program builds: 0 from a city to itself, and between
      1 and 100 between two different cities. */
  ghost predicate RandomMatrix(distances: seq<seq<int>>)
  {
    Square(distances) &&
    forall a, b :: 0 <= a < |distances| && 0 <= b < |distances| ==>
      if a == b then distances[a][b] == 0 else 1 <= distances[a][b] <= 100
  }

  /** On such a matrix, a tour of n >= 2 cities has length between n and 100 n. */
  lemma {:induction false} TourCostBounds(tour: seq<int>, distances: seq<seq<int>>, k: nat)
    requires RandomMatrix(distances) && IsTour(tour, |distances|) && |tour| >= 2 && k <= |tour|
    ensures k <= CostUpTo(tour, distances, k) <= 100 * k
  {
    if k > 0 {
      TourCostBounds(tour, distances, k - 1);
      assert tour[k - 1] != tour[Next(k - 1, |tour|)];
    }
  }

  /** `tour` with the cities at positions `i` and `j` exchanged. */
  function Swapped(tour: seq<int>, i: nat, j: nat): (r: seq<int>)
    requires i < |tour| && j < |tour|
    ensures |r| == |tour| && r[i] == tour[j] && r[j] == tour[i]
    ensures forall k :: 0 <= k < |tour| && k != i && k != j ==> r[k] == tour[k]
  {
    tour[i := tour[j]][j := tour[i]]
  }

  /** An exchange rearranges the cities and keeps a tour a tour. */
  lemma SwappedKeepsTour(tour: seq<int>, n: nat, i: nat, j: nat)
    requires i < |tour| && j < |tour|
    ensures multiset(Swapped(tour, i, j)) == multiset(tour)
    ensures IsTour(tour, n) ==> IsTour(Swapped(tour, i, j), n)
  {
    var r := Swapped(tour, i, j);
    if IsTour(tour, n) {
      forall k, l | 0 <= k < l < n
        ensures r[k] != r[l]
      {
        var k' := if k == i then j else if k == j then i else k;
        var l' := if l == i then j else if l == j then i else l;
        assert r[k] == tour[k'] && r[l] == tour[l'] && k' != l';
      }
    }
  }

  /** An exchange keeps every city on the matrix. */
  lemma SwappedOnMatrix(tour: seq<int>, distances: seq<seq<int>>, i: nat, j: nat)
    requires i < |tour| && j < |tour| && OnMatrix(tour, distances)
    ensures OnMatrix(Swapped(tour, i, j), distances)
  {
  }

  /** The neighbour: a copy of the tour with two positions exchanged in
      place; the tour passed in is left as it was. */
  method GenerateNeighbor(currentTour: seq<int>, i: nat, j: nat) returns (neighborTour: seq<int>)
    requires i < |currentTour| && j < |currentTour| && i != j
    ensures neighborTour == Swapped(currentTour, i, j)
  {
    var a := new int[|currentTour|](k requires 0 <= k < |currentTour| => currentTour[k]);
    a[i], a[j] := a[j], a[i];
    neighborTour := a[..];
  }

  /** One iteration's choice: the neighbour by exchanging positions `p`, if
      it is strictly shorter, and otherwise the current tour. */
  function Climb(tour: seq<int>, distances: seq<seq<int>>, p: (nat, nat)): (r: seq<int>)
    requires OnMatrix(tour, distances) && p.0 < |tour| && p.1 < |tour|
    ensures |r| == |tour| && OnMatrix(r, distances)
    ensures r == tour || r == Swapped(tour, p.0, p.1)
    ensures TourCost(r, distances) <= TourCost(tour, distances)
  {
    var neighbor := Swapped(tour, p.0, p.1);
    SwappedOnMatrix(tour, distances, p.0, p.1);
    if TourCost(neighbor, distances) < TourCost(tour, distances) then neighbor else tour
  }

  /** A position pair as `random.sample(range(n), 2)` draws it. */
  predicate Sample(p: (nat, nat), n: nat)
  {
    p.0 < n && p.1 < n && p.0 != p.1
  }

  /** The draws are pairs of positions on a tour of `n` cities. */
  ghost predicate Samples(samples: seq<(nat, nat)>, n: nat)
  {
    forall m :: 0 <= m < |samples| ==> Sample(samples[m], n)
  }

  /** The tour after `k` iterations from `initial`, the `m`-th using the
      draw `samples[m - 1]`. */
  function TourAfter(initial: seq<int>, distances: seq<seq<int>>, samples: seq<(nat, nat)>, k: nat): (t: seq<int>)
    requires OnMatrix(initial, distances) && Samples(samples, |initial|) && k <= |samples|
    ensures |t| == |initial| && OnMatrix(t, distances)
  {
    if k == 0 then initial
    else Climb(TourAfter(initial, distances, samples, k - 1), distances, samples[k - 1])
  }

  /** Entry `m` of the progress is the tour after iteration `m + 1` and its length. */
  ghost predicate Recorded(initial: seq<int>, distances: seq<seq<int>>, samples: seq<(nat, nat)>,
                           progress: seq<(seq<int>, int)>, m: nat)
  {
    OnMatrix(initial, distances) && Samples(samples, |initial|) && m < |progress| && m < |samples| &&
    progress[m] == (TourAfter(initial, distances, samples, m + 1),
                    TourCost(TourAfter(initial, distances, samples, m + 1), distances))
  }

  /** The progress recorded is, entry by entry, the tour after each
      iteration and its length. */
  ghost predicate Follows(initial: seq<int>, distances: seq<seq<int>>, samples: seq<(nat, nat)>,
                          progress: seq<(seq<int>, int)>)
  {
    OnMatrix(initial, distances) && Samples(samples, |initial|) && |progress| <= |samples| &&
    forall m :: 0 <= m < |progress| ==> Recorded(initial, distances, samples, progress, m)
  }

  /** The next tour is the neighbour when that is strictly shorter, and the
      current tour otherwise. */
  lemma ClimbStep(initial: seq<int>, distances: seq<seq<int>>, samples: seq<(nat, nat)>, k: nat,
                  neighbor: seq<int>, neighborDistance: int, currentDistance: int)
    requires OnMatrix(initial, distances) && Samples(samples, |initial|) && k < |samples|
    requires neighbor == Swapped(TourAfter(initial, distances, samples, k), samples[k].0, samples[k].1)
    requires OnMatrix(neighbor, distances) && neighborDistance == TourCost(neighbor, distances)
    requires currentDistance == TourCost(TourAfter(initial, distances, samples, k), distances)
    ensures TourAfter(initial, distances, samples, k + 1) ==
            if neighborDistance < currentDistance then neighbor else TourAfter(initial, distances, samples, k)
  {
  }

  /** Recording the next iteration's tour and length keeps the progress in step. */
  lemma FollowsStep(initial: seq<int>, distances: seq<seq<int>>, samples: seq<(nat, nat)>,
                    progress: seq<(seq<int>, int)>)
    requires Follows(initial, distances, samples, progress) && |progress| < |samples|
    ensures var next := TourAfter(initial, distances, samples, |progress| + 1);
            Follows(initial, distances, samples, progress + [(next, TourCost(next, distances))])
  {
    var next := TourAfter(initial, distances, samples, |progress| + 1);
    var longer := progress + [(next, TourCost(next, distances))];
    forall m | 0 <= m < |longer|
      ensures Recorded(initial, distances, samples, longer, m)
    {
      if m < |progress| {
        assert Recorded(initial, distances, samples, progress, m);
      }
    }
  }

  /** A later tour is never longer than an earlier one. */
  lemma {:induction false} NeverWorsens(initial: seq<int>, distances: seq<seq<int>>,
                                        samples: seq<(nat, nat)>, j: nat, k: nat)
    requires OnMatrix(initial, distances) && Samples(samples, |initial|) && j <= k <= |samples|
    ensures TourCost(TourAfter(initial, distances, samples, k), distances) <=
            TourCost(TourAfter(initial, distances, samples, j), distances)
  {
    if j < k {
      NeverWorsens(initial, distances, samples, j, k - 1);
    }
  }

  /** Every tour reached is a tour of the same cities. */
  lemma {:induction false} StaysTour(initial: seq<int>, distances: seq<seq<int>>,
                                     samples: seq<(nat, nat)>, k: nat)
    requires OnMatrix(initial, distances) && Samples(samples, |initial|) && k <= |samples|
    requires IsTour(initial, |distances|)
    ensures IsTour(TourAfter(initial, distances, samples, k), |distances|)
  {
    if k > 0 {
      StaysTour(initial, distances, samples, k - 1);
      var before := TourAfter(initial, distances, samples, k - 1);
      SwappedKeepsTour(before, |distances|, samples[k - 1].0, samples[k - 1].1);
    }
  }

  /** So no recorded length exceeds the start's ... */
  lemma ProgressBelowStart(initial: seq<int>, distances: seq<seq<int>>,
                           samples: seq<(nat, nat)>, progress: seq<(seq<int>, int)>)
    requires Follows(initial, distances, samples, progress)
    ensures forall m :: 0 <= m < |progress| ==> progress[m].1 <= TourCost(initial, distances)
  {
    forall m | 0 <= m < |progress|
      ensures progress[m].1 <= TourCost(initial, distances)
    {
      assert Recorded(initial, distances, samples, progress, m);
      NeverWorsens(initial, distances, samples, 0, m + 1);
    }
  }

  /** ... and the recorded lengths never increase. */
  lemma ProgressNeverWorsens(initial: seq<int>, distances: seq<seq<int>>,
                             samples: seq<(nat, nat)>, progress: seq<(seq<int>, int)>)
    requires Follows(initial, distances, samples, progress)
    ensures forall m, l :: 0 <= m < l < |progress| ==> progress[l].1 <= progress[m].1
  {
    forall m, l | 0 <= m < l < |progress|
      ensures progress[l].1 <= progress[m].1
    {
      assert Recorded(initial, distances, samples, progress, m);
      assert Recorded(initial, distances, samples, progress, l);
      NeverWorsens(initial, distances, samples, m + 1, l + 1);
    }
  }

  /** The early stop fires after iteration `m` (1-based) when more than 100
      iterations have run and the length 100 entries back equals the current one. */
  predicate StopsAt(progress: seq<(seq<int>, int)>, m: nat)
    requires m <= |progress|
  {
    m > 100 && progress[m - 100].1 == progress[m - 1].1
  }

  /** None of the checks after iterations 1 .. k fired. */
  ghost predicate NoStopUpTo(progress: seq<(seq<int>, int)>, k: nat)
    requires k <= |progress|
  {
    forall m :: 0 < m <= k ==> !StopsAt(progress, m)
  }

  /** Recording one more entry does not change whether an earlier check fires. */
  lemma NoStopAppend(progress: seq<(seq<int>, int)>, entry: (seq<int>, int))
    requires NoStopUpTo(progress, |progress|)
    ensures NoStopUpTo(progress + [entry], |progress|)
  {
    var longer := progress + [entry];
    forall m | 0 < m <= |progress|
      ensures !StopsAt(longer, m)
    {
      assert !StopsAt(progress, m);
      if m > 100 {
        assert longer[m - 100] == progress[m - 100] && longer[m - 1] == progress[m - 1];
      }
    }
  }

  /** A check that did not fire after iteration `k` extends the run. */
  lemma NoStopExtend(progress: seq<(seq<int>, int)>, k: nat)
    requires 0 < k <= |progress| && NoStopUpTo(progress, k - 1) && !StopsAt(progress, k)
    ensures NoStopUpTo(progress, k)
  {
  }

  datatype Outcome =
    | Finished(tour: seq<int>, distance: int, iterations: nat, progress: seq<(seq<int>, int)>)
    | SampleError   // two distinct positions cannot be drawn from fewer than two cities

  /** Hill climbing from the shuffled tour `initial`, drawing the positions
      of iteration `m + 1` as `samples[m]`.  It runs `maxIterations`
      iterations unless the early stop fires first, and returns the last
      tour, its length, the number of iterations and the recorded progress. */
  method HillClimbingTsp(distances: seq<seq<int>>, maxIterations: int,
                         initial: seq<int>, samples: seq<(nat, nat)>) returns (r: Outcome)
    requires Square(distances) && IsTour(initial, |distances|)
    requires Samples(samples, |distances|)
    requires |distances| >= 2 ==> maxIterations <= |samples|
    ensures r.SampleError? <==> maxIterations > 0 && |distances| < 2
    ensures r.Finished? ==>
              r.iterations == |r.progress| &&
              (r.iterations == 0 <==> maxIterations <= 0) && (maxIterations > 0 ==> r.iterations <= maxIterations) &&
              Follows(initial, distances, samples, r.progress) &&
              r.tour == TourAfter(initial, distances, samples, r.iterations) &&
              r.distance == TourCost(r.tour, distances) &&
              (r.iterations > 0 ==> NoStopUpTo(r.progress, r.iterations - 1)) &&
              (r.iterations < maxIterations ==> StopsAt(r.progress, r.iterations))
  {
    var numCities := |distances|;
    var currentTour := initial;
    var currentDistance := CalculateTotalDistance(currentTour, distances);
    var iterations := 0;
    var progress: seq<(seq<int>, int)> := [];
    if numCities < 2 && maxIterations > 0 {
      // the first iteration's draw of two positions fails
      return SampleError;
    }
    while iterations < maxIterations
      invariant 0 <= iterations == |progress| <= if maxIterations > 0 then maxIterations else 0
      invariant Follows(initial, distances, samples, progress)
      invariant currentTour == TourAfter(initial, distances, samples, iterations)
      invariant currentDistance == TourCost(currentTour, distances)
      invariant NoStopUpTo(progress, iterations)
    {
      iterations := iterations + 1;
      var p := samples[iterations - 1];
      var neighborTour := GenerateNeighbor(currentTour, p.0, p.1);
      SwappedOnMatrix(currentTour, distances, p.0, p.1);
      var neighborDistance := CalculateTotalDistance(neighborTour, distances);
      ClimbStep(initial, distances, samples, iterations - 1, neighborTour, neighborDistance, currentDistance);
      if neighborDistance < currentDistance {
        currentTour := neighborTour;
        currentDistance := neighborDistance;
      }
      FollowsStep(initial, distances, samples, progress);
      NoStopAppend(progress, (currentTour, currentDistance));
      progress := progress + [(currentTour, currentDistance)];
      assert progress[iterations - 1].1 == currentDistance;
      if iterations > 100 && progress[|progress| - 100].1 == currentDistance {
        assert StopsAt(progress, iterations);
        break;
      }
      NoStopExtend(progress, iterations);
    }
    return Finished(currentTour, currentDistance, iterations, progress);
  }
}
