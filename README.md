# Farthest-point seeding (ELKI `FarthestPointsInitialMeans`)

ELKI's farthest-point initialisation chooses the k starting seeds for k-means
and k-medoids by a farthest-first traversal:

* a bootstrap point is drawn at random;
* a store keeps, for every point, its minimum distance to the seeds chosen so
  far. It starts at +infinity;
* each round scans every object that is not yet marked as chosen, folds the
  distance to the newest seed into the stored minimum, and picks the first
  object, in scan order, with the strictly largest result;
* the winner is marked as chosen (a NaN in the store) and appended to the
  result;
* the `dropfirst` flag decides whether the bootstrap point is kept. If it is
  dropped, the loop starts at round 0 instead of 1, the bootstrap entry is
  cleared from the list in round 0, and round 0 writes no distance to the store.

The same loop appears twice in the class. `chooseInitialMeans` returns the
seed vectors and `chooseInitialMedoids` returns the seed ids. The
Parameterizer turns the user-facing `keepfirst` flag into `dropfirst`.

The model has three modules.

* `FarthestPointsInitialMeans` is the imperative model of the class.
  * The store is an `array<Entry>`. `Unconstrained` stands for the initial
    +infinity and `Excluded` for the NaN marker.
  * `FindFarthest` is the inner scan, `Round` is one iteration of the outer
    loop, and `ChooseInitialMedoids` is the whole id-returning method.
  * `ChooseInitialMeans` is the vector-returning method. It is the same
    selection, with each id mapped through `get` (the model of
    `relation.get`).
  * `MakeInstance` is the Parameterizer's negation of `keepfirst`.
* `FarthestFirst` is the reference definition that the methods are proved
  against. It is a cache-free farthest-first traversal:
  * `MinDist` is the minimum distance from a point to a list of seeds;
  * `BestAmong` is the strict-maximum scan;
  * `NextPick` is one round;
  * `Picks` is the picks of the first j rounds;
  * `Selection` is what a run returns.

  The module also holds the lemmas about the selection: its length, first
  element, distinctness, coverage, behaviour once all points are used up,
  and two worked examples.
* `Counting` holds pigeonhole helpers on sequences of indices.

Points are the indices `0..n-1`, and the scan visits them in that order. A
distance is an arbitrary function `d: (nat, nat) -> real`, applied as
`d(seed, point)` just as the source calls `distQ.distance(prevmean, it)`.
The bootstrap draw becomes the parameter `first`, with `first < n`.

The code does not validate k, and its result is not always pairwise
distinct. The model follows the code:

* Any k < 1 runs no round, and `ChooseInitialMedoids` returns `[first]`.
  Its allocation `DBIDUtil.newArray(k)` is not modelled (see the
  `ChooseInitialMedoids` line under "Left out"). In `chooseInitialMeans`,
  `new ArrayList<>(k)` rejects a negative capacity, so `ChooseInitialMeans`
  returns `NegativeCapacity` for k < 0 and `[get(first)]` for k == 0.
* When every point has been excluded, no point wins the scan, so `best` keeps
  its previous value. That seed is appended again and re-marked, which
  `ExhaustedRepeatsLast` states.
* With `dropfirst = false` the bootstrap point is not marked when it enters
  the result (line 90). It stays eligible, and it scores at most its
  distance to itself. Once every other eligible point is at distance 0 from
  some seed, the bootstrap point can win a later round, and only then does
  line 115 mark it. `KeepFirstRepeatsBootstrap` exhibits `[0, 0]` for two
  coincident points. `KeepFirstRepeatsBootstrapLater` exhibits `[0, 2, 0]`
  for points at 0, 0 and 5. Distinctness is therefore proved outright for
  `dropfirst = true` and for the picks after the bootstrap point. For the
  whole result with `dropfirst = false` it is proved only under the
  hypothesis `Separates`: distances are non-negative and zero exactly
  between equal ids.

## Model

| member | source | states |
|---|---|---|
| FarthestPointsInitialMeans.Candidate | src/de/lmu/ifi/dbs/elki/algorithm/clustering/kmeans/FarthestPointsInitialMeans.java:101 | `Math.min(prev, distQ.distance(prevmean, it))` on a non-excluded entry is at most the new distance and at most the stored minimum, and it equals one of them. An `Unconstrained` entry (+infinity) yields the distance |
| FarthestFirst.BestAmong | src/de/lmu/ifi/dbs/elki/algorithm/clustering/kmeans/FarthestPointsInitialMeans.java:95-110 | the strict-`>` scan over points 0..m-1 from -infinity, skipping the excluded points. Any point it returns is one of the scanned points |
| FarthestFirst.SeedsBefore | src/de/lmu/ifi/dbs/elki/algorithm/clustering/kmeans/FarthestPointsInitialMeans.java:90-117 | the `means` list before a round is never empty. It is the bootstrap point alone before round 0 of a dropfirst run, which line 113 then clears; otherwise it is the kept bootstrap point (dropfirst = false) followed by the picks |
| FarthestFirst.Start | src/de/lmu/ifi/dbs/elki/algorithm/clustering/kmeans/FarthestPointsInitialMeans.java:94 | the loop counter starts at 0 exactly when dropfirst is set, and at 1 otherwise |
| FarthestFirst.Rounds | src/de/lmu/ifi/dbs/elki/algorithm/clustering/kmeans/FarthestPointsInitialMeans.java:94 | the loop `for i = Start; i < k` runs no round exactly when k <= Start; otherwise it runs exactly k - Start rounds |
| FarthestFirst.Selection | src/de/lmu/ifi/dbs/elki/algorithm/clustering/kmeans/FarthestPointsInitialMeans.java:86-123 | the list a run returns, which is never empty: the bootstrap list after Rounds(k, dropfirst) picking rounds, cleared at i == 0 when dropfirst is set |
| FarthestFirst.MinDistBelow | src/de/lmu/ifi/dbs/elki/algorithm/clustering/kmeans/FarthestPointsInitialMeans.java:101-105 | the running minimum a point's store entry tracks is at most its distance to every seed |
| FarthestFirst.MinDistAttained | src/de/lmu/ifi/dbs/elki/algorithm/clustering/kmeans/FarthestPointsInitialMeans.java:101-105 | the running minimum equals the distance to some seed, so it is a true minimum and not just a lower bound |
| FarthestFirst.BestAmongIsFarthest | src/de/lmu/ifi/dbs/elki/algorithm/clustering/kmeans/FarthestPointsInitialMeans.java:95-110 | the scan finds nothing exactly when every point is excluded. Otherwise it returns a non-excluded point and its score, the score is at least that of every eligible point, and it is strictly greater than the score of every earlier eligible point (first maximum, because of the strict `>` starting from -infinity) |
| FarthestFirst.NextPick | src/de/lmu/ifi/dbs/elki/algorithm/clustering/kmeans/FarthestPointsInitialMeans.java:93-117 | a round appends a point index, or else the previous seed, which `best` still holds when nothing was eligible |
| FarthestFirst.Picks | src/de/lmu/ifi/dbs/elki/algorithm/clustering/kmeans/FarthestPointsInitialMeans.java:94-117 | j rounds append exactly j points |
| FarthestFirst.PicksInRange | src/de/lmu/ifi/dbs/elki/algorithm/clustering/kmeans/FarthestPointsInitialMeans.java:93-117 | every appended point is one of the n points |
| FarthestFirst.SelectionShape | src/de/lmu/ifi/dbs/elki/algorithm/clustering/kmeans/FarthestPointsInitialMeans.java:86-117 | a run returns exactly k points for every k >= 1 under both settings of dropfirst, and only the bootstrap point for k < 1. All of them are points of the collection, and with dropfirst = false element 0 is the bootstrap point |
| FarthestFirst.PicksPrefix | src/de/lmu/ifi/dbs/elki/algorithm/clustering/kmeans/FarthestPointsInitialMeans.java:115-117 | later rounds only append: the first r picks of a longer run are the picks of r rounds |
| FarthestFirst.PickIsFarthest | src/de/lmu/ifi/dbs/elki/algorithm/clustering/kmeans/FarthestPointsInitialMeans.java:95-117 | while some point is still eligible, round r picks the first eligible point among those farthest from the seeds in force |
| FarthestFirst.PicksDistinct | src/de/lmu/ifi/dbs/elki/algorithm/clustering/kmeans/FarthestPointsInitialMeans.java:97-99 | excluded points are skipped, so up to n rounds never pick a point twice |
| FarthestFirst.DropFirstDistinct | src/de/lmu/ifi/dbs/elki/algorithm/clustering/kmeans/FarthestPointsInitialMeans.java:112-115 | with dropfirst = true and k <= n, the seeds are pairwise distinct |
| FarthestFirst.KeepFirstPicksDistinct | src/de/lmu/ifi/dbs/elki/algorithm/clustering/kmeans/FarthestPointsInitialMeans.java:94-115 | with dropfirst = false and k <= n + 1, the seeds after the bootstrap point are pairwise distinct |
| FarthestFirst.KeepFirstSkipsBootstrap | src/de/lmu/ifi/dbs/elki/algorithm/clustering/kmeans/FarthestPointsInitialMeans.java:97-109 | for a separating distance, while another point is eligible a round never re-picks the un-excluded bootstrap point: it scores 0, and every other eligible point scores more |
| FarthestFirst.KeepFirstDistinct | src/de/lmu/ifi/dbs/elki/algorithm/clustering/kmeans/FarthestPointsInitialMeans.java:94-117 | with dropfirst = false, k <= n and a separating distance, the whole result is pairwise distinct |
| FarthestFirst.DropFirstFirstSeed | src/de/lmu/ifi/dbs/elki/algorithm/clustering/kmeans/FarthestPointsInitialMeans.java:112-117 | with dropfirst = true and k >= 1, the first seed is the first point, in scan order, at maximal distance from the bootstrap point. The bootstrap point has been cleared from the list, and for k == 1 that seed is the whole result |
| FarthestFirst.KeepFirstSingle | src/de/lmu/ifi/dbs/elki/algorithm/clustering/kmeans/FarthestPointsInitialMeans.java:88-94 | with dropfirst = false and k <= 1 the loop does not run and the result is the bootstrap point alone |
| FarthestFirst.DropFirstAll | src/de/lmu/ifi/dbs/elki/algorithm/clustering/kmeans/FarthestPointsInitialMeans.java:94-117 | with dropfirst = true and k == n, every point is returned exactly once |
| FarthestFirst.KeepFirstAll | src/de/lmu/ifi/dbs/elki/algorithm/clustering/kmeans/FarthestPointsInitialMeans.java:94-117 | with dropfirst = false, k == n and a separating distance, every point is returned |
| FarthestFirst.ExhaustedRepeatsLast | src/de/lmu/ifi/dbs/elki/algorithm/clustering/kmeans/FarthestPointsInitialMeans.java:93-117 | after n rounds nothing is eligible, and every further round appends the previous seed again |
| FarthestFirst.KeepFirstRepeatsBootstrap | src/de/lmu/ifi/dbs/elki/algorithm/clustering/kmeans/FarthestPointsInitialMeans.java:94-117 | two coincident points, dropfirst = false, k = 2: the result is `[0, 0]`, because the bootstrap point is not excluded when it enters the result |
| FarthestFirst.KeepFirstRepeatsBootstrapLater | src/de/lmu/ifi/dbs/elki/algorithm/clustering/kmeans/FarthestPointsInitialMeans.java:90-117 | points at 0, 0 and 5, dropfirst = false, k = 3: the result is `[0, 2, 0]`. Point 1 is 5 away from seed 2, but it is only at distance 0 from the bootstrap seed, and both points tie at 0 in round 2 |
| FarthestFirst.LineExample | src/de/lmu/ifi/dbs/elki/algorithm/clustering/kmeans/FarthestPointsInitialMeans.java:94-117 | points at 0, 1, 2 and 10 with bootstrap point 0 and k = 2: keeping the bootstrap point gives the points at 0 and 10; dropping it gives the points at 10 and 0 |
| FarthestPointsInitialMeans.IncrementalMin | src/de/lmu/ifi/dbs/elki/algorithm/clustering/kmeans/FarthestPointsInitialMeans.java:101 | `min(store[p], d(prevmean, p))` over a store holding the minimum for the earlier seeds (or +infinity when there are none) is the minimum over all seeds |
| FarthestPointsInitialMeans.FindFarthest | src/de/lmu/ifi/dbs/elki/algorithm/clustering/kmeans/FarthestPointsInitialMeans.java:95-110 | one scan returns the reference round's pick. Every non-excluded entry afterwards holds the minimum over all seeds when i > 0, and the store is unchanged when i == 0. It evaluates the distance at most n times |
| FarthestPointsInitialMeans.Round | src/de/lmu/ifi/dbs/elki/algorithm/clustering/kmeans/FarthestPointsInitialMeans.java:94-117 | one outer iteration appends the reference round's pick and clears the bootstrap entry at i == 0. It keeps the store invariant: exactly the picked points are excluded, and every other point holds its minimum distance to the seeds before the newest one. In round 0 the only change to the store is the winner's exclusion |
| FarthestPointsInitialMeans.StoreAfterRound | src/de/lmu/ifi/dbs/elki/algorithm/clustering/kmeans/FarthestPointsInitialMeans.java:101-115 | the scan's write-backs and the winner's exclusion re-establish the store invariant for the next round |
| FarthestPointsInitialMeans.ExclusionAfterRound | src/de/lmu/ifi/dbs/elki/algorithm/clustering/kmeans/FarthestPointsInitialMeans.java:97-99 | after a round exactly the earlier picks and the new winner are marked |
| FarthestPointsInitialMeans.CommittedAfterRound | src/de/lmu/ifi/dbs/elki/algorithm/clustering/kmeans/FarthestPointsInitialMeans.java:101-105 | after a round every unmarked entry holds its minimum distance to the seeds committed so far. The bootstrap point is excluded from those seeds when round 0 dropped it |
| FarthestPointsInitialMeans.EntryAfterRound | src/de/lmu/ifi/dbs/elki/algorithm/clustering/kmeans/FarthestPointsInitialMeans.java:102-105 | one entry after a scan: the newest seed is folded in when i > 0, and the entry stays +infinity at i == 0 |
| FarthestPointsInitialMeans.PicksStep | src/de/lmu/ifi/dbs/elki/algorithm/clustering/kmeans/FarthestPointsInitialMeans.java:112-117 | one more round appends the next pick to the picks, and to the seeds in force after the bootstrap entry is cleared at i == 0 |
| FarthestPointsInitialMeans.ChooseInitialMedoids | src/de/lmu/ifi/dbs/elki/algorithm/clustering/kmeans/FarthestPointsInitialMeans.java:127-169 | the cached, in-place loop returns exactly the reference selection for every k and both settings of dropfirst. It evaluates the distance at most n times per round |
| FarthestPointsInitialMeans.ChooseInitialMeans | src/de/lmu/ifi/dbs/elki/algorithm/clustering/kmeans/FarthestPointsInitialMeans.java:76-124 | fails exactly when k < 0, at the list allocation; otherwise it returns the same selection as the medoid variant, each id mapped through `get` |
| FarthestPointsInitialMeans.DefaultDropsFirst | src/de/lmu/ifi/dbs/elki/algorithm/clustering/kmeans/FarthestPointsInitialMeans.java:187-200 | with the default keepfirst = false, the instance drops the bootstrap point |
| FarthestPointsInitialMeans.MakeInstance | src/de/lmu/ifi/dbs/elki/algorithm/clustering/kmeans/FarthestPointsInitialMeans.java:199-201 | the instance drops the bootstrap point exactly when keepfirst is not set |

## Left out

- `Database`, `Relation`, `DistanceQuery`, the DBID types and the data-store factory are library interfaces. They become the index range `0..n-1`, the function `d` and a Dafny array.
- `RandomFactory` and `DBIDUtil.randomSample` (lines 88 and 136) are randomness. The drawn bootstrap point is the parameter `first`. An empty collection, where no draw is possible, is excluded by `first < n`.
- IEEE doubles are not modelled. The NaN self-comparison (lines 98 and 146), the +infinity initial value (lines 83 and 132) and the -infinity start of `maxdist` become the `Excluded` and `Unconstrained` tags and a `found` flag. Distances are mathematical reals. A distance that is itself NaN or infinite is not modelled.
- The vectors are not modelled. Both variants measure from the previous seed's vector to the scanned id (lines 101 and 149); the model applies one function `d` to the two ids, and `relation.get` is the parameter `get`.
- `ChooseInitialMedoids` does not model a failure of `DBIDUtil.newArray(k)` (line 134) for a negative k. That implementation is not part of this model, and the model returns the bootstrap point alone there.
- The option framework in `Parameterizer.makeOptions` (lines 190-196). Only the default `keepfirst = false` (line 187, `DefaultKeepFirst`, with `DefaultDropsFirst`) and the negation at line 200 are modelled.
- `store.destroy()` (line 121) is cleanup with no observable result.
- The unchecked casts (lines 79 and 129) only change static types.
- The count of distance evaluations is a ghost output. It is proved to be at most n per round, but not the exact number of eligible points.
