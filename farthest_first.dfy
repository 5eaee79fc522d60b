/** Farthest-first traversal, stated without the min-distance cache: every
    round recomputes the minimum distance of each eligible point to the seeds
    chosen so far and takes the first point, in scan order, at which it is
    largest. This is the reference the cached loop of
    FarthestPointsInitialMeans is proved against.

    Points are the indices 0..n-1. A distance is any real-valued function of
    two indices, applied as d(seed, point). */
module FarthestFirst {
  import opened Counting

  type Distance = (nat, nat) -> real

  function Min(a: real, b: real): real {
    if a <= b then a else b
  }

  /** The minimum of d(s, p) over the seeds s. Unfolded at the last seed, so
      that adding a seed is one more Min. */
  function MinDist(d: Distance, seeds: seq<nat>, p: nat): real
    requires |seeds| > 0
    decreases |seeds|
  {
    var init, last := seeds[..|seeds| - 1], seeds[|seeds| - 1];
    if |seeds| == 1 then d(last, p) else Min(MinDist(d, init, p), d(last, p))
  }

  /** No seed is closer to p than the minimum. */
  lemma {:induction false} MinDistBelow(d: Distance, seeds: seq<nat>, p: nat, s: nat)
    requires s in seeds
    ensures MinDist(d, seeds, p) <= d(s, p)
    decreases |seeds|
  {
    var init, last := seeds[..|seeds| - 1], seeds[|seeds| - 1];
    assert seeds == init + [last];
    if s != last {
      MinDistBelow(d, init, p, s);
    }
  }

  /** The minimum is attained: some seed is exactly that far from p. */
  lemma {:induction false} MinDistAttained(d: Distance, seeds: seq<nat>, p: nat) returns (s: nat)
    requires |seeds| > 0
    ensures s in seeds && MinDist(d, seeds, p) == d(s, p)
    decreases |seeds|
  {
    var init, last := seeds[..|seeds| - 1], seeds[|seeds| - 1];
    assert seeds == init + [last];
    if |seeds| == 1 || d(last, p) <= MinDist(d, init, p) {
      s := last;
    } else {
      s := MinDistAttained(d, init, p);
    }
  }

  /** The outcome of scanning some points: none was eligible, or the winner
      and its score. */
  datatype Pick = NoPick | Pick(point: nat, score: real)

  /** Scans the points 0..m-1 in order, skipping the excluded ones, and keeps
      a point only when its minimum distance to `seeds` is strictly larger
      than that of the point kept so far. */
  function BestAmong(d: Distance, seeds: seq<nat>, excluded: seq<nat>, m: nat): (r: Pick)
    requires |seeds| > 0
    ensures r.Pick? ==> r.point < m
  {
    if m == 0 then NoPick
    else
      var b := BestAmong(d, seeds, excluded, m - 1);
      var p := m - 1;
      if p in excluded then b
      else if b.NoPick? || MinDist(d, seeds, p) > b.score then Pick(p, MinDist(d, seeds, p))
      else b
  }

  /** What the scan finds: nothing exactly when every point is excluded, and
      otherwise an eligible point with its score, at least as far as every
      eligible point and strictly farther than every earlier one. */
  lemma {:induction false} BestAmongIsFarthest(d: Distance, seeds: seq<nat>, excluded: seq<nat>, m: nat)
    requires |seeds| > 0
    ensures var r := BestAmong(d, seeds, excluded, m);
            && (r.NoPick? <==> forall q :: 0 <= q < m ==> q in excluded)
            && (r.Pick? ==> r.point !in excluded && r.score == MinDist(d, seeds, r.point))
            && (r.Pick? ==> forall q :: 0 <= q < m && q !in excluded ==> MinDist(d, seeds, q) <= r.score)
            && (r.Pick? ==> forall q :: 0 <= q < r.point && q !in excluded ==> MinDist(d, seeds, q) < r.score)
  {
    if m > 0 {
      BestAmongIsFarthest(d, seeds, excluded, m - 1);
    }
  }

  /** The round that chooses a seed: the farthest eligible point, or, when
      every point is excluded, the previous seed once more. */
  function NextPick(n: nat, d: Distance, seeds: seq<nat>, excluded: seq<nat>): (r: nat)
    requires |seeds| > 0
    ensures r < n || r == seeds[|seeds| - 1]
  {
    var b := BestAmong(d, seeds, excluded, n);
    if b.Pick? then b.point else seeds[|seeds| - 1]
  }

  /** The seeds that are kept whatever the loop picks: the bootstrap point when
      it is kept, nothing when it is dropped. */
  function Base(first: nat, dropfirst: bool): seq<nat> {
    if dropfirst then [] else [first]
  }

  /** The seeds in force before a round, given the points picked by the rounds
      before it. Before the first picking round of a run that drops the
      bootstrap point, that point stands alone. */
  function SeedsBefore(first: nat, dropfirst: bool, picked: seq<nat>): (s: seq<nat>)
    ensures |s| > 0
  {
    if dropfirst && picked == [] then [first] else Base(first, dropfirst) + picked
  }

  /** The points picked by the first j rounds. */
  function Picks(n: nat, d: Distance, first: nat, dropfirst: bool, j: nat): (r: seq<nat>)
    ensures |r| == j
  {
    if j == 0 then []
    else
      var prior := Picks(n, d, first, dropfirst, j - 1);
      prior + [NextPick(n, d, SeedsBefore(first, dropfirst, prior), prior)]
  }

  /** Every pick names one of the points. */
  lemma {:induction false} PicksInRange(n: nat, d: Distance, first: nat, dropfirst: bool, j: nat)
    requires first < n
    ensures forall x :: x in Picks(n, d, first, dropfirst, j) ==> x < n
  {
    if j > 0 {
      var prior := Picks(n, d, first, dropfirst, j - 1);
      PicksInRange(n, d, first, dropfirst, j - 1);
      var seeds := SeedsBefore(first, dropfirst, prior);
      assert seeds[|seeds| - 1] in seeds;
    }
  }

  /** Where the loop counter starts. */
  function Start(dropfirst: bool): (i: nat)
    ensures i <= 1 && (i == 0 <==> dropfirst)
  {
    if dropfirst then 0 else 1
  }

  /** How many rounds pick a point: k - Start, or none when k <= Start. */
  function Rounds(k: int, dropfirst: bool): (r: nat)
    ensures r == 0 <==> k <= Start(dropfirst)
    ensures r > 0 ==> Start(dropfirst) + r == k
  {
    if k <= Start(dropfirst) then 0 else k - Start(dropfirst)
  }

  /** The seeds a run returns, for bootstrap point `first` and target count k. */
  function Selection(n: nat, d: Distance, first: nat, k: int, dropfirst: bool): (r: seq<nat>)
    ensures |r| > 0
  {
    SeedsBefore(first, dropfirst, Picks(n, d, first, dropfirst, Rounds(k, dropfirst)))
  }

  /** A run returns max(k, 1) points of the collection: k of them for k >= 1
      under either setting of dropfirst, and the bootstrap point alone when
      k < 1, since then no round runs. Keeping the bootstrap point puts it in
      front. */
  lemma SelectionShape(n: nat, d: Distance, first: nat, k: int, dropfirst: bool)
    requires first < n
    ensures var r := Selection(n, d, first, k, dropfirst);
            && |r| == (if k < 1 then 1 else k)
            && (forall x :: x in r ==> x < n)
            && (!dropfirst ==> r[0] == first)
            && (k < 1 ==> r == [first])
  {
    PicksInRange(n, d, first, dropfirst, Rounds(k, dropfirst));
  }

  // ---------------------------------------------------------------------
  // Properties of the traversal
  // ---------------------------------------------------------------------

  /** Later rounds never change what earlier rounds picked. */
  lemma {:induction false} PicksPrefix(n: nat, d: Distance, first: nat, dropfirst: bool, j: nat, r: nat)
    requires r <= j
    ensures Picks(n, d, first, dropfirst, j)[..r] == Picks(n, d, first, dropfirst, r)
    decreases j
  {
    if r < j {
      PicksPrefixStep(n, d, first, dropfirst, j, r);
      PicksPrefix(n, d, first, dropfirst, j - 1, r);
    } else {
      FullPrefix(Picks(n, d, first, dropfirst, j));
    }
  }

  /** The first r picks are the same after j rounds as after j - 1. */
  lemma PicksPrefixStep(n: nat, d: Distance, first: nat, dropfirst: bool, j: nat, r: nat)
    requires r < j
    ensures Picks(n, d, first, dropfirst, j)[..r] == Picks(n, d, first, dropfirst, j - 1)[..r]
  {
    PicksOneStep(n, d, first, dropfirst, j);
    PrefixOfPrefix(Picks(n, d, first, dropfirst, j), j - 1, r);
  }

  /** One round appends to the picks of the rounds before it. */
  lemma PicksOneStep(n: nat, d: Distance, first: nat, dropfirst: bool, j: nat)
    requires j > 0
    ensures Picks(n, d, first, dropfirst, j)[..j - 1] == Picks(n, d, first, dropfirst, j - 1)
  {
    var prior := Picks(n, d, first, dropfirst, j - 1);
    assert Picks(n, d, first, dropfirst, j) == prior + [NextPick(n, d, SeedsBefore(first, dropfirst, prior), prior)];
  }

  lemma PrefixOfPrefix(s: seq<nat>, m: nat, r: nat)
    requires r <= m <= |s|
    ensures s[..m][..r] == s[..r]
  {
  }

  lemma FullPrefix(s: seq<nat>)
    ensures s[..|s|] == s
  {
  }


  /** `b` is the first eligible point, in scan order, whose minimum distance
      to `seeds` is largest among the eligible points 0..n-1. */
  ghost predicate IsFarthest(n: nat, d: Distance, seeds: seq<nat>, excluded: seq<nat>, b: nat)
    requires |seeds| > 0
  {
    && b < n && b !in excluded
    && (forall q :: 0 <= q < n && q !in excluded ==> MinDist(d, seeds, q) <= MinDist(d, seeds, b))
    && (forall q :: 0 <= q < b && q !in excluded ==> MinDist(d, seeds, q) < MinDist(d, seeds, b))
  }

  /** Every round that still has an eligible point picks the farthest one
      from the seeds in force, among the points no earlier round picked. */
  lemma PickIsFarthest(n: nat, d: Distance, first: nat, dropfirst: bool, j: nat, r: nat)
    requires first < n && r < j && r < n
    ensures var prior := Picks(n, d, first, dropfirst, r);
            IsFarthest(n, d, SeedsBefore(first, dropfirst, prior), prior, Picks(n, d, first, dropfirst, j)[r])
  {
    var s := Picks(n, d, first, dropfirst, j);
    PicksPrefix(n, d, first, dropfirst, j, r + 1);
    var prior := Picks(n, d, first, dropfirst, r);
    assert s[r] == s[..r + 1][r];
    var q := MissingPoint(prior, n);
    BestAmongIsFarthest(d, SeedsBefore(first, dropfirst, prior), prior, n);
  }

  /** While points remain, no round picks a point twice. */
  lemma PicksDistinct(n: nat, d: Distance, first: nat, dropfirst: bool, j: nat)
    requires first < n && j <= n
    ensures Distinct(Picks(n, d, first, dropfirst, j))
  {
    var s := Picks(n, d, first, dropfirst, j);
    forall a, b | 0 <= a < b < j ensures s[a] != s[b] {
      PickIsFarthest(n, d, first, dropfirst, j, b);
      PicksPrefix(n, d, first, dropfirst, j, b);
      assert s[a] in s[..b];
    }
  }

  /** Dropping the bootstrap point and asking for at most n seeds gives seeds
      that are pairwise distinct. */
  lemma DropFirstDistinct(n: nat, d: Distance, first: nat, k: int)
    requires first < n && k <= n
    ensures Distinct(Selection(n, d, first, k, true))
  {
    PicksDistinct(n, d, first, true, Rounds(k, true));
  }

  /** Keeping the bootstrap point, the seeds the loop adds after it are
      pairwise distinct for k up to n + 1: the bootstrap point itself is not
      excluded when it enters the result, so it can be picked again. */
  lemma KeepFirstPicksDistinct(n: nat, d: Distance, first: nat, k: int)
    requires first < n && k <= n + 1
    ensures Distinct(Selection(n, d, first, k, false)[1..])
  {
    var j := Rounds(k, false);
    PicksDistinct(n, d, first, false, j);
    assert Selection(n, d, first, k, false)[1..] == Picks(n, d, first, false, j);
  }

  /** The distance separates points: it is non-negative and zero exactly
      between a point and itself. */
  ghost predicate Separates(n: nat, d: Distance) {
    forall a, b :: 0 <= a < n && 0 <= b < n ==> d(a, b) >= 0.0 && (d(a, b) == 0.0 <==> a == b)
  }

  /** When the distance separates points, a round that keeps the bootstrap
      point does not pick it again while some other point is eligible: the
      bootstrap point scores 0 against itself, every other eligible point
      scores more. */
  lemma KeepFirstSkipsBootstrap(n: nat, d: Distance, first: nat, j: nat, r: nat)
    requires first < n && r < j && r + 1 < n && Separates(n, d)
    ensures Picks(n, d, first, false, j)[r] != first
  {
    var b := Picks(n, d, first, false, j)[r];
    var prior := Picks(n, d, first, false, r);
    var seeds := [first] + prior;
    PickIsFarthest(n, d, first, false, j, r);
    assert IsFarthest(n, d, seeds, prior, b);
    var q := MissingPoint(seeds, n);
    assert q !in prior && q != first;
    PicksInRange(n, d, first, false, r);
    MinDistBelow(d, seeds, first, first);
    var t := MinDistAttained(d, seeds, q);
    assert t < n && t != q;
    assert MinDist(d, seeds, q) > 0.0;
    assert MinDist(d, seeds, q) <= MinDist(d, seeds, b);
  }

  /** When the distance separates points and k <= n, keeping the bootstrap
      point also gives pairwise distinct seeds. */
  lemma KeepFirstDistinct(n: nat, d: Distance, first: nat, k: int)
    requires first < n && k <= n && Separates(n, d)
    ensures Distinct(Selection(n, d, first, k, false))
  {
    var j := Rounds(k, false);
    var s := Picks(n, d, first, false, j);
    var sel := Selection(n, d, first, k, false);
    assert sel == [first] + s;
    PicksDistinct(n, d, first, false, j);
    forall a, b | 0 <= a < b < |sel| ensures sel[a] != sel[b] {
      if a == 0 {
        KeepFirstSkipsBootstrap(n, d, first, j, b - 1);
        assert sel[b] == s[b - 1];
      } else {
        assert sel[a] == s[a - 1] && sel[b] == s[b - 1];
      }
    }
  }

  /** Dropping the bootstrap point with k >= 1: the first seed is the first
      point, in scan order, that is farthest from the bootstrap point (which
      itself competes, at its distance to itself); with k == 1 it is the
      whole result. */
  lemma DropFirstFirstSeed(n: nat, d: Distance, first: nat, k: int)
    requires first < n && 1 <= k
    ensures var r := Selection(n, d, first, k, true);
            && r[0] < n
            && (forall q :: 0 <= q < n ==> d(first, q) <= d(first, r[0]))
            && (forall q :: 0 <= q < r[0] ==> d(first, q) < d(first, r[0]))
            && (k == 1 ==> r == [r[0]])
  {
    var r := Selection(n, d, first, k, true);
    PickIsFarthest(n, d, first, true, k, 0);
    assert r == Picks(n, d, first, true, k);
    assert SeedsBefore(first, true, Picks(n, d, first, true, 0)) == [first];
    forall q | 0 <= q < n ensures MinDist(d, [first], q) == d(first, q) { }
  }

  /** Keeping the bootstrap point with k <= 1: the result is the bootstrap
      point alone, whatever the distance. */
  lemma KeepFirstSingle(n: nat, d: Distance, first: nat, k: int)
    requires first < n && k <= 1
    ensures Selection(n, d, first, k, false) == [first]
  {
  }

  /** Dropping the bootstrap point and asking for all n points returns every
      point, each once. */
  lemma DropFirstAll(n: nat, d: Distance, first: nat)
    requires first < n
    ensures var r := Selection(n, d, first, n, true);
            Distinct(r) && forall q :: 0 <= q < n ==> q in r
  {
    DropFirstDistinct(n, d, first, n);
    SelectionShape(n, d, first, n, true);
    CoversRange(Selection(n, d, first, n, true), n);
  }

  /** Keeping the bootstrap point and asking for all n points returns every
      point, when the distance separates points. */
  lemma KeepFirstAll(n: nat, d: Distance, first: nat)
    requires first < n && Separates(n, d)
    ensures forall q :: 0 <= q < n ==> q in Selection(n, d, first, n, false)
  {
    KeepFirstDistinct(n, d, first, n);
    SelectionShape(n, d, first, n, false);
    CoversRange(Selection(n, d, first, n, false), n);
  }

  /** Once n rounds have picked n distinct points, nothing is eligible any
      more, and every further round appends the previous seed again: asking
      for more seeds than there are points repeats the last one. */
  lemma ExhaustedRepeatsLast(n: nat, d: Distance, first: nat, dropfirst: bool, j: nat, r: nat)
    requires first < n && n <= r < j
    ensures Picks(n, d, first, dropfirst, j)[r] == Picks(n, d, first, dropfirst, j)[r - 1]
  {
    var s := Picks(n, d, first, dropfirst, j);
    var prior := Picks(n, d, first, dropfirst, r);
    PicksPrefix(n, d, first, dropfirst, j, r + 1);
    PicksPrefix(n, d, first, dropfirst, j, r);
    PicksPrefix(n, d, first, dropfirst, r, n);
    PicksDistinct(n, d, first, dropfirst, n);
    PicksInRange(n, d, first, dropfirst, n);
    CoversRange(Picks(n, d, first, dropfirst, n), n);
    BestAmongIsFarthest(d, SeedsBefore(first, dropfirst, prior), prior, n);
    forall q | 0 <= q < n ensures q in prior {
      assert q in prior[..n];
    }
    assert s[r] == s[..r + 1][r];
    assert SeedsBefore(first, dropfirst, prior)[|SeedsBefore(first, dropfirst, prior)| - 1] == prior[r - 1];
  }

  /** Two copies of one point (all distances zero), keeping the bootstrap
      point 0 and asking for two seeds: the loop picks the bootstrap point
      again, because it was not excluded when it entered the result. */
  lemma KeepFirstRepeatsBootstrap()
    ensures Selection(2, (a, b) => 0.0, 0, 2, false) == [0, 0]
  {
    var d: Distance := (a, b) => 0.0;
    assert MinDist(d, [0], 0) == 0.0 && MinDist(d, [0], 1) == 0.0;
    assert BestAmong(d, [0], [], 1) == Pick(0, 0.0);
    assert BestAmong(d, [0], [], 2) == Pick(0, 0.0);
    assert Picks(2, d, 0, false, 1) == [0];
  }

  /** Positions of three points on a line: two at 0 and one at 5. */
  function PairPosition(p: nat): real {
    if p < 2 then 0.0 else 5.0
  }

  /** Absolute difference of those positions. */
  function PairDistance(a: nat, b: nat): real {
    var x := PairPosition(a) - PairPosition(b);
    if x < 0.0 then -x else x
  }

  /** Points at 0, 0 and 5, keeping bootstrap point 0, k == 3: round 1 picks
      the point at 5; in round 2 both remaining points are at distance 0 from
      the bootstrap seed, and the first in scan order, the bootstrap point
      itself, wins again, although point 1 is not at distance 0 from every
      seed. */
  lemma KeepFirstRepeatsBootstrapLater()
    ensures Selection(3, PairDistance, 0, 3, false) == [0, 2, 0]
  {
    var d: Distance := PairDistance;
    assert BestAmong(d, [0], [], 1) == Pick(0, 0.0);
    assert BestAmong(d, [0], [], 2) == Pick(0, 0.0);
    assert BestAmong(d, [0], [], 3) == Pick(2, 5.0);
    assert Picks(3, d, 0, false, 0) == [] && SeedsBefore(0, false, []) == [0];
    assert Picks(3, d, 0, false, 1) == [2];
    assert MinDist(d, [0, 2], 0) == 0.0 && MinDist(d, [0, 2], 1) == 0.0;
    assert BestAmong(d, [0, 2], [2], 1) == Pick(0, 0.0);
    assert BestAmong(d, [0, 2], [2], 2) == Pick(0, 0.0);
    assert BestAmong(d, [0, 2], [2], 3) == Pick(0, 0.0);
    assert SeedsBefore(0, false, [2]) == [0, 2];
    assert NextPick(3, d, [0, 2], [2]) == 0;
    assert Picks(3, d, 0, false, 2) == [2, 0];
  }

  /** Positions of four points on a line: 0, 1, 2 and 10. */
  function LinePosition(p: nat): real {
    if p == 0 then 0.0 else if p == 1 then 1.0 else if p == 2 then 2.0 else 10.0
  }

  /** Absolute difference of line positions. */
  function LineDistance(a: nat, b: nat): real {
    var x := LinePosition(a) - LinePosition(b);
    if x < 0.0 then -x else x
  }

  /** The points 0, 1, 2, 10 with bootstrap point 0 and k == 2: keeping the
      bootstrap point gives [0, 10]; dropping it gives the point farthest from
      0, that is 10, and then the point farthest from 10, that is 0. */
  lemma LineExample()
    ensures Selection(4, LineDistance, 0, 2, false) == [0, 3]
    ensures Selection(4, LineDistance, 0, 2, true) == [3, 0]
  {
    var d: Distance := LineDistance;
    assert BestAmong(d, [0], [], 1) == Pick(0, 0.0);
    assert BestAmong(d, [0], [], 2) == Pick(1, 1.0);
    assert BestAmong(d, [0], [], 3) == Pick(2, 2.0);
    assert BestAmong(d, [0], [], 4) == Pick(3, 10.0);
    assert NextPick(4, d, [0], []) == 3;
    assert Picks(4, d, 0, false, 0) == [] && SeedsBefore(0, false, []) == [0];
    assert Picks(4, d, 0, false, 1) == [3];
    assert Picks(4, d, 0, true, 1) == [3];
    assert BestAmong(d, [3], [3], 1) == Pick(0, 10.0);
    assert BestAmong(d, [3], [3], 4) == Pick(0, 10.0);
    assert Picks(4, d, 0, true, 2) == [3, 0];
  }
}
