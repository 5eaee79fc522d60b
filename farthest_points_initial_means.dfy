/** The farthest-point seeding of FarthestPointsInitialMeans: the min-distance
    store is an array with one entry per point, every round scans the points
    in order, folds the distance to the newest seed into the store, and
    excludes the winner. Both entry points are proved to return exactly the
    cache-free traversal of module FarthestFirst. */
module FarthestPointsInitialMeans {
  import opened FarthestFirst

  /** One entry of the min-distance store: Unconstrained stands for the
      initial +infinity, Excluded for the NaN marker of a chosen point. */
  datatype Entry = Unconstrained | Dist(r: real) | Excluded

  /** The value a scan computes for a point that is not excluded:
      min(store[p], d(prev, p)). */
  function Candidate(e: Entry, dist: real): (r: real)
    requires !e.Excluded?
    ensures r <= dist && (e.Dist? ==> r <= e.r)
    ensures r == dist || (e.Dist? && r == e.r)
  {
    match e
    case Unconstrained => dist
    case Dist(r) => Min(r, dist)
  }

  /** What the store holds for an eligible point once the distances to the
      seeds `committed` have been stored. */
  function Committed(d: Distance, committed: seq<nat>, p: nat): Entry {
    if committed == [] then Unconstrained else Dist(MinDist(d, committed, p))
  }

  /** Minimum of minimums: folding the distance to a new seed into the stored
      minimum over the earlier seeds gives the minimum over all of them. */
  lemma IncrementalMin(d: Distance, committed: seq<nat>, x: nat, p: nat)
    ensures Candidate(Committed(d, committed, p), d(x, p)) == MinDist(d, committed + [x], p)
  {
    var s := committed + [x];
    assert s[..|s| - 1] == committed;
  }

  /** One scan over all points. Excluded points are skipped; every other point
      gets min(store[p], d(prev, p)), which is written back only when i > 0,
      and the first point with the strictly largest value wins. When no point
      is eligible `best` keeps its value, the previous seed `prev`, which is returned. */
  method FindFarthest(store: array<Entry>, d: Distance, prev: nat, i: int,
                      ghost seeds: seq<nat>, ghost picked: seq<nat>) returns (next: nat, ghost calls: nat)
    requires |seeds| > 0 && prev == seeds[|seeds| - 1] && prev < store.Length
    requires forall p :: 0 <= p < store.Length ==> (store[p].Excluded? <==> p in picked)
    requires forall p :: 0 <= p < store.Length && !store[p].Excluded? ==>
               store[p] == Committed(d, seeds[..|seeds| - 1], p)
    modifies store
    ensures forall p :: 0 <= p < store.Length ==>
              store[p] == if i > 0 && !old(store[p]).Excluded? then Dist(MinDist(d, seeds, p)) else old(store[p])
    ensures next == NextPick(store.Length, d, seeds, picked) && next < store.Length
    ensures calls <= store.Length
  {
    calls := 0;
    var maxdist: real := 0.0;
    var found := false;  // false while maxdist is still -infinity
    next := prev;  // best still holds the previous seed
    var it := 0;
    while it < store.Length
      invariant 0 <= it <= store.Length && calls <= it
      invariant forall p :: 0 <= p < store.Length ==>
                  store[p] == if p < it && i > 0 && !old(store[p]).Excluded? then Dist(MinDist(d, seeds, p)) else old(store[p])
      invariant var b := BestAmong(d, seeds, picked, it);
                && found == b.Pick?
                && (found ==> next == b.point && maxdist == b.score)
                && (!found ==> next == prev)
    {
      ghost var b := BestAmong(d, seeds, picked, it);
      assert BestAmong(d, seeds, picked, it + 1) ==
        if it in picked then b
        else if b.NoPick? || MinDist(d, seeds, it) > b.score then Pick(it, MinDist(d, seeds, it))
        else b;
      var e := store[it];
      assert e == old(store[it]) && (e.Excluded? <==> it in picked);
      if !e.Excluded? {
        var val := Candidate(e, d(prev, it));
        calls := calls + 1;
        IncrementalMin(d, seeds[..|seeds| - 1], prev, it);
        assert seeds[..|seeds| - 1] + [prev] == seeds;
        assert val == MinDist(d, seeds, it);
        if i > 0 {
          store[it] := Dist(val);
        }
        if !found || val > maxdist {
          maxdist := val;
          next := it;
          found := true;
        }
      }
      it := it + 1;
    }
  }

  /** What the store holds between rounds, given the seeds in force and the
      points picked so far: exactly the picked points are excluded, and every
      other point holds its minimum distance to all seeds but the newest one
      (Unconstrained while there are none). */
  ghost predicate StoreHolds(store: seq<Entry>, d: Distance, seeds: seq<nat>, picked: seq<nat>)
    requires |seeds| > 0
  {
    && (forall p :: 0 <= p < |store| ==> (store[p].Excluded? <==> p in picked))
    && (forall p :: 0 <= p < |store| && !store[p].Excluded? ==>
          store[p] == Committed(d, seeds[..|seeds| - 1], p))
  }

  /** One iteration i of the outer loop: scan, clear the list at i == 0,
      exclude the winner and append it. */
  method Round(store: array<Entry>, d: Distance, first: nat, dropfirst: bool, i: int,
               prevmean: nat, means: seq<nat>, ghost picked: seq<nat>)
    returns (best: nat, means': seq<nat>, ghost calls: nat)
    requires first < store.Length && i == Start(dropfirst) + |picked|
    requires picked == Picks(store.Length, d, first, dropfirst, |picked|)
    requires means == SeedsBefore(first, dropfirst, picked)
    requires prevmean == means[|means| - 1] && prevmean < store.Length
    requires StoreHolds(store[..], d, means, picked)
    modifies store
    ensures picked + [best] == Picks(store.Length, d, first, dropfirst, |picked| + 1)
    ensures means' == SeedsBefore(first, dropfirst, picked + [best])
    ensures best < store.Length && StoreHolds(store[..], d, means', picked + [best])
    ensures i == 0 ==> store[..] == old(store[..])[best := Excluded]
    ensures calls <= store.Length
  {
    ghost var before := store[..];
    best, calls := FindFarthest(store, d, prevmean, i, means, picked);
    ghost var scanned := store[..];
    PicksStep(store.Length, d, first, dropfirst, picked);
    means' := means;
    if i == 0 {
      means' := [];  // the bootstrap point was only scaffolding
    }
    store[best] := Excluded;
    means' := means' + [best];
    StoreAfterRound(before, scanned, d, i, means, picked, best, means');
    assert store[..] == scanned[best := Excluded];
  }

  /** The store after a round: the scan has folded the newest seed into every
      eligible entry (unless i == 0) and the winner is excluded, which is what
      StoreHolds asks of the next round. */
  lemma StoreAfterRound(before: seq<Entry>, scanned: seq<Entry>, d: Distance, i: int,
                        seeds: seq<nat>, picked: seq<nat>, best: nat, seeds': seq<nat>)
    requires |seeds| > 0 && StoreHolds(before, d, seeds, picked)
    requires |scanned| == |before| && best < |before|
    requires forall p :: 0 <= p < |before| ==>
               scanned[p] == if i > 0 && !before[p].Excluded? then Dist(MinDist(d, seeds, p)) else before[p]
    requires i >= 0 && (i == 0 ==> |seeds| == 1)
    requires seeds' == (if i == 0 then [] else seeds) + [best]
    ensures StoreHolds(scanned[best := Excluded], d, seeds', picked + [best])
  {
    var committed := seeds'[..|seeds'| - 1];
    assert committed == if i == 0 then [] else seeds;
    ExclusionAfterRound(before, scanned, d, i, seeds, picked, best);
    CommittedAfterRound(before, scanned, d, i, seeds, picked, best, committed);
  }

  /** After a round exactly the earlier picks and the winner are excluded. */
  lemma ExclusionAfterRound(before: seq<Entry>, scanned: seq<Entry>, d: Distance, i: int,
                            seeds: seq<nat>, picked: seq<nat>, best: nat)
    requires |seeds| > 0 && |scanned| == |before| && best < |before|
    requires forall p :: 0 <= p < |before| ==> (before[p].Excluded? <==> p in picked)
    requires forall p :: 0 <= p < |before| ==>
               scanned[p] == if i > 0 && !before[p].Excluded? then Dist(MinDist(d, seeds, p)) else before[p]
    ensures forall p :: 0 <= p < |before| ==>
              (scanned[best := Excluded][p].Excluded? <==> p in picked + [best])
  {
    var after := scanned[best := Excluded];
    forall p | 0 <= p < |after|
      ensures after[p].Excluded? <==> p in picked + [best]
    {
      assert before[p].Excluded? <==> p in picked;
    }
  }

  /** After a round every eligible entry holds its minimum distance to the
      seeds the next round commits to. */
  lemma CommittedAfterRound(before: seq<Entry>, scanned: seq<Entry>, d: Distance, i: int,
                            seeds: seq<nat>, picked: seq<nat>, best: nat, committed: seq<nat>)
    requires |seeds| > 0 && |scanned| == |before| && best < |before|
    requires forall p :: 0 <= p < |before| && !before[p].Excluded? ==>
               before[p] == Committed(d, seeds[..|seeds| - 1], p)
    requires forall p :: 0 <= p < |before| ==>
               scanned[p] == if i > 0 && !before[p].Excluded? then Dist(MinDist(d, seeds, p)) else before[p]
    requires i >= 0 && (i == 0 ==> |seeds| == 1)
    requires committed == if i == 0 then [] else seeds
    ensures forall p :: 0 <= p < |before| && !scanned[best := Excluded][p].Excluded? ==>
              scanned[best := Excluded][p] == Committed(d, committed, p)
  {
    var after := scanned[best := Excluded];
    forall p | 0 <= p < |after| && !after[p].Excluded?
      ensures after[p] == Committed(d, committed, p)
    {
      assert p != best && after[p] == scanned[p];
      EntryAfterRound(before[p], scanned[p], d, i, seeds, p, committed);
    }
  }

  /** The entry of one eligible point after a scan: the newest seed is folded
      in, except in round 0, where the scaffolding seed is discarded and the
      entry stays Unconstrained. */
  lemma EntryAfterRound(before: Entry, scanned: Entry, d: Distance, i: int,
                        seeds: seq<nat>, p: nat, committed: seq<nat>)
    requires |seeds| > 0 && i >= 0 && (i == 0 ==> |seeds| == 1)
    requires !before.Excluded? ==> before == Committed(d, seeds[..|seeds| - 1], p)
    requires scanned == if i > 0 && !before.Excluded? then Dist(MinDist(d, seeds, p)) else before
    requires committed == if i == 0 then [] else seeds
    ensures !scanned.Excluded? ==> scanned == Committed(d, committed, p)
  {
    if i == 0 {
      assert seeds[..|seeds| - 1] == [];
    }
  }

  /** The id-returning entry point: the greedy loop over the rounds
      i = (dropfirst ? 0 : 1) .. k-1, starting from the bootstrap point
      `first`. */
  method ChooseInitialMedoids(n: nat, d: Distance, first: nat, k: int, dropfirst: bool)
    returns (means: seq<nat>, ghost calls: nat)
    requires first < n
    ensures means == Selection(n, d, first, k, dropfirst)
    ensures calls <= Rounds(k, dropfirst) * n
  {
    calls := 0;
    var store := new Entry[n](_ => Unconstrained);
    means := [first];
    var prevmean := first;
    var best := first;
    ghost var picked: seq<nat> := [];
    var i: int := if dropfirst then 0 else 1;
    InitialStore(store[..], d, first);
    while i < k
      invariant i == Start(dropfirst) + |picked| && |picked| <= Rounds(k, dropfirst)
      invariant picked == Picks(n, d, first, dropfirst, |picked|)
      invariant means == SeedsBefore(first, dropfirst, picked)
      invariant best == prevmean == means[|means| - 1] && best < n
      invariant store.Length == n && StoreHolds(store[..], d, means, picked)
      invariant calls <= |picked| * n
      decreases k - i
    {
      ghost var roundCalls;
      best, means, roundCalls := Round(store, d, first, dropfirst, i, prevmean, means, picked);
      CallsBound(calls, roundCalls, |picked|, n);
      calls := calls + roundCalls;
      prevmean := best;
      picked := picked + [best];
      i := i + 1;
    }
    assert |picked| == Rounds(k, dropfirst);
  }

  /** Before the first round every entry is Unconstrained and nothing is
      excluded. */
  lemma InitialStore(store: seq<Entry>, d: Distance, first: nat)
    requires forall p :: 0 <= p < |store| ==> store[p] == Unconstrained
    ensures StoreHolds(store, d, [first], [])
  {
  }

  /** At most n distance evaluations per round add up to at most rounds * n. */
  lemma CallsBound(total: nat, round: nat, rounds: nat, n: nat)
    requires total <= rounds * n && round <= n
    ensures total + round <= (rounds + 1) * n
  {
  }

  /** One more round appends the next pick to the picks and to the seeds. */
  lemma PicksStep(n: nat, d: Distance, first: nat, dropfirst: bool, picked: seq<nat>)
    requires first < n && picked == Picks(n, d, first, dropfirst, |picked|)
    ensures var next := NextPick(n, d, SeedsBefore(first, dropfirst, picked), picked);
            && Picks(n, d, first, dropfirst, |picked| + 1) == picked + [next]
            && SeedsBefore(first, dropfirst, picked + [next])
               == (if dropfirst && picked == [] then [] else SeedsBefore(first, dropfirst, picked)) + [next]
  {
  }

  /** What the vector-returning entry point gives back: the seed vectors, or
      the failure of the list allocation, whose capacity hint is k. */
  datatype Outcome<V> = Seeds(means: seq<V>) | NegativeCapacity

  /** The vector-returning entry point: the same selection, each chosen point
      resolved to its vector by `get`. The result list is allocated with
      capacity k, which fails for a negative k before anything is chosen. */
  method ChooseInitialMeans<V>(n: nat, d: Distance, first: nat, k: int, dropfirst: bool, get: nat -> V)
    returns (r: Outcome<V>)
    requires first < n
    ensures r.NegativeCapacity? <==> k < 0
    ensures r.Seeds? ==> var ids := Selection(n, d, first, k, dropfirst);
            |r.means| == |ids| && forall j :: 0 <= j < |ids| ==> r.means[j] == get(ids[j])
  {
    if k < 0 {
      return NegativeCapacity;
    }
    var ids, _ := ChooseInitialMedoids(n, d, first, k, dropfirst);
    r := Seeds(seq(|ids|, j requires 0 <= j < |ids| => get(ids[j])));
  }

  /** The default of the keepfirst option. */
  const DefaultKeepFirst := false

  /** By default the bootstrap point is dropped. */
  lemma DefaultDropsFirst()
    ensures MakeInstance(DefaultKeepFirst)
  {
  }

  /** The Parameterizer's instance: the bootstrap point is dropped exactly
      when keepfirst is not set. */
  function MakeInstance(keepfirst: bool): (dropfirst: bool)
    ensures dropfirst != keepfirst
  {
    !keepfirst
  }
}
