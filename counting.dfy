/** Counting facts about sequences of point indices: the pigeonhole steps that
    the distinctness and coverage properties of the seed selection rest on. */
module Counting {

  /** No index occurs twice in `s`. */
  predicate Distinct(s: seq<nat>) {
    forall a, b :: 0 <= a < b < |s| ==> s[a] != s[b]
  }

  /** The indices `0..n-1`. */
  function Range(n: nat): set<int> {
    if n == 0 then {} else Range(n - 1) + {n - 1}
  }

  lemma {:induction false} RangeMembers(n: nat)
    ensures forall q :: q in Range(n) <==> 0 <= q < n
  {
    if n > 0 {
      RangeMembers(n - 1);
    }
  }

  lemma {:induction false} RangeCard(n: nat)
    ensures |Range(n)| == n
  {
    if n > 0 {
      RangeCard(n - 1);
      RangeMembers(n - 1);
      assert n - 1 !in Range(n - 1);
    }
  }

  /** The set of indices occurring in `s`. */
  function Elems(s: seq<nat>): set<int> {
    if s == [] then {} else Elems(s[..|s| - 1]) + {s[|s| - 1]}
  }

  lemma {:induction false} ElemsMembers(s: seq<nat>)
    ensures forall q :: q in Elems(s) <==> q in s
  {
    if s != [] {
      ElemsMembers(s[..|s| - 1]);
      assert s == s[..|s| - 1] + [s[|s| - 1]];
    }
  }

  /** A sequence has at most as many distinct elements as it has entries, and
      exactly as many when it is `Distinct`. */
  lemma {:induction false} ElemsCard(s: seq<nat>)
    ensures |Elems(s)| <= |s|
    ensures Distinct(s) ==> |Elems(s)| == |s|
  {
    if s != [] {
      var init := s[..|s| - 1];
      var last := s[|s| - 1];
      ElemsCard(init);
      if Distinct(s) {
        assert Distinct(init);
        ElemsMembers(init);
        assert last !in Elems(init) by {
          forall a | 0 <= a < |init| ensures init[a] != last {
            assert s[a] != s[|s| - 1];
          }
        }
      }
    }
  }

  lemma SubsetCard(a: set<int>, b: set<int>)
    requires a <= b
    ensures |a| <= |b|
    ensures |a| == |b| ==> a == b
  {
    assert b == a + (b - a);
    if |a| == |b| {
      assert |b - a| == 0;
    }
  }

  /** Fewer than `n` entries cannot name all of the indices `0..n-1`. */
  lemma MissingPoint(s: seq<nat>, n: nat) returns (q: nat)
    requires |s| < n
    ensures q < n && q !in s
  {
    RangeMembers(n);
    ElemsMembers(s);
    if forall p :: 0 <= p < n ==> p in s {
      forall p | p in Range(n) ensures p in Elems(s) {
      }
      SubsetCard(Range(n), Elems(s));
      RangeCard(n);
      ElemsCard(s);
      assert false;
    }
    q :| 0 <= q < n && q !in s;
  }

  /** `n` distinct entries below `n` name every index `0..n-1`. */
  lemma CoversRange(s: seq<nat>, n: nat)
    requires Distinct(s) && |s| == n
    requires forall x :: x in s ==> x < n
    ensures forall q :: 0 <= q < n ==> q in s
  {
    RangeMembers(n);
    ElemsMembers(s);
    ElemsCard(s);
    RangeCard(n);
    forall p | p in Elems(s) ensures p in Range(n) {
    }
    SubsetCard(Elems(s), Range(n));
  }
}
