/**
 * The ratio-test matcher (`get_good_matches`).
 *
 * Every row of the query set is matched by brute force against every row of
 * the candidate set under the Hamming norm; `knnMatch(k=2)` reports the two
 * nearest candidate rows of each query row, and a query row yields a good
 * match when its nearest distance is below 0.75 times the second-nearest.
 * The score of a query against a candidate is the number of good matches.
 */
module Matcher {
  import opened Descriptors

  /** One correspondence reported by the brute-force matcher. */
  datatype DMatch = DMatch(queryIdx: nat, trainIdx: nat, distance: nat)

  /** Distances from one query row to every candidate row, in candidate order. */
  function Dists(q: Descriptor, cand: DescriptorSet): (ds: seq<nat>)
    ensures |ds| == |cand|
    ensures forall j :: 0 <= j < |cand| ==> ds[j] == Distance(q, cand[j])
  {
    seq(|cand|, j requires 0 <= j < |cand| => Distance(q, cand[j]))
  }

  /** `i` holds a smallest entry of `ds`, and `k` a smallest entry among all
      the others: the nearest and the second-nearest neighbour. */
  ghost predicate IsTwoNearest(ds: seq<nat>, i: nat, k: nat)
  {
    && i < |ds| && k < |ds| && i != k
    && (forall j :: 0 <= j < |ds| ==> ds[i] <= ds[j])
    && (forall j :: 0 <= j < |ds| && j != i ==> ds[k] <= ds[j])
  }

  /** Positions of the nearest and second-nearest entries of `ds`; among equal
      distances the earlier position is taken. */
  function NearestTwo(ds: seq<nat>): (r: (nat, nat))
    requires |ds| >= 2
    ensures IsTwoNearest(ds, r.0, r.1)
  {
    if |ds| == 2 then
      (if ds[1] < ds[0] then (1, 0) else (0, 1))
    else
      var front := ds[..|ds| - 1];
      var (i, k) := NearestTwo(front);
      var last := |ds| - 1;
      assert forall j :: 0 <= j < last ==> front[j] == ds[j];
      if ds[last] < ds[i] then (last, i)
      else if ds[last] < ds[k] then (i, last)
      else (i, k)
  }

  /** Whichever equidistant rows a matcher reports as the two nearest, the
      two distances are the same: tie-breaking never changes them. */
  lemma TwoNearestDistancesUnique(ds: seq<nat>, i: nat, k: nat, i': nat, k': nat)
    requires IsTwoNearest(ds, i, k) && IsTwoNearest(ds, i', k')
    ensures ds[i] == ds[i'] && ds[k] == ds[k']
  {
  }

  /** `knnMatch(k=2)` for one query row: the nearest and the second-nearest
      candidate rows, in that order, or fewer when there are fewer rows. */
  function KnnRow(qi: nat, q: Descriptor, cand: DescriptorSet): (pair: seq<DMatch>)
    ensures |pair| == if |cand| < 2 then |cand| else 2
    ensures forall m :: m in pair ==>
              m.queryIdx == qi && m.trainIdx < |cand| && m.distance == Distance(q, cand[m.trainIdx])
    ensures |pair| >= 1 ==> forall j :: 0 <= j < |cand| ==> pair[0].distance <= Distance(q, cand[j])
    ensures |pair| == 2 ==> IsTwoNearest(Dists(q, cand), pair[0].trainIdx, pair[1].trainIdx)
  {
    var ds := Dists(q, cand);
    if |cand| == 0 then []
    else if |cand| == 1 then [DMatch(qi, 0, ds[0])]
    else
      var (i, k) := NearestTwo(ds);
      [DMatch(qi, i, ds[i]), DMatch(qi, k, ds[k])]
  }

  /** `knnMatch(desc1, desc2, k=2)`: one `KnnRow` per query row. */
  function KnnMatch(query: DescriptorSet, cand: DescriptorSet): (matches: seq<seq<DMatch>>)
    ensures |matches| == |query|
    ensures forall i :: 0 <= i < |matches| ==>
              && |matches[i]| == (if |cand| < 2 then |cand| else 2)
              && forall m :: m in matches[i] ==>
                   m.queryIdx == i && m.trainIdx < |cand| && m.distance == Distance(query[i], cand[m.trainIdx])
  {
    seq(|query|, i requires 0 <= i < |query| => KnnRow(i, query[i], cand))
  }

  /** Lowe's ratio test `nearest < 0.75 * second` in integers. It is exact:
      0.75 is a binary fraction and Hamming distances are whole numbers. */
  function RatioTest(nearest: nat, second: nat): (good: bool)
    ensures good <==> (nearest as real) < 0.75 * (second as real)
  {
    4 * nearest < 3 * second
  }

  /** Holding the second-nearest distance fixed, a nearer nearest neighbour
      can turn a rejection into an acceptance, never the reverse. */
  lemma RatioTestMonotone(nearest: nat, nearer: nat, second: nat)
    requires nearer <= nearest
    ensures RatioTest(nearest, second) ==> RatioTest(nearer, second)
    ensures !RatioTest(nearer, second) ==> !RatioTest(nearest, second)
  {
  }

  /** Reference definition: query row `q` yields a good match against `cand`
      when `cand` has at least two rows and the nearest distance passes the
      ratio test against the second-nearest. */
  predicate RowGood(q: Descriptor, cand: DescriptorSet)
  {
    && |cand| >= 2
    && var ds := Dists(q, cand);
       var (i, k) := NearestTwo(ds);
       RatioTest(ds[i], ds[k])
  }

  /** The verdict on a row depends only on the two smallest distances, so any
      valid choice of the two nearest rows gives the same verdict. */
  lemma RowGoodAnyTwoNearest(q: Descriptor, cand: DescriptorSet, i: nat, k: nat)
    requires IsTwoNearest(Dists(q, cand), i, k)
    ensures RowGood(q, cand) <==> RatioTest(Distance(q, cand[i]), Distance(q, cand[k]))
  {
  }

  /** The ratio-test verdict of every query row, in query order. */
  function Verdicts(query: DescriptorSet, cand: DescriptorSet): (v: seq<bool>)
    ensures |v| == |query|
  {
    seq(|query|, i requires 0 <= i < |query| => RowGood(query[i], cand))
  }

  /** Positions among the first `n` entries of `v` that hold `true`, in order. */
  function Positions(v: seq<bool>, n: nat): seq<nat>
    requires n <= |v|
  {
    if n == 0 then []
    else Positions(v, n - 1) + (if v[n - 1] then [n - 1] else [])
  }

  /** `g` lists positions below `n` in strictly increasing order. */
  ghost predicate IncreasingBelow(g: seq<nat>, n: nat)
  {
    && (forall k :: 0 <= k < |g| ==> g[k] < n)
    && (forall k, l :: 0 <= k < l < |g| ==> g[k] < g[l])
  }

  /** `Positions` lists only `true` positions, each once, in increasing order. */
  lemma {:induction false} PositionsSound(v: seq<bool>, n: nat)
    requires n <= |v|
    ensures |Positions(v, n)| <= n
    ensures IncreasingBelow(Positions(v, n), n)
    ensures forall k :: 0 <= k < |Positions(v, n)| ==> v[Positions(v, n)[k]]
  {
    if n > 0 {
      var p := Positions(v, n - 1);
      PositionsSound(v, n - 1);
      if v[n - 1] {
        var g := p + [n - 1];
        assert Positions(v, n) == g;
        forall k, l | 0 <= k < l < |g| ensures g[k] < g[l] {
          if l < |p| { assert g[k] == p[k] && g[l] == p[l]; }
        }
        forall k | 0 <= k < |g| ensures g[k] < n && v[g[k]] {
          if k < |p| { assert g[k] == p[k]; }
        }
      } else {
        assert Positions(v, n) == p;
      }
    }
  }

  /** `Positions` lists every `true` position. */
  lemma {:induction false} PositionsComplete(v: seq<bool>, n: nat, i: nat)
    requires i < n <= |v| && v[i]
    ensures i in Positions(v, n)
  {
    if i < n - 1 {
      PositionsComplete(v, n - 1, i);
    }
  }

  /** All `true` entries give all positions; no `true` entry gives none. */
  lemma {:induction false} PositionsExtremes(v: seq<bool>, n: nat)
    requires n <= |v|
    ensures (forall i :: 0 <= i < n ==> v[i]) ==> |Positions(v, n)| == n
    ensures (forall i :: 0 <= i < n ==> !v[i]) ==> Positions(v, n) == []
  {
    if n > 0 {
      PositionsExtremes(v, n - 1);
    }
  }

  /** Indices, in query order, of the query rows that yield a good match. */
  function GoodIndices(query: DescriptorSet, cand: DescriptorSet): seq<nat>
  {
    Positions(Verdicts(query, cand), |query|)
  }

  /** `len(get_good_matches(query, cand))`. */
  function Score(query: DescriptorSet, cand: DescriptorSet): (score: nat)
    ensures score <= |query|
  {
    PositionsSound(Verdicts(query, cand), |query|);
    |GoodIndices(query, cand)|
  }

  /** Each query row contributes at most one good match, and does so exactly
      when it passes the ratio test; good matches appear in query order. So
      the score is at most the number of query rows. */
  lemma GoodIndicesSpec(query: DescriptorSet, cand: DescriptorSet)
    ensures Score(query, cand) <= |query|
    ensures IncreasingBelow(GoodIndices(query, cand), |query|)
    ensures forall i :: 0 <= i < |query| ==> (i in GoodIndices(query, cand) <==> RowGood(query[i], cand))
  {
    var v := Verdicts(query, cand);
    PositionsSound(v, |query|);
    forall i | 0 <= i < |query|
      ensures i in GoodIndices(query, cand) <==> RowGood(query[i], cand)
    {
      if v[i] {
        PositionsComplete(v, |query|, i);
      }
    }
  }

  /** With fewer than two candidate rows (in particular an empty candidate
      set) no row has a complete pair, so the score is 0; an empty query
      scores 0 as well. */
  lemma ScoreZeroWithoutPairs(query: DescriptorSet, cand: DescriptorSet)
    requires |query| == 0 || |cand| < 2
    ensures Score(query, cand) == 0
  {
    PositionsExtremes(Verdicts(query, cand), |query|);
  }

  /** A row of a set of pairwise different rows, matched against that set,
      passes the ratio test: it is at distance 0 from itself and at a
      positive distance from every other row. */
  lemma SelfRowGood(ds: DescriptorSet, r: nat)
    requires |ds| >= 2 && r < |ds|
    requires forall a, b :: 0 <= a < b < |ds| ==> ds[a] != ds[b]
    ensures RowGood(ds[r], ds)
  {
    var dd := Dists(ds[r], ds);
    var (i, k) := NearestTwo(dd);
    HammingZeroIff(ds[r], ds[r]);
    HammingZeroIff(ds[r], ds[i]);
    HammingZeroIff(ds[r], ds[k]);
    assert dd[i] <= dd[r] == 0;
    assert ds[i] == ds[r];
    assert i == r;
    assert dd[k] > 0;
  }

  /** A set of at least two pairwise different rows matched against itself
      scores one good match per row. */
  lemma SelfMatchScoresEveryRow(ds: DescriptorSet)
    requires |ds| >= 2
    requires forall a, b :: 0 <= a < b < |ds| ==> ds[a] != ds[b]
    ensures Score(ds, ds) == |ds|
  {
    var v := Verdicts(ds, ds);
    forall r | 0 <= r < |ds|
      ensures v[r]
    {
      SelfRowGood(ds, r);
    }
    PositionsExtremes(v, |ds|);
  }

  /** `m` is a good match of the query against the candidate: it links a query
      row passing the ratio test to one of its nearest candidate rows. */
  ghost predicate IsGoodMatch(desc1: DescriptorSet, desc2: DescriptorSet, m: DMatch)
  {
    && m.queryIdx < |desc1| && m.trainIdx < |desc2|
    && m.distance == Distance(desc1[m.queryIdx], desc2[m.trainIdx])
    && (forall j :: 0 <= j < |desc2| ==> m.distance <= Distance(desc1[m.queryIdx], desc2[j]))
    && RowGood(desc1[m.queryIdx], desc2)
  }

  /** `get_good_matches`: the good matches of the live descriptors `desc1`
      against the stored descriptors `desc2`, one per passing query row, in
      query order. */
  method GetGoodMatches(desc1: DescriptorSet, desc2: DescriptorSet) returns (good: seq<DMatch>)
    ensures Size(desc1) == 0 || Size(desc2) == 0 ==> good == []
    ensures |good| == Score(desc1, desc2)
    ensures forall k :: 0 <= k < |good| ==>
              good[k].queryIdx == GoodIndices(desc1, desc2)[k] && IsGoodMatch(desc1, desc2, good[k])
  {
    if Size(desc1) == 0 || Size(desc2) == 0 {
      ScoreZeroWithoutPairs(desc1, desc2);
      return [];
    }
    var matches := KnnMatch(desc1, desc2);
    ghost var verdicts := Verdicts(desc1, desc2);
    good := [];
    for i := 0 to |matches|
      invariant |good| == |Positions(verdicts, i)|
      invariant forall k :: 0 <= k < |good| ==>
                  good[k].queryIdx == Positions(verdicts, i)[k] && IsGoodMatch(desc1, desc2, good[k])
    {
      var pair := matches[i];
      assert pair == KnnRow(i, desc1[i], desc2);
      if |pair| == 2 {
        var m, n := pair[0], pair[1];
        RowGoodAnyTwoNearest(desc1[i], desc2, m.trainIdx, n.trainIdx);
        if RatioTest(m.distance, n.distance) {
          good := good + [m];
        }
      }
    }
  }
}
