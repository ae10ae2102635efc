/** The resolution classifier: every meta index in turn is looked up among
    the non-last slots of the remaining clusters; the first hit marks it for
    removal and shrinks that cluster (or drops it once only two members are
    left), and an index without a hit is kept. */
module Classifier {
  import opened Seqs

  /** Slot `j` of cluster `i` holds `m` and is not that cluster's last slot. */
  predicate IsHit(clusters: seq<seq<nat>>, m: nat, i: nat, j: nat)
  {
    i < |clusters| && j + 1 < |clusters[i]| && clusters[i][j] == m
  }

  /** `m` sits in some cluster at a slot other than the last. */
  ghost predicate NonLastMember(clusters: seq<seq<nat>>, m: nat)
  {
    exists i: nat, j: nat :: IsHit(clusters, m, i, j)
  }

  /** The loop counters `(i, j)` at which `skip_this_index` becomes true. */
  datatype Hit = Hit(cluster: nat, position: nat)

  /** `a` is met before `b` by the nested scan. */
  predicate Before(a: Hit, b: Hit)
  {
    a.cluster < b.cluster || (a.cluster == b.cluster && a.position < b.position)
  }

  /** The inner loop over slots `j..` of one cluster, last slot excluded. */
  function FindInCluster(c: seq<nat>, m: nat, j: nat): (r: Option<nat>)
    ensures r.Some? ==> j <= r.value && r.value + 1 < |c| && c[r.value] == m
    ensures forall k :: j <= k && k + 1 < |c| && c[k] == m ==> r.Some? && r.value <= k
    decreases |c| - j
  {
    if j + 1 >= |c| then None
    else if c[j] == m then Some(j)
    else FindInCluster(c, m, j + 1)
  }

  /** The outer loop over clusters `i..`: the first hit in scan order. */
  function FindHit(clusters: seq<seq<nat>>, m: nat, i: nat): (r: Option<Hit>)
    ensures r.Some? ==> i <= r.value.cluster && IsHit(clusters, m, r.value.cluster, r.value.position)
    ensures forall a: nat, k: nat :: i <= a && IsHit(clusters, m, a, k) ==>
      r.Some? && !Before(Hit(a, k), r.value)
    decreases |clusters| - i
  {
    if i >= |clusters| then None
    else match FindInCluster(clusters[i], m, 0)
      case Some(j) => Some(Hit(i, j))
      case None => FindHit(clusters, m, i + 1)
  }

  /** The deletion after a hit: the member leaves a cluster of more than two
      (the cluster keeps its last element), and a two-member cluster is
      dropped whole. */
  function Prune(clusters: seq<seq<nat>>, h: Hit): (r: seq<seq<nat>>)
    requires h.cluster < |clusters| && h.position + 1 < |clusters[h.cluster]|
    ensures var c := clusters[h.cluster];
      if |c| > 2 then
        && |r| == |clusters|
        && |r[h.cluster]| == |c| - 1
        && Last(r[h.cluster]) == Last(c)
        && (forall x :: 0 <= x < |r[h.cluster]| ==>
              r[h.cluster][x] == c[if x < h.position then x else x + 1])
        && forall t :: 0 <= t < |r| && t != h.cluster ==> r[t] == clusters[t]
      else
        && |r| == |clusters| - 1
        && forall t :: 0 <= t < |r| ==> r[t] == clusters[if t < h.cluster then t else t + 1]
    ensures (forall t :: 0 <= t < |clusters| ==> |clusters[t]| >= 2) ==>
      forall t :: 0 <= t < |r| ==> |r[t]| >= 2
  {
    var c := clusters[h.cluster];
    if |c| > 2 then clusters[h.cluster := RemoveAt(c, h.position)]
    else RemoveAt(clusters, h.cluster)
  }

  /** `skip_this_index` after the nested scan for `m`: set exactly when
      `m` sits at a non-last slot of some cluster. */
  function Skip(clusters: seq<seq<nat>>, m: nat): (r: bool)
    ensures r <==> NonLastMember(clusters, m)
  {
    var hit := FindHit(clusters, m, 0);
    assert hit.Some? ==> IsHit(clusters, m, hit.value.cluster, hit.value.position);
    hit.Some?
  }

  /** The clusters as the iteration for `m` leaves them. */
  function Next(clusters: seq<seq<nat>>, m: nat): seq<seq<nat>>
  {
    match FindHit(clusters, m, 0)
    case None => clusters
    case Some(h) => Prune(clusters, h)
  }

  /** `files_suggested_to_be_removed` and `files_suggested_to_be_kept`, as
      meta indices. */
  datatype Outcome = Outcome(removed: seq<nat>, kept: seq<nat>)

  /** Every index from `m` below `n` is in exactly one list, no other
      index is in either, and both lists are in increasing order. */
  ghost predicate SplitsRange(r: Outcome, m: nat, n: nat)
  {
    && StrictlyIncreasing(r.removed) && StrictlyIncreasing(r.kept)
    && (forall k :: k in r.removed || k in r.kept ==> m <= k < n)
    && (forall k :: m <= k < n ==> (k in r.removed <==> k !in r.kept))
    && |r.removed| + |r.kept| == if m < n then n - m else 0
  }

  /** Putting `m` in front of either list of a split of `m + 1` up to `n`
      splits `m` up to `n`. */
  lemma ConsSplits(r: Outcome, m: nat, n: nat)
    requires m < n && SplitsRange(r, m + 1, n)
    ensures SplitsRange(Outcome([m] + r.removed, r.kept), m, n)
    ensures SplitsRange(Outcome(r.removed, [m] + r.kept), m, n)
  {
    assert forall b :: 0 <= b < |r.removed| ==> r.removed[b] in r.removed;
    assert forall b :: 0 <= b < |r.kept| ==> r.kept[b] in r.kept;
    ConsIncreasing(m, r.removed);
    ConsIncreasing(m, r.kept);
  }

  /** The main loop from meta index `m` up to `n`, on the clusters as the
      earlier iterations left them: every index from `m` below `n` goes to
      exactly one list, and both lists are in increasing order. */
  function ClassifyFrom(clusters: seq<seq<nat>>, m: nat, n: nat): (r: Outcome)
    ensures SplitsRange(r, m, n)
    decreases n - m
  {
    if m >= n then Outcome([], [])
    else
      var rest := ClassifyFrom(Next(clusters, m), m + 1, n);
      ConsSplits(rest, m, n);
      if Skip(clusters, m) then Outcome([m] + rest.removed, rest.kept)
      else Outcome(rest.removed, [m] + rest.kept)
  }

  /** The current index `m` is removed exactly when the scan finds it at a
      non-last slot. */
  lemma ClassifyPartitions(clusters: seq<seq<nat>>, m: nat, n: nat)
    requires m < n
    ensures m in ClassifyFrom(clusters, m, n).removed <==> NonLastMember(clusters, m)
  {
  }

  /** The whole loop over `range(len(meta_texts))`: both lists are in
      increasing order, and every meta index is either removed or kept,
      never both. */
  function Classify(clusters: seq<seq<nat>>, n: nat): (r: Outcome)
    ensures StrictlyIncreasing(r.removed) && StrictlyIncreasing(r.kept)
    ensures forall k :: k in r.removed || k in r.kept ==> k < n
    ensures forall k :: 0 <= k < n ==> (k in r.removed <==> k !in r.kept)
    ensures |r.removed| + |r.kept| == n
  {
    ClassifyFrom(clusters, 0, n)
  }

  /** Where slot `(t, j)` of `Prune(clusters, h)` comes from in `clusters`. */
  function Origin(clusters: seq<seq<nat>>, h: Hit, t: nat, j: nat): Hit
    requires h.cluster < |clusters|
  {
    if |clusters[h.cluster]| > 2 then
      Hit(t, if t == h.cluster && j >= h.position then j + 1 else j)
    else
      Hit(if t >= h.cluster then t + 1 else t, j)
  }

  /** Every slot of the pruned clusters is an old slot other than the hit,
      and a non-last slot comes from a non-last slot. */
  lemma PruneOrigin(clusters: seq<seq<nat>>, h: Hit, t: nat, j: nat)
    requires h.cluster < |clusters| && h.position + 1 < |clusters[h.cluster]|
    requires t < |Prune(clusters, h)| && j < |Prune(clusters, h)[t]|
    ensures var o := Origin(clusters, h, t, j);
      && o.cluster < |clusters| && o.position < |clusters[o.cluster]|
      && Prune(clusters, h)[t][j] == clusters[o.cluster][o.position]
      && o != h
      && (j + 1 < |Prune(clusters, h)[t]| ==> o.position + 1 < |clusters[o.cluster]|)
  {
  }

  /** Pruning keeps every index occurring once. */
  lemma PruneOccursOnce(clusters: seq<seq<nat>>, h: Hit)
    requires OccursOnce(clusters)
    requires h.cluster < |clusters| && h.position + 1 < |clusters[h.cluster]|
    ensures OccursOnce(Prune(clusters, h))
  {
    var r := Prune(clusters, h);
    forall t, j, t', j' |
      && 0 <= t < |r| && 0 <= j < |r[t]|
      && 0 <= t' < |r| && 0 <= j' < |r[t']|
      && r[t][j] == r[t'][j']
      ensures t == t' && j == j'
    {
      PruneOrigin(clusters, h, t, j);
      PruneOrigin(clusters, h, t', j');
      var o, o' := Origin(clusters, h, t, j), Origin(clusters, h, t', j');
      assert clusters[o.cluster][o.position] == clusters[o'.cluster][o'.position];
    }
  }

  /** A non-last member after pruning was one before and is not the hit's
      index (when every index occurs once). */
  lemma PruneNonLastBefore(clusters: seq<seq<nat>>, h: Hit, x: nat)
    requires OccursOnce(clusters)
    requires h.cluster < |clusters| && h.position + 1 < |clusters[h.cluster]|
    requires NonLastMember(Prune(clusters, h), x)
    ensures NonLastMember(clusters, x) && x != clusters[h.cluster][h.position]
  {
    var r := Prune(clusters, h);
    var t: nat, j: nat :| IsHit(r, x, t, j);
    PruneOrigin(clusters, h, t, j);
    var o := Origin(clusters, h, t, j);
    assert IsHit(clusters, x, o.cluster, o.position);
  }

  /** Every other non-last member survives pruning as a non-last member. */
  lemma PruneNonLastAfter(clusters: seq<seq<nat>>, h: Hit, t: nat, j: nat)
    requires h.cluster < |clusters| && h.position + 1 < |clusters[h.cluster]|
    requires t < |clusters| && j + 1 < |clusters[t]| && (t, j) != (h.cluster, h.position)
    ensures NonLastMember(Prune(clusters, h), clusters[t][j])
  {
    var r := Prune(clusters, h);
    var i, p := h.cluster, h.position;
    if |clusters[i]| > 2 {
      if t != i || j < p {
        assert IsHit(r, clusters[t][j], t, j);
      } else {
        assert IsHit(r, clusters[t][j], t, j - 1);
      }
    } else if t < i {
      assert IsHit(r, clusters[t][j], t, j);
    } else {
      assert IsHit(r, clusters[t][j], t - 1, j);
    }
  }

  /** When every index occurs once, the deletion after the hit for `m`
      leaves every index still occurring once, and the non-last members are
      the old ones except `m`. */
  lemma PruneRemovesOnlyHit(clusters: seq<seq<nat>>, h: Hit)
    requires OccursOnce(clusters)
    requires h.cluster < |clusters| && h.position + 1 < |clusters[h.cluster]|
    ensures OccursOnce(Prune(clusters, h))
    ensures forall x :: NonLastMember(Prune(clusters, h), x) <==>
      NonLastMember(clusters, x) && x != clusters[h.cluster][h.position]
  {
    PruneOccursOnce(clusters, h);
    var m := clusters[h.cluster][h.position];
    forall x | NonLastMember(Prune(clusters, h), x)
      ensures NonLastMember(clusters, x) && x != m
    {
      PruneNonLastBefore(clusters, h, x);
    }
    forall t: nat, j: nat | t < |clusters| && j + 1 < |clusters[t]| && clusters[t][j] != m
      ensures NonLastMember(Prune(clusters, h), clusters[t][j])
    {
      PruneNonLastAfter(clusters, h, t, j);
    }
  }

  /** When every index occurs once, one iteration keeps every index
      occurring once and takes exactly `m` out of the non-last members. */
  lemma NextTakesOut(clusters: seq<seq<nat>>, m: nat)
    requires OccursOnce(clusters)
    ensures OccursOnce(Next(clusters, m))
    ensures forall x :: NonLastMember(Next(clusters, m), x) <==> NonLastMember(clusters, x) && x != m
  {
    match FindHit(clusters, m, 0)
    case None =>
      assert !Skip(clusters, m);
    case Some(h) =>
      assert IsHit(clusters, m, h.cluster, h.position);
      PruneRemovesOnlyHit(clusters, h);
  }

  /** When every index occurs once and no non-last member lies below `m`,
      the loop from `m` removes exactly the non-last members below `n`. */
  lemma {:induction false} ClassifyRemovesNonLast(clusters: seq<seq<nat>>, m: nat, n: nat)
    requires OccursOnce(clusters)
    requires forall x :: NonLastMember(clusters, x) ==> m <= x
    ensures forall k :: k in ClassifyFrom(clusters, m, n).removed <==>
      m <= k < n && NonLastMember(clusters, k)
    decreases n - m
  {
    if m < n {
      var next := Next(clusters, m);
      NextTakesOut(clusters, m);
      ClassifyRemovesNonLast(next, m + 1, n);
      var rest := ClassifyFrom(next, m + 1, n).removed;
      var removed := ClassifyFrom(clusters, m, n).removed;
      assert removed == if Skip(clusters, m) then [m] + rest else rest;
      forall k ensures k in removed <==> m <= k < n && NonLastMember(clusters, k) {
        assert k in [m] + rest <==> k == m || k in rest;
      }
    }
  }

  /** The classifier's verdict when every index occurs once: an index below
      `n` is removed exactly when it sits at a non-last slot of a cluster,
      and kept otherwise. */
  lemma ClassifyIsNonLast(clusters: seq<seq<nat>>, n: nat)
    requires OccursOnce(clusters)
    ensures forall k: nat :: k in Classify(clusters, n).removed <==> k < n && NonLastMember(clusters, k)
    ensures forall k: nat :: k in Classify(clusters, n).kept <==> k < n && !NonLastMember(clusters, k)
  {
    ClassifyRemovesNonLast(clusters, 0, n);
  }

  /** With no index occurring twice, an index is a non-last member exactly
      when it is in a cluster and is not that cluster's last element. */
  lemma NonLastMemberIff(clusters: seq<seq<nat>>)
    requires OccursOnce(clusters)
    ensures forall k: nat :: NonLastMember(clusters, k) <==>
      exists t :: 0 <= t < |clusters| && k in clusters[t] && k != Last(clusters[t])
  {
    forall k: nat ensures NonLastMember(clusters, k) <==>
      exists t :: 0 <= t < |clusters| && k in clusters[t] && k != Last(clusters[t])
    {
      if NonLastMember(clusters, k) {
        var i: nat, j: nat :| IsHit(clusters, k, i, j);
        var last := |clusters[i]| - 1;
        assert clusters[i][j] != clusters[i][last];
        assert k in clusters[i] && k != Last(clusters[i]);
      }
      if t :| 0 <= t < |clusters| && k in clusters[t] && k != Last(clusters[t]) {
        var j :| 0 <= j < |clusters[t]| && clusters[t][j] == k;
        assert IsHit(clusters, k, t, j);
      }
    }
  }
}
