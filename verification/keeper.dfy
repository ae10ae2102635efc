/** Keeper selection: within a cluster, find the last position holding the
    largest file; move it into the last (keeper) slot unless the last file
    is already within the size factor of it. */
module Keeper {
  import opened Seqs

  /** File size of each member, by meta index. A missing file has size 0. */
  function SizesOf(cluster: seq<nat>, size: nat -> nat): seq<nat>
  {
    seq(|cluster|, q requires 0 <= q < |cluster| => size(cluster[q]))
  }

  /** `p` is the last position holding the largest size. */
  predicate IsLastMax(sizes: seq<nat>, p: nat)
  {
    && p < |sizes|
    && (forall q :: 0 <= q < |sizes| ==> sizes[q] <= sizes[p])
    && (forall q :: p < q < |sizes| ==> sizes[q] < sizes[p])
  }

  /** What holds of `(max_value, max_inx)` after the first `i` members. */
  predicate ScanState(sizes: seq<nat>, i: nat, maxValue: nat, maxInx: nat)
  {
    && i <= |sizes|
    && (if i == 0 then maxValue == 0 && maxInx == 0
        else
          && maxInx < i
          && maxValue == sizes[maxInx]
          && (forall q :: 0 <= q < i ==> sizes[q] <= maxValue)
          && (forall q :: maxInx < q < i ==> sizes[q] < maxValue))
  }

  /** The size loop from member `i` on: `>=` lets a later member holding the
      running maximum take over, so ties go to the later position. */
  function MaxScan(sizes: seq<nat>, i: nat, maxValue: nat, maxInx: nat): (res: (nat, nat))
    requires ScanState(sizes, i, maxValue, maxInx)
    requires |sizes| > 0
    ensures IsLastMax(sizes, res.1) && res.0 == sizes[res.1]
    decreases |sizes| - i
  {
    if i == |sizes| then (maxValue, maxInx)
    else if sizes[i] >= maxValue then MaxScan(sizes, i + 1, sizes[i], i)
    else MaxScan(sizes, i + 1, maxValue, maxInx)
  }

  /** `big` exceeds `small` scaled by the factor: `max_value*1.0 > sizes[-1]*file_size_factor`. */
  predicate LargerThanFactor(big: nat, small: nat, factor: real)
  {
    (big as real) > (small as real) * factor
  }

  /** The swap test: the largest file sits elsewhere than the last slot and is
      larger than the last file's size times the factor. */
  predicate ShouldSwap(sizes: seq<nat>, p: nat, factor: real)
    requires p < |sizes|
  {
    p != |sizes| - 1 && LargerThanFactor(sizes[p], sizes[|sizes| - 1], factor)
  }

  /** The keeper slot holds the last file, or a file at least as large as
      every member and larger than the last file times the factor. */
  predicate KeeperSlotOk(cluster: seq<nat>, r: seq<nat>, size: nat -> nat, factor: real)
    requires |cluster| > 0 && |r| > 0
  {
    || Last(r) == Last(cluster)
    || (&& LargerThanFactor(size(Last(r)), size(Last(cluster)), factor)
        && forall q :: 0 <= q < |cluster| ==> size(cluster[q]) <= size(Last(r)))
  }

  /** One cluster after keeper selection: a permutation of itself whose
      keeper slot holds the last file or the largest one. */
  function SelectKeeper(cluster: seq<nat>, size: nat -> nat, factor: real): (r: seq<nat>)
    requires |cluster| > 0
    ensures |r| == |cluster| && multiset(r) == multiset(cluster)
    ensures KeeperSlotOk(cluster, r, size, factor)
  {
    var sizes := SizesOf(cluster, size);
    var (maxValue, maxInx) := MaxScan(sizes, 0, 0, 0);
    if maxInx != |cluster| - 1 && LargerThanFactor(maxValue, sizes[|sizes| - 1], factor) then
      var last := |cluster| - 1;
      SwapPermutes(cluster, maxInx, last);
      assert forall q :: 0 <= q < |cluster| ==> sizes[q] == size(cluster[q]);
      cluster[maxInx := cluster[last]][last := cluster[maxInx]]
    else
      cluster
  }

  /** For the last position `p` holding the largest size, keeper selection
      exchanges `p` and the last slot exactly when the swap test holds, and
      moves nothing else. */
  lemma SelectKeeperSwaps(cluster: seq<nat>, size: nat -> nat, factor: real, p: nat)
    requires |cluster| > 0 && IsLastMax(SizesOf(cluster, size), p)
    ensures ShouldSwap(SizesOf(cluster, size), p, factor) ==>
      SelectKeeper(cluster, size, factor) == cluster[p := Last(cluster)][|cluster| - 1 := cluster[p]]
    ensures !ShouldSwap(SizesOf(cluster, size), p, factor) ==>
      SelectKeeper(cluster, size, factor) == cluster
  {
    var sizes := SizesOf(cluster, size);
    var res := MaxScan(sizes, 0, 0, 0);
    LastMaxUnique(sizes);
    assert res.1 == p;
  }

  /** Keeper selection always exchanges some position `i` with the last slot;
      `i` is the last slot itself when nothing moves. */
  lemma SelectKeeperIsSwap(cluster: seq<nat>, size: nat -> nat, factor: real) returns (i: nat)
    requires |cluster| > 0
    ensures i < |cluster|
    ensures SelectKeeper(cluster, size, factor) == cluster[i := Last(cluster)][|cluster| - 1 := cluster[i]]
  {
    var sizes := SizesOf(cluster, size);
    var p := MaxScan(sizes, 0, 0, 0).1;
    SelectKeeperSwaps(cluster, size, factor, p);
    if ShouldSwap(sizes, p, factor) {
      i := p;
    } else {
      i := |cluster| - 1;
      assert cluster[i := Last(cluster)][|cluster| - 1 := cluster[i]] == cluster;
    }
  }

  /** The last position holding the largest size is unique. */
  lemma LastMaxUnique(sizes: seq<nat>)
    ensures forall p: nat, p': nat :: IsLastMax(sizes, p) && IsLastMax(sizes, p') ==> p == p'
  {
    forall p: nat, p': nat | IsLastMax(sizes, p) && IsLastMax(sizes, p') ensures p == p' {
      assert sizes[p] <= sizes[p'] && sizes[p'] <= sizes[p];
    }
  }

  /** Exchanging two positions permutes a sequence. */
  lemma SwapPermutes(s: seq<nat>, i: nat, j: nat)
    requires i < |s| && j < |s|
    ensures multiset(s[i := s[j]][j := s[i]]) == multiset(s)
  {
    var u := s[i := s[j]];
    assert multiset(u) == multiset(s) - multiset{s[i]} + multiset{s[j]};
    assert u[j] == if i == j then s[i] else s[j];
    assert multiset(u[j := s[i]]) == multiset(u) - multiset{u[j]} + multiset{s[i]};
  }

  /** `cleaned_duplicates` after keeper selection: every cluster is
      processed on its own. */
  function SelectKeepers(clusters: seq<seq<nat>>, size: nat -> nat, factor: real): (r: seq<seq<nat>>)
    requires forall t :: 0 <= t < |clusters| ==> |clusters[t]| > 0
    ensures |r| == |clusters|
    ensures forall t :: 0 <= t < |r| ==> |r[t]| == |clusters[t]| && multiset(r[t]) == multiset(clusters[t])
    ensures forall t :: 0 <= t < |r| ==> KeeperSlotOk(clusters[t], r[t], size, factor)
  {
    seq(|clusters|, t requires 0 <= t < |clusters| => SelectKeeper(clusters[t], size, factor))
  }

  /** The keeper slot ends up holding either the largest file, or the last
      file when it was the largest or within the factor of the largest. */
  lemma {:induction false} KeeperChoice(cluster: seq<nat>, size: nat -> nat, factor: real, p: nat)
    requires |cluster| > 0 && IsLastMax(SizesOf(cluster, size), p)
    ensures LargerThanFactor(size(cluster[p]), size(Last(cluster)), factor) && p != |cluster| - 1 ==>
      size(Last(SelectKeeper(cluster, size, factor))) == size(cluster[p])
    ensures !(LargerThanFactor(size(cluster[p]), size(Last(cluster)), factor) && p != |cluster| - 1) ==>
      Last(SelectKeeper(cluster, size, factor)) == Last(cluster)
  {
    var r := SelectKeeper(cluster, size, factor);
    var sizes := SizesOf(cluster, size);
    assert sizes[p] == size(cluster[p]);
    assert sizes[|sizes| - 1] == size(Last(cluster));
    SelectKeeperSwaps(cluster, size, factor, p);
    if ShouldSwap(sizes, p, factor) {
      assert r == cluster[p := Last(cluster)][|cluster| - 1 := cluster[p]];
    } else {
      assert r == cluster;
    }
  }
}
