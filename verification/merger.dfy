/** The cluster merger: walking the groups left to right, a group absorbs
    (deletes) the later groups whose first element is its 2nd, 3rd, ...
    element in turn; its last element is never used as a key. */
module Merger {
  import opened Seqs

  predicate NonEmptyGroups(gs: seq<seq<nat>>)
  {
    forall t :: 0 <= t < |gs| ==> |gs[t]| > 0
  }

  /** What one run of the inner loop does to the groups after `rec`: the
      groups it keeps and the groups it deletes. */
  datatype Absorption = Absorption(kept: seq<seq<nat>>, removed: seq<seq<nat>>)

  /** The inner `while dup_inx` loop for the group `rec`, with `rec_inx`
      equal to `k`, over the later groups `rest`. */
  function Absorb(rec: seq<nat>, k: nat, rest: seq<seq<nat>>): (a: Absorption)
    requires NonEmptyGroups(rest)
    ensures IsSubsequence(a.kept, rest) && IsSubsequence(a.removed, rest)
    ensures |a.kept| + |a.removed| == |rest|
    ensures |a.removed| > 0 ==> k + |a.removed| <= |rec| - 1
    ensures forall t :: 0 <= t < |a.removed| ==>
      k + t < |rec| && |a.removed[t]| > 0 && a.removed[t][0] == rec[k + t]
    decreases |rest|
  {
    if |rest| == 0 then Absorption([], [])
    else if k < |rec| - 1 && rec[k] == rest[0][0] then
      var a := Absorb(rec, k + 1, rest[1..]);
      var removed := [rest[0]] + a.removed;
      assert rest == [rest[0]] + rest[1..];
      assert forall t :: 1 <= t < |removed| ==> removed[t] == a.removed[t - 1];
      SubsequenceSkip(a.kept, rest);
      SubsequenceTake(a.removed, rest);
      Absorption(a.kept, removed)
    else
      var b := Absorb(rec, k, rest[1..]);
      assert rest == [rest[0]] + rest[1..];
      SubsequenceSkip(b.removed, rest);
      SubsequenceTake(b.kept, rest);
      Absorption([rest[0]] + b.kept, b.removed)
  }

  /** The inner loop neither loses nor invents a group: the kept and the
      deleted groups together are the later groups. */
  lemma {:induction false} AbsorbSplits(rec: seq<nat>, k: nat, rest: seq<seq<nat>>)
    requires NonEmptyGroups(rest)
    ensures multiset(Absorb(rec, k, rest).kept) + multiset(Absorb(rec, k, rest).removed) == multiset(rest)
    decreases |rest|
  {
    if |rest| > 0 {
      assert rest == [rest[0]] + rest[1..];
      if k < |rec| - 1 && rec[k] == rest[0][0] {
        AbsorbSplits(rec, k + 1, rest[1..]);
      } else {
        AbsorbSplits(rec, k, rest[1..]);
      }
    }
  }

  /** One pass of the outer loop keeps the groups up to `inx` and a
      subsequence of the rest. */
  lemma AbsorbStep(groups: seq<seq<nat>>, inx: nat)
    requires NonEmptyGroups(groups) && inx < |groups|
    ensures var next := groups[..inx + 1] + Absorb(groups[inx], 1, groups[inx + 1..]).kept;
      && NonEmptyGroups(next)
      && IsSubsequence(next, groups)
      && inx < |next| && next[..inx + 1] == groups[..inx + 1]
  {
    var kept := Absorb(groups[inx], 1, groups[inx + 1..]).kept;
    var next := groups[..inx + 1] + kept;
    SubsequenceElements(kept, groups[inx + 1..]);
    forall t | 0 <= t < |next| ensures |next[t]| > 0 {
      if t > inx {
        assert next[t] == kept[t - (inx + 1)] && next[t] in kept;
      }
    }
    SubsequencePrefix(groups[..inx + 1], kept, groups[inx + 1..]);
    assert groups[..inx + 1] + groups[inx + 1..] == groups;
  }

  /** The outer `while inx` loop from position `inx` on: the group at `inx`
      absorbs what it can among the groups after it, then the loop moves on.
      The result keeps, unchanged and in order, a selection of the groups:
      the ones up to `inx` all survive. */
  function MergeFrom(groups: seq<seq<nat>>, inx: nat): (r: seq<seq<nat>>)
    requires NonEmptyGroups(groups) && inx <= |groups|
    ensures NonEmptyGroups(r)
    ensures IsSubsequence(r, groups)
    ensures inx <= |r| && r[..inx] == groups[..inx]
    ensures inx < |groups| ==> inx < |r| && r[inx] == groups[inx]
    decreases |groups| - inx
  {
    if inx == |groups| then
      SubsequenceReflexive(groups);
      groups
    else
      var next := groups[..inx + 1] + Absorb(groups[inx], 1, groups[inx + 1..]).kept;
      AbsorbStep(groups, inx);
      var r := MergeFrom(next, inx + 1);
      SubsequenceTransitive(r, next, groups);
      assert r[..inx] == r[..inx + 1][..inx];
      assert groups[..inx] == groups[..inx + 1][..inx];
      assert r[inx] == r[..inx + 1][inx];
      r
  }

  /** One pass of the outer loop, unfolded. */
  lemma MergeFromStep(groups: seq<seq<nat>>, inx: nat)
    requires NonEmptyGroups(groups) && inx < |groups|
    ensures var next := groups[..inx + 1] + Absorb(groups[inx], 1, groups[inx + 1..]).kept;
      && NonEmptyGroups(next) && inx + 1 <= |next|
      && MergeFrom(groups, inx) == MergeFrom(next, inx + 1)
  {
    AbsorbStep(groups, inx);
  }

  /** `cleaned_duplicates` after the merge loop: the surviving groups are a
      subsequence of `found_duplicates`, each unchanged, and the first group
      always survives. */
  function Merge(groups: seq<seq<nat>>): (r: seq<seq<nat>>)
    requires NonEmptyGroups(groups)
    ensures NonEmptyGroups(r)
    ensures IsSubsequence(r, groups)
    ensures |groups| > 0 ==> |r| > 0 && r[0] == groups[0]
  {
    MergeFrom(groups, 0)
  }

  /** Anchors increase along the list. */
  predicate AnchorsIncrease(gs: seq<seq<nat>>)
  {
    forall a, b :: 0 <= a < b < |gs| ==> |gs[a]| > 0 && |gs[b]| > 0 && gs[a][0] < gs[b][0]
  }

  /** The keys the inner loop runs through from `rec_inx == k`: the elements
      at positions `k` up to, but not including, the last one. */
  function Keys(rec: seq<nat>, k: nat): set<nat>
  {
    set q | k <= q < |rec| - 1 :: rec[q]
  }

  /** The groups whose anchor is not among `keys`, in order. */
  function DropAnchors(gs: seq<seq<nat>>, keys: set<nat>): (r: seq<seq<nat>>)
    requires NonEmptyGroups(gs)
    ensures NonEmptyGroups(r) && |r| <= |gs|
    decreases |gs|
  {
    if |gs| == 0 then []
    else if gs[0][0] in keys then DropAnchors(gs[1..], keys)
    else [gs[0]] + DropAnchors(gs[1..], keys)
  }

  /** Every kept group is a group of the input whose anchor is no key. */
  lemma {:induction false} DropAnchorsKept(gs: seq<seq<nat>>, keys: set<nat>)
    requires NonEmptyGroups(gs)
    ensures forall b :: 0 <= b < |DropAnchors(gs, keys)| ==>
      DropAnchors(gs, keys)[b] in gs && DropAnchors(gs, keys)[b][0] !in keys
    decreases |gs|
  {
    if |gs| > 0 {
      DropAnchorsKept(gs[1..], keys);
      var rest := DropAnchors(gs[1..], keys);
      assert forall b :: 0 <= b < |rest| ==> rest[b] in gs[1..] ==> rest[b] in gs;
    }
  }

  /** Every group of the input whose anchor is no key is kept. */
  lemma {:induction false} DropAnchorsKeeps(gs: seq<seq<nat>>, keys: set<nat>, u: nat)
    requires NonEmptyGroups(gs)
    requires u < |gs| && gs[u][0] !in keys
    ensures gs[u] in DropAnchors(gs, keys)
    decreases |gs|
  {
    if u > 0 {
      DropAnchorsKeeps(gs[1..], keys, u - 1);
    }
  }

  /** Dropping keeps the anchors increasing. */
  lemma {:induction false} DropAnchorsIncrease(gs: seq<seq<nat>>, keys: set<nat>)
    requires NonEmptyGroups(gs) && AnchorsIncrease(gs)
    ensures AnchorsIncrease(DropAnchors(gs, keys))
    decreases |gs|
  {
    if |gs| > 0 {
      var tail := gs[1..];
      assert AnchorsIncrease(tail) by {
        assert forall b :: 0 <= b < |tail| ==> tail[b] == gs[b + 1];
      }
      DropAnchorsIncrease(tail, keys);
      DropAnchorsKept(tail, keys);
      var rest := DropAnchors(tail, keys);
      if gs[0][0] !in keys {
        forall b | 0 <= b < |rest| ensures gs[0][0] < rest[b][0] {
          var u :| 0 <= u < |tail| && tail[u] == rest[b];
          assert tail[u] == gs[u + 1];
        }
      }
    }
  }

  /** Only the keys that are anchors matter. */
  lemma {:induction false} DropAnchorsIgnores(gs: seq<seq<nat>>, keys: set<nat>, keys': set<nat>)
    requires NonEmptyGroups(gs)
    requires forall t :: 0 <= t < |gs| ==> (gs[t][0] in keys <==> gs[t][0] in keys')
    ensures DropAnchors(gs, keys) == DropAnchors(gs, keys')
    decreases |gs|
  {
    if |gs| > 0 {
      DropAnchorsIgnores(gs[1..], keys, keys');
    }
  }

  /** Dropping twice drops the union of the keys. */
  lemma {:induction false} DropAnchorsTwice(gs: seq<seq<nat>>, keys: set<nat>, more: set<nat>)
    requires NonEmptyGroups(gs)
    ensures DropAnchors(DropAnchors(gs, keys), more) == DropAnchors(gs, keys + more)
    decreases |gs|
  {
    if |gs| > 0 {
      DropAnchorsTwice(gs[1..], keys, more);
      var rest := DropAnchors(gs[1..], keys);
      if gs[0][0] !in keys {
        assert ([gs[0]] + rest)[1..] == rest;
      }
    }
  }

  /** Dropping distributes over concatenation. */
  lemma {:induction false} DropAnchorsAppend(a: seq<seq<nat>>, b: seq<seq<nat>>, keys: set<nat>)
    requires NonEmptyGroups(a) && NonEmptyGroups(b)
    ensures NonEmptyGroups(a + b)
    ensures DropAnchors(a + b, keys) == DropAnchors(a, keys) + DropAnchors(b, keys)
    decreases |a|
  {
    if |a| == 0 {
      assert a + b == b;
    } else {
      assert (a + b)[1..] == a[1..] + b;
      DropAnchorsAppend(a[1..], b, keys);
    }
  }

  /** Groups none of whose anchors is a key are all kept. */
  lemma {:induction false} DropAnchorsNone(gs: seq<seq<nat>>, keys: set<nat>)
    requires NonEmptyGroups(gs)
    requires forall t :: 0 <= t < |gs| ==> gs[t][0] !in keys
    ensures DropAnchors(gs, keys) == gs
    decreases |gs|
  {
    if |gs| > 0 {
      DropAnchorsNone(gs[1..], keys);
    }
  }

  /** The anchors of the groups. */
  function AnchorSet(gs: seq<seq<nat>>): set<nat>
  {
    set u | 0 <= u < |gs| && |gs[u]| > 0 :: gs[u][0]
  }

  /** Splitting off the first group: its anchor is below all the others. */
  lemma AnchorsTail(gs: seq<seq<nat>>)
    requires NonEmptyGroups(gs) && AnchorsIncrease(gs) && |gs| > 0
    ensures AnchorsIncrease(gs[1..]) && NonEmptyGroups(gs[1..])
    ensures AnchorSet(gs) == {gs[0][0]} + AnchorSet(gs[1..])
    ensures forall a :: a in AnchorSet(gs[1..]) ==> gs[0][0] < a
  {
    var tail := gs[1..];
    assert forall u :: 0 <= u < |tail| ==> tail[u] == gs[u + 1];
    forall a | a in AnchorSet(gs) ensures a == gs[0][0] || a in AnchorSet(tail) {
      var u :| 0 <= u < |gs| && |gs[u]| > 0 && gs[u][0] == a;
      if u > 0 {
        assert tail[u - 1][0] == a;
      }
    }
  }

  /** Splitting off the first key: it is below all the others. */
  lemma KeysTail(rec: seq<nat>, k: nat)
    requires StrictlyIncreasing(rec) && k < |rec| - 1
    ensures Keys(rec, k) == {rec[k]} + Keys(rec, k + 1)
    ensures rec[k] !in Keys(rec, k + 1)
  {
  }

  /** Keys from `k` on are at least the key at `k`. */
  lemma KeysAbove(rec: seq<nat>, k: nat, x: nat)
    requires StrictlyIncreasing(rec) && k < |rec| && x < rec[k]
    ensures x !in Keys(rec, k)
  {
  }

  /** One step of the inner loop at a matching key. */
  lemma AbsorbHitStep(rec: seq<nat>, k: nat, rest: seq<seq<nat>>)
    requires NonEmptyGroups(rest)
    requires |rest| > 0 && k < |rec| - 1 && rec[k] == rest[0][0]
    ensures Absorb(rec, k, rest).kept == Absorb(rec, k + 1, rest[1..]).kept
  {
  }

  /** One step of the inner loop at a group that does not match. */
  lemma AbsorbMissStep(rec: seq<nat>, k: nat, rest: seq<seq<nat>>)
    requires NonEmptyGroups(rest)
    requires |rest| > 0 && !(k < |rec| - 1 && rec[k] == rest[0][0])
    ensures Absorb(rec, k, rest).kept == [rest[0]] + Absorb(rec, k, rest[1..]).kept
  {
  }

  /** When the anchors after `rec` increase and every key of `rec` from
      `rec_inx == k` on is one of them, the inner loop deletes exactly the
      groups anchored at those keys. */
  lemma {:induction false} AbsorbDrops(rec: seq<nat>, k: nat, rest: seq<seq<nat>>)
    requires NonEmptyGroups(rest) && AnchorsIncrease(rest)
    requires StrictlyIncreasing(rec)
    requires Keys(rec, k) <= AnchorSet(rest)
    ensures Absorb(rec, k, rest).kept == DropAnchors(rest, Keys(rec, k))
    decreases |rest|, 1
  {
    if |rest| > 0 {
      if k < |rec| - 1 && rec[k] == rest[0][0] {
        AbsorbDropsHit(rec, k, rest);
      } else {
        AbsorbDropsMiss(rec, k, rest);
      }
    }
  }

  /** The first later group is anchored at the current key: it is deleted. */
  lemma {:induction false} AbsorbDropsHit(rec: seq<nat>, k: nat, rest: seq<seq<nat>>)
    requires NonEmptyGroups(rest) && AnchorsIncrease(rest)
    requires StrictlyIncreasing(rec)
    requires Keys(rec, k) <= AnchorSet(rest)
    requires |rest| > 0 && k < |rec| - 1 && rec[k] == rest[0][0]
    ensures Absorb(rec, k, rest).kept == DropAnchors(rest, Keys(rec, k))
    decreases |rest|, 0
  {
    var tail := rest[1..];
    var keys, more := Keys(rec, k), Keys(rec, k + 1);
    assert NonEmptyGroups(tail) && AnchorsIncrease(tail) && more <= AnchorSet(tail)
      && forall t :: 0 <= t < |tail| ==> (tail[t][0] in keys <==> tail[t][0] in more)
    by {
      AnchorsTail(rest);
      KeysTail(rec, k);
      forall t | 0 <= t < |tail| ensures tail[t][0] in keys <==> tail[t][0] in more {
        assert tail[t][0] in AnchorSet(tail);
      }
    }
    AbsorbDrops(rec, k + 1, tail);
    DropAnchorsIgnores(tail, keys, more);
    AbsorbHitStep(rec, k, rest);
    assert DropAnchors(rest, keys) == DropAnchors(tail, keys) by {
      assert rest[0][0] in keys;
    }
  }

  /** The first later group is not anchored at the current key: it is kept. */
  lemma {:induction false} AbsorbDropsMiss(rec: seq<nat>, k: nat, rest: seq<seq<nat>>)
    requires NonEmptyGroups(rest) && AnchorsIncrease(rest)
    requires StrictlyIncreasing(rec)
    requires Keys(rec, k) <= AnchorSet(rest)
    requires |rest| > 0 && !(k < |rec| - 1 && rec[k] == rest[0][0])
    ensures Absorb(rec, k, rest).kept == DropAnchors(rest, Keys(rec, k))
    decreases |rest|, 0
  {
    var tail := rest[1..];
    var keys := Keys(rec, k);
    assert NonEmptyGroups(tail) && AnchorsIncrease(tail) && keys <= AnchorSet(tail) by {
      AnchorsTail(rest);
      if k < |rec| - 1 {
        assert rec[k] in AnchorSet(tail);
        KeysAbove(rec, k, rest[0][0]);
      }
    }
    AbsorbDrops(rec, k, tail);
    AbsorbMissStep(rec, k, rest);
    assert DropAnchors(rest, keys) == [rest[0]] + DropAnchors(tail, keys) by {
      assert rest[0][0] !in keys by {
        AnchorsTail(rest);
        if k < |rec| - 1 {
          assert rec[k] in AnchorSet(tail);
          KeysAbove(rec, k, rest[0][0]);
        }
      }
    }
  }

  /** Dropping keys that all lie above the anchor at `inx` leaves the groups
      up to `inx` alone. */
  lemma DropAfter(groups: seq<seq<nat>>, inx: nat, keys: set<nat>)
    requires NonEmptyGroups(groups) && AnchorsIncrease(groups) && inx < |groups|
    requires forall x :: x in keys ==> groups[inx][0] < x
    ensures NonEmptyGroups(groups[inx + 1..])
    ensures DropAnchors(groups, keys) == groups[..inx + 1] + DropAnchors(groups[inx + 1..], keys)
  {
    var prefix, rest := groups[..inx + 1], groups[inx + 1..];
    assert NonEmptyGroups(rest) by {
      assert forall u :: 0 <= u < |rest| ==> rest[u] == groups[inx + 1 + u];
    }
    forall t | 0 <= t < |prefix| ensures |prefix[t]| > 0 && prefix[t][0] !in keys {
      assert prefix[t] == groups[t];
      assert t == inx || groups[t][0] < groups[inx][0];
    }
    DropAnchorsNone(prefix, keys);
    assert groups == prefix + rest;
    DropAnchorsAppend(prefix, rest, keys);
  }

  /** The inner loop for the group at `inx` drops exactly its keys among the
      later groups, when each key anchors one of them. */
  lemma AbsorbRestDrops(groups: seq<seq<nat>>, inx: nat)
    requires NonEmptyGroups(groups) && AnchorsIncrease(groups) && inx < |groups|
    requires StrictlyIncreasing(groups[inx])
    requires Keys(groups[inx], 1) <= AnchorSet(groups[inx + 1..])
    ensures NonEmptyGroups(groups[inx + 1..])
    ensures Absorb(groups[inx], 1, groups[inx + 1..]).kept == DropAnchors(groups[inx + 1..], Keys(groups[inx], 1))
  {
    var rest := groups[inx + 1..];
    assert NonEmptyGroups(rest) && AnchorsIncrease(rest) by {
      assert forall u :: 0 <= u < |rest| ==> rest[u] == groups[inx + 1 + u];
    }
    AbsorbDrops(groups[inx], 1, rest);
  }

  /** One pass of the outer loop over a list that is some groups with some
      anchors dropped: when every key of the group at `inx` anchors a later
      group, the pass drops those keys as well. */
  lemma AbsorbStepDrops(all: seq<seq<nat>>, dropped: set<nat>, inx: nat)
    requires NonEmptyGroups(all)
    requires AnchorsIncrease(DropAnchors(all, dropped))
    requires inx < |DropAnchors(all, dropped)|
    requires var groups := DropAnchors(all, dropped);
      && StrictlyIncreasing(groups[inx])
      && forall x :: x in Keys(groups[inx], 1) ==> groups[inx][0] < x && x in AnchorSet(groups[inx + 1..])
    ensures var groups := DropAnchors(all, dropped);
      groups[..inx + 1] + Absorb(groups[inx], 1, groups[inx + 1..]).kept
        == DropAnchors(all, dropped + Keys(groups[inx], 1))
  {
    var groups := DropAnchors(all, dropped);
    var keys := Keys(groups[inx], 1);
    AbsorbRestDrops(groups, inx);
    DropAfter(groups, inx, keys);
    DropAnchorsTwice(all, dropped, keys);
  }
}
