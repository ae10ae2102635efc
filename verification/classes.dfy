/** Same-content classes. Fed the matcher's groups, the merger keeps exactly
    the group anchored at the first record of each class, and that group is
    the whole class; so no index is in two merged clusters. */
module Classes {
  import opened Seqs
  import opened Records
  import opened Matcher
  import opened Merger

  /** No earlier record has the same content as record `i`. */
  predicate ClassFirst(metas: seq<MetaRecord>, i: nat)
    requires i < |metas|
  {
    forall j :: 0 <= j < i ==> !SameContent(metas[j], metas[i])
  }

  /** The records that are not the first of their class. */
  function NonFirst(metas: seq<MetaRecord>): set<nat>
  {
    set i | 0 <= i < |metas| && !ClassFirst(metas, i)
  }

  /** The first record, from `j` on, with the same content as record `x`. */
  function FirstFrom(metas: seq<MetaRecord>, x: nat, j: nat): (f: nat)
    requires j <= x < |metas|
    ensures j <= f <= x && SameContent(metas[f], metas[x])
    ensures forall i :: j <= i < f ==> !SameContent(metas[i], metas[x])
    decreases x - j
  {
    if SameContent(metas[j], metas[x]) then j else FirstFrom(metas, x, j + 1)
  }

  /** The first record of the class of `x` starts its class. */
  lemma FirstIsFirst(metas: seq<MetaRecord>, x: nat)
    requires x < |metas|
    ensures ClassFirst(metas, FirstFrom(metas, x, 0))
  {
  }

  /** Two records that start their class and share content are one record. */
  lemma FirstsDiffer(metas: seq<MetaRecord>, a: nat, b: nat)
    requires a < |metas| && b < |metas| && SameContent(metas[a], metas[b])
    requires ClassFirst(metas, a) && ClassFirst(metas, b)
    ensures a == b
  {
  }

  /** A key of a complete group (a member other than the anchor and the last
      one) shares the anchor's content, may anchor when the anchor may, and
      has a later duplicate: the group's last member. */
  lemma GroupKey(metas: seq<MetaRecord>, useEmpty: bool, i: nat, g: seq<nat>, x: nat)
    requires i < |metas| && IsGroupOf(metas, i, g) && x in Keys(g, 1)
    ensures i < x < |metas| && SameContent(metas[i], metas[x])
    ensures MayAnchor(metas, useEmpty, i) ==> MayAnchor(metas, useEmpty, x)
    ensures HasLaterDuplicate(metas, x)
  {
    var q :| 1 <= q < |g| - 1 && g[q] == x;
    assert g[1..][q - 1] == x && x in g[1..];
    var last := g[|g| - 1];
    assert g[1..][|g| - 2] == last && last in g[1..];
    assert x < last && SameContent(metas[i], metas[last]);
    assert SameContent(metas[x], metas[last]);
  }

  /** Dropping anchors from the matcher's groups keeps the anchors
      increasing. */
  lemma DroppedIncrease(metas: seq<MetaRecord>, useEmpty: bool, dropped: set<nat>)
    ensures NonEmptyGroups(FindDuplicates(metas, useEmpty))
    ensures AnchorsIncrease(DropAnchors(FindDuplicates(metas, useEmpty), dropped))
  {
    DropAnchorsIncrease(FindDuplicates(metas, useEmpty), dropped);
  }

  /** A group left after dropping is a complete group of a record that may
      anchor and was not dropped. */
  lemma DroppedGroupAt(metas: seq<MetaRecord>, useEmpty: bool, dropped: set<nat>, t: nat)
    requires NonEmptyGroups(FindDuplicates(metas, useEmpty))
    requires t < |DropAnchors(FindDuplicates(metas, useEmpty), dropped)|
    ensures var g := DropAnchors(FindDuplicates(metas, useEmpty), dropped)[t];
      && g in FindDuplicates(metas, useEmpty) && g[0] !in dropped && g[0] < |metas|
      && MayAnchor(metas, useEmpty, g[0]) && IsGroupOf(metas, g[0], g)
  {
    DropAnchorsKept(FindDuplicates(metas, useEmpty), dropped);
  }

  /** A record that may anchor, has a later duplicate and is not dropped
      anchors one of the remaining groups. */
  lemma DroppedKeepsAnchor(metas: seq<MetaRecord>, useEmpty: bool, dropped: set<nat>, x: nat)
    requires x < |metas| && MayAnchor(metas, useEmpty, x) && HasLaterDuplicate(metas, x)
    requires x !in dropped
    ensures NonEmptyGroups(FindDuplicates(metas, useEmpty))
    ensures x in AnchorSet(DropAnchors(FindDuplicates(metas, useEmpty), dropped))
  {
    var groups := FindDuplicates(metas, useEmpty);
    var u :| 0 <= u < |groups| && |groups[u]| > 0 && groups[u][0] == x;
    DropAnchorsKeeps(groups, dropped, u);
    var r := DropAnchors(groups, dropped);
    var t :| 0 <= t < |r| && r[t] == groups[u];
  }

  /** An anchor below the anchor at `inx` sits before `inx`. */
  lemma AnchoredBefore(groups: seq<seq<nat>>, inx: nat, x: nat) returns (t: nat)
    requires AnchorsIncrease(groups) && inx < |groups| && |groups[inx]| > 0
    requires x in AnchorSet(groups) && x < groups[inx][0]
    ensures t < inx && |groups[t]| > 0 && groups[t][0] == x
  {
    t :| 0 <= t < |groups| && |groups[t]| > 0 && groups[t][0] == x;
  }

  /** An anchor above the anchor at `inx` sits after `inx`. */
  lemma AnchoredAfter(groups: seq<seq<nat>>, inx: nat, x: nat)
    requires AnchorsIncrease(groups) && inx < |groups| && |groups[inx]| > 0
    requires x in AnchorSet(groups) && groups[inx][0] < x
    ensures x in AnchorSet(groups[inx + 1..])
  {
    var v :| 0 <= v < |groups| && |groups[v]| > 0 && groups[v][0] == x;
    assert groups[inx + 1..][v - inx - 1] == groups[v];
  }

  /** A later record of a class that anchors a group of its own is a key of
      the group of an earlier record of the class: its own group has a later
      member, so it is not the last. */
  lemma LaterAnchorIsKey(metas: seq<MetaRecord>, f: nat, h: seq<nat>, a: nat, g: seq<nat>)
    requires f < a < |metas| && SameContent(metas[f], metas[a])
    requires IsGroupOf(metas, f, h) && IsGroupOf(metas, a, g)
    ensures a in Keys(h, 1)
  {
    assert a in h[1..];
    var q :| 0 <= q < |h[1..]| && h[1..][q] == a;
    var b := g[1];
    assert g[1..][0] == b && b in g[1..];
    assert b in h[1..];
    var p :| 0 <= p < |h[1..]| && h[1..][p] == b;
    assert h[q + 1] < h[p + 1];
  }

  /** Where the merge loop stands at `inx`, with `dropped` the anchors whose
      groups it has deleted so far: the list is the matcher's groups without
      the dropped ones; every group before `inx` starts its class and has had
      its keys dropped; and nothing else has been dropped. */
  ghost predicate MergeState(metas: seq<MetaRecord>, useEmpty: bool, groups: seq<seq<nat>>, inx: nat, dropped: set<nat>)
  {
    var all := FindDuplicates(metas, useEmpty);
    && NonEmptyGroups(all)
    && groups == DropAnchors(all, dropped)
    && inx <= |groups|
    && dropped <= NonFirst(metas)
    && (forall t :: 0 <= t < inx ==>
         groups[t][0] < |metas| && ClassFirst(metas, groups[t][0]) && Keys(groups[t], 1) <= dropped)
    && (forall x :: x in dropped ==> exists t :: 0 <= t < inx && x in Keys(groups[t], 1))
  }

  /** A group anchored at a record that does not start its class comes after
      the group of the class's first record, and its anchor is a key there. */
  lemma FirstGroupBefore(metas: seq<MetaRecord>, useEmpty: bool, groups: seq<seq<nat>>, inx: nat, dropped: set<nat>)
    returns (t: nat)
    requires NonEmptyGroups(FindDuplicates(metas, useEmpty))
    requires groups == DropAnchors(FindDuplicates(metas, useEmpty), dropped)
    requires dropped <= NonFirst(metas) && inx < |groups|
    requires groups[inx][0] < |metas| && FirstFrom(metas, groups[inx][0], 0) < groups[inx][0]
    ensures t < inx && groups[inx][0] in Keys(groups[t], 1)
  {
    var g := groups[inx];
    var a := g[0];
    var f := FirstFrom(metas, a, 0);
    DroppedGroupAt(metas, useEmpty, dropped, inx);
    FirstIsFirst(metas, a);
    assert MayAnchor(metas, useEmpty, f) && HasLaterDuplicate(metas, f) by {
      assert SameContent(metas[f], metas[a]);
    }
    assert f !in dropped by {
      assert f !in NonFirst(metas);
    }
    DroppedKeepsAnchor(metas, useEmpty, dropped, f);
    DroppedIncrease(metas, useEmpty, dropped);
    t := AnchoredBefore(groups, inx, f);
    DroppedGroupAt(metas, useEmpty, dropped, t);
    LaterAnchorIsKey(metas, f, groups[t], a, g);
  }

  /** The group the merge loop reaches next starts its class. */
  lemma NextAnchorIsFirst(metas: seq<MetaRecord>, useEmpty: bool, groups: seq<seq<nat>>, inx: nat, dropped: set<nat>)
    requires MergeState(metas, useEmpty, groups, inx, dropped) && inx < |groups|
    ensures groups[inx][0] < |metas| && ClassFirst(metas, groups[inx][0])
  {
    DroppedGroupAt(metas, useEmpty, dropped, inx);
    var a := groups[inx][0];
    FirstIsFirst(metas, a);
    if FirstFrom(metas, a, 0) < a {
      var t := FirstGroupBefore(metas, useEmpty, groups, inx, dropped);
      assert false;
    }
  }

  /** The keys of the group at `inx` are later records of its class that
      have not been dropped, so each still anchors a later group. */
  lemma NextKeys(metas: seq<MetaRecord>, useEmpty: bool, groups: seq<seq<nat>>, inx: nat, dropped: set<nat>)
    requires MergeState(metas, useEmpty, groups, inx, dropped) && inx < |groups|
    ensures forall x :: x in Keys(groups[inx], 1) ==>
      && groups[inx][0] < x && x !in dropped && x in NonFirst(metas)
      && x in AnchorSet(groups[inx + 1..])
  {
    NextAnchorIsFirst(metas, useEmpty, groups, inx, dropped);
    DroppedGroupAt(metas, useEmpty, dropped, inx);
    DroppedIncrease(metas, useEmpty, dropped);
    var g := groups[inx];
    var a := g[0];
    forall x | x in Keys(g, 1)
      ensures a < x && x !in dropped && x in NonFirst(metas) && x in AnchorSet(groups[inx + 1..])
    {
      GroupKey(metas, useEmpty, a, g, x);
      assert !ClassFirst(metas, x) by {
        assert SameContent(metas[a], metas[x]);
      }
      forall t | 0 <= t < inx ensures x !in Keys(groups[t], 1) {
        DroppedGroupAt(metas, useEmpty, dropped, t);
        if x in Keys(groups[t], 1) {
          GroupKey(metas, useEmpty, groups[t][0], groups[t], x);
          assert false;
        }
      }
      DroppedKeepsAnchor(metas, useEmpty, dropped, x);
      AnchoredAfter(groups, inx, x);
    }
  }

  /** One pass of the merge loop: the group at `inx` absorbs exactly the
      groups anchored at its keys. */
  lemma StepDrops(metas: seq<MetaRecord>, useEmpty: bool, groups: seq<seq<nat>>, inx: nat, dropped: set<nat>)
    requires MergeState(metas, useEmpty, groups, inx, dropped) && inx < |groups|
    ensures NonEmptyGroups(groups) && NonEmptyGroups(FindDuplicates(metas, useEmpty))
    ensures groups[..inx + 1] + Absorb(groups[inx], 1, groups[inx + 1..]).kept
      == DropAnchors(FindDuplicates(metas, useEmpty), dropped + Keys(groups[inx], 1))
  {
    NextKeys(metas, useEmpty, groups, inx, dropped);
    DroppedGroupAt(metas, useEmpty, dropped, inx);
    DroppedIncrease(metas, useEmpty, dropped);
    AbsorbStepDrops(FindDuplicates(metas, useEmpty), dropped, inx);
  }

  /** After one pass, the groups up to and including `inx` start their class
      and have had their keys dropped. */
  lemma StepFirsts(metas: seq<MetaRecord>, useEmpty: bool, groups: seq<seq<nat>>, inx: nat, dropped: set<nat>, next: seq<seq<nat>>)
    requires MergeState(metas, useEmpty, groups, inx, dropped) && inx < |groups|
    requires inx < |next| && next[..inx + 1] == groups[..inx + 1]
    ensures forall t :: 0 <= t < inx + 1 ==>
      && |next[t]| > 0 && next[t][0] < |metas| && ClassFirst(metas, next[t][0])
      && Keys(next[t], 1) <= dropped + Keys(groups[inx], 1)
  {
    NextAnchorIsFirst(metas, useEmpty, groups, inx, dropped);
    forall t | 0 <= t < inx + 1 ensures next[t] == groups[t] {
      assert next[t] == next[..inx + 1][t];
    }
  }

  /** After one pass, every dropped anchor is a key of a group up to and
      including `inx`. */
  lemma StepDroppedKeys(metas: seq<MetaRecord>, useEmpty: bool, groups: seq<seq<nat>>, inx: nat, dropped: set<nat>, next: seq<seq<nat>>)
    requires MergeState(metas, useEmpty, groups, inx, dropped) && inx < |groups|
    requires inx < |next| && next[..inx + 1] == groups[..inx + 1]
    ensures forall x :: x in dropped + Keys(groups[inx], 1) ==>
      exists t :: 0 <= t < inx + 1 && x in Keys(next[t], 1)
  {
    forall t | 0 <= t < inx + 1 ensures next[t] == groups[t] {
      assert next[t] == next[..inx + 1][t];
    }
    forall x | x in dropped + Keys(groups[inx], 1) ensures exists t :: 0 <= t < inx + 1 && x in Keys(next[t], 1) {
      if x in Keys(groups[inx], 1) {
        assert x in Keys(next[inx], 1);
      }
    }
  }

  /** One pass of the merge loop moves the state on to `inx + 1`, with the
      keys of the group at `inx` dropped. */
  lemma MergeStep(metas: seq<MetaRecord>, useEmpty: bool, groups: seq<seq<nat>>, inx: nat, dropped: set<nat>)
    requires MergeState(metas, useEmpty, groups, inx, dropped) && inx < |groups|
    ensures NonEmptyGroups(groups)
    ensures var g := groups[inx];
      MergeState(metas, useEmpty, groups[..inx + 1] + Absorb(g, 1, groups[inx + 1..]).kept,
                 inx + 1, dropped + Keys(g, 1))
  {
    var g := groups[inx];
    var next := groups[..inx + 1] + Absorb(g, 1, groups[inx + 1..]).kept;
    StepDrops(metas, useEmpty, groups, inx, dropped);
    assert dropped + Keys(g, 1) <= NonFirst(metas) by {
      NextKeys(metas, useEmpty, groups, inx, dropped);
    }
    assert next[..inx + 1] == groups[..inx + 1];
    StepFirsts(metas, useEmpty, groups, inx, dropped, next);
    StepDroppedKeys(metas, useEmpty, groups, inx, dropped, next);
  }

  /** When the merge loop ends, exactly the groups of records that do not
      start their class have been dropped. */
  lemma MergeEnd(metas: seq<MetaRecord>, useEmpty: bool, groups: seq<seq<nat>>, dropped: set<nat>)
    requires MergeState(metas, useEmpty, groups, |groups|, dropped)
    ensures groups == DropAnchors(FindDuplicates(metas, useEmpty), NonFirst(metas))
  {
    var all := FindDuplicates(metas, useEmpty);
    forall u | 0 <= u < |all| ensures all[u][0] in dropped <==> all[u][0] in NonFirst(metas) {
      if all[u][0] !in dropped {
        DropAnchorsKeeps(all, dropped, u);
        var t :| 0 <= t < |groups| && groups[t] == all[u];
        assert ClassFirst(metas, groups[t][0]);
      }
    }
    DropAnchorsIgnores(all, dropped, NonFirst(metas));
  }

  /** From any state, the rest of the merge loop ends with the groups of the
      records that start their class. */
  lemma {:induction false} MergeFromFirsts(metas: seq<MetaRecord>, useEmpty: bool, groups: seq<seq<nat>>, inx: nat, dropped: set<nat>)
    requires MergeState(metas, useEmpty, groups, inx, dropped)
    ensures NonEmptyGroups(groups) && inx <= |groups|
    ensures MergeFrom(groups, inx) == DropAnchors(FindDuplicates(metas, useEmpty), NonFirst(metas))
    decreases |groups| - inx
  {
    if inx == |groups| {
      MergeEnd(metas, useEmpty, groups, dropped);
    } else {
      MergeStep(metas, useEmpty, groups, inx, dropped);
      MergeFromStep(groups, inx);
      var next := groups[..inx + 1] + Absorb(groups[inx], 1, groups[inx + 1..]).kept;
      MergeFromFirsts(metas, useEmpty, next, inx + 1, dropped + Keys(groups[inx], 1));
    }
  }

  /** The merged clusters are the matcher's groups anchored at the first
      record of their class; every other group is deleted. */
  lemma MergeKeepsFirsts(metas: seq<MetaRecord>, useEmpty: bool)
    ensures NonEmptyGroups(FindDuplicates(metas, useEmpty))
    ensures Merge(FindDuplicates(metas, useEmpty)) == DropAnchors(FindDuplicates(metas, useEmpty), NonFirst(metas))
  {
    var all := FindDuplicates(metas, useEmpty);
    DroppedIncrease(metas, useEmpty, {});
    DropAnchorsNone(all, {});
    MergeFromFirsts(metas, useEmpty, all, 0, {});
  }

  /** Some other record has the same content as record `x`. */
  predicate HasPartner(metas: seq<MetaRecord>, x: nat)
    requires x < |metas|
  {
    exists y :: 0 <= y < |metas| && y != x && SameContent(metas[x], metas[y])
  }

  /** The complete group of a record that starts its class is the class. */
  lemma GroupOfFirstIsClass(metas: seq<MetaRecord>, a: nat, c: seq<nat>)
    requires a < |metas| && IsGroupOf(metas, a, c) && ClassFirst(metas, a)
    ensures forall x: nat :: x in c <==> x < |metas| && SameContent(metas[a], metas[x])
  {
    forall x: nat | x in c ensures x < |metas| && SameContent(metas[a], metas[x]) {
      var j :| 0 <= j < |c| && c[j] == x;
      if j > 0 {
        assert c[1..][j - 1] == x && x in c[1..];
      }
    }
    forall x: nat | x < |metas| && SameContent(metas[a], metas[x]) ensures x in c {
      if x != a {
        assert !(x < a) by {
          assert SameContent(metas[x], metas[a]);
        }
        assert x in c[1..];
        var j :| 0 <= j < |c[1..]| && c[1..][j] == x;
        assert c[j + 1] == x;
      } else {
        assert c[0] == x;
      }
    }
  }

  /** Clusters that are whole classes, each listed once in increasing order
      starting at the first record of the class, by increasing first record. */
  ghost predicate ClassClusters(metas: seq<MetaRecord>, clusters: seq<seq<nat>>)
  {
    && AnchorsIncrease(clusters)
    && forall t :: 0 <= t < |clusters| ==>
         && |clusters[t]| >= 2 && clusters[t][0] < |metas|
         && ClassFirst(metas, clusters[t][0]) && StrictlyIncreasing(clusters[t])
         && forall x: nat :: x in clusters[t] <==> x < |metas| && SameContent(metas[clusters[t][0]], metas[x])
  }

  /** The merged clusters are whole classes, each opened by a record that may
      anchor. */
  lemma MergedAreClasses(metas: seq<MetaRecord>, useEmpty: bool)
    ensures var clusters := Merge(FindDuplicates(metas, useEmpty));
      && ClassClusters(metas, clusters)
      && forall t :: 0 <= t < |clusters| ==> MayAnchor(metas, useEmpty, clusters[t][0])
  {
    var all := FindDuplicates(metas, useEmpty);
    var clusters := DropAnchors(all, NonFirst(metas));
    assert Merge(all) == clusters by {
      MergeKeepsFirsts(metas, useEmpty);
    }
    DroppedIncrease(metas, useEmpty, NonFirst(metas));
    forall t | 0 <= t < |clusters|
      ensures && |clusters[t]| >= 2 && clusters[t][0] < |metas|
        && ClassFirst(metas, clusters[t][0]) && StrictlyIncreasing(clusters[t])
        && MayAnchor(metas, useEmpty, clusters[t][0])
        && forall x: nat :: x in clusters[t] <==> x < |metas| && SameContent(metas[clusters[t][0]], metas[x])
    {
      DroppedGroupAt(metas, useEmpty, NonFirst(metas), t);
      assert ClassFirst(metas, clusters[t][0]) by {
        assert clusters[t][0] !in NonFirst(metas);
      }
      GroupOfFirstIsClass(metas, clusters[t][0], clusters[t]);
    }
  }

  /** Whole classes, listed once each, put no index in two clusters. */
  lemma ClassClustersOccurOnce(metas: seq<MetaRecord>, clusters: seq<seq<nat>>)
    requires ClassClusters(metas, clusters)
    ensures OccursOnce(clusters)
  {
    forall t, j, t', j' |
      && 0 <= t < |clusters| && 0 <= j < |clusters[t]|
      && 0 <= t' < |clusters| && 0 <= j' < |clusters[t']|
      && clusters[t][j] == clusters[t'][j']
      ensures t == t' && j == j'
    {
      var x := clusters[t][j];
      assert x in clusters[t] && x in clusters[t'];
      FirstsDiffer(metas, clusters[t][0], clusters[t'][0]);
      assert t == t';
      assert StrictlyIncreasing(clusters[t]);
    }
  }

  /** No index is in two merged clusters, nor twice in one. */
  lemma ClustersOccurOnce(metas: seq<MetaRecord>, useEmpty: bool)
    ensures OccursOnce(Merge(FindDuplicates(metas, useEmpty)))
  {
    MergedAreClasses(metas, useEmpty);
    ClassClustersOccurOnce(metas, Merge(FindDuplicates(metas, useEmpty)));
  }

  /** A record in a class cluster has a partner, and the cluster is opened by
      the first record of its class. */
  lemma ClusteredHasPartner(metas: seq<MetaRecord>, clusters: seq<seq<nat>>, t: nat, x: nat)
    requires ClassClusters(metas, clusters) && t < |clusters| && x in clusters[t]
    ensures x < |metas| && HasPartner(metas, x) && clusters[t][0] == FirstFrom(metas, x, 0)
  {
    var c := clusters[t];
    var f := FirstFrom(metas, x, 0);
    FirstIsFirst(metas, x);
    FirstsDiffer(metas, f, c[0]);
    var y := if c[0] == x then c[1] else c[0];
    assert c[1] in c && c[0] < c[1];
    assert y in c && y != x;
  }

  /** A record with a partner whose class's first record may anchor is in a
      merged cluster. */
  lemma PartneredIsClustered(metas: seq<MetaRecord>, useEmpty: bool, x: nat)
    requires x < |metas| && HasPartner(metas, x) && MayAnchor(metas, useEmpty, FirstFrom(metas, x, 0))
    ensures var clusters := Merge(FindDuplicates(metas, useEmpty));
      exists t :: 0 <= t < |clusters| && x in clusters[t]
  {
    var all := FindDuplicates(metas, useEmpty);
    var clusters := DropAnchors(all, NonFirst(metas));
    assert Merge(all) == clusters by {
      MergeKeepsFirsts(metas, useEmpty);
    }
    var f := FirstFrom(metas, x, 0);
    FirstIsFirst(metas, x);
    var y :| 0 <= y < |metas| && y != x && SameContent(metas[x], metas[y]);
    var later := if f == x then y else x;
    assert f < later && SameContent(metas[f], metas[later]);
    assert f !in NonFirst(metas);
    DroppedKeepsAnchor(metas, useEmpty, NonFirst(metas), f);
    var t :| 0 <= t < |clusters| && |clusters[t]| > 0 && clusters[t][0] == f;
    DroppedGroupAt(metas, useEmpty, NonFirst(metas), t);
    GroupOfFirstIsClass(metas, f, clusters[t]);
    assert x in clusters[t];
  }

  /** A record is in a merged cluster exactly when another record shares its
      content and the first record of its class may anchor. */
  lemma ClusteredIff(metas: seq<MetaRecord>, useEmpty: bool, x: nat)
    requires x < |metas|
    ensures var clusters := Merge(FindDuplicates(metas, useEmpty));
      (exists t :: 0 <= t < |clusters| && x in clusters[t])
        <==> HasPartner(metas, x) && MayAnchor(metas, useEmpty, FirstFrom(metas, x, 0))
  {
    var clusters := Merge(FindDuplicates(metas, useEmpty));
    MergedAreClasses(metas, useEmpty);
    if t :| 0 <= t < |clusters| && x in clusters[t] {
      ClusteredHasPartner(metas, clusters, t, x);
    }
    if HasPartner(metas, x) && MayAnchor(metas, useEmpty, FirstFrom(metas, x, 0)) {
      PartneredIsClustered(metas, useEmpty, x);
    }
  }
}
