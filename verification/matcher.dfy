/** The pairwise matcher: for every anchor `i`, the later records with the
    same title line and description line, collected into one group
    `[i, j, k, ...]` opened at the first match. */
module Matcher {
  import opened Seqs
  import opened Records

  /** Two records describe the same broadcast. */
  predicate SameContent(a: MetaRecord, b: MetaRecord)
  {
    a.line2 == b.line2 && a.line3 == b.line3
  }

  /** Record `i` may open a group: always when empty descriptions are used,
      otherwise only when its description is non-empty. */
  predicate MayAnchor(metas: seq<MetaRecord>, useEmpty: bool, i: nat)
    requires i < |metas|
  {
    useEmpty || metas[i].line3 != ""
  }

  predicate HasLaterDuplicate(metas: seq<MetaRecord>, i: nat)
    requires i < |metas|
  {
    exists j :: i < j < |metas| && SameContent(metas[i], metas[j])
  }

  /** `g` is the complete group of anchor `i`: the anchor, then every later
      record with the same content, in increasing order. */
  ghost predicate IsGroupOf(metas: seq<MetaRecord>, i: nat, g: seq<nat>)
    requires i < |metas|
  {
    && |g| >= 2
    && g[0] == i
    && StrictlyIncreasing(g)
    && (forall k {:trigger k in g[1..]} :: k in g[1..] <==> i < k < |metas| && SameContent(metas[i], metas[k]))
  }

  /** Indices from `from` on whose record has the same content as record `i`. */
  function Partners(metas: seq<MetaRecord>, i: nat, from: nat): (ps: seq<nat>)
    requires i < |metas|
    ensures StrictlyIncreasing(ps)
    ensures forall k {:trigger k in ps} :: k in ps <==> from <= k < |metas| && SameContent(metas[i], metas[k])
    decreases |metas| - from
  {
    if from >= |metas| then []
    else
      var rest := Partners(metas, i, from + 1);
      if SameContent(metas[i], metas[from]) then
        assert forall b :: 0 <= b < |rest| ==> from < rest[b] by {
          forall b | 0 <= b < |rest| ensures from < rest[b] {
            assert rest[b] in rest;
          }
        }
        [from] + rest
      else rest
  }

  /** The inner loop over `cmp_index` for anchor `i`, from `j` on, acting on
      `found_duplicates`: the first match opens `[i, j]`, later matches are
      appended to the last group; with the flag off an anchor with an empty
      description skips every comparison. */
  function InnerScan(metas: seq<MetaRecord>, useEmpty: bool, i: nat, j: nat,
                     firstFound: bool, found: seq<seq<nat>>): seq<seq<nat>>
    requires i < |metas|
    requires firstFound ==> |found| > 0
    decreases |metas| - j
  {
    if j >= |metas| then found
    else if !useEmpty && metas[i].line3 == "" then InnerScan(metas, useEmpty, i, j + 1, firstFound, found)
    else if SameContent(metas[i], metas[j]) then
      if !firstFound then InnerScan(metas, useEmpty, i, j + 1, true, found + [[i, j]])
      else InnerScan(metas, useEmpty, i, j + 1, true, found[..|found| - 1] + [Last(found) + [j]])
    else InnerScan(metas, useEmpty, i, j + 1, firstFound, found)
  }

  /** The outer loop over `meta_index`, from `i` on. */
  function OuterScan(metas: seq<MetaRecord>, useEmpty: bool, i: nat, found: seq<seq<nat>>): seq<seq<nat>>
    decreases |metas| - i
  {
    if i >= |metas| then found
    else OuterScan(metas, useEmpty, i + 1, InnerScan(metas, useEmpty, i, i + 1, false, found))
  }

  /** The group anchored at `i`, if any: reference definition. */
  function GroupAt(metas: seq<MetaRecord>, useEmpty: bool, i: nat): (g: Option<seq<nat>>)
    requires i < |metas|
    ensures g.Some? <==> MayAnchor(metas, useEmpty, i) && HasLaterDuplicate(metas, i)
    ensures g.Some? ==> IsGroupOf(metas, i, g.value)
  {
    var ps := Partners(metas, i, i + 1);
    if MayAnchor(metas, useEmpty, i) && |ps| > 0 then
      var g := [i] + ps;
      assert g[1..] == ps;
      assert forall b :: 0 <= b < |ps| ==> i < ps[b] by {
        forall b | 0 <= b < |ps| ensures i < ps[b] {
          assert ps[b] in ps;
        }
      }
      ConsIncreasing(i, ps);
      assert ps[0] in ps;
      Some(g)
    else
      assert HasLaterDuplicate(metas, i) ==> |ps| > 0 by {
        if HasLaterDuplicate(metas, i) {
          var j :| i < j < |metas| && SameContent(metas[i], metas[j]);
          assert j in ps;
        }
      }
      None
  }

  /** Reference definition of the matcher's output: the groups of the anchors
      from `from` on, in anchor order. */
  function Groups(metas: seq<MetaRecord>, useEmpty: bool, from: nat): seq<seq<nat>>
    decreases |metas| - from
  {
    if from >= |metas| then []
    else match GroupAt(metas, useEmpty, from)
      case None => Groups(metas, useEmpty, from + 1)
      case Some(g) => [g] + Groups(metas, useEmpty, from + 1)
  }

  /** What a list of groups must satisfy to be the matcher's output for the
      anchors from `from` on. */
  ghost predicate WellFormedGroups(metas: seq<MetaRecord>, useEmpty: bool, from: nat, r: seq<seq<nat>>)
  {
    && (forall t :: 0 <= t < |r| ==>
         && |r[t]| >= 2
         && from <= r[t][0] < |metas|
         && MayAnchor(metas, useEmpty, r[t][0])
         && IsGroupOf(metas, r[t][0], r[t]))
    && (forall a, b :: 0 <= a < b < |r| ==> |r[a]| > 0 && |r[b]| > 0 && r[a][0] < r[b][0])
    && (forall i :: from <= i < |metas| && MayAnchor(metas, useEmpty, i) && HasLaterDuplicate(metas, i) ==>
         exists t :: 0 <= t < |r| && |r[t]| > 0 && r[t][0] == i)
  }

  lemma GroupsSkip(metas: seq<MetaRecord>, useEmpty: bool, from: nat, rest: seq<seq<nat>>)
    requires from < |metas| && GroupAt(metas, useEmpty, from).None?
    requires WellFormedGroups(metas, useEmpty, from + 1, rest)
    ensures WellFormedGroups(metas, useEmpty, from, rest)
  {
  }

  lemma GroupsOpen(metas: seq<MetaRecord>, useEmpty: bool, from: nat, g: seq<nat>, rest: seq<seq<nat>>)
    requires from < |metas| && GroupAt(metas, useEmpty, from) == Some(g)
    requires WellFormedGroups(metas, useEmpty, from + 1, rest)
    ensures WellFormedGroups(metas, useEmpty, from, [g] + rest)
  {
    var r := [g] + rest;
    forall t | 0 <= t < |r|
      ensures |r[t]| >= 2 && from <= r[t][0] < |metas| && MayAnchor(metas, useEmpty, r[t][0])
      ensures IsGroupOf(metas, r[t][0], r[t])
    {
      if t > 0 {
        assert r[t] == rest[t - 1];
      }
    }
    forall a, b | 0 <= a < b < |r| ensures r[a][0] < r[b][0] {
      assert r[b] == rest[b - 1];
      if a > 0 {
        assert r[a] == rest[a - 1];
      }
    }
    forall i | from <= i < |metas| && MayAnchor(metas, useEmpty, i) && HasLaterDuplicate(metas, i)
      ensures exists t :: 0 <= t < |r| && |r[t]| > 0 && r[t][0] == i
    {
      if i == from {
        assert r[0][0] == i;
      } else {
        var t :| 0 <= t < |rest| && |rest[t]| > 0 && rest[t][0] == i;
        assert r[t + 1] == rest[t];
      }
    }
  }

  lemma {:induction false} GroupsWellFormed(metas: seq<MetaRecord>, useEmpty: bool, from: nat)
    ensures WellFormedGroups(metas, useEmpty, from, Groups(metas, useEmpty, from))
    decreases |metas| - from
  {
    if from < |metas| {
      var rest := Groups(metas, useEmpty, from + 1);
      GroupsWellFormed(metas, useEmpty, from + 1);
      match GroupAt(metas, useEmpty, from)
      case None =>
        GroupsSkip(metas, useEmpty, from, rest);
      case Some(g) =>
        GroupsOpen(metas, useEmpty, from, g, rest);
    }
  }

  lemma {:induction false} InnerScanExtends(metas: seq<MetaRecord>, useEmpty: bool, i: nat, j: nat, found: seq<seq<nat>>)
    requires i < |metas| && |found| > 0
    requires MayAnchor(metas, useEmpty, i)
    ensures InnerScan(metas, useEmpty, i, j, true, found) == found[..|found| - 1] + [Last(found) + Partners(metas, i, j)]
    decreases |metas| - j
  {
    var front := found[..|found| - 1];
    if j >= |metas| {
      assert Partners(metas, i, j) == [];
      assert Last(found) + [] == Last(found);
      assert found == front + [Last(found)];
    } else if SameContent(metas[i], metas[j]) {
      var next := front + [Last(found) + [j]];
      assert InnerScan(metas, useEmpty, i, j, true, found) == InnerScan(metas, useEmpty, i, j + 1, true, next);
      InnerScanExtends(metas, useEmpty, i, j + 1, next);
      assert next[..|next| - 1] == front;
      assert Last(next) == Last(found) + [j];
      assert Partners(metas, i, j) == [j] + Partners(metas, i, j + 1);
      assert Last(found) + [j] + Partners(metas, i, j + 1) == Last(found) + Partners(metas, i, j);
    } else {
      assert InnerScan(metas, useEmpty, i, j, true, found) == InnerScan(metas, useEmpty, i, j + 1, true, found);
      assert Partners(metas, i, j) == Partners(metas, i, j + 1);
      InnerScanExtends(metas, useEmpty, i, j + 1, found);
    }
  }

  lemma {:induction false} InnerScanOpens(metas: seq<MetaRecord>, useEmpty: bool, i: nat, j: nat, found: seq<seq<nat>>)
    requires i < |metas|
    ensures MayAnchor(metas, useEmpty, i) && |Partners(metas, i, j)| > 0 ==>
      InnerScan(metas, useEmpty, i, j, false, found) == found + [[i] + Partners(metas, i, j)]
    ensures !(MayAnchor(metas, useEmpty, i) && |Partners(metas, i, j)| > 0) ==>
      InnerScan(metas, useEmpty, i, j, false, found) == found
    decreases |metas| - j
  {
    if j >= |metas| {
      assert Partners(metas, i, j) == [];
    } else if !MayAnchor(metas, useEmpty, i) {
      assert InnerScan(metas, useEmpty, i, j, false, found) == InnerScan(metas, useEmpty, i, j + 1, false, found);
      InnerScanOpens(metas, useEmpty, i, j + 1, found);
    } else if SameContent(metas[i], metas[j]) {
      var next := found + [[i, j]];
      assert InnerScan(metas, useEmpty, i, j, false, found) == InnerScan(metas, useEmpty, i, j + 1, true, next);
      InnerScanExtends(metas, useEmpty, i, j + 1, next);
      assert next[..|next| - 1] == found;
      assert Last(next) == [i, j];
      assert Partners(metas, i, j) == [j] + Partners(metas, i, j + 1);
      assert [i, j] + Partners(metas, i, j + 1) == [i] + Partners(metas, i, j);
    } else {
      assert InnerScan(metas, useEmpty, i, j, false, found) == InnerScan(metas, useEmpty, i, j + 1, false, found);
      assert Partners(metas, i, j) == Partners(metas, i, j + 1);
      InnerScanOpens(metas, useEmpty, i, j + 1, found);
    }
  }

  /** The loops append exactly the reference groups, in order. */
  lemma {:induction false} OuterScanIsGroups(metas: seq<MetaRecord>, useEmpty: bool, i: nat, found: seq<seq<nat>>)
    ensures OuterScan(metas, useEmpty, i, found) == found + Groups(metas, useEmpty, i)
    decreases |metas| - i
  {
    if i < |metas| {
      var next := InnerScan(metas, useEmpty, i, i + 1, false, found);
      var rest := Groups(metas, useEmpty, i + 1);
      var here := match GroupAt(metas, useEmpty, i) case None => [] case Some(g) => [g];
      assert next == found + here by {
        InnerScanOpens(metas, useEmpty, i, i + 1, found);
      }
      assert OuterScan(metas, useEmpty, i, found) == next + rest by {
        OuterScanIsGroups(metas, useEmpty, i + 1, next);
      }
      assert Groups(metas, useEmpty, i) == here + rest;
      assert found + here + rest == found + (here + rest);
    } else {
      assert found + [] == found;
    }
  }

  /** `found_duplicates`: every group is the complete group of its anchor
      (at least two indices, increasing, all with the anchor's content), the
      anchors are increasing, so each index anchors at most one group, and
      every index that may anchor and has a later duplicate anchors one. */
  function FindDuplicates(metas: seq<MetaRecord>, useEmpty: bool): (r: seq<seq<nat>>)
    ensures WellFormedGroups(metas, useEmpty, 0, r)
  {
    OuterScanIsGroups(metas, useEmpty, 0, []);
    GroupsWellFormed(metas, useEmpty, 0);
    assert [] + Groups(metas, useEmpty, 0) == Groups(metas, useEmpty, 0);
    OuterScan(metas, useEmpty, 0, [])
  }

  /** With empty descriptions switched off, a record with an empty
      description is in no group at all: it cannot anchor, and a member
      shares its anchor's description. */
  lemma EmptyDescriptionNeverGrouped(metas: seq<MetaRecord>, t: nat, k: nat)
    requires t < |FindDuplicates(metas, false)| && k in FindDuplicates(metas, false)[t]
    ensures k < |metas| && metas[k].line3 != ""
  {
    var g := FindDuplicates(metas, false)[t];
    var i := g[0];
    assert IsGroupOf(metas, i, g);
    if k != i {
      var p :| 0 <= p < |g| && g[p] == k;
      assert p > 0 && g[1..][p - 1] == k;
      assert k in g[1..];
    }
  }
}
