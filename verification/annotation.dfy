/** The annotation pass over the clusters after keeper selection: each
    member's log entry records its cluster, marked "+ " for the keeper (last
    slot) and "- " for the others; meeting an index that already has an
    entry is reported as an internal error. */
module Annotation {
  import opened Seqs

  /** `"+ " + str(cluster)` when `keeper`, `"- " + str(cluster)` otherwise. */
  datatype Mark = Mark(keeper: bool, cluster: seq<nat>)

  /** The `dupl_inx` entries written so far, and the indices for which the
      internal-error message was printed, in order. */
  datatype Marking = Marking(marks: map<nat, Mark>, conflicts: seq<nat>)

  /** The inner loop: members `j..` of cluster `c`. */
  function MarkCluster(c: seq<nat>, j: nat, m: Marking): Marking
    decreases |c| - j
  {
    if j >= |c| then m
    else
      var v := c[j];
      var conflicts := if v in m.marks then m.conflicts + [v] else m.conflicts;
      MarkCluster(c, j + 1, Marking(m.marks[v := Mark(j == |c| - 1, c)], conflicts))
  }

  /** The outer loop: clusters `t..`. */
  function MarkAll(clusters: seq<seq<nat>>, t: nat, m: Marking): Marking
    decreases |clusters| - t
  {
    if t >= |clusters| then m
    else MarkAll(clusters, t + 1, MarkCluster(clusters[t], 0, m))
  }

  function Annotate(clusters: seq<seq<nat>>): Marking
  {
    MarkAll(clusters, 0, Marking(map[], []))
  }

  /** Within one cluster: the entries gained are the members from `j` on,
      and entries of other indices are left as they were. */
  lemma {:induction false} MarkClusterKeys(c: seq<nat>, j: nat, m: Marking)
    requires j <= |c|
    ensures MarkCluster(c, j, m).marks.Keys == m.marks.Keys + (set q | j <= q < |c| :: c[q])
    ensures forall v :: v in m.marks && v !in c[j..] ==> MarkCluster(c, j, m).marks[v] == m.marks[v]
    decreases |c| - j
  {
    if j < |c| {
      var v := c[j];
      var conflicts := if v in m.marks then m.conflicts + [v] else m.conflicts;
      var m' := Marking(m.marks[v := Mark(j == |c| - 1, c)], conflicts);
      MarkClusterKeys(c, j + 1, m');
      var r := MarkCluster(c, j, m);
      assert r == MarkCluster(c, j + 1, m');
      assert (set q | j <= q < |c| :: c[q]) == {v} + (set q | j + 1 <= q < |c| :: c[q]);
      forall w | w in m.marks && w !in c[j..] ensures r.marks[w] == m.marks[w] {
        assert c[j..] == [v] + c[j + 1..];
      }
    }
  }

  /** Within one cluster: no internal error is printed exactly when none was
      before and the members from `j` on are distinct and have no entry yet. */
  lemma {:induction false} MarkClusterConflicts(c: seq<nat>, j: nat, m: Marking)
    requires j <= |c|
    ensures MarkCluster(c, j, m).conflicts == [] <==>
            && m.conflicts == []
            && (forall q :: j <= q < |c| ==> c[q] !in m.marks)
            && (forall q, q' :: j <= q < q' < |c| ==> c[q] != c[q'])
    decreases |c| - j
  {
    if j < |c| {
      var v := c[j];
      var conflicts := if v in m.marks then m.conflicts + [v] else m.conflicts;
      var m' := Marking(m.marks[v := Mark(j == |c| - 1, c)], conflicts);
      MarkClusterConflicts(c, j + 1, m');
      var r := MarkCluster(c, j, m);
      assert r == MarkCluster(c, j + 1, m');
      if r.conflicts == [] {
        assert m'.conflicts == [] && v !in m.marks;
        forall q | j + 1 <= q < |c| ensures c[q] != v {
          assert c[q] !in m'.marks;
        }
      }
      if m.conflicts == [] && (forall q :: j <= q < |c| ==> c[q] !in m.marks) && (forall q, q' :: j <= q < q' < |c| ==> c[q] != c[q']) {
        assert v !in m.marks;
        forall q | j + 1 <= q < |c| ensures c[q] !in m'.marks {
          assert c[q] != v;
        }
      }
    }
  }

  /** Within one cluster: when no internal error is printed, each member
      from `j` on is marked with the cluster, as the keeper exactly when it
      is the last one. */
  lemma {:induction false} MarkClusterMarks(c: seq<nat>, j: nat, m: Marking)
    requires j <= |c|
    ensures MarkCluster(c, j, m).conflicts == [] ==>
      forall q :: j <= q < |c| ==>
        c[q] in MarkCluster(c, j, m).marks && MarkCluster(c, j, m).marks[c[q]] == Mark(q == |c| - 1, c)
    decreases |c| - j
  {
    if j < |c| {
      var v := c[j];
      var conflicts := if v in m.marks then m.conflicts + [v] else m.conflicts;
      var m' := Marking(m.marks[v := Mark(j == |c| - 1, c)], conflicts);
      MarkClusterMarks(c, j + 1, m');
      var r := MarkCluster(c, j, m);
      assert r == MarkCluster(c, j + 1, m');
      if r.conflicts == [] {
        MarkClusterConflicts(c, j + 1, m');
        MarkClusterKeys(c, j + 1, m');
        assert v !in c[j + 1..] by {
          forall q | j + 1 <= q < |c| ensures c[q] != v {
            assert c[q] !in m'.marks;
          }
        }
        assert r.marks[v] == m'.marks[v];
      }
    }
  }

  /** One cluster's pass in the terms of the outer loop. */
  lemma MarkClusterWhole(c: seq<nat>, m: Marking)
    ensures MarkCluster(c, 0, m).marks.Keys == m.marks.Keys + Elements(c)
    ensures forall v :: v in m.marks && v !in Elements(c) ==> MarkCluster(c, 0, m).marks[v] == m.marks[v]
    ensures MarkCluster(c, 0, m).conflicts == [] <==>
      m.conflicts == [] && Elements(c) !! m.marks.Keys && Distinct(c)
    ensures MarkCluster(c, 0, m).conflicts == [] ==>
      forall q :: 0 <= q < |c| ==>
        c[q] in MarkCluster(c, 0, m).marks && MarkCluster(c, 0, m).marks[c[q]] == Mark(q == |c| - 1, c)
  {
    MarkClusterKeys(c, 0, m);
    MarkClusterConflicts(c, 0, m);
    MarkClusterMarks(c, 0, m);
    assert c[0..] == c;
    forall v, q | v in m.marks && v !in Elements(c) && 0 <= q < |c| ensures c[q] != v {
      assert c[q] in Elements(c);
    }
    if Elements(c) !! m.marks.Keys {
      forall q | 0 <= q < |c| ensures c[q] !in m.marks {
        assert c[q] in Elements(c);
      }
    }
  }

  /** The slices of the outer loop. */
  lemma MembersFrom(clusters: seq<seq<nat>>, t: nat)
    requires t < |clusters|
    ensures Members(clusters[t..]) == Elements(clusters[t]) + Members(clusters[t + 1..])
    ensures OccursOnce(clusters[t..]) <==>
      && Distinct(clusters[t])
      && OccursOnce(clusters[t + 1..])
      && Elements(clusters[t]) !! Members(clusters[t + 1..])
  {
    assert clusters[t..][0] == clusters[t] && clusters[t..][1..] == clusters[t + 1..];
    MembersSplit(clusters[t..]);
    OccursOnceSplit(clusters[t..]);
  }

  /** Over all clusters: the entries written are the members, and entries of
      other indices are left as they were. */
  lemma {:induction false} MarkAllKeys(clusters: seq<seq<nat>>, t: nat, m: Marking)
    requires t <= |clusters|
    ensures MarkAll(clusters, t, m).marks.Keys == m.marks.Keys + Members(clusters[t..])
    ensures forall v :: v in m.marks && v !in Members(clusters[t..]) ==> MarkAll(clusters, t, m).marks[v] == m.marks[v]
    decreases |clusters| - t
  {
    if t == |clusters| {
      assert Members(clusters[t..]) == {};
    } else {
      var m1 := MarkCluster(clusters[t], 0, m);
      MarkClusterWhole(clusters[t], m);
      MarkAllKeys(clusters, t + 1, m1);
      assert MarkAll(clusters, t, m) == MarkAll(clusters, t + 1, m1);
      MembersFrom(clusters, t);
    }
  }

  /** Over all clusters: no internal error is printed exactly when none was
      before, every index occurs once and none had an entry before. */
  lemma {:induction false} MarkAllConflicts(clusters: seq<seq<nat>>, t: nat, m: Marking)
    requires t <= |clusters|
    ensures MarkAll(clusters, t, m).conflicts == [] <==>
            && m.conflicts == []
            && OccursOnce(clusters[t..])
            && Members(clusters[t..]) !! m.marks.Keys
    decreases |clusters| - t
  {
    if t == |clusters| {
      assert Members(clusters[t..]) == {};
    } else {
      var m1 := MarkCluster(clusters[t], 0, m);
      MarkClusterWhole(clusters[t], m);
      MarkAllConflicts(clusters, t + 1, m1);
      assert MarkAll(clusters, t, m) == MarkAll(clusters, t + 1, m1);
      MembersFrom(clusters, t);
    }
  }

  /** Over all clusters: when no internal error is printed, every member is
      marked "+ " when it is its cluster's last element and "- " otherwise,
      with its own cluster. */
  lemma {:induction false} MarkAllMarks(clusters: seq<seq<nat>>, t: nat, m: Marking)
    requires t <= |clusters|
    ensures MarkAll(clusters, t, m).conflicts == [] ==>
      forall u, j :: t <= u < |clusters| && 0 <= j < |clusters[u]| ==>
        && clusters[u][j] in MarkAll(clusters, t, m).marks
        && MarkAll(clusters, t, m).marks[clusters[u][j]] == Mark(j == |clusters[u]| - 1, clusters[u])
    decreases |clusters| - t
  {
    if t < |clusters| {
      var c := clusters[t];
      var m1 := MarkCluster(c, 0, m);
      var r := MarkAll(clusters, t, m);
      MarkAllMarks(clusters, t + 1, m1);
      assert r == MarkAll(clusters, t + 1, m1);
      if r.conflicts == [] {
        MarkClusterWhole(c, m);
        MarkAllConflicts(clusters, t + 1, m1);
        MarkAllKeys(clusters, t + 1, m1);
        forall j | 0 <= j < |c| ensures r.marks[c[j]] == Mark(j == |c| - 1, c) {
          assert c[j] in m1.marks;
        }
      }
    }
  }

  /** The annotation pass: every cluster member gets an entry, and when every
      index occurs in one cluster position only, no internal error is printed
      and each member's entry names its own cluster and role; otherwise the
      error is printed. */
  lemma AnnotateSpec(clusters: seq<seq<nat>>)
    ensures Annotate(clusters).marks.Keys == Members(clusters)
    ensures Annotate(clusters).conflicts == [] <==> OccursOnce(clusters)
    ensures OccursOnce(clusters) ==>
      forall u, j :: 0 <= u < |clusters| && 0 <= j < |clusters[u]| ==>
        Annotate(clusters).marks[clusters[u][j]] == Mark(j == |clusters[u]| - 1, clusters[u])
  {
    var m := Marking(map[], []);
    MarkAllKeys(clusters, 0, m);
    MarkAllConflicts(clusters, 0, m);
    MarkAllMarks(clusters, 0, m);
    assert clusters[0..] == clusters;
  }
}
