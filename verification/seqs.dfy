/** Small vocabulary shared by every stage: an optional value, the last
    element of a sequence, ordering of index lists and the subsequence
    relation that describes what a stage that only deletes produces. */
module Seqs {

  datatype Option<+T> = None | Some(value: T)

  function Last<T>(s: seq<T>): T
    requires |s| > 0
  {
    s[|s| - 1]
  }

  /** Every later position holds a larger index. */
  predicate StrictlyIncreasing(s: seq<nat>)
  {
    forall a, b :: 0 <= a < b < |s| ==> s[a] < s[b]
  }

  /** Putting a smaller index in front keeps a list increasing. */
  lemma ConsIncreasing(x: nat, s: seq<nat>)
    requires StrictlyIncreasing(s)
    requires forall b :: 0 <= b < |s| ==> x < s[b]
    ensures StrictlyIncreasing([x] + s)
  {
  }

  /** `a` is obtained from `b` by deleting elements, keeping the order of the rest. */
  predicate IsSubsequence<T(==)>(a: seq<T>, b: seq<T>)
    decreases |b|
  {
    || |a| == 0
    || (&& |b| > 0
        && ((a[0] == b[0] && IsSubsequence(a[1..], b[1..])) || IsSubsequence(a, b[1..])))
  }

  lemma SubsequenceSkip<T>(a: seq<T>, b: seq<T>)
    requires |b| > 0 && IsSubsequence(a, b[1..])
    ensures IsSubsequence(a, b)
  {
  }

  lemma SubsequenceTake<T>(a: seq<T>, b: seq<T>)
    requires |b| > 0 && IsSubsequence(a, b[1..])
    ensures IsSubsequence([b[0]] + a, b)
  {
    assert ([b[0]] + a)[1..] == a;
  }

  lemma {:induction false} SubsequenceReflexive<T>(a: seq<T>)
    ensures IsSubsequence(a, a)
    decreases |a|
  {
    if |a| > 0 {
      SubsequenceReflexive(a[1..]);
    }
  }

  lemma {:induction false} SubsequenceTransitive<T>(a: seq<T>, b: seq<T>, c: seq<T>)
    requires IsSubsequence(a, b) && IsSubsequence(b, c)
    ensures IsSubsequence(a, c)
    decreases |c|
  {
    if |a| == 0 {
    } else if |c| > 0 && IsSubsequence(b, c[1..]) {
      SubsequenceTransitive(a, b, c[1..]);
    } else {
      assert |b| > 0 && b[0] == c[0] && IsSubsequence(b[1..], c[1..]);
      if a[0] == b[0] && IsSubsequence(a[1..], b[1..]) {
        SubsequenceTransitive(a[1..], b[1..], c[1..]);
      } else {
        SubsequenceTransitive(a, b[1..], c[1..]);
      }
    }
  }

  /** A common prefix can be put in front of both sides. */
  lemma {:induction false} SubsequencePrefix<T>(p: seq<T>, a: seq<T>, b: seq<T>)
    requires IsSubsequence(a, b)
    ensures IsSubsequence(p + a, p + b)
    decreases |p|
  {
    if |p| > 0 {
      SubsequencePrefix(p[1..], a, b);
      assert (p + a)[1..] == p[1..] + a;
      assert (p + b)[1..] == p[1..] + b;
    } else {
      assert p + a == a && p + b == b;
    }
  }

  /** A subsequence is no longer than the original and draws its elements from it. */
  lemma {:induction false} SubsequenceElements<T>(a: seq<T>, b: seq<T>)
    requires IsSubsequence(a, b)
    ensures |a| <= |b|
    ensures forall x :: x in a ==> x in b
    decreases |b|
  {
    if |a| == 0 {
    } else if a[0] == b[0] && IsSubsequence(a[1..], b[1..]) {
      SubsequenceElements(a[1..], b[1..]);
      forall x | x in a ensures x in b {
        if x != a[0] {
          assert x in a[1..];
        }
      }
    } else {
      SubsequenceElements(a, b[1..]);
    }
  }

  /** The values held by the `Some` entries, in order. */
  function Somes<T>(opts: seq<Option<T>>): (vs: seq<T>)
    ensures |vs| <= |opts|
  {
    if |opts| == 0 then []
    else match opts[0]
      case Some(v) => [v] + Somes(opts[1..])
      case None => Somes(opts[1..])
  }

  /** Positions, from `from` on, of the `Some` entries. */
  function SomePositions<T>(opts: seq<Option<T>>, from: nat): (ps: seq<nat>)
    ensures StrictlyIncreasing(ps)
    ensures forall k :: k in ps <==> from <= k < |opts| && opts[k].Some?
    decreases |opts| - from
  {
    if from >= |opts| then []
    else if opts[from].Some? then
      var rest := SomePositions(opts, from + 1);
      assert forall b :: 0 <= b < |rest| ==> from < rest[b] by {
        forall b | 0 <= b < |rest| ensures from < rest[b] {
          assert rest[b] in rest;
        }
      }
      [from] + rest
    else SomePositions(opts, from + 1)
  }

  /** The i-th value kept by `Somes` sits at the i-th `Some` position. */
  lemma {:induction false} SomesAtPositions<T>(opts: seq<Option<T>>, from: nat)
    requires from <= |opts|
    ensures |Somes(opts[from..])| == |SomePositions(opts, from)|
    ensures forall i :: 0 <= i < |SomePositions(opts, from)| ==>
      SomePositions(opts, from)[i] < |opts| && opts[SomePositions(opts, from)[i]] == Some(Somes(opts[from..])[i])
    decreases |opts| - from
  {
    if from < |opts| {
      SomesAtPositions(opts, from + 1);
      var tail := opts[from + 1..];
      assert opts[from..][1..] == tail;
      var vs := Somes(tail);
      var ps := SomePositions(opts, from + 1);
      match opts[from]
      case None =>
        assert Somes(opts[from..]) == vs;
        assert SomePositions(opts, from) == ps;
      case Some(v) =>
        assert Somes(opts[from..]) == [v] + vs;
        assert SomePositions(opts, from) == [from] + ps;
        forall i | 1 <= i < |ps| + 1
          ensures ([from] + ps)[i] == ps[i - 1] && ([v] + vs)[i] == vs[i - 1]
        {
        }
    }
  }

  /** `s` with the element at position `k` deleted (Python's `del s[k]`). */
  function RemoveAt<T>(s: seq<T>, k: nat): (r: seq<T>)
    requires k < |s|
    ensures |r| == |s| - 1
    ensures forall x :: 0 <= x < |r| ==> r[x] == if x < k then s[x] else s[x + 1]
  {
    s[..k] + s[k + 1..]
  }

  /** Every index occurs in at most one position of one cluster. */
  predicate OccursOnce(clusters: seq<seq<nat>>)
  {
    forall t, j, t', j' ::
      (&& 0 <= t < |clusters| && 0 <= j < |clusters[t]|
       && 0 <= t' < |clusters| && 0 <= j' < |clusters[t']|
       && clusters[t][j] == clusters[t'][j'])
      ==> t == t' && j == j'
  }

  /** The elements of the clusters. */
  function Members(clusters: seq<seq<nat>>): set<nat>
  {
    set t, j | 0 <= t < |clusters| && 0 <= j < |clusters[t]| :: clusters[t][j]
  }

  /** The elements of one cluster. */
  function Elements(c: seq<nat>): set<nat>
  {
    set q | 0 <= q < |c| :: c[q]
  }

  /** No element occurs twice in `c`. */
  predicate Distinct(c: seq<nat>)
  {
    forall q, q' :: 0 <= q < q' < |c| ==> c[q] != c[q']
  }

  /** The members are those of the first cluster and those of the rest. */
  lemma MembersSplit(clusters: seq<seq<nat>>)
    requires |clusters| > 0
    ensures Members(clusters) == Elements(clusters[0]) + Members(clusters[1..])
  {
    var rest := clusters[1..];
    forall x | x in Members(clusters) ensures x in Elements(clusters[0]) + Members(rest) {
      var t, j :| 0 <= t < |clusters| && 0 <= j < |clusters[t]| && clusters[t][j] == x;
      if t > 0 {
        assert rest[t - 1][j] == x;
      }
    }
    forall x | x in Members(rest) ensures x in Members(clusters) {
      var t, j :| 0 <= t < |rest| && 0 <= j < |rest[t]| && rest[t][j] == x;
      assert clusters[t + 1][j] == x;
    }
  }

  /** Every index occurs once exactly when the first cluster is distinct,
      the rest occur once, and the two share no index. */
  lemma OccursOnceSplit(clusters: seq<seq<nat>>)
    requires |clusters| > 0
    ensures OccursOnce(clusters) <==>
      && Distinct(clusters[0])
      && OccursOnce(clusters[1..])
      && Elements(clusters[0]) !! Members(clusters[1..])
  {
    var c := clusters[0];
    var rest := clusters[1..];
    MembersSplit(clusters);
    if OccursOnce(clusters) {
      forall t, j, t', j' |
        && 0 <= t < |rest| && 0 <= j < |rest[t]|
        && 0 <= t' < |rest| && 0 <= j' < |rest[t']|
        && rest[t][j] == rest[t'][j']
        ensures t == t' && j == j'
      {
        assert clusters[t + 1][j] == clusters[t' + 1][j'];
      }
      forall t, j, q | 0 <= t < |rest| && 0 <= j < |rest[t]| && 0 <= q < |c|
        ensures rest[t][j] != c[q]
      {
        assert rest[t][j] == clusters[t + 1][j] && c[q] == clusters[0][q];
      }
    }
    if Distinct(c) && OccursOnce(rest) && Elements(c) !! Members(rest) {
      forall t, j, t', j' |
        && 0 <= t < |clusters| && 0 <= j < |clusters[t]|
        && 0 <= t' < |clusters| && 0 <= j' < |clusters[t']|
        && clusters[t][j] == clusters[t'][j']
        ensures t == t' && j == j'
      {
        assert clusters[t][j] in (if t == 0 then Elements(c) else Members(rest)) by {
          if t > 0 {
            assert clusters[t][j] == rest[t - 1][j];
          }
        }
        assert clusters[t'][j'] in (if t' == 0 then Elements(c) else Members(rest)) by {
          if t' > 0 {
            assert clusters[t'][j'] == rest[t' - 1][j'];
          }
        }
        if t > 0 && t' > 0 {
          assert rest[t - 1][j] == rest[t' - 1][j'];
        }
      }
    }
  }
}
