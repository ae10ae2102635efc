/** The string handling the recogniser relies on: Python's `str.split` with
    a literal separator, its inverse `join`, and the removal of the
    `.ts.meta` sidecar suffix (`string_without_extension`). */
module Text {
  import opened Seqs

  /** The sidecar suffix that marks a recording's metadata file. */
  const MetaSuffix: string := ".ts.meta"

  predicate EndsWith(s: string, suffix: string)
  {
    |suffix| <= |s| && s[|s| - |suffix|..] == suffix
  }

  /** `sep` occurs in `s` starting at position `k`. */
  predicate OccursAt(s: string, sep: string, k: nat)
  {
    k + |sep| <= |s| && s[k..k + |sep|] == sep
  }

  predicate Contains(s: string, sep: string)
  {
    exists k: nat | k <= |s| :: OccursAt(s, sep, k)
  }

  lemma OccursAtShift(s: string, sep: string, k: nat)
    requires |s| > 0
    ensures OccursAt(s, sep, k + 1) <==> OccursAt(s[1..], sep, k)
  {
    if k + 1 + |sep| <= |s| {
      assert s[k + 1..k + 1 + |sep|] == s[1..][k..k + |sep|];
    }
  }

  /** Position of the leftmost occurrence of `sep` in `s`, if any. */
  function FindSep(s: string, sep: string): (r: Option<nat>)
    requires |sep| > 0
    ensures r.Some? ==> OccursAt(s, sep, r.value)
    decreases |s|
  {
    if |s| < |sep| then None
    else if s[..|sep|] == sep then Some(0)
    else
      match FindSep(s[1..], sep)
      case None => None
      case Some(k) =>
        OccursAtShift(s, sep, k);
        Some(k + 1)
  }

  /** `FindSep` reports the leftmost occurrence. */
  lemma {:induction false} FindSepFirst(s: string, sep: string)
    requires |sep| > 0
    ensures FindSep(s, sep).Some? ==> forall k: nat :: k < FindSep(s, sep).value ==> !OccursAt(s, sep, k)
    decreases |s|
  {
    if |s| >= |sep| && s[..|sep|] != sep && FindSep(s[1..], sep).Some? {
      var k := FindSep(s[1..], sep).value;
      FindSepFirst(s[1..], sep);
      assert !OccursAt(s, sep, 0);
      forall j: nat | 0 < j < k + 1 ensures !OccursAt(s, sep, j) {
        OccursAtShift(s, sep, j - 1);
      }
    }
  }

  /** `FindSep` reports none exactly when the separator does not occur. */
  lemma {:induction false} FindSepNone(s: string, sep: string)
    requires |sep| > 0
    ensures FindSep(s, sep).None? <==> !Contains(s, sep)
    decreases |s|
  {
    if |s| < |sep| {
    } else if s[..|sep|] == sep {
      assert OccursAt(s, sep, 0);
    } else {
      FindSepNone(s[1..], sep);
      if Contains(s, sep) {
        var k: nat :| k <= |s| && OccursAt(s, sep, k);
        assert k != 0;
        OccursAtShift(s, sep, k - 1);
        assert Contains(s[1..], sep);
      }
      if FindSep(s[1..], sep).Some? {
        var k := FindSep(s[1..], sep).value;
        OccursAtShift(s, sep, k);
        assert OccursAt(s, sep, k + 1);
      }
    }
  }

  /** `FindSep` reports the leftmost occurrence, and reports none exactly
      when the separator does not occur. */
  lemma FindSepSpec(s: string, sep: string)
    requires |sep| > 0
    ensures FindSep(s, sep).Some? ==> forall k: nat :: k < FindSep(s, sep).value ==> !OccursAt(s, sep, k)
    ensures FindSep(s, sep).None? <==> !Contains(s, sep)
  {
    FindSepFirst(s, sep);
    FindSepNone(s, sep);
  }

  /** Joins the parts with `sep` between neighbours, like Python's `sep.join(parts)`. */
  function Join(parts: seq<string>, sep: string): string
    requires |parts| > 0
    decreases |parts|
  {
    if |parts| == 1 then parts[0] else parts[0] + sep + Join(parts[1..], sep)
  }

  lemma {:induction false} JoinAppend(a: seq<string>, b: seq<string>, sep: string)
    requires |a| > 0 && |b| > 0
    ensures Join(a + b, sep) == Join(a, sep) + sep + Join(b, sep)
    decreases |a|
  {
    if |a| == 1 {
      assert (a + b)[1..] == b;
    } else {
      assert (a + b)[1..] == a[1..] + b;
      JoinAppend(a[1..], b, sep);
    }
  }

  lemma PrefixBeforeFirstOccurrence(s: string, sep: string, k: nat)
    requires |sep| > 0 && OccursAt(s, sep, k)
    requires forall j: nat :: j < k ==> !OccursAt(s, sep, j)
    ensures !Contains(s[..k], sep)
  {
    if Contains(s[..k], sep) {
      var j: nat :| j <= k && OccursAt(s[..k], sep, j);
      assert j + |sep| <= k;
      assert s[..k][j..j + |sep|] == s[j..j + |sep|];
      assert OccursAt(s, sep, j) && j < k;
      assert false;
    }
  }

  /** Python's `s.split(sep)` for a non-empty literal separator: cut at every
      leftmost, non-overlapping occurrence. */
  function Split(s: string, sep: string): (parts: seq<string>)
    requires |sep| > 0
    ensures |parts| > 0
    decreases |s|
  {
    match FindSep(s, sep)
    case None => [s]
    case Some(k) => [s[..k]] + Split(s[k + |sep|..], sep)
  }

  /** Joining the parts of a split gives the string back. */
  lemma {:induction false} SplitJoin(s: string, sep: string)
    requires |sep| > 0
    ensures Join(Split(s, sep), sep) == s
    decreases |s|
  {
    match FindSep(s, sep)
    case None =>
    case Some(k) =>
      var rest := Split(s[k + |sep|..], sep);
      SplitJoin(s[k + |sep|..], sep);
      assert ([s[..k]] + rest)[1..] == rest;
      assert s == s[..k] + sep + s[k + |sep|..];
  }

  /** No part of a split contains the separator. */
  lemma {:induction false} SplitPartsFree(s: string, sep: string)
    requires |sep| > 0
    ensures forall i :: 0 <= i < |Split(s, sep)| ==> !Contains(Split(s, sep)[i], sep)
    decreases |s|
  {
    FindSepSpec(s, sep);
    match FindSep(s, sep)
    case None =>
    case Some(k) =>
      PrefixBeforeFirstOccurrence(s, sep, k);
      SplitPartsFree(s[k + |sep|..], sep);
  }

  /** A string without the separator is a single part. */
  lemma SplitWithoutSeparator(s: string, sep: string)
    requires |sep| > 0 && !Contains(s, sep)
    ensures Split(s, sep) == [s]
  {
    FindSepSpec(s, sep);
  }

  /** The leftmost occurrence is the one `FindSep` reports. */
  lemma FindSepLeftmost(s: string, sep: string, k: nat)
    requires |sep| > 0 && OccursAt(s, sep, k)
    requires forall j: nat :: j < k ==> !OccursAt(s, sep, j)
    ensures FindSep(s, sep) == Some(k)
  {
    FindSepSpec(s, sep);
    assert Contains(s, sep);
  }

  lemma SplitAtFirst(s: string, sep: string, k: nat)
    requires |sep| > 0 && FindSep(s, sep) == Some(k)
    ensures Split(s, sep) == [s[..k]] + Split(s[k + |sep|..], sep)
  {
  }

  /** A single character other than the separator's first one, followed by
      the separator, is a part of its own. */
  lemma SplitAfterChar(d: char, sep: string, q: string)
    requires |sep| > 0 && d != sep[0]
    ensures Split([d] + sep + q, sep) == [[d]] + Split(q, sep)
  {
    var s := [d] + sep + q;
    assert s[..|sep|][0] == d;
    assert s[1..1 + |sep|] == sep;
    FindSepLeftmost(s, sep, 1);
    SplitAtFirst(s, sep, 1);
    assert s[..1] == [d] && s[1 + |sep|..] == q;
  }

  /** With a one-character separator, an occurrence inside `p` is an
      occurrence in `p + sep + q` at the same place, and conversely below `|p|`. */
  lemma OccursInPrefix(p: string, sep: string, q: string, j: nat)
    requires |sep| == 1 && j < |p|
    ensures OccursAt(p + sep + q, sep, j) <==> OccursAt(p, sep, j)
  {
    assert (p + sep + q)[j..j + 1] == p[j..j + 1];
  }

  lemma SplitAroundPlain(p: string, sep: string, q: string)
    requires |sep| == 1 && FindSep(p, sep).None?
    ensures Split(p + sep + q, sep) == [p] + Split(q, sep)
  {
    FindSepSpec(p, sep);
    var s := p + sep + q;
    forall j: nat | j < |p| ensures !OccursAt(s, sep, j) {
      OccursInPrefix(p, sep, q, j);
    }
    assert s[|p|..|p| + 1] == sep;
    FindSepLeftmost(s, sep, |p|);
    SplitAtFirst(s, sep, |p|);
    assert s[..|p|] == p && s[|p| + 1..] == q;
  }

  lemma SplitAroundCut(p: string, sep: string, q: string, k: nat)
    requires |sep| == 1 && FindSep(p, sep) == Some(k)
    ensures Split(p + sep + q, sep) == [p[..k]] + Split(p[k + 1..] + sep + q, sep)
  {
    assert OccursAt(p, sep, k);
    var s := p + sep + q;
    assert s == p[..k + 1] + (p[k + 1..] + sep + q);
    assert FindSep(s, sep) == Some(k) by {
      FindSepSpec(p, sep);
      forall j: nat | j <= k ensures OccursAt(s, sep, j) <==> OccursAt(p, sep, j) {
        OccursInPrefix(p, sep, q, j);
      }
      FindSepLeftmost(s, sep, k);
    }
    SplitAtFirst(s, sep, k);
    assert s[..k] == p[..k];
    assert s[k + 1..] == p[k + 1..] + sep + q;
  }

  /** With a one-character separator, splitting distributes over a separator
      written between two strings. */
  lemma {:induction false} SplitAround(p: string, sep: string, q: string)
    requires |sep| == 1
    ensures Split(p + sep + q, sep) == Split(p, sep) + Split(q, sep)
    decreases |p|
  {
    var r := FindSep(p, sep);
    if r.None? {
      SplitAroundPlain(p, sep, q);
    } else {
      var k := r.value;
      var tail := p[k + 1..];
      var left := Split(tail, sep);
      var right := Split(q, sep);
      assert Split(tail + sep + q, sep) == left + right by {
        SplitAround(tail, sep, q);
      }
      assert Split(p + sep + q, sep) == [p[..k]] + (left + right) by {
        SplitAroundCut(p, sep, q, k);
      }
      assert Split(p, sep) == [p[..k]] + left by {
        SplitAtFirst(p, sep, k);
      }
      assert [p[..k]] + (left + right) == ([p[..k]] + left) + right;
    }
  }

  lemma EndsWithAppended(p: string, suffix: string)
    ensures EndsWith(p + suffix, suffix)
  {
    assert (p + suffix)[|p|..] == suffix;
  }

  lemma JoinTwo(a: string, b: string, sep: string)
    ensures Join([a, b], sep) == a + sep + b
  {
    assert [a, b][1..] == [b];
  }

  /** Joining parts that end in `a`, `b` gives a string ending in `sep + a + sep + b`. */
  lemma JoinEndsWithLastTwo(parts: seq<string>, sep: string, a: string, b: string)
    requires |parts| >= 3 && parts[|parts| - 2] == a && parts[|parts| - 1] == b
    ensures EndsWith(Join(parts, sep), sep + (a + sep + b))
  {
    var front := parts[..|parts| - 2];
    var j := Join(front, sep);
    var u := a + sep + b;
    assert Join(parts, sep) == j + sep + u by {
      assert parts == front + [a, b];
      JoinAppend(front, [a, b], sep);
      JoinTwo(a, b, sep);
    }
    assert j + sep + u == j + (sep + u);
    EndsWithAppended(j, sep + u);
  }

  /** A string whose last two parts are `a` and `b` ends in `sep + a + sep + b`. */
  lemma JoinLastTwo(s: string, sep: string, a: string, b: string)
    requires |sep| > 0
    requires var parts := Split(s, sep);
             |parts| >= 3 && parts[|parts| - 2] == a && parts[|parts| - 1] == b
    ensures EndsWith(s, sep + (a + sep + b))
  {
    JoinEndsWithLastTwo(Split(s, sep), sep, a, b);
    SplitJoin(s, sep);
  }

  /** `string_without_extension`: `re.sub(r"[.]ts[.]meta$", '', s)`. Python's
      `$` also matches just before a final newline, so a name ending in
      ".ts.meta" followed by a newline loses the suffix and keeps the newline. */
  function StripMetaExtension(s: string): (r: string)
    ensures EndsWith(s, MetaSuffix) ==> r + MetaSuffix == s
    ensures EndsWith(s, MetaSuffix + "\n") ==> |r| > 0 && Last(r) == '\n' && r[..|r| - 1] + MetaSuffix + "\n" == s
    ensures !EndsWith(s, MetaSuffix) && !EndsWith(s, MetaSuffix + "\n") ==> r == s
  {
    if EndsWith(s, MetaSuffix) then
      assert s[|s| - 1] == 'a';
      s[..|s| - |MetaSuffix|]
    else if EndsWith(s, MetaSuffix + "\n") then s[..|s| - |MetaSuffix| - 1] + "\n"
    else s
  }
}
