/** The whole decision run over one directory listing: recognition, the
    matcher, the merger, keeper selection, the annotation pass and the
    classifier, and the file names the run reports for each verdict. */
module Pipeline {
  import opened Seqs
  import opened Text
  import opened Records
  import opened Matcher
  import opened Merger
  import opened Keeper
  import opened Annotation
  import opened Classifier
  import opened Classes

  /** `use_empty_epg_description` and `file_size_factor`. */
  datatype Settings = Settings(useEmptyDescription: bool, sizeFactor: real)

  /** The names printed under "Keep following records" and "To be removed
      records" (before the extension is stripped), and the `dupl_inx` log
      entries. */
  datatype Report = Report(removed: seq<string>, kept: seq<string>, marking: Marking)

  /** Every cluster has at least two members, all of them meta indices. */
  predicate ValidClusters(clusters: seq<seq<nat>>, n: nat)
  {
    forall t :: 0 <= t < |clusters| ==>
      |clusters[t]| >= 2 && forall j :: 0 <= j < |clusters[t]| ==> clusters[t][j] < n
  }

  /** A group the matcher reports holds meta indices only. */
  lemma GroupMembersAreIndices(metas: seq<MetaRecord>, i: nat, g: seq<nat>)
    requires i < |metas| && IsGroupOf(metas, i, g)
    ensures forall j :: 0 <= j < |g| ==> g[j] < |metas|
  {
    forall j | 0 <= j < |g| ensures g[j] < |metas| {
      if j > 0 {
        assert g[1..][j - 1] == g[j];
        assert g[j] in g[1..];
      }
    }
  }

  /** `cleaned_duplicates` after the matcher, the merger and keeper
      selection. */
  function Resolve(metas: seq<MetaRecord>, settings: Settings, size: nat -> nat): (r: seq<seq<nat>>)
    ensures ValidClusters(r, |metas|)
  {
    var groups := FindDuplicates(metas, settings.useEmptyDescription);
    assert ValidClusters(groups, |metas|) by {
      forall t | 0 <= t < |groups| ensures |groups[t]| >= 2 && forall j :: 0 <= j < |groups[t]| ==> groups[t][j] < |metas| {
        GroupMembersAreIndices(metas, groups[t][0], groups[t]);
      }
    }
    var merged := Merge(groups);
    SubsequenceElements(merged, groups);
    assert ValidClusters(merged, |metas|) by {
      forall t | 0 <= t < |merged| ensures |merged[t]| >= 2 && forall j :: 0 <= j < |merged[t]| ==> merged[t][j] < |metas| {
        assert merged[t] in merged;
      }
    }
    var r := SelectKeepers(merged, size, settings.sizeFactor);
    assert ValidClusters(r, |metas|) by {
      forall t, j | 0 <= t < |r| && 0 <= j < |r[t]| ensures r[t][j] < |metas| {
        assert r[t][j] in multiset(r[t]);
        assert r[t][j] in multiset(merged[t]);
      }
    }
    r
  }

  /** How the report finds the file of meta index `k`: by its own record,
      `meta_texts[k][0]`, or by position in the listing, `all_files[k]`. */
  datatype Naming = ByRecord | ByListing

  /** The file name used for meta index `k`. */
  function NameOf(cands: seq<Candidate>, naming: Naming, k: nat): string
  {
    match naming
    case ByRecord => var metas := CollectMeta(cands); if k < |metas| then metas[k].file else ""
    case ByListing => if k < |cands| then cands[k].name else ""
  }

  /** The size used for meta index `k`: that of the media file belonging to
      the name used for `k`, 0 when it is missing. */
  function SizeOf(cands: seq<Candidate>, naming: Naming, mediaSize: string -> nat): nat -> nat
  {
    (k: nat) => mediaSize(NameOf(cands, naming, k))
  }

  /** The names of a list of meta indices. */
  function NamesOf(cands: seq<Candidate>, naming: Naming, indices: seq<nat>): seq<string>
  {
    seq(|indices|, q requires 0 <= q < |indices| => NameOf(cands, naming, indices[q]))
  }

  /** A listed index has its name among the names of the list. */
  lemma NameListed(cands: seq<Candidate>, naming: Naming, indices: seq<nat>, k: nat)
    requires k in indices
    ensures NameOf(cands, naming, k) in NamesOf(cands, naming, indices)
  {
    var q :| 0 <= q < |indices| && indices[q] == k;
    assert NamesOf(cands, naming, indices)[q] == NameOf(cands, naming, k);
  }

  /** When every index below `n` has a verdict, the name of every index
      below `n` is among the names of one of the two lists. */
  lemma OutcomeNamesCover(cands: seq<Candidate>, naming: Naming, outcome: Outcome, n: nat)
    requires forall k: nat :: k < n ==> k in outcome.removed || k in outcome.kept
    ensures forall k: nat :: k < n ==>
      NameOf(cands, naming, k) in NamesOf(cands, naming, outcome.removed)
      || NameOf(cands, naming, k) in NamesOf(cands, naming, outcome.kept)
  {
    forall k: nat | k < n
      ensures NameOf(cands, naming, k) in NamesOf(cands, naming, outcome.removed)
        || NameOf(cands, naming, k) in NamesOf(cands, naming, outcome.kept)
    {
      if k in outcome.removed {
        NameListed(cands, naming, outcome.removed, k);
      } else {
        NameListed(cands, naming, outcome.kept, k);
      }
    }
  }

  /** The clusters of a run. */
  function RunClusters(cands: seq<Candidate>, settings: Settings, mediaSize: string -> nat, naming: Naming): seq<seq<nat>>
  {
    Resolve(CollectMeta(cands), settings, SizeOf(cands, naming, mediaSize))
  }

  /** The verdicts of a run, by meta index. */
  function RunOutcome(cands: seq<Candidate>, settings: Settings, mediaSize: string -> nat, naming: Naming): Outcome
  {
    Classify(RunClusters(cands, settings, mediaSize, naming), |CollectMeta(cands)|)
  }

  /** The run with the given naming: sizes are taken of the media file of
      the name used, and the verdicts are reported under that name. The name
      of every recognised record is reported, and the two lists hold one
      entry per record in total. */
  function RunWith(cands: seq<Candidate>, settings: Settings, mediaSize: string -> nat, naming: Naming): (r: Report)
    ensures |r.removed| + |r.kept| == |CollectMeta(cands)|
    ensures forall k: nat :: k < |CollectMeta(cands)| ==>
      NameOf(cands, naming, k) in r.removed || NameOf(cands, naming, k) in r.kept
    ensures naming == ByRecord ==> forall k: nat :: k < |CollectMeta(cands)| ==>
      CollectMeta(cands)[k].file in r.removed || CollectMeta(cands)[k].file in r.kept
  {
    var outcome := RunOutcome(cands, settings, mediaSize, naming);
    OutcomeNamesCover(cands, naming, outcome, |CollectMeta(cands)|);
    assert naming == ByRecord ==> forall k: nat :: k < |CollectMeta(cands)| ==>
      NameOf(cands, naming, k) == CollectMeta(cands)[k].file;
    Report(NamesOf(cands, naming, outcome.removed), NamesOf(cands, naming, outcome.kept),
           Annotate(RunClusters(cands, settings, mediaSize, naming)))
  }

  /** The run as the program performs it: meta index `k` is looked up in the
      full listing, as `all_files[meta_index]`. */
  function RunAsWritten(cands: seq<Candidate>, settings: Settings, mediaSize: string -> nat): Report
  {
    RunWith(cands, settings, mediaSize, ByListing)
  }

  /** The run with meta index `k` named by its own record. */
  function Run(cands: seq<Candidate>, settings: Settings, mediaSize: string -> nat): Report
  {
    RunWith(cands, settings, mediaSize, ByRecord)
  }

  /** Which slot of `c` ends up at slot `j` once slot `i` and the last slot
      are exchanged. */
  function SwapSource(c: seq<nat>, i: nat, j: nat): nat
    requires i < |c|
  {
    if j + 1 == |c| then i else if j == i then |c| - 1 else j
  }

  /** `r` is `c` with some slot exchanged with the last slot. */
  ghost predicate IsSwapOf(r: seq<nat>, c: seq<nat>)
  {
    exists i :: 0 <= i < |c| && r == c[i := Last(c)][|c| - 1 := c[i]]
  }

  /** Exchanging slot `i` with the last slot moves slot `SwapSource` to `j`. */
  lemma SwapSlot(c: seq<nat>, i: nat, j: nat)
    requires i < |c| && j < |c|
    ensures SwapSource(c, i, j) < |c|
    ensures c[i := Last(c)][|c| - 1 := c[i]][j] == c[SwapSource(c, i, j)]
  {
  }

  /** Two slots of exchanged clusters holding the same index are one slot,
      when no index occurred twice before the exchange. */
  lemma SwappedSlotsOnce(clusters: seq<seq<nat>>, r: seq<seq<nat>>, t: nat, j: nat, t': nat, j': nat)
    requires OccursOnce(clusters) && |r| == |clusters|
    requires t < |r| && t' < |r| && IsSwapOf(r[t], clusters[t]) && IsSwapOf(r[t'], clusters[t'])
    requires j < |r[t]| && j' < |r[t']| && r[t][j] == r[t'][j']
    ensures t == t' && j == j'
  {
    var c, c' := clusters[t], clusters[t'];
    var i :| 0 <= i < |c| && r[t] == c[i := Last(c)][|c| - 1 := c[i]];
    var i' :| 0 <= i' < |c'| && r[t'] == c'[i' := Last(c')][|c'| - 1 := c'[i']];
    SwapSlot(c, i, j);
    SwapSlot(c', i', j');
    assert t == t';
    SwapSlot(c, i, |c| - 1);
    SwapSlot(c, i', |c| - 1);
    assert c[i] == c[i'];
  }

  /** Keeper selection only reorders each cluster: a cluster keeps its
      members. */
  lemma SelectKeepersMembers(clusters: seq<seq<nat>>, size: nat -> nat, factor: real)
    requires forall t :: 0 <= t < |clusters| ==> |clusters[t]| > 0
    ensures var r := SelectKeepers(clusters, size, factor);
      forall t, x :: 0 <= t < |r| ==> (x in r[t] <==> x in clusters[t])
  {
    var r := SelectKeepers(clusters, size, factor);
    forall t, x | 0 <= t < |r| ensures x in r[t] <==> x in clusters[t] {
      assert x in r[t] <==> x in multiset(r[t]);
      assert x in clusters[t] <==> x in multiset(clusters[t]);
    }
  }

  /** Keeper selection keeps an index that occurred once occurring once. */
  lemma SelectKeepersOccurOnce(clusters: seq<seq<nat>>, size: nat -> nat, factor: real)
    requires forall t :: 0 <= t < |clusters| ==> |clusters[t]| > 0
    requires OccursOnce(clusters)
    ensures OccursOnce(SelectKeepers(clusters, size, factor))
  {
    var r := SelectKeepers(clusters, size, factor);
    assert forall t :: 0 <= t < |r| ==> IsSwapOf(r[t], clusters[t]) by {
      forall t | 0 <= t < |r| ensures IsSwapOf(r[t], clusters[t]) {
        var i := SelectKeeperIsSwap(clusters[t], size, factor);
      }
    }
    forall t, j, t', j' |
      && 0 <= t < |r| && 0 <= j < |r[t]|
      && 0 <= t' < |r| && 0 <= j' < |r[t']|
      && r[t][j] == r[t'][j']
      ensures t == t' && j == j'
    {
      SwappedSlotsOnce(clusters, r, t, j, t', j');
    }
  }

  /** The clusters of a run are the merged groups after keeper selection. */
  lemma RunClustersAreKept(cands: seq<Candidate>, settings: Settings, mediaSize: string -> nat, naming: Naming)
    ensures var merged := Merge(FindDuplicates(CollectMeta(cands), settings.useEmptyDescription));
      && (forall t :: 0 <= t < |merged| ==> |merged[t]| > 0)
      && RunClusters(cands, settings, mediaSize, naming)
           == SelectKeepers(merged, SizeOf(cands, naming, mediaSize), settings.sizeFactor)
  {
  }

  /** No index is in two clusters of a run, nor twice in one. */
  lemma RunClustersOccurOnce(cands: seq<Candidate>, settings: Settings, mediaSize: string -> nat, naming: Naming)
    ensures OccursOnce(RunClusters(cands, settings, mediaSize, naming))
  {
    var merged := Merge(FindDuplicates(CollectMeta(cands), settings.useEmptyDescription));
    RunClustersAreKept(cands, settings, mediaSize, naming);
    ClustersOccurOnce(CollectMeta(cands), settings.useEmptyDescription);
    SelectKeepersOccurOnce(merged, SizeOf(cands, naming, mediaSize), settings.sizeFactor);
  }

  /** A cluster of a run holds exactly the records with the content of any
      one of its members. */
  lemma RunClusterIsClass(cands: seq<Candidate>, settings: Settings, mediaSize: string -> nat, naming: Naming, t: nat, x: nat)
    ensures var metas := CollectMeta(cands);
      var clusters := RunClusters(cands, settings, mediaSize, naming);
      t < |clusters| && x in clusters[t] ==>
        && x < |metas|
        && forall y: nat :: y in clusters[t] <==> y < |metas| && SameContent(metas[x], metas[y])
  {
    var metas := CollectMeta(cands);
    var merged := Merge(FindDuplicates(metas, settings.useEmptyDescription));
    var clusters := RunClusters(cands, settings, mediaSize, naming);
    if t < |clusters| && x in clusters[t] {
      RunClustersAreKept(cands, settings, mediaSize, naming);
      SelectKeepersMembers(merged, SizeOf(cands, naming, mediaSize), settings.sizeFactor);
      MergedAreClasses(metas, settings.useEmptyDescription);
      assert x in merged[t];
    }
  }

  /** A record is in a cluster of a run exactly when another record shares
      its content and the first record of its class may open a group. */
  lemma RunClusteredIff(cands: seq<Candidate>, settings: Settings, mediaSize: string -> nat, naming: Naming, x: nat)
    requires x < |CollectMeta(cands)|
    ensures var metas := CollectMeta(cands);
      var clusters := RunClusters(cands, settings, mediaSize, naming);
      (exists t :: 0 <= t < |clusters| && x in clusters[t]) <==>
        HasPartner(metas, x) && MayAnchor(metas, settings.useEmptyDescription, FirstFrom(metas, x, 0))
  {
    var metas := CollectMeta(cands);
    var merged := Merge(FindDuplicates(metas, settings.useEmptyDescription));
    var clusters := RunClusters(cands, settings, mediaSize, naming);
    assert |clusters| == |merged| && forall t :: 0 <= t < |clusters| ==> (x in clusters[t] <==> x in merged[t]) by {
      RunClustersAreKept(cands, settings, mediaSize, naming);
      SelectKeepersMembers(merged, SizeOf(cands, naming, mediaSize), settings.sizeFactor);
    }
    ClusteredIff(metas, settings.useEmptyDescription, x);
  }

  /** End to end: the annotation pass finds no index in two clusters, and a
      meta index is removed exactly when it is in a cluster and is not that
      cluster's keeper; every other meta index is kept. */
  lemma RunRemovesAllButKeepers(cands: seq<Candidate>, settings: Settings, mediaSize: string -> nat, naming: Naming)
    ensures var n := |CollectMeta(cands)|;
      var clusters := RunClusters(cands, settings, mediaSize, naming);
      var outcome := RunOutcome(cands, settings, mediaSize, naming);
      && Annotate(clusters).conflicts == []
      && (forall k: nat :: k in outcome.removed <==>
            k < n && exists t :: 0 <= t < |clusters| && k in clusters[t] && k != Last(clusters[t]))
      && (forall k: nat :: k in outcome.kept <==>
            k < n && !exists t :: 0 <= t < |clusters| && k in clusters[t] && k != Last(clusters[t]))
  {
    var n := |CollectMeta(cands)|;
    var clusters := RunClusters(cands, settings, mediaSize, naming);
    RunClustersOccurOnce(cands, settings, mediaSize, naming);
    AnnotateSpec(clusters);
    ClassifyIsNonLast(clusters, n);
    NonLastMemberIff(clusters);
  }

  /** Every name the run reports is that of a recognised sidecar file of the
      listing. */
  lemma ReportedNamesAreRecognised(cands: seq<Candidate>, settings: Settings, mediaSize: string -> nat)
    ensures var r := Run(cands, settings, mediaSize);
      forall x :: x in r.removed || x in r.kept ==>
        exists p :: 0 <= p < |cands| && cands[p].name == x && Recognize(cands[p]).Some?
  {
    var r := Run(cands, settings, mediaSize);
    var outcome := RunOutcome(cands, settings, mediaSize, ByRecord);
    assert forall k :: k in outcome.removed || k in outcome.kept ==> k < |CollectMeta(cands)|;
    forall x | x in r.removed || x in r.kept
      ensures exists p :: 0 <= p < |cands| && cands[p].name == x && Recognize(cands[p]).Some?
    {
      var k: nat;
      if x in r.removed {
        var q :| 0 <= q < |r.removed| && r.removed[q] == x;
        k := outcome.removed[q];
      } else {
        var q :| 0 <= q < |r.kept| && r.kept[q] == x;
        k := outcome.kept[q];
      }
      assert k in outcome.removed || k in outcome.kept;
      RecordNameRecognised(cands, k);
    }
  }

  /** The file of meta index `k` is the name of a recognised candidate. */
  lemma RecordNameRecognised(cands: seq<Candidate>, k: nat)
    requires k < |CollectMeta(cands)|
    ensures exists p :: 0 <= p < |cands| && cands[p].name == NameOf(cands, ByRecord, k) && Recognize(cands[p]).Some?
  {
    CollectMetaAtPositions(cands);
    var p := MetaPositions(cands)[k];
    assert cands[p].name == CollectMeta(cands)[k].file;
  }

  /** Three one-character name parts written with the separator between them. */
  lemma ThreeNameParts(a: char, b: char, c: char)
    requires a != ' ' && b != ' '
    ensures Split([a] + NameSeparator + [b] + NameSeparator + [c], NameSeparator) == [[a], [b], [c]]
  {
    var sep := NameSeparator;
    assert Split([c], sep) == [[c]];
    SplitAfterChar(b, sep, [c]);
    assert [a] + sep + [b] + sep + [c] == [a] + sep + ([b] + sep + [c]);
    SplitAfterChar(a, sep, [b] + sep + [c]);
  }

  /** A listing whose first sidecar has too few name parts, followed by two
      recordings of the same broadcast. */
  function SampleListing(): seq<Candidate>
  {
    [Candidate("0.ts.meta", "T", "D"), Candidate("a - b - c.ts.meta", "T", "D"), Candidate("d - b - c.ts.meta", "T", "D")]
  }

  /** `0.ts.meta` has a single name part and is not recognised. */
  lemma ShortNameNotRecognised(line2: string, line3: string)
    ensures Recognize(Candidate("0.ts.meta", line2, line3)).None?
  {
    assert StripMetaExtension("0.ts.meta") == "0";
    NoDot("0");
    SplitWithoutSeparator("0", NameSeparator);
  }

  /** `d - b - c.ts.meta` is recognised with its three name parts. */
  lemma FullNameRecognised(d: char, line2: string, line3: string)
    requires d != ' ' && d != '.' && d != '-'
    ensures var name := [d] + " - b - c.ts.meta";
      Recognize(Candidate(name, line2, line3)) == Some(MetaRecord(name, [[d], "b", "c"], line2, line3))
  {
    var t := [d] + NameSeparator + ['b'] + NameSeparator + ['c'];
    assert [d] + " - b - c.ts.meta" == t + MetaSuffix;
    assert forall i :: 0 <= i < |t| ==> t[i] != '.';
    ThreeNameParts(d, 'b', 'c');
    RecognizeDotFree(t, line2, line3);
  }

  lemma SampleNameSpelling()
    ensures ['a'] + " - b - c.ts.meta" == "a - b - c.ts.meta"
    ensures ['d'] + " - b - c.ts.meta" == "d - b - c.ts.meta"
  {
  }

  /** A listing of three whose first name is not recognised keeps the
      records of the other two. */
  lemma CollectLastTwo(cands: seq<Candidate>, r1: MetaRecord, r2: MetaRecord)
    requires |cands| == 3 && Recognize(cands[0]).None?
    requires Recognize(cands[1]) == Some(r1) && Recognize(cands[2]) == Some(r2)
    ensures CollectMeta(cands) == [r1, r2]
  {
    var opts := RecognizeAll(cands);
    RecognizeAllAt(cands);
    assert Somes(opts[2..]) == [r2] by {
      assert opts[2..][1..] == [];
    }
    assert Somes(opts[1..]) == [r1, r2] by {
      assert opts[1..][1..] == opts[2..];
    }
  }

  /** Only the second and third names of the sample listing are recognised. */
  lemma SampleRecords(cands: seq<Candidate>)
    requires cands == SampleListing()
    ensures CollectMeta(cands) == SampleRecordsList()
    ensures Recognize(cands[0]).None?
  {
    ShortNameNotRecognised("T", "D");
    FullNameRecognised('a', "T", "D");
    FullNameRecognised('d', "T", "D");
    SampleNameSpelling();
    CollectLastTwo(cands, SampleRecordsList()[0], SampleRecordsList()[1]);
  }

  /** The records of the sample listing. */
  function SampleRecordsList(): seq<MetaRecord>
  {
    [MetaRecord("a - b - c.ts.meta", ["a", "b", "c"], "T", "D"),
     MetaRecord("d - b - c.ts.meta", ["d", "b", "c"], "T", "D")]
  }

  /** The matcher pairs the two sample records. */
  lemma SampleGroups(useEmpty: bool)
    ensures FindDuplicates(SampleRecordsList(), useEmpty) == [[0, 1]]
  {
    var metas := SampleRecordsList();
    assert SameContent(metas[0], metas[1]);
    assert InnerScan(metas, useEmpty, 0, 2, true, [[0, 1]]) == [[0, 1]];
    assert InnerScan(metas, useEmpty, 0, 1, false, []) == [[0, 1]];
    assert InnerScan(metas, useEmpty, 1, 2, false, [[0, 1]]) == [[0, 1]];
    assert OuterScan(metas, useEmpty, 2, [[0, 1]]) == [[0, 1]];
    assert OuterScan(metas, useEmpty, 1, [[0, 1]]) == [[0, 1]];
    assert OuterScan(metas, useEmpty, 0, []) == [[0, 1]];
  }

  /** A single cluster of two is left as it is by the merger and, with
      both files of the same size, by keeper selection. */
  lemma SampleCluster(size: nat -> nat, factor: real)
    requires size(0) == size(1)
    ensures SelectKeepers(Merge([[0, 1]]), size, factor) == [[0, 1]]
  {
    assert Absorb([0, 1], 1, []) == Absorption([], []);
    assert MergeFrom([[0, 1]], 1) == [[0, 1]];
    assert Merge([[0, 1]]) == [[0, 1]];
    var sizes := SizesOf([0, 1], size);
    assert sizes == [size(0), size(0)];
    assert MaxScan(sizes, 2, size(0), 1) == (size(0), 1);
    assert MaxScan(sizes, 1, size(0), 0) == (size(0), 1);
    assert MaxScan(sizes, 0, 0, 0) == (size(0), 1);
    assert SelectKeeper([0, 1], size, factor) == [0, 1];
  }

  /** The classifier removes the first member of the one cluster. */
  lemma SampleClassify()
    ensures Classify([[0, 1]], 2) == Outcome([0], [1])
  {
    assert IsHit([[0, 1]], 0, 0, 0);
    assert Skip([[0, 1]], 0);
    assert FindHit([[0, 1]], 0, 0) == Some(Hit(0, 0));
    assert Next([[0, 1]], 0) == [];
    assert !Skip([], 1);
    assert ClassifyFrom([], 2, 2) == Outcome([], []);
    assert ClassifyFrom([], 1, 2) == Outcome([], [1]);
    assert ClassifyFrom([[0, 1]], 0, 2) == Outcome([0], [1]);
  }

  /** On the sample, the two recordings form one cluster whose keeper is the
      later one, and the earlier one is removed. */
  lemma SampleOutcome(cands: seq<Candidate>, settings: Settings, mediaSize: string -> nat, naming: Naming)
    requires cands == SampleListing()
    requires mediaSize(NameOf(cands, naming, 0)) == mediaSize(NameOf(cands, naming, 1))
    ensures RunOutcome(cands, settings, mediaSize, naming) == Outcome([0], [1])
  {
    SampleRecords(cands);
    SampleGroups(settings.useEmptyDescription);
    var size := SizeOf(cands, naming, mediaSize);
    SampleCluster(size, settings.sizeFactor);
    assert RunClusters(cands, settings, mediaSize, naming) == [[0, 1]];
    SampleClassify();
  }

  /** The names the two namings give to the sample's meta indices. */
  lemma SampleNames(cands: seq<Candidate>)
    requires cands == SampleListing()
    ensures NameOf(cands, ByListing, 0) == "0.ts.meta"
    ensures NameOf(cands, ByListing, 1) == "a - b - c.ts.meta"
    ensures NameOf(cands, ByRecord, 0) == "a - b - c.ts.meta"
    ensures NameOf(cands, ByRecord, 1) == "d - b - c.ts.meta"
  {
    SampleRecords(cands);
  }

  /** The names reported for removal are those of the removed indices. */
  lemma RemovedNames(cands: seq<Candidate>, settings: Settings, mediaSize: string -> nat, naming: Naming, removed: seq<nat>)
    requires RunOutcome(cands, settings, mediaSize, naming).removed == removed
    ensures RunWith(cands, settings, mediaSize, naming).removed == NamesOf(cands, naming, removed)
  {
  }

  /** Looking meta index 0 up in the listing, the sample run reports
      `0.ts.meta` for removal. */
  lemma SampleListedRemoval(cands: seq<Candidate>, settings: Settings, mediaSize: string -> nat)
    requires cands == SampleListing()
    requires mediaSize("0.ts.meta") == mediaSize("a - b - c.ts.meta")
    ensures RunAsWritten(cands, settings, mediaSize).removed == ["0.ts.meta"]
  {
    SampleNames(cands);
    SampleOutcome(cands, settings, mediaSize, ByListing);
    RemovedNames(cands, settings, mediaSize, ByListing, [0]);
  }

  /** Looking meta index 0 up by record, the sample run reports the first
      recording for removal. */
  lemma SampleRecordRemoval(cands: seq<Candidate>, settings: Settings, mediaSize: string -> nat)
    requires cands == SampleListing()
    requires mediaSize("a - b - c.ts.meta") == mediaSize("d - b - c.ts.meta")
    ensures Run(cands, settings, mediaSize).removed == ["a - b - c.ts.meta"]
  {
    SampleNames(cands);
    SampleOutcome(cands, settings, mediaSize, ByRecord);
    RemovedNames(cands, settings, mediaSize, ByRecord, [0]);
  }

  /** The sample run both ways. Looking meta index 0 up in the listing, the
      run reports `0.ts.meta`, which is not a recognised record at all, for
      removal; looking it up by record, it reports the first recording. */
  lemma ListedNamesMisreport(cands: seq<Candidate>, settings: Settings, mediaSize: string -> nat)
    requires cands == SampleListing()
    requires mediaSize("0.ts.meta") == mediaSize("a - b - c.ts.meta") == mediaSize("d - b - c.ts.meta")
    ensures Recognize(cands[0]).None?
    ensures RunAsWritten(cands, settings, mediaSize).removed == ["0.ts.meta"]
    ensures Run(cands, settings, mediaSize).removed == ["a - b - c.ts.meta"]
  {
    SampleRecords(cands);
    SampleListedRemoval(cands, settings, mediaSize);
    SampleRecordRemoval(cands, settings, mediaSize);
  }
}
