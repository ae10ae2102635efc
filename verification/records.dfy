/** Recognition of metadata sidecar records (the enumeration over the
    candidate names): a name counts when its dot-separated parts end in
    `ts`, `meta` and the title segment before them splits on " - " into at
    least three parts (date, channel, title). */
module Records {
  import opened Seqs
  import opened Text

  /** A candidate file name with the 2nd and 3rd lines of its sidecar,
      already stripped of surrounding white space. The lines are read only
      for recognised names; for the others they are ignored. */
  datatype Candidate = Candidate(name: string, line2: string, line3: string)

  /** One entry of `meta_texts`: `(f, name_parts, line2, line3)`. */
  datatype MetaRecord = MetaRecord(file: string, nameParts: seq<string>, line2: string, line3: string)

  const NameSeparator: string := " - "

  /** The dot-separated parts of the name end in `ts`, `meta`, with at least
      one part before them. */
  predicate HasSidecarParts(name: string)
  {
    var parts := Split(name, ".");
    |parts| >= 3 && parts[|parts| - 2] == "ts" && parts[|parts| - 1] == "meta"
  }

  /** The last dot-separated part of the name once the suffix is removed. */
  function TitleSegment(name: string): string
    requires EndsWith(name, MetaSuffix)
  {
    Last(Split(StripMetaExtension(name), "."))
  }

  lemma NoDot(s: string)
    requires forall i :: 0 <= i < |s| ==> s[i] != '.'
    ensures Split(s, ".") == [s]
  {
    forall k: nat | k <= |s| ensures !OccursAt(s, ".", k) {
      if k < |s| {
        assert s[k..k + 1][0] == s[k];
      }
    }
    SplitWithoutSeparator(s, ".");
  }

  lemma TwoParts(a: string, b: string)
    requires forall i :: 0 <= i < |a| ==> a[i] != '.'
    requires forall i :: 0 <= i < |b| ==> b[i] != '.'
    ensures Split(a + "." + b, ".") == [a, b]
  {
    SplitAround(a, ".", b);
    NoDot(a);
    NoDot(b);
  }

  /** The sidecar suffix written as its dot-separated parts. */
  lemma SuffixSpelling()
    ensures MetaSuffix == "." + ("ts" + "." + "meta")
  {
  }

  /** Two dot-free parts after a dot split off as the last two parts. */
  lemma SplitLastTwo(p: string, a: string, b: string)
    requires forall i :: 0 <= i < |a| ==> a[i] != '.'
    requires forall i :: 0 <= i < |b| ==> b[i] != '.'
    ensures Split(p + "." + (a + "." + b), ".") == Split(p, ".") + [a, b]
  {
    SplitAround(p, ".", a + "." + b);
    TwoParts(a, b);
  }

  /** A name with the sidecar suffix splits into the parts of the name
      without the suffix, then `ts`, `meta`. */
  lemma SuffixGivesParts(name: string)
    requires EndsWith(name, MetaSuffix)
    ensures Split(name, ".") == Split(StripMetaExtension(name), ".") + ["ts", "meta"]
  {
    var p := StripMetaExtension(name);
    SuffixSpelling();
    assert name == p + "." + ("ts" + "." + "meta");
    SplitLastTwo(p, "ts", "meta");
  }

  lemma PartsGiveSuffix(name: string)
    requires HasSidecarParts(name)
    ensures EndsWith(name, MetaSuffix)
  {
    JoinLastTwo(name, ".", "ts", "meta");
    SuffixSpelling();
  }

  /** The part test of the source and the suffix test agree. */
  lemma SidecarPartsIffSuffix(name: string)
    ensures HasSidecarParts(name) <==> EndsWith(name, MetaSuffix)
  {
    if EndsWith(name, MetaSuffix) {
      SuffixGivesParts(name);
      var parts := Split(name, ".");
      assert |parts| >= 3 && parts[|parts| - 2] == "ts" && parts[|parts| - 1] == "meta";
    }
    if HasSidecarParts(name) {
      PartsGiveSuffix(name);
    }
  }

  /** On a sidecar name the title segment is the third-last dot-separated part. */
  lemma TitleSegmentOfSidecar(name: string)
    requires EndsWith(name, MetaSuffix)
    ensures var parts := Split(name, ".");
      |parts| >= 3 && TitleSegment(name) == parts[|parts| - 3]
  {
    var front := Split(StripMetaExtension(name), ".");
    var parts := Split(name, ".");
    assert parts == front + ["ts", "meta"] by {
      SuffixGivesParts(name);
    }
    assert parts[|parts| - 3] == front[|front| - 1];
  }

  /** The per-name test of the enumeration: the record enters `meta_texts`
      exactly when the name carries the sidecar suffix and its title segment
      has at least three " - " parts. */
  function Recognize(c: Candidate): (r: Option<MetaRecord>)
    ensures r.Some? <==> EndsWith(c.name, MetaSuffix) && |Split(TitleSegment(c.name), NameSeparator)| >= 3
    ensures r.Some? ==> && r.value.file == c.name
                        && r.value.line2 == c.line2
                        && r.value.line3 == c.line3
                        && EndsWith(c.name, MetaSuffix)
                        && |r.value.nameParts| >= 3
                        && r.value.nameParts == Split(TitleSegment(c.name), NameSeparator)
                        && Join(r.value.nameParts, NameSeparator) == TitleSegment(c.name)
  {
    SidecarPartsIffSuffix(c.name);
    var parts := Split(c.name, ".");
    if |parts| >= 3 && parts[|parts| - 2] == "ts" && parts[|parts| - 1] == "meta" then
      TitleSegmentOfSidecar(c.name);
      var nameParts := Split(parts[|parts| - 3], NameSeparator);
      SplitJoin(parts[|parts| - 3], NameSeparator);
      if |nameParts| >= 3 then Some(MetaRecord(c.name, nameParts, c.line2, c.line3)) else None
    else
      None
  }

  /** A dot-free title followed by the sidecar suffix is recognised exactly
      when it has at least three name parts, and the parts are its record's. */
  lemma RecognizeDotFree(t: string, line2: string, line3: string)
    requires forall i :: 0 <= i < |t| ==> t[i] != '.'
    ensures var name := t + MetaSuffix;
      Recognize(Candidate(name, line2, line3)) ==
        if |Split(t, NameSeparator)| >= 3 then Some(MetaRecord(name, Split(t, NameSeparator), line2, line3)) else None
  {
    var name := t + MetaSuffix;
    EndsWithAppended(t, MetaSuffix);
    assert StripMetaExtension(name) == t by {
      var stripped := StripMetaExtension(name);
      assert stripped + MetaSuffix == t + MetaSuffix;
      assert stripped == (stripped + MetaSuffix)[..|stripped|];
    }
    assert TitleSegment(name) == t by {
      NoDot(t);
    }
  }

  /** The recognition outcome of every candidate, position by position. */
  function RecognizeAll(cands: seq<Candidate>): seq<Option<MetaRecord>>
  {
    seq(|cands|, i requires 0 <= i < |cands| => Recognize(cands[i]))
  }

  /** Position `i` of the outcomes is the outcome of candidate `i`. */
  lemma RecognizeAllAt(cands: seq<Candidate>)
    ensures |RecognizeAll(cands)| == |cands|
    ensures forall i :: 0 <= i < |cands| ==> RecognizeAll(cands)[i] == Recognize(cands[i])
  {
  }

  /** `meta_texts`: the records of the recognised candidates, in candidate order. */
  function CollectMeta(cands: seq<Candidate>): seq<MetaRecord>
  {
    Somes(RecognizeAll(cands))
  }

  /** The positions in the candidate list of the records of `meta_texts`. */
  function MetaPositions(cands: seq<Candidate>): seq<nat>
  {
    SomePositions(RecognizeAll(cands), 0)
  }

  /** The i-th record is the recognised form of the candidate at the i-th
      recognised position; the positions are increasing and are exactly the
      recognised ones, so nothing is dropped, added or reordered. */
  lemma CollectMetaAtPositions(cands: seq<Candidate>)
    ensures |CollectMeta(cands)| == |MetaPositions(cands)|
    ensures StrictlyIncreasing(MetaPositions(cands))
    ensures forall k :: k in MetaPositions(cands) <==> 0 <= k < |cands| && Recognize(cands[k]).Some?
    ensures forall i :: 0 <= i < |CollectMeta(cands)| ==>
      MetaPositions(cands)[i] < |cands| && Recognize(cands[MetaPositions(cands)[i]]) == Some(CollectMeta(cands)[i])
  {
    SomesAtPositions(RecognizeAll(cands), 0);
  }
}
