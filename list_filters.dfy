/** The delete and fetch filters over a parsed feature list, as the three classes
    GFFFeatureFunctionsExtended (operation/filterSE), GFFFeatureFunctionsEXS
    (operation/filter_ex_sum) and GFFFeatureFunctions (operations) write them: each
    operation removes features from the caller's LinkedList in place, through removeIf or
    an iterator, and hands the same list back. The three classes hold the same operations;
    they differ only in what "chromosome" reads (the seqId column in filterSE, the
    "chromosome" attribute in the other two), and only the operations class has
    decideMethod.

    Each removeIf lambda is a `Criterion`, and `Kept` is what a list holds after a removeIf
    with it. */
module ListFilters {
  import opened Wrappers
  import opened Assoc
  import opened Features
  import FilterEngine

  // ---------------------------------------------------------------- criteria

  /** The feature column a membership filter compares with the list. */
  datatype Field = IdField | TypeField | SeqIdField | SourceField | ChromosomeAttribute

  /** getID, getType, getSeqId, getSource and getChromosome; the ID and the chromosome
      attribute may be null. */
  function FieldValue(d: FeatureData, f: Field): Option<string> {
    match f
    case IdField => d.ID()
    case TypeField => Some(d.featureType)
    case SeqIdField => Some(d.seqId)
    case SourceField => Some(d.source)
    case ChromosomeAttribute => d.Chromosome()
  }

  /** The attribute `e.0` is present and its value matches the pattern `e.1`. The regular
      expression engine behind String.matches is the parameter `matches`. */
  predicate PatternMatches(attrs: Attributes, e: (string, string), matches: (string, string) -> bool) {
    Get(attrs, e.0).Some? && matches(Get(attrs, e.0).value, e.1)
  }

  /** Some filter entry matches. */
  predicate AnyEntryMatches(attrs: Attributes, filter: Assoc<string>, matches: (string, string) -> bool) {
    exists j :: 0 <= j < |filter| && PatternMatches(attrs, filter[j], matches)
  }

  /** Pair `k` of the bounds keeps the feature: for fetchRegion the feature lies inside the
      pair, ends included; for deleteRegion the feature covers the pair. */
  predicate PairKeeps(d: FeatureData, bounds: seq<int>, k: nat, fetch: bool)
    requires 2 * k + 1 < |bounds|
  {
    if fetch then bounds[2 * k] <= d.start && d.end <= bounds[2 * k + 1]
    else d.start <= bounds[2 * k] && d.end >= bounds[2 * k + 1]
  }

  /** The first `pairs` pairs of the bounds all keep the feature. */
  predicate KeepsAll(d: FeatureData, bounds: seq<int>, pairs: nat, fetch: bool) {
    forall k: nat :: k < pairs && 2 * k + 1 < |bounds| ==> PairKeeps(d, bounds, k, fetch)
  }

  /** What one removeIf call (or one iterator pass) removes. */
  datatype Criterion =
    | Listed(field: Field, list: seq<string>)
    | Unlisted(field: Field, list: seq<string>)
    | NotCovering(rs: int, re: int)
    | Outside(rs: int, re: int)
    | FailsSomePair(bounds: seq<int>, pairs: nat, fetch: bool)
    | AnyMatch(filter: Assoc<string>, matches: (string, string) -> bool)
    | NotAllMatch(filter: Assoc<string>, matches: (string, string) -> bool)

  /** The removeIf predicate of each criterion:
      - `Listed`: deleteId, deleteType, deleteChromosome, deleteSource (List.contains,
        never true of null);
      - `Unlisted`: the fetch counterparts;
      - `NotCovering`: deleteRegion's `start > rs || end < re`;
      - `Outside`: fetchRegion's `start < rs || end > re`;
      - `FailsSomePair`: the effect of a whole region loop over its first `pairs` pairs;
      - `AnyMatch`: deleteAttributes, some entry's key is present and its value matches;
      - `NotAllMatch`: a fetch by attributes that keeps the features every entry matches. */
  predicate Removes(c: Criterion, d: FeatureData) {
    match c
    case Listed(f, l) => FilterEngine.Contains(l, FieldValue(d, f))
    case Unlisted(f, l) => !FilterEngine.Contains(l, FieldValue(d, f))
    case NotCovering(rs, re) => d.start > rs || d.end < re
    case Outside(rs, re) => d.start < rs || d.end > re
    case FailsSomePair(bounds, pairs, fetch) => !KeepsAll(d, bounds, pairs, fetch)
    case AnyMatch(filter, m) => AnyEntryMatches(d.attributes, filter, m)
    case NotAllMatch(filter, m) => !forall j :: 0 <= j < |filter| ==> PatternMatches(d.attributes, filter[j], m)
  }

  /** The removeIf criterion of region pair `k`. */
  function PairCriterion(bounds: seq<int>, k: nat, fetch: bool): Criterion
    requires 2 * k + 1 < |bounds|
  {
    if fetch then Outside(bounds[2 * k], bounds[2 * k + 1]) else NotCovering(bounds[2 * k], bounds[2 * k + 1])
  }

  // ---------------------------------------------------------------- the list after removeIf

  /** The features removeIf leaves, in their list order. */
  function Kept(fs: seq<Feature>, c: Criterion): (r: seq<Feature>)
    ensures |r| <= |fs|
    decreases |fs|
  {
    if |fs| == 0 then []
    else Kept(fs[..|fs| - 1], c) + (if Removes(c, fs[|fs| - 1].data) then [] else [fs[|fs| - 1]])
  }

  /** A feature is left exactly when it was in the list and the criterion does not remove
      it. */
  lemma {:induction false} KeptMembers(fs: seq<Feature>, c: Criterion)
    ensures forall x :: x in Kept(fs, c) <==> x in fs && !Removes(c, x.data)
    decreases |fs|
  {
    if |fs| > 0 {
      var front := fs[..|fs| - 1];
      KeptMembers(front, c);
      assert fs == front + [fs[|fs| - 1]];
    }
  }

  /** removeIf works feature by feature, so the survivors keep their relative order: the
      survivors of a concatenation are the survivors of each part, concatenated. */
  lemma {:induction false} KeptAppend(fs: seq<Feature>, gs: seq<Feature>, c: Criterion)
    ensures Kept(fs + gs, c) == Kept(fs, c) + Kept(gs, c)
    decreases |gs|
  {
    if |gs| > 0 {
      var front := gs[..|gs| - 1];
      var last := gs[|gs| - 1];
      KeptAppend(fs, front, c);
      KeptSnoc(fs + front, last, c);
      KeptSnoc(front, last, c);
      LastSplit(fs, gs);
    } else {
      assert fs + gs == fs;
    }
  }

  lemma LastSplit(fs: seq<Feature>, gs: seq<Feature>)
    requires |gs| > 0
    ensures gs == gs[..|gs| - 1] + [gs[|gs| - 1]]
    ensures fs + gs == (fs + gs[..|gs| - 1]) + [gs[|gs| - 1]]
  {
  }

  lemma KeptSnoc(fs: seq<Feature>, x: Feature, c: Criterion)
    ensures Kept(fs + [x], c) == Kept(fs, c) + (if Removes(c, x.data) then [] else [x])
  {
    assert (fs + [x])[..|fs|] == fs;
  }

  /** Two removeIf calls in a row act as one whose criterion is either of theirs. */
  lemma {:induction false} KeptKept(fs: seq<Feature>, c1: Criterion, c2: Criterion, both: Criterion)
    requires forall d :: Removes(both, d) <==> Removes(c1, d) || Removes(c2, d)
    ensures Kept(Kept(fs, c1), c2) == Kept(fs, both)
    decreases |fs|
  {
    if |fs| > 0 {
      var front := fs[..|fs| - 1];
      var last := fs[|fs| - 1];
      KeptKept(front, c1, c2, both);
      if Removes(c1, last.data) {
        assert Kept(fs, c1) == Kept(front, c1) + [];
        assert Kept(front, c1) + [] == Kept(front, c1);
      } else {
        assert Kept(fs, c1) == Kept(front, c1) + [last];
        KeptSnoc(Kept(front, c1), last, c2);
      }
    }
  }

  /** Every filter is idempotent: a second call with the same arguments removes nothing. */
  lemma KeptIdempotent(fs: seq<Feature>, c: Criterion)
    ensures Kept(Kept(fs, c), c) == Kept(fs, c)
  {
    KeptKept(fs, c, c, c);
  }

  /** For one column and one list, every feature survives exactly one of the delete and the
      fetch filter, so the two results together are as long as the list. */
  lemma {:induction false} DeleteFetchPartition(fs: seq<Feature>, f: Field, list: seq<string>)
    ensures |Kept(fs, Listed(f, list))| + |Kept(fs, Unlisted(f, list))| == |fs|
    ensures forall x :: x in fs ==> (x in Kept(fs, Listed(f, list)) <==> x !in Kept(fs, Unlisted(f, list)))
    decreases |fs|
  {
    KeptMembers(fs, Listed(f, list));
    KeptMembers(fs, Unlisted(f, list));
    if |fs| > 0 {
      DeleteFetchPartition(fs[..|fs| - 1], f, list);
    }
  }

  /** A feature whose column is null (no ID, or no "chromosome" attribute) is never listed:
      every delete filter keeps it and every fetch filter removes it. */
  lemma NullNeverListed(fs: seq<Feature>, f: Field, list: seq<string>, x: Feature)
    requires x in fs && FieldValue(x.data, f).None?
    ensures x in Kept(fs, Listed(f, list)) && x !in Kept(fs, Unlisted(f, list))
  {
    KeptMembers(fs, Listed(f, list));
    KeptMembers(fs, Unlisted(f, list));
  }

  /** The region loop's pairs, one removeIf each, add up to one filter that keeps the
      features every pair so far keeps. */
  lemma RegionStep(fs: seq<Feature>, bounds: seq<int>, k: nat, fetch: bool)
    requires 2 * k + 1 < |bounds|
    ensures Kept(Kept(fs, FailsSomePair(bounds, k, fetch)), PairCriterion(bounds, k, fetch))
      == Kept(fs, FailsSomePair(bounds, k + 1, fetch))
  {
    forall d | true
      ensures Removes(FailsSomePair(bounds, k + 1, fetch), d) <==>
        Removes(FailsSomePair(bounds, k, fetch), d) || Removes(PairCriterion(bounds, k, fetch), d)
    {
      if KeepsAll(d, bounds, k, fetch) && PairKeeps(d, bounds, k, fetch) {
        forall j: nat | j < k + 1 && 2 * j + 1 < |bounds|
          ensures PairKeeps(d, bounds, j, fetch)
        {
          if j < k {
            assert PairKeeps(d, bounds, j, fetch);
          }
        }
      }
    }
    KeptKept(fs, FailsSomePair(bounds, k, fetch), PairCriterion(bounds, k, fetch), FailsSomePair(bounds, k + 1, fetch));
  }

  /** With no pair read yet nothing is removed. */
  lemma {:induction false} NoPairKeepsAll(fs: seq<Feature>, bounds: seq<int>, fetch: bool)
    ensures Kept(fs, FailsSomePair(bounds, 0, fetch)) == fs
    decreases |fs|
  {
    if |fs| > 0 {
      NoPairKeepsAll(fs[..|fs| - 1], bounds, fetch);
    }
  }

  /** The features the attribute delete filter leaves are those no entry matches. */
  lemma DeleteAttributesKeeps(fs: seq<Feature>, filter: Assoc<string>, matches: (string, string) -> bool)
    ensures forall x :: x in Kept(fs, AnyMatch(filter, matches)) <==>
      x in fs && !AnyEntryMatches(x.data.attributes, filter, matches)
  {
    KeptMembers(fs, AnyMatch(filter, matches));
  }

  /** Some feature lacks some filter key: the attribute fetch filter reads a null value
      there. */
  predicate SomeKeyMissing(fs: seq<Feature>, filter: Assoc<string>) {
    exists i, j :: 0 <= i < |fs| && 0 <= j < |filter| && Get(fs[i].data.attributes, filter[j].0).None?
  }

  /** The fetch filter by attributes as it should read: the features it leaves are those
      every entry matches. */
  lemma FetchAttributesCorrectedKeeps(fs: seq<Feature>, filter: Assoc<string>, matches: (string, string) -> bool)
    ensures forall x :: x in Kept(fs, NotAllMatch(filter, matches)) <==>
      x in fs && forall j :: 0 <= j < |filter| ==> PatternMatches(x.data.attributes, filter[j], matches)
  {
    KeptMembers(fs, NotAllMatch(filter, matches));
  }

  /** A feature that has the filter key with a value the pattern does not match: the
      written FetchAttributes neither throws nor removes it, while the corrected filter
      removes it. */
  lemma FetchAttributesMismatch(x: Feature, k: string, v: string, pattern: string, matches: (string, string) -> bool)
    requires Get(x.data.attributes, k) == Some(v) && !matches(v, pattern)
    ensures !SomeKeyMissing([x], [(k, pattern)])
    ensures Kept([x], NotAllMatch([(k, pattern)], matches)) == []
  {
    assert !PatternMatches(x.data.attributes, [(k, pattern)][0], matches);
    assert [x][..0] == [];
  }

  /** The chromosome filters of the three classes part ways on a feature whose seqId is
      listed but which has no "chromosome" attribute: filterSE deletes it and keeps it when
      fetching, the filter_ex_sum and operations classes do the opposite. */
  lemma ChromosomeRevisionsDiffer(x: Feature, list: seq<string>)
    requires x.data.seqId in list && x.data.Chromosome().None?
    ensures Kept([x], Listed(SeqIdField, list)) == []
    ensures Kept([x], Listed(ChromosomeAttribute, list)) == [x]
    ensures Kept([x], Unlisted(SeqIdField, list)) == [x]
    ensures Kept([x], Unlisted(ChromosomeAttribute, list)) == []
  {
    KeptOne(x, Listed(SeqIdField, list));
    KeptOne(x, Listed(ChromosomeAttribute, list));
    KeptOne(x, Unlisted(SeqIdField, list));
    KeptOne(x, Unlisted(ChromosomeAttribute, list));
  }

  /** removeIf on a one-feature list. */
  lemma KeptOne(x: Feature, c: Criterion)
    ensures Kept([x], c) == if Removes(c, x.data) then [] else [x]
  {
    assert [x][..0] == [];
  }

  /** On features whose "chromosome" attribute repeats their seqId, the three classes'
      chromosome filters leave the same list. */
  lemma {:induction false} ChromosomeRevisionsAgree(fs: seq<Feature>, list: seq<string>)
    requires forall i :: 0 <= i < |fs| ==> fs[i].data.Chromosome() == Some(fs[i].data.seqId)
    ensures Kept(fs, Listed(SeqIdField, list)) == Kept(fs, Listed(ChromosomeAttribute, list))
    ensures Kept(fs, Unlisted(SeqIdField, list)) == Kept(fs, Unlisted(ChromosomeAttribute, list))
    decreases |fs|
  {
    if |fs| > 0 {
      ChromosomeRevisionsAgree(fs[..|fs| - 1], list);
    }
  }

  // ---------------------------------------------------------------- the list

  /** The caller's LinkedList<Feature>, which every operation changes in place. */
  class FeatureList {
    var items: seq<Feature>

    constructor (fs: seq<Feature>)
      ensures items == fs
    {
      items := fs;
    }

    /** LinkedList.removeIf: one pass that unlinks every feature the criterion holds of. */
    method RemoveIf(c: Criterion)
      modifies this
      ensures items == Kept(old(items), c)
    {
      var source := items;
      var kept := [];
      var i := 0;
      while i < |source|
        invariant 0 <= i <= |source|
        invariant kept == Kept(source[..i], c)
      {
        assert source[..i + 1][..i] == source[..i];
        if !Removes(c, source[i].data) {
          kept := kept + [source[i]];
        }
        i := i + 1;
      }
      assert source[..i] == source;
      items := kept;
    }

    /** deleteId, deleteType, deleteChromosome and deleteSource: remove the features whose
        column is in the list. */
    method DeleteListed(f: Field, list: seq<string>)
      modifies this
      ensures items == Kept(old(items), Listed(f, list))
    {
      RemoveIf(Listed(f, list));
    }

    /** fetchId, fetchType, fetchChromosome and fetchSource: remove the features whose
        column is not in the list. */
    method FetchListed(f: Field, list: seq<string>)
      modifies this
      ensures items == Kept(old(items), Unlisted(f, list))
    {
      RemoveIf(Unlisted(f, list));
    }

    /** deleteChromosome of filterSE (GFFFeatureFunctionsExtended) compares the seqId column; it removes the features whose value is listed. */
    method DeleteChromosomeSE(list: seq<string>)
      modifies this
      ensures items == Kept(old(items), Listed(SeqIdField, list))
    {
      DeleteListed(SeqIdField, list);
    }

    /** deleteChromosome of filter_ex_sum (GFFFeatureFunctionsEXS) compares the "chromosome"
        attribute, which may be missing; it removes the features whose value is listed. */
    method DeleteChromosomeExs(list: seq<string>)
      modifies this
      ensures items == Kept(old(items), Listed(ChromosomeAttribute, list))
    {
      DeleteListed(ChromosomeAttribute, list);
    }

    /** deleteChromosome of the operations GFFFeatureFunctions compares the "chromosome"
        attribute, which may be missing; it removes the features whose value is listed. */
    method DeleteChromosomeOps(list: seq<string>)
      modifies this
      ensures items == Kept(old(items), Listed(ChromosomeAttribute, list))
    {
      DeleteListed(ChromosomeAttribute, list);
    }

    /** fetchChromosome of filterSE (GFFFeatureFunctionsExtended) compares the seqId column; it removes the features whose value is not listed. */
    method FetchChromosomeSE(list: seq<string>)
      modifies this
      ensures items == Kept(old(items), Unlisted(SeqIdField, list))
    {
      FetchListed(SeqIdField, list);
    }

    /** fetchChromosome of filter_ex_sum (GFFFeatureFunctionsEXS) compares the "chromosome"
        attribute, which may be missing; it removes the features whose value is not listed. */
    method FetchChromosomeExs(list: seq<string>)
      modifies this
      ensures items == Kept(old(items), Unlisted(ChromosomeAttribute, list))
    {
      FetchListed(ChromosomeAttribute, list);
    }

    /** fetchChromosome of the operations GFFFeatureFunctions compares the "chromosome"
        attribute, which may be missing; it removes the features whose value is not listed. */
    method FetchChromosomeOps(list: seq<string>)
      modifies this
      ensures items == Kept(old(items), Unlisted(ChromosomeAttribute, list))
    {
      FetchListed(ChromosomeAttribute, list);
    }

    /** deleteRegion (fetch = false) and fetchRegion (fetch = true): one removeIf per pair
        of bounds, in order. On an odd-length list, list.get(i + 1) throws
        IndexOutOfBoundsException after the complete pairs have already filtered the list. */
    method RegionFilter(bounds: seq<int>, fetch: bool) returns (thrown: Option<Exception>)
      modifies this
      ensures thrown.None? <==> |bounds| % 2 == 0
      ensures thrown.Some? ==> thrown.value == IndexOutOfBounds
      ensures items == Kept(old(items), FailsSomePair(bounds, |bounds| / 2, fetch))
    {
      NoPairKeepsAll(items, bounds, fetch);
      var i, k := 0, 0;
      while i < |bounds|
        invariant i == 2 * k && i <= |bounds|
        invariant items == Kept(old(items), FailsSomePair(bounds, k, fetch))
      {
        if i + 1 >= |bounds| {
          return Some(IndexOutOfBounds);
        }
        RemoveIf(PairCriterion(bounds, k, fetch));
        RegionStep(old(items), bounds, k, fetch);
        i, k := i + 2, k + 1;
      }
      thrown := None;
    }

    /** deleteAttributes: walk the list with an iterator; for each feature look at every
        filter entry, mark it when the key is present and its value matches the pattern,
        and unlink a marked feature. */
    method DeleteAttributes(filter: Assoc<string>, matches: (string, string) -> bool)
      modifies this
      ensures items == Kept(old(items), AnyMatch(filter, matches))
    {
      var source := items;
      var kept := [];
      var i := 0;
      while i < |source|
        invariant 0 <= i <= |source|
        invariant kept == Kept(source[..i], AnyMatch(filter, matches))
      {
        var attrs := source[i].data.attributes;
        var shouldRemove := false;
        var j := 0;
        while j < |filter|
          invariant 0 <= j <= |filter|
          invariant shouldRemove <==> exists q :: 0 <= q < j && PatternMatches(attrs, filter[q], matches)
        {
          var value := Get(attrs, filter[j].0);
          if value.Some? && matches(value.value, filter[j].1) {
            shouldRemove := true;
          }
          j := j + 1;
        }
        assert source[..i + 1][..i] == source[..i];
        if !shouldRemove {
          kept := kept + [source[i]];
        }
        i := i + 1;
      }
      assert source[..i] == source;
      items := kept;
    }

    /** FetchAttributes as written: the removal test is `!containsKey(key) &&
        !get(key).matches(value)`. A present key makes it false, so nothing is ever
        removed; an absent key makes get return null and the call throws
        NullPointerException at the first feature, in list order, that lacks a filter key. */
    method FetchAttributes(filter: Assoc<string>) returns (thrown: Option<Exception>)
      ensures thrown.Some? <==> SomeKeyMissing(items, filter)
      ensures thrown.Some? ==> thrown.value == NullPointer
    {
      var i := 0;
      while i < |items|
        invariant 0 <= i <= |items|
        invariant !exists p, q :: 0 <= p < i && 0 <= q < |filter| && Get(items[p].data.attributes, filter[q].0).None?
      {
        var j := 0;
        while j < |filter|
          invariant 0 <= j <= |filter|
          invariant !exists q :: 0 <= q < j && Get(items[i].data.attributes, filter[q].0).None?
        {
          if Get(items[i].data.attributes, filter[j].0).None? {
            return Some(NullPointer);
          }
          j := j + 1;
        }
        i := i + 1;
      }
      thrown := None;
    }

    /** The attribute fetch filter with the test it evidently means, `!containsKey(key) ||
        !get(key).matches(value)`: remove a feature unless every entry matches it. */
    method FetchAttributesCorrected(filter: Assoc<string>, matches: (string, string) -> bool)
      modifies this
      ensures items == Kept(old(items), NotAllMatch(filter, matches))
    {
      RemoveIf(NotAllMatch(filter, matches));
    }
  }

  // ---------------------------------------------------------------- decideMethod

  /** decideMethod of the operations class: without `extended` it deletes or fetches by
      ID; with `extended` it only logs, whatever `delete` says. The `sequence` and
      `filter` arguments are not read. */
  method DecideMethod(features: FeatureList, delete: bool, listInput: seq<string>, extended: bool)
    modifies features
    ensures extended ==> features.items == old(features.items)
    ensures !extended && delete ==> features.items == Kept(old(features.items), Listed(IdField, listInput))
    ensures !extended && !delete ==> features.items == Kept(old(features.items), Unlisted(IdField, listInput))
  {
    if delete {
      if !extended {
        features.DeleteListed(IdField, listInput);
      }
    } else {
      if !extended {
        features.FetchListed(IdField, listInput);
      }
    }
  }
}
