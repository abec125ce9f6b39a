/** FileSummarizer of operation/filterSE: one pass over the features fills the per-type and
    per-source counts (LinkedHashMaps), the gene count and length sum, the three strand
    tallies and the list of region seqIds; then averageLength and the GC loop run over the
    FASTA map. The unknown-strand tally only goes to the log. */
module SummarizerSE {
  import opened Wrappers
  import opened JavaText
  import opened Assoc
  import opened Features
  import opened Summaries

  /** The FeatureSummary record this revision builds; the GC percentage is kept as its two
      integer operands. */
  datatype FeatureSummary = FeatureSummary(
    averageLength: int,
    gcCount: nat,
    totalLength: nat,
    countingFeatures: Assoc<int>,
    countingSources: Assoc<int>,
    regions: seq<string>,
    countGenes: int,
    avgLengthGenes: int,
    forwardStrands: int,
    reverseStrands: int)

  /** The seqId of every "region" feature, in order, duplicates kept. */
  function RegionSeqIds(ds: seq<FeatureData>): (r: seq<string>)
    ensures |r| == multiset(Types(ds))["region"]
    decreases |ds|
  {
    if |ds| == 0 then []
    else
      var front := ds[..|ds| - 1];
      var d := ds[|ds| - 1];
      assert Types(ds) == Types(front) + [d.featureType];
      RegionSeqIds(front) + if d.featureType == "region" then [d.seqId] else []
  }

  /** The region list holds exactly the seqIds of the "region" features. */
  lemma {:induction false} RegionSeqIdsMembers(ds: seq<FeatureData>)
    ensures forall x :: x in RegionSeqIds(ds) <==> exists d :: d in ds && d.featureType == "region" && d.seqId == x
    decreases |ds|
  {
    if |ds| > 0 {
      var front := ds[..|ds| - 1];
      RegionSeqIdsMembers(front);
      assert ds == front + [ds[|ds| - 1]];
    }
  }

  /** summarizeFeatures: the summary of the features and sequences, or the
      ArithmeticException that averageLength throws on an empty sequence map. */
  function Summary(ds: seq<FeatureData>, seqs: Assoc<string>): (r: Result<FeatureSummary>)
    requires IntPositions(ds)
    ensures r.Failure? <==> |seqs| == 0
    ensures r.Failure? ==> r.error == Arithmetic
  {
    match MeanLength(seqs)
    case Failure(e) => Failure(e)
    case Success(avg) =>
      Success(FeatureSummary(
        avg, GcTotal(seqs), TotalLength(seqs),
        Tally(Types(ds)), Tally(Sources(ds)), RegionSeqIds(ds),
        GeneCount(ds), AverageGeneLength(ds),
        StrandCount(ds, "+"), StrandCount(ds, "-")))
  }

  /** The variables of the loop over the features. */
  datatype Tallies = Tallies(
    countingFeatures: Assoc<int>,
    countingSources: Assoc<int>,
    regions: seq<string>,
    countGenes: int,
    lengthGenes: int,
    forwardStrands: int,
    reverseStrands: int,
    unknownStrands: int)

  /** One pass of the loop body. */
  function Advance(t: Tallies, d: FeatureData): Tallies
    requires IsInt32(d.start) && IsInt32(d.end)
  {
    Tallies(
      Put(t.countingFeatures, d.featureType, GetOr(t.countingFeatures, d.featureType, 0) + 1),
      Put(t.countingSources, d.source, GetOr(t.countingSources, d.source, 0) + 1),
      t.regions + (if d.featureType == "region" then [d.seqId] else []),
      t.countGenes + (if d.featureType == "gene" then 1 else 0),
      t.lengthGenes + (if d.featureType == "gene" then Int32Sub(d.end, d.start) else 0),
      t.forwardStrands + (if d.strand == "+" then 1 else 0),
      t.reverseStrands + (if d.strand == "-" then 1 else 0),
      t.unknownStrands + (if d.strand == "." then 1 else 0))
  }

  /** The loop over a list of features. */
  function Scan(ds: seq<FeatureData>): Tallies
    requires IntPositions(ds)
    decreases |ds|
  {
    if |ds| == 0 then Tallies([], [], [], 0, 0, 0, 0, 0)
    else Advance(Scan(ds[..|ds| - 1]), ds[|ds| - 1])
  }

  /** The loop's first map is the tally of the type column. */
  lemma {:induction false} ScanTypes(ds: seq<FeatureData>)
    requires IntPositions(ds)
    ensures Scan(ds).countingFeatures == Tally(Types(ds))
    decreases |ds|
  {
    if |ds| > 0 {
      var n := |ds| - 1;
      ScanTypes(ds[..n]);
      ColumnsSnoc(ds, n);
      assert ds[..n + 1] == ds;
      TallySnoc(Types(ds[..n]), ds[n].featureType);
    }
  }

  /** The loop's second map is the tally of the source column. */
  lemma {:induction false} ScanSources(ds: seq<FeatureData>)
    requires IntPositions(ds)
    ensures Scan(ds).countingSources == Tally(Sources(ds))
    decreases |ds|
  {
    if |ds| > 0 {
      var n := |ds| - 1;
      ScanSources(ds[..n]);
      ColumnsSnoc(ds, n);
      assert ds[..n + 1] == ds;
      TallySnoc(Sources(ds[..n]), ds[n].source);
    }
  }

  /** The loop's region list. */
  lemma {:induction false} ScanRegions(ds: seq<FeatureData>)
    requires IntPositions(ds)
    ensures Scan(ds).regions == RegionSeqIds(ds)
    decreases |ds|
  {
    if |ds| > 0 {
      var n := |ds| - 1;
      ScanRegions(ds[..n]);
      assert ds[..n + 1] == ds;
    }
  }

  /** The loop's gene count and gene length sum. */
  lemma {:induction false} ScanGenes(ds: seq<FeatureData>)
    requires IntPositions(ds)
    ensures Scan(ds).countGenes == GeneCount(ds) && Scan(ds).lengthGenes == GeneLengthSum(ds)
    decreases |ds|
  {
    if |ds| > 0 {
      var n := |ds| - 1;
      ScanGenes(ds[..n]);
      ColumnsSnoc(ds, n);
      assert ds[..n + 1] == ds;
    }
  }

  /** The loop's three strand tallies. */
  lemma {:induction false} ScanStrands(ds: seq<FeatureData>)
    requires IntPositions(ds)
    ensures Scan(ds).forwardStrands == StrandCount(ds, "+")
    ensures Scan(ds).reverseStrands == StrandCount(ds, "-")
    ensures Scan(ds).unknownStrands == StrandCount(ds, ".")
    decreases |ds|
  {
    if |ds| > 0 {
      var n := |ds| - 1;
      ScanStrands(ds[..n]);
      ColumnsSnoc(ds, n);
      assert ds[..n + 1] == ds;
    }
  }

  /** One more feature scanned, field by field: the step the loop body takes. */
  lemma ScanStep(ds: seq<FeatureData>, i: nat, t: Tallies, u: Tallies)
    requires i < |ds| && IntPositions(ds) && t == Scan(ds[..i])
    requires u.countingFeatures == Put(t.countingFeatures, ds[i].featureType, GetOr(t.countingFeatures, ds[i].featureType, 0) + 1)
    requires u.countingSources == Put(t.countingSources, ds[i].source, GetOr(t.countingSources, ds[i].source, 0) + 1)
    requires u.regions == t.regions + (if ds[i].featureType == "region" then [ds[i].seqId] else [])
    requires u.countGenes == t.countGenes + (if ds[i].featureType == "gene" then 1 else 0)
    requires u.lengthGenes == t.lengthGenes + (if ds[i].featureType == "gene" then Int32Sub(ds[i].end, ds[i].start) else 0)
    requires u.forwardStrands == t.forwardStrands + (if ds[i].strand == "+" then 1 else 0)
    requires u.reverseStrands == t.reverseStrands + (if ds[i].strand == "-" then 1 else 0)
    requires u.unknownStrands == t.unknownStrands + (if ds[i].strand == "." then 1 else 0)
    ensures u == Scan(ds[..i + 1])
  {
    assert ds[..i + 1][..i] == ds[..i];
  }

  /** What the loop computes: each quantity the summary reports. */
  lemma ScanMeaning(ds: seq<FeatureData>)
    requires IntPositions(ds)
    ensures Scan(ds) == Tallies(Tally(Types(ds)), Tally(Sources(ds)), RegionSeqIds(ds), GeneCount(ds),
                                GeneLengthSum(ds), StrandCount(ds, "+"), StrandCount(ds, "-"), StrandCount(ds, "."))
  {
    ScanTypes(ds);
    ScanSources(ds);
    ScanRegions(ds);
    ScanGenes(ds);
    ScanStrands(ds);
  }

  method SummarizeFeatures(features: seq<Feature>, sequence: Assoc<string>)
    returns (r: Result<FeatureSummary>, unknownStrands: int)
    requires IntPositions(Datas(features))
    ensures r == Summary(Datas(features), sequence)
    ensures unknownStrands == StrandCount(Datas(features), ".")
  {
    ghost var ds := Datas(features);
    var countingFeatures: Assoc<int> := [];
    var countingSources: Assoc<int> := [];
    var regions: seq<string> := [];
    var countGenes := 0;
    var lengthGenes := 0;
    var forwardStrands := 0;
    var reverseStrands := 0;
    unknownStrands := 0;
    for i := 0 to |features|
      invariant Tallies(countingFeatures, countingSources, regions, countGenes, lengthGenes,
                        forwardStrands, reverseStrands, unknownStrands) == Scan(ds[..i])
    {
      var feature := features[i].data;
      ghost var before := Tallies(countingFeatures, countingSources, regions, countGenes, lengthGenes,
                        forwardStrands, reverseStrands, unknownStrands);
      countingFeatures := Increment(countingFeatures, feature.featureType);
      countingSources := Increment(countingSources, feature.source);
      if feature.featureType == "gene" {
        countGenes := countGenes + 1;
        lengthGenes := lengthGenes + Int32Sub(feature.end, feature.start);
      }
      if feature.strand == "+" {
        forwardStrands := forwardStrands + 1;
      } else if feature.strand == "-" {
        reverseStrands := reverseStrands + 1;
      } else if feature.strand == "." {
        unknownStrands := unknownStrands + 1;
      }
      if feature.featureType == "region" {
        regions := regions + [feature.seqId];
      }
      ScanStep(ds, i, before, Tallies(countingFeatures, countingSources, regions, countGenes, lengthGenes,
                        forwardStrands, reverseStrands, unknownStrands));
    }
    assert ds[..|features|] == ds;
    ScanMeaning(ds);
    var avgLengthGenes := if countGenes > 0 then JavaDiv(lengthGenes, countGenes) else 0;
    var averageLength := AverageLength(sequence);
    if averageLength.Failure? {
      return Failure(averageLength.error), unknownStrands;
    }
    var gcCount, totalLength := GcCounts(sequence);
    r := Success(FeatureSummary(
      averageLength.value, gcCount, totalLength, countingFeatures, countingSources, regions,
      countGenes, avgLengthGenes, forwardStrands, reverseStrands));
  }

  // ---------------------------------------------------------------- properties

  /** Each type and each source is counted as often as it occurs, a value that does not
      occur has no entry, the keys come in first-occurrence order, and each map's counts
      add up to the number of features. */
  lemma SummaryCounts(ds: seq<FeatureData>, seqs: Assoc<string>, k: string)
    requires IntPositions(ds) && Summary(ds, seqs).Success?
    ensures Get(Summary(ds, seqs).value.countingFeatures, k) ==
      if k in Types(ds) then Some(multiset(Types(ds))[k]) else None
    ensures Get(Summary(ds, seqs).value.countingSources, k) ==
      if k in Sources(ds) then Some(multiset(Sources(ds))[k]) else None
    ensures Keys(Summary(ds, seqs).value.countingFeatures) == FirstOccurrences(Types(ds))
    ensures Keys(Summary(ds, seqs).value.countingSources) == FirstOccurrences(Sources(ds))
    ensures SumValues(Summary(ds, seqs).value.countingFeatures) == |ds|
    ensures SumValues(Summary(ds, seqs).value.countingSources) == |ds|
  {
    TallyCounts(Types(ds), k);
    TallyCounts(Sources(ds), k);
    TallyKeys(Types(ds));
    TallyKeys(Sources(ds));
    TallySum(Types(ds));
    TallySum(Sources(ds));
  }

  /** The gene count and the number of regions agree with the per-type counts, and the
      forward, reverse and unknown strand tallies together count each feature at most
      once, exactly once when every strand is "+", "-" or ".". */
  lemma SummaryConsistent(ds: seq<FeatureData>, seqs: Assoc<string>, unknown: int)
    requires IntPositions(ds) && Summary(ds, seqs).Success? && unknown == StrandCount(ds, ".")
    ensures Summary(ds, seqs).value.countGenes == GetOr(Summary(ds, seqs).value.countingFeatures, "gene", 0)
    ensures |Summary(ds, seqs).value.regions| == GetOr(Summary(ds, seqs).value.countingFeatures, "region", 0)
    ensures Summary(ds, seqs).value.forwardStrands + Summary(ds, seqs).value.reverseStrands + unknown <= |ds|
    ensures (forall i :: 0 <= i < |ds| ==> ds[i].strand in {"+", "-", "."}) ==>
      Summary(ds, seqs).value.forwardStrands + Summary(ds, seqs).value.reverseStrands + unknown == |ds|
  {
    GenesAreTypeCount(ds);
    TallyCounts(Types(ds), "region");
    ThreeCounts(Strands(ds), "+", "-", ".");
  }
}
