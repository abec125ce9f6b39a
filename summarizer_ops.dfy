/** FileSummarizer of operations: one pass over the features fills the per-type counts
    (a HashMap), the gene count and length sum, the forward and reverse strand tallies and
    the list of region chromosomes; every other strand is only logged as a warning. Then
    averageLength and the GC loop run over the FASTA map. */
module SummarizerOps {
  import opened Wrappers
  import opened JavaText
  import opened Assoc
  import opened Features
  import opened Summaries
  import SummarizerSE

  /** The values this revision hands to the FeatureSummary constructor, in its order; the GC
      percentage is kept as its two integer operands. */
  datatype FeatureSummary = FeatureSummary(
    averageLength: int,
    gcCount: nat,
    totalLength: nat,
    countingFeatures: Assoc<int>,
    regions: seq<Option<string>>,
    countGenes: int,
    avgLengthGenes: int,
    forwardStrands: int,
    reverseStrands: int)

  /** getChromosome() of every "region" feature, in order: the "chromosome" attribute, or
      null where it is absent. */
  function RegionChromosomes(ds: seq<FeatureData>): (r: seq<Option<string>>)
    ensures |r| == multiset(Types(ds))["region"]
    decreases |ds|
  {
    if |ds| == 0 then []
    else
      var front := ds[..|ds| - 1];
      var d := ds[|ds| - 1];
      assert Types(ds) == Types(front) + [d.featureType];
      RegionChromosomes(front) + if d.featureType == "region" then [d.Chromosome()] else []
  }

  /** The strands that are neither "+" nor "-", in order: each one is logged as unknown. */
  function UnknownStrands(ds: seq<FeatureData>): (r: seq<string>)
    ensures StrandCount(ds, "+") + StrandCount(ds, "-") + |r| == |ds|
    decreases |ds|
  {
    if |ds| == 0 then []
    else
      var front := ds[..|ds| - 1];
      var d := ds[|ds| - 1];
      assert Strands(ds) == Strands(front) + [d.strand];
      UnknownStrands(front) + if d.strand != "+" && d.strand != "-" then [d.strand] else []
  }

  /** A strand is logged exactly when some feature carries it and it is neither "+" nor "-". */
  lemma {:induction false} UnknownStrandsMembers(ds: seq<FeatureData>)
    ensures forall x :: x in UnknownStrands(ds) <==> x != "+" && x != "-" && exists d :: d in ds && d.strand == x
    decreases |ds|
  {
    if |ds| > 0 {
      var front := ds[..|ds| - 1];
      UnknownStrandsMembers(front);
      assert ds == front + [ds[|ds| - 1]];
    }
  }

  /** summarizeFeatures: the summary of the features and sequences, or the
      ArithmeticException that averageLength throws on an empty sequence map. */
  function Summary(ds: seq<FeatureData>, seqs: Assoc<string>): (r: Result<FeatureSummary>)
    requires IntPositions(ds)
    ensures r.Failure? <==> |seqs| == 0
    ensures r.Failure? ==> r.error == Arithmetic
  {
    match MeanLength(seqs)
    case Failure(e) => Failure(e)
    case Success(avg) =>
      Success(FeatureSummary(
        avg, GcTotal(seqs), TotalLength(seqs),
        Tally(Types(ds)), RegionChromosomes(ds),
        GeneCount(ds), AverageGeneLength(ds),
        StrandCount(ds, "+"), StrandCount(ds, "-")))
  }

  /** The variables of the loop over the features, with the warnings it logs. */
  datatype Tallies = Tallies(
    countingFeatures: Assoc<int>,
    regions: seq<Option<string>>,
    countGenes: int,
    lengthGenes: int,
    forwardStrands: int,
    reverseStrands: int,
    warnings: seq<string>)

  /** One pass of the loop body. */
  function Advance(t: Tallies, d: FeatureData): Tallies
    requires IsInt32(d.start) && IsInt32(d.end)
  {
    Tallies(
      Put(t.countingFeatures, d.featureType, GetOr(t.countingFeatures, d.featureType, 0) + 1),
      t.regions + (if d.featureType == "region" then [d.Chromosome()] else []),
      t.countGenes + (if d.featureType == "gene" then 1 else 0),
      t.lengthGenes + (if d.featureType == "gene" then Int32Sub(d.end, d.start) else 0),
      t.forwardStrands + (if d.strand == "+" then 1 else 0),
      t.reverseStrands + (if d.strand == "-" then 1 else 0),
      t.warnings + (if d.strand != "+" && d.strand != "-" then [d.strand] else []))
  }

  /** The loop over a list of features. */
  function Scan(ds: seq<FeatureData>): Tallies
    requires IntPositions(ds)
    decreases |ds|
  {
    if |ds| == 0 then Tallies([], [], 0, 0, 0, 0, [])
    else Advance(Scan(ds[..|ds| - 1]), ds[|ds| - 1])
  }

  /** One more feature scanned, field by field: the step the loop body takes. */
  lemma ScanStep(ds: seq<FeatureData>, i: nat, t: Tallies, u: Tallies)
    requires i < |ds| && IntPositions(ds) && t == Scan(ds[..i])
    requires u.countingFeatures == Put(t.countingFeatures, ds[i].featureType, GetOr(t.countingFeatures, ds[i].featureType, 0) + 1)
    requires u.regions == t.regions + (if ds[i].featureType == "region" then [ds[i].Chromosome()] else [])
    requires u.countGenes == t.countGenes + (if ds[i].featureType == "gene" then 1 else 0)
    requires u.lengthGenes == t.lengthGenes + (if ds[i].featureType == "gene" then Int32Sub(ds[i].end, ds[i].start) else 0)
    requires u.forwardStrands == t.forwardStrands + (if ds[i].strand == "+" then 1 else 0)
    requires u.reverseStrands == t.reverseStrands + (if ds[i].strand == "-" then 1 else 0)
    requires u.warnings == t.warnings + (if ds[i].strand != "+" && ds[i].strand != "-" then [ds[i].strand] else [])
    ensures u == Scan(ds[..i + 1])
  {
    assert ds[..i + 1][..i] == ds[..i];
  }

  /** The loop's map is the tally of the type column. */
  lemma {:induction false} ScanCounts(ds: seq<FeatureData>)
    requires IntPositions(ds)
    ensures Scan(ds).countingFeatures == Tally(Types(ds))
    decreases |ds|
  {
    if |ds| > 0 {
      var n := |ds| - 1;
      ScanCounts(ds[..n]);
      ColumnsSnoc(ds, n);
      assert ds[..n + 1] == ds;
      TallySnoc(Types(ds[..n]), ds[n].featureType);
    }
  }

  /** The loop's region list and warnings. */
  lemma {:induction false} ScanLists(ds: seq<FeatureData>)
    requires IntPositions(ds)
    ensures Scan(ds).regions == RegionChromosomes(ds)
    ensures Scan(ds).warnings == UnknownStrands(ds)
    decreases |ds|
  {
    if |ds| > 0 {
      var n := |ds| - 1;
      ScanLists(ds[..n]);
      assert ds[..n + 1] == ds;
    }
  }

  /** The loop's gene count and gene length sum. */
  lemma {:induction false} ScanGenes(ds: seq<FeatureData>)
    requires IntPositions(ds)
    ensures Scan(ds).countGenes == GeneCount(ds) && Scan(ds).lengthGenes == GeneLengthSum(ds)
    decreases |ds|
  {
    if |ds| > 0 {
      var n := |ds| - 1;
      ScanGenes(ds[..n]);
      ColumnsSnoc(ds, n);
      assert ds[..n + 1] == ds;
    }
  }

  /** The loop's forward and reverse strand tallies. */
  lemma {:induction false} ScanStrands(ds: seq<FeatureData>)
    requires IntPositions(ds)
    ensures Scan(ds).forwardStrands == StrandCount(ds, "+")
    ensures Scan(ds).reverseStrands == StrandCount(ds, "-")
    decreases |ds|
  {
    if |ds| > 0 {
      var n := |ds| - 1;
      ScanStrands(ds[..n]);
      ColumnsSnoc(ds, n);
      assert ds[..n + 1] == ds;
    }
  }

  /** What the loop computes: each quantity the summary reports, and the warnings. */
  lemma ScanMeaning(ds: seq<FeatureData>)
    requires IntPositions(ds)
    ensures Scan(ds) == Tallies(Tally(Types(ds)), RegionChromosomes(ds), GeneCount(ds), GeneLengthSum(ds),
                                StrandCount(ds, "+"), StrandCount(ds, "-"), UnknownStrands(ds))
  {
    ScanCounts(ds);
    ScanLists(ds);
    ScanGenes(ds);
    ScanStrands(ds);
  }

  /** summarizeFeatures, with the strands it logs as unknown, one per warning. */
  method SummarizeFeatures(features: seq<Feature>, sequence: Assoc<string>)
    returns (r: Result<FeatureSummary>, warnings: seq<string>)
    requires IntPositions(Datas(features))
    ensures r == Summary(Datas(features), sequence)
    ensures warnings == UnknownStrands(Datas(features))
  {
    ghost var ds := Datas(features);
    var countingFeatures: Assoc<int> := [];
    var regions: seq<Option<string>> := [];
    var countGenes := 0;
    var lengthGenes := 0;
    var forwardStrands := 0;
    var reverseStrands := 0;
    warnings := [];
    for i := 0 to |features|
      invariant Tallies(countingFeatures, regions, countGenes, lengthGenes,
                        forwardStrands, reverseStrands, warnings) == Scan(ds[..i])
    {
      var feature := features[i].data;
      ghost var before := Tallies(countingFeatures, regions, countGenes, lengthGenes,
                                  forwardStrands, reverseStrands, warnings);
      countingFeatures := Increment(countingFeatures, feature.featureType);
      if feature.featureType == "gene" {
        countGenes := countGenes + 1;
        lengthGenes := lengthGenes + Int32Sub(feature.end, feature.start);
      }
      var strand := feature.strand;
      if strand == "+" {
        forwardStrands := forwardStrands + 1;
      } else if strand == "-" {
        reverseStrands := reverseStrands + 1;
      } else {
        warnings := warnings + [strand];
      }
      if feature.featureType == "region" {
        regions := regions + [feature.Chromosome()];
      }
      ScanStep(ds, i, before, Tallies(countingFeatures, regions, countGenes, lengthGenes,
                                      forwardStrands, reverseStrands, warnings));
    }
    assert ds[..|features|] == ds;
    ScanMeaning(ds);
    var avgLengthGenes := if countGenes > 0 then JavaDiv(lengthGenes, countGenes) else 0;
    var averageLength := AverageLength(sequence);
    if averageLength.Failure? {
      return Failure(averageLength.error), warnings;
    }
    var gcCount, totalLength := GcCounts(sequence);
    r := Success(FeatureSummary(
      averageLength.value, gcCount, totalLength, countingFeatures, regions,
      countGenes, avgLengthGenes, forwardStrands, reverseStrands));
  }

  // ---------------------------------------------------------------- properties

  /** Each type is counted as often as it occurs, a type that does not occur has no entry,
      the keys come in first-occurrence order, and the counts add up to the number of
      features. */
  lemma SummaryCounts(ds: seq<FeatureData>, seqs: Assoc<string>, k: string)
    requires IntPositions(ds) && Summary(ds, seqs).Success?
    ensures Get(Summary(ds, seqs).value.countingFeatures, k) ==
      if k in Types(ds) then Some(multiset(Types(ds))[k]) else None
    ensures Keys(Summary(ds, seqs).value.countingFeatures) == FirstOccurrences(Types(ds))
    ensures SumValues(Summary(ds, seqs).value.countingFeatures) == |ds|
  {
    TallyCounts(Types(ds), k);
    TallyKeys(Types(ds));
    TallySum(Types(ds));
  }

  /** The gene count and the number of regions agree with the per-type counts, and every
      feature is counted forward, counted reverse or logged, exactly one of the three. */
  lemma SummaryConsistent(ds: seq<FeatureData>, seqs: Assoc<string>, warnings: seq<string>)
    requires IntPositions(ds) && Summary(ds, seqs).Success? && warnings == UnknownStrands(ds)
    ensures Summary(ds, seqs).value.countGenes == GetOr(Summary(ds, seqs).value.countingFeatures, "gene", 0)
    ensures |Summary(ds, seqs).value.regions| == GetOr(Summary(ds, seqs).value.countingFeatures, "region", 0)
    ensures Summary(ds, seqs).value.forwardStrands + Summary(ds, seqs).value.reverseStrands + |warnings| == |ds|
  {
    GenesAreTypeCount(ds);
    TallyCounts(Types(ds), "region");
  }

  /** Where every region feature names its own seqId as its "chromosome" attribute, the
      region lists of the two revisions agree entry by entry. */
  lemma {:induction false} RegionsAgree(ds: seq<FeatureData>)
    requires forall d :: d in ds && d.featureType == "region" ==> d.Chromosome() == Some(d.seqId)
    ensures |RegionChromosomes(ds)| == |SummarizerSE.RegionSeqIds(ds)|
    ensures forall i :: 0 <= i < |RegionChromosomes(ds)| ==>
      RegionChromosomes(ds)[i] == Some(SummarizerSE.RegionSeqIds(ds)[i])
    decreases |ds|
  {
    if |ds| > 0 {
      var front := ds[..|ds| - 1];
      RegionsAgree(front);
    }
  }

  /** The operations summary and the filterSE summary of the same input agree on every
      quantity both report: they fail together, and on success they carry the same average
      length, GC operands, type counts, gene statistics and strand tallies. */
  lemma RevisionsAgree(ds: seq<FeatureData>, seqs: Assoc<string>)
    requires IntPositions(ds)
    ensures Summary(ds, seqs).Failure? <==> SummarizerSE.Summary(ds, seqs).Failure?
    ensures Summary(ds, seqs).Success? ==>
      var o := Summary(ds, seqs).value;
      var s := SummarizerSE.Summary(ds, seqs).value;
      o.averageLength == s.averageLength && o.gcCount == s.gcCount && o.totalLength == s.totalLength
      && o.countingFeatures == s.countingFeatures && o.countGenes == s.countGenes
      && o.avgLengthGenes == s.avgLengthGenes
      && o.forwardStrands == s.forwardStrands && o.reverseStrands == s.reverseStrands
      && |o.regions| == |s.regions|
  {
  }
}
