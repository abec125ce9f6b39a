/** The statistics both revisions of FileSummarizer compute: per-key counts kept in a map
    in first-occurrence order, the gene count and average gene length, strand tallies,
    averageLength over the FASTA sequences, and the numerator and denominator of
    gettingGcPercentage. */
module Summaries {
  import opened Wrappers
  import opened JavaText
  import opened Assoc
  import opened Features
  import FastaFiles

  // ---------------------------------------------------------------- columns of a feature list

  function Datas(fs: seq<Feature>): (ds: seq<FeatureData>)
    ensures |ds| == |fs| && forall i :: 0 <= i < |fs| ==> ds[i] == fs[i].data
    decreases |fs|
  {
    if |fs| == 0 then [] else Datas(fs[..|fs| - 1]) + [fs[|fs| - 1].data]
  }

  function Types(ds: seq<FeatureData>): (ts: seq<string>)
    ensures |ts| == |ds|
  {
    seq(|ds|, i requires 0 <= i < |ds| => ds[i].featureType)
  }

  function Sources(ds: seq<FeatureData>): (ss: seq<string>)
    ensures |ss| == |ds|
  {
    seq(|ds|, i requires 0 <= i < |ds| => ds[i].source)
  }

  function Strands(ds: seq<FeatureData>): (ss: seq<string>)
    ensures |ss| == |ds|
  {
    seq(|ds|, i requires 0 <= i < |ds| => ds[i].strand)
  }

  /** Each column of a prefix one feature longer is the shorter prefix's column followed by
      that feature's value. */
  lemma ColumnsSnoc(ds: seq<FeatureData>, i: nat)
    requires i < |ds|
    ensures Types(ds[..i + 1]) == Types(ds[..i]) + [ds[i].featureType]
    ensures Sources(ds[..i + 1]) == Sources(ds[..i]) + [ds[i].source]
    ensures Strands(ds[..i + 1]) == Strands(ds[..i]) + [ds[i].strand]
  {
  }

  // ---------------------------------------------------------------- counting per key

  /** map.put(k, map.getOrDefault(k, 0) + 1) for each key in order. */
  function Tally(keys: seq<string>): Assoc<int>
    decreases |keys|
  {
    if |keys| == 0 then []
    else
      var m := Tally(keys[..|keys| - 1]);
      var k := keys[|keys| - 1];
      Put(m, k, GetOr(m, k, 0) + 1)
  }

  /** map.put(key, map.getOrDefault(key, 0) + 1); what the new map holds is IncrementEffect. */
  method Increment(m: Assoc<int>, key: string) returns (m': Assoc<int>)
    ensures m' == Put(m, key, GetOr(m, key, 0) + 1)
  {
    m' := Put(m, key, GetOr(m, key, 0) + 1);
  }

  /** The increment's effect: the key's count goes up by one (from 0 when it was absent, the
      key then joining the end of the key order), and every other key keeps its count and place. */
  lemma IncrementEffect(m: Assoc<int>, key: string)
    ensures var m' := Put(m, key, GetOr(m, key, 0) + 1);
      Get(m', key) == Some(GetOr(m, key, 0) + 1)
    ensures var m' := Put(m, key, GetOr(m, key, 0) + 1);
      forall k :: k != key ==> Get(m', k) == Get(m, k)
    ensures var m' := Put(m, key, GetOr(m, key, 0) + 1);
      Keys(m') == if key in Keys(m) then Keys(m) else Keys(m) + [key]
  {
    var m' := Put(m, key, GetOr(m, key, 0) + 1);
    PutGet(m, key, GetOr(m, key, 0) + 1, key);
    forall k | k != key
      ensures Get(m', k) == Get(m, k)
    {
      PutGet(m, key, GetOr(m, key, 0) + 1, k);
    }
    PutKeys(m, key, GetOr(m, key, 0) + 1);
  }

  lemma TallySnoc(keys: seq<string>, k: string)
    ensures Tally(keys + [k]) == Put(Tally(keys), k, GetOr(Tally(keys), k, 0) + 1)
  {
    assert (keys + [k])[..|keys|] == keys;
  }

  /** A key's count is the number of times it occurs; a key that never occurs is absent. */
  lemma {:induction false} TallyCounts(keys: seq<string>, k: string)
    ensures Get(Tally(keys), k) == if k in keys then Some(multiset(keys)[k]) else None
    decreases |keys|
  {
    if |keys| > 0 {
      var front := keys[..|keys| - 1];
      var last := keys[|keys| - 1];
      assert keys == front + [last];
      assert multiset(keys)[k] == multiset(front)[k] + if k == last then 1 else 0;
      assert k in keys <==> k in front || k == last;
      var m := Tally(front);
      var v := GetOr(m, last, 0) + 1;
      assert Tally(keys) == Put(m, last, v);
      TallyCounts(front, k);
      TallyCounts(front, last);
      PutGet(m, last, v, k);
      if k == last {
        assert v == multiset(front)[last] + 1;
      }
    }
  }

  /** The distinct keys in order of first occurrence. */
  function FirstOccurrences(keys: seq<string>): (r: seq<string>)
    ensures forall x :: x in r <==> x in keys
    ensures forall i, j :: 0 <= i < j < |r| ==> r[i] != r[j]
    decreases |keys|
  {
    if |keys| == 0 then []
    else
      var front := FirstOccurrences(keys[..|keys| - 1]);
      var last := keys[|keys| - 1];
      assert keys == keys[..|keys| - 1] + [last];
      if last in keys[..|keys| - 1] then front else front + [last]
  }

  /** The map's keys come in the order in which they first occur. */
  lemma {:induction false} TallyKeys(keys: seq<string>)
    ensures Keys(Tally(keys)) == FirstOccurrences(keys)
    decreases |keys|
  {
    if |keys| > 0 {
      var front := keys[..|keys| - 1];
      var last := keys[|keys| - 1];
      var m := Tally(front);
      assert Keys(m) == FirstOccurrences(front) by { TallyKeys(front); }
      assert Keys(Tally(keys)) == if last in Keys(m) then Keys(m) else Keys(m) + [last] by {
        IncrementEffect(m, last);
      }
    }
  }

  function SumValues(m: Assoc<int>): int
    decreases |m|
  {
    if |m| == 0 then 0 else m[0].1 + SumValues(m[1..])
  }

  lemma {:induction false} SumPut(m: Assoc<int>, k: string, v: int)
    ensures SumValues(Put(m, k, v)) == SumValues(m) - GetOr(m, k, 0) + v
    decreases |m|
  {
    if |m| > 0 && m[0].0 != k {
      assert Put(m, k, v)[1..] == Put(m[1..], k, v);
      SumPut(m[1..], k, v);
    } else if |m| > 0 {
      assert Put(m, k, v)[1..] == m[1..];
    }
  }

  /** The counts add up to the number of keys counted. */
  lemma {:induction false} TallySum(keys: seq<string>)
    ensures SumValues(Tally(keys)) == |keys|
    decreases |keys|
  {
    if |keys| > 0 {
      var front := keys[..|keys| - 1];
      var last := keys[|keys| - 1];
      TallySum(front);
      SumPut(Tally(front), last, GetOr(Tally(front), last, 0) + 1);
    }
  }

  // ---------------------------------------------------------------- genes

  /** The start and end of every feature are Java ints. */
  predicate IntPositions(ds: seq<FeatureData>) {
    forall i :: 0 <= i < |ds| ==> IsInt32(ds[i].start) && IsInt32(ds[i].end)
  }

  /** The length a gene contributes: the int difference end - start, widened to long. */
  function GeneLength(d: FeatureData): int
    requires IsInt32(d.start) && IsInt32(d.end)
  {
    Int32Sub(d.end, d.start)
  }

  function GeneCount(ds: seq<FeatureData>): nat {
    multiset(Types(ds))["gene"]
  }

  /** lengthGenes: the lengths of the "gene" features added up. */
  function GeneLengthSum(ds: seq<FeatureData>): int
    requires IntPositions(ds)
    decreases |ds|
  {
    if |ds| == 0 then 0
    else
      var d := ds[|ds| - 1];
      GeneLengthSum(ds[..|ds| - 1]) + if d.featureType == "gene" then GeneLength(d) else 0
  }

  /** avgLengthGenes: the long quotient, truncated toward zero, or 0 without genes. */
  function AverageGeneLength(ds: seq<FeatureData>): int
    requires IntPositions(ds)
  {
    if GeneCount(ds) > 0 then JavaDiv(GeneLengthSum(ds), GeneCount(ds)) else 0
  }

  lemma {:induction false} GeneSumBounds(ds: seq<FeatureData>, lo: int, hi: int)
    requires IntPositions(ds)
    requires forall i :: 0 <= i < |ds| && ds[i].featureType == "gene" ==> lo <= GeneLength(ds[i]) <= hi
    ensures lo * GeneCount(ds) <= GeneLengthSum(ds) <= hi * GeneCount(ds)
    decreases |ds|
  {
    if |ds| > 0 {
      var front := ds[..|ds| - 1];
      var d := ds[|ds| - 1];
      GeneSumBounds(front, lo, hi);
      assert Types(ds) == Types(front) + [d.featureType];
      var n := GeneCount(front);
      if d.featureType == "gene" {
        assert GeneCount(ds) == n + 1;
        MulSucc(lo, n);
        MulSucc(hi, n);
      } else {
        assert GeneCount(ds) == n;
      }
    }
  }

  lemma QuotientBounds(a: int, c: int, lo: int, hi: int)
    requires c > 0 && 0 <= lo && lo * c <= a <= hi * c
    ensures lo <= a / c <= hi
  {
    var q, r := a / c, a % c;
    assert (q - lo + 1) * c == a - r + c - lo * c;
    PositiveFactor(q - lo + 1, c);
    assert (hi - q) * c == hi * c - a + r;
    NonNegativeFactor(hi - q, c);
  }

  lemma MulSucc(x: int, n: int)
    ensures x * (n + 1) == x * n + x
  {
  }

  lemma PositiveFactor(x: int, c: int)
    requires c > 0 && x * c > 0
    ensures x > 0
  {
  }

  lemma NonNegativeFactor(x: int, c: int)
    requires c > 0 && x * c >= 0
    ensures x >= 0
  {
  }

  /** When every gene's length lies in [lo, hi] (lo not negative) and there are genes,
      avgLengthGenes lies in [lo, hi]; without genes it is 0. */
  lemma GeneAverageBounds(ds: seq<FeatureData>, lo: int, hi: int)
    requires IntPositions(ds) && 0 <= lo
    requires forall i :: 0 <= i < |ds| && ds[i].featureType == "gene" ==> lo <= GeneLength(ds[i]) <= hi
    ensures GeneCount(ds) == 0 ==> AverageGeneLength(ds) == 0
    ensures GeneCount(ds) > 0 ==> lo <= AverageGeneLength(ds) <= hi
  {
    if GeneCount(ds) > 0 {
      GeneSumBounds(ds, lo, hi);
      QuotientBounds(GeneLengthSum(ds), GeneCount(ds), lo, hi);
    }
  }

  /** The gene count is the "gene" entry of the per-type counts. */
  lemma GenesAreTypeCount(ds: seq<FeatureData>)
    ensures GeneCount(ds) == GetOr(Tally(Types(ds)), "gene", 0)
  {
    TallyCounts(Types(ds), "gene");
  }

  // ---------------------------------------------------------------- strands

  function StrandCount(ds: seq<FeatureData>, strand: string): nat {
    multiset(Strands(ds))[strand]
  }

  /** Three distinct values are counted at most once per position, and exactly once when
      every position holds one of them. */
  lemma {:induction false} ThreeCounts(s: seq<string>, a: string, b: string, c: string)
    requires a != b && b != c && a != c
    ensures multiset(s)[a] + multiset(s)[b] + multiset(s)[c] <= |s|
    ensures (forall i :: 0 <= i < |s| ==> s[i] == a || s[i] == b || s[i] == c) ==>
      multiset(s)[a] + multiset(s)[b] + multiset(s)[c] == |s|
    decreases |s|
  {
    if |s| > 0 {
      var front := s[..|s| - 1];
      assert s == front + [s[|s| - 1]];
      ThreeCounts(front, a, b, c);
    }
  }

  // ---------------------------------------------------------------- sequences

  /** The lengths of the sequences added up. */
  function TotalLength(seqs: Assoc<string>): nat
    decreases |seqs|
  {
    if |seqs| == 0 then 0 else TotalLength(seqs[..|seqs| - 1]) + |seqs[|seqs| - 1].1|
  }

  /** averageLength: the long quotient of the total length by the number of sequences; an
      empty map divides by zero. */
  function MeanLength(seqs: Assoc<string>): (r: Result<int>)
    ensures r.Failure? <==> |seqs| == 0
    ensures r.Failure? ==> r.error == Arithmetic
  {
    if |seqs| == 0 then Failure(Arithmetic) else Success(TotalLength(seqs) / |seqs|)
  }

  lemma {:induction false} TotalLengthBounds(seqs: Assoc<string>, lo: int, hi: int)
    requires forall i :: 0 <= i < |seqs| ==> lo <= |seqs[i].1| <= hi
    ensures lo * |seqs| <= TotalLength(seqs) <= hi * |seqs|
    decreases |seqs|
  {
    if |seqs| > 0 {
      TotalLengthBounds(seqs[..|seqs| - 1], lo, hi);
    }
  }

  /** The average length lies between the shortest and the longest sequence length. */
  lemma MeanLengthBounds(seqs: Assoc<string>, lo: int, hi: int)
    requires |seqs| > 0 && 0 <= lo
    requires forall i :: 0 <= i < |seqs| ==> lo <= |seqs[i].1| <= hi
    ensures lo <= MeanLength(seqs).value <= hi
  {
    TotalLengthBounds(seqs, lo, hi);
    QuotientBounds(TotalLength(seqs), |seqs|, lo, hi);
  }

  method AverageLength(seqs: Assoc<string>) returns (r: Result<int>)
    ensures r == MeanLength(seqs)
  {
    var sum := 0;
    for i := 0 to |seqs|
      invariant sum == TotalLength(seqs[..i])
    {
      assert seqs[..i + 1][..i] == seqs[..i];
      sum := sum + |seqs[i].1|;
    }
    assert seqs[..|seqs|] == seqs;
    if |seqs| == 0 {
      return Failure(Arithmetic);
    }
    r := Success(sum / |seqs|);
  }

  // ---------------------------------------------------------------- GC content

  /** A character of the regex class `[*C|G]`: C, G, and also '*' and '|'. */
  predicate GcClassChar(c: char) {
    c in {'*', 'C', '|', 'G'}
  }

  /** The matches of `[*C|G]` in the upper-cased sequence. */
  function GcCount(s: string): (n: nat)
    ensures n <= |s|
    decreases |s|
  {
    if |s| == 0 then 0
    else GcCount(s[..|s| - 1]) + if GcClassChar(UpperChar(s[|s| - 1])) then 1 else 0
  }

  /** The characters that upper-case to C or G. */
  function CgCount(s: string): nat
    decreases |s|
  {
    if |s| == 0 then 0
    else CgCount(s[..|s| - 1]) + if UpperChar(s[|s| - 1]) in {'C', 'G'} then 1 else 0
  }

  /** On nucleotide letters, the only letters FASTA validation accepts, the class counts
      exactly the C and G bases. */
  lemma {:induction false} GcOnNucleotides(s: string)
    requires forall i :: 0 <= i < |s| ==> FastaFiles.NucleotideChar(s[i])
    ensures GcCount(s) == CgCount(s)
    decreases |s|
  {
    if |s| > 0 {
      GcOnNucleotides(s[..|s| - 1]);
    }
  }

  /** Counting is case-insensitive: upper-casing first changes nothing. */
  lemma {:induction false} GcCountUpper(s: string)
    ensures GcCount(ToUpper(s)) == GcCount(s)
    decreases |s|
  {
    if |s| > 0 {
      var n := |s| - 1;
      assert ToUpper(s)[..n] == ToUpper(s[..n]);
      GcCountUpper(s[..n]);
    }
  }

  /** The count over joined text is the sum of the counts. */
  lemma {:induction false} GcCountAppend(s: string, t: string)
    ensures GcCount(s + t) == GcCount(s) + GcCount(t)
    decreases |t|
  {
    if |t| > 0 {
      var n := |t| - 1;
      assert (s + t)[..|s + t| - 1] == s + t[..n];
      GcCountAppend(s, t[..n]);
    } else {
      assert s + t == s;
    }
  }

  /** The numerator of gettingGcPercentage over all sequences. */
  function GcTotal(seqs: Assoc<string>): (n: nat)
    ensures n <= TotalLength(seqs)
    decreases |seqs|
  {
    if |seqs| == 0 then 0 else GcTotal(seqs[..|seqs| - 1]) + GcCount(seqs[|seqs| - 1].1)
  }

  function CgTotal(seqs: Assoc<string>): nat
    decreases |seqs|
  {
    if |seqs| == 0 then 0 else CgTotal(seqs[..|seqs| - 1]) + CgCount(seqs[|seqs| - 1].1)
  }

  /** The while (matcher.find()) loop over one upper-cased sequence. */
  method CountMatches(s: string) returns (count: nat)
    ensures count == GcCount(s)
  {
    var upper := ToUpper(s);
    count := 0;
    for i := 0 to |upper|
      invariant count == GcCount(s[..i])
    {
      assert s[..i + 1][..i] == s[..i];
      if GcClassChar(upper[i]) {
        count := count + 1;
      }
    }
    assert s[..|s|] == s;
  }

  /** The loop of gettingGcPercentage: the match count and the total length, the two
      operands of `count / (double) length * 100`. */
  method GcCounts(seqs: Assoc<string>) returns (count: nat, length: nat)
    ensures count == GcTotal(seqs) && length == TotalLength(seqs)
    ensures count <= length
  {
    count, length := 0, 0;
    for i := 0 to |seqs|
      invariant count == GcTotal(seqs[..i]) && length == TotalLength(seqs[..i])
    {
      assert seqs[..i + 1][..i] == seqs[..i];
      length := length + |seqs[i].1|;
      var matches := CountMatches(seqs[i].1);
      count := count + matches;
    }
    assert seqs[..|seqs|] == seqs;
  }

  lemma {:induction false} GcTotalOnNucleotides(seqs: Assoc<string>)
    requires forall e :: e in seqs ==> FastaFiles.Nucleotides(e.1)
    ensures GcTotal(seqs) == CgTotal(seqs)
    decreases |seqs|
  {
    if |seqs| > 0 {
      GcTotalOnNucleotides(seqs[..|seqs| - 1]);
      GcOnNucleotides(seqs[|seqs| - 1].1);
    }
  }

  /** On the map sequenceMaker builds from a valid FASTA file, the numerator counts exactly
      the C and G bases: the '*' and '|' of the class never occur there. */
  lemma GcOfFastaFile(name: string, file: Option<seq<string>>)
    requires FastaFiles.FastaName(name) && !FastaFiles.GffName(name)
    ensures GcTotal(FastaFiles.SequenceMap(name, file)) == CgTotal(FastaFiles.SequenceMap(name, file))
  {
    FastaFiles.SequenceMapNucleotides(name, file);
    GcTotalOnNucleotides(FastaFiles.SequenceMap(name, file));
  }
}
