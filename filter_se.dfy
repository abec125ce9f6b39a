/** The private line filters of GFFFeatureFunctionsExtended (operation/filterSE): the
    per-feature decisions that `extended` turns around. They repeat the streaming filter's
    decisions with two differences: the region decision also reads the flag, and only the
    ID, Type, Region and Source columns are recognised (the Chromosome and Attributes cases
    are commented out). */
module FilterSE {
  import opened Wrappers
  import opened JavaText
  import opened Features
  import FilterEngine

  /** filterLine: a member of the list when not `extended`, a non-member when
      `extended`. */
  function LineDecision(value: Option<string>, list: seq<string>, extended: bool): (keep: bool)
    ensures keep <==> FilterEngine.Contains(list, value) != extended
  {
    if extended then !FilterEngine.Contains(list, value) else FilterEngine.Contains(list, value)
  }

  /** filterRegion: the first pair that strictly encloses the feature answers
      `!extended`, running out of pairs answers `extended`; the bounds are parsed and
      fetched as the streaming filter's region decision does. */
  function RegionDecision(d: FeatureData, list: seq<string>, extended: bool, i: nat): (r: Result<bool>)
    ensures r.Failure? <==> FilterEngine.RegionFrom(d, list, i).Failure?
    ensures r.Failure? ==> r.error == FilterEngine.RegionFrom(d, list, i).error
    ensures r.Success? ==> r.value == (FilterEngine.RegionFrom(d, list, i).value != extended)
    decreases |list| - i
  {
    if i >= |list| then Success(extended)
    else match ParseInt(list[i])
      case None => Failure(NumberFormat)
      case Some(rs) =>
        if i + 1 >= |list| then Failure(IndexOutOfBounds)
        else match ParseInt(list[i + 1])
          case None => Failure(NumberFormat)
          case Some(re) =>
            if rs < d.start && re > d.end then Success(!extended)
            else RegionDecision(d, list, extended, i + 2)
  }

  /** filteringLine: the decision for the named column; an unrecognised column drops
      every feature. */
  function Decision(d: FeatureData, column: string, values: seq<string>, extended: bool): (r: Result<bool>)
    ensures column != "Region" ==> r.Success?
    ensures column !in {"ID", "Type", "Region", "Source"} ==> r == Success(false)
    ensures column == "Region" ==> r == RegionDecision(d, values, extended, 0)
  {
    if column == "ID" then Success(LineDecision(d.ID(), values, extended))
    else if column == "Type" then Success(LineDecision(Some(d.featureType), values, extended))
    else if column == "Region" then RegionDecision(d, values, extended, 0)
    else if column == "Source" then Success(LineDecision(Some(d.source), values, extended))
    else Success(false)
  }

  /** With `extended` playing the part of `delete`, the Type and Source decisions are
      the streaming filter's, and so is the ID decision on a feature with an ID; on a
      feature without one the streaming filter's immutable list throws where this one
      answers `extended`. The region decision is the streaming filter's answer turned
      around by `extended`; Chromosome and Attributes, which the streaming filter handles,
      drop every feature here. */
  lemma AgreesWithStreamingFilter(d: FeatureData, column: string, values: seq<string>, extended: bool,
                                  useContains: bool)
    ensures column in {"Type", "Source"} || (column == "ID" && d.ID().Some?) ==>
      Decision(d, column, values, extended) == FilterEngine.Filtering(d, column, values, extended, useContains)
    ensures column == "ID" && d.ID().None? ==>
      Decision(d, column, values, extended) == Success(extended)
      && FilterEngine.Filtering(d, column, values, extended, useContains) == Failure(NullPointer)
    ensures column == "Region" && FilterEngine.Filtering(d, column, values, extended, useContains).Success? ==>
      Decision(d, column, values, extended)
        == Success(FilterEngine.Filtering(d, column, values, extended, useContains).value != extended)
    ensures column in {"Chromosome", "Attributes"} ==> Decision(d, column, values, extended) == Success(false)
  {
  }
}
