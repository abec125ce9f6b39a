/** Extended.java of the filter_ex_sum package: an index over a feature list. Two maps are
    fields: featureMap from feature ID to the feature's toString text, and parentChildMap
    from parent ID to the IDs of its children. buildFeatureMap adds to both and never
    clears them, so a second call accumulates. filterFeatures filters the stored texts by
    reading tab-separated columns out of them. */
module ExtendedIndex {
  import opened Wrappers
  import opened JavaText
  import opened Assoc
  import opened Features

  // ---------------------------------------------------------------- the two maps

  /** The ID under which buildFeatureMap stores a feature: present and not empty. */
  function StoredId(d: FeatureData): Option<string> {
    if d.ID().Some? && d.ID().value != "" then d.ID() else None
  }

  /** The first loop of buildFeatureMap over `fs`, starting from the map `m`. */
  function FeatureMapAfter(m: Assoc<string>, fs: seq<Feature>): Assoc<string>
    decreases |fs|
  {
    if |fs| == 0 then m
    else
      var m' := FeatureMapAfter(m, fs[..|fs| - 1]);
      var d := fs[|fs| - 1].data;
      if StoredId(d).Some? then Put(m', StoredId(d).value, ToStringText(d)) else m'
  }

  /** The toString text of the last feature in `fs` whose ID is `k`, if `k` is not empty. */
  function LastText(fs: seq<Feature>, k: string): (r: Option<string>)
    ensures k == "" ==> r.None?
    decreases |fs|
  {
    if |fs| == 0 then None
    else if StoredId(fs[|fs| - 1].data) == Some(k) then Some(ToStringText(fs[|fs| - 1].data))
    else LastText(fs[..|fs| - 1], k)
  }

  /** The second loop of buildFeatureMap: a feature with a Parent and an ID appends its ID
      to its parent's list, which putIfAbsent starts empty. */
  function ChildMapAfter(m: Assoc<seq<string>>, fs: seq<Feature>): Assoc<seq<string>>
    decreases |fs|
  {
    if |fs| == 0 then m
    else
      var m' := ChildMapAfter(m, fs[..|fs| - 1]);
      var d := fs[|fs| - 1].data;
      if d.ParentID().Some? && d.ID().Some? then
        Put(m', d.ParentID().value, GetOr(m', d.ParentID().value, []) + [d.ID().value])
      else m'
  }

  /** The IDs, in list order, of the features in `fs` whose Parent is `p` and that have an
      ID. */
  function ChildIds(fs: seq<Feature>, p: string): (ids: seq<string>)
    ensures |ids| <= |fs|
    decreases |fs|
  {
    if |fs| == 0 then []
    else
      var d := fs[|fs| - 1].data;
      ChildIds(fs[..|fs| - 1], p) + (if d.ParentID() == Some(p) && d.ID().Some? then [d.ID().value] else [])
  }

  /** After buildFeatureMap, an ID maps to the toString text of the last feature carrying
      it; an ID no feature carries, or the empty ID, reads what it read before. */
  lemma {:induction false} FeatureMapLastWins(m: Assoc<string>, fs: seq<Feature>, k: string)
    ensures Get(FeatureMapAfter(m, fs), k) == if LastText(fs, k).Some? then LastText(fs, k) else Get(m, k)
    decreases |fs|
  {
    if |fs| > 0 {
      var front := fs[..|fs| - 1];
      FeatureMapLastWins(m, front, k);
      var d := fs[|fs| - 1].data;
      if StoredId(d).Some? {
        PutGet(FeatureMapAfter(m, front), StoredId(d).value, ToStringText(d), k);
      }
    }
  }

  /** After buildFeatureMap, a parent's list is its old list followed by the IDs of its
      children in list order; a parent with no old list and no children has no entry. */
  lemma {:induction false} ChildMapAccumulates(m: Assoc<seq<string>>, fs: seq<Feature>, p: string)
    ensures GetOr(ChildMapAfter(m, fs), p, []) == GetOr(m, p, []) + ChildIds(fs, p)
    ensures Get(ChildMapAfter(m, fs), p).None? <==> Get(m, p).None? && ChildIds(fs, p) == []
    decreases |fs|
  {
    if |fs| > 0 {
      var front := fs[..|fs| - 1];
      ChildMapAccumulates(m, front, p);
      var d := fs[|fs| - 1].data;
      var m' := ChildMapAfter(m, front);
      if d.ParentID().Some? && d.ID().Some? {
        PutGet(m', d.ParentID().value, GetOr(m', d.ParentID().value, []) + [d.ID().value], p);
      }
    }
  }

  /** Building the index twice from the same list lists every child twice. */
  lemma BuildTwiceDuplicates(m: Assoc<seq<string>>, fs: seq<Feature>, p: string)
    ensures GetOr(ChildMapAfter(ChildMapAfter(m, fs), fs), p, []) == GetOr(m, p, []) + ChildIds(fs, p) + ChildIds(fs, p)
  {
    ChildMapAccumulates(m, fs, p);
    ChildMapAccumulates(ChildMapAfter(m, fs), fs, p);
  }

  /** On a fresh index, every child with a non-empty ID is found in featureMap. */
  lemma {:induction false} ChildFound(fs: seq<Feature>, p: string, i: nat)
    requires i < |ChildIds(fs, p)| && ChildIds(fs, p)[i] != ""
    ensures LastText(fs, ChildIds(fs, p)[i]).Some?
    decreases |fs|
  {
    var front := fs[..|fs| - 1];
    var d := fs[|fs| - 1].data;
    if i < |ChildIds(front, p)| {
      ChildFound(front, p, i);
      LastTextFront(fs, ChildIds(front, p)[i]);
    } else {
      assert ChildIds(fs, p)[i] == d.ID().value;
    }
  }

  lemma LastTextFront(fs: seq<Feature>, k: string)
    requires |fs| > 0 && LastText(fs[..|fs| - 1], k).Some?
    ensures LastText(fs, k).Some?
  {
  }

  // ---------------------------------------------------------------- reading stored text

  /** featureString.split("\t")[i]. */
  function Column(s: string, i: nat): (r: Result<string>)
    ensures r.Failure? <==> |JavaSplit(s, TAB)| <= i
    ensures r.Failure? ==> r.error == IndexOutOfBounds
  {
    var cols := JavaSplit(s, TAB);
    if i < |cols| then Success(cols[i]) else Failure(IndexOutOfBounds)
  }

  /** extractIDFromString: the first ';'-token of column 8. */
  function ExtractId(s: string): Result<string> {
    match Column(s, 8)
    case Failure(e) => Failure(e)
    case Success(col) =>
      var tokens := JavaSplit(col, ';');
      if |tokens| == 0 then Failure(IndexOutOfBounds) else Success(tokens[0])
  }

  /** extractStartFromString and extractEndFromString: Integer.parseInt of a column. */
  function ExtractInt(s: string, i: nat): Result<int> {
    match Column(s, i)
    case Failure(e) => Failure(e)
    case Success(col) => if ParseInt(col).Some? then Success(ParseInt(col).value) else Failure(NumberFormat)
  }

  /** The removeIf lambdas of filterFeatures. */
  datatype TextCriterion =
    | IdNotIn(ids: seq<string>)
    | TypeNotIn(types: seq<string>)
    | ChromosomeNotIn(chromosomes: seq<string>)
    | OutsideRange(low: int, high: int)
    | SourceNotIn(sources: seq<string>)

  /** Whether the lambda removes the text, or the exception its extractor throws. */
  function TextRemoves(c: TextCriterion, s: string): (r: Result<bool>)
    ensures r.Failure? ==> r.error == IndexOutOfBounds || r.error == NumberFormat
  {
    match c
    case IdNotIn(ids) => (match ExtractId(s) case Failure(e) => Failure(e) case Success(v) => Success(v !in ids))
    case TypeNotIn(types) => (match Column(s, 2) case Failure(e) => Failure(e) case Success(v) => Success(v !in types))
    case ChromosomeNotIn(cs) => (match Column(s, 0) case Failure(e) => Failure(e) case Success(v) => Success(v !in cs))
    case OutsideRange(low, high) =>
      (match ExtractInt(s, 3)
       case Failure(e) => Failure(e)
       case Success(start) =>
         match ExtractInt(s, 4)
         case Failure(e) => Failure(e)
         case Success(end) => Success(start < low || end > high))
    case SourceNotIn(sources) => (match Column(s, 1) case Failure(e) => Failure(e) case Success(v) => Success(v !in sources))
  }

  /** ArrayList.removeIf with a lambda that may throw: the first text (in list order) whose
      test throws ends the call; otherwise the texts the lambda keeps are left in order. */
  function RemoveText(ss: seq<string>, c: TextCriterion): (r: Result<seq<string>>)
    ensures r.Success? ==> |r.value| <= |ss|
    decreases |ss|
  {
    if |ss| == 0 then Success([])
    else match TextRemoves(c, ss[0])
      case Failure(e) => Failure(e)
      case Success(removed) =>
        match RemoveText(ss[1..], c)
        case Failure(e) => Failure(e)
        case Success(rest) => Success(if removed then rest else [ss[0]] + rest)
  }

  /** removeIf leaves exactly the texts whose test does not remove them. */
  lemma {:induction false} RemoveTextMembers(ss: seq<string>, c: TextCriterion)
    ensures RemoveText(ss, c).Success? ==>
      forall x :: x in RemoveText(ss, c).value <==> x in ss && TextRemoves(c, x) == Success(false)
    decreases |ss|
  {
    if |ss| > 0 && RemoveText(ss, c).Success? {
      RemoveTextMembers(ss[1..], c);
      assert ss == [ss[0]] + ss[1..];
    }
  }

  /** region.split("-") and the two Integer.parseInt calls on its first two pieces. */
  function ParseRange(region: string): Result<(int, int)> {
    var parts := JavaSplit(region, '-');
    if |parts| < 1 then Failure(IndexOutOfBounds)
    else if ParseInt(parts[0]).None? then Failure(NumberFormat)
    else if |parts| < 2 then Failure(IndexOutOfBounds)
    else if ParseInt(parts[1]).None? then Failure(NumberFormat)
    else Success((ParseInt(parts[0]).value, ParseInt(parts[1]).value))
  }

  /** The text lies inside every region of the list, ends included, and every region
      string parses. */
  predicate InsideAll(s: string, regions: seq<string>)
    decreases |regions|
  {
    |regions| == 0
    || (&& ParseRange(regions[0]).Success?
        && TextRemoves(OutsideRange(ParseRange(regions[0]).value.0, ParseRange(regions[0]).value.1), s) == Success(false)
        && InsideAll(s, regions[1..]))
  }

  /** The region loop: one removeIf per region string, in order. */
  function RemoveOutside(ss: seq<string>, regions: seq<string>): (r: Result<seq<string>>)
    ensures r.Success? ==> |r.value| <= |ss|
    decreases |regions|
  {
    if |regions| == 0 then Success(ss)
    else match ParseRange(regions[0])
      case Failure(e) => Failure(e)
      case Success(range) =>
        match RemoveText(ss, OutsideRange(range.0, range.1))
        case Failure(e) => Failure(e)
        case Success(ss') => RemoveOutside(ss', regions[1..])
  }

  /** The region loop leaves exactly the texts that lie inside every region. */
  lemma {:induction false} RemoveOutsideMembers(ss: seq<string>, regions: seq<string>)
    ensures RemoveOutside(ss, regions).Success? ==>
      forall x :: x in RemoveOutside(ss, regions).value <==> x in ss && InsideAll(x, regions)
    decreases |regions|
  {
    if |regions| > 0 && RemoveOutside(ss, regions).Success? {
      var range := ParseRange(regions[0]).value;
      var ss' := RemoveText(ss, OutsideRange(range.0, range.1)).value;
      RemoveOutsideMembers(ss', regions[1..]);
      RemoveTextMembers(ss, OutsideRange(range.0, range.1));
    }
  }

  /** The criterion filterFeatures builds for a present key. */
  function KeyCriterion(criteria: Assoc<seq<string>>, key: string): (c: Option<TextCriterion>)
    ensures c.Some? <==> Get(criteria, key).Some?
  {
    match Get(criteria, key)
    case None => None
    case Some(l) =>
      Some(if key == "id" then IdNotIn(l)
           else if key == "type" then TypeNotIn(l)
           else if key == "chromosome" then ChromosomeNotIn(l)
           else SourceNotIn(l))
  }

  /** One optional removeIf stage: applied when the criteria map has the key. */
  function Stage(r: Result<seq<string>>, c: Option<TextCriterion>): (r': Result<seq<string>>)
    ensures r.Success? && r'.Success? ==> |r'.value| <= |r.value|
    ensures r.Failure? ==> r' == r
    ensures c.None? ==> r' == r
  {
    match r
    case Failure(_) => r
    case Success(ss) => if c.Some? then RemoveText(ss, c.value) else r
  }

  /** The optional region stage. */
  function RegionStage(r: Result<seq<string>>, regions: Option<seq<string>>): (r': Result<seq<string>>)
    ensures r.Success? && r'.Success? ==> |r'.value| <= |r.value|
    ensures r.Failure? ==> r' == r
    ensures regions.None? ==> r' == r
  {
    if r.Success? && regions.Some? then RemoveOutside(r.value, regions.value) else r
  }

  /** filterFeatures over the stored texts `values`: the id, type, chromosome, region and
      source stages, each applied when its key is present, in that order. */
  function FilterSpec(values: seq<string>, criteria: Assoc<seq<string>>): (r: Result<seq<string>>)
    ensures r.Success? ==> |r.value| <= |values|
  {
    var r1 := Stage(Success(values), KeyCriterion(criteria, "id"));
    var r2 := Stage(r1, KeyCriterion(criteria, "type"));
    var r3 := Stage(r2, KeyCriterion(criteria, "chromosome"));
    var r4 := RegionStage(r3, Get(criteria, "region"));
    Stage(r4, KeyCriterion(criteria, "source"))
  }

  /** A text a stage leaves was there before it and passes the stage's test. */
  lemma StageMembers(r: Result<seq<string>>, c: Option<TextCriterion>, x: string)
    requires Stage(r, c).Success? && x in Stage(r, c).value
    ensures r.Success? && x in r.value
    ensures c.Some? ==> TextRemoves(c.value, x) == Success(false)
  {
    if c.Some? {
      RemoveTextMembers(r.value, c.value);
    }
  }

  /** A text the region stage leaves was there before it and lies inside every region. */
  lemma RegionStageMembers(r: Result<seq<string>>, regions: Option<seq<string>>, x: string)
    requires RegionStage(r, regions).Success? && x in RegionStage(r, regions).value
    ensures r.Success? && x in r.value
    ensures regions.Some? ==> InsideAll(x, regions.value)
  {
    if regions.Some? {
      RemoveOutsideMembers(r.value, regions.value);
    }
  }

  /** With none of the five keys, filterFeatures returns every stored text. */
  lemma NoCriteriaKeepsAll(values: seq<string>, criteria: Assoc<seq<string>>)
    requires forall k :: k in ["id", "type", "chromosome", "region", "source"] ==> Get(criteria, k).None?
    ensures FilterSpec(values, criteria) == Success(values)
  {
    assert Get(criteria, "id").None?;
    assert Get(criteria, "type").None?;
    assert Get(criteria, "chromosome").None?;
    assert Get(criteria, "region").None?;
    assert Get(criteria, "source").None?;
  }

  /** filterFeatures never adds a text, and every text it returns meets every criterion
      that is present. */
  lemma FilterConjunctive(values: seq<string>, criteria: Assoc<seq<string>>, x: string)
    requires FilterSpec(values, criteria).Success? && x in FilterSpec(values, criteria).value
    ensures x in values
    ensures Get(criteria, "id").Some? ==> TextRemoves(IdNotIn(Get(criteria, "id").value), x) == Success(false)
    ensures Get(criteria, "type").Some? ==> TextRemoves(TypeNotIn(Get(criteria, "type").value), x) == Success(false)
    ensures Get(criteria, "chromosome").Some? ==>
      TextRemoves(ChromosomeNotIn(Get(criteria, "chromosome").value), x) == Success(false)
    ensures Get(criteria, "region").Some? ==> InsideAll(x, Get(criteria, "region").value)
    ensures Get(criteria, "source").Some? ==> TextRemoves(SourceNotIn(Get(criteria, "source").value), x) == Success(false)
  {
    var r1 := Stage(Success(values), KeyCriterion(criteria, "id"));
    var r2 := Stage(r1, KeyCriterion(criteria, "type"));
    var r3 := Stage(r2, KeyCriterion(criteria, "chromosome"));
    var r4 := RegionStage(r3, Get(criteria, "region"));
    StageMembers(r4, KeyCriterion(criteria, "source"), x);
    RegionStageMembers(r3, Get(criteria, "region"), x);
    StageMembers(r2, KeyCriterion(criteria, "chromosome"), x);
    StageMembers(r1, KeyCriterion(criteria, "type"), x);
    StageMembers(Success(values), KeyCriterion(criteria, "id"), x);
  }

  /** Feature.toString holds no tab when no column does, so its text splits into a single
      column: the ID, type, source, start and end extractors throw
      IndexOutOfBoundsException on every stored text, and the chromosome extractor reads the
      whole text. */
  lemma ToStringOneColumn(d: FeatureData)
    requires TabFree(d)
    ensures JavaSplit(ToStringText(d), TAB) == [ToStringText(d)]
    ensures ExtractId(ToStringText(d)) == Failure(IndexOutOfBounds)
    ensures Column(ToStringText(d), 2) == Failure(IndexOutOfBounds)
    ensures Column(ToStringText(d), 0) == Success(ToStringText(d))
  {
    ToStringTabFree(d);
  }

  lemma {:induction false} EntriesTabFree(attrs: Attributes)
    requires forall i :: 0 <= i < |attrs| ==> TAB !in attrs[i].0 && TAB !in attrs[i].1
    ensures TAB !in EntriesText(attrs)
    decreases |attrs|
  {
    if |attrs| > 1 {
      EntriesTabFree(attrs[1..]);
    }
  }

  lemma ToStringTabFree(d: FeatureData)
    requires TabFree(d)
    ensures TAB !in ToStringText(d)
  {
    EntriesTabFree(d.attributes);
    IntToStringChars(d.start, TAB);
    IntToStringChars(d.end, TAB);
    LiteralsTabFree();
    assert TAB !in MapText(d.attributes);
  }

  /** The fixed pieces of the toString text hold no tab. */
  lemma LiteralsTabFree()
    ensures TAB !in "Feature{" && TAB !in "seqID='" && TAB !in "'" && TAB !in ", source='"
    ensures TAB !in ", type='" && TAB !in ", start=" && TAB !in ", end=" && TAB !in ", score='"
    ensures TAB !in ", strand='" && TAB !in ", phase='" && TAB !in ", attributes=" && TAB !in "}"
  {
  }

  // ---------------------------------------------------------------- the index

  class Extended {
    var featureMap: Assoc<string>
    var parentChildMap: Assoc<seq<string>>

    constructor ()
      ensures featureMap == [] && parentChildMap == []
    {
      featureMap := [];
      parentChildMap := [];
    }

    /** buildFeatureMap: both loops, adding to the maps already there. */
    method BuildFeatureMap(features: seq<Feature>)
      modifies this
      ensures featureMap == FeatureMapAfter(old(featureMap), features)
      ensures parentChildMap == ChildMapAfter(old(parentChildMap), features)
    {
      for i := 0 to |features|
        invariant featureMap == FeatureMapAfter(old(featureMap), features[..i])
        invariant parentChildMap == old(parentChildMap)
      {
        assert features[..i + 1][..i] == features[..i];
        var featureId := features[i].data.ID();
        var featureString := ToStringText(features[i].data);
        if featureId.Some? && featureId.value != "" {
          featureMap := Put(featureMap, featureId.value, featureString);
        }
      }
      assert features[..|features|] == features;
      for i := 0 to |features|
        invariant featureMap == FeatureMapAfter(old(featureMap), features)
        invariant parentChildMap == ChildMapAfter(old(parentChildMap), features[..i])
      {
        assert features[..i + 1][..i] == features[..i];
        var parentId := features[i].data.ParentID();
        var featureId := features[i].data.ID();
        if parentId.Some? && featureId.Some? {
          var list := GetOr(parentChildMap, parentId.value, []);
          parentChildMap := Put(parentChildMap, parentId.value, list + [featureId.value]);
        }
      }
    }

    /** getFeatureString: the stored text, or null. */
    function GetFeatureString(featureId: string): (r: Option<string>)
      reads this
      ensures r.None? <==> featureId !in Keys(featureMap)
      ensures r.Some? ==> (featureId, r.value) in featureMap
    {
      GetFound(featureMap, featureId);
      Get(featureMap, featureId)
    }

    /** getChildren: featureMap's entry, or null, for each recorded child ID in order; an
        unknown parent gives an empty list. */
    method GetChildren(parentId: string) returns (r: seq<Option<string>>)
      ensures Get(parentChildMap, parentId).None? ==> r == []
      ensures Get(parentChildMap, parentId).Some? ==>
        |r| == |Get(parentChildMap, parentId).value|
        && forall i :: 0 <= i < |r| ==> r[i] == Get(featureMap, Get(parentChildMap, parentId).value[i])
    {
      r := [];
      var ids := Get(parentChildMap, parentId);
      if ids.Some? {
        for i := 0 to |ids.value|
          invariant |r| == i
          invariant forall j :: 0 <= j < i ==> r[j] == Get(featureMap, ids.value[j])
        {
          r := r + [Get(featureMap, ids.value[i])];
        }
      }
    }

    /** filterFeatures: a copy of the stored texts, narrowed by each present criterion. */
    method FilterFeatures(criteria: Assoc<seq<string>>) returns (r: Result<seq<string>>)
      ensures r == FilterSpec(Values(featureMap), criteria)
    {
      r := Success(Values(featureMap));
      var ids := Get(criteria, "id");
      if ids.Some? {
        r := RemoveWhere(r.value, IdNotIn(ids.value));
      }
      var types := Get(criteria, "type");
      if r.Success? && types.Some? {
        r := RemoveWhere(r.value, TypeNotIn(types.value));
      }
      var chromosomes := Get(criteria, "chromosome");
      if r.Success? && chromosomes.Some? {
        r := RemoveWhere(r.value, ChromosomeNotIn(chromosomes.value));
      }
      var regions := Get(criteria, "region");
      if r.Success? && regions.Some? {
        r := RemoveEachOutside(r.value, regions.value);
      }
      var sources := Get(criteria, "source");
      if r.Success? && sources.Some? {
        r := RemoveWhere(r.value, SourceNotIn(sources.value));
      }
    }
  }

  /** The texts kept so far put in front of what the rest of the list gives. */
  function Prepend(kept: seq<string>, r: Result<seq<string>>): Result<seq<string>> {
    match r
    case Failure(e) => Failure(e)
    case Success(rest) => Success(kept + rest)
  }

  /** One step of the removeIf loop, on a text whose test does not throw. */
  lemma PrependStep(kept: seq<string>, ss: seq<string>, c: TextCriterion, i: nat)
    requires i < |ss| && TextRemoves(c, ss[i]).Success?
    ensures Prepend(kept, RemoveText(ss[i..], c)) ==
      Prepend(kept + (if TextRemoves(c, ss[i]).value then [] else [ss[i]]), RemoveText(ss[i + 1..], c))
  {
    var t := ss[i..];
    assert t[1..] == ss[i + 1..];
    assert t[0] == ss[i];
    var removed := TextRemoves(c, ss[i]).value;
    match RemoveText(ss[i + 1..], c)
    case Failure(e) =>
      assert RemoveText(t, c) == Failure(e);
    case Success(rest) =>
      assert RemoveText(t, c) == Success(if removed then rest else [ss[i]] + rest);
      if removed {
        assert kept + [] == kept;
      } else {
        assert kept + ([ss[i]] + rest) == kept + [ss[i]] + rest;
      }
  }

  lemma PrependNothing(r: Result<seq<string>>)
    ensures Prepend([], r) == r
  {
    match r
    case Failure(_) =>
    case Success(v) =>
      assert [] + v == v;
  }

  /** removeIf on the text list: test each text in order, stop at the first exception. */
  method RemoveWhere(ss: seq<string>, c: TextCriterion) returns (r: Result<seq<string>>)
    ensures r == RemoveText(ss, c)
  {
    var kept: seq<string> := [];
    assert ss[0..] == ss;
    PrependNothing(RemoveText(ss, c));
    for i := 0 to |ss|
      invariant RemoveText(ss, c) == Prepend(kept, RemoveText(ss[i..], c))
    {
      var removed := TextRemoves(c, ss[i]);
      if removed.Failure? {
        assert ss[i..][0] == ss[i];
        return Failure(removed.error);
      }
      PrependStep(kept, ss, c, i);
      if !removed.value {
        kept := kept + [ss[i]];
      }
    }
    assert ss[|ss|..] == [];
    assert kept + [] == kept;
    r := Success(kept);
  }

  /** The region loop of filterFeatures. */
  method RemoveEachOutside(ss: seq<string>, regions: seq<string>) returns (r: Result<seq<string>>)
    ensures r == RemoveOutside(ss, regions)
  {
    var current := ss;
    for j := 0 to |regions|
      invariant RemoveOutside(ss, regions) == RemoveOutside(current, regions[j..])
    {
      assert regions[j..][1..] == regions[j + 1..];
      var range := ParseRange(regions[j]);
      if range.Failure? {
        return Failure(range.error);
      }
      var next := RemoveWhere(current, OutsideRange(range.value.0, range.value.1));
      if next.Failure? {
        return next;
      }
      current := next.value;
    }
    r := Success(current);
  }
}
