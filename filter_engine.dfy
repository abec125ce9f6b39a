/** GFFFeatureFunctions.java of the operation/filter package: the decision, for one
    feature, whether the streaming filter keeps it. Each decision names a column, a list of
    wanted values and a `delete` flag; without `delete` a feature that matches is kept,
    with `delete` a feature that matches is dropped (the region filter excepted). */
module FilterEngine {
  import opened Wrappers
  import opened JavaText
  import opened Assoc
  import opened Features

  // ---------------------------------------------------------------- membership

  /** List.contains on a list that answers a null probe with false (an ArrayList, a
      LinkedList or Arrays.asList): the elements are never null, so a null probe (a
      feature without an ID) is never found. */
  predicate Contains(list: seq<string>, v: Option<string>) {
    v.Some? && v.value in list
  }

  /** List.contains on an immutable list built by List.of, which is how the `--filter`
      converter builds the value lists the streaming filter receives: such a list refuses
      a null probe with NullPointerException instead of answering false. */
  function ImmutableContains(list: seq<string>, v: Option<string>): (r: Result<bool>)
    ensures r.Failure? <==> v.None?
    ensures r.Failure? ==> r.error == NullPointer
    ensures r.Success? ==> (r.value <==> Contains(list, v))
  {
    match v
    case None => Failure(NullPointer)
    case Some(s) => Success(s in list)
  }

  /** filterLine: keep a member when fetching, a non-member when deleting; a null value
      (the ID of a feature without one) throws. */
  function FilterLine(value: Option<string>, list: seq<string>, delete: bool): (r: Result<bool>)
    ensures r.Failure? <==> value.None?
    ensures r.Failure? ==> r.error == NullPointer
    ensures r.Success? ==> (r.value <==> (value.value in list) != delete)
  {
    match ImmutableContains(list, value)
    case Failure(e) => Failure(e)
    case Success(found) => Success(if delete then !found else found)
  }

  /** filterChromosome: the same decision on the seqId column, which is never null. */
  function FilterChromosome(seqId: string, list: seq<string>, delete: bool): (keep: bool)
    ensures FilterLine(Some(seqId), list, delete) == Success(keep)
  {
    delete != (seqId in list)
  }

  // ---------------------------------------------------------------- regions

  /** Pair `k` of the list, (list[2k], list[2k+1]), is two ints that strictly enclose the
      feature. */
  predicate PairEncloses(d: FeatureData, list: seq<string>, k: nat)
    requires 2 * k + 1 < |list|
  {
    var rs := ParseInt(list[2 * k]);
    var re := ParseInt(list[2 * k + 1]);
    rs.Some? && re.Some? && rs.value < d.start && re.value > d.end
  }

  /** filterRegion from position `i` on: the pairs are read in order, each bound with
      Integer.parseInt (NumberFormatException) and the end through list.get(i + 1)
      (IndexOutOfBoundsException on an odd-length list); the first pair that strictly
      encloses the feature answers true, and running out of pairs answers false. */
  function RegionFrom(d: FeatureData, list: seq<string>, i: nat): (r: Result<bool>)
    ensures r.Failure? ==> r.error == NumberFormat || r.error == IndexOutOfBounds
    decreases |list| - i
  {
    if i >= |list| then Success(false)
    else match ParseInt(list[i])
      case None => Failure(NumberFormat)
      case Some(rs) =>
        if i + 1 >= |list| then Failure(IndexOutOfBounds)
        else match ParseInt(list[i + 1])
          case None => Failure(NumberFormat)
          case Some(re) =>
            if rs < d.start && re > d.end then Success(true)
            else RegionFrom(d, list, i + 2)
  }

  /** The pair (rs, re) strictly encloses the feature. */
  predicate StrictlyEncloses(d: FeatureData, rs: int, re: int) {
    rs < d.start && re > d.end
  }

  /** Some pair from position `i` on strictly encloses the feature. */
  ghost predicate SomePairEncloses(d: FeatureData, bounds: seq<int>, i: nat) {
    exists k: nat :: i <= 2 * k && 2 * k + 1 < |bounds| && StrictlyEncloses(d, bounds[2 * k], bounds[2 * k + 1])
  }

  lemma SomePairStep(d: FeatureData, bounds: seq<int>, i: nat)
    requires i % 2 == 0 && i + 1 < |bounds|
    ensures SomePairEncloses(d, bounds, i) <==>
      StrictlyEncloses(d, bounds[i], bounds[i + 1]) || SomePairEncloses(d, bounds, i + 2)
  {
    var k0 := i / 2;
    assert 2 * k0 == i;
    if !StrictlyEncloses(d, bounds[i], bounds[i + 1]) {
      forall k: nat | i <= 2 * k && 2 * k + 1 < |bounds| && StrictlyEncloses(d, bounds[2 * k], bounds[2 * k + 1])
        ensures i + 2 <= 2 * k
      {
      }
    }
  }

  /** On a list of int pairs, filterRegion answers whether some pair strictly encloses
      the feature. */
  lemma {:induction false} RegionFromPairs(d: FeatureData, list: seq<string>, bounds: seq<int>, i: nat)
    requires |list| == |bounds| && |list| % 2 == 0 && i % 2 == 0 && i <= |list|
    requires forall j :: 0 <= j < |list| ==> ParseInt(list[j]) == Some(bounds[j])
    ensures RegionFrom(d, list, i) == Success(SomePairEncloses(d, bounds, i))
    decreases |list| - i
  {
    if i < |list| {
      RegionFromPairs(d, list, bounds, i + 2);
      assert ParseInt(list[i]) == Some(bounds[i]);
      assert ParseInt(list[i + 1]) == Some(bounds[i + 1]);
      assert RegionFrom(d, list, i) ==
        if StrictlyEncloses(d, bounds[i], bounds[i + 1]) then Success(true) else RegionFrom(d, list, i + 2);
      SomePairStep(d, bounds, i);
    }
  }

  /** Whatever the list, a true answer names a pair that strictly encloses the feature. */
  lemma {:induction false} RegionFromTrue(d: FeatureData, list: seq<string>, i: nat)
    requires i % 2 == 0 && RegionFrom(d, list, i) == Success(true)
    ensures exists k: nat :: i <= 2 * k && 2 * k + 1 < |list| && PairEncloses(d, list, k)
    decreases |list| - i
  {
    var rs := ParseInt(list[i]).value;
    var re := ParseInt(list[i + 1]).value;
    if !(rs < d.start && re > d.end) {
      RegionFromTrue(d, list, i + 2);
    } else {
      assert PairEncloses(d, list, i / 2);
    }
  }

  /** filterRegion: the early-return loop over the pairs. The `delete` flag is not read. */
  method FilterRegion(d: FeatureData, list: seq<string>, delete: bool) returns (r: Result<bool>)
    ensures r == RegionFrom(d, list, 0)
  {
    var i := 0;
    while i < |list|
      invariant 0 <= i <= |list|
      invariant RegionFrom(d, list, 0) == RegionFrom(d, list, i)
      decreases |list| - i
    {
      var rs := ParseInt(list[i]);
      if rs.None? {
        return Failure(NumberFormat);
      }
      if i + 1 >= |list| {
        return Failure(IndexOutOfBounds);
      }
      var re := ParseInt(list[i + 1]);
      if re.None? {
        return Failure(NumberFormat);
      }
      if rs.value < d.start && re.value > d.end {
        return Success(true);
      }
      i := i + 2;
    }
    r := Success(false);
  }

  // ---------------------------------------------------------------- the attribute filter list

  /** The entry one token of the attribute filter list gives: when '=' occurs at an index
      above 0, the trimmed text before it and the trimmed text after it split on ','. */
  function ListEntry(token: string): (r: Option<(string, seq<string>)>)
    ensures r.Some? <==> IndexOf(token, '=') > 0
    ensures r.Some? ==> IsTrimmed(r.value.0)
    ensures r.Some? ==> forall j :: 0 <= j < |r.value.1| ==> ',' !in r.value.1[j]
  {
    var eq := IndexOf(token, '=');
    if eq > 0 then Some((Trim(token[..eq]), JavaSplit(Trim(token[eq + 1..]), ',')))
    else None
  }

  function ListEntries(tokens: seq<string>): (es: seq<Option<(string, seq<string>)>>)
    ensures |es| == |tokens|
    ensures forall i :: 0 <= i < |tokens| ==> es[i] == ListEntry(tokens[i])
  {
    seq(|tokens|, i requires 0 <= i < |tokens| => ListEntry(tokens[i]))
  }

  /** What parseList builds: a put per entry, in token order. */
  function ParsedList(tokens: seq<string>): Assoc<seq<string>> {
    Collect(ListEntries(tokens))
  }

  /** parseList never holds a key twice, and each key holds the values of the last token
      naming it; a key no token names is absent. */
  lemma ParsedListLastWins(tokens: seq<string>, k: string)
    ensures DistinctKeys(ParsedList(tokens))
    ensures Get(ParsedList(tokens), k) == LastValue(ListEntries(tokens), k)
  {
    CollectDistinct(ListEntries(tokens));
    CollectLastWins(ListEntries(tokens), k);
  }

  /** parseList */
  method ParseList(tokens: seq<string>) returns (m: Assoc<seq<string>>)
    ensures m == ParsedList(tokens)
  {
    m := [];
    var i := 0;
    while i < |tokens|
      invariant 0 <= i <= |tokens|
      invariant m == Collect(ListEntries(tokens)[..i])
    {
      CollectPrefix(ListEntries(tokens), i);
      var eq := IndexOf(tokens[i], '=');
      if eq > 0 {
        var key := Trim(tokens[i][..eq]);
        var value := Trim(tokens[i][eq + 1..]);
        m := Put(m, key, JavaSplit(value, ','));
      }
      i := i + 1;
    }
    assert ListEntries(tokens)[..i] == ListEntries(tokens);
  }

  // ---------------------------------------------------------------- attributes

  /** useContains ? featureValue.contains(value) : featureValue.equals(value) */
  predicate ValueMatches(featureValue: string, candidate: string, useContains: bool) {
    if useContains then HasSubstring(featureValue, candidate) else featureValue == candidate
  }

  /** Some candidate value matches the feature's value. */
  predicate AnyValueMatches(featureValue: string, candidates: seq<string>, useContains: bool) {
    exists j :: 0 <= j < |candidates| && ValueMatches(featureValue, candidates[j], useContains)
  }

  /** The attribute a filter entry names is present and matches one of its values. */
  predicate EntryMatches(attrs: Attributes, e: (string, seq<string>), useContains: bool) {
    match Get(attrs, e.0)
    case None => false
    case Some(fv) => AnyValueMatches(fv, e.1, useContains)
  }

  /** foundMatch: some entry of the parsed filter list matches. */
  predicate Found(attrs: Attributes, m: Assoc<seq<string>>, useContains: bool) {
    exists i :: 0 <= i < |m| && EntryMatches(attrs, m[i], useContains)
  }

  /** filterAttributes: the flag set in the nested loops, negated when deleting. */
  method FilterAttributes(attrs: Attributes, list: seq<string>, delete: bool, useContains: bool)
    returns (keep: bool)
    ensures keep <==> Found(attrs, ParsedList(list), useContains) != delete
  {
    var m := ParseList(list);
    var found := false;
    var i := 0;
    while i < |m|
      invariant 0 <= i <= |m|
      invariant found <==> Found(attrs, m[..i], useContains)
    {
      assert m[..i + 1] == m[..i] + [m[i]];
      FoundSnoc(attrs, m[..i], m[i], useContains);
      var fv := Get(attrs, m[i].0);
      if fv.Some? {
        var vs := m[i].1;
        var j := 0;
        while j < |vs|
          invariant 0 <= j <= |vs|
          invariant found <==> Found(attrs, m[..i], useContains) || AnyValueMatches(fv.value, vs[..j], useContains)
        {
          assert vs[..j + 1] == vs[..j] + [vs[j]];
          AnyValueMatchesSnoc(fv.value, vs[..j], vs[j], useContains);
          if ValueMatches(fv.value, vs[j], useContains) {
            found := true;
            break;
          }
          j := j + 1;
        }
        AnyValueMatchesPrefix(fv.value, vs, j, useContains);
      }
      i := i + 1;
    }
    assert m[..|m|] == m;
    keep := if delete then !found else found;
  }

  /** One more token: a put of its entry, or nothing when it has none. */
  lemma ParsedListSnoc(tokens: seq<string>, t: string)
    ensures ParsedList(tokens + [t]) ==
      match ListEntry(t)
      case Some(e) => Put(ParsedList(tokens), e.0, e.1)
      case None => ParsedList(tokens)
  {
    var es := ListEntries(tokens + [t]);
    assert es[..|tokens|] == ListEntries(tokens);
    assert es[..|tokens| + 1] == es;
    CollectPrefix(es, |tokens|);
  }

  /** One more candidate value: the earlier ones or the new one match. */
  lemma AnyValueMatchesSnoc(featureValue: string, vs: seq<string>, v: string, useContains: bool)
    ensures AnyValueMatches(featureValue, vs + [v], useContains) <==>
      AnyValueMatches(featureValue, vs, useContains) || ValueMatches(featureValue, v, useContains)
  {
    var vs' := vs + [v];
    if AnyValueMatches(featureValue, vs', useContains) {
      var j :| 0 <= j < |vs'| && ValueMatches(featureValue, vs'[j], useContains);
      if j < |vs| {
        assert vs'[j] == vs[j];
      }
    }
    if AnyValueMatches(featureValue, vs, useContains) {
      var j :| 0 <= j < |vs| && ValueMatches(featureValue, vs[j], useContains);
      assert vs'[j] == vs[j];
    }
    assert vs'[|vs|] == v;
  }

  /** A match among the first `j` candidates is a match among all of them, and having
      looked at all of them is looking at the whole list. */
  lemma AnyValueMatchesPrefix(featureValue: string, vs: seq<string>, j: nat, useContains: bool)
    requires j <= |vs|
    ensures AnyValueMatches(featureValue, vs[..j], useContains) ==> AnyValueMatches(featureValue, vs, useContains)
    ensures j == |vs| ==> vs[..j] == vs
  {
    if AnyValueMatches(featureValue, vs[..j], useContains) {
      var l :| 0 <= l < j && ValueMatches(featureValue, vs[..j][l], useContains);
      assert vs[..j][l] == vs[l];
    }
  }

  /** Found over one more entry: the earlier entries or the new one match. */
  lemma FoundSnoc(attrs: Attributes, m: Assoc<seq<string>>, e: (string, seq<string>), useContains: bool)
    ensures Found(attrs, m + [e], useContains) <==> Found(attrs, m, useContains) || EntryMatches(attrs, e, useContains)
  {
    var m' := m + [e];
    if Found(attrs, m', useContains) {
      var i :| 0 <= i < |m'| && EntryMatches(attrs, m'[i], useContains);
      if i < |m| {
        assert m'[i] == m[i];
      }
    }
    if Found(attrs, m, useContains) {
      var i :| 0 <= i < |m| && EntryMatches(attrs, m[i], useContains);
      assert m'[i] == m[i];
    }
    assert m'[|m|] == e;
  }

  /** Entries are combined with OR: one more token with a key not yet in the list finds a
      match exactly when the list did or the new entry matches. */
  lemma NewKeyOr(attrs: Attributes, tokens: seq<string>, t: string, useContains: bool)
    requires ListEntry(t).Some? && ListEntry(t).value.0 !in Keys(ParsedList(tokens))
    ensures Found(attrs, ParsedList(tokens + [t]), useContains) <==>
      Found(attrs, ParsedList(tokens), useContains) || EntryMatches(attrs, ListEntry(t).value, useContains)
  {
    var e := ListEntry(t).value;
    ParsedListSnoc(tokens, t);
    PutNewKey(ParsedList(tokens), e.0, e.1);
    FoundSnoc(attrs, ParsedList(tokens), e, useContains);
  }

  /** A token "k=v" with a plain key and value gives the entry (k, [v]). */
  lemma TokenListEntry(k: string, v: string)
    requires |k| > 0 && IsTrimmed(k) && IsTrimmed(v) && '=' !in k && ',' !in v
    ensures ListEntry(k + "=" + v) == Some((k, [v]))
  {
    var t := k + "=" + v;
    assert t[|k|] == '=';
    assert t[..|k|] == k;
    assert t[|k| + 1..] == v;
    assert '=' !in t[..|k|];
  }

  /** A single token parses to its entry. */
  lemma OneTokenList(t: string, e: (string, seq<string>))
    requires ListEntry(t) == Some(e)
    ensures ParsedList([t]) == [e]
  {
    ParsedListSnoc([], t);
    assert [] + [t] == [t];
  }

  /** A second token with the key of the first replaces its values. */
  lemma SecondTokenList(ta: string, tb: string, k: string, a: seq<string>, b: seq<string>)
    requires ParsedList([ta]) == [(k, a)] && ListEntry(tb) == Some((k, b))
    ensures ParsedList([ta, tb]) == [(k, b)]
  {
    ParsedListSnoc([ta], tb);
    assert [ta] + [tb] == [ta, tb];
  }

  /** A later token with a key already present replaces that key's values, so adding a
      token can also turn a match into no match: a token for k=a finds an attribute k=a,
      while that token followed by one for k=b does not (TokenListEntry shows that "k=a"
      and "k=b" are such tokens). */
  lemma RepeatedKeyOverwrites(ta: string, tb: string, k: string, a: string, b: string)
    requires ListEntry(ta) == Some((k, [a])) && ListEntry(tb) == Some((k, [b])) && a != b
    ensures Found([(k, a)], ParsedList([ta]), false)
    ensures !Found([(k, a)], ParsedList([ta, tb]), false)
  {
    OneTokenList(ta, (k, [a]));
    SecondTokenList(ta, tb, k, [a], [b]);
    SingleEntryFound([(k, a)], (k, [a]), false);
    SingleEntryFound([(k, a)], (k, [b]), false);
    ExactMatchOne(k, a, [a]);
    ExactMatchOne(k, a, [b]);
  }

  /** A list of one entry finds a match exactly when that entry matches. */
  lemma SingleEntryFound(attrs: Attributes, e: (string, seq<string>), useContains: bool)
    ensures Found(attrs, [e], useContains) <==> EntryMatches(attrs, e, useContains)
  {
    if EntryMatches(attrs, e, useContains) {
      assert [e][0] == e;
    }
  }

  /** Against the single attribute k=a, an exact-match entry for k matches iff it lists a. */
  lemma ExactMatchOne(k: string, a: string, vs: seq<string>)
    ensures EntryMatches([(k, a)], (k, vs), false) <==> a in vs
  {
    assert Get([(k, a)], k) == Some(a);
    if a in vs {
      var j :| 0 <= j < |vs| && vs[j] == a;
      assert ValueMatches(a, vs[j], false);
    }
  }

  // ---------------------------------------------------------------- the dispatch

  /** The column labels filteringLine recognises, spelled exactly. */
  const Labels: set<string> := {"ID", "Type", "Chromosome", "Region", "Attributes", "Source"}

  /** filteringLine: the decision for the named column. A label outside `Labels`, in any
      other spelling, drops every feature; the region filter throws on a bad bound list,
      and the ID filter throws on a feature without an ID. */
  function Filtering(d: FeatureData, column: string, values: seq<string>, delete: bool, useContains: bool)
    : (r: Result<bool>)
    ensures column !in Labels ==> r == Success(false)
    ensures r.Failure? ==> column == "Region" || (column == "ID" && d.ID().None?)
    ensures r.Failure? ==> r.error == NumberFormat || r.error == IndexOutOfBounds || r.error == NullPointer
    ensures column == "ID" && d.ID().None? ==> r == Failure(NullPointer)
    ensures column == "ID" && d.ID().Some? ==> r == Success((d.ID().value in values) != delete)
    ensures column == "Type" ==> r == Success((d.featureType in values) != delete)
    ensures column == "Chromosome" ==> r == Success((d.seqId in values) != delete)
    ensures column == "Source" ==> r == Success((d.source in values) != delete)
    ensures column == "Attributes" ==> r == Success(Found(d.attributes, ParsedList(values), useContains) != delete)
  {
    if column == "ID" then FilterLine(d.ID(), values, delete)
    else if column == "Type" then FilterLine(Some(d.featureType), values, delete)
    else if column == "Chromosome" then Success(FilterChromosome(d.seqId, values, delete))
    else if column == "Region" then RegionFrom(d, values, 0)
    else if column == "Attributes" then Success(Found(d.attributes, ParsedList(values), useContains) != delete)
    else if column == "Source" then FilterLine(Some(d.source), values, delete)
    else Success(false)
  }

  /** For every label but "Region", flipping `delete` negates the decision, except that a
      feature without an ID throws under the ID label either way; the region decision does
      not read `delete` at all. */
  lemma DeleteNegates(d: FeatureData, column: string, values: seq<string>, useContains: bool)
    ensures column != "Region" && !(column == "ID" && d.ID().None?) ==>
      Filtering(d, column, values, false, useContains).Success?
    ensures column in Labels && column != "Region" && !(column == "ID" && d.ID().None?) ==>
      Filtering(d, column, values, true, useContains) == Success(!Filtering(d, column, values, false, useContains).value)
    ensures column == "Region" || (column == "ID" && d.ID().None?) ==>
      Filtering(d, column, values, true, useContains) == Filtering(d, column, values, false, useContains)
  {
  }

  /** filteringLine, calling the loop implementations of filterRegion and
      filterAttributes. */
  method FilteringLine(d: FeatureData, column: string, values: seq<string>, delete: bool, useContains: bool)
    returns (r: Result<bool>)
    ensures r == Filtering(d, column, values, delete, useContains)
  {
    if column == "Region" {
      r := FilterRegion(d, values, delete);
    } else if column == "Attributes" {
      var keep := FilterAttributes(d.attributes, values, delete, useContains);
      r := Success(keep);
    } else {
      r := Filtering(d, column, values, delete, useContains);
    }
  }
}
