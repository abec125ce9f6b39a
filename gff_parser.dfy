/** GffParser.java (package nl.bioinf.alpruis): reads GFF3 lines into features, keeps a
    map from ID to feature, and links every new feature as a child of its Parent, or of the
    first enclosing "region" when it has no Parent attribute.

    The specification side describes one parsing session as a value (`SessionState`) and
    one line as a function on it (`LineSpec`); the class `ParseSession` holds the Java
    method's mutable list and map, and its methods are proved to follow those functions. */
module GffParser {
  import opened Wrappers
  import opened JavaText
  import opened Assoc
  import opened Features

  // ---------------------------------------------------------------- attribute column

  /** The entry a token contributes: `key=value` split on '=' into exactly two pieces, both
      trimmed; any other token is reported and skipped. */
  function AttributeEntry(token: string): (r: Option<(string, string)>)
    ensures r.Some? <==> |JavaSplit(token, '=')| == 2
    ensures r.Some? ==> IsTrimmed(r.value.0) && IsTrimmed(r.value.1)
  {
    var kv := JavaSplit(token, '=');
    if |kv| == 2 then Some((Trim(kv[0]), Trim(kv[1]))) else None
  }

  /** The entry each token contributes, in token order. */
  function EntriesOf(tokens: seq<string>): (es: seq<Option<(string, string)>>)
    ensures |es| == |tokens|
    ensures forall i :: 0 <= i < |tokens| ==> es[i] == AttributeEntry(tokens[i])
  {
    seq(|tokens|, i requires 0 <= i < |tokens| => AttributeEntry(tokens[i]))
  }

  /** What parseAttributes builds from the tokens of the attribute column. */
  function AttributesOf(tokens: seq<string>): Attributes {
    Collect(EntriesOf(tokens))
  }

  /** parseAttributes */
  method ParseAttributes(tokens: seq<string>) returns (attrs: Attributes)
    ensures attrs == AttributesOf(tokens)
  {
    attrs := [];
    var i := 0;
    while i < |tokens|
      invariant 0 <= i <= |tokens|
      invariant attrs == Collect(EntriesOf(tokens)[..i])
    {
      assert EntriesOf(tokens)[..i + 1][..i] == EntriesOf(tokens)[..i];
      var kv := JavaSplit(tokens[i], '=');
      if |kv| == 2 {
        attrs := Put(attrs, Trim(kv[0]), Trim(kv[1]));
      }
      i := i + 1;
    }
    assert EntriesOf(tokens)[..i] == EntriesOf(tokens);
  }

  /** parseAttributes keeps, for every key, the value of the last token that names it:
      a later "k=v" overwrites an earlier one, and a key no token names is absent. */
  lemma {:induction false} AttributesOfLastWins(tokens: seq<string>, k: string)
    ensures Get(AttributesOf(tokens), k) == LastValue(EntriesOf(tokens), k)
  {
    CollectLastWins(EntriesOf(tokens), k);
  }

  /** Attributes that survive being written by atributesToString and read back: distinct
      trimmed keys, trimmed non-empty values, and neither ';' nor '=' inside. */
  predicate Writable(attrs: Attributes) {
    && DistinctKeys(attrs)
    && forall i :: 0 <= i < |attrs| ==>
         && IsTrimmed(attrs[i].0) && IsTrimmed(attrs[i].1) && attrs[i].1 != ""
         && ';' !in attrs[i].0 && ';' !in attrs[i].1
         && '=' !in attrs[i].0 && '=' !in attrs[i].1
  }

  /** One token written as "k=v" reads back as the entry (k, v). */
  lemma TokenEntry(k: string, v: string)
    requires IsTrimmed(k) && IsTrimmed(v) && v != "" && '=' !in k && '=' !in v
    ensures AttributeEntry(EntryToken((k, v))) == Some((k, v))
  {
    assert EntryToken((k, v)) == Join([k, v], '=');
    JavaSplitJoin([k, v], '=');
  }

  function Present(attrs: Attributes): (es: seq<Option<(string, string)>>)
    ensures |es| == |attrs|
    ensures forall i :: 0 <= i < |attrs| ==> es[i] == Some(attrs[i])
  {
    seq(|attrs|, i requires 0 <= i < |attrs| => Some(attrs[i]))
  }

  /** The last key of distinct-keyed attributes is not among the earlier ones. */
  lemma LastKeyNew(attrs: Attributes)
    requires DistinctKeys(attrs) && |attrs| > 0
    ensures attrs[|attrs| - 1].0 !in Keys(attrs[..|attrs| - 1])
  {
    var n := |attrs| - 1;
    var p := attrs[..n];
    forall i | 0 <= i < n ensures Keys(p)[i] != attrs[n].0 {
      KeyAt(p, i);
      assert p[i] == attrs[i];
    }
  }

  /** Putting distinct keys one after another rebuilds the entries in order. */
  lemma {:induction false} CollectPresent(attrs: Attributes)
    requires DistinctKeys(attrs)
    ensures Collect(Present(attrs)) == attrs
    decreases |attrs|
  {
    if |attrs| > 0 {
      var n := |attrs| - 1;
      var p := attrs[..n];
      var e := attrs[n];
      calc {
        Collect(Present(attrs));
        { assert Present(attrs) == Present(p) + [Some(e)]; CollectSnoc(Present(p), e); }
        Put(Collect(Present(p)), e.0, e.1);
        { assert DistinctKeys(p) by { assert forall i :: 0 <= i < n ==> p[i] == attrs[i]; }
          CollectPresent(p); }
        Put(p, e.0, e.1);
        { LastKeyNew(attrs); PutNewKey(p, e.0, e.1); }
        p + [e];
      }
      assert p + [e] == attrs;
    }
  }

  /** Reading back the "key=value" tokens of writable attributes gives the same map, in
      the same order. */
  lemma AttributesOfTokens(attrs: Attributes)
    requires Writable(attrs)
    ensures AttributesOf(Tokens(attrs)) == attrs
  {
    var ts := Tokens(attrs);
    forall i | 0 <= i < |attrs| ensures EntriesOf(ts)[i] == Present(attrs)[i] {
      TokenEntry(attrs[i].0, attrs[i].1);
    }
    assert EntriesOf(ts) == Present(attrs);
    CollectPresent(attrs);
  }

  // ---------------------------------------------------------------- one session, as a value

  /** The parsed rows in file order, each row's child IDs, and the ID map (the index of the
      row each ID maps to). */
  datatype SessionState = SessionState(
    rows: seq<FeatureData>,
    children: seq<seq<Option<string>>>,
    ids: map<string, nat>)

  const EmptySession := SessionState([], [], map[])

  /** One child list per row, and every registered ID points at a row. */
  predicate WellFormed(st: SessionState) {
    |st.children| == |st.rows| && forall k :: k in st.ids ==> st.ids[k] < |st.rows|
  }

  /** What a session keeps true: one child list per row, and the ID map sends every ID that
      occurs to the LAST row carrying it. */
  predicate SessionInv(st: SessionState) {
    && WellFormed(st)
    && (forall k :: k in st.ids ==>
          && st.ids[k] < |st.rows|
          && st.rows[st.ids[k]].ID() == Some(k)
          && forall j :: st.ids[k] < j < |st.rows| ==> st.rows[j].ID() != Some(k))
    && (forall j :: 0 <= j < |st.rows| && st.rows[j].ID().Some? ==> st.rows[j].ID().value in st.ids)
  }

  /** The first four conditions of linkToRegion: a region on the same sequence whose
      coordinates enclose the feature's. */
  predicate Encloses(p: FeatureData, d: FeatureData) {
    p.featureType == "region" && p.seqId == d.seqId && p.start <= d.start && p.end >= d.end
  }

  datatype ScanOutcome = NoLink | LinkTo(index: nat) | NullDeref

  /** The loop of linkToRegion from position `i` on. At an enclosing region the remaining
      conditions are evaluated left to right: the region's ID is dereferenced (a null ID
      throws), a region with the feature's own ID is passed over, and then the feature's ID
      is dereferenced (a null ID throws) and must start with "gene". */
  function RegionScan(rows: seq<FeatureData>, d: FeatureData, i: nat): (r: ScanOutcome)
    ensures r.LinkTo? ==> i <= r.index < |rows|
    decreases |rows| - i
  {
    if i >= |rows| then NoLink
    else
      var p := rows[i];
      if !Encloses(p, d) then RegionScan(rows, d, i + 1)
      else match p.ID()
        case None => NullDeref
        case Some(pid) =>
          if Some(pid) == d.ID() then RegionScan(rows, d, i + 1)
          else match d.ID()
            case None => NullDeref
            case Some(fid) => if StartsWith(fid, "gene") then LinkTo(i) else RegionScan(rows, d, i + 1)
  }

  /** What the region search finds. It links to the FIRST enclosing region whose ID differs
      from the feature's, and only when the feature's ID starts with "gene"; every enclosing
      region passed over before it carries the feature's own ID. It finds nothing exactly
      when every enclosing region has an ID and is either the feature's own ID or the
      feature's ID is not a gene ID. It throws only at an enclosing region when that region
      or the feature has no ID. */
  lemma {:induction false} RegionScanSpec(rows: seq<FeatureData>, d: FeatureData, i: nat)
    ensures var r := RegionScan(rows, d, i);
      r.LinkTo? ==>
        && i <= r.index < |rows| && Encloses(rows[r.index], d)
        && d.ID().Some? && StartsWith(d.ID().value, "gene") && rows[r.index].ID().Some?
        && rows[r.index].ID() != d.ID()
        && forall k :: i <= k < r.index && Encloses(rows[k], d) ==> rows[k].ID().Some? && rows[k].ID() == d.ID()
    ensures RegionScan(rows, d, i).NoLink? <==>
      forall k :: i <= k < |rows| && Encloses(rows[k], d) ==>
        rows[k].ID().Some? && (rows[k].ID() == d.ID() || (d.ID().Some? && !StartsWith(d.ID().value, "gene")))
    ensures RegionScan(rows, d, i).NullDeref? ==>
      exists k :: i <= k < |rows| && Encloses(rows[k], d) && (rows[k].ID().None? || d.ID().None?)
    decreases |rows| - i
  {
    if i < |rows| {
      RegionScanSpec(rows, d, i + 1);
    }
  }

  /** The feature appended with no children, its ID (when it has one) registered to it. */
  function Appended(st: SessionState, d: FeatureData): (r: SessionState)
    requires WellFormed(st)
    ensures WellFormed(r) && r.rows == st.rows + [d] && r.children == st.children + [[]]
    ensures d.ID().Some? ==> r.ids == st.ids[d.ID().value := |st.rows|]
    ensures d.ID().None? ==> r.ids == st.ids
  {
    SessionState(st.rows + [d], st.children + [[]],
                 if d.ID().Some? then st.ids[d.ID().value := |st.rows|] else st.ids)
  }

  /** addChild on row `j`: its child list grows by `x`, nothing else changes. */
  function WithChild(st: SessionState, j: nat, x: Option<string>): (r: SessionState)
    requires WellFormed(st) && j < |st.rows|
    ensures WellFormed(r) && r.rows == st.rows && r.ids == st.ids
    ensures |r.children| == |st.children| && r.children[j] == st.children[j] + [x]
    ensures forall i :: 0 <= i < |st.children| && i != j ==> r.children[i] == st.children[i]
  {
    st.(children := st.children[j := st.children[j] + [x]])
  }

  /** linkToRegion for the feature `d`: the region the scan accepts gains `d`'s ID. */
  function RegionLink(st: SessionState, d: FeatureData): (r: Result<SessionState>)
    requires WellFormed(st)
    ensures r.Success? ==> WellFormed(r.value) && r.value.rows == st.rows && r.value.ids == st.ids
    ensures r.Failure? <==> RegionScan(st.rows, d, 0).NullDeref?
    ensures r.Failure? ==> r.error == NullPointer
    ensures RegionScan(st.rows, d, 0).NoLink? ==> r == Success(st)
    ensures RegionScan(st.rows, d, 0).LinkTo? ==>
      var j := RegionScan(st.rows, d, 0).index;
      r.Success? && r.value.children == st.children[j := st.children[j] + [d.ID()]]
  {
    match RegionScan(st.rows, d, 0)
    case NoLink => Success(st)
    case LinkTo(j) => Success(WithChild(st, j, d.ID()))
    case NullDeref => Failure(NullPointer)
  }

  /** The feature `d`, already appended, is linked to its Parent if that ID is registered,
      or, without a Parent attribute, to the first enclosing region. */
  function Link(st: SessionState, d: FeatureData): (r: Result<SessionState>)
    requires WellFormed(st)
    ensures r.Success? ==> WellFormed(r.value) && r.value.rows == st.rows && r.value.ids == st.ids
    ensures r.Failure? ==> r.error == NullPointer && d.ParentID().None?
    ensures d.ParentID().Some? && d.ParentID().value in st.ids ==>
      var j := st.ids[d.ParentID().value];
      r.Success? && r.value.children == st.children[j := st.children[j] + [d.ID()]]
    ensures d.ParentID().Some? && d.ParentID().value !in st.ids ==> r == Success(st)
    ensures d.ParentID().None? ==> r == RegionLink(st, d)
  {
    match d.ParentID()
    case Some(p) => if p in st.ids then Success(WithChild(st, st.ids[p], d.ID())) else Success(st)
    case None => RegionLink(st, d)
  }

  /** The part of processLine after the feature is built: append it, register its ID, then
      link it to its Parent if that ID is registered, or, without a Parent, to the first
      enclosing region. */
  function AddSpec(st: SessionState, d: FeatureData): (r: Result<SessionState>)
    requires WellFormed(st)
    ensures r.Success? ==> r.value.rows == st.rows + [d] && WellFormed(r.value)
    ensures r.Success? ==> d.ID().Some? ==> r.value.ids == st.ids[d.ID().value := |st.rows|]
    ensures r.Success? ==> d.ID().None? ==> r.value.ids == st.ids
    ensures r.Failure? ==> r.error == NullPointer && d.ParentID().None?
    ensures var ids := Appended(st, d).ids; var ch := st.children + [[]];
      d.ParentID().Some? && d.ParentID().value in ids ==>
        var j := ids[d.ParentID().value];
        r.Success? && r.value.children == ch[j := ch[j] + [d.ID()]]
    ensures d.ParentID().Some? && d.ParentID().value !in Appended(st, d).ids ==>
      r.Success? && r.value.children == st.children + [[]]
    ensures var ch := st.children + [[]]; var scan := RegionScan(st.rows + [d], d, 0);
      d.ParentID().None? && scan.LinkTo? ==>
        r.Success? && r.value.children == ch[scan.index := ch[scan.index] + [d.ID()]]
    ensures d.ParentID().None? && RegionScan(st.rows + [d], d, 0).NoLink? ==>
      r.Success? && r.value.children == st.children + [[]]
  {
    Link(Appended(st, d), d)
  }

  /** The nine columns of a data line as a feature; a start or end that Integer.parseInt
      rejects throws NumberFormatException. */
  function ParseRow(cols: seq<string>): (r: Result<FeatureData>)
    requires |cols| >= 9
    ensures r.Failure? <==> ParseInt(cols[3]).None? || ParseInt(cols[4]).None?
    ensures r.Failure? ==> r.error == NumberFormat
  {
    var start := ParseInt(cols[3]);
    var end := ParseInt(cols[4]);
    if start.None? || end.None? then Failure(NumberFormat)
    else Success(FeatureData(cols[0], cols[1], cols[2], start.value, end.value, cols[5], cols[6], cols[7],
                             AttributesOf(JavaSplit(cols[8], ';'))))
  }

  /** The first half of processLine: the feature a line describes, if any. Comment lines
      and lines that do not split into exactly nine tab-separated columns describe none; a
      start or end that is not an int throws NumberFormatException. */
  function LineRow(line: string): (r: Result<Option<FeatureData>>)
    ensures StartsWith(line, "#") ==> r == Success(None)
    ensures !StartsWith(line, "#") && |JavaSplit(line, TAB)| != 9 ==> r == Success(None)
    ensures r.Failure? ==> r.error == NumberFormat
  {
    if StartsWith(line, "#") then Success(None)
    else
      var cols := JavaSplit(line, TAB);
      if |cols| != 9 then Success(None)
      else match ParseRow(cols)
        case Failure(e) => Failure(e)
        case Success(d) => Success(Some(d))
  }

  /** processLine: a line that describes no feature changes nothing; any other line adds
      its feature or throws. */
  function LineSpec(st: SessionState, line: string): (r: Result<SessionState>)
    requires WellFormed(st)
    ensures LineRow(line) == Success(None) ==> r == Success(st)
    ensures r.Success? ==> WellFormed(r.value)
    ensures r.Success? ==> |st.rows| <= |r.value.rows| <= |st.rows| + 1 && r.value.rows[..|st.rows|] == st.rows
  {
    match LineRow(line)
    case Failure(e) => Failure(e)
    case Success(None) => Success(st)
    case Success(Some(d)) =>
      var r := AddSpec(st, d);
      assert r.Success? ==> r.value.rows[..|st.rows|] == st.rows;
      r
  }

  /** gffParser over the lines of a file: the lines in order, stopping at the first
      exception, which escapes the method. */
  function ParseSpec(lines: seq<string>): (r: Result<SessionState>)
    ensures r.Success? ==> WellFormed(r.value)
    decreases |lines|
  {
    if |lines| == 0 then Success(EmptySession)
    else match ParseSpec(lines[..|lines| - 1])
      case Failure(e) => Failure(e)
      case Success(st) => LineSpec(st, lines[|lines| - 1])
  }

  // ---------------------------------------------------------------- properties of a session

  /** An exception ends the parse: the lines after it change nothing. */
  lemma {:induction false} FailureStops(lines: seq<string>, i: nat)
    requires i <= |lines|
    requires ParseSpec(lines[..i]).Failure?
    ensures ParseSpec(lines) == ParseSpec(lines[..i])
    decreases |lines| - i
  {
    if i < |lines| {
      var front := lines[..|lines| - 1];
      assert front[..i] == lines[..i];
      FailureStops(front, i);
    } else {
      assert lines[..i] == lines;
    }
  }

  /** Appending a feature keeps the ID map pointing at the last row with each ID. */
  lemma AppendedInv(st: SessionState, d: FeatureData)
    requires SessionInv(st)
    ensures SessionInv(Appended(st, d))
  {
    var st' := Appended(st, d);
    var n := |st.rows|;
    forall k | k in st'.ids
      ensures st'.ids[k] < |st'.rows| && st'.rows[st'.ids[k]].ID() == Some(k)
      ensures forall j :: st'.ids[k] < j < |st'.rows| ==> st'.rows[j].ID() != Some(k)
    {
      if d.ID() != Some(k) {
        assert k in st.ids;
      }
    }
    forall j | 0 <= j < |st'.rows| && st'.rows[j].ID().Some?
      ensures st'.rows[j].ID().value in st'.ids
    {
      if j < n {
        assert st'.rows[j] == st.rows[j];
      }
    }
  }

  /** Adding a feature keeps the ID map pointing at the last row with each ID: linking
      changes only child lists, which the invariant does not constrain. */
  lemma AddSpecInv(st: SessionState, d: FeatureData)
    requires SessionInv(st)
    requires AddSpec(st, d).Success?
    ensures SessionInv(AddSpec(st, d).value)
  {
    AppendedInv(st, d);
  }

  lemma LineSpecInv(st: SessionState, line: string)
    requires SessionInv(st)
    requires LineSpec(st, line).Success?
    ensures SessionInv(LineSpec(st, line).value)
  {
    if LineRow(line).Success? && LineRow(line).value.Some? {
      AddSpecInv(st, LineRow(line).value.value);
    }
  }

  /** After any successful parse the ID map sends each ID to the last feature carrying it
      (later features with the same ID replace earlier ones in the map). */
  lemma {:induction false} ParseSpecInv(lines: seq<string>)
    requires ParseSpec(lines).Success?
    ensures SessionInv(ParseSpec(lines).value)
    decreases |lines|
  {
    if |lines| > 0 {
      var front := lines[..|lines| - 1];
      ParseSpecInv(front);
      LineSpecInv(ParseSpec(front).value, lines[|lines| - 1]);
    }
  }

  /** How adding a feature changes the child lists: the new feature starts with none, and
      at most one list gains the new feature's ID at its end. That list belongs to the row
      the Parent ID is registered to (the new row itself when a feature names itself as
      its Parent), or, without a Parent attribute, to the first enclosing region whose ID
      differs from the feature's, provided the feature's ID starts with "gene". A Parent
      that is not registered yet (a forward reference) links nothing. */
  lemma AddSpecChildren(st: SessionState, d: FeatureData)
    requires SessionInv(st)
    requires AddSpec(st, d).Success?
    ensures var st' := AddSpec(st, d).value;
      var ch := st.children + [[]];
      || st'.children == ch
      || exists j :: 0 <= j < |ch| && st'.children == ch[j := ch[j] + [d.ID()]]
           && if d.ParentID().Some? then d.ParentID().value in st'.ids && st'.ids[d.ParentID().value] == j
              else
                && Encloses(st'.rows[j], d) && d.ID().Some? && StartsWith(d.ID().value, "gene")
                && st'.rows[j].ID().Some? && st'.rows[j].ID() != d.ID()
                && forall k :: 0 <= k < j && Encloses(st'.rows[k], d) ==> st'.rows[k].ID() == d.ID()
    ensures var st' := AddSpec(st, d).value;
      d.ParentID().Some? && d.ParentID().value !in st'.ids ==> st'.children == st.children + [[]]
    ensures var st' := AddSpec(st, d).value; var ch := st.children + [[]];
      d.ParentID().Some? && d.ParentID().value in st'.ids ==>
        st'.children == ch[st'.ids[d.ParentID().value] := ch[st'.ids[d.ParentID().value]] + [d.ID()]]
    ensures var st' := AddSpec(st, d).value; var ch := st.children + [[]];
      var scan := RegionScan(st'.rows, d, 0);
      d.ParentID().None? && scan.LinkTo? ==> st'.children == ch[scan.index := ch[scan.index] + [d.ID()]]
  {
    var st' := AddSpec(st, d).value;
    var ch := st.children + [[]];
    match d.ParentID()
    case Some(p) =>
      if p in st'.ids {
        assert st'.children == ch[st'.ids[p] := ch[st'.ids[p]] + [d.ID()]];
      }
    case None =>
      RegionScanSpec(st'.rows, d, 0);
      match RegionScan(st'.rows, d, 0)
      case NoLink =>
      case LinkTo(j) =>
        assert st'.children == ch[j := ch[j] + [d.ID()]];
      case NullDeref =>
  }

  /** A feature whose ID does not start with "gene" is never linked to a region; it is
      still subject to the null checks along the way. */
  lemma NonGeneNotRegionLinked(rows: seq<FeatureData>, d: FeatureData, x: string)
    requires d.ID() == Some(x) && !StartsWith(x, "gene")
    ensures !RegionScan(rows, d, 0).LinkTo?
  {
    RegionScanSpec(rows, d, 0);
  }

  /** A feature that the writer can print and this parser can read back. */
  predicate WritableData(d: FeatureData) {
    && TabFree(d)
    && Writable(d.attributes) && |d.attributes| > 0
    && IsInt32(d.start) && IsInt32(d.end)
    && !StartsWith(d.seqId, "#")
  }

  /** The attribute column that toGffFormat writes splits and parses back into the same
      attribute map. */
  lemma AttributeColumn(attrs: Attributes)
    requires Writable(attrs) && |attrs| > 0
    ensures AttributesOf(JavaSplit(AttributeText(attrs), ';')) == attrs
  {
    assert forall i :: 0 <= i < |attrs| ==> ';' !in attrs[i].0 && ';' !in attrs[i].1;
    AttributeTextSplit(attrs);
    AttributesOfTokens(attrs);
  }

  /** The columns of a writable feature parse back into that feature. */
  lemma ParseRowColumns(d: FeatureData)
    requires Writable(d.attributes) && |d.attributes| > 0
    requires IsInt32(d.start) && IsInt32(d.end)
    ensures ParseRow(Columns(d)) == Success(d)
  {
    ParseIntToString(d.start);
    ParseIntToString(d.end);
    AttributeColumn(d.attributes);
  }

  lemma GffLineNotComment(d: FeatureData)
    requires !StartsWith(d.seqId, "#")
    ensures !StartsWith(GffLine(d), "#")
  {
    GffLineText(d);
    if |d.seqId| == 0 {
      assert GffLine(d)[0] == TAB;
    } else {
      assert GffLine(d)[0] == d.seqId[0];
    }
  }

  /** Reading back a line that toGffFormat wrote gives exactly the feature that wrote it. */
  lemma ReadGffLine(d: FeatureData)
    requires WritableData(d)
    ensures LineRow(GffLine(d)) == Success(Some(d))
  {
    GffLineNotComment(d);
    GffLineSplit(d);
    ParseRowColumns(d);
  }

  function GffLines(ds: seq<FeatureData>): (lines: seq<string>)
    ensures |lines| == |ds|
    ensures forall i :: 0 <= i < |ds| ==> lines[i] == GffLine(ds[i])
  {
    seq(|ds|, i requires 0 <= i < |ds| => GffLine(ds[i]))
  }

  lemma ParseSpecSnoc(lines: seq<string>, line: string)
    ensures ParseSpec(lines + [line]) ==
      if ParseSpec(lines).Failure? then ParseSpec(lines) else LineSpec(ParseSpec(lines).value, line)
  {
    assert (lines + [line])[..|lines|] == lines;
  }

  /** One more line of the same file: the parse so far, continued by that line. */
  lemma ParseSpecStep(lines: seq<string>, i: nat)
    requires i < |lines|
    ensures ParseSpec(lines[..i + 1]) ==
      if ParseSpec(lines[..i]).Failure? then ParseSpec(lines[..i]) else LineSpec(ParseSpec(lines[..i]).value, lines[i])
  {
    assert lines[..i + 1] == lines[..i] + [lines[i]];
    ParseSpecSnoc(lines[..i], lines[i]);
  }

  /** A non-empty sequence is its front followed by its last element. */
  lemma SnocFront<T>(s: seq<T>)
    requires |s| > 0
    ensures s[..|s| - 1] + [s[|s| - 1]] == s
  {
  }

  /** Lines that each describe one feature parse to exactly those features, in order,
      unless linking one of them throws. */
  lemma {:induction false} ParseRowLines(lines: seq<string>, ds: seq<FeatureData>)
    requires |lines| == |ds|
    requires forall i :: 0 <= i < |lines| ==> LineRow(lines[i]) == Success(Some(ds[i]))
    ensures ParseSpec(lines).Success? ==> ParseSpec(lines).value.rows == ds
    decreases |lines|
  {
    if |lines| > 0 {
      var n := |lines| - 1;
      ParseRowLines(lines[..n], ds[..n]);
      assert LineRow(lines[n]) == Success(Some(ds[n]));
      SnocFront(ds);
    }
  }

  /** Writing features with toGffFormat and parsing the lines gives the same features back
      in the same order, unless the region search meets a null ID and throws. */
  lemma ParseWrittenFeatures(ds: seq<FeatureData>)
    requires forall i :: 0 <= i < |ds| ==> WritableData(ds[i])
    ensures ParseSpec(GffLines(ds)).Success? ==> ParseSpec(GffLines(ds)).value.rows == ds
  {
    var lines := GffLines(ds);
    forall i | 0 <= i < |lines|
      ensures LineRow(lines[i]) == Success(Some(ds[i]))
    {
      ReadGffLine(ds[i]);
    }
    ParseRowLines(lines, ds);
  }

  // ---------------------------------------------------------------- the mutable session

  /** The features are distinct objects inside the footprint `repr`, and the map from ID
      to feature agrees with the ghost map from ID to position. */
  ghost predicate Linked(fs: seq<Feature>, idMap: map<string, Feature>, ids: map<string, nat>, repr: set<Feature>) {
    && (forall i, j :: 0 <= i < j < |fs| ==> fs[i] != fs[j])
    && (forall i :: 0 <= i < |fs| ==> fs[i] in repr)
    && idMap.Keys == ids.Keys
    && forall k :: k in ids ==> ids[k] < |fs| && idMap[k] == fs[ids[k]]
  }

  /** Appending a new object, and registering it under `id`, keeps the session linked. */
  lemma LinkedAppend(fs: seq<Feature>, idMap: map<string, Feature>, ids: map<string, nat>, repr: set<Feature>,
                     f: Feature, id: Option<string>)
    requires Linked(fs, idMap, ids, repr) && f !in repr
    ensures id.Some? ==> Linked(fs + [f], idMap[id.value := f], ids[id.value := |fs|], repr + {f})
    ensures id.None? ==> Linked(fs + [f], idMap, ids, repr + {f})
  {
    var fs' := fs + [f];
    assert forall i :: 0 <= i < |fs| ==> fs'[i] == fs[i];
  }

  /** The features hold the session state `st`: one feature per row, carrying that row's
      columns and child list, and the same ID registrations. */
  ghost predicate Holds(fs: seq<Feature>, ids: map<string, nat>, st: SessionState)
    reads fs
  {
    && WellFormed(st) && |fs| == |st.rows| && st.ids == ids
    && forall i :: 0 <= i < |fs| ==> fs[i].data == st.rows[i] && fs[i].children == st.children[i]
  }

  /** The LinkedList of features and the HashMap from ID to feature that gffParser keeps
      while it reads one file. */
  class ParseSession {
    var features: seq<Feature>
    var idMap: map<string, Feature>
    ghost var ids: map<string, nat>
    ghost var Repr: set<Feature>

    ghost predicate Valid()
      reads this
    {
      Linked(features, idMap, ids, Repr)
    }

    constructor ()
      ensures Valid() && Holds(features, ids, EmptySession) && Repr == {}
    {
      features := [];
      idMap := map[];
      ids := map[];
      Repr := {};
    }

    /** add: the new feature goes at the end of the list and, when it has an ID, into
        the map under that ID. */
    method Append(d: FeatureData, ghost st: SessionState) returns (f: Feature)
      requires Valid() && Holds(features, ids, st)
      modifies this
      ensures Valid() && Holds(features, ids, Appended(st, d))
      ensures features == old(features) + [f] && fresh(f) && f.data == d
      ensures Repr == old(Repr) + {f}
    {
      f := new Feature(d.seqId, d.source, d.featureType, d.start, d.end,
                       d.score, d.strand, d.phase, d.attributes);
      var id := d.ID();
      ghost var fs := features;
      ghost var st' := Appended(st, d);
      LinkedAppend(features, idMap, ids, Repr, f, id);
      if id.Some? {
        idMap := idMap[id.value := f];
        ids := ids[id.value := |features|];
      }
      features := features + [f];
      Repr := Repr + {f};
      forall i | 0 <= i < |features|
        ensures features[i].data == st'.rows[i] && features[i].children == st'.children[i]
      {
        if i < |fs| {
          assert features[i] == fs[i];
        }
      }
    }

    /** addChild on the feature `p` at position `j`: its child list grows by one ID and
        every other feature is left alone. */
    method AddChildTo(p: Feature, ghost j: nat, child: Option<string>, ghost st: SessionState)
      requires Valid() && Holds(features, ids, st) && j < |features| && p == features[j]
      modifies Repr
      ensures Valid() && features == old(features)
      ensures Holds(features, ids, WithChild(st, j, child))
    {
      p.AddChild(child);
      forall i | 0 <= i < |features| && i != j
        ensures features[i].children == old(features[i].children)
      {
        assert features[i] != p;
      }
    }

    /** linkToRegion for the feature just appended: the first region the scan accepts
        gains the feature's ID as a child; a null ID met on the way throws. */
    method LinkToRegion(f: Feature, ghost st: SessionState) returns (thrown: Option<Exception>)
      requires Valid() && Holds(features, ids, st) && |features| > 0 && f == features[|features| - 1]
      modifies Repr
      ensures Valid() && features == old(features)
      ensures thrown.None? <==> RegionLink(st, f.data).Success?
      ensures thrown.Some? ==> thrown.value == NullPointer
      ensures thrown.None? ==> Holds(features, ids, RegionLink(st, f.data).value)
    {
      var i := 0;
      while i < |features|
        invariant 0 <= i <= |features|
        invariant RegionScan(st.rows, f.data, 0) == RegionScan(st.rows, f.data, i)
      {
        var p := features[i];
        if p.data.featureType == "region" && p.data.seqId == f.data.seqId
          && p.data.start <= f.data.start && p.data.end >= f.data.end
        {
          var pid := p.data.ID();
          if pid.None? {
            return Some(NullPointer);
          }
          var fid := f.data.ID();
          if pid != fid {
            if fid.None? {
              return Some(NullPointer);
            }
            if StartsWith(fid.value, "gene") {
              AddChildTo(p, i, fid, st);
              return None;
            }
          }
        }
        i := i + 1;
      }
      return None;
    }

    /** The parent link of processLine for the feature `f` just appended: addChild on the
        registered Parent, or linkToRegion when there is no Parent attribute. */
    method LinkFeature(f: Feature, ghost st: SessionState) returns (thrown: Option<Exception>)
      requires Valid() && Holds(features, ids, st) && |features| > 0 && f == features[|features| - 1]
      modifies Repr
      ensures Valid() && features == old(features)
      ensures thrown.None? <==> Link(st, f.data).Success?
      ensures thrown.Some? ==> thrown.value == NullPointer
      ensures thrown.None? ==> Holds(features, ids, Link(st, f.data).value)
    {
      var parent := f.data.ParentID();
      if parent.Some? {
        if parent.value in idMap {
          AddChildTo(idMap[parent.value], ids[parent.value], f.data.ID(), st);
        }
        thrown := None;
      } else {
        thrown := LinkToRegion(f, st);
      }
    }

    /** The body of processLine after the columns are parsed. */
    method AddFeature(d: FeatureData, ghost st: SessionState) returns (thrown: Option<Exception>)
      requires Valid() && Holds(features, ids, st)
      modifies this, Repr
      ensures thrown.None? <==> AddSpec(st, d).Success?
      ensures thrown.Some? ==> thrown.value == AddSpec(st, d).error
      ensures thrown.None? ==> Valid() && Holds(features, ids, AddSpec(st, d).value)
      ensures fresh(Repr - old(Repr))
    {
      var f := Append(d, st);
      thrown := LinkFeature(f, Appended(st, d));
    }

    /** processLine on the session that holds `st`. */
    method ProcessLine(line: string, ghost st: SessionState) returns (thrown: Option<Exception>)
      requires Valid() && Holds(features, ids, st)
      modifies this, Repr
      ensures thrown.None? <==> LineSpec(st, line).Success?
      ensures thrown.Some? ==> thrown.value == LineSpec(st, line).error
      ensures thrown.None? ==> Valid() && Holds(features, ids, LineSpec(st, line).value)
      ensures fresh(Repr - old(Repr))
    {
      var row := ReadRow(line);
      match row
      case Failure(e) =>
        thrown := Some(e);
      case Success(None) =>
        thrown := None;
      case Success(Some(d)) =>
        thrown := AddFeature(d, st);
    }
  }

  /** The first half of processLine: the comment test, the split into columns, the two
      Integer.parseInt calls and the attribute map. */
  method ReadRow(line: string) returns (r: Result<Option<FeatureData>>)
    ensures r == LineRow(line)
  {
    if StartsWith(line, "#") {
      return Success(None);
    }
    var cols := JavaSplit(line, TAB);
    if |cols| != 9 {
      return Success(None);
    }
    var start := ParseInt(cols[3]);
    var end := ParseInt(cols[4]);
    if start.None? || end.None? {
      return Failure(NumberFormat);
    }
    var attrs := ParseAttributes(JavaSplit(cols[8], ';'));
    r := Success(Some(FeatureData(cols[0], cols[1], cols[2], start.value, end.value,
                                  cols[5], cols[6], cols[7], attrs)));
  }

  /** gffParser over the lines of a file: the features in file order, each with its
      columns and child list as the specification computes them, or the exception that
      stopped it. */
  method Parse(lines: seq<string>) returns (r: Result<seq<Feature>>)
    ensures r.Success? <==> ParseSpec(lines).Success?
    ensures r.Failure? ==> r.error == ParseSpec(lines).error
    ensures r.Success? ==> |r.value| == |ParseSpec(lines).value.rows|
    ensures r.Success? ==> forall i :: 0 <= i < |r.value| ==>
      r.value[i].data == ParseSpec(lines).value.rows[i] && r.value[i].children == ParseSpec(lines).value.children[i]
  {
    var s := new ParseSession();
    var i := 0;
    ghost var st := EmptySession;
    while i < |lines|
      invariant 0 <= i <= |lines|
      invariant fresh(s) && s.Valid() && fresh(s.Repr)
      invariant ParseSpec(lines[..i]) == Success(st) && Holds(s.features, s.ids, st)
    {
      var thrown := s.ProcessLine(lines[i], st);
      ParseSpecStep(lines, i);
      if thrown.Some? {
        FailureStops(lines, i + 1);
        return Failure(thrown.value);
      }
      st := LineSpec(st, lines[i]).value;
      i := i + 1;
    }
    assert lines[..i] == lines;
    r := Success(s.features);
  }
}
