/** GffParser.java of the filter_ex_sum package: the same parser as the root one, except
    that comment lines are collected into a header list and data lines are not checked for
    nine columns first, so a short line throws instead of being skipped.

    The attribute column, the ID map and the linking of a new feature are the root
    parser's (`GffParser.AttributesOf`, `GffParser.AddSpec`, `GffParser.ParseSession`). */
module GffParserExs {
  import opened Wrappers
  import opened JavaText
  import opened Features
  import opened GffParser

  /** What one line of the file is: a header to collect, or a feature to add. */
  datatype ExsLine = Header(text: string) | Data(row: FeatureData)

  /** The columns of a data line read in source order, with no column count check: a
      missing column throws IndexOutOfBoundsException at the first index past the end,
      unless an unparsable start or end column comes first; columns after the ninth are
      ignored. The streaming filter's parseLine reads the columns in the same order but
      reads the attribute column with the filterSE parser's parseAttributes, which is not
      part of this model; this reading stands in for it, assuming that parser reads the
      attribute column as the root parser does. */
  function ReadColumns(line: string): (r: Result<FeatureData>)
    ensures |JavaSplit(line, TAB)| < 4 ==> r == Failure(IndexOutOfBounds)
    ensures r.Success? ==> |JavaSplit(line, TAB)| >= 9
    ensures |JavaSplit(line, TAB)| >= 9 ==>
      (r.Success? <==> ParseInt(JavaSplit(line, TAB)[3]).Some? && ParseInt(JavaSplit(line, TAB)[4]).Some?)
    ensures r.Failure? ==> r.error == IndexOutOfBounds || r.error == NumberFormat
  {
    var cols := JavaSplit(line, TAB);
    if |cols| < 4 then Failure(IndexOutOfBounds)
    else if ParseInt(cols[3]).None? then Failure(NumberFormat)
    else if |cols| < 5 then Failure(IndexOutOfBounds)
    else if ParseInt(cols[4]).None? then Failure(NumberFormat)
    else if |cols| < 9 then Failure(IndexOutOfBounds)
    else ParseRow(cols)
  }

  /** The first half of processLine: a line starting with '#' is a header, any other
      line is read as columns. */
  function ExsRow(line: string): (r: Result<ExsLine>)
    ensures StartsWith(line, "#") <==> r.Success? && r.value.Header?
    ensures r.Success? && r.value.Header? ==> r.value.text == line
    ensures !StartsWith(line, "#") && |JavaSplit(line, TAB)| < 9 ==> r.Failure?
    ensures !StartsWith(line, "#") && |JavaSplit(line, TAB)| < 4 ==> r == Failure(IndexOutOfBounds)
    ensures r.Failure? ==> r.error == IndexOutOfBounds || r.error == NumberFormat
  {
    if StartsWith(line, "#") then Success(Header(line))
    else match ReadColumns(line)
      case Failure(e) => Failure(e)
      case Success(d) => Success(Data(d))
  }

  /** The parser's state: the header lines so far and the parsing session. */
  datatype ExsState = ExsState(headers: seq<string>, session: SessionState)

  /** processLine: a header is appended to the header list; a data line adds its feature
      exactly as the root parser does, or throws. */
  function ExsLineSpec(st: ExsState, line: string): (r: Result<ExsState>)
    requires WellFormed(st.session)
    ensures r.Success? ==> WellFormed(r.value.session)
    ensures StartsWith(line, "#") ==> r == Success(ExsState(st.headers + [line], st.session))
    ensures !StartsWith(line, "#") && r.Success? ==> r.value.headers == st.headers
  {
    match ExsRow(line)
    case Failure(e) => Failure(e)
    case Success(Header(h)) => Success(ExsState(st.headers + [h], st.session))
    case Success(Data(d)) =>
      match AddSpec(st.session, d)
      case Failure(e) => Failure(e)
      case Success(s) => Success(ExsState(st.headers, s))
  }

  /** gffParser over the lines of a file, stopping at the first exception. */
  function ExsParseSpec(lines: seq<string>): (r: Result<ExsState>)
    ensures r.Success? ==> WellFormed(r.value.session)
    decreases |lines|
  {
    if |lines| == 0 then Success(ExsState([], EmptySession))
    else match ExsParseSpec(lines[..|lines| - 1])
      case Failure(e) => Failure(e)
      case Success(st) => ExsLineSpec(st, lines[|lines| - 1])
  }

  // ---------------------------------------------------------------- properties

  /** The lines of a file that start with '#', in file order. */
  function Comments(lines: seq<string>): (cs: seq<string>)
    ensures |cs| <= |lines|
    ensures forall i :: 0 <= i < |cs| ==> StartsWith(cs[i], "#")
    decreases |lines|
  {
    if |lines| == 0 then []
    else if StartsWith(lines[|lines| - 1], "#") then Comments(lines[..|lines| - 1]) + [lines[|lines| - 1]]
    else Comments(lines[..|lines| - 1])
  }

  /** After a parse that does not throw, the header list holds exactly the comment lines,
      in file order. */
  lemma {:induction false} ExsHeaders(lines: seq<string>)
    ensures ExsParseSpec(lines).Success? ==> ExsParseSpec(lines).value.headers == Comments(lines)
    decreases |lines|
  {
    if |lines| > 0 {
      ExsHeaders(lines[..|lines| - 1]);
    }
  }

  /** Every line that is not a comment splits into exactly nine tab-separated columns. */
  predicate NineColumns(lines: seq<string>) {
    forall i :: 0 <= i < |lines| && !StartsWith(lines[i], "#") ==> |JavaSplit(lines[i], TAB)| == 9
  }

  /** On a single line with nine columns (or a comment), this parser reads what the root
      parser reads. */
  lemma ExsRowAgrees(line: string)
    requires !StartsWith(line, "#") ==> |JavaSplit(line, TAB)| == 9
    ensures ExsRow(line).Failure? <==> LineRow(line).Failure?
    ensures ExsRow(line).Failure? ==> ExsRow(line).error == LineRow(line).error
    ensures ExsRow(line).Success? && ExsRow(line).value.Data? ==> LineRow(line) == Success(Some(ExsRow(line).value.row))
    ensures ExsRow(line).Success? && ExsRow(line).value.Header? ==> LineRow(line) == Success(None)
  {
  }

  /** On a file whose data lines all have nine columns, the two parsers build the same
      features, child lists and ID map, and throw the same exception when they throw. */
  lemma {:induction false} ExsAgreesWithRoot(lines: seq<string>)
    requires NineColumns(lines)
    ensures ExsParseSpec(lines).Success? <==> ParseSpec(lines).Success?
    ensures ExsParseSpec(lines).Success? ==> ExsParseSpec(lines).value.session == ParseSpec(lines).value
    ensures ExsParseSpec(lines).Failure? ==> ExsParseSpec(lines).error == ParseSpec(lines).error
    decreases |lines|
  {
    if |lines| > 0 {
      var front := lines[..|lines| - 1];
      var line := lines[|lines| - 1];
      assert NineColumns(front) by {
        forall i | 0 <= i < |front| && !StartsWith(front[i], "#")
          ensures |JavaSplit(front[i], TAB)| == 9
        {
          assert front[i] == lines[i];
        }
      }
      ExsAgreesWithRoot(front);
      ExsRowAgrees(line);
    }
  }

  /** A line written by toGffFormat is read back as the same feature. */
  lemma ReadColumnsWritten(d: FeatureData)
    requires WritableData(d)
    ensures ReadColumns(GffLine(d)) == Success(d)
  {
    ReadGffLine(d);
    GffLineNotComment(d);
  }

  /** A data line with fewer than nine columns, which the root parser skips, ends this
      parse with an exception. */
  lemma ShortLineThrows(lines: seq<string>, line: string)
    requires !StartsWith(line, "#") && |JavaSplit(line, TAB)| < 9
    ensures ExsParseSpec(lines + [line]).Failure?
    ensures ParseSpec(lines + [line]) == ParseSpec(lines)
  {
    assert (lines + [line])[..|lines|] == lines;
    ParseSpecSnoc(lines, line);
  }

  lemma ExsParseSpecStep(lines: seq<string>, i: nat)
    requires i < |lines|
    ensures ExsParseSpec(lines[..i + 1]) ==
      if ExsParseSpec(lines[..i]).Failure? then ExsParseSpec(lines[..i])
      else ExsLineSpec(ExsParseSpec(lines[..i]).value, lines[i])
  {
    assert lines[..i + 1][..i] == lines[..i];
  }

  lemma {:induction false} ExsFailureStops(lines: seq<string>, i: nat)
    requires i <= |lines|
    requires ExsParseSpec(lines[..i]).Failure?
    ensures ExsParseSpec(lines) == ExsParseSpec(lines[..i])
    decreases |lines| - i
  {
    if i < |lines| {
      var front := lines[..|lines| - 1];
      assert front[..i] == lines[..i];
      ExsFailureStops(front, i);
    } else {
      assert lines[..i] == lines;
    }
  }

  // ---------------------------------------------------------------- the parser

  /** The column reads of processLine, in the order the Java code makes them. */
  method ReadColumnsOf(line: string) returns (r: Result<FeatureData>)
    ensures r == ReadColumns(line)
  {
    var cols := JavaSplit(line, TAB);
    if |cols| < 4 {
      return Failure(IndexOutOfBounds);
    }
    var start := ParseInt(cols[3]);
    if start.None? {
      return Failure(NumberFormat);
    }
    if |cols| < 5 {
      return Failure(IndexOutOfBounds);
    }
    var end := ParseInt(cols[4]);
    if end.None? {
      return Failure(NumberFormat);
    }
    if |cols| < 9 {
      return Failure(IndexOutOfBounds);
    }
    var attrs := ParseAttributes(JavaSplit(cols[8], ';'));
    r := Success(FeatureData(cols[0], cols[1], cols[2], start.value, end.value,
                             cols[5], cols[6], cols[7], attrs));
  }

  /** The first half of processLine. */
  method ReadExsRow(line: string) returns (r: Result<ExsLine>)
    ensures r == ExsRow(line)
  {
    if StartsWith(line, "#") {
      return Success(Header(line));
    }
    var d := ReadColumnsOf(line);
    match d
    case Failure(e) =>
      r := Failure(e);
    case Success(row) =>
      r := Success(Data(row));
  }

  /** processLine on a session and a header list. */
  method ExsProcessLine(s: ParseSession, headers: seq<string>, line: string, ghost st: ExsState)
    returns (thrown: Option<Exception>, headers': seq<string>)
    requires s.Valid() && Holds(s.features, s.ids, st.session) && headers == st.headers
    modifies s, s.Repr
    ensures thrown.None? <==> ExsLineSpec(st, line).Success?
    ensures thrown.Some? ==> thrown.value == ExsLineSpec(st, line).error
    ensures thrown.None? ==> s.Valid() && Holds(s.features, s.ids, ExsLineSpec(st, line).value.session)
    ensures thrown.None? ==> headers' == ExsLineSpec(st, line).value.headers
    ensures fresh(s.Repr - old(s.Repr))
  {
    headers' := headers;
    var row := ReadExsRow(line);
    match row
    case Failure(e) =>
      thrown := Some(e);
    case Success(Header(h)) =>
      headers' := headers + [h];
      thrown := None;
    case Success(Data(d)) =>
      thrown := s.AddFeature(d, st.session);
  }

  /** gffParser: the features in file order, or the exception that stopped it. The Java
      method builds the header list and drops it; it is returned here as well. */
  method ExsParse(lines: seq<string>) returns (r: Result<seq<Feature>>, headers: seq<string>)
    ensures r.Success? <==> ExsParseSpec(lines).Success?
    ensures r.Failure? ==> r.error == ExsParseSpec(lines).error
    ensures r.Success? ==> headers == ExsParseSpec(lines).value.headers
    ensures r.Success? ==> |r.value| == |ExsParseSpec(lines).value.session.rows|
    ensures r.Success? ==> forall i :: 0 <= i < |r.value| ==>
      && r.value[i].data == ExsParseSpec(lines).value.session.rows[i]
      && r.value[i].children == ExsParseSpec(lines).value.session.children[i]
  {
    var s := new ParseSession();
    headers := [];
    var i := 0;
    ghost var st := ExsState([], EmptySession);
    while i < |lines|
      invariant 0 <= i <= |lines|
      invariant fresh(s) && s.Valid() && fresh(s.Repr)
      invariant ExsParseSpec(lines[..i]) == Success(st) && Holds(s.features, s.ids, st.session)
      invariant headers == st.headers
    {
      var thrown;
      thrown, headers := ExsProcessLine(s, headers, lines[i], st);
      ExsParseSpecStep(lines, i);
      if thrown.Some? {
        ExsFailureStops(lines, i + 1);
        return Failure(thrown.value), headers;
      }
      st := ExsLineSpec(st, lines[i]).value;
      i := i + 1;
    }
    assert lines[..i] == lines;
    r := Success(s.features);
  }
}
