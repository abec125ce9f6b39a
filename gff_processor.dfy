/** GffProcessor.java of the filter package: the streaming filter. Each comment line goes
    straight to the header output, each other line is read into a feature, judged by
    filteringLine for the filter entry, and written out when kept. The reader is shared by
    all filter entries, so the first entry consumes the whole file and later entries see
    no lines. An exception from reading a line, from the region filter or from the ID
    filter meeting a feature without an ID (the value lists are immutable List.of lists,
    which refuse a null probe) is not caught: it ends the run with whatever was written
    before it.

    The file reader is a sequence of lines and a position in it; the two writers are the
    `headers` and `written` sequences of `Output`. */
module GffProcessor {
  import opened Wrappers
  import opened JavaText
  import opened Assoc
  import opened Features
  import opened GffParser
  import opened GffParserExs
  import opened FilterEngine
  import MapListConverter

  /** What a run has written so far, and the exception that ended it, if any. */
  datatype Output = Output(headers: seq<string>, written: seq<FeatureData>, error: Option<Exception>)

  /** The body of the read loop for one line. */
  function StreamStep(o: Output, line: string, key: string, values: seq<string>, delete: bool, useContains: bool)
    : (r: Output)
    requires o.error.None?
    ensures StartsWith(line, "#") ==> r == o.(headers := o.headers + [line])
    ensures !StartsWith(line, "#") ==> r.headers == o.headers
    ensures r.error.None? ==> |o.written| <= |r.written| <= |o.written| + 1
    ensures r.error.Some? ==> r.written == o.written && r.headers == o.headers
    ensures r.error.Some? ==>
      r.error.value == IndexOutOfBounds || r.error.value == NumberFormat || r.error.value == NullPointer
    ensures |r.written| == |o.written| + 1 ==>
      ReadColumns(line).Success? && r.written[|o.written|] == ReadColumns(line).value
      && Filtering(ReadColumns(line).value, key, values, delete, useContains) == Success(true)
  {
    if StartsWith(line, "#") then o.(headers := o.headers + [line])
    else match ReadColumns(line)
      case Failure(e) => o.(error := Some(e))
      case Success(d) =>
        match Filtering(d, key, values, delete, useContains)
        case Failure(e) => o.(error := Some(e))
        case Success(keep) => if keep then o.(written := o.written + [d]) else o
  }

  /** A line stops the run with NullPointerException only when it is a data line that
      reads as a feature without an ID and the filter is on the ID column. */
  lemma StreamStepNullPointer(o: Output, line: string, key: string, values: seq<string>, delete: bool,
                              useContains: bool)
    requires o.error.None?
    ensures StreamStep(o, line, key, values, delete, useContains).error == Some(NullPointer) <==>
      !StartsWith(line, "#") && ReadColumns(line).Success? && key == "ID" && ReadColumns(line).value.ID().None?
  {
  }

  /** The read loop over the lines of a file for one filter entry, stopping at the first
      exception. */
  function Stream(lines: seq<string>, key: string, values: seq<string>, delete: bool, useContains: bool)
    : (o: Output)
    decreases |lines|
  {
    if |lines| == 0 then Output([], [], None)
    else
      var o := Stream(lines[..|lines| - 1], key, values, delete, useContains);
      if o.error.Some? then o else StreamStep(o, lines[|lines| - 1], key, values, delete, useContains)
  }

  /** A run writes at most one output per line, only comment lines as headers, and stops
      only on a parse, region or null-ID exception. */
  lemma {:induction false} StreamShape(lines: seq<string>, key: string, values: seq<string>, delete: bool,
                                       useContains: bool)
    ensures var o := Stream(lines, key, values, delete, useContains);
      && |o.headers| + |o.written| <= |lines|
      && (forall i :: 0 <= i < |o.headers| ==> StartsWith(o.headers[i], "#"))
      && (o.error.Some? ==>
            o.error.value == IndexOutOfBounds || o.error.value == NumberFormat || o.error.value == NullPointer)
    decreases |lines|
  {
    if |lines| > 0 {
      StreamShape(lines[..|lines| - 1], key, values, delete, useContains);
    }
  }

  /** gffParser: nothing is read when the filter map is empty; otherwise the first entry
      reads the whole file and the others find the reader at its end. */
  function ProcessSpec(filter: Assoc<seq<string>>, lines: seq<string>, delete: bool, useContains: bool)
    : (o: Output)
    ensures |filter| == 0 ==> o == Output([], [], None)
    ensures |filter| > 0 ==> o == Stream(lines, filter[0].0, filter[0].1, delete, useContains)
  {
    if |filter| == 0 then Output([], [], None)
    else Stream(lines, filter[0].0, filter[0].1, delete, useContains)
  }

  // ---------------------------------------------------------------- properties

  lemma StreamPrefix(lines: seq<string>, key: string, values: seq<string>, delete: bool, useContains: bool, i: nat)
    requires i < |lines|
    ensures Stream(lines[..i + 1], key, values, delete, useContains) ==
      var o := Stream(lines[..i], key, values, delete, useContains);
      if o.error.Some? then o else StreamStep(o, lines[i], key, values, delete, useContains)
  {
    assert lines[..i + 1][..i] == lines[..i];
  }

  lemma StreamPrefixStopped(lines: seq<string>, key: string, values: seq<string>, delete: bool, useContains: bool,
                            i: nat)
    requires i < |lines| && Stream(lines[..i], key, values, delete, useContains).error.Some?
    ensures Stream(lines[..i + 1], key, values, delete, useContains) == Stream(lines[..i], key, values, delete, useContains)
  {
    assert lines[..i + 1][..i] == lines[..i];
  }

  /** Once a line has thrown, the rest of the file is not read. */
  lemma {:induction false} StreamStops(lines: seq<string>, key: string, values: seq<string>, delete: bool,
                                        useContains: bool, i: nat)
    requires i <= |lines| && Stream(lines[..i], key, values, delete, useContains).error.Some?
    ensures Stream(lines, key, values, delete, useContains) == Stream(lines[..i], key, values, delete, useContains)
    decreases |lines| - i
  {
    if i < |lines| {
      StreamPrefixStopped(lines, key, values, delete, useContains, i);
      StreamStops(lines, key, values, delete, useContains, i + 1);
    } else {
      assert lines[..i] == lines;
    }
  }

  /** Every comment line before the first exception goes to the header output, in file
      order; after a run without an exception that is every comment line of the file. */
  lemma {:induction false} StreamHeaders(lines: seq<string>, key: string, values: seq<string>, delete: bool,
                                         useContains: bool)
    ensures Stream(lines, key, values, delete, useContains).error.None? ==>
      Stream(lines, key, values, delete, useContains).headers == Comments(lines)
    decreases |lines|
  {
    if |lines| > 0 {
      StreamHeaders(lines[..|lines| - 1], key, values, delete, useContains);
    }
  }

  /** Every written feature was read from a data line and kept by filteringLine. */
  lemma {:induction false} StreamKept(lines: seq<string>, key: string, values: seq<string>, delete: bool,
                                      useContains: bool)
    ensures forall i :: 0 <= i < |Stream(lines, key, values, delete, useContains).written| ==>
      Filtering(Stream(lines, key, values, delete, useContains).written[i], key, values, delete, useContains)
        == Success(true)
    decreases |lines|
  {
    if |lines| > 0 {
      StreamKept(lines[..|lines| - 1], key, values, delete, useContains);
    }
  }

  /** The data lines of a file: those that do not start with '#'. */
  function DataLines(lines: seq<string>): (n: nat)
    ensures n + |Comments(lines)| == |lines|
    decreases |lines|
  {
    if |lines| == 0 then 0
    else if StartsWith(lines[|lines| - 1], "#") then DataLines(lines[..|lines| - 1])
    else DataLines(lines[..|lines| - 1]) + 1
  }

  /** For every label but "Region", the keep run and the delete run read the file alike:
      they throw at the same line with the same exception and write the same headers, and
      after a run without an exception every data line is written by exactly one of them. */
  lemma {:induction false} DeleteComplements(lines: seq<string>, key: string, values: seq<string>, useContains: bool)
    requires key in Labels && key != "Region"
    ensures Stream(lines, key, values, true, useContains).error == Stream(lines, key, values, false, useContains).error
    ensures Stream(lines, key, values, true, useContains).headers == Stream(lines, key, values, false, useContains).headers
    ensures Stream(lines, key, values, false, useContains).error.None? ==>
      |Stream(lines, key, values, false, useContains).written| + |Stream(lines, key, values, true, useContains).written|
        == DataLines(lines)
    decreases |lines|
  {
    if |lines| > 0 {
      var front := lines[..|lines| - 1];
      DeleteComplements(front, key, values, useContains);
      var line := lines[|lines| - 1];
      if !StartsWith(line, "#") && ReadColumns(line).Success? {
        DeleteNegates(ReadColumns(line).value, key, values, useContains);
      }
    }
  }

  /** The features a run keeps out of a list of features, in list order. */
  function Selected(ds: seq<FeatureData>, key: string, values: seq<string>, delete: bool, useContains: bool)
    : (r: seq<FeatureData>)
    ensures |r| <= |ds|
    ensures forall d :: d in r <==> d in ds && Filtering(d, key, values, delete, useContains) == Success(true)
    decreases |ds|
  {
    if |ds| == 0 then []
    else
      var front := Selected(ds[..|ds| - 1], key, values, delete, useContains);
      assert ds == ds[..|ds| - 1] + [ds[|ds| - 1]];
      if Filtering(ds[|ds| - 1], key, values, delete, useContains) == Success(true) then front + [ds[|ds| - 1]]
      else front
  }

  /** The selection works feature by feature, so it keeps the relative order: the
      selection of a concatenation is the concatenation of the selections. */
  lemma {:induction false} SelectedAppend(ds: seq<FeatureData>, es: seq<FeatureData>, key: string,
                                          values: seq<string>, delete: bool, useContains: bool)
    ensures Selected(ds + es, key, values, delete, useContains) ==
      Selected(ds, key, values, delete, useContains) + Selected(es, key, values, delete, useContains)
    decreases |es|
  {
    if |es| == 0 {
      assert ds + es == ds;
    } else {
      var front := es[..|es| - 1];
      SelectedAppend(ds, front, key, values, delete, useContains);
      assert (ds + es)[..|ds + es| - 1] == ds + front;
      assert (ds + es)[|ds + es| - 1] == es[|es| - 1];
    }
  }

  /** Filtering a file of features as toGffFormat writes them writes exactly the features
      the filter keeps, in file order, when no region bound is unparsable or unpaired. */
  lemma {:induction false} StreamWrittenFeatures(ds: seq<FeatureData>, key: string, values: seq<string>,
                                                 delete: bool, useContains: bool)
    requires forall i :: 0 <= i < |ds| ==> WritableData(ds[i])
    requires forall i :: 0 <= i < |ds| ==> Filtering(ds[i], key, values, delete, useContains).Success?
    ensures Stream(GffLines(ds), key, values, delete, useContains) ==
      Output([], Selected(ds, key, values, delete, useContains), None)
    decreases |ds|
  {
    if |ds| > 0 {
      var front := ds[..|ds| - 1];
      var last := ds[|ds| - 1];
      var lines := GffLines(ds);
      StreamWrittenFeatures(front, key, values, delete, useContains);
      assert lines[..|ds| - 1] == GffLines(front);
      assert lines[|ds| - 1] == GffLine(last);
      ReadColumnsWritten(last);
      GffLineNotComment(last);
      var o := Stream(GffLines(front), key, values, delete, useContains);
      assert Stream(lines, key, values, delete, useContains)
          == StreamStep(o, GffLine(last), key, values, delete, useContains);
    }
  }

  /** A filter with more than one entry filters by its first entry only. */
  lemma OnlyFirstEntry(filter: Assoc<seq<string>>, lines: seq<string>, delete: bool, useContains: bool)
    requires |filter| > 0
    ensures ProcessSpec(filter, lines, delete, useContains) == ProcessSpec(filter[..1], lines, delete, useContains)
  {
  }

  /** A filter argument without '=' converts to an empty map, and then nothing at all is
      written, not even the header lines. */
  lemma NoEqualsWritesNothing(value: string, lines: seq<string>, delete: bool, useContains: bool)
    requires '=' !in value
    ensures ProcessSpec(MapListConverter.Convert(value), lines, delete, useContains) == Output([], [], None)
  {
  }

  // ---------------------------------------------------------------- the processor

  /** The read loop of gffParser for one filter entry: it reads the shared reader from
      position `start` to the end of the file, or until a line throws. A reader already at
      the end reads nothing. */
  method ReadEntry(lines: seq<string>, start: nat, before: Output, key: string, values: seq<string>,
                   delete: bool, useContains: bool)
    returns (pos: nat, out: Output)
    requires start <= |lines|
    requires start < |lines| ==> before == Stream(lines[..start], key, values, delete, useContains) && before.error.None?
    ensures start == |lines| ==> pos == start && out == before
    ensures start < |lines| ==> out == Stream(lines, key, values, delete, useContains)
    ensures out.error.None? ==> pos == |lines|
  {
    pos := start;
    out := before;
    while pos < |lines|
      invariant start <= pos <= |lines|
      invariant start < |lines| ==> out == Stream(lines[..pos], key, values, delete, useContains) && out.error.None?
      invariant start == |lines| ==> out == before
    {
      var line := lines[pos];
      StreamPrefix(lines, key, values, delete, useContains, pos);
      ghost var next := StreamStep(out, line, key, values, delete, useContains);
      pos := pos + 1;
      if StartsWith(line, "#") {
        out := out.(headers := out.headers + [line]);
      } else {
        var row := ReadColumnsOf(line);
        if row.Failure? {
          out := out.(error := Some(row.error));
          assert out == next;
          StreamStops(lines, key, values, delete, useContains, pos);
          return;
        }
        var keep := FilteringLine(row.value, key, values, delete, useContains);
        if keep.Failure? {
          out := out.(error := Some(keep.error));
          assert out == next;
          StreamStops(lines, key, values, delete, useContains, pos);
          return;
        }
        if keep.value {
          out := out.(written := out.written + [row.value]);
        }
      }
      assert out == next;
    }
    if start < |lines| {
      assert lines[..pos] == lines;
    }
  }

  /** gffParser, with one reader shared by the loop over the filter entries; an exception
      ends the run. */
  method Process(filter: Assoc<seq<string>>, lines: seq<string>, delete: bool, useContains: bool)
    returns (out: Output)
    ensures out == ProcessSpec(filter, lines, delete, useContains)
  {
    out := Output([], [], None);
    var pos := 0;
    for e := 0 to |filter|
      invariant 0 <= pos <= |lines|
      invariant e == 0 ==> pos == 0 && out == Output([], [], None)
      invariant e > 0 ==> pos == |lines| && out == ProcessSpec(filter, lines, delete, useContains)
    {
      var key, values := filter[e].0, filter[e].1;
      if e == 0 && pos < |lines| {
        assert lines[..pos] == [];
      }
      pos, out := ReadEntry(lines, pos, out, key, values, delete, useContains);
      if out.error.Some? {
        return;
      }
    }
  }
}
