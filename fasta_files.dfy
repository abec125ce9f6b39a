/** FileUtils: the file-name and first-line checks of fileValidator, the FASTA sequence
    line check, and sequenceMaker, which groups the lines of a FASTA file into a map from
    header line to sequence. A file is its name and its lines; `None` stands for a file
    that cannot be opened (the IOException that fileValidator swallows). */
module FastaFiles {
  import opened Wrappers
  import opened JavaText
  import opened Assoc

  const GFF_VERSION_LINE: string := "##gff-version 3"

  /** A name that fileValidator treats as GFF. */
  predicate GffName(name: string) {
    EndsWith(name, ".gff") || EndsWith(name, ".gff3")
  }

  /** A name that fileValidator treats as FASTA. */
  predicate FastaName(name: string) {
    || EndsWith(name, ".fasta") || EndsWith(name, ".txt") || EndsWith(name, ".fna")
    || EndsWith(name, ".fas") || EndsWith(name, ".fa") || EndsWith(name, ".fnn")
    || EndsWith(name, ".faa") || EndsWith(name, ".mpfa") || EndsWith(name, ".frn")
  }

  predicate IsHeader(line: string) {
    StartsWith(line, ">")
  }

  /** A character that `[ATCGN]` matches once upper-cased. */
  predicate NucleotideChar(c: char) {
    UpperChar(c) in {'A', 'T', 'C', 'G', 'N'}
  }

  /** The test of the validator loop: the upper-cased line is a header or consists of
      nucleotide letters only (the empty line included). */
  predicate SequenceLineValid(line: string) {
    IsHeader(ToUpper(line)) || forall i :: 0 <= i < |line| ==> NucleotideChar(line[i])
  }

  /** A FASTA file's lines: a header first and valid sequence lines after it. */
  predicate FastaLinesValid(lines: seq<string>) {
    |lines| > 0 && IsHeader(lines[0]) && forall i :: 1 <= i < |lines| ==> SequenceLineValid(lines[i])
  }

  /** fileValidator's verdict. */
  predicate FileValid(name: string, file: Option<seq<string>>) {
    && file.Some?
    && |file.value| > 0
    && (if GffName(name) then file.value[0] == GFF_VERSION_LINE else FastaName(name) && FastaLinesValid(file.value))
  }

  /** fastaSequenceValidator over the lines after the first: false at the first line that
      is neither a header nor nucleotide letters, true at the end of the file. */
  method ValidateSequenceLines(lines: seq<string>) returns (ok: bool)
    ensures ok <==> forall i :: 0 <= i < |lines| ==> SequenceLineValid(lines[i])
  {
    for i := 0 to |lines|
      invariant forall j :: 0 <= j < i ==> SequenceLineValid(lines[j])
    {
      var line := ToUpper(lines[i]);
      if !IsHeader(line) && !(forall k :: 0 <= k < |lines[i]| ==> NucleotideChar(lines[i][k])) {
        return false;
      }
    }
    return true;
  }

  /** fileValidator: a GFF name needs the version line first; a FASTA name needs a header
      line first and valid sequence lines after it; any other name, an empty file or an
      unreadable one is invalid. */
  method FileValidator(name: string, file: Option<seq<string>>) returns (valid: bool)
    ensures valid == FileValid(name, file)
  {
    valid := false;
    if file.None? {
      return;
    }
    var lines := file.value;
    var firstLine: Option<string> := if |lines| > 0 then Some(lines[0]) else None;
    if GffName(name) {
      if firstLine.Some? && firstLine.value == GFF_VERSION_LINE {
        valid := true;
      }
    } else if FastaName(name) {
      if firstLine.Some? && IsHeader(firstLine.value) {
        valid := ValidateSequenceLines(lines[1..]);
        assert forall i :: 1 <= i < |lines| ==> lines[i] == lines[1..][i - 1];
      }
    }
  }

  /** The GFF check looks at the first line only: any lines may follow the version line. */
  lemma GffFirstLineOnly(name: string, rest: seq<string>)
    requires GffName(name)
    ensures FileValid(name, Some([GFF_VERSION_LINE] + rest))
    ensures forall first :: first != GFF_VERSION_LINE ==> !FileValid(name, Some([first] + rest))
  {
  }

  // ---------------------------------------------------------------- sequenceMaker

  /** The loop variables of sequenceMaker: the map so far, the current header ("" before
      the first one) and the StringBuilder of the current sequence. */
  datatype Reading = Reading(sequences: Assoc<string>, header: string, bases: string)

  const Start: Reading := Reading([], "", "")

  /** One pass of the read loop: a header line stores the previous record (if there was a
      header) and starts a new one; any other line is appended to the current sequence. */
  function Step(r: Reading, line: string): Reading {
    if IsHeader(line) then
      if r.header != "" then Reading(Put(r.sequences, r.header, r.bases), line, "")
      else r.(header := line)
    else r.(bases := r.bases + line)
  }

  /** The read loop from state `r` over `lines`. */
  function ReadFrom(r: Reading, lines: seq<string>): Reading
    decreases |lines|
  {
    if |lines| == 0 then r else Step(ReadFrom(r, lines[..|lines| - 1]), lines[|lines| - 1])
  }

  /** After the loop: the last record is stored if there was a header. */
  function Finish(r: Reading): Assoc<string> {
    if r.header != "" then Put(r.sequences, r.header, r.bases) else r.sequences
  }

  /** sequenceMaker: the grouped records of a valid file, an empty map otherwise. */
  function SequenceMap(name: string, file: Option<seq<string>>): (m: Assoc<string>)
    ensures !FileValid(name, file) ==> m == []
  {
    if FileValid(name, file) then Finish(ReadFrom(Start, file.value)) else []
  }

  method SequenceMaker(name: string, file: Option<seq<string>>) returns (sequence: Assoc<string>)
    ensures sequence == SequenceMap(name, file)
  {
    sequence := [];
    var header := "";
    var bases := "";
    var valid := FileValidator(name, file);
    if valid {
      var lines := file.value;
      for i := 0 to |lines|
        invariant Reading(sequence, header, bases) == ReadFrom(Start, lines[..i])
      {
        assert lines[..i + 1][..i] == lines[..i];
        var line := lines[i];
        if IsHeader(line) {
          if header != "" {
            sequence := Put(sequence, header, bases);
            bases := "";
          }
          header := line;
        } else {
          bases := bases + line;
        }
      }
      assert lines[..|lines|] == lines;
      if header != "" {
        sequence := Put(sequence, header, bases);
      }
    }
  }

  // ---------------------------------------------------------------- properties of sequenceMaker

  function HeaderCount(lines: seq<string>): (n: nat)
    ensures n <= |lines|
    decreases |lines|
  {
    if |lines| == 0 then 0
    else HeaderCount(lines[..|lines| - 1]) + if IsHeader(lines[|lines| - 1]) then 1 else 0
  }

  /** What the read loop keeps true: every key and the current header is a header line
      of the file, keys are distinct, and there is at most one record per header line
      read. */
  predicate ReadingInvariant(r: Reading, lines: seq<string>) {
    && (forall i :: 0 <= i < |r.sequences| ==> IsHeader(r.sequences[i].0) && r.sequences[i].0 in lines)
    && (r.header == "" || (IsHeader(r.header) && r.header in lines))
    && DistinctKeys(r.sequences)
    && |r.sequences| + (if r.header != "" then 1 else 0) <= HeaderCount(lines)
  }

  lemma PutEntries(m: Assoc<string>, k: string, v: string, lines: seq<string>)
    requires forall i :: 0 <= i < |m| ==> IsHeader(m[i].0) && m[i].0 in lines
    requires IsHeader(k) && k in lines
    ensures forall i :: 0 <= i < |Put(m, k, v)| ==> IsHeader(Put(m, k, v)[i].0) && Put(m, k, v)[i].0 in lines
  {
    var r := Put(m, k, v);
    PutKeys(m, k, v);
    forall i | 0 <= i < |r| ensures IsHeader(r[i].0) && r[i].0 in lines {
      KeyAt(r, i);
      if i < |m| {
        KeyAt(m, i);
      }
    }
  }

  lemma {:induction false} ReadInvariant(lines: seq<string>)
    ensures ReadingInvariant(ReadFrom(Start, lines), lines)
    decreases |lines|
  {
    if |lines| > 0 {
      var front := lines[..|lines| - 1];
      var line := lines[|lines| - 1];
      var r := ReadFrom(Start, front);
      ReadInvariant(front);
      assert forall x :: x in front ==> x in lines;
      if IsHeader(line) && r.header != "" {
        PutEntries(r.sequences, r.header, r.bases, lines);
        PutDistinct(r.sequences, r.header, r.bases);
      }
    }
  }

  /** Every key of sequenceMaker's map is a header line of the file, '>' included; no key
      repeats; and there are no more keys than header lines. */
  lemma SequenceMapKeys(name: string, file: Option<seq<string>>)
    ensures forall i :: 0 <= i < |SequenceMap(name, file)| ==>
      IsHeader(SequenceMap(name, file)[i].0) && SequenceMap(name, file)[i].0 in file.value
    ensures DistinctKeys(SequenceMap(name, file))
    ensures file.Some? ==> |SequenceMap(name, file)| <= HeaderCount(file.value)
  {
    if FileValid(name, file) {
      var r := ReadFrom(Start, file.value);
      ReadInvariant(file.value);
      if r.header != "" {
        PutEntries(r.sequences, r.header, r.bases, file.value);
        PutDistinct(r.sequences, r.header, r.bases);
      }
    }
  }

  predicate Nucleotides(s: string) {
    forall i :: 0 <= i < |s| ==> NucleotideChar(s[i])
  }

  /** Upper-casing keeps a line a header or a non-header. */
  lemma UpperHeader(line: string)
    ensures IsHeader(ToUpper(line)) <==> IsHeader(line)
  {
    if |line| > 0 {
      assert ToUpper(line)[..1] == [UpperChar(line[0])];
      assert line[..1] == [line[0]];
    }
  }

  predicate NucleotideReading(r: Reading) {
    Nucleotides(r.bases) && forall e :: e in r.sequences ==> Nucleotides(e.1)
  }

  lemma {:induction false} ReadNucleotides(lines: seq<string>)
    requires forall i :: 0 <= i < |lines| && !IsHeader(lines[i]) ==> Nucleotides(lines[i])
    ensures NucleotideReading(ReadFrom(Start, lines))
    decreases |lines|
  {
    if |lines| > 0 {
      var front := lines[..|lines| - 1];
      var r := ReadFrom(Start, front);
      ReadNucleotides(front);
      if IsHeader(lines[|lines| - 1]) && r.header != "" {
        PutEntriesFrom(r.sequences, r.header, r.bases);
      }
    }
  }

  /** Every sequence sequenceMaker returns for a FASTA-named file consists of nucleotide
      letters. */
  lemma SequenceMapNucleotides(name: string, file: Option<seq<string>>)
    requires FastaName(name) && !GffName(name)
    ensures forall e :: e in SequenceMap(name, file) ==> Nucleotides(e.1)
  {
    if FileValid(name, file) {
      var lines := file.value;
      forall i | 0 <= i < |lines| && !IsHeader(lines[i]) ensures Nucleotides(lines[i]) {
        UpperHeader(lines[i]);
      }
      ReadNucleotides(lines);
      var r := ReadFrom(Start, lines);
      if r.header != "" {
        PutEntriesFrom(r.sequences, r.header, r.bases);
      }
    }
  }

  // ---------------------------------------------------------------- round trip

  /** A FASTA record: its header line and its sequence lines. */
  type Record = (string, seq<string>)

  /** The lines of a FASTA text holding the records in order. */
  function FastaLines(recs: seq<Record>): seq<string>
    decreases |recs|
  {
    if |recs| == 0 then [] else FastaLines(recs[..|recs| - 1]) + ([recs[|recs| - 1].0] + recs[|recs| - 1].1)
  }

  /** The lines of a sequence joined without separator, as the StringBuilder does. */
  function Concat(lines: seq<string>): string
    decreases |lines|
  {
    if |lines| == 0 then "" else Concat(lines[..|lines| - 1]) + lines[|lines| - 1]
  }

  /** A header line starts with '>' and no sequence line does. */
  predicate WellFormed(recs: seq<Record>) {
    forall i :: 0 <= i < |recs| ==>
      IsHeader(recs[i].0) && forall j :: 0 <= j < |recs[i].1| ==> !IsHeader(recs[i].1[j])
  }

  /** One put per record, header to joined sequence, in order. */
  function RecordPuts(recs: seq<Record>): seq<Option<(string, string)>> {
    seq(|recs|, i requires 0 <= i < |recs| => Some((recs[i].0, Concat(recs[i].1))))
  }

  lemma {:induction false} ReadFromAppend(r: Reading, a: seq<string>, b: seq<string>)
    ensures ReadFrom(r, a + b) == ReadFrom(ReadFrom(r, a), b)
    decreases |b|
  {
    if |b| == 0 {
      assert a + b == a;
    } else {
      assert (a + b)[..|a + b| - 1] == a + b[..|b| - 1];
      ReadFromAppend(r, a, b[..|b| - 1]);
    }
  }

  /** Sequence lines only extend the current sequence. */
  lemma {:induction false} ReadSequenceLines(r: Reading, ls: seq<string>)
    requires forall j :: 0 <= j < |ls| ==> !IsHeader(ls[j])
    ensures ReadFrom(r, ls) == r.(bases := r.bases + Concat(ls))
    decreases |ls|
  {
    if |ls| == 0 {
      assert r.bases + "" == r.bases;
    } else {
      ReadSequenceLines(r, ls[..|ls| - 1]);
      assert r.bases + Concat(ls[..|ls| - 1]) + ls[|ls| - 1] == r.bases + Concat(ls);
    }
  }

  lemma {:induction false} ReadRecords(recs: seq<Record>)
    requires |recs| > 0 && WellFormed(recs)
    ensures ReadFrom(Start, FastaLines(recs)) ==
      Reading(Collect(RecordPuts(recs[..|recs| - 1])), recs[|recs| - 1].0, Concat(recs[|recs| - 1].1))
    decreases |recs|
  {
    var n := |recs| - 1;
    var front := recs[..n];
    var (h, ls) := recs[n];
    ReadFromAppend(Start, FastaLines(front), [h] + ls);
    ReadFromAppend(ReadFrom(Start, FastaLines(front)), [h], ls);
    assert ReadFrom(ReadFrom(Start, FastaLines(front)), [h]) == Step(ReadFrom(Start, FastaLines(front)), h);
    if n == 0 {
      ReadSequenceLines(Reading([], h, ""), ls);
    } else {
      assert WellFormed(front) by {
        forall i | 0 <= i < n ensures front[i] == recs[i] { }
      }
      ReadRecords(front);
      var (hf, lf) := front[n - 1];
      assert front[..n - 1] == recs[..n - 1];
      assert RecordPuts(front)[..n - 1] == RecordPuts(recs[..n - 1]);
      assert Collect(RecordPuts(front)) == Put(Collect(RecordPuts(recs[..n - 1])), hf, Concat(lf));
      ReadSequenceLines(Reading(Collect(RecordPuts(front)), h, ""), ls);
    }
  }

  /** Reading a FASTA text written from records gives, for every header, the joined
      sequence of the LAST record with that header (a repeated header overwrites the
      earlier record), with the headers in first-occurrence order. */
  lemma ReadWrittenRecords(recs: seq<Record>)
    requires WellFormed(recs)
    ensures Finish(ReadFrom(Start, FastaLines(recs))) == Collect(RecordPuts(recs))
    ensures forall k :: Get(Finish(ReadFrom(Start, FastaLines(recs))), k) == LastValue(RecordPuts(recs), k)
  {
    if |recs| > 0 {
      ReadRecords(recs);
      assert RecordPuts(recs)[..|recs| - 1] == RecordPuts(recs[..|recs| - 1]);
    }
    forall k ensures Get(Collect(RecordPuts(recs)), k) == LastValue(RecordPuts(recs), k) {
      CollectLastWins(RecordPuts(recs), k);
    }
  }

  /** A FASTA file written from well-formed records with nucleotide sequence lines is
      valid, and sequenceMaker maps each header to its joined sequence; when the headers
      are distinct the map holds exactly the records, in order. */
  lemma SequenceMakerRoundTrip(name: string, recs: seq<Record>)
    requires FastaName(name) && !GffName(name) && |recs| > 0 && WellFormed(recs)
    requires forall i, j :: 0 <= i < |recs| && 0 <= j < |recs[i].1| ==>
      forall k :: 0 <= k < |recs[i].1[j]| ==> NucleotideChar(recs[i].1[j][k])
    ensures SequenceMap(name, Some(FastaLines(recs))) == Collect(RecordPuts(recs))
    ensures (forall i, j :: 0 <= i < j < |recs| ==> recs[i].0 != recs[j].0) ==>
      SequenceMap(name, Some(FastaLines(recs))) == seq(|recs|, i requires 0 <= i < |recs| => (recs[i].0, Concat(recs[i].1)))
  {
    WrittenLinesValid(recs);
    ReadWrittenRecords(recs);
    if forall i, j :: 0 <= i < j < |recs| ==> recs[i].0 != recs[j].0 {
      DistinctCollect(recs);
    }
  }

  lemma {:induction false} WrittenLinesValid(recs: seq<Record>)
    requires |recs| > 0 && WellFormed(recs)
    requires forall i, j :: 0 <= i < |recs| && 0 <= j < |recs[i].1| ==>
      forall k :: 0 <= k < |recs[i].1[j]| ==> NucleotideChar(recs[i].1[j][k])
    ensures |FastaLines(recs)| > 0 && IsHeader(FastaLines(recs)[0])
    ensures forall i :: 0 <= i < |FastaLines(recs)| ==> SequenceLineValid(FastaLines(recs)[i])
    decreases |recs|
  {
    var n := |recs| - 1;
    var tail := [recs[n].0] + recs[n].1;
    assert IsHeader(ToUpper(recs[n].0));
    forall i | 0 <= i < |tail| ensures SequenceLineValid(tail[i]) {
      if i > 0 {
        assert tail[i] == recs[n].1[i - 1];
      }
    }
    if n > 0 {
      assert WellFormed(recs[..n]) by {
        forall i | 0 <= i < n ensures recs[..n][i] == recs[i] { }
      }
      WrittenLinesValid(recs[..n]);
    }
  }

  lemma {:induction false} DistinctCollect(recs: seq<Record>)
    requires forall i, j :: 0 <= i < j < |recs| ==> recs[i].0 != recs[j].0
    ensures Collect(RecordPuts(recs)) == seq(|recs|, i requires 0 <= i < |recs| => (recs[i].0, Concat(recs[i].1)))
    decreases |recs|
  {
    if |recs| > 0 {
      var n := |recs| - 1;
      var front := recs[..n];
      assert RecordPuts(recs)[..n] == RecordPuts(front);
      DistinctCollect(front);
      var m := Collect(RecordPuts(front));
      assert recs[n].0 !in Keys(m) by {
        forall i | 0 <= i < |m| ensures Keys(m)[i] != recs[n].0 {
          KeyAt(m, i);
        }
      }
      PutNewKey(m, recs[n].0, Concat(recs[n].1));
    }
  }
}
