/** Feature.java: one GFF3 annotation record. The nine columns are final fields, held here
    as one constant value; the list of child IDs is the only state that changes, and only
    through AddChild. The record is written back out as a GFF line (tab-joined), a CSV line
    (comma-joined) and Java's toString text. */
module Features {
  import opened Wrappers
  import opened JavaText
  import opened Assoc

  /** The attribute column as a map from attribute name to value. */
  type Attributes = Assoc<string>

  /** The nine columns of a GFF3 data line. */
  datatype FeatureData = FeatureData(
    seqId: string,
    source: string,
    featureType: string,
    start: int,
    end: int,
    score: string,
    strand: string,
    phase: string,
    attributes: Attributes)
  {
    /** getID: the "ID" attribute, null when absent. */
    function ID(): (r: Option<string>)
      ensures r.None? <==> "ID" !in Keys(attributes)
      ensures r.Some? ==> ("ID", r.value) in attributes
    {
      GetFound(attributes, "ID");
      Get(attributes, "ID")
    }

    /** getParentID: the "Parent" attribute, null when absent. */
    function ParentID(): (r: Option<string>)
      ensures r.None? <==> "Parent" !in Keys(attributes)
      ensures r.Some? ==> ("Parent", r.value) in attributes
    {
      GetFound(attributes, "Parent");
      Get(attributes, "Parent")
    }

    /** getChromosome: the "chromosome" attribute, null when absent; the seqId column is
        not consulted. */
    function Chromosome(): (r: Option<string>)
      ensures r.None? <==> "chromosome" !in Keys(attributes)
      ensures r.Some? ==> ("chromosome", r.value) in attributes
    {
      GetFound(attributes, "chromosome");
      Get(attributes, "chromosome")
    }
  }

  class Feature {
    const data: FeatureData
    var children: seq<Option<string>>

    /** Every column is stored as given, and the children list starts empty. */
    constructor (seqId: string, source: string, featureType: string, start: int, end: int,
                 score: string, strand: string, phase: string, attributes: Attributes)
      ensures data == FeatureData(seqId, source, featureType, start, end, score, strand, phase, attributes)
      ensures children == []
    {
      data := FeatureData(seqId, source, featureType, start, end, score, strand, phase, attributes);
      children := [];
    }

    /** Appends one child ID (possibly null) at the end; nothing else changes. */
    method AddChild(child: Option<string>)
      modifies this
      ensures children == old(children) + [child]
    {
      children := children + [child];
    }

    /** atributesToString, built entry by entry as the StringBuilder loop does. */
    method AttributesToString() returns (s: string)
      ensures s == AttributeText(data.attributes)
    {
      var attrs := data.attributes;
      s := "";
      var i := 0;
      while i < |attrs|
        invariant 0 <= i <= |attrs|
        invariant s == AttributeText(attrs[..i])
      {
        assert attrs[..i + 1][..i] == attrs[..i];
        s := s + attrs[i].0 + "=" + attrs[i].1 + ";";
        i := i + 1;
      }
      assert attrs[..i] == attrs;
    }

    /** toGffFormat */
    method ToGffFormat() returns (line: string)
      ensures line == GffLine(data)
    {
      var attrs := AttributesToString();
      line := data.seqId + [TAB] + data.source + [TAB] + data.featureType + [TAB]
        + IntToString(data.start) + [TAB] + IntToString(data.end) + [TAB]
        + data.score + [TAB] + data.strand + [TAB] + data.phase + [TAB] + attrs;
      GffLineText(data);
    }

    /** toCsvFormat */
    method ToCsvFormat() returns (line: string)
      ensures line == CsvLine(data)
    {
      var attrs := AttributesToString();
      line := data.seqId + "," + data.source + "," + data.featureType + ","
        + IntToString(data.start) + "," + IntToString(data.end) + ","
        + data.score + "," + data.strand + "," + data.phase + "," + attrs;
      CsvLineText(data);
    }
  }

  // ---------------------------------------------------------------- text forms

  function EntryToken(e: (string, string)): string {
    e.0 + "=" + e.1
  }

  /** The text atributesToString builds: "key=value;" for each attribute in order. */
  function AttributeText(attrs: Attributes): string
    decreases |attrs|
  {
    if |attrs| == 0 then ""
    else AttributeText(attrs[..|attrs| - 1]) + EntryToken(attrs[|attrs| - 1]) + ";"
  }

  /** The "key=value" tokens of the attributes, in order. */
  function Tokens(attrs: Attributes): (ts: seq<string>)
    ensures |ts| == |attrs|
    ensures forall i :: 0 <= i < |attrs| ==> ts[i] == EntryToken(attrs[i])
    decreases |attrs|
  {
    if |attrs| == 0 then [] else Tokens(attrs[..|attrs| - 1]) + [EntryToken(attrs[|attrs| - 1])]
  }

  /** The nine column texts in file order, start and end printed as decimal ints. */
  function Columns(d: FeatureData): (cols: seq<string>)
    ensures |cols| == 9
  {
    [d.seqId, d.source, d.featureType, IntToString(d.start), IntToString(d.end),
     d.score, d.strand, d.phase, AttributeText(d.attributes)]
  }

  /** The line toGffFormat returns: the nine columns with a tab between consecutive ones. */
  function GffLine(d: FeatureData): string {
    Join(Columns(d), TAB)
  }

  /** The line toCsvFormat returns: the same nine columns separated by commas. */
  function CsvLine(d: FeatureData): string {
    Join(Columns(d), ',')
  }

  /** Java's AbstractMap.toString of the attributes: "{k1=v1, k2=v2}". */
  function MapText(attrs: Attributes): string {
    "{" + EntriesText(attrs) + "}"
  }

  function EntriesText(attrs: Attributes): string
    decreases |attrs|
  {
    if |attrs| == 0 then ""
    else if |attrs| == 1 then EntryToken(attrs[0])
    else EntryToken(attrs[0]) + ", " + EntriesText(attrs[1..])
  }

  /** The text Feature.toString returns. */
  function ToStringText(d: FeatureData): string {
    "Feature{" + "seqID='" + d.seqId + "'" + ", source='" + d.source + "'"
    + ", type='" + d.featureType + "'" + ", start=" + IntToString(d.start)
    + ", end=" + IntToString(d.end) + ", score='" + d.score + "'"
    + ", strand='" + d.strand + "'" + ", phase='" + d.phase + "'"
    + ", attributes=" + MapText(d.attributes) + "}"
  }

  // ---------------------------------------------------------------- properties of the text forms

  /** atributesToString writes one "key=value;" per attribute: the tokens joined by ';'
      with a final ';', so the text is empty exactly when there are no attributes. */
  lemma {:induction false} AttributeTextIsJoin(attrs: Attributes)
    ensures |attrs| > 0 ==> AttributeText(attrs) == Join(Tokens(attrs), ';') + ";"
    ensures AttributeText(attrs) == "" <==> |attrs| == 0
    decreases |attrs|
  {
    if |attrs| > 0 {
      var p := attrs[..|attrs| - 1];
      var e := EntryToken(attrs[|attrs| - 1]);
      AttributeTextIsJoin(p);
      assert Tokens(attrs) == Tokens(p) + [e];
      if |p| > 0 {
        JoinAppend(Tokens(p), ';', e);
      } else {
        assert Tokens(attrs) == [e];
      }
    }
  }

  /** A character that is neither '=' nor ';' and occurs in no key or value does not occur
      in the attribute text. */
  lemma {:induction false} AttributeTextAvoids(attrs: Attributes, c: char)
    requires c != '=' && c != ';'
    requires forall i :: 0 <= i < |attrs| ==> c !in attrs[i].0 && c !in attrs[i].1
    ensures c !in AttributeText(attrs)
    decreases |attrs|
  {
    if |attrs| > 0 {
      AttributeTextAvoids(attrs[..|attrs| - 1], c);
    }
  }

  /** Splitting the attribute text on ';' gives back one "key=value" token per attribute,
      provided no key or value holds a ';'. */
  lemma AttributeTextSplit(attrs: Attributes)
    requires |attrs| > 0
    requires forall i :: 0 <= i < |attrs| ==> ';' !in attrs[i].0 && ';' !in attrs[i].1
    ensures JavaSplit(AttributeText(attrs), ';') == Tokens(attrs)
  {
    AttributeTextIsJoin(attrs);
    var ts := Tokens(attrs);
    forall i | 0 <= i < |ts| ensures ';' !in ts[i] {
      assert ts[i] == attrs[i].0 + "=" + attrs[i].1;
    }
    assert ts[|ts| - 1] == attrs[|ts| - 1].0 + "=" + attrs[|ts| - 1].1;
    JavaSplitJoinTrailing(ts, ';');
  }

  /** The text toGffFormat concatenates is the tab-joined columns: start and end printed
      in decimal, each column once and in file order. */
  lemma GffLineText(d: FeatureData)
    ensures GffLine(d) ==
      d.seqId + [TAB] + d.source + [TAB] + d.featureType + [TAB]
      + IntToString(d.start) + [TAB] + IntToString(d.end) + [TAB]
      + d.score + [TAB] + d.strand + [TAB] + d.phase + [TAB] + AttributeText(d.attributes)
  {
    var c := Columns(d);
    JoinAppend(c[..1], TAB, c[1]);
    JoinAppend(c[..2], TAB, c[2]);
    JoinAppend(c[..3], TAB, c[3]);
    JoinAppend(c[..4], TAB, c[4]);
    JoinAppend(c[..5], TAB, c[5]);
    JoinAppend(c[..6], TAB, c[6]);
    JoinAppend(c[..7], TAB, c[7]);
    JoinAppend(c[..8], TAB, c[8]);
    assert c[..1] + [c[1]] == c[..2];
    assert c[..2] + [c[2]] == c[..3];
    assert c[..3] + [c[3]] == c[..4];
    assert c[..4] + [c[4]] == c[..5];
    assert c[..5] + [c[5]] == c[..6];
    assert c[..6] + [c[6]] == c[..7];
    assert c[..7] + [c[7]] == c[..8];
    assert c[..8] + [c[8]] == c;
  }

  /** The text toCsvFormat concatenates is the comma-joined columns. */
  lemma CsvLineText(d: FeatureData)
    ensures CsvLine(d) ==
      d.seqId + "," + d.source + "," + d.featureType + ","
      + IntToString(d.start) + "," + IntToString(d.end) + ","
      + d.score + "," + d.strand + "," + d.phase + "," + AttributeText(d.attributes)
  {
    var c := Columns(d);
    JoinAppend(c[..1], ',', c[1]);
    JoinAppend(c[..2], ',', c[2]);
    JoinAppend(c[..3], ',', c[3]);
    JoinAppend(c[..4], ',', c[4]);
    JoinAppend(c[..5], ',', c[5]);
    JoinAppend(c[..6], ',', c[6]);
    JoinAppend(c[..7], ',', c[7]);
    JoinAppend(c[..8], ',', c[8]);
    assert c[..1] + [c[1]] == c[..2];
    assert c[..2] + [c[2]] == c[..3];
    assert c[..3] + [c[3]] == c[..4];
    assert c[..4] + [c[4]] == c[..5];
    assert c[..5] + [c[5]] == c[..6];
    assert c[..6] + [c[6]] == c[..7];
    assert c[..7] + [c[7]] == c[..8];
    assert c[..8] + [c[8]] == c;
  }

  /** No column text holds a tab. */
  predicate TabFree(d: FeatureData) {
    && TAB !in d.seqId && TAB !in d.source && TAB !in d.featureType
    && TAB !in d.score && TAB !in d.strand && TAB !in d.phase
    && forall i :: 0 <= i < |d.attributes| ==> TAB !in d.attributes[i].0 && TAB !in d.attributes[i].1
  }

  /** Splitting a GFF line on tabs gives back its nine columns, provided no column holds a
      tab and the attribute column is not empty. With no attributes the line ends in a tab
      that String.split drops, leaving eight columns (when the phase column is not empty). */
  lemma GffLineSplit(d: FeatureData)
    requires TabFree(d)
    ensures |d.attributes| > 0 ==> JavaSplit(GffLine(d), TAB) == Columns(d)
    ensures |d.attributes| == 0 && d.phase != "" ==> JavaSplit(GffLine(d), TAB) == Columns(d)[..8]
  {
    AttributeTextIsJoin(d.attributes);
    AttributeTextAvoids(d.attributes, TAB);
    IntToStringChars(d.start, TAB);
    IntToStringChars(d.end, TAB);
    var c := Columns(d);
    if |d.attributes| > 0 {
      JavaSplitJoin(c, TAB);
    } else if d.phase != "" {
      var front := c[..8];
      JoinAppend(front, TAB, "");
      assert front + [""] == c;
      assert GffLine(d) == Join(front, TAB) + [TAB];
      assert front[7] == d.phase;
      JavaSplitJoinTrailing(front, TAB);
    }
  }
}
