# GFFQueryTool core, modelled in Dafny

GFFQueryTool is a command-line tool that reads GFF3 genome annotation files, filters their features (deleting or fetching by ID, type, chromosome, source, region or attribute), writes the surviving features back out as GFF or CSV, and summarises a feature list together with a FASTA sequence file. This project models the core of that tool and proves properties of the model:

- `feature.dfy` (module `Features`): the `Feature` record. Its nine columns are a constant `FeatureData` value; the child list is the only field that changes (`Feature.AddChild`). It also holds the three text forms: the GFF line, the CSV line and the `toString` text.
- `gff_parser.dfy` (module `GffParser`): the root parser. It reads lines into features, keeps a map from ID to feature, and links each feature to its Parent, or to the first enclosing `region` when it has no Parent. The specification side is one parsing session as a value (`SessionState`) with one function per line (`LineSpec`, `ParseSpec`). The class `ParseSession` holds the Java method's mutable list and map, and its methods are proved to follow those functions.
- `gff_parser_exs.dfy` (module `GffParserExs`): the parser of the filter_ex_sum package. It also collects header lines and has no column-count guard. It is proved to agree with the root parser on files whose data lines have nine columns.
- `filter_engine.dfy` (module `FilterEngine`): the per-line filter decisions of the filter package: `filterLine`, `filterChromosome`, `filterRegion`, `parseList`, `filterAttributes` and `filteringLine`.
- `map_list_converter.dfy` (module `MapListConverter`): the `--filter` argument converter.
- `gff_processor.dfy` (module `GffProcessor`): the streaming filter. The file is a sequence of lines read from a shared position; the header writer and the feature writer are sequences.
- `filter_se.dfy` (module `FilterSE`): the private per-line decisions of `GFFFeatureFunctionsExtended`, which use the `extended` flag in place of `delete`.
- `list_filters.dfy` (module `ListFilters`): the delete and fetch filters over a parsed `LinkedList<Feature>`, as the classes `GFFFeatureFunctionsExtended`, `GFFFeatureFunctionsEXS` and the operations `GFFFeatureFunctions` write them. The list is the class `FeatureList`, changed in place by `removeIf` or an iterator. `decideMethod` is here too.
- `extended_index.dfy` (module `ExtendedIndex`): the class `Extended`, an index from feature ID to `toString` text and from parent ID to child IDs, and its text-based `filterFeatures`.
- `fasta_files.dfy` (module `FastaFiles`): `FileUtils`, that is, file validation and the grouping of FASTA lines into a header-to-sequence map.
- `summaries.dfy`, `summarizer_se.dfy` and `summarizer_ops.dfy` (modules `Summaries`, `SummarizerSE` and `SummarizerOps`): the two `FileSummarizer` revisions. They count features per type and source, count genes and average their length, tally strands, list regions, and compute the mean sequence length and the GC-count operands. Each `summarizeFeatures` loop is a method proved equal to a specification function, and that function's meaning is proved field by field.
- `java_text.dfy`, `assoc.dfy` and `wrappers.dfy`: Java's `String.split`, `trim`, `indexOf` and `Integer.parseInt`, and `int` subtraction and division; maps as association lists; and `Option`/`Result`.

## Modelling conventions

- Java maps are association lists `seq<(K, V)>` (module `Assoc`). `put` overwrites a present key in place and appends a new one. This is `LinkedHashMap` order. For a `HashMap` the Java iteration order is unspecified, and the model fixes it to insertion order.
- `null` is `Option.None`. `List.contains(null)` answers false on the mutable lists the list filters receive (`FilterEngine.Contains`). The streaming filter's value lists are the immutable `List.of` lists that `StringToMapListConverter` builds, and their `contains(null)` throws `NullPointerException` (`FilterEngine.ImmutableContains`).
- An exception that escapes a method is a `Result.Failure` carrying one of `NumberFormat`, `IndexOutOfBounds`, `NullPointer` or `Arithmetic`. A method that changes state and may throw returns `Option<Exception>`, and its contract states the state reached before the throw.
- `String.split(c)` with a one-character, non-metacharacter separator is `JavaSplit`: every piece, with trailing empty pieces dropped.
- `Integer.parseInt` is `ParseInt`: an optional sign and ASCII decimal digits, inside the `int` range.
- The `int` difference `end - start` wraps into 32 bits (`Int32Sub`). `long` division truncates toward zero (`JavaDiv`).
- `toUpperCase` is the ASCII mapping (`ToUpper`).
- Regular-expression matching (`String.matches`) is a function parameter `matches`.

## Where the model follows the code rather than its documentation

- `deleteRegion` removes the features for which `start > regionStart || end < regionEnd`. It therefore KEEPS the features that cover each pair and removes the rest. `fetchRegion` keeps the features inside each pair, ends included. The streaming `filterRegion` keeps a feature only when it lies strictly inside a pair, and it ignores `delete`.
- `FetchAttributes` (all three list-filter classes) tests `!containsKey(key) && !get(key).matches(value)`. It never removes anything, and it throws `NullPointerException` at the first feature that lacks a filter key (see Findings).
- The streaming ID filter calls `contains(getID())` on an immutable `List.of` list. A data line without an `ID` attribute therefore throws `NullPointerException`, which `gffParser` does not catch, so the run ends there (`FilterEngine.Filtering`, `GffProcessor.StreamStep`).
- In the streaming filter the reader is shared by all filter entries. The first entry consumes the whole file, so only the first entry filters (`GffProcessor.OnlyFirstEntry`).
- The filter_ex_sum parser does not skip lines with other than nine columns. A short data line throws `IndexOutOfBoundsException` (`GffParserExs.ShortLineThrows`), where the root parser skips it.
- `Extended.buildFeatureMap` stores `Feature.toString()` text. The extractors of `filterFeatures` read that text as tab-separated columns, but it contains no tab. So the ID, type, source, start and end stages throw `IndexOutOfBoundsException` on every stored text, and the chromosome stage compares the whole text (`ExtendedIndex.ToStringOneColumn`). A second `buildFeatureMap` call lists every child twice (`ExtendedIndex.BuildTwiceDuplicates`).
- The GC pattern `[*C|G]` is a character class that also matches `*` and `|`. On validated FASTA input those never occur, so the count is the C/G count (`Summaries.GcOfFastaFile`).
- `getChromosome` reads the `chromosome` attribute, not the seqId column. The filterSE summarizer lists region seqIds. The operations summarizer lists region `chromosome` attributes, which may be null.
- The operations `summarizeFeatures` calls the `FeatureSummary` constructor with eight arguments, while `operations/FeatureSummary` declares nine parameters. The model records those eight values, with the GC percentage given as its two integer operands (match count and total length).

## Model

| member | source | states |
|---|---|---|
| Features.FeatureData.ID | src/main/java/nl/bioinf/alpruis/Feature.java:119-121 | getID is the `ID` attribute: null exactly when that key is absent, otherwise the stored value |
| Features.FeatureData.ParentID | src/main/java/nl/bioinf/alpruis/Feature.java:137-139 | getParentID is the `Parent` attribute: null exactly when absent, otherwise the stored value |
| Features.FeatureData.Chromosome | src/main/java/nl/bioinf/alpruis/Feature.java:128-130 | getChromosome is the `chromosome` attribute (not the seqId column): null exactly when absent |
| Features.Feature.constructor | src/main/java/nl/bioinf/alpruis/Feature.java:38-49 | every column is stored as given and the child list starts empty |
| Features.Feature.AddChild | src/main/java/nl/bioinf/alpruis/Feature.java:146-148 | the child (possibly null) is appended at the end; nothing else changes |
| Features.Feature.AttributesToString | src/main/java/nl/bioinf/alpruis/Feature.java:218-225 | the StringBuilder loop produces `key=value;` per attribute in map order (`AttributeText`) |
| Features.Feature.ToGffFormat | src/main/java/nl/bioinf/alpruis/Feature.java:184-195 | the returned line is the nine columns joined by tabs (`GffLine`), start and end in decimal |
| Features.Feature.ToCsvFormat | src/main/java/nl/bioinf/alpruis/Feature.java:202-212 | the returned line is the nine columns joined by commas (`CsvLine`) |
| Features.AttributeTextIsJoin | src/main/java/nl/bioinf/alpruis/Feature.java:218-225 | the attribute text is the `key=value` tokens joined by `;` with a final `;`, and is empty exactly when there are no attributes |
| Features.AttributeTextSplit | src/main/java/nl/bioinf/alpruis/Feature.java:218-225 | splitting the attribute text on `;` gives back one token per attribute when no key or value holds `;` |
| Features.GffLineText | src/main/java/nl/bioinf/alpruis/Feature.java:184-195 | the tab-joined columns are exactly the concatenation toGffFormat performs |
| Features.CsvLineText | src/main/java/nl/bioinf/alpruis/Feature.java:202-212 | the comma-joined columns are exactly the concatenation toCsvFormat performs |
| Features.GffLineSplit | src/main/java/nl/bioinf/alpruis/Feature.java:184-195 | splitting a GFF line on tabs gives back its nine columns when no column holds a tab; with no attributes the trailing empty column is dropped and eight remain |
| GffParser.AttributeEntry | src/main/java/nl/bioinf/alpruis/GffParser.java:125-132 | a token gives an entry exactly when it splits on `=` into two pieces; key and value are trimmed |
| GffParser.ParseAttributes | src/main/java/nl/bioinf/alpruis/GffParser.java:122-135 | the loop puts each two-piece token's trimmed key and value in token order (`AttributesOf`) |
| GffParser.AttributesOfLastWins | src/main/java/nl/bioinf/alpruis/GffParser.java:122-135 | each key holds the value of the last token naming it; a key no token names is absent |
| GffParser.AttributesOfTokens | src/main/java/nl/bioinf/alpruis/GffParser.java:122-135 | reading back the `key=value` tokens of writable attributes gives the same map in the same order |
| GffParser.RegionScanSpec | src/main/java/nl/bioinf/alpruis/GffParser.java:98-112 | linkToRegion links to the FIRST enclosing region whose ID differs from the feature's, only for a feature ID starting with `gene`; it throws only at an enclosing region when an ID is null |
| GffParser.NonGeneNotRegionLinked | src/main/java/nl/bioinf/alpruis/GffParser.java:98-112 | a feature whose ID does not start with `gene` is never linked to a region |
| GffParser.RegionLink | src/main/java/nl/bioinf/alpruis/GffParser.java:98-112 | linking leaves rows and ID map unchanged and fails with NullPointerException exactly when the scan dereferences a null ID; when no region accepts the feature nothing changes, and when one does that region's child list gains the feature's ID and no other list changes |
| GffParser.Link | src/main/java/nl/bioinf/alpruis/GffParser.java:78-88 | a feature whose Parent is registered has its ID appended to that parent's child list and nothing else changes; an unregistered Parent changes nothing; without a Parent the region link runs; only the region path can throw |
| GffParser.AddSpec | src/main/java/nl/bioinf/alpruis/GffParser.java:69-88 | the feature is appended with an empty child list, its ID (if any) registered to it, then linked: the registered parent's list, or else the first accepting region's list, gains the ID; with an unregistered Parent or no accepting region only the empty list is added; a throw happens only without a Parent |
| GffParser.ParseRow | src/main/java/nl/bioinf/alpruis/GffParser.java:58-67 | the nine columns become a feature; an unparsable start or end throws NumberFormatException |
| GffParser.LineRow | src/main/java/nl/bioinf/alpruis/GffParser.java:51-67 | comment lines and lines without exactly nine tab-separated columns describe no feature; only parseInt can throw |
| GffParser.LineSpec | src/main/java/nl/bioinf/alpruis/GffParser.java:51-88 | a line that describes no feature changes nothing; any other line adds exactly one row at the end or throws |
| GffParser.ParseSpec | src/main/java/nl/bioinf/alpruis/GffParser.java:26-41 | gffParser reads the lines in order and stops at the first exception |
| GffParser.FailureStops | src/main/java/nl/bioinf/alpruis/GffParser.java:29-38 | once a line throws, later lines change nothing: the exception escapes the read loop |
| GffParser.AppendedInv | src/main/java/nl/bioinf/alpruis/GffParser.java:73-76 | after an append the ID map sends every ID to the last row carrying it |
| GffParser.AddSpecInv | src/main/java/nl/bioinf/alpruis/GffParser.java:69-88 | adding a feature preserves the ID-map invariant |
| GffParser.LineSpecInv | src/main/java/nl/bioinf/alpruis/GffParser.java:51-88 | processing a line preserves the ID-map invariant |
| GffParser.ParseSpecInv | src/main/java/nl/bioinf/alpruis/GffParser.java:26-41 | after any successful parse, each ID maps to the last feature carrying it |
| GffParser.AddSpecChildren | src/main/java/nl/bioinf/alpruis/GffParser.java:78-111 | adding a feature changes at most one child list, by appending the new ID: the registered parent's list when the Parent is registered, the first accepting region's list when there is no Parent and a region accepts it; a forward Parent reference links nothing |
| GffParser.ReadGffLine | src/main/java/nl/bioinf/alpruis/GffParser.java:51-67 | a line written by toGffFormat for a writable feature parses back to exactly that feature |
| GffParser.ParseRowLines | src/main/java/nl/bioinf/alpruis/GffParser.java:26-41 | lines that each describe one feature parse to exactly those features in order, unless linking throws |
| GffParser.ParseWrittenFeatures | src/main/java/nl/bioinf/alpruis/GffParser.java:26-41 | features written with toGffFormat parse back to the same features in the same order, unless the region search throws |
| GffParser.ParseSession.constructor | src/main/java/nl/bioinf/alpruis/GffParser.java:27-28 | the feature list and the ID map start empty |
| GffParser.ParseSession.Append | src/main/java/nl/bioinf/alpruis/GffParser.java:69-76 | the new feature goes at the end of the list and, when it has an ID, into the map under that ID |
| GffParser.ParseSession.AddChildTo | src/main/java/nl/bioinf/alpruis/GffParser.java:80-84 | addChild on the parent grows its child list by one ID and leaves every other feature alone |
| GffParser.ParseSession.LinkToRegion | src/main/java/nl/bioinf/alpruis/GffParser.java:98-112 | the in-place region loop does what `RegionLink` specifies, including the NullPointerException |
| GffParser.ParseSession.LinkFeature | src/main/java/nl/bioinf/alpruis/GffParser.java:78-88 | the parent branch of processLine does what `Link` specifies |
| GffParser.ParseSession.AddFeature | src/main/java/nl/bioinf/alpruis/GffParser.java:69-88 | the feature-adding half of processLine does what `AddSpec` specifies |
| GffParser.ParseSession.ProcessLine | src/main/java/nl/bioinf/alpruis/GffParser.java:51-89 | processLine on the mutable list and map does what `LineSpec` specifies, or throws its exception |
| GffParser.ReadRow | src/main/java/nl/bioinf/alpruis/GffParser.java:52-67 | the comment test, column split, two parseInt calls and attribute parse give `LineRow` |
| GffParser.Parse | src/main/java/nl/bioinf/alpruis/GffParser.java:26-41 | gffParser returns the features with the columns and child lists `ParseSpec` computes, or the exception that stopped it |
| GffParserExs.ReadColumns | src/main/java/nl/bioinf/alpruis/operation/filter_ex_sum/GffParser.java:62-72 | the column reads in Java order: fewer than four columns throws IndexOutOfBounds, an unparsable start or end throws NumberFormat, a missing later column throws IndexOutOfBounds, extra columns are ignored |
| GffParserExs.ExsRow | src/main/java/nl/bioinf/alpruis/operation/filter_ex_sum/GffParser.java:56-72 | a line starting with `#` is a header; any other line is read as columns, and one with fewer than nine throws |
| GffParserExs.ExsLineSpec | src/main/java/nl/bioinf/alpruis/operation/filter_ex_sum/GffParser.java:56-93 | a header line is appended to the header list; a data line adds its feature as the root parser does, or throws |
| GffParserExs.ExsParseSpec | src/main/java/nl/bioinf/alpruis/operation/filter_ex_sum/GffParser.java:29-46 | the lines in order, stopping at the first exception |
| GffParserExs.ExsHeaders | src/main/java/nl/bioinf/alpruis/operation/filter_ex_sum/GffParser.java:56-60 | after a parse without exception the header list is exactly the comment lines in file order |
| GffParserExs.ExsRowAgrees | src/main/java/nl/bioinf/alpruis/operation/filter_ex_sum/GffParser.java:56-93 | on a comment or nine-column line both parsers read the same feature or throw the same exception |
| GffParserExs.ExsAgreesWithRoot | src/main/java/nl/bioinf/alpruis/operation/filter_ex_sum/GffParser.java:29-93 | on a file whose data lines have nine columns both parsers build the same features, child lists and ID map, and fail alike |
| GffParserExs.ReadColumnsWritten | src/main/java/nl/bioinf/alpruis/operation/filter_ex_sum/GffParser.java:62-74 | a line written by toGffFormat is read back as the same feature |
| GffParserExs.ShortLineThrows | src/main/java/nl/bioinf/alpruis/operation/filter_ex_sum/GffParser.java:62-70 | a data line with fewer than nine columns ends this parse with an exception, while the root parser's result is exactly what it was without that line |
| GffParserExs.ExsFailureStops | src/main/java/nl/bioinf/alpruis/operation/filter_ex_sum/GffParser.java:34-43 | once a line throws, later lines change nothing |
| GffParserExs.ReadColumnsOf | src/main/java/nl/bioinf/alpruis/operation/filter_ex_sum/GffParser.java:62-72 | the column reads in the order the Java code makes them give `ReadColumns` |
| GffParserExs.ReadExsRow | src/main/java/nl/bioinf/alpruis/operation/filter_ex_sum/GffParser.java:56-72 | the first half of processLine gives `ExsRow` |
| GffParserExs.ExsProcessLine | src/main/java/nl/bioinf/alpruis/operation/filter_ex_sum/GffParser.java:56-93 | processLine on the mutable session and header list does what `ExsLineSpec` specifies |
| GffParserExs.ExsParse | src/main/java/nl/bioinf/alpruis/operation/filter_ex_sum/GffParser.java:29-46 | gffParser returns the features (and the header list it drops) that `ExsParseSpec` computes, or the exception |
| FilterEngine.FilterLine | src/main/java/nl/bioinf/alpruis/operation/filter/GFFFeatureFunctions.java:30-36 | keep exactly when list membership differs from `delete`; a null value throws NullPointerException on the converter's immutable list |
| FilterEngine.ImmutableContains | src/main/java/nl/bioinf/alpruis/operation/filter/StringToMapListConverter.java:14 | `contains` on a `List.of` list: membership for a non-null probe, NullPointerException exactly for a null one |
| FilterEngine.FilterChromosome | src/main/java/nl/bioinf/alpruis/operation/filter/GFFFeatureFunctions.java:103-109 | the filterLine decision on the seqId column, which never throws because the seqId is never null |
| FilterEngine.RegionFrom | src/main/java/nl/bioinf/alpruis/operation/filter/GFFFeatureFunctions.java:38-48 | the pair loop throws only NumberFormat (parseInt) or IndexOutOfBounds (get(i + 1) on an odd list) |
| FilterEngine.RegionFromPairs | src/main/java/nl/bioinf/alpruis/operation/filter/GFFFeatureFunctions.java:38-48 | on a list of int pairs, filterRegion answers whether some pair strictly encloses the feature |
| FilterEngine.RegionFromTrue | src/main/java/nl/bioinf/alpruis/operation/filter/GFFFeatureFunctions.java:38-48 | whatever the list, a true answer names a pair of ints that strictly encloses the feature |
| FilterEngine.FilterRegion | src/main/java/nl/bioinf/alpruis/operation/filter/GFFFeatureFunctions.java:38-48 | the early-return loop computes `RegionFrom`; `delete` is not read |
| FilterEngine.ListEntry | src/main/java/nl/bioinf/alpruis/operation/filter/GFFFeatureFunctions.java:17-25 | a token gives an entry exactly when `=` occurs at an index above 0; the key is trimmed and the values are the comma pieces |
| FilterEngine.ParsedListLastWins | src/main/java/nl/bioinf/alpruis/operation/filter/GFFFeatureFunctions.java:13-28 | parseList never holds a key twice, and each key holds the values of the last token naming it |
| FilterEngine.ParseList | src/main/java/nl/bioinf/alpruis/operation/filter/GFFFeatureFunctions.java:13-28 | the loop puts one entry per well-formed token in token order (`ParsedList`) |
| FilterEngine.FilterAttributes | src/main/java/nl/bioinf/alpruis/operation/filter/GFFFeatureFunctions.java:69-99 | the result is `delete` XOR (some parsed entry's key is present and one of its values matches, by contains or equals) |
| FilterEngine.NewKeyOr | src/main/java/nl/bioinf/alpruis/operation/filter/GFFFeatureFunctions.java:73-89 | entries combine by OR: a token with a new key finds a match exactly when the earlier list did or the new entry matches |
| FilterEngine.RepeatedKeyOverwrites | src/main/java/nl/bioinf/alpruis/operation/filter/GFFFeatureFunctions.java:13-28 | a repeated key overwrites the earlier values, which can turn a match into no match |
| FilterEngine.SingleEntryFound | src/main/java/nl/bioinf/alpruis/operation/filter/GFFFeatureFunctions.java:73-89 | a one-entry list finds a match exactly when that entry matches |
| FilterEngine.ExactMatchOne | src/main/java/nl/bioinf/alpruis/operation/filter/GFFFeatureFunctions.java:82-87 | in exact mode an entry matches the attribute k=a exactly when its values list a |
| FilterEngine.Filtering | src/main/java/nl/bioinf/alpruis/operation/filter/GFFFeatureFunctions.java:50-60 | filteringLine dispatches on the six labels; any other label drops every feature; Region throws on bad bounds and ID throws NullPointerException exactly on a feature without an ID |
| FilterEngine.DeleteNegates | src/main/java/nl/bioinf/alpruis/operation/filter/GFFFeatureFunctions.java:30-36 | for every label but Region, flipping `delete` negates the decision, except that an ID-less feature throws under ID either way; the Region decision ignores `delete` |
| FilterEngine.FilteringLine | src/main/java/nl/bioinf/alpruis/operation/filter/GFFFeatureFunctions.java:50-60 | the dispatch calling the loop implementations gives `Filtering` |
| MapListConverter.Convert | src/main/java/nl/bioinf/alpruis/operation/filter/StringToMapListConverter.java:10-19 | at most one entry; a value without `=` makes index [1] throw, and the handler leaves the map empty |
| MapListConverter.ConvertKey | src/main/java/nl/bioinf/alpruis/operation/filter/StringToMapListConverter.java:13 | the key is the text before the first `=` |
| MapListConverter.ConvertJoined | src/main/java/nl/bioinf/alpruis/operation/filter/StringToMapListConverter.java:13 | `k=` followed by values joined with `,` converts back to k and those values |
| MapListConverter.ConvertIgnoresRest | src/main/java/nl/bioinf/alpruis/operation/filter/StringToMapListConverter.java:13 | text after a second `=` is ignored |
| GffProcessor.StreamStep | src/main/java/nl/bioinf/alpruis/operation/filter/GffProcessor.java:37-48 | a comment line goes to the header output; a data line is parsed, judged and written when kept, or throws; NullPointerException only for the ID filter on a line without an ID |
| GffProcessor.StreamStepNullPointer | src/main/java/nl/bioinf/alpruis/operation/filter/GffProcessor.java:43-44 | a line stops the run with NullPointerException exactly when it is a data line read as a feature without an ID and the filter is on ID |
| GffProcessor.StreamShape | src/main/java/nl/bioinf/alpruis/operation/filter/GffProcessor.java:37-49 | the read loop for one entry: headers are comment lines, at most one output per line, only parse, region and null-ID errors |
| GffProcessor.ProcessSpec | src/main/java/nl/bioinf/alpruis/operation/filter/GffProcessor.java:31-56 | with an empty filter map nothing is read; otherwise the first entry reads the whole file |
| GffProcessor.StreamStops | src/main/java/nl/bioinf/alpruis/operation/filter/GffProcessor.java:37-49 | once a line throws the rest of the file is not read |
| GffProcessor.StreamHeaders | src/main/java/nl/bioinf/alpruis/operation/filter/GffProcessor.java:40-41 | after a run without an exception, every comment line is written as a header in file order |
| GffProcessor.StreamKept | src/main/java/nl/bioinf/alpruis/operation/filter/GffProcessor.java:43-48 | every written feature was kept by filteringLine |
| GffProcessor.DataLines | src/main/java/nl/bioinf/alpruis/operation/filter/GffProcessor.java:40-48 | data lines and comment lines together are all the lines |
| GffProcessor.DeleteComplements | src/main/java/nl/bioinf/alpruis/operation/filter/GffProcessor.java:43-48 | for every label but Region, the keep and delete runs throw alike and write the same headers, and every data line is written by exactly one of them |
| GffProcessor.Selected | src/main/java/nl/bioinf/alpruis/operation/filter/GffProcessor.java:43-48 | a feature is selected exactly when it is in the input and its filteringLine decision is true |
| GffProcessor.SelectedAppend | src/main/java/nl/bioinf/alpruis/operation/filter/GffProcessor.java:37-49 | the selection keeps file order: the selection of a concatenation is the concatenation of the selections |
| GffProcessor.StreamWrittenFeatures | src/main/java/nl/bioinf/alpruis/operation/filter/GffProcessor.java:37-49 | filtering a file written by toGffFormat writes exactly the features the filter keeps, in file order |
| GffProcessor.OnlyFirstEntry | src/main/java/nl/bioinf/alpruis/operation/filter/GffProcessor.java:35-37 | a filter with several entries filters by its first entry only, because the reader is shared |
| GffProcessor.NoEqualsWritesNothing | src/main/java/nl/bioinf/alpruis/operation/filter/GffProcessor.java:35 | a filter argument without `=` converts to an empty map, and then nothing is written, not even headers |
| GffProcessor.ReadEntry | src/main/java/nl/bioinf/alpruis/operation/filter/GffProcessor.java:37-49 | the inner read loop from the shared reader position runs to the end of the file (or the first exception) and produces `Stream` |
| GffProcessor.Process | src/main/java/nl/bioinf/alpruis/operation/filter/GffProcessor.java:31-56 | gffParser writes what `ProcessSpec` specifies |
| FilterSE.LineDecision | src/main/java/nl/bioinf/alpruis/operation/filterSE/GFFFeatureFunctionsExtended.java:214-220 | keep exactly when membership differs from `extended` |
| FilterSE.RegionDecision | src/main/java/nl/bioinf/alpruis/operation/filterSE/GFFFeatureFunctionsExtended.java:222-231 | the first strictly enclosing pair answers `!extended`, running out answers `extended`; errors as the streaming filter's |
| FilterSE.Decision | src/main/java/nl/bioinf/alpruis/operation/filterSE/GFFFeatureFunctionsExtended.java:233-243 | only ID, Type, Region and Source are handled; any other column, Chromosome and Attributes included, drops every feature |
| FilterSE.AgreesWithStreamingFilter | src/main/java/nl/bioinf/alpruis/operation/filterSE/GFFFeatureFunctionsExtended.java:233-243 | Type, Source and ID on a feature with an ID decide as the streaming filter does; on an ID-less feature the streaming filter throws where this one answers `extended`; Region is its answer turned around by `extended` |
| ListFilters.FeatureList.RemoveIf | src/main/java/nl/bioinf/alpruis/operation/filter_ex_sum/GFFFeatureFunctionsEXS.java:55-58 | removeIf leaves `Kept`: the features the criterion does not hold of, in list order |
| ListFilters.FeatureList.DeleteListed | src/main/java/nl/bioinf/alpruis/operation/filterSE/GFFFeatureFunctionsExtended.java:59-115 | deleteId, deleteType and deleteSource remove the features whose column is in the list; the filter_ex_sum (GFFFeatureFunctionsEXS.java:55-111) and operations (GFFFeatureFunctions.java:70-100) classes hold the same filters |
| ListFilters.FeatureList.DeleteChromosomeSE | src/main/java/nl/bioinf/alpruis/operation/filterSE/GFFFeatureFunctionsExtended.java:100-103 | filterSE's deleteChromosome removes the features whose seqId column is listed |
| ListFilters.FeatureList.DeleteChromosomeExs | src/main/java/nl/bioinf/alpruis/operation/filter_ex_sum/GFFFeatureFunctionsEXS.java:96-99 | filter_ex_sum's deleteChromosome removes the features whose `chromosome` attribute is listed |
| ListFilters.FeatureList.DeleteChromosomeOps | src/main/java/nl/bioinf/alpruis/operations/GFFFeatureFunctions.java:94-97 | the operations deleteChromosome removes the features whose `chromosome` attribute is listed |
| ListFilters.FeatureList.FetchListed | src/main/java/nl/bioinf/alpruis/operation/filterSE/GFFFeatureFunctionsExtended.java:156-212 | fetchId, fetchType and fetchSource remove the features whose column is not in the list; the filter_ex_sum (GFFFeatureFunctionsEXS.java:152-208) and operations (GFFFeatureFunctions.java:132-162) classes hold the same filters |
| ListFilters.FeatureList.FetchChromosomeSE | src/main/java/nl/bioinf/alpruis/operation/filterSE/GFFFeatureFunctionsExtended.java:197-200 | filterSE's fetchChromosome removes the features whose seqId column is not listed |
| ListFilters.FeatureList.FetchChromosomeExs | src/main/java/nl/bioinf/alpruis/operation/filter_ex_sum/GFFFeatureFunctionsEXS.java:193-196 | filter_ex_sum's fetchChromosome removes the features whose `chromosome` attribute is not listed |
| ListFilters.FeatureList.FetchChromosomeOps | src/main/java/nl/bioinf/alpruis/operations/GFFFeatureFunctions.java:155-157 | the operations fetchChromosome removes the features whose `chromosome` attribute is not listed |
| ListFilters.ChromosomeRevisionsDiffer | src/main/java/nl/bioinf/alpruis/operation/filterSE/GFFFeatureFunctionsExtended.java:100-103 | a feature with a listed seqId and no `chromosome` attribute is deleted by filterSE and kept by the other two classes, and the reverse when fetching |
| ListFilters.ChromosomeRevisionsAgree | src/main/java/nl/bioinf/alpruis/operation/filter_ex_sum/GFFFeatureFunctionsEXS.java:96-99 | when every feature's `chromosome` attribute equals its seqId, the three classes' chromosome filters leave the same list |
| ListFilters.FeatureList.RegionFilter | src/main/java/nl/bioinf/alpruis/operations/GFFFeatureFunctions.java:82-91 | one removeIf per pair: a feature survives when every pair keeps it; an odd list throws IndexOutOfBounds after the complete pairs have filtered |
| ListFilters.FeatureList.DeleteAttributes | src/main/java/nl/bioinf/alpruis/operations/GFFFeatureFunctions.java:40-68 | the iterator loop removes the features for which some entry's key is present and its value matches |
| ListFilters.FeatureList.FetchAttributes | src/main/java/nl/bioinf/alpruis/operations/GFFFeatureFunctions.java:103-130 | as written: nothing is removed, and NullPointerException is thrown exactly when some feature lacks some filter key |
| ListFilters.FeatureList.FetchAttributesCorrected | src/main/java/nl/bioinf/alpruis/operations/GFFFeatureFunctions.java:103-130 | corrected: remove a feature unless every entry's key is present and matches |
| ListFilters.DecideMethod | src/main/java/nl/bioinf/alpruis/operations/GFFFeatureFunctions.java:17-38 | without `extended` it deletes or fetches by ID; with `extended` the list is unchanged |
| ListFilters.KeptMembers | src/main/java/nl/bioinf/alpruis/operation/filter_ex_sum/GFFFeatureFunctionsEXS.java:55-70 | a feature survives exactly when it was there and the criterion does not remove it |
| ListFilters.KeptAppend | src/main/java/nl/bioinf/alpruis/operation/filter_ex_sum/GFFFeatureFunctionsEXS.java:67-70 | removeIf preserves relative order: survivors of a concatenation are the concatenated survivors |
| ListFilters.KeptKept | src/main/java/nl/bioinf/alpruis/operations/GFFFeatureFunctions.java:84-89 | two removeIf calls in a row act as one with the disjunction of the criteria |
| ListFilters.KeptIdempotent | src/main/java/nl/bioinf/alpruis/operation/filterSE/GFFFeatureFunctionsExtended.java:59-62 | every filter is idempotent |
| ListFilters.DeleteFetchPartition | src/main/java/nl/bioinf/alpruis/operation/filter_ex_sum/GFFFeatureFunctionsEXS.java:55-58 | for one column and list, every feature survives exactly one of the delete and the fetch filter |
| ListFilters.NullNeverListed | src/main/java/nl/bioinf/alpruis/operation/filter_ex_sum/GFFFeatureFunctionsEXS.java:96-99 | a feature with a null column is kept by every delete filter and removed by every fetch filter |
| ListFilters.RegionStep | src/main/java/nl/bioinf/alpruis/operation/filterSE/GFFFeatureFunctionsExtended.java:83-91 | each pair's removeIf narrows the survivors to those every pair so far keeps |
| ListFilters.NoPairKeepsAll | src/main/java/nl/bioinf/alpruis/operation/filterSE/GFFFeatureFunctionsExtended.java:180-188 | with no pair read yet nothing is removed |
| ListFilters.DeleteAttributesKeeps | src/main/java/nl/bioinf/alpruis/operation/filterSE/GFFFeatureFunctionsExtended.java:27-50 | deleteAttributes leaves exactly the features no entry matches |
| ListFilters.FetchAttributesCorrectedKeeps | src/main/java/nl/bioinf/alpruis/operation/filterSE/GFFFeatureFunctionsExtended.java:124-147 | the corrected fetch leaves exactly the features every entry matches |
| ListFilters.FetchAttributesMismatch | src/main/java/nl/bioinf/alpruis/operation/filter_ex_sum/GFFFeatureFunctionsEXS.java:120-143 | a feature with the key but a non-matching value is neither removed nor a cause of a throw as written, while the corrected filter removes it |
| ExtendedIndex.Extended.constructor | src/main/java/nl/bioinf/alpruis/operation/filter_ex_sum/Extended.java:11-14 | both maps start empty |
| ExtendedIndex.Extended.BuildFeatureMap | src/main/java/nl/bioinf/alpruis/operation/filter_ex_sum/Extended.java:21-38 | both loops add to the existing maps (`FeatureMapAfter`, `ChildMapAfter`) |
| ExtendedIndex.FeatureMapLastWins | src/main/java/nl/bioinf/alpruis/operation/filter_ex_sum/Extended.java:21-29 | an ID maps to the toString text of the last feature carrying it; an empty or unknown ID keeps its earlier entry |
| ExtendedIndex.ChildMapAccumulates | src/main/java/nl/bioinf/alpruis/operation/filter_ex_sum/Extended.java:31-38 | a parent's list is its old list followed by its children's IDs in list order; no entry without old list or children |
| ExtendedIndex.BuildTwiceDuplicates | src/main/java/nl/bioinf/alpruis/operation/filter_ex_sum/Extended.java:21-38 | building twice from the same list lists every child twice |
| ExtendedIndex.ChildFound | src/main/java/nl/bioinf/alpruis/operation/filter_ex_sum/Extended.java:21-38 | on a fresh index every child with a non-empty ID has a stored text |
| ExtendedIndex.Extended.GetFeatureString | src/main/java/nl/bioinf/alpruis/operation/filter_ex_sum/Extended.java:47-49 | the stored text, null exactly when the ID is not a key |
| ExtendedIndex.Extended.GetChildren | src/main/java/nl/bioinf/alpruis/operation/filter_ex_sum/Extended.java:57-66 | one entry (possibly null) per recorded child ID in order; an unknown parent gives an empty list |
| ExtendedIndex.Column | src/main/java/nl/bioinf/alpruis/operation/filter_ex_sum/Extended.java:131-150 | `split("\t")[i]` throws IndexOutOfBounds exactly when there are at most i columns |
| ExtendedIndex.RemoveTextMembers | src/main/java/nl/bioinf/alpruis/operation/filter_ex_sum/Extended.java:79-82 | removeIf leaves exactly the texts whose test does not remove them, unless a test throws |
| ExtendedIndex.RemoveOutsideMembers | src/main/java/nl/bioinf/alpruis/operation/filter_ex_sum/Extended.java:101-113 | the region loop leaves exactly the texts inside every region |
| ExtendedIndex.FilterSpec | src/main/java/nl/bioinf/alpruis/operation/filter_ex_sum/Extended.java:74-123 | filterFeatures never adds a text |
| ExtendedIndex.NoCriteriaKeepsAll | src/main/java/nl/bioinf/alpruis/operation/filter_ex_sum/Extended.java:74-123 | with none of the five keys every stored text is returned |
| ExtendedIndex.FilterConjunctive | src/main/java/nl/bioinf/alpruis/operation/filter_ex_sum/Extended.java:74-123 | every returned text was stored and meets every present criterion |
| ExtendedIndex.ToStringOneColumn | src/main/java/nl/bioinf/alpruis/operation/filter_ex_sum/Extended.java:126-138 | a toString text has no tab: the ID and type extractors throw and the chromosome extractor reads the whole text |
| ExtendedIndex.Extended.FilterFeatures | src/main/java/nl/bioinf/alpruis/operation/filter_ex_sum/Extended.java:74-123 | the five optional removeIf stages in order give `FilterSpec` |
| ExtendedIndex.RemoveWhere | src/main/java/nl/bioinf/alpruis/operation/filter_ex_sum/Extended.java:79-82 | removeIf on the text list tests texts in order and stops at the first exception (`RemoveText`) |
| ExtendedIndex.RemoveEachOutside | src/main/java/nl/bioinf/alpruis/operation/filter_ex_sum/Extended.java:101-113 | the region loop parses each range and filters, giving `RemoveOutside` |
| FastaFiles.ValidateSequenceLines | src/main/java/nl/bioinf/alpruis/FileUtils.java:41-51 | true exactly when every line is a header or upper-cases to `[ATCGN]*` |
| FastaFiles.FileValidator | src/main/java/nl/bioinf/alpruis/FileUtils.java:14-39 | a GFF name needs the version line first; a FASTA name needs a header first and valid lines after; any other name, an empty file or an unreadable one is invalid |
| FastaFiles.GffFirstLineOnly | src/main/java/nl/bioinf/alpruis/FileUtils.java:21-26 | the GFF check looks only at the first line |
| FastaFiles.SequenceMap | src/main/java/nl/bioinf/alpruis/FileUtils.java:53-89 | an invalid file gives an empty map |
| FastaFiles.SequenceMaker | src/main/java/nl/bioinf/alpruis/FileUtils.java:53-89 | the read loop and the final put give `SequenceMap` |
| FastaFiles.SequenceMapKeys | src/main/java/nl/bioinf/alpruis/FileUtils.java:62-80 | every key is a header line of the file, `>` included; keys are distinct; no more keys than header lines |
| FastaFiles.SequenceMapNucleotides | src/main/java/nl/bioinf/alpruis/FileUtils.java:41-80 | every sequence returned for a FASTA-named file consists of nucleotide letters |
| FastaFiles.ReadWrittenRecords | src/main/java/nl/bioinf/alpruis/FileUtils.java:62-80 | reading records written as FASTA gives each header the joined sequence of its LAST record, in first-occurrence order |
| FastaFiles.SequenceMakerRoundTrip | src/main/java/nl/bioinf/alpruis/FileUtils.java:53-89 | a FASTA file written from well-formed nucleotide records is valid, and with distinct headers sequenceMaker returns exactly the records in order |
| FastaFiles.WrittenLinesValid | src/main/java/nl/bioinf/alpruis/FileUtils.java:41-51 | the lines written from well-formed nucleotide records pass the validator |
| Summaries.TallyCounts | src/main/java/nl/bioinf/alpruis/operation/filterSE/FileSummarizer.java:78-79 | getOrDefault+1 counting gives each key its number of occurrences; an absent key has no entry |
| Summaries.TallyKeys | src/main/java/nl/bioinf/alpruis/operation/filterSE/FileSummarizer.java:66-67 | the LinkedHashMap's keys come in first-occurrence order |
| Summaries.TallySum | src/main/java/nl/bioinf/alpruis/operation/filterSE/FileSummarizer.java:78-79 | the counts add up to the number of keys counted |
| Summaries.Increment | src/main/java/nl/bioinf/alpruis/operation/filterSE/FileSummarizer.java:78 | the new map is the old one with the key's count set to its old count (0 if absent) plus one; what that means is Summaries.IncrementEffect |
| Summaries.IncrementEffect | src/main/java/nl/bioinf/alpruis/operation/filterSE/FileSummarizer.java:78 | after the increment the key's count is its old count (0 if absent) plus one, every other key keeps its count, and the key order is unchanged or the new key is appended at the end |
| Summaries.GeneAverageBounds | src/main/java/nl/bioinf/alpruis/operation/filterSE/FileSummarizer.java:82-86 | when every gene length lies in [lo, hi] (lo not negative), the gene average lies in [lo, hi]; without genes it is 0 |
| Summaries.GeneSumBounds | src/main/java/nl/bioinf/alpruis/operation/filterSE/FileSummarizer.java:84-85 | the sum of gene lengths lies between count times the bounds |
| Summaries.GenesAreTypeCount | src/main/java/nl/bioinf/alpruis/operation/filterSE/FileSummarizer.java:82-83 | the gene count is the `gene` entry of the per-type counts |
| Summaries.ThreeCounts | src/main/java/nl/bioinf/alpruis/operation/filterSE/FileSummarizer.java:88-93 | three distinct strand values are counted at most once per feature, exactly once when every strand is one of them |
| Summaries.MeanLength | src/main/java/nl/bioinf/alpruis/operation/filterSE/FileSummarizer.java:24-30 | averageLength throws ArithmeticException exactly on an empty map |
| Summaries.MeanLengthBounds | src/main/java/nl/bioinf/alpruis/operation/filterSE/FileSummarizer.java:24-30 | the average length lies between the shortest and longest sequence lengths |
| Summaries.AverageLength | src/main/java/nl/bioinf/alpruis/operation/filterSE/FileSummarizer.java:24-30 | the summing loop and long division give `MeanLength` |
| Summaries.GcCount | src/main/java/nl/bioinf/alpruis/operation/filterSE/FileSummarizer.java:48-51 | at most one match per character |
| Summaries.GcOnNucleotides | src/main/java/nl/bioinf/alpruis/operation/filterSE/FileSummarizer.java:43 | on nucleotide letters the class `[*C|G]` counts exactly the C and G bases |
| Summaries.GcCountUpper | src/main/java/nl/bioinf/alpruis/operation/filterSE/FileSummarizer.java:48 | counting after upper-casing equals counting the raw text |
| Summaries.GcCountAppend | src/main/java/nl/bioinf/alpruis/operation/filterSE/FileSummarizer.java:46-52 | the count over joined text is the sum of the counts |
| Summaries.GcTotal | src/main/java/nl/bioinf/alpruis/operation/filterSE/FileSummarizer.java:46-52 | the match count never exceeds the total length |
| Summaries.CountMatches | src/main/java/nl/bioinf/alpruis/operation/filterSE/FileSummarizer.java:48-51 | the matcher loop over one upper-cased sequence counts `GcCount` |
| Summaries.GcCounts | src/main/java/nl/bioinf/alpruis/operation/filterSE/FileSummarizer.java:39-54 | the loop computes the match count and the total length, the operands of the percentage; count <= length |
| Summaries.GcOfFastaFile | src/main/java/nl/bioinf/alpruis/operation/filterSE/FileSummarizer.java:43-53 | on a map built from a valid FASTA file, the numerator counts exactly the C and G bases |
| SummarizerSE.RegionSeqIds | src/main/java/nl/bioinf/alpruis/operation/filterSE/FileSummarizer.java:95-97 | one seqId per region feature |
| SummarizerSE.RegionSeqIdsMembers | src/main/java/nl/bioinf/alpruis/operation/filterSE/FileSummarizer.java:95-97 | the region list holds exactly the seqIds of the region features |
| SummarizerSE.Summary | src/main/java/nl/bioinf/alpruis/operation/filterSE/FileSummarizer.java:65-103 | the summary fails with ArithmeticException exactly when the sequence map is empty |
| SummarizerSE.ScanMeaning | src/main/java/nl/bioinf/alpruis/operation/filterSE/FileSummarizer.java:77-98 | the loop's tallies are the type and source counts, region seqIds, gene count and length sum, and the three strand counts |
| SummarizerSE.SummarizeFeatures | src/main/java/nl/bioinf/alpruis/operation/filterSE/FileSummarizer.java:65-103 | the loop computes `Summary`, and the logged unknown-strand count is the number of `.` strands |
| SummarizerSE.SummaryCounts | src/main/java/nl/bioinf/alpruis/operation/filterSE/FileSummarizer.java:66-79 | types and sources are counted as often as they occur, in first-occurrence order, adding up to the number of features |
| SummarizerSE.SummaryConsistent | src/main/java/nl/bioinf/alpruis/operation/filterSE/FileSummarizer.java:82-100 | gene count and region count agree with the type counts; forward + reverse + unknown <= features, equal when every strand is `+`, `-` or `.` |
| SummarizerOps.RegionChromosomes | src/main/java/nl/bioinf/alpruis/operations/FileSummarizer.java:68-70 | one (possibly null) chromosome attribute per region feature |
| SummarizerOps.UnknownStrands | src/main/java/nl/bioinf/alpruis/operations/FileSummarizer.java:59-66 | forward count + reverse count + logged warnings = number of features |
| SummarizerOps.UnknownStrandsMembers | src/main/java/nl/bioinf/alpruis/operations/FileSummarizer.java:64-65 | a strand is logged exactly when some feature carries it and it is neither `+` nor `-` |
| SummarizerOps.Summary | src/main/java/nl/bioinf/alpruis/operations/FileSummarizer.java:41-76 | the summary fails with ArithmeticException exactly when the sequence map is empty |
| SummarizerOps.ScanMeaning | src/main/java/nl/bioinf/alpruis/operations/FileSummarizer.java:50-71 | the loop's tallies are the type counts, region chromosomes, gene count and length sum, strand counts and the warnings |
| SummarizerOps.SummarizeFeatures | src/main/java/nl/bioinf/alpruis/operations/FileSummarizer.java:41-76 | the loop computes `Summary`, and the warnings are exactly the unknown strands in order |
| SummarizerOps.SummaryCounts | src/main/java/nl/bioinf/alpruis/operations/FileSummarizer.java:50-51 | each type is counted as often as it occurs, in first-occurrence order, adding up to the number of features |
| SummarizerOps.SummaryConsistent | src/main/java/nl/bioinf/alpruis/operations/FileSummarizer.java:53-70 | gene and region counts agree with the type counts; every feature is forward, reverse or warned, exactly one |
| SummarizerOps.RegionsAgree | src/main/java/nl/bioinf/alpruis/operations/FileSummarizer.java:68-70 | where each region's chromosome attribute is its seqId, both revisions list the same regions |
| SummarizerOps.RevisionsAgree | src/main/java/nl/bioinf/alpruis/operations/FileSummarizer.java:41-76 | both revisions fail together and agree on every quantity both report |
| JavaText.JavaSplit | src/main/java/nl/bioinf/alpruis/GffParser.java:54 | String.split with a plain one-character separator: no piece holds it, and a string without it splits to itself |
| JavaText.JavaSplitJoin | src/main/java/nl/bioinf/alpruis/GffParser.java:54 | splitting joined pieces gives them back when none holds the separator and the last is not empty |
| JavaText.Trim | src/main/java/nl/bioinf/alpruis/GffParser.java:127 | String.trim gives a trimmed string and leaves a trimmed one unchanged |
| JavaText.IndexOf | src/main/java/nl/bioinf/alpruis/operation/filter/GFFFeatureFunctions.java:17 | indexOf gives the first position of the character, or -1 exactly when absent |
| JavaText.ParseIntToString | src/main/java/nl/bioinf/alpruis/GffParser.java:61-62 | Integer.parseInt reads back the decimal text of every int |
| JavaText.Int32Sub | src/main/java/nl/bioinf/alpruis/operation/filterSE/FileSummarizer.java:84 | int subtraction wraps into 32 bits and is exact when the difference fits |
| JavaText.JavaDiv | src/main/java/nl/bioinf/alpruis/operation/filterSE/FileSummarizer.java:100 | long division truncates toward zero |

## Left out

- File and console I/O: readers become sequences of lines (an unreadable file is `None`). The GFF, CSV and header writers (`ReturnFile`, `ReturnFileExtended`) become the output sequences of `GffProcessor.Output`. `Path.getFileName` becomes a name parameter.
- An IOException in the middle of a read is not modelled. A readable file is read to its end.
- Logging is left out. The two exceptions are the operations summarizer's unknown-strand warnings, returned as a sequence, and the filterSE summarizer's unknown-strand count, returned as a number.
- `ErrorThrower` is not part of this model. The exceptions it reports are returned as `Failure` values or, in the converter, as the empty map the caller receives.
- The filterSE package's own `GffParser` is not part of this model. Neither are `CommandLineParser`, `OptionsProcessor`, `Main`, `MakingRecord` or `GFFFeatureProcessor`: they are argument handling and wiring.
- Summaries.GcCounts: the floating-point percentage `count / (double) length * 100` (NaN on an empty map) is left out. The method returns its two integer operands.
- Summaries.AverageLength: `long` overflow of the length sum is not modelled (unbounded integers). The `int` counters of both summarizers are likewise unbounded.
- SummarizerOps.Summary: the operations `countingFeatures` is a `HashMap`, whose iteration order Java leaves unspecified. The model fixes it to insertion order. The counts per key do not depend on that order.
- SummarizerOps.SummarizeFeatures: the summary holds the eight values passed to the `FeatureSummary` constructor. That constructor declares nine parameters, so the call as written does not compile.
- ListFilters.FeatureList.DeleteAttributes: `String.matches` is a total parameter `matches` and not a regular-expression engine, so the model does not capture `PatternSyntaxException`. With an invalid pattern in the filter map, Java throws at the first feature in list order whose attributes hold that entry's key. The features before it that the filter marked have already been unlinked by `iterator.remove()`. That feature and every one after it stay in the list. The model promises the whole-list result only for patterns `matches` can evaluate.
- ListFilters.FeatureList.FetchAttributesCorrected: the same total `matches` parameter, so the model does not capture `PatternSyntaxException` either. The corrected test also calls `matches` only on a present key, so an invalid pattern throws at the first feature holding that key. The features before it that failed the test are already removed, and the rest are untouched. The as-written `FetchAttributes` never reaches `matches` on a present key; on a missing key it throws `NullPointerException` first.
- ExtendedIndex.Extended.FilterFeatures: the `HashMap` value order of `featureMap` is fixed to insertion order.
- FastaFiles.FileValidator: `toUpperCase` is the ASCII mapping. Unicode case mapping is left out.
- FastaFiles.ValidateSequenceLines: the same ASCII mapping.
- GffProcessor.ReadEntry: the inner `while readLine` loop is a method of its own, taking the shared reader position. It is called once per filter entry.
- GffProcessor.StreamStep: `parseLine` reads the attribute column with the filterSE package's `GffParser.parseAttributes`, which is not part of this model. The model reads it with the root parser's reading (`GffParserExs.ReadColumns`, `GffParser.AttributesOf`), assuming both parsers read the attribute column alike. Every streaming property (`StreamWrittenFeatures`, `DeleteComplements`, `OnlyFirstEntry`) rests on that assumption.
- GffParserExs.ReadColumns: as the streaming filter's `parseLine` it carries the same assumption about the filterSE `parseAttributes`.
- FilterEngine.Filtering: the value lists are taken to be the immutable `List.of` lists built by `StringToMapListConverter`. A caller that passed a mutable list would see `false` instead of `NullPointerException` for a feature without an ID.
- JavaText.ParseInt: `Integer.parseInt` also accepts the non-ASCII decimal digits that `Character.digit` accepts, such as U+0661. The model accepts only `0` to `9`.
- Picocli's conversion plumbing around `StringToMapListConverter` is left out. Only `convert` is modelled.

## Findings

| source | as written | input that shows it | evidently intended | confidence | as-written member | corrected member |
|---|---|---|---|---|---|---|
| src/main/java/nl/bioinf/alpruis/operations/GFFFeatureFunctions.java:118 | removal test `!containsKey(key) && !get(key).matches(value)`: never true when the key is present, and a null dereference when it is absent | filter {k: "a"} on a feature with attribute k=b: kept, although it does not match; a feature without k throws NullPointerException | `!containsKey(key) \|\| !get(key).matches(value)`: keep only the features every entry matches | not executed | ListFilters.FeatureList.FetchAttributes | ListFilters.FeatureList.FetchAttributesCorrected |
| src/main/java/nl/bioinf/alpruis/operation/filterSE/GFFFeatureFunctionsExtended.java:137 | the same test in the filterSE class | the same input | the same correction | not executed | ListFilters.FetchAttributesMismatch | ListFilters.FetchAttributesCorrectedKeeps |
