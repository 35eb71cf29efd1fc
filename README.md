# ROSE enhancer-region core, modelled in Dafny

ROSE (Rank Ordering of Super-Enhancers) turns a file of bound regions into a
table of stitched enhancer regions and their signal. This project models these
parts of it:

- **The identifier check** (`checkRefCollection`). The run aborts unless every
  region id is unique.
- **Region stitching** (`regionStitching`), in three passes:
  1. Bound regions that lie wholly inside a ±`tssWindow` window around a
     gene's transcription start site (TSS) are removed and logged as
     `CONTAINED`.
  2. The remaining regions are stitched.
  3. Any stitched region that overlaps the ±50 TSS windows of more than two
     distinct gene names is replaced by the filtered regions it overlaps, and
     logged as `MULTIPLE_TSS`.
- **The region table** (`mapCollection`):
  - chrY is dropped and rows are ordered longest first;
  - each row gets the stitch count read from its id and the total length of
    the reference regions it overlaps;
  - each bam file adds one signal column. That column is read from the
    sample's mapped GFF: the coordinate strings are parsed, each signal is
    weighted by its span, and the weights of the overlapping mapped regions are
    summed.
- **The gene start table** (`makeStartDict`):
  - six columns are kept;
  - the first row of each transcript name is kept;
  - `txStart`/`txEnd` are swapped on `-` strand rows;
  - the columns are renamed.
- **The format converters**:
  - `search` looks up a GTF attribute;
  - `bed_to_gff3` maps BED rows to GFF3 rows;
  - `gtf_to_gff3` rewrites the attribute column.
- **The project-root computation** (`get_path`).

Modules follow the source files:

- `MainFunctions` models `src/main_functions.py`.
- `Annotation` models `src/utils/annotation.py`.
- `Conversion` models `src/utils/conversion.py`.
- `FileHelper` models `src/utils/file_helper.py`.
- `RoseUtils` defines the pieces of the `ROSE_utils` library that the pipeline
  calls: the locus record, the overlap and containment tests, collection
  queries in collection order, `uniquify`, `list.remove`, and the
  `chr(sense):start-end` string form of a locus. `ROSE_utils` itself is not
  part of this model. The TSS window of a gene record is defined in
  `MainFunctions`, which reads the start table.
- `Strings` holds Python's `split`/`join` with one-character separators, and
  decimal printing and parsing.
- `Wrappers` holds `Option`, `Result` and a pass/fail outcome.

Imperative code is modelled as methods and proved against specification
functions:

- `regionStitching`'s loops are `ExcludeTss`, `RevertMultipleTss` and
  `MakeTssLoci`.
- `mapCollection`'s loops are `StripIgnoredChromosome`, `RegionColumns`,
  `ConstituentSize`, `BuildSignalDict`, `AppendSignalColumn`, `RowSignal` and
  `SampleColumns`.
- `makeStartDict`'s three in-place table updates are `MakeStartDict`.
- `gtf_to_gff3` is `GtfToGff3`.

Lemmas then state what the pipeline promises about those functions.

What the code does at the points where a reader might expect otherwise:

- `tssWindow = 0` does not switch TSS exclusion off, although the `--tss` help
  at ROSE_main.py:64 says so. `regionStitching` tests its `removeTSS`
  argument (src/main_functions.py:27), which defaults to true
  (src/main_functions.py:18); the lines that derived it from `tssWindow` are
  commented out (ROSE_main.py:105-108).
- The coordinate text of a mapped line is read at
  src/main_functions.py:164-166. The chromosome is the text before the first
  `(`. The span is the text after the last `:`, cut at `-`.
- A mapped line whose signal column is not a number gets no dictionary entry
  (src/main_functions.py:168-172), but its locus was already added to the
  mapped collection at src/main_functions.py:167.
- The coordinate reads at src/main_functions.py:165-166 are outside the
  `try`, so an unreadable coordinate stops the whole run. A start that is not
  a number raises `ValueError` at line 165. A span with no `-` raises
  `IndexError` at line 166. An end that is not a number raises `ValueError`
  at line 166. The model returns the error of the first unreadable line as a
  `Failure`.
- The rows are put in order by `ROSE_utils.order(lociLenList, decreasing=True)`
  (src/main_functions.py:123), and nothing re-orders rows of equal length by
  id. The model sorts stably by length.

## Model

| member | source | states |
|---|---|---|
| MainFunctions.CheckRefCollection | src/main_functions.py:7-15 | passes exactly when no two regions share an id; otherwise fails with the two-line non-unique-identifier message |
| RoseUtils.UniquifyKeepsLengthIffDistinct | src/main_functions.py:9 | de-duplication keeps the length of a list exactly when the list has no repeated element |
| RoseUtils.Uniquify | src/main_functions.py:79 | the result has no repeats, is no longer than the input and has exactly the input's elements |
| RoseUtils.UniquifyCountsDistinct | src/main_functions.py:79-80 | the de-duplicated name list is as long as the set of distinct names |
| RoseUtils.GetContainers | src/main_functions.py:51 | the containment query returns exactly the collection loci that contain the query, strand ignored |
| RoseUtils.GetOverlap | src/main_functions.py:133 | the overlap query returns exactly the collection loci that overlap the query on its chromosome |
| RoseUtils.RemoveFirstAfter | src/main_functions.py:54 | removing a locus whose first occurrence is at a known place leaves the list without that one element |
| RoseUtils.ParseLocusString | src/main_functions.py:164-166 | the `chr(sense):start-end` form of a locus parses back to its chromosome, start and end |
| MainFunctions.MakeTssLoci | src/main_functions.py:35-37 | the loop builds the TSS window of every gene of the start table, in order |
| MainFunctions.ContainersNonEmptyIff | src/main_functions.py:51 | the containment query is non-empty exactly when some TSS window contains the region |
| MainFunctions.TssFilter | src/main_functions.py:50-56 | after the TSS pass a region remains exactly when it was bound and no TSS window contains it |
| MainFunctions.TssRemoved | src/main_functions.py:50-56 | the removed regions are exactly the bound regions inside some window; removed and kept counts add up to the input count |
| MainFunctions.ExcludeTssRemove | src/main_functions.py:53-55 | a contained region is removed at its own place in the collection and adds one `CONTAINED` row |
| MainFunctions.ExcludeTssKeep | src/main_functions.py:50-51 | a region outside every window stays in place and adds no row |
| MainFunctions.ExcludeTss | src/main_functions.py:45-56 | the removal loop leaves the filtered collection and logs the `CONTAINED` rows in collection order |
| MainFunctions.ContainedRowsPerRemoval | src/main_functions.py:50-57 | one `CONTAINED` row per removed region, in removal order, so the removal count equals the row count |
| MainFunctions.OverlapNames | src/main_functions.py:77-78 | the listed names are exactly the names of genes whose ±50 window overlaps the stitched region |
| MainFunctions.RevertedIffMoreThanTwoGenes | src/main_functions.py:76-80 | a stitched region is reverted exactly when more than two distinct gene names straddle it; two names keep it |
| MainFunctions.RevertedLoci | src/main_functions.py:80-87 | the reverted regions are exactly the stitched regions that straddle more than two genes |
| MainFunctions.ResolveMembers | src/main_functions.py:76-93 | the final collection holds exactly the kept stitched regions and the filtered regions that overlap a reverted stitched region |
| MainFunctions.MultipleTssRowsPerReversion | src/main_functions.py:80-87 | one `MULTIPLE_TSS` row per reverted stitched region, in stitched order |
| MainFunctions.RevertMultipleTss | src/main_functions.py:65-89 | the reversion loop builds the resolved collection and the `MULTIPLE_TSS` rows |
| MainFunctions.DebugLogOrdered | src/main_functions.py:55-86 | every `CONTAINED` row of the debug log precedes every `MULTIPLE_TSS` row |
| MainFunctions.RegionStitching | src/main_functions.py:18-96 | `removeTSS` defaults to true; without TSS removal: the stitched input and an empty log; with it: the resolved stitch of the filtered regions, and the log of both passes in order |
| MainFunctions.DropChrY | src/main_functions.py:115-117 | the regions kept are exactly the stitched regions off chrY |
| MainFunctions.DropChrYRemove | src/main_functions.py:116-117 | a chrY region is removed at its own place in the list |
| MainFunctions.DropChrYKeep | src/main_functions.py:115-116 | a region off chrY stays in place |
| MainFunctions.StripIgnoredChromosome | src/main_functions.py:115-117 | the in-place removal loop leaves exactly the regions off chrY, in order |
| MainFunctions.InsertByLength | src/main_functions.py:123 | inserting into a longest-first list keeps it longest-first and adds exactly the one region |
| MainFunctions.SortByLength | src/main_functions.py:119-125 | the table order is longest first and a permutation of the regions |
| MainFunctions.OrderedLoci | src/main_functions.py:114-125 | the table's regions are sorted longest first, are a permutation of the regions off chrY, and contain no chrY region |
| MainFunctions.StitchCountOfStitchedId | src/main_functions.py:137-140 | an id of the form `<n>_<rest>` yields the stitch count `n` |
| MainFunctions.StitchCountOfOtherId | src/main_functions.py:137-140 | an id whose leading `_` field is not a number, with or without a `_` after it, yields the fallback stitch count 1 |
| MainFunctions.ConstituentSize | src/main_functions.py:132-135 | the loop sums the lengths of the reference regions overlapping the stitched region |
| MainFunctions.RegionColumns | src/main_functions.py:124-142 | the row loop builds exactly those rows, in table order |
| MainFunctions.BasenameIsFileName | src/main_functions.py:149 | the column name of a bam file has no `/` and is a tail of its path |
| MainFunctions.Basenames | src/main_functions.py:149 | the column names of the bam files, one per file, in list order |
| MainFunctions.AllParseAt | src/main_functions.py:164-166 | in a fully readable file every line's coordinates parse |
| MainFunctions.MappedLoci | src/main_functions.py:162-167 | one mapped locus per data line: the `j`-th is line `j`'s chromosome and span, strand `.`, and line `j`'s id |
| MainFunctions.StartOnlyCoordinates | src/main_functions.py:165-166 | a coordinate that stops after its start, such as `chr1(+):100`, does not parse and raises the `IndexError` of line 166 |
| MainFunctions.BadStartCoordinates | src/main_functions.py:165 | a coordinate whose start is not a number raises the `ValueError` of line 165, even when an end follows |
| MainFunctions.LineErrorAt | src/main_functions.py:162-166 | when line `i` is the first unreadable line, the file is unreadable and its error is line `i`'s |
| MainFunctions.BuildSignalDict | src/main_functions.py:159-175 | the line loop reports an unreadable coordinate exactly when there is one, with the error of the first such line; otherwise it builds the mapped collection and the weighted signal dictionary |
| MainFunctions.SignalIsWeightedSum | src/main_functions.py:162-187 | with one line per id, a region's signal is the sum of signal × span over the mapped lines that overlap it, and a line without a numeric signal adds 0 |
| MainFunctions.RowSignal | src/main_functions.py:181-187 | the per-row loop sums the dictionary values of the mapped regions overlapping the row, with 0 for a missing id |
| MainFunctions.AddSignalColumn | src/main_functions.py:180-187 | every row gains, as its last value, its signal in the sample |
| MainFunctions.AppendSignalColumn | src/main_functions.py:180-187 | the in-place row update appends that signal to every row and changes nothing else |
| MainFunctions.SampleNames | src/main_functions.py:178 | the header names added by the samples, in sample order |
| MainFunctions.AddColumnsHeader | src/main_functions.py:147-178 | the header gains the sample names in sample order and the row count is unchanged |
| MainFunctions.SignalsOver | src/main_functions.py:147-187 | one signal per sample, the `k`-th being the region's signal in the `k`-th sample |
| MainFunctions.AddColumnsRow | src/main_functions.py:180-187 | each row keeps its fixed columns and gains one signal per sample, in sample order |
| MainFunctions.ParseSamplesIff | src/main_functions.py:147-166 | reading the samples fails exactly when some sample has an unreadable coordinate |
| MainFunctions.ParseSamplesError | src/main_functions.py:147-166 | the run stops at the first sample with an unreadable coordinate, with the error of that sample's first unreadable line |
| MainFunctions.ParseSamplesNames | src/main_functions.py:147-149 | a successful read yields one entry per sample, named after its bam file |
| MainFunctions.ParseSamplesAt | src/main_functions.py:157-177 | the `k`-th entry of a successful read is the collection and dictionary of the `k`-th sample |
| MainFunctions.ParseSamplesExtend | src/main_functions.py:162-175 | a readable sample extends the samples read so far by its own entry |
| MainFunctions.ParseSamplesStop | src/main_functions.py:164-166 | an unreadable sample after readable ones makes the whole run fail with that sample's error |
| MainFunctions.AddColumnsSnoc | src/main_functions.py:178-187 | adding one more sample adds its column after the earlier ones |
| MainFunctions.SampleColumns | src/main_functions.py:146-187 | the sample loop adds one column per bam file in order, or stops with the error of the first unreadable mapped GFF |
| MainFunctions.MapCollection | src/main_functions.py:99-189 | the table written is the specified region table: ordered regions, fixed columns, then one signal column per bam file |
| MainFunctions.MappedTableFailsIff | src/main_functions.py:164-166 | the table fails exactly when the mapped GFF of some bam file has an unreadable coordinate |
| MainFunctions.MappedTableError | src/main_functions.py:147-166 | when the `k`-th bam file is the first with an unreadable mapped GFF, the run stops with the error of that file's first unreadable line |
| MainFunctions.MappedTableHeader | src/main_functions.py:110-178 | the header is the six fixed names followed by the bam file names in list order, and there is one row per region |
| MainFunctions.MappedTableRow | src/main_functions.py:129-142 | row `i` describes the `i`-th region in table order (id, chromosome, span, stitch count, constituent size) and has one signal per bam file |
| MainFunctions.MappedTableOrdered | src/main_functions.py:114-125 | no row is on chrY, and an earlier row is never shorter than a later one |
| MainFunctions.MappedTableSignal | src/main_functions.py:147-187 | the `k`-th signal of row `i` is the region's signal in the mapped GFF of the `k`-th bam file |
| Strings.Split | src/main_functions.py:149 | `split` yields at least one piece, and no piece contains the separator |
| Strings.ParseNatToString | src/main_functions.py:138 | `int(str(n)) == n` for every natural `n` |
| Annotation.DropDuplicateNames | src/utils/annotation.py:51 | de-duplication never adds rows |
| Annotation.DropDuplicateNamesFirst | src/utils/annotation.py:51 | every kept row is the first row of the table with its name |
| Annotation.DropDuplicateNamesOrdered | src/utils/annotation.py:51 | the kept rows keep the table order |
| Annotation.DropDuplicateNamesComplete | src/utils/annotation.py:51 | every name of the table keeps a row |
| Annotation.MakeStartDict | src/utils/annotation.py:50-55 | each record is built from the first refseq row with its id, with start and end swapped on `-` rows and chrom and name2 carried through; ids are unique and in first-occurrence order; every transcript has a record |
| Conversion.FirstValueStart | src/utils/conversion.py:22 | the leftmost position where a value can follow the key, or none |
| Conversion.QuoteFreeRun | src/utils/conversion.py:22 | the greedy run of non-quote characters: quote-free, and ending at a quote or the end of the entry |
| Conversion.Search | src/utils/conversion.py:21-22 | absent exactly when `attr "` does not occur; otherwise `attr=` and the value of the first match, which is non-empty and quote-free; the `findall` IndexError exactly when no value follows any occurrence |
| Conversion.PresentFailsIff | src/utils/conversion.py:80-82 | collecting the present attributes fails exactly when one search raises |
| Conversion.PresentAtFoundIndices | src/utils/conversion.py:80-82 | the `j`-th collected pair is the search result of the `j`-th found attribute |
| Conversion.FoundIndicesSound | src/utils/conversion.py:80-82 | every found position is an attribute the entry carries |
| Conversion.FoundIndicesIncrease | src/utils/conversion.py:80-82 | found positions follow the order of the attribute list |
| Conversion.FoundIndicesComplete | src/utils/conversion.py:80-82 | every attribute the entry carries is found |
| Conversion.AttributeColumn | src/utils/conversion.py:80-82 | the new ninth column joins each row's present pairs with `;`, or fails exactly when some row's search raises |
| Conversion.GtfToGff3 | src/utils/conversion.py:59-88 | the written file is the two directives followed by every row with only its ninth column rewritten, the 17 names when `full` and gene_id then transcript_id otherwise |
| Conversion.RowLineSplits | src/utils/conversion.py:56 | a written line splits back into its nine fields when no text field holds a tab |
| Conversion.BedRowToGff3 | src/utils/conversion.py:40-50 | a BED base `x` is in the row exactly when GFF3 base `x + 1` is; the length is kept; seqid, score and strand are copied; source and phase are `.`; type is `sequence_feature` |
| Conversion.BedRowRoundTrip | src/utils/conversion.py:40-50 | the converted row reads back to the BED row it came from |
| Conversion.BedToGff3 | src/utils/conversion.py:36-56 | the written file is the two directives followed by one converted line per BED row, in order |
| FileHelper.GetPath | src/utils/file_helper.py:53-54 | fails exactly when no component is `ROSE`; otherwise a prefix of cwd whose components are cwd's up to the first `ROSE`, ending in that `ROSE` |
| FileHelper.GetPathAtRoot | src/utils/file_helper.py:53-54 | when the only `ROSE` is the last component, the result is cwd itself |
| Strings.JoinSplit | src/utils/file_helper.py:54 | joining the pieces of a split gives the string back |
| Strings.FirstIndex | src/utils/file_helper.py:53 | `list.index`: the first position holding the element, or the length when there is none |

## Left out

- File and console I/O is not modelled:
  - pandas `read_csv`/`to_csv` and `parseTable`/`unParseTable`;
  - the mapped GFF is read through a function parameter;
  - the files written are returned as lines or as a table;
  - `Path.cwd()` is a parameter.
- `print`, `sys.exit` and the progress tickers (`removeTicker`, `originalTicker`, `ticker`) are left out. The abort is a `Fail` outcome carrying the message. The removal count is covered by the number of `CONTAINED` rows.
- `stitchCollection` is a function parameter: its merge algorithm lives in `ROSE_utils`, which is not part of this model. `makeTSSLocus` lives there too; it is modelled as `MainFunctions.TssLocus`, the window `[start - flank, start + flank]`.
- The `LocusCollection` bucket index is not modelled. A collection is a sequence, and its queries return matches in collection order.
- Tie order: `ROSE_utils.order` is not part of this model. The sort is stable by length, and no tie order of the source is claimed.
- `ROSE_utils.makeStartDict` is taken to be the table `Annotation.MakeStartDict` builds, keyed by its unique ids. The name lookup `startDict[id]['name']` is read straight from the gene record.
- Signals are `real`. IEEE rounding of `float()` and of the products and sums is not modelled.
- Python `int()` accepts whitespace, signs and underscores; only plain digit strings are modelled as numbers.
- Regular-expression metacharacters in attribute names are not modelled. `search` is modelled for literal keys such as the fixed GTF attribute names.
- A mapped line with fewer than three columns is not modelled. Each line is modelled as id, coordinate text and signal.
- BedRowToGff3 and BedToGff3: a BED row is modelled with all six columns, and its name as text. Two failures of `bed_to_gff3` are not modelled: a BED3 to BED5 file has no column 4 or 5, so `iloc[:, 4]` and `iloc[:, 5]` raise `IndexError` (src/utils/conversion.py:46-47); and a name column that pandas reads as numbers makes `"name=" + ...` raise `TypeError` (src/utils/conversion.py:49).
- `check_file` and `check_path` are filesystem checks and are not modelled.
