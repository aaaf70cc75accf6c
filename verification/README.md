# Verified model of RustDB's scan layer

RustDB skips files, row groups, pages and bytes, and shares work among concurrent tasks, without
changing a query's answer. This project models the code that keeps that promise and proves it.

- **Parquet planning.** A table is a list of files; a file has row groups of nullable, typed values
  with statistics, Bloom filters and a page index. Predicates have SQL's three truth values. The main
  theorem, `ScanPlan.PlanMorsels`, covers the whole cascade of Hive, statistics, Bloom and page
  pruning, row filters, exact requests and limits: filtering what the planned morsels deliver gives
  exactly what filtering the whole table gives. It rests on the soundness of every layer, and most
  layers are also shown exact: they rule out a comparison if and only if the metadata allow it.
- **CSV splitting.** A record-level reference, the byte-at-a-time automaton, the memchr fast path and
  the sampler's separate loop are shown to agree for every dialect, target and chunking of the input,
  and to find again the rows that a writer of plain, doubled and escaped fields wrote.
- **Concurrency.** Single-flight loading and the shared row limit are transition systems over every
  interleaving, with safety, conservation and termination results. The two-level cache, the pruning
  budget and the catalogs are classes proved against value-level specifications, over every run.
- **Arithmetic.** Civil dates, decimal rescaling, sign extension, byte widths and timestamp units,
  against independent definitions.

Each module has the name of the component it models. `Common`, `RowStreams` and `Ranges` hold shared
vocabulary. Check everything with `dafny verify dfyconfig.toml`.

## What the code does not do

Seven properties one would expect are false of the code. The model keeps the code and proves exactly
when each holds; the failing inputs are lemmas too.

- A date whose day number fits 32 bits is still rejected when the sum before the last subtraction does
  not fit (`CivilDate.Date32Exact`, `CivilDate.Date32RejectsRepresentable`).
- A decimal rescale gives up on zero when the scales are more than 38 digits apart
  (`Decimals.RescaleFailsExactly`, `Decimals.RescaleDropsWideZero`).
- With the quote as its own escape, the CSV sampler and the splitter can disagree on whether the input
  ends inside quotes (`CsvInfer.SampledQuoteExact`, `CsvInfer.SampledQuoteCanDiffer`).
- With the quote as its own escape, which the options do not refuse, a quoted field never ends and its
  row is not one record; every other dialect splits written rows exactly
  (`CsvEncoding.WrittenRowIsRecord`, `CsvEncoding.NeverCloses`).
- The cache's byte count stops being the sum of the weights once an addition saturates
  (`MetadataCache.InsertExactIffNoOverflow`, `MetadataCache.OverflowLosesCount`); a limit of at most
  half the counter's range rules that out (`MetadataCache.RunIsExact`).

- `IS NOT NULL` on a struct or list with a single leaf loses rows: the code trusts the leaf's null
  count and null pages, and a leaf can be null where its column is present
  (`RowGroupPruning.UntrustedPrunesMatches`, `PagePruning.UntrustedLosesMatches`). Pruning is sound for
  every predicate without such a test (`PagePruning.Trusted`); `IS NULL` is always safe.
- Pinning a catalog takes two locks in turn, so a pinned answer can be one the live session never gave
  (`Catalog.PinMixesMoments`); `Catalog.Pin` and `Catalog.PinAnswersFirstMoment` say when it is.

A batch without rows ends its file early in the shared CSV scan, with or without a limit. The decoder
does not produce such batches; `RowLimit.CompleteScan` holds without that assumption by speaking of
the rows before the first empty batch, and `RowLimit.VisibleIsWholeFile` says when these are all.

The documentation of `ScanPredicate::Or` in src/datasource/provider.rs promises a disjunction on one
column. The code never relies on it, and neither do the theorems here.

## What is assumed

- Metadata keep the Parquet format's promises (`ParquetFiles.FileValid`): bounds and null counts are
  right for the values of their page or row group, in the column's own order, and Bloom filters have
  no false negatives. Nothing is demanded of metadata no layer reads
  (`ParquetFiles.UnreadMetadataIsFree`). Missing, partial and malformed page indexes and corrupt Bloom
  filters are handled as the code handles them.
- A column's values are stored in the physical type that its type suggests; in particular a Bloom
  filter on timestamps hashes 64-bit integers, not the obsolete 96-bit form.
- Comparisons between a column type and a literal that no pruning layer understands mean anything at
  all: every theorem holds for every `Predicates.Coercion`.
- Machine integers are unbounded except where the code checks, saturates or reinterprets them.
- Lock-protected sections are atomic steps; a watch channel delivers the last outcome sent.

## Model

| member | source | states |
|---|---|---|
| `CsvRecords.BoundaryStable` | src/datasource/csv_morsel.rs:114-152 | bytes arriving after a record boundary never move it |
| `CsvRecords.BoundaryShift` | src/datasource/csv_morsel.rs:114-152 | where a record ends depends only on the bytes from its start on, so splitting may restart at any boundary |
| `CsvRecords.RecordsPartition` | src/datasource/csv_morsel.rs:114-152 | for every input the records laid end to end are the input |
| `CsvRecords.CompleteRecordsAreRecords` | src/datasource/csv_morsel.rs:114-152 | every terminated record re-scans to exactly one record, and no boundary lies in the tail |
| `CsvRecords.ResplitRecords` | src/datasource/csv_morsel.rs:114-152 | any concatenation of records followed by any tail splits back into those records and the tail's |
| `CsvRecords.PackConcat` | src/datasource/csv_morsel.rs:91-112 | packing records into morsels loses and reorders nothing |
| `CsvRecords.PackIsMinimalGrouping` | src/datasource/csv_morsel.rs:91-112 | every morsel but the last reaches the target with its last record and with no earlier one; groups of records and morsels correspond one to one |
| `CsvMorsel.StepExtend` | src/datasource/csv_morsel.rs:114-152 | a scanner move made without end of input is the same move when more bytes are present |
| `CsvMorsel.RunResumes` | src/datasource/csv_morsel.rs:32-35 | stopping for lack of bytes and resuming equals having had all bytes from the start, in state and in output |
| `CsvMorsel.ChunkingIsInvisible` | src/datasource/csv_morsel.rs:32-45 | for every way of cutting the input into pushes, all pushes and the finish together cut the morsels of one push and finish |
| `CsvMorsel.RunToBoundary` | src/datasource/csv_morsel.rs:114-152 | at end of input the scanner moves to the next record boundary of the reference splitter, or to the end |
| `CsvMorsel.DrainPacksRecords` | src/datasource/csv_morsel.rs:37-45 | with whole records already buffered, the rest of a run packs the remaining records greedily |
| `CsvMorsel.FeedDeliversMorsels` | src/datasource/csv_morsel.rs:32-152 | for all dialects, targets, header flags and chunkings the splitter delivers the morsels the record-level reference prescribes |
| `CsvMorsel.MorselsCoverInput` | src/datasource/csv_morsel.rs:37-45 | the morsels concatenate to the input, minus its first record when a header is skipped |
| `CsvMorsel.HeaderIsOneRecord` | src/datasource/csv_morsel.rs:101-105 | skipping the header is splitting what follows the first record |
| `CsvMorsel.MorselsResplit` | src/datasource/csv_morsel.rs:91-112 | re-splitting the morsels independently gives exactly the records of the stream, and each non-final morsel ends at a boundary and is minimal for the target |
| `CsvMorsel.RecordMorselizer.constructor` | src/datasource/csv_morsel.rs:15-30 | a new splitter is in the fresh state |
| `CsvMorsel.RecordMorselizer.Push` | src/datasource/csv_morsel.rs:32-35 | appends the bytes and performs exactly the reference run without end of input |
| `CsvMorsel.RecordMorselizer.Finish` | src/datasource/csv_morsel.rs:37-45 | performs the reference run at end of input, drops an unfinished header, and flushes the rest |
| `CsvMorsel.RecordMorselizer.Scan` | src/datasource/csv_morsel.rs:51-56 | both scanners are the same run: same state, same morsels |
| `CsvMorsel.RecordMorselizer.ScanUnescaped` | src/datasource/csv_morsel.rs:58-112 | the memchr fast path ends in the same state with the same morsels as the byte-at-a-time run |
| `CsvMorsel.RecordMorselizer.Seek` | src/datasource/csv_morsel.rs:61-86 | each jump of the fast path, the cut of a newline landing on the target included, stays on the byte-at-a-time run |
| `CsvMorsel.RecordMorselizer.ConsumeSpecial` | src/datasource/csv_morsel.rs:87-109 | handling a quote or newline is one step of the reference scanner |
| `CsvMorsel.RecordMorselizer.ScanWithEscape` | src/datasource/csv_morsel.rs:114-152 | the byte loop is the reference run |
| `CsvMorsel.RecordMorselizer.ConsumeByte` | src/datasource/csv_morsel.rs:117-150 | one turn of the byte loop is one step of the reference scanner, or waits and changes nothing |
| `CsvMorsel.Memchr2` | src/datasource/csv_morsel.rs:64 | the contract of memchr2: the first of two bytes in a range, or neither is there |
| `CsvInfer.CompletePrefix` | src/datasource/csv_infer.rs:355-384 | the sampler's separate loop finds the end and the number of the reference splitter's whole records |
| `CsvInfer.CountsRecords` | src/datasource/csv_infer.rs:379-384 | at the end of a file outside quotes all records count, the unterminated last one too; otherwise the terminated ones |
| `CsvInfer.SampledQuoteExact` | src/datasource/csv_infer.rs:361-380 | the sampler's final quote flag is the splitter's if and only if the escape is not the quote or no dangling escape ends the sample |
| `CsvInfer.SampledQuoteCanDiffer` | src/datasource/csv_infer.rs:361-364 | a three-byte input with the quote as its own escape on which the two flags differ |
| `CsvInfer.BoundariesAreStable` | src/datasource/csv_infer.rs:355-384 | the records a sample completes are the first records of every extension of the sample, and later records end beyond it |
| `CsvInfer.QuotedAtEndIsSplitterFlag` | src/datasource/csv_morsel.rs:114-152 | the quote state used for sampling is the streaming splitter's, wherever it cut morsels |
| `CsvInfer.CsvInput.Read` | src/datasource/csv_infer.rs:225-248 | a read returns a non-empty next piece unless it was given no room or the input is exhausted |
| `CsvInfer.ReadSample` | src/datasource/csv_infer.rs:147-223 | the growth loop terminates, always reads with room below the cap, stops with enough whole records or at the true end, and fails only for the cap or for less memory than the lesser of the cap and the greater of the first reservation and twice the input; the no-progress error is unreachable |
| `CsvEncoding.WrittenRowIsRecord` | src/datasource/csv_morsel.rs:114-152 | a row written with plain fields, quoted fields with doubled quotes or quoted fields with escapes, whatever bytes they hold, is exactly one record, for every dialect unless the quote is its own escape and a field is quoted |
| `CsvEncoding.NeverCloses` | src/datasource/csv_morsel.rs:118-124 | with the quote as its own escape no quote inside quotes ever closes them |
| `CsvEncoding.WrittenRowsSplit` | src/datasource/csv_morsel.rs:114-152 | rows written one after the other split back into exactly those rows |
| `CsvEncoding.SplitterKeepsRows` | src/datasource/csv_morsel.rs:32-152 | for every chunking both scanners pack whole written rows into morsels, without the first when a header is skipped |
| `CsvEncoding.SamplerCountsRows` | src/datasource/csv_infer.rs:355-384 | the sampler counts the written rows and ends where they end |
| `Predicates.TrueFromLeaves` | src/datasource/provider.rs:109-125 | whether a predicate tree is TRUE depends only, and monotonically, on which leaves are TRUE |
| `Decimals.RescaleDenotesSame` | src/datasource/parquet_page_values.rs:182-196 | a successful rescale is the same rational and fits 128 bits |
| `Decimals.RescaleFailsExactly` | src/datasource/parquet_page_values.rs:182-196 | a rescale of a 128-bit value fails if and only if no 128-bit value at the target scale is the same rational, or the value is zero and the scales are more than 38 apart |
| `Decimals.RescaleDropsWideZero` | src/datasource/parquet_page_values.rs:187-188 | zero at scale 0 is zero at scale 39, yet the rescale gives up |
| `Decimals.RescaledComparison` | src/datasource/parquet_page_values.rs:165-180 | comparing stored integers with the rescaled literal is comparing the rationals |
| `Decimals.DecodeIsTwosComplement` | src/datasource/parquet_page_values.rs:245-253 | for lengths 1 to 16 the sign-extending decode is the two's-complement value; other lengths decode to nothing |
| `Decimals.DecimalByteWidthIsLeast` | src/datasource/parquet_page_values.rs:237-243 | the byte width is the least that holds every value of the precision |
| `Decimals.TimestampPhysicalIsExact` | src/datasource/parquet_bloom.rs:395-403 | a stored timestamp equals a microsecond literal if and only if it is the converted literal, overflow and inexact units included |
| `PageValues.ExcludesIntExact` | src/datasource/parquet_page_values.rs:255-270 | integer bounds exclude a comparison if and only if no integer between them satisfies it |
| `PageValues.ExcludesBytesExact` | src/datasource/parquet_page_values.rs:272-295 | the same for byte strings in lexicographic order |
| `PageValues.ComparisonExcludesSound` | src/datasource/parquet_page_values.rs:10-95 | on an excluded page the comparison is FALSE on every value and UNKNOWN on every null, for every index kind, type and literal |
| `PageValues.ComparisonExcludesExact` | src/datasource/parquet_page_values.rs:10-95 | where both bounds are present and the literal can be placed between them, a page is excluded if and only if no value within the bounds can match |
| `RowGroupPruning.ExcludesAllSound` | src/datasource/parquet_pruning.rs:114-150 | statistics that exclude a comparison leave no value on which it is TRUE |
| `RowGroupPruning.ExcludesAllExact` | src/datasource/parquet_pruning.rs:114-198 | with both bounds present and untruncated, statistics exclude a comparison if and only if no enclosed value can match |
| `RowGroupPruning.CanPruneExact` | src/datasource/parquet_pruning.rs:31-90 | a predicate tree is pruned if and only if it would not be TRUE even with every unpruned leaf TRUE |
| `RowGroupPruning.LeafPrunesExact` | src/datasource/parquet_pruning.rs:60-89 | a leaf is pruned, in terms of the sole leaf's statistics alone, if and only if no null is counted, only nulls are counted, or no value within decidable bounds can match; never without statistics |
| `RowGroupPruning.CanPruneSound` | src/datasource/parquet_pruning.rs:31-90 | no row of a pruned row group makes the predicate TRUE, for every trusted predicate tree and valid statistics |
| `RowGroupPruning.UntrustedPrunesMatches` | src/datasource/parquet_pruning.rs:80-89 | for every schema with a column whose one leaf is nested, a valid row group that IS NOT NULL prunes although its row is present |
| `ParquetFiles.ColumnLeaf` | src/datasource/parquet_page_pruning.rs:246-262 | a table column is found by name and gives the one leaf of its file column; nothing when the column is missing or has no or several leaves |
| `ParquetFiles.UnreadMetadataIsFree` | src/datasource/parquet_pruning.rs:114-150 | validity demands nothing of metadata no layer reads: signed bounds of large unsigned values, null counts of a struct of two leaves, Bloom filters on decimals |
| `ParquetFiles.TableRowWellTyped` | src/datasource/parquet_scan.rs:252-316 | a file row read into the table's columns is well typed, missing columns null and partition columns fixed |
| `Ranges.PushRange` | src/datasource/parquet_page_pruning.rs:323-331 | appending a range merges it with an adjacent last one: same rows plus the new ones, still in normal form |
| `Ranges.IntersectRanges` | src/datasource/parquet_page_pruning.rs:333-349 | exact intersection of two ordered range lists, in sorted, disjoint, maximally merged form |
| `Ranges.UnionRanges` | src/datasource/parquet_page_pruning.rs:351-369 | exact union of two range lists, in sorted, disjoint, maximally merged form |
| `Ranges.SortByStart` | src/datasource/parquet_page_pruning.rs:357 | the sorted list is a permutation ordered by start |
| `Ranges.MergeRange` | src/datasource/parquet_page_pruning.rs:359-367 | merging the next range in start order adds exactly its rows and keeps the normal form |
| `Ranges.TotalIsCount` | src/datasource/parquet_page_pruning.rs:73-75 | in normal form the lengths add up to the number of selected rows |
| `PagePruning.ValidateLocations` | src/datasource/parquet_page_pruning.rs:264-302 | locations are accepted if and only if they are valid: positive sizes, first row zero, strictly increasing, within the group |
| `PagePruning.PagesPartition` | src/datasource/parquet_page_pruning.rs:205-210 | validated pages are non-empty intervals that cover every row of the group exactly once |
| `PagePruning.PageExcludedSound` | src/datasource/parquet_page_pruning.rs:304-321 | no row of an excluded page makes the atom TRUE |
| `PagePruning.PageExcludedExact` | src/datasource/parquet_page_pruning.rs:304-321 | a page is excluded if and only if its index leaves no match possible: no null counted, marked null or only nulls counted, or no value within decidable bounds that satisfies the comparison |
| `PagePruning.AtomUsageExact` | src/datasource/parquet_page_pruning.rs:142-201 | an atom goes unused exactly without a page index on a sole leaf, and is an error exactly when that index is inconsistent, each error for its own reason |
| `PagePruning.BranchesUsageExact` | src/datasource/parquet_page_pruning.rs:105-126 | a disjunction is usable if and only if every branch is; else its first unusable branch decides |
| `PagePruning.KeepsExact` | src/datasource/parquet_page_pruning.rs:85-134 | a row survives a usable predicate with decidable pages if and only if its pages leave a match possible |
| `PagePruning.SelectionIsPossible` | src/datasource/parquet_page_pruning.rs:50-82 | the selection is exactly the rows whose pages leave a match of every usable conjunct possible |
| `PagePruning.UnsupportedIsUnused` | src/datasource/parquet_page_pruning.rs:19-31 | where the page index is not asked for, no conjunct could have used it |
| `PagePruning.AtomRangesOf` | src/datasource/parquet_page_pruning.rs:142-227 | an atom is unusable, broken or selects exactly the rows of the pages it does not exclude; errors and fall-backs each exactly when the index says so |
| `PagePruning.SurvivingPages` | src/datasource/parquet_page_pruning.rs:203-226 | the loop over pages collects exactly the kept pages, merged into normal form |
| `PagePruning.KeepsSound` | src/datasource/parquet_page_pruning.rs:85-134 | every row on which a usable predicate tree is TRUE survives it |
| `PagePruning.PredicateRanges` | src/datasource/parquet_page_pruning.rs:85-134 | a disjunction selects exactly the rows that some branch selects, and is unusable as soon as one branch is |
| `PagePruning.CollectConjuncts` | src/datasource/parquet_page_pruning.rs:229-244 | flattens nested conjunctions in order |
| `PagePruning.ConjunctsTrue` | src/datasource/parquet_page_pruning.rs:229-244 | the predicate is TRUE if and only if all its conjuncts are |
| `PagePruning.SelectRanges` | src/datasource/parquet_page_pruning.rs:50-72 | the loop over conjuncts intersects the usable ones, stopping early on an empty selection without changing the answer |
| `PagePruning.NarrowSelection` | src/datasource/parquet_page_pruning.rs:51-68 | one conjunct narrows the selection to the rows it keeps |
| `PagePruning.PrunePages` | src/datasource/parquet_page_pruning.rs:33-82 | the selection is exactly the rows that survive every usable conjunct and, where pages are decidable, exactly those whose pages leave a match possible; in normal form; selected and pruned rows add up to the group; nothing when no conjunct is usable; an error only for a broken conjunct |
| `PagePruning.SelectionSound` | src/datasource/parquet_page_pruning.rs:33-82 | every row on which the predicate is TRUE lies in the selection, for all trusted predicate trees and valid page bounds |
| `PagePruning.UntrustedLosesMatches` | src/datasource/parquet_page_pruning.rs:313-318 | for every schema with a column whose one leaf is nested, a valid page that a test of the column excludes although the test is TRUE on its row |
| `Bloom.BloomValueIsFaithful` | src/datasource/parquet_bloom.rs:352-383 | a literal's Bloom key is the key of a stored value if and only if the two are equal; a literal declared absent equals no stored value |
| `Bloom.EqualValuesShareKey` | src/datasource/parquet_bloom.rs:352-383 | a stored value equal to the literal was added under the literal's key, unsigned and timestamp encodings included |
| `Bloom.LookupExists` | src/datasource/parquet_bloom.rs:352-383 | a literal can be looked up in exactly the columns whose type has a Bloom key and whose values it compares to |
| `Bloom.AbsentUnasked` | src/datasource/parquet_bloom.rs:352-403 | a literal is absent without asking if and only if no value of the stored type equals it |
| `Bloom.AnswerExact` | src/datasource/parquet_bloom.rs:65-214 | for a literal the column could hold, the answer is what the column's filter says of that value's key, unknown without a filter, an error for a corrupt one |
| `Bloom.SameColumnEqualities` | src/datasource/parquet_bloom.rs:306-325 | a disjunction gives a group exactly when it is non-empty and all its members are equalities on one column |
| `Bloom.CollectEqualityGroups` | src/datasource/parquet_bloom.rs:277-304 | the accumulator loop collects the groups of the tree in order |
| `Bloom.GroupsAreConjuncts` | src/datasource/parquet_bloom.rs:277-304 | the groups are exactly the equalities and same-column disjunctions among the conjuncts |
| `Bloom.GroupsAreNecessary` | src/datasource/parquet_bloom.rs:277-304 | where the predicate is TRUE some member of every group is TRUE |
| `Bloom.AbsentSound` | src/datasource/parquet_bloom.rs:65-214 | an equality answered absent is TRUE on no row of the group |
| `Bloom.AllAbsentSound` | src/datasource/parquet_bloom.rs:31-61 | one wholly absent group means no row makes the predicate TRUE |
| `Bloom.BloomPrunes` | src/datasource/parquet_bloom.rs:20-61 | prunes if and only if some group is wholly absent; fails only on reaching a corrupt filter |
| `CivilDate.DayNumberCounts` | src/datasource/hive.rs:388-396 | for every year the closed form is the day-by-day Gregorian count from 1970-01-01 |
| `CivilDate.EpochIsZero` | src/datasource/hive.rs:388-396 | 1970-01-01 is day zero |
| `CivilDate.DayNumberSuccessor` | src/datasource/hive.rs:388-396 | every calendar successor is the next integer |
| `CivilDate.DayNumberOrder` | src/datasource/hive.rs:388-396 | day numbers order valid dates exactly as the calendar does |
| `CivilDate.Date32Exact` | src/datasource/hive.rs:361-397 | a date is accepted, with its day number, if and only if it is valid and its day is at most 2^31 - 1 - 719468 |
| `CivilDate.Date32RejectsRepresentable` | src/datasource/hive.rs:394-396 | 5879611-01-01 has a day number that fits 32 bits and is rejected |
| `HiveValues.SplitJoined` | src/datasource/hive.rs:362-366 | splitting undoes joining: the parts are the only ones free of the separator that join to the text |
| `HiveValues.DigitsOfRendered` | src/datasource/hive.rs:363-365 | a rendered number behind any zeros reads back as itself |
| `HiveValues.DigitsAreRendered` | src/datasource/hive.rs:363-365 | every run of digits is a rendered number behind some zeros |
| `HiveValues.ParseIntegerExact` | src/datasource/hive.rs:363-365 | a text without a minus parses to a number if and only if it spells it, with an optional plus and leading zeros, in range |
| `HiveValues.ParseSignedExact` | src/datasource/hive.rs:273 | every text, with a minus or not, parses to a number if and only if it spells it in range |
| `HiveValues.ParseBoolExact` | src/datasource/hive.rs:351-359 | a text parses to a flag if and only if it is the flag's word with letters of either case; no text parses to both |
| `HiveValues.DatePartsExact` | src/datasource/hive.rs:362-368 | a text has the parts year, month and day if and only if it joins their spellings with dashes |
| `HiveValues.ParseDate32Exact` | src/datasource/hive.rs:361-397 | three parsed numbers are accepted, with their counted day, if and only if they form a valid date that leaves room for the intermediate sum |
| `HiveValues.ParsesToDenotedDay` | src/datasource/hive.rs:361-397 | a text parses to a day if and only if it spells such a date of that day |
| `Hive.InferColumn` | src/datasource/hive.rs:315-337 | the type all present values share, else text; nullable if and only if a value is missing |
| `Hive.InferValueExact` | src/datasource/hive.rs:339-349 | a value is a flag if it spells one, else an integer, else a date, else text |
| `Hive.MaterialisedExact` | src/datasource/hive.rs:268-282 | a partition cell holds exactly the flag, number or day its path spells, or the text |
| `Hive.SameNameExact` | src/datasource/hive.rs:57-68 | names are matched up to the case of ASCII letters |
| `Hive.InferredValuesParse` | src/datasource/hive.rs:254-283 | every present value parses under the inferred type, and a non-nullable column has no null |
| `Hive.CollectNames` | src/datasource/hive.rs:54-82 | names in order of first appearance; refused if and only if a name is a file column or two differ only in case |
| `Hive.AddName` | src/datasource/hive.rs:57-77 | one name is added once, or refused for exactly those reasons |
| `Hive.InferColumns` | src/datasource/hive.rs:96-108 | each partition column is inferred from its values over all files |
| `Hive.FromMaps` | src/datasource/hive.rs:50-115 | discovery succeeds if and only if the names are consistent, finds nothing if and only if there are no names, and else infers every column |
| `Hive.DiscoveredIsValid` | src/datasource/hive.rs:50-115 | a discovered table has one value per file and column and distinct names |
| `Hive.LookupCarries` | src/datasource/hive.rs:84-95 | a file's value for a name is that of the last part of its path with the name, or none |
| `Hive.FirstSeenOrder` | src/datasource/hive.rs:54-79 | of two names the earlier in the list appears earlier in the paths |
| `Hive.DiscoveredCarries` | src/datasource/hive.rs:50-115 | every file has the values its path carries, and the columns are the names of all paths in order of first appearance |
| `Hive.ComparisonPrunesExact` | src/datasource/hive.rs:210-247 | a comparison on a partition column is pruned only if it is not TRUE on the materialised value, and exactly then for the pairs pruning knows |
| `Hive.PredicatePrunesSound` | src/datasource/hive.rs:187-208 | no row of a pruned file makes the predicate TRUE |
| `Hive.PredicatePrunesExact` | src/datasource/hive.rs:187-208 | for a predicate on partition columns a file is pruned if and only if the predicate is not TRUE on its rows |
| `RowFilter.CollectFileLeaves` | src/datasource/parquet_row_filter.rs:190-232 | the recursion collects the leaves of the tree in order |
| `RowFilter.ColumnMaskTrue` | src/datasource/parquet_row_filter/column.rs:38-50 | a column's mask holds where all its leaves are TRUE |
| `RowFilter.GroupByFileColumn` | src/datasource/parquet_row_filter/column.rs:101-118 | one group per file column used, holding exactly the leaves on it, in order and as often as they occur |
| `RowFilter.AddLeaf` | src/datasource/parquet_row_filter/column.rs:104-115 | one leaf is appended to its column's group or opens a new one |
| `RowFilter.FilterIsConjunction` | src/datasource/parquet_row_filter.rs:87-105 | the grouped filter passes a row if and only if every leaf is TRUE on it |
| `RowFilter.LeavesAreImplied` | src/datasource/parquet_row_filter.rs:190-243 | where the predicate is TRUE every collected leaf is TRUE |
| `RowFilter.LeavesAreExact` | src/datasource/exact_filter.rs:8-75 | for a supported predicate the leaves are all TRUE if and only if the predicate is |
| `RowFilter.TryNew` | src/datasource/parquet_row_filter.rs:68-85 | there is a filter if and only if some leaf could be collected |
| `RowFilter.TryNewExact` | src/datasource/parquet_row_filter.rs:49-66 | fails exactly for a missing or unsupported predicate; the could-not-construct error is unreachable |
| `RowFilter.SupportedExact` | src/datasource/exact_filter.rs:8-75 | exact filtering is supported for exactly the conjunctions of comparisons with a literal of the column's own type and null tests of such types, on columns the file has with the table's type |
| `RowFilter.LeavesAreConjuncts` | src/datasource/parquet_row_filter.rs:190-243 | the reader filters by exactly the supported leaves among the conjuncts |
| `RowFilter.SupportedHasLeaves` | src/datasource/parquet_row_filter.rs:63-65 | a supported predicate always yields a leaf |
| `ScanPlan.HivePrunedIsBarren` | src/datasource/parquet.rs:621-628 | a file skipped for its partition values holds no matching row |
| `ScanPlan.StatisticsPrunedIsBarren` | src/datasource/parquet.rs:714-726 | a row group skipped for its statistics holds no matching row |
| `ScanPlan.BloomPrunedIsBarren` | src/datasource/parquet.rs:731-750 | a row group skipped for its Bloom filters holds no matching row |
| `ScanPlan.PagesKeepMatches` | src/datasource/parquet.rs:849-860 | every matching row of a group lies in its page selection |
| `ScanPlan.FilterDelivers` | src/datasource/parquet.rs:674-695 | the file's row filter passes every matching row, and for an exact request only those |
| `ScanPlan.MaskKeepsMatches` | src/datasource/parquet_scan.rs:97-250 | the reader delivers every matching row, and for an exact request only those |
| `ScanPlan.MorselAgrees` | src/datasource/parquet/filtered_limit.rs:59-76 | what one morsel contributes agrees with its whole group as far as any consumer with the remaining limit can tell; exact morsels need no further filtering |
| `ScanPlan.StatisticsCandidates` | src/datasource/parquet.rs:713-726 | the candidates are the unpruned groups in order; every group left out is barren |
| `ScanPlan.BloomExcludes` | src/datasource/parquet.rs:735-749 | a group is dropped if and only if an equality group is wholly absent, and is then barren; an error points at a corrupt filter |
| `ScanPlan.BloomSurvivors` | src/datasource/parquet.rs:731-753 | the survivors are candidates no Bloom filter rules out; every group left out is barren |
| `ScanPlan.SelectPages` | src/datasource/parquet.rs:849-882 | the selection is exactly what the conjuncts keep, omitted only where they keep everything, with its number of rows; an error points at a broken page index |
| `ScanPlan.PlanGroup` | src/datasource/parquet.rs:838-893 | one candidate group is skipped or becomes a morsel, and the plan so far still answers the rows so far |
| `ScanPlan.PlanGroups` | src/datasource/parquet.rs:837-983 | the candidates of a file, in order, until the limit is used up |
| `ScanPlan.FileFilter` | src/datasource/parquet.rs:673-695 | the row filter of a file by request and schema mode, with the errors of each |
| `ScanPlan.PlanFile` | src/datasource/parquet.rs:632-983 | one file through all pruning layers, or a justified error |
| `ScanPlan.PlanUnlessPruned` | src/datasource/parquet.rs:620-631 | a file ruled out by its partition values is skipped unopened |
| `ScanPlan.FinishTable` | src/datasource/parquet.rs:629-631 | once a limit without predicate is used up, the remaining files change nothing |
| `ScanPlan.PlanMorsels` | src/datasource/parquet.rs:609-987 | for every table, limit, valid metadata and predicate that does not ask of a column with one nested leaf that it be present: filtering the rows the planned morsels deliver gives the rows that filtering the whole table gives, in order, up to the limit; an exact plan already delivers them, and a plan without predicate delivers nothing else; no morsel reads what an enabled layer rules out; every error is justified |
| `MetadataCache.Cache.constructor` | src/datasource/metadata_cache.rs:75-90 | a new cache is the empty run |
| `MetadataCache.Cache.Get` | src/datasource/metadata_cache.rs:217-221 | a lookup returns the held value and changes recency only |
| `MetadataCache.Cache.GetBloom` | src/datasource/metadata_cache.rs:147-151 | the same for Bloom filters |
| `MetadataCache.Cache.Insert` | src/datasource/metadata_cache.rs:338-357 | the new cache is the specified one: refused if too heavy, else pushed, counted with saturating arithmetic and evicted to budget |
| `MetadataCache.Cache.InsertBloom` | src/datasource/metadata_cache.rs:315-336 | the same for Bloom filters |
| `MetadataCache.Cache.EvictToBudget` | src/datasource/metadata_cache.rs:385-399 | pops exactly the fewest leading items that bring the count within budget; the reset branch is unreachable |
| `MetadataCache.DroppedIsLeast` | src/datasource/metadata_cache.rs:386-397 | what remains fits if and only if at least that many items were dropped |
| `MetadataCache.EvictedKeeps` | src/datasource/metadata_cache.rs:385-399 | eviction restores the budget, changes the count by exactly what it drops, and alters no surviving entry |
| `MetadataCache.InsertedIsHeld` | src/datasource/metadata_cache.rs:338-357 | a metadata entry that fits a limit above zero survives its own insertion; any other is ignored |
| `MetadataCache.BloomSparesMetadata` | src/datasource/metadata_cache.rs:315-336 | inserting a Bloom filter never evicts metadata |
| `MetadataCache.BloomStaysIffItFits` | src/datasource/metadata_cache.rs:315-336 | a Bloom filter stays if and only if it fits beside the metadata held |
| `MetadataCache.InsertExactIffNoOverflow` | src/datasource/metadata_cache.rs:350-353 | the count stays the sum of all weights if and only if the addition does not saturate |
| `MetadataCache.InsertBloomExactIffNoOverflow` | src/datasource/metadata_cache.rs:330-333 | the same for Bloom filters |
| `MetadataCache.OverflowLosesCount` | src/datasource/metadata_cache.rs:353 | two entries of half the counter's range: the count is no longer the sum |
| `MetadataCache.NextKeeps` | src/datasource/metadata_cache.rs:315-357 | every operation keeps the cache valid and holds only what it held or was just given |
| `MetadataCache.RunHoldsLatest` | src/datasource/metadata_cache.rs:338-357 | after every run a key holds its last admitted value or nothing |
| `MetadataCache.RunIsExact` | src/datasource/metadata_cache.rs:315-357 | with a limit of at most half the counter's range, after every run the count is the sum of the weights in both lists and within the limit |
| `MetadataCache.RunIsOrderedByUse` | src/datasource/metadata_cache.rs:207-224 | after every run the metadata list is in order of last use, a use being a hit or an admitted insertion |
| `MetadataCache.EvictsLeastRecent` | src/datasource/metadata_cache.rs:385-399 | what a step evicts was last used before every metadata entry it keeps |
| `MetadataCache.RunIsOrderedByBloomUse` | src/datasource/metadata_cache.rs:131-160 | the same order for Bloom filters |
| `MetadataCache.EvictsLeastRecentBloom` | src/datasource/metadata_cache.rs:385-399 | what a step evicts was last used before every Bloom filter it keeps |
| `Singleflight.FinishTakesOwnFlight` | src/datasource/metadata_cache.rs:359-364 | a leader that finishes by key resolves its own flight and no other |
| `Singleflight.NextKeepsInv` | src/datasource/metadata_cache.rs:207-275 | every step of every task keeps the protocol invariant |
| `Singleflight.RunKeepsInv` | src/datasource/metadata_cache.rs:207-275 | the invariant holds in every reachable state |
| `Singleflight.OneLeaderPerKey` | src/datasource/metadata_cache.rs:238-247 | in every reachable state at most one task per key is loading |
| `Singleflight.WaitsForLeader` | src/datasource/metadata_cache.rs:249-274 | a task that cannot move waits for a leader of its own key, and that one can move |
| `Singleflight.NoTaskIsStranded` | src/datasource/metadata_cache.rs:249-274 | the same in every reachable state: no waiter is ever left behind |
| `Singleflight.AnswersComeFromReads` | src/datasource/metadata_cache.rs:217-229 | every value handed out, cached, shared or led, was read from storage under its own key |
| `Singleflight.WaiterGetsLeadersOutcome` | src/datasource/metadata_cache.rs:262-274 | a waiter gets the value or the shareable error its leader got, and tries again if and only if the leader failed query-locally or gave up |
| `Singleflight.StepReads` | src/datasource/metadata_cache.rs:217-247 | a key is read only while its value is neither cached nor about to be offered, and only an eviction, a refusal or giving up loses it |
| `Singleflight.ReadOncePerLapse` | src/datasource/metadata_cache.rs:207-275 | in every run a key is read at most once, and once more for each eviction, refused admission or read given up |
| `Singleflight.OutcomesAreFinal` | src/datasource/metadata_cache/singleflight.rs:43-98 | along every run a flight keeps its key and leader, and once resolved never changes |
| `Singleflight.StepShrinks` | src/datasource/metadata_cache.rs:207-275 | every step by which a task gets on shrinks a measure, retries after a failed leader included |
| `Singleflight.OtherStepsGrowLittle` | src/datasource/metadata_cache.rs:385-399 | new tasks and evictions leave the measure alone; a spurious re-entry adds at most three |
| `Singleflight.RunsAreBounded` | src/datasource/metadata_cache.rs:207-275 | in every run, with new tasks, evictions, failures and retries, the tasks take boundedly many steps |
| `Singleflight.TasksTakeFewSteps` | src/datasource/metadata_cache.rs:207-275 | from the start n tasks take at most n(4n + 4) steps, and three more per spurious re-entry |
| `Singleflight.QuietMeansDone` | src/datasource/metadata_cache.rs:207-275 | when no task can move every task has its answer |
| `RowLimit.NextKeepsInv` | src/datasource/csv.rs:319-379 | every step keeps the account: rows delivered, given up, pending and untaken add up row by row, and claims plus remaining are the limit |
| `RowLimit.RunKeepsInv` | src/datasource/csv.rs:306-379 | the account holds after every interleaving of workers and compare-and-swap attempts, spurious failures included |
| `RowLimit.SwapBalances` | src/datasource/csv.rs:362-379 | one compare-and-swap attempt moves rows between the accounts and loses none |
| `RowLimit.SwapAccounts` | src/datasource/csv.rs:362-379 | a claim never exceeds what remains, and rows are given up only when nothing remains |
| `RowLimit.TakeBalances` | src/datasource/csv.rs:324-327 | taking a file moves its rows from untaken to one worker |
| `RowLimit.NeverTooMany` | src/datasource/csv.rs:306-379 | no run ever delivers more rows than the limit |
| `RowLimit.CompleteScan` | src/datasource/csv.rs:306-379 | when all workers have finished, the rows delivered are among the visible ones with their multiplicities, all of them if the limit allows, else exactly as many as the limit |
| `RowLimit.SlicesArePrefixes` | src/datasource/csv.rs:337-347 | in every run what is delivered of a batch is a non-empty prefix of it, the whole unless the limit is used up |
| `RowLimit.VisibleIsWholeFile` | src/datasource/csv.rs:334-342 | nothing of a file is passed over if and only if no empty batch precedes a non-empty one |
| `RowLimit.VisibleIsEverything` | src/datasource/csv.rs:334-342 | without such gaps the visible rows are all rows |
| `RowLimit.EmptyBatchHidesRows` | src/datasource/csv.rs:340-342 | a file with an empty first batch: the scan completes without its row |
| `RowLimit.SwapShrinks` | src/datasource/csv.rs:362-379 | a real compare-and-swap failure was paid for by the claim that caused it; every attempt that is not spurious brings the scan on |
| `RowLimit.RunsAreBounded` | src/datasource/csv.rs:306-379 | every run is bounded up to its spurious failures |
| `RowLimit.ScanIsBounded` | src/datasource/csv.rs:306-379 | from the start the bound is two steps per worker, three per file and three more than the number of workers per batch |
| `RowLimit.QuietMeansFinished` | src/datasource/csv.rs:306-379 | when no worker can take a step all have finished |
| `PruningBudget.Budget.ForQuery` | src/datasource/parquet_pruning_budget.rs:22-30 | the limit is the least of the three caps and nothing is used |
| `PruningBudget.Budget.TryReserve` | src/datasource/parquet_pruning_budget.rs:32-43 | a lease is granted if and only if it fits beside the live ones; use stays the sum of live leases within the limit |
| `PruningBudget.PruningLease.TryResize` | src/datasource/parquet_pruning_budget.rs:57-74 | shrinking always succeeds, growing if and only if it fits; a refusal changes nothing |
| `PruningBudget.PruningLease.Drop` | src/datasource/parquet_pruning_budget.rs:76-81 | exactly the lease's bytes return; neither subtraction underflows |
| `Catalog.NewSnapshot` | src/catalog/persistent.rs:100-115 | a snapshot holds exactly the given entries; refused if and only if two have one normal name |
| `Catalog.PersistentCatalog.Publish` | src/catalog/persistent.rs:46-65 | succeeds if and only if the expected generation is current and can be followed, and then advances it by one; a refusal changes nothing |
| `Catalog.PersistentCatalog.Replace` | src/catalog/persistent.rs:68-83 | replaces the tables of the expected generation without advancing it |
| `Catalog.PublishAll` | src/catalog/persistent.rs:46-65 | over every sequence of attempts winners expect strictly increasing generations, and the generation advances once per win |
| `Catalog.Session.Table` | src/catalog.rs:98-108 | a lookup finds a table whose normal name is the asked one |
| `Catalog.NormalizeExact` | src/catalog.rs:231-233 | two names are one if and only if they agree up to the case of ASCII letters |
| `Catalog.PublishedIsFound` | src/catalog.rs:98-108 | a published table is found under its name wherever the session has neither a table nor hides it |
| `Catalog.Session.CopyLocal` | src/catalog.rs:65 | the local state is copied into an object of its own |
| `Catalog.Session.PinSnapshot` | src/catalog.rs:66-73 | the pinned session answers from the copied local state and the snapshot read now, and depends on no shared object |
| `Catalog.Pin` | src/catalog.rs:64-74 | whatever is done between the two locks, the pinned answers combine the earlier local state with the later snapshot: those of the first moment if nothing was published, those of the second if nothing else was done |
| `Catalog.PinMixesMoments` | src/catalog.rs:64-74 | hiding a name and then publishing it in between pins an answer the live session never gave |
| `Catalog.PinAnswersFirstMoment` | src/catalog.rs:64-74 | pinned answers are those of the first moment if and only if every name left to the snapshot means the same in both snapshots |
| `Catalog.RunBeside` | src/catalog.rs:64-74 | no sequence of registrations, removals, view changes and publications on the live session changes a pinned answer |
| `Catalog.Session.Register` | src/catalog.rs:81-88 | the name means the new table; no other name changes |
| `Catalog.Session.Unregister` | src/catalog.rs:90-97 | the local meaning goes; a persistent table shows again unless hidden |
| `Catalog.Session.HidePersistent` | src/catalog.rs:127-133 | the name means nothing; no other name changes |
| `Catalog.Session.ReplaceProvider` | src/catalog.rs:135-154 | swaps the provider if and only if it is still the expected one |
| `Catalog.Session.RegisterView` | src/catalog.rs:178-203 | a view never replaces a table and replaces a view only on request |
| `Catalog.Session.DropView` | src/catalog.rs:205-213 | drops views only |
| `Catalog.Session.TableNames` | src/catalog.rs:156-176 | lists exactly the names under which lookups find their tables, each once |
| `Catalog.PinThenRun` | src/catalog.rs:64-74 | pinned while nothing else happens, a copy answers as the session did then, whatever is done to the session later |

## Left out

- Floating-point columns: they are an opaque type, because bounds may ignore NaN; no pruning layer is modelled for them.
- Nested columns: only their presence, their leaves' null counts and null pages are modelled, not the values inside.
- ScanPlan.PlanMorsels: does not model schema validation and widening of file columns (`validate_scan_schema`), row-group chunking, predicate caches, dictionary decoding, native sidecars, memory reservations, cancellation or metrics.
- PagePruning.PrunePages: says nothing about the number of pages pruned, which is a metric only.
- RowFilter.FilterIsConjunction: does not model the fused evaluation of several columns or the projection of predicate columns.
- Hive.FromMaps: starts from the key and value pairs of each path; parsing and unescaping directory names is not modelled.
- CsvEncoding.WrittenRowIsRecord: speaks of records; splitting a record into fields is left to the CSV decoder.
- MetadataCache.Cache.Insert: a weight is an arbitrary number; how weights are estimated is not modelled.
- Singleflight.NextKeepsInv: the cache is a map with arbitrary admissions and evictions here; its budget is the subject of MetadataCache. Bloom loads follow the same protocol and are not repeated.
- RowLimit.CompleteScan: the order in which workers interleave their batches is not specified, as in the code; the single-file parallel scan and the exact Parquet row budget use the same claim and are not repeated.
- Catalog.Session.TableNames: does not model the sorting of the list.
- Catalog.Pin: providers are opaque values; snapshots share them as the code does.
- SQL planning and execution, storage and transactions, object-store and file access, compression, configuration checks and error texts.
