# pq: a verified model

pq moves data between Stata and Parquet, SAS, SPSS and CSV files. Its plugin streams batches of rows into
Stata's data, chooses Stata storage types for the columns of a file, saves Stata's data partition by
partition, rewrites Stata row filters to SQL, and carries labels, notes and formats through macros. This
project models the parts of the plugin that have state or arithmetic worth distrusting, and proves what they
promise for every input, every batching of a stream and every interleaving of the writer tasks.

A frame is a sequence of rows, a stream a sequence of batches, Stata's data a map from cells to values (a null
stores nothing), macros a map from names to texts, and a directory a map from file names to rows. 64-bit words
are integers below 2^64 with the wrap-around written out. Objects that the program updates in place are
classes; functions that only compute are functions.

| module | what it models |
|---|---|
| Words, Lemire, SplitMix | the SplitMix64 generator and its unbiased bounded draw |
| Floyd, Counting | the draw of k different rows, and the counting behind its uniformity |
| FirstWord | the generator and the draw computed for one seed |
| StableSort, TopK | the bounded buffer behind a sorted window, against a full stable sort |
| Streams, StreamSampler, BatchRead | the cursors that carry batches into Stata |
| StataData, BatchWriter | the cell writers, on one thread and as interleaved chunk tasks |
| Projection, SortedProjection, Text | the columns read for a row filter, and the meaning of filter and sort on them |
| FooterStats, DataTypes, StataTypes, ShrinkIntegers | ranges from footers, Stata storage types, lossless shrinking |
| PartitionPaths, PartitionedSave, Decimal | the directories of partition keys, and partitioned saves on a directory tree |
| OverwrittenSave, AppendedSave, SavedRows | what survives an overwriting and an appending save, and which rows it holds |
| QuotedLiterals, QuotedRoundTrip, QuoteDelimiters | protecting quoted literals from rewriting, and restoring them |
| MacroNames, MetadataMacros, MetadataRead | the metadata envelope staged in indexed macros and read back |
| Varlist | wildcard resolution of a varlist against a file's columns |
| StataNames, RenameMap | Stata names for the columns of a file, without collisions |

Where the code keeps a promise only under a condition, the model keeps the code and the theorem is the exact
condition:

- an appending save keeps every file and every partition exactly when each partition directory has file numbers
  left for the keys that share it (`AppendSavesAll`, `AppendConservesRows`; `LastNumberOverwrites` gives a
  directory that has none);
- an overwriting save loses rows exactly when a partition is saved to the directory of an earlier one, or to an
  ancestor of it (`OverwriteSavesAll`, `OverwriteConservesRows`). Values are joined into the path as they are, so
  "a/b" is saved below "a", and "a" after it removes its rows (`NestedKeysLoseRows`); two floats that print alike
  share a directory (`FloatKeysCollide`). As the order of the keys is not fixed, only keys without nested
  directories are safe (`SafeInEveryOrder`), as are Booleans, integers and texts without slashes; float keys are
  exactly when no two of them print alike (`ExactKeysSaved`, `FloatsPrintAlike`);
- a projected read differs from the full one exactly when a needed column name changes by trimming or two of
  them differ only in case (`PushdownPreserves`; `PaddedNameIsLost` and `CaseVariantIsLost` give such frames);
- a sorted SAS or SPSS read with a filter also differs when a sort column is neither an output column nor in the
  filter, and only then or for such names (`SortedPushdownPreserves`; `SortedWithoutFilter` without a filter);
- values become missing only in `UInt32` columns: without trusted statistics exactly those above 2,147,483,620,
  and with them, since unsigned bounds are read as signed ones, exactly when some value is 2^31 or more, no double
  is recorded and no bound is read outside long (`NoValueBecomesMissing`, `UnsignedColumnKept`;
  `MisreadColumnLosesValues` gives a column that becomes `byte` and loses the value 200);
- restored literals differ from the original exactly when a token's text is met outside its own place
  (`RestoreUndoesExtract`; `TokenTextIsNotRestored` gives such a text);
- an envelope comes back from the macros exactly when it is faithful: no empty field, code or definition, no
  storage type, every value label carried by a variable, every text within the macro buffer (`RoundTrip`);
- `resolve_varlist` is documented to fail for names that are not found; the code also fails for an exact name
  whose column an earlier pattern already took (`Reported`, `RepeatedNameIsReported`);
- final column names collide exactly when a number that was given to a suffixed column is also that of a column
  that keeps its name, or of a later column renamed without suffix; this can be read off the column names, since
  the numbers given on a base are the first ones that no such column before it has (`DistinctIffNothingReused`;
  `KeptNameIsReused` and `LaterNameIsReused` give such files).

## Model

| member | source | states |
|---|---|---|
| Words.XorShiftBijective | src/read.rs:1653-1655 | every xor-shift of the mixer can be undone, in both directions |
| Words.ModInverse | src/read.rs:1653-1654 | multiplying by an odd constant and then by its inverse gives back the word |
| Words.StepsDiffer | src/read.rs:1652 | the additive step does not return to a state within fewer than 2^64 calls |
| Words.BlockOfMultiples | src/read.rs:1660-1668 | the words accepted with one result are a block of floor(2^64 / bound) consecutive words |
| SplitMix.UnscrambleScramble | src/read.rs:1653-1655 | the mixer loses nothing: its inverse recovers the state |
| SplitMix.ScrambleUnscramble | src/read.rs:1653-1655 | every word is the mix of some state |
| SplitMix.ScrambleIsPermutation | src/read.rs:1651-1657 | the mixer is a permutation of the 64-bit words |
| SplitMix.NoShortCycle | src/read.rs:1652 | the state does not come back before 2^64 calls |
| SplitMix.OutputsDistinct | src/read.rs:1651-1657 | any 2^64 consecutive calls return pairwise different words |
| SplitMix.FullPeriod | src/read.rs:1651-1657 | from every state each word is returned by exactly one of the next 2^64 calls |
| SplitMix.ThresholdIsRemainder | src/read.rs:1660-1663 | the wrapping negation computes 2^64 mod bound |
| SplitMix.Unbiased | src/read.rs:1660-1668 | for every bound and every result below it exactly floor(2^64 / bound) words are accepted with that result |
| SplitMix.RejectedCount | src/read.rs:1660-1668 | exactly 2^64 mod bound words are rejected |
| SplitMix.SomeCallAccepted | src/read.rs:1660-1668 | 2^64 mod bound + 1 successive calls are never all rejected, whatever the state |
| SplitMix.Calls | src/read.rs:1660-1668 | a bounded draw uses the first accepted call and needs at most 2^64 mod bound + 1 |
| SplitMix.Draw | src/read.rs:1660-1668 | the result of a bounded draw lies below the bound |
| SplitMix.UnbiasedOverSeeds | src/read.rs:1648-1668 | over all 2^64 seeds the first call is accepted with each result equally often |
| SplitMix.SplitMix64.constructor | src/read.rs:1648 | the seed is the state |
| SplitMix.SplitMix64.NextU64 | src/read.rs:1651-1657 | advances the state once and returns the mix of the new state |
| SplitMix.SplitMix64.Below | src/read.rs:1660-1668 | terminates, returns the draw of the reference and leaves the state right after the accepted call |
| Lemire.KeptForSize | src/read.rs:1660-1668 | the multiply-shift draw with rejection gives each result by floor(n / b) of n words, for any n |
| Lemire.RejectedSize | src/read.rs:1660-1668 | n mod b of n words are rejected |
| Floyd.ChosenSize | src/read.rs:1840-1853 | every run of k draws chooses exactly k positions in range |
| Floyd.LastStep | src/read.rs:1845-1850 | one step completes a set exactly when its draw is in the set and the earlier steps chose the rest |
| Floyd.FloydUniform | src/read.rs:1840-1853 | every k-element subset comes from exactly k! choice vectors |
| Floyd.SampleUniform | src/read.rs:1840-1853 | every k-element subset comes from the same number of vectors of accepted 64-bit words |
| Floyd.SampleIsValid | src/read.rs:1840-1853 | the sample is k strictly increasing positions below n |
| Floyd.ChooseRows | src/read.rs:1842-1851 | the loop over the generator chooses the set of the reference draw |
| Floyd.SampleRowIndices | src/read.rs:1840-1853 | min(k, n) strictly increasing positions below n: those chosen by the upper halves of the words of k calls, each the first accepted one behind the one before it |
| Floyd.DrawCallsUnique | src/read.rs:1659-1668 | these calls are determined by the seed |
| Floyd.OneRowUniform | src/read.rs:1840-1853 | of one row sampled from n: each row is sampled for exactly floor(2^64 / n) of the seeds whose first call is accepted |
| FirstWord.FirstWordOfOne | src/read.rs:1651-1657 | the first word of seed 1, digit by digit |
| FirstWord.SampleOfOne | src/read.rs:1840-1853 | one row sampled from ten with seed 1 is row 5 |
| StableSort.SortIsStableSort | src/read.rs:1406-1407 | the reference sort orders the rows and keeps every class of ties in stream order |
| StableSort.SortPermutes | src/read.rs:1406-1407 | sorting neither loses nor invents a row |
| StableSort.StableSortUnique | src/read.rs:1406-1407 | being sorted with ties in order determines the result |
| StableSort.TopOfConcat | src/read.rs:1698-1705 | the first k sorted rows depend on a part of the stream only through its own first k |
| StableSort.TopOfTop | src/read.rs:1698-1705 | cutting back to the first k sorted rows keeps them |
| TopK.ByKeysIsOrder | src/read.rs:1391-1405 | any list of ascending and descending keys orders the rows totally, as a stable sort needs |
| TopK.SortedByKeys | src/read.rs:1391-1405 | rows count as sorted exactly when any two agree on all keys, or at the first key in which they differ the earlier row has the smaller one if it is ascending and the larger one if it is descending |
| TopK.WindowInKeyOrder | src/read.rs:1391-1433 | this holds of every window of the sorted rows |
| TopK.IndexSort | src/read.rs:1715-1733 | sorting keys with row numbers and gathering by number is sorting the rows |
| TopK.TopKBuffer.constructor | src/read.rs:1688-1696 | an empty buffer whose compaction threshold is at least k |
| TopK.TopKBuffer.SortedSlice | src/read.rs:1715-1733 | the slice of the stable sort of the buffer |
| TopK.TopKBuffer.Push | src/read.rs:1698-1705 | the buffer stays within max(compact_at, k) rows and still has the first k sorted rows of the whole stream |
| TopK.TopKBuffer.Finish | src/read.rs:1707-1713 | rows offset..offset + n of the stable sort of everything pushed, for every batching and every compact_at |
| TopK.SortedWindow | src/read.rs:1736-1769 | rows offset..offset + n of the stable sort of the whole stream by its keys, in the order of their keys, saturating offsets included |
| TopK.SortStep | src/read.rs:1387-1433 | both branches of the sort select the same rows when the described row count covers the stream, and both return them in the order of their keys |
| StataData.WroteUnique | src/read.rs:2058-2118 | what a block of rows leaves in Stata's data is determined |
| StataData.WroteConcat | src/read.rs:2058-2118 | writing two adjacent blocks is writing their concatenation |
| StataData.WroteFrame | src/read.rs:2058-2118 | rows outside the block keep their values |
| StataData.RangeOpsEffect | src/read.rs:2058-2118 | the sequence of single stores writes the rows, a null leaves its cell, and every store hits a row of the block |
| StataData.PlanMeans | src/read.rs:2068-2111 | a column stops the work exactly when it is missing, binary, or a datetime column of another type; it is written exactly when text is stored as a string, a datetime as a datetime, or a number, date or time of the recorded type as a number |
| StataData.WroteHolds | src/read.rs:2058-2118 | every non-null value of a written column is in its own cell unless a later column with the same number has one there, and every other cell is as it was |
| StataData.ColumnHolds | src/read.rs:2058-2118 | for a column with a number of its own: its value, or what was there before; a strL column changes no cell |
| BatchWriter.ChunksTile | src/read.rs:2014-2023 | the chunks tile the rows 0..row_count |
| BatchWriter.ProcessRowRange | src/read.rs:2058-2118 | writes exactly the values of its rows, column by column, up to the first missing, binary or mistyped datetime column, and fails exactly when there is one |
| BatchWriter.Job.StepKeepsInv | src/read.rs:2006-2029 | any next single store of any task keeps the invariant of all interleavings |
| BatchWriter.Job.AllDone | src/read.rs:2006-2029 | when every task has finished the batch is written, whatever the order was |
| BatchWriter.Job.FrameOf | src/read.rs:2006-2029 | at any moment rows outside the batch are unchanged |
| BatchWriter.ProcessRegularByRow | src/read.rs:2006-2029 | every interleaving leaves the same data as the sequential writer, and no row outside the batch changes |
| BatchWriter.ProcessBatch | src/read.rs:1969-2056 | whichever strategy runs, it fails exactly when a column other than strL and binary is missing or a mistyped datetime; otherwise every value of its rows is in its cell and every other cell is as it was |
| StreamSampler.RowsAtInRange | src/read.rs:1783-1792 | sampled positions that exist give one row each, the row at that position |
| StreamSampler.StreamSampler.constructor | src/read.rs:1779-1781 | a cursor before the first position |
| StreamSampler.StreamSampler.TakeRows | src/read.rs:1783-1792 | the picks so far are those of the whole stream so far, for any batching |
| StreamSampler.StreamSampler.DoneIsFinal | src/read.rs:1794-1796 | once done, no later batch could add a pick |
| StreamSampler.CollectSampledRows | src/read.rs:1801-1831 | stopping at the first done loses nothing: the rows are the stream indexed at the positions |
| Streams.FilterSelects | src/read.rs:898-906 | a filter leaves the rows at the positions whose row satisfies it, all of them, in order |
| Streams.FilterCounts | src/read.rs:898-906 | a row that satisfies the filter stays as often as it occurs, any other row goes |
| BatchRead.WindowNext | src/read.rs:1033-1046 | skipping and taking from the next batch continues the window of the stream |
| BatchRead.WindowFull | src/read.rs:1002-1005 | a full window does not change with what follows |
| BatchRead.WindowLoop | src/read.rs:997-1067 | the skip/take loop writes the rows that satisfy the filter, from number offset on and n of them or as many as there are, to the cells of consecutive Stata rows |
| BatchRead.ReadWindow | src/read.rs:924-1067 | the same of the source behind the reader's own row limit: a written row satisfies the filter, and fewer than n mean that none is left; earlier Stata rows are untouched |
| BatchRead.SinkAll | src/read.rs:1555-1590 | every batch is written behind the rows written before it |
| BatchRead.SinkSampled | src/read.rs:1555-1590 | the sampled rows are written in stream order and the scan stops without losing one |
| BatchRead.SinkBatches | src/read.rs:1555-1590 | the sink writes the stream, or the stream at the sampled positions |
| BatchRead.ReadSample | src/read.rs:1338-1381 | inline and collected sampling, for every batching, write the rows at the window of the drawn positions, sorted if a sort is asked for, to the cells of consecutive Stata rows |
| Projection.EvalRestrict | src/read.rs:752-768 | a filter has the same value on every part of a row that keeps the columns it mentions |
| Projection.DirectReads | src/read.rs:978-1031 | the full read gives the rows on which the filter is true, in order, with the values of the output columns, and fails exactly when a needed column is missing or the filter does not parse |
| Projection.SqlIfColumnCollector.PushColumn | src/read.rs:723-732 | pushes a trimmed name unless one equal up to case was pushed before |
| Projection.SqlIfColumnCollector.Visit | src/read.rs:735-750 | the visit of the expression tree pushes the columns it mentions, in order |
| Projection.ProjectedReadstatColumns | src/read.rs:781-807 | the projection is the selected columns and the filter's, or none when the filter cannot be read |
| Projection.CollectThenPush | src/read.rs:752-807 | collecting first and pushing afterwards pushes the same columns |
| Projection.PushedAreFirsts | src/read.rs:770-779 | the pushed columns are the first of all names equal up to blanks and case, trimmed, in the order of the names |
| Text.TrimCuts | src/read.rs:771 | trimming removes the blanks at both ends and nothing else |
| Text.LowerIgnoresCase | src/read.rs:775 | two lower-case forms agree exactly when the names differ at most in case |
| Projection.KeepsAllNames | src/read.rs:770-779 | all names are kept exactly when they are trimmed and distinct up to case |
| Projection.ProjectedReadAgrees | src/read.rs:978-1031 | a projection with every needed column gives the rows of the full read |
| Projection.NoFilterPushdown | src/read.rs:978-1031 | without a filter the projection never changes the read |
| Projection.PaddedNameIsLost | src/read.rs:770-779 | a filter on a name with a leading blank, which SAS allows, fails when pushed down |
| Projection.CaseVariantIsLost | src/read.rs:770-779 | a filter on a column that differs from a selected one only in case fails when pushed down |
| Projection.PushdownPreserves | src/read.rs:978-1031 | the projected read equals the full read exactly when the needed names are trimmed and distinct up to case |
| SortedProjection.SortRestricted | src/read.rs:1409-1433 | sorting projected rows is projecting sorted rows when the key columns are projected |
| SortedProjection.SortFrameSorts | src/read.rs:1406-1414 | a sorted frame has the rows of the frame, ordered by their values in the key columns, with ties in their order |
| SortedProjection.SortedPushdownPreserves | src/read.rs:1298-1307 | a sorted read stays what it was under the projection exactly when the needed names survive it and every sort column is an output column or in the filter |
| SortedProjection.SortedWithoutFilter | src/read.rs:1298-1307 | without a filter, exactly when every sort column is an output column |
| FooterStats.GroupsRangeTight | src/parquet_stats.rs:54-106 | merging row groups gives a range whose two ends are attained |
| FooterStats.FilesRangeTight | src/parquet_stats.rs:117-124 | merging files gives the least minimum and the greatest maximum |
| FooterStats.ScanRowGroups | src/parquet_stats.rs:54-106 | a column stays trusted exactly when every row group has one chunk with an integer minimum and maximum; the result is then the least stored minimum and the greatest stored maximum |
| FooterStats.ScanColumn | src/parquet_stats.rs:49-128 | one column of one file: its knowledge grows by the file, other columns are untouched |
| FooterStats.ScanFile | src/parquet_stats.rs:28-129 | one file: what is known of every column grows by exactly that file |
| FooterStats.IntegerRangesFromFooterStats | src/parquet_stats.rs:21-135 | a column is reported exactly when every file opens, every row group has exactly one chunk for it that stores an integer minimum and maximum, and there is a row group; its range is the least stored minimum and the greatest stored maximum |
| StataTypes.VerifiedTypeIsNarrowest | src/describe.rs:570-573 | the type chosen for a range holds it outside the missing range, and no narrower type does |
| StataTypes.WideningOnlyWidens | src/mapping.rs:84-92 | recorded metadata can only widen the type |
| StataTypes.RankIsWidth | src/mapping.rs:67-75 | a higher rank is the type that holds strictly more: byte, int, long, double |
| StataTypes.DefaultTypeSafe | src/mapping.rs:100-116 | the default type is safe for every integer type except UInt32 |
| StataTypes.DefaultTypeIsNarrowest | src/mapping.rs:100-116 | for the other integer types and Boolean no narrower type is |
| StataTypes.CandidatesAreSmall | src/describe.rs:522-540 | the columns whose statistics are read are the uncast integer columns of at most 32 bits |
| StataTypes.RecordedIntegerTypes | src/mapping.rs:48-63 | which recorded text reads as byte, int, long or double |
| StataTypes.SafeIntegerTypeOverrides | src/describe.rs:517-578 | overrides are the verified, possibly widened types of the trusted integer columns without a cast |
| StataTypes.OverridesUnique | src/describe.rs:517-578 | the overrides are determined by the files, the schema, the casts and the recorded metadata |
| StataTypes.NoValueBecomesMissing | src/mapping.rs:298-301 | where the stored minimum and maximum of a chunk bound its values, every value of an uncast integer column other than UInt32 is outside its missing range; in a UInt32 column without an override exactly the values up to 2147483620 are |
| StataTypes.UnsignedColumnKept | src/parquet_stats.rs:80-87 | a UInt32 column keeps all its values exactly when they fit its default type or, with trusted statistics, when no value is 2^31 or more, double is recorded or a bound is read outside long |
| StataTypes.DoubleFromBounds | src/describe.rs:570-575 | an override is double exactly when the recorded type is, or some row group's bounds are read outside long |
| StataTypes.MisreadColumnLosesValues | src/parquet_stats.rs:80-87 | a UInt32 column holding 0, 200 and 3000000000 becomes byte and loses 200 |
| ShrinkIntegers.OptimalHolds | src/downcast.rs:168-217 | the optimal type of a range holds every value of it |
| ShrinkIntegers.ShrinkColumnKeepsValues | src/downcast.rs:94-164 | shrinking keeps every value and never increases the width |
| ShrinkIntegers.ShrinkIsNarrowest | src/downcast.rs:94-217 | a column becomes the narrowest allowed type that carries all its values, if that is narrower than its own, and otherwise keeps its type |
| ShrinkIntegers.OthersNotShrunk | src/downcast.rs:94-164 | other columns and columns of nulls are not touched |
| ShrinkIntegers.ShrinkColumnIdempotent | src/downcast.rs:94-164 | shrinking again changes nothing |
| ShrinkIntegers.SafeShrinkIntegers | src/downcast.rs:94-164 | statistics first and one pass of casts shrinks exactly the listed columns |
| ShrinkIntegers.ShrinkIsLossless | src/downcast.rs:94-231 | a table keeps all rows' values, no column widens, and a second run is the identity |
| Decimal.ParseOfToString | src/stata_metadata.rs:178-181 | a printed count parses back to itself |
| Decimal.ParsedText | src/stata_metadata.rs:178-181 | a count is digits, perhaps behind a plus sign, of a number below 2^64; nothing else parses |
| PartitionPaths.PartitionDir | src/write.rs:469-492 | the joined col=value texts, read as a path, are the components of each of them, column by column |
| PartitionPaths.ComponentsJoin | src/write.rs:492 | the components of a joined path are those of its parts |
| PartitionPaths.SlashFreeDirs | src/write.rs:469-492 | keys that print without slashes have equally deep directories, which are equal only if all values print alike |
| PartitionPaths.PlainDir | src/write.rs:469-492 | names and values without slashes give one directory column=value each |
| PartitionPaths.FloatsPrintAlike | src/write.rs:366-380 | two floats print the same text exactly when they have the same sign and are the same whole number up to 1e-9, or neither is whole and they round to the same multiple of 1e-12 |
| PartitionPaths.RenderAlike | src/write.rs:440-467 | two values of one kind print alike only if they are equal, or floats that print alike |
| PartitionPaths.RenderedValues | src/write.rs:440-467 | how a Boolean, an integer, a text and a float are written |
| PartitionPaths.SlashedDir | src/write.rs:492 | a value with slashes gives several directories; empty parts and dots vanish |
| PartitionedSave.FileSystem.NextPartitionFileIndex | src/write.rs:382-396 | the directory scan returns the number behind the largest data_N.parquet |
| PartitionedSave.NextIndexFresh | src/write.rs:382-396 | the next file name is new unless the number wraps onto an existing data_0.parquet |
| PartitionedSave.PartitionRows | src/write.rs:518-528 | filtering by one partition column after another keeps exactly the rows of the key, in order |
| PartitionedSave.PartSelects | src/write.rs:518-528 | a partition has exactly the rows with its key, in the order of the frame |
| PartitionedSave.FileNames | src/write.rs:549 | files are named data_N.parquet |
| PartitionedSave.OtherNames | src/write.rs:387-391 | files with other names have no number |
| PartitionedSave.SavePartition | src/write.rs:494-557 | one partition's directory is emptied or kept, and gets one file with the partition's rows |
| PartitionedSave.SavePartitionedSequential | src/write.rs:398-572 | the partitions before the first null or unsupported key are saved, and the call fails exactly when there is such a key |
| OverwrittenSave.SaveOneFiles | src/write.rs:494-557 | what one save does to every directory: its own gets the partition, those below it vanish when overwriting, all others keep their files |
| OverwrittenSave.OverwriteFiles | src/write.rs:398-572 | a partition that no later one is saved to or above ends as the only file of its directory |
| OverwrittenSave.RemovedForGood | src/write.rs:502-516 | a partition that a later one is saved to or above is gone, and nothing brings it back |
| OverwrittenSave.OverwriteSavesAll | src/write.rs:398-572 | an overwriting save keeps every partition exactly when none is saved to the directory of an earlier one or to an ancestor of it |
| OverwrittenSave.SafeInEveryOrder | src/write.rs:412-427 | every order of the distinct keys is safe exactly when no directory is another one's ancestor |
| OverwrittenSave.ExactKeysSaved | src/write.rs:469-516 | with Boolean, integer and float columns, and texts without slashes, every partition is kept exactly when no two keys agree up to floats that print alike |
| OverwrittenSave.NestedKeysDependOnOrder | src/write.rs:469-516 | "a/b" before "a" is unsafe, "a" before "a/b" is safe |
| OverwrittenSave.NestedKeysLoseRows | src/write.rs:469-516 | a frame with the keys "a/b" and "a" that loses rows |
| OverwrittenSave.TrailingSlashShares | src/write.rs:492 | "a" and "a/" share a directory |
| OverwrittenSave.OtherDirectoriesKept | src/write.rs:398-572 | directories that no partition is saved to, nor above when overwriting, keep their files |
| AppendedSave.AppendOne | src/write.rs:494-557 | an append writes one file under the next number and changes nothing else; the file is new exactly when the directory has room |
| AppendedSave.LastIsFresh | src/write.rs:382-396 | the last of several appended files gets a new name exactly when the directory has numbers for all of them |
| AppendedSave.NoRoomLoses | src/write.rs:382-396 | without room one of the partitions saved to the directory is in no new file |
| AppendedSave.LastNumberOverwrites | src/write.rs:382-396 | a directory with the largest number and data_0.parquet loses the rows of data_0.parquet |
| AppendedSave.AppendSavesAll | src/write.rs:398-572 | an appending save keeps every existing file and adds every partition in its own exactly when every partition directory has room |
| SavedRows.OverwriteConservesRows | src/write.rs:398-572 | after an overwriting save the partition directories hold every row, as often as it occurs, exactly when no partition is saved to the directory of an earlier one or to an ancestor of it |
| SavedRows.AppendConservesRows | src/write.rs:398-572 | the new files of an appending save hold every row, as often as it occurs, exactly when every partition directory has room |
| PartitionPaths.FloatKeysCollide | src/write.rs:366-380 | two close float keys share a directory |
| QuotedLiterals.ExtractQuotedLiterals | src/sql_from_if.rs:111-153 | the character loop yields the protected text and the closed literals; an unclosed quote stays as it is |
| QuotedLiterals.RestoreQuotedLiterals | src/sql_from_if.rs:155-169 | replaces the tokens one literal after the other, every occurrence from the left |
| QuotedLiterals.TokensOccurOnce | src/sql_from_if.rs:132-136 | token i occurs exactly once in the protected text, and no other token occurs |
| QuotedLiterals.TokensInOrder | src/sql_from_if.rs:132-136 | the tokens stand in the order of their literals |
| QuotedRoundTrip.UnmistakableRestores | src/sql_from_if.rs:155-169 | with every token met only in its own place the text is restored |
| QuotedRoundTrip.MistakenFails | src/sql_from_if.rs:155-169 | a token met out of its place is never repaired by later replacements |
| QuotedRoundTrip.RestoreUndoesExtract | src/sql_from_if.rs:111-169 | restoring gives the text with single quotes around its literals exactly when no token is met out of its place |
| QuotedRoundTrip.RestorableIsRestored | src/sql_from_if.rs:111-169 | it does for every text without a token start and without a literal continued by one |
| QuoteDelimiters.RequoteChangesDelimiters | src/sql_from_if.rs:111-169 | the restored form differs from the text only where a scan of the characters finds an opening quote that is closed later, or a closing one: there it has a single quote |
| QuoteDelimiters.RestoringRequotes | src/sql_from_if.rs:111-169 | extracting and restoring changes these characters and no others exactly when no token is met out of its place |
| QuotedRoundTrip.NoQDigitIsRestorable | src/sql_from_if.rs:111-169 | every text without a Q followed by a digit is of that kind |
| QuotedRoundTrip.TokenTextIsNotRestored | src/sql_from_if.rs:155-169 | a text with a token of its own is not restored |
| MacroNames.MacroNameInjective | src/stata_metadata.rs:340-397 | no two of the indexed macros share a name |
| MacroNames.DatasetNames | src/stata_metadata.rs:340-374 | the names of the data set's macros |
| MacroNames.VariableNames | src/stata_metadata.rs:351-370 | the names of a variable's macros, number by number |
| MacroNames.LabelNames | src/stata_metadata.rs:375-384 | the names of a value label's macros |
| MetadataMacros.SetKeeps | src/stata_metadata.rs:340-397 | setting a macro disturbs no other macro of the envelope |
| MetadataMacros.WriteIndexedList | src/stata_metadata.rs:392-397 | a list's count and items are all set, and nothing set before is lost |
| MetadataMacros.PushMetadataToMacros | src/stata_metadata.rs:340-385 | afterwards every macro of the envelope holds its value, whatever was there before; other macros are unchanged |
| MetadataRead.ReadIndexedList | src/stata_metadata.rs:178-185 | the loop reads the items up to the stored count |
| MetadataRead.ReadValueLabelDefinition | src/stata_metadata.rs:187-200 | the loop reads the entries with a non-empty code |
| MetadataRead.MetadataFromMacros | src/stata_metadata.rs:90-176 | the loops gather the envelope of the reference reading, with renames and recorded types |
| MetadataRead.VariableTakenUp | src/stata_metadata.rs:124-149 | a variable is taken up exactly when it has a name and a label, a value label, a note, a format or a recorded type |
| MetadataRead.LabelIndexIsLast | src/stata_metadata.rs:119-122 | of several value labels of one name the last one counts |
| MetadataRead.EnvelopeTakenUp | src/stata_metadata.rs:94-173 | there is an envelope exactly when variables are announced and a variable, a data set label or a data set note is found |
| MetadataRead.DefinitionRead | src/stata_metadata.rs:187-200 | a staged definition is read back whole |
| MetadataRead.VariablesHeld | src/stata_metadata.rs:124-170 | after n variables exactly their metadata, under their new names and with the types recorded for these, and the value labels they carry have been gathered |
| MetadataRead.ReadRenamed | src/stata_metadata.rs:90-200 | a staged faithful envelope is read back with every variable under its new name and with the type recorded for it, and otherwise as it was, when no two variables are renamed alike |
| MetadataRead.ReadBack | src/stata_metadata.rs:90-200 | without renames and recorded types a staged faithful envelope is read back as it was |
| MetadataRead.OnlyFaithful | src/stata_metadata.rs:90-200 | no other envelope is |
| MetadataRead.RoundTrip | src/stata_metadata.rs:90-397 | staging over any stale macros and reading back gives the same envelope exactly when it is faithful |
| Varlist.StataGlobMatch | src/fast_cache.rs:39-76 | terminates and holds exactly when the name can be cut into pieces that the pattern's characters stand for |
| Varlist.LiteralMatchesItself | src/fast_cache.rs:69-75 | a pattern without wildcards matches only itself |
| Varlist.MatchPattern | src/fast_cache.rs:103-121 | one pattern adds its columns in file order, without duplicates |
| Varlist.MatchPatterns | src/fast_cache.rs:99-131 | the selection of all patterns, and the exact names not found |
| Varlist.ApplyDropList | src/fast_cache.rs:134-144 | removes exactly the columns a drop pattern matches and keeps the order |
| Varlist.ResolveVarlist | src/fast_cache.rs:91-147 | the result is the selection, in order of first matching pattern then file position, and for an empty namelist every column that is not dropped, in file order; it fails exactly when a name is reported, with those names |
| Varlist.SelectionUnique | src/fast_cache.rs:91-147 | membership and order determine the result |
| Varlist.ExactNamesSelected | src/fast_cache.rs:91-147 | the result has no duplicate and has every exact name the drop list leaves |
| Varlist.RepeatedNameIsReported | src/fast_cache.rs:113-120 | an existing column named after a pattern that took it is reported as not found |
| StataNames.ProcessGivesStataName | src/mapping.rs:447-484 | every non-empty column name becomes a name Stata accepts |
| StataNames.OneUnderscoreSuffices | src/mapping.rs:464-476 | at most one underscore is put in front, only where needed, and it always suffices |
| StataNames.ProcessedNames | src/mapping.rs:447-484 | blanks and signs become underscores; a digit in front and a reserved word get one in front |
| StataNames.KeptIffStataName | src/mapping.rs:447-509 | a column keeps its name exactly when Stata accepts it already |
| StataNames.ProcessIdempotent | src/mapping.rs:447-484 | a processed name is not processed further |
| RenameMap.SuffixedInjective | src/mapping.rs:524-535 | a suffixed name tells its base and its number |
| RenameMap.FreeSuffix | src/mapping.rs:524-535 | the suffix search returns the first free number and stops within one try more than there are used names |
| RenameMap.CountNames | src/mapping.rs:486-491 | a name is counted once exactly when its column is alone with it |
| RenameMap.FirstPass | src/mapping.rs:447-484 | every column is paired with its processed name |
| RenameMap.GenerateRenameMap | src/mapping.rs:381-541 | every column that needs it gets its processed name, or the first suffixed name no earlier column took |
| RenameMap.FinalNameShape | src/mapping.rs:493-538 | a column keeps its name, or has its processed name if it is alone with it, or else the first 28 characters of it, an underscore and a number of at least three digits |
| RenameMap.RenamingUnique | src/mapping.rs:493-538 | this determines the map |
| RenameMap.TakenNumbers | src/mapping.rs:493-538 | which suffixed names are taken before any column is known from the column names alone |
| RenameMap.SuffixIsNthFree | src/mapping.rs:517-535 | with r earlier columns on its base a column gets the (r + 1)-th number that no column renamed without suffix took away |
| RenameMap.SuffixIsRank | src/mapping.rs:517-535 | in particular suffixes count up in file order on a base without lookalikes |
| RenameMap.DistinctIffNothingReused | src/mapping.rs:493-538 | final names are distinct exactly when no number given to a suffixed column is that of a kept name or of a later name without suffix, a condition on the column names |
| RenameMap.DistinctIffNoKeptClash | src/mapping.rs:493-538 | its special case for files in which no column renamed without suffix looks suffixed |
| RenameMap.KeptNameIsReused | src/mapping.rs:505-508 | three column names that collide with a kept name |
| RenameMap.LaterNameIsReused | src/mapping.rs:510-515 | three column names that collide with a later name without suffix |
| RenameMap.FinalIsStataName | src/mapping.rs:478-535 | every column up to the 999th ends up with a name of at most 32 characters that Stata accepts |

## Left out

- StataTypes.UnsignedColumnKept: takes the bounds stored for a UInt32 column as its smallest and largest value, as Parquet writers store them; for other types the stored bounds need only be bounds.
- Polars, SQL parsing, readstat, the Parquet and .dta writers and the Stata API: sorts are stable, filters and casts act row by row, statistics in footers are sound, directory listings are complete.
- Nulls in sort keys: a row's keys are compared in a total order; where nulls go is Polars' choice.
- Values stored in Stata cells are opaque: date and time shifts and numeric conversion are row-local and not modelled; stores beyond the last observation are not modelled.
- Rejected columns (binary, unknown types) stop a batch as in the source, but the text of error messages is not modelled.
- SampledPositions: the share that is turned into a row count through floating point is a parameter.
- Names and texts are ASCII: Unicode letters, trimming and case folding, and the byte slicing of longer names, are not modelled.
- Paths of partitions: assumed relative, without a ".." component and without a component named like a data file (`Addressable`); links, file systems that fold case and limits on the length of names are not modelled.
- Float keys are real numbers, without not-a-number, infinities and negative zero; existing sub-directories named like data files, and existing files named like partition directories, are not modelled.
- Consolidation and deletion after a save (src/write.rs:575-660), and saves driven in chunks by the ado-file.
- Regular-expression rewriting of Stata functions to SQL and the final pass over double quotes.
- MetadataRead.RoundTrip: stated for an empty rename list and no column info, the case in which staging and reading meet; with both, `ReadRenamed` states what is read, for renames that keep the variables apart; counts are below 2^64, as the length of every list in memory is.
- MacroNames.MacroNameInjective: Stata's limit on the length of macro names is not modelled.
- Metadata JSON in the Parquet footer and its version check.
- The type labels of the compress path, the check for integers beyond 2^53, and string and float downcasts.
- The fast-cache store, batch-size heuristics, thread counts and timing: any number of threads and any batch size is covered.
- Splitting a namelist at white space: a varlist is a sequence of patterns.
- Hash-map iteration order: counts and lookups do not depend on it, and the macro numbering holds for any order.
