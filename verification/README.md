# ExArrow: a model of its query engine and state machines

ExArrow gives Elixir access to Apache Arrow: record batches, Parquet and IPC files, datasets of many files,
Flight SQL and ADBC. Most of it hands data to native libraries. This project models the parts that decide
something, and proves what they promise:

* the Parquet predicate: a filter tree that is checked against a schema, prunes row groups by their
  statistics and is evaluated on the batches of a read (`ParquetFilter`, `ParquetPruning`, `ParquetRead`,
  `RowSelection`);
* the residual expression evaluator, its exact literal conversions, and its agreement with the Parquet
  predicate (`Literals`, `ComputeExpr`, `EvaluatorAgreement`);
* the three-way split of a dataset filter into partition pruning, pushed filter and residual, and what the
  three decide together on a row, a fragment and a whole dataset (`Calendar`, `DatasetFilter`, `ScanFilter`,
  `FilterShape`, `FragmentScan`, `DatasetScan`);
* the scan itself, a process whose state is updated step by step (`ScanTrace`, `Scanner`);
* the ownership protocol of a C Data Interface handle and the shared cursor of an ADBC result, over every
  interleaving of concurrent calls (`CdiProtocol`, `AdbcCursor`);
* the column wire format (`LittleEndian`, `Utf8`, `ColumnCodec`, `ColumnRoundTrip`), tensors as
  batches (`Sorting`, `ColumnNames`, `RankTwo`, `TensorBatches`), globs (`Glob`), demand dispatch (`GenStageProducer`) and the parser
  of gRPC status texts (`StatusParser`).

`Wrappers`, `Strings` and `Arrow` hold what the others share. Arrow arrays are sequences of optional cells;
the library kernels (comparison, strict and/or/not, filter) are small functions on them.
`dafny verify dfyconfig.toml` checks the whole project.

The main results, each for all inputs, runs or interleavings:

* **Pushdown preserves meaning.** `ParquetRead.ReadFiltered` runs the batch evaluator on the row groups that
  pruning leaves, however they are cut into batches, and returns exactly the rows, in order, that filtering every listed
  row group row by row returns.
* **One filter, three places.** `ScanFilter.ScanDecides`: a row is wanted exactly when the scan keeps it and it
  satisfies the conjuncts that no part of the scan checks; `FilterShape.CompileIsExact` and
  `FilterShape.UncheckedIsExact` say from the shape of the filter what is pushed, left over and unchecked. `FragmentScan.ScanFragment` carries this to the
  rows of a whole fragment, through row-group pruning and both evaluators.
* **A whole scan returns the wanted rows.** `DatasetScan.ScanDataset` composes fragment selection, the scan
  process and the fragments' reads. It ends without error exactly when every selected fragment's reader
  accepts the pushed filter, no residual misses a column and all fragments have one schema; with nothing
  unchecked, the rows returned are then the wanted rows of all discovered fragments, in order.
* **The evaluators agree**, nulls included (`EvaluatorAgreement.EvaluatorsAgree`).
* **The scan refines a concatenation** (`Scanner.ScanAll`), one observation at a time
  (`Scanner.ScanAgent.DoNext`).
* **Ownership is exclusive** in every interleaving (`CdiProtocol.OwnershipIsExclusive`), and every struct is
  released exactly once unless a failed import kept its pointer (`CdiProtocol.AfterTheDrop`).
* **The codecs are inverses**, with the exact condition where they are not
  (`ColumnCodec.VarlenRoundTrip`, `ColumnRoundTrip.ColumnSurvives`, `RankTwo.RankTwoRoundTrip`,
  `StatusParser.StatusRoundTrip`).

## Where the code does not do what one would expect

The model follows the code. Each point names the member that shows it and, where the code is right on
some inputs, the one that says exactly on which.

* A disjunction mixing partition and data columns is dropped when another conjunct is pushed down: it is
  stripped from the pushed filter and left out of the residual, so unwanted rows come back
  (`ScanFilter.MixedDisjunctionIsLost`; exact condition: `ScanFilter.ScanDecides`).
* A bare boolean partition field used as a filter is applied nowhere (`ScanFilter.BarePartitionFieldIsLost`;
  same condition).
* Partition dates are compared as Elixir structs, day before month before year, so pruning can drop a
  fragment that matches (`DatasetFilter.DatePartitionsAreMisordered`; `DatasetFilter.TermOrderAgrees`: the
  comparison is right exactly when the two dates come in the same order field by field and in time).
* A date partition compared with an integer is decided by kind, every struct coming after every number
  (`DatasetFilter.IntegerAgainstDatePartition`, with the exact condition).
* With nested columns the statistics lookup can find another leaf of the same short name and prune a
  matching row group (`ParquetPruning.NestedLeafPrunesAMatch`; `ParquetPruning.LookupIsExact`: the lookup is
  right exactly when no earlier leaf has the column's name as its short name or path).
* A comparison that the residual evaluator could make is pushed down even where the Parquet predicate has no
  case for the column's type, such as an integer against a 16-bit, unsigned or single-precision column; every
  fragment then fails to open (`ScanFilter.SmallIntegersAreRefused`; `ScanFilter.RefusalIsExact`).
* With a `columns` option that leaves out a field of the residual, a scan fails as soon as a batch is read
  (`FragmentScan.ScanFragment`, exactly when).
* The check that an integer is exact as a single-precision float saturates, so 2^63 - 1 passes and is compared
  as 2^63 (`Literals.LargestIntegerAgainstFloat32`; `Literals.IntegerAgainstFloat32`).
* Overlapping imports and mark-consumed calls can leak a struct (`CdiProtocol.OverlapLeaks`;
  `CdiProtocol.AfterTheDrop` by outcome, `CdiProtocol.ScheduleDecides` by the schedule alone).
* A binary of 2^32 bytes or more loses the high bits of its length (`ColumnCodec.VarlenRoundTrip`), and plain
  string and binary columns of 2^31 bytes or more overflow their offsets (`ColumnRoundTrip.ColumnSurvives`).
* A starred glob segment does not match across a newline and forgives a final one
  (`Glob.NewlinesBreakSegments`; exact for all names: `Glob.SegmentIsExact`).
* A glob whose first segment is a wildcard has the root "/", under which relative matches do not lie
  (`Glob.RelativeGlobHasNoRoot`; `Glob.RootLeadsToMatches`). A `?` ends the root but matches only itself.
* The two tables of gRPC codes differ on `Ok` (`StatusParser.TablesAgree`).
* The doc comment of `dispatch` announces a stop reply at the end of the stream; the code replies with the
  events and sends itself a stop message (`GenStageProducer.Producer.DoDispatch`).
* The doc comment of `extract_quoted_field` lists the escapes it undoes; `\r`, `\0` and hexadecimal escapes
  stay in the message as written (`StatusParser.StatusRoundTrip`).

## Model

| member | source | states |
|---|---|---|
| `ParquetFilter.EvalFilterOnBatch` | native/ex_arrow_native/src/parquet.rs:404-465 | on any batch and any tree: the first error in evaluation order, or a mask of one entry a row that is null exactly where some comparison of the tree reads a null and otherwise the two-valued truth of the tree |
| `ParquetFilter.EvalAnd` | native/ex_arrow_native/src/parquet.rs:442-452 | the folded mask is the conjunction's row-by-row meaning; an empty conjunction is an error |
| `ParquetFilter.EvalOr` | native/ex_arrow_native/src/parquet.rs:453-463 | the folded mask is the disjunction's row-by-row meaning; an empty disjunction is an error |
| `ParquetFilter.LeafMeaning` | native/ex_arrow_native/src/parquet.rs:385-402 | a comparison at a row, spelled out: null where the first column of that name is, otherwise the operator's reading of which of the cell and the converted literal comes first |
| `ParquetFilter.TextComparesByPosition` | native/ex_arrow_native/src/parquet.rs:393-400 | a text is greater than a literal exactly when it has the greater character, or goes on, where the two first differ |
| `Arrow.ComparisonMeans` | native/ex_arrow_native/src/parquet.rs:393-400 | the comparison of two cells of one kind, from the order of numbers, of booleans and of texts by their first difference |
| `Strings.StrLtByPosition` | native/ex_arrow_native/src/parquet.rs:393-400 | the order of texts without recursion |
| `Utf8.OrderOfBytes` | native/ex_arrow_native/src/parquet.rs:393-400 | texts come in the same order by code points as by the bytes of their encodings |
| `ParquetFilter.ValidationIsExact` | native/ex_arrow_native/src/parquet.rs:487-508 | for a decoded filter, validation against a schema and evaluation on any batch of it give the same error or both none: a validated filter never errors |
| `ParquetFilter.FaultFreeIsValid` | native/ex_arrow_native/src/parquet.rs:487-508 | a filter that evaluates without error passes validation, decoded or not |
| `ParquetFilter.CollectFilterColumns` | native/ex_arrow_native/src/parquet.rs:467-485 | appends each column of the filter that is missing, once, and keeps what was there |
| `ParquetFilter.ProjectionSuffices` | native/ex_arrow_native/src/parquet.rs:689-706 | evaluating on the projection to the collected columns gives the same error and the same mask |
| `ParquetFilter.SameRowMeaning` | native/ex_arrow_native/src/parquet.rs:703-708 | rows with equal cells are decided alike, nulls included, whatever batches they come in |
| `ParquetPruning.RangeTestIsExact` | native/ex_arrow_native/src/parquet.rs:560-582 | a range test (other than "not equal") keeps a group exactly when some value between its bounds satisfies the comparison |
| `ParquetPruning.PruningKeepsMatches` | native/ex_arrow_native/src/parquet.rs:526-642 | a row group holding a row on which the tree is true is never pruned, if statistics bound the non-null values |
| `ParquetPruning.PruningIsSharp` | native/ex_arrow_native/src/parquet.rs:526-642 | for every kind of statistics, a group is kept exactly when every conjunct, and some disjunct, has a value within its column's bounds that satisfies the comparison |
| `ParquetPruning.FirstOutOfRange` | native/ex_arrow_native/src/parquet.rs:660-673 | finds the first listed row-group index past the end, if there is one |
| `ParquetPruning.RetainMayMatch` | native/ex_arrow_native/src/parquet.rs:675-678 | keeps, in order, exactly the listed groups the statistics do not rule out |
| `ParquetPruning.ApplyReadOpts` | native/ex_arrow_native/src/parquet.rs:644-711 | which error comes first; on success the selected groups, their counts (selected and skipped add up to the total unless a list repeats indices too often) and a predicate projection that covers the filter |
| `ParquetRead.GatherRetained` | native/ex_arrow_native/src/parquet.rs:675-678 | dropping groups without matching rows changes neither the rows gathered nor their order |
| `ParquetRead.PruningPreservesRows` | native/ex_arrow_native/src/parquet.rs:526-642 | filtering the groups kept by pruning gives the rows of filtering all listed groups, in the same order |
| `ParquetRead.RowsInOrder` | native/ex_arrow_native/src/parquet.rs:669-697 | the rows of increasing groups are all of theirs and no others, each once, in order |
| `RowSelection.GatherConcat` | native/ex_arrow_native/src/parquet.rs:697-697 | groups are visited in the order of the list, each for all its rows |
| `ParquetRead.FilterBatch` | native/ex_arrow_native/src/parquet.rs:703-708 | evaluating the predicate on a batch's predicate columns and filtering by the mask keeps exactly the rows on which the filter means true, or gives the filter's error |
| `ParquetRead.FilterInBatches` | native/ex_arrow_native/src/parquet.rs:697-708 | the same over any cutting of the rows into batches |
| `ParquetRead.ReadFiltered` | native/ex_arrow_native/src/parquet.rs:644-711 | the evaluator run on the predicate columns of batches cut in any way from the groups left by pruning: fails exactly when the filter does not validate, with that error, or an index is out of range, and otherwise returns the rows, in order, of filtering every listed group row by row |
| `ParquetPruning.LookupIsExact` | native/ex_arrow_native/src/parquet.rs:515-522 | the lookup of a top-level column finds its own leaf exactly when no earlier leaf has its name as short name or path |
| `ParquetPruning.PlainSightIsSound` | native/ex_arrow_native/src/parquet.rs:515-522 | so statistics may be trusted in any file, nested or not, for filters on columns no other leaf hides |
| `ParquetPruning.FlatFilesAreSound` | native/ex_arrow_native/src/parquet.rs:515-522 | in particular in flat files with distinct names |
| `ParquetPruning.NestedLeafPrunesAMatch` | native/ex_arrow_native/src/parquet.rs:515-522 | a file with an earlier nested leaf of the same short name whose matching row group is pruned |
| `ParquetPruning.NestedFilesCanBeSound` | native/ex_arrow_native/src/parquet.rs:515-522 | a nested file whose lookup is right |
| `Literals.ConversionKeepsValue` | native/ex_arrow_native/src/compute.rs:441-528 | a converted number, text or boolean is the literal's value, except exactly where the Parquet evaluator rounds an integer to a double and where 2^63 - 1 becomes a single-precision float |
| `Literals.TimestampConversionIsExact` | native/ex_arrow_native/src/compute.rs:577-632 | conversion succeeds exactly when the instant is a whole in-range number of microseconds and of target ticks, and then denotes the same instant |
| `Literals.MicrosToUnitIsExact` | native/ex_arrow_native/src/compute.rs:609-632 | the second half of it: microseconds to the column's unit |
| `Literals.DateConversionIsExact` | native/ex_arrow_native/src/compute.rs:529-552 | date conversion succeeds exactly when the instant is a whole number of the column's units in its range, and then denotes the same instant |
| `Literals.ConvertedLiteralComparesInstants` | native/ex_arrow_native/src/compute.rs:529-632 | comparing a temporal cell with a converted literal compares the two instants, either way round |
| `Literals.IntegerAgainstFloat32` | native/ex_arrow_native/src/compute.rs:511-519 | an accepted integer stands for its own value exactly when it is not 2^63 - 1 |
| `Literals.LargestIntegerAgainstFloat32` | native/ex_arrow_native/src/compute.rs:491-519 | 2^63 - 1 is accepted against single precision and refused against double precision |
| `Literals.ScalarsAgree` | native/ex_arrow_native/src/compute.rs:441-575 | both evaluators compare a column with the same cell; only an integer that rounds as a double is accepted by one and refused by the other |
| `Literals.AcceptanceByType` | native/ex_arrow_native/src/compute.rs:441-575 | which literals a column type accepts, by literal and type |
| `Literals.RefusalReason` | native/ex_arrow_native/src/compute.rs:441-528 | why a literal is refused: outside the range, not exact, or no way to compare |
| `Literals.NumbersCompare` | native/ex_arrow_native/src/compute.rs:376-395 | two number literals compare by value; an integer meets a float only if it is a double |
| `Literals.PlainLiteralsCompare` | native/ex_arrow_native/src/compute.rs:376-395 | two texts or two booleans compare as cells do |
| `Literals.DatesCompare` | native/ex_arrow_native/src/compute.rs:410-439 | two dates compare as instants, whatever their widths |
| `Literals.TimestampsCompare` | native/ex_arrow_native/src/compute.rs:410-439 | two timestamps compare as instants, exactly if both convert to their common unit |
| `Literals.TimestampMeetsInteger` | native/ex_arrow_native/src/compute.rs:410-439 | a timestamp meets an integer as a count of its own unit |
| `Literals.IntegerMeetsTimestamp` | native/ex_arrow_native/src/compute.rs:410-439 | the same the other way round |
| `Literals.OtherLiteralsDoNotCompare` | native/ex_arrow_native/src/compute.rs:410-439 | no other literals compare |
| `ComputeExpr.EvalValueMeaning` | native/ex_arrow_native/src/compute.rs:268-408 | evaluation returns the error of a static type check, or at every row the expression's value, null exactly where a field it reads is null |
| `ComputeExpr.FilterMeaning` | native/ex_arrow_native/src/compute.rs:263-330 | evaluation succeeds exactly for expressions boolean on the schema; the mask is null exactly where a leaf is, otherwise the two-valued truth, and the filter keeps exactly the rows with no null leaf that are true |
| `ComputeExpr.NestedTypes` | native/ex_arrow_native/src/compute.rs:332-344 | all types but structs, lists and unknown nested ones compare with themselves |
| `ComputeExpr.SameRowValue` | native/ex_arrow_native/src/compute.rs:268-304 | rows with equal cells have equal values and nulls, whatever batches they come in |
| `ComputeExpr.ProjectionIsExact` | native/ex_arrow_native/src/compute.rs:268-276 | an expression that evaluates on all columns evaluates on a projection exactly when the projection includes every field it reads |
| `EvaluatorAgreement.RowAgrees` | native/ex_arrow_native/src/compute.rs:268-304 | any nesting of binary calls and the n-ary tree it stands for agree at a row on nulls and on truth |
| `EvaluatorAgreement.EvaluatorsAgree` | native/ex_arrow_native/src/compute.rs:263-408 | the two evaluators return the same mask on every batch where both succeed |
| `EvaluatorAgreement.OnlyRoundingDiffers` | native/ex_arrow_native/src/compute.rs:491-501 | where the Parquet evaluator succeeds, the other one fails exactly if some integer literal is not a double and meets a double column |
| `EvaluatorAgreement.OnlyTypesDiffer` | native/ex_arrow_native/src/parquet.rs:344-383 | where the expression evaluator succeeds, the Parquet one fails exactly if some comparison meets a column type outside the pairs it accepts |
| `Calendar.CivilOrder` | lib/ex_arrow/scanner/partition.ex:119-124 | day counts are ordered as their Gregorian dates are in time: the order a comparison of dates should have |
| `DatasetFilter.TermOrderAgrees` | lib/ex_arrow/scanner/partition.ex:119-124 | wherever the kernels can compare two values, Elixir's term order decides as they do exactly unless two dates come in different orders field by field and in time |
| `DatasetFilter.KindsInOrder` | lib/ex_arrow/scanner/partition.ex:119-124 | values of different kinds are never equal and come in the order numbers, booleans, dates, texts |
| `DatasetFilter.VerdictIsExact` | lib/ex_arrow/scanner/partition.ex:41-86 | a fragment is pruned exactly when the filter cannot come out true, whatever its undecided comparisons turn out to be |
| `DatasetFilter.DatePartitionsAreMisordered` | lib/ex_arrow/scanner/partition.ex:119-124 | a fragment of February 1st is pruned by "after January 15th" |
| `DatasetFilter.IntegerAgainstDatePartition` | lib/ex_arrow/compute/expression.ex:494-494 | a date partition against an integer is decided by kind, rightly exactly under a stated order of the two, and its bound form does not evaluate |
| `ScanFilter.SplitTranslates` | lib/ex_arrow/compute/expression.ex:551-614 | every split leaves something to evaluate, and a fully pushed expression stands for its filter |
| `FilterShape.SplitIsExact` | lib/ex_arrow/compute/expression.ex:551-635 | nothing is left over exactly from trees of `and` and `or` over comparisons of one field with one number, text or boolean |
| `FilterShape.SplitByConjuncts` | lib/ex_arrow/compute/expression.ex:551-635 | the pushable conjuncts are pushed, in order, and the others are left over as they are |
| `FilterShape.CompileIsExact` | lib/ex_arrow/scanner/compile.ex:16-41 | Parquet gets the pushable conjuncts that mention no partition key; the residual gets nothing of a filter over partition keys only, else the conjuncts that are not pushable, else nothing if Parquet got something, else the whole filter |
| `FilterShape.DecidableByShape` | lib/ex_arrow/scanner/partition.ex:41-86 | pruning decides an expression over known values unless a field or scalar stands where a truth value is asked for, or a truth value is compared |
| `FilterShape.UncheckedIsExact` | lib/ex_arrow/scanner/compile.ex:16-41 | the conjuncts that nothing checks, from the shape of the filter |
| `ScanFilter.PrunedComparison` | lib/ex_arrow/scanner/partition.ex:50-58 | a comparison of known values prunes exactly the unwanted fragments if and only if Elixir orders the values as the kernels do |
| `ScanFilter.PruningIsSound` | lib/ex_arrow/scanner/partition.ex:41-86 | a verdict of false or true on the partition values is the truth of every row without nulls |
| `ScanFilter.PruningDecides` | lib/ex_arrow/scanner/partition.ex:29-86 | on comparisons over partition fields only, pruning keeps exactly the fragments whose rows are wanted |
| `ScanFilter.SplitDecides` | lib/ex_arrow/scanner/compile.ex:70-149 | in a fragment that pruning keeps and whose reader accepts the pushed filter, a row is wanted exactly when the stripped pushed filter, the residual and the mixed disjunctions keep it |
| `ScanFilter.ScanDecides` | lib/ex_arrow/scanner/compile.ex:16-41 | in a fragment that is pruned or whose reader accepts the pushed filter, a row is wanted exactly when the scan keeps it and it satisfies the conjuncts left unchecked, which are computed from the filter and the partition keys |
| `ScanFilter.RefusalIsExact` | lib/ex_arrow/compute/expression.ex:551-614 | of a filter that evaluates, the reader refuses the pushed part exactly when some comparison in it meets a column type the Parquet predicate has no case for |
| `ScanFilter.SmallIntegersAreRefused` | lib/ex_arrow/compute/expression.ex:479-490 | `x > 5` on a 16-bit, unsigned 32-bit or single-precision column evaluates, is pushed whole and is refused |
| `ScanFilter.ResidualEvaluates` | lib/ex_arrow/scanner/compile.ex:21-38 | the residual evaluates wherever the whole filter does |
| `ScanFilter.CompiledFilterIsDecoded` | lib/ex_arrow/scanner/compile.ex:70-108 | what is pushed has no empty connective |
| `ScanFilter.MixedDisjunctionIsLost` | lib/ex_arrow/scanner/compile.ex:85-101 | a row the filter rejects and the scan returns |
| `ScanFilter.BarePartitionFieldIsLost` | lib/ex_arrow/scanner/compile.ex:22-23 | a bare boolean partition field that is false removes no row |
| `FragmentScan.ScanFragment` | lib/ex_arrow/scanner.ex:449-467 | a fragment scanned through partition pruning, row-group pruning, the pushed filter's evaluator and the residual's: unless pruned it fails exactly when its reader refuses the pushed filter, then at opening, or when rows are read and the residual needs a column that was not; otherwise no wanted row is lost, and the rows are exactly the wanted ones, in order, when no conjunct is unchecked |
| `FragmentScan.OpenAndRead` | lib/ex_arrow/scanner.ex:485-490 | opening and reading fails exactly when the pushed filter is refused, as an invalid filter, and otherwise yields the rows it matches |
| `FragmentScan.PostprocessSucceeds` | lib/ex_arrow/scanner.ex:462-467 | the residual evaluates on a projected batch exactly when its fields, partition fields aside, are among the columns read |
| `FragmentScan.EmittedRows` | native/ex_arrow_native/src/compute.rs:79-99 | filtering a batch by the evaluator's mask keeps exactly the rows the residual keeps |
| `FragmentScan.PostprocessAll` | lib/ex_arrow/scanner.ex:384-411 | the same over any cutting of the rows into batches |
| `FragmentScan.ResidualCompletesScan` | lib/ex_arrow/scanner.ex:462-467 | what the residual keeps of the rows read is what pruning, pushed filter and residual keep together, in order |
| `FragmentScan.CheckedScanIsExact` | lib/ex_arrow/scanner/compile.ex:16-41 | of a fragment that is pruned or opens, with no conjunct unchecked, the scanned rows are the wanted rows, in order |
| `FragmentScan.WantedRowsAreScanned` | lib/ex_arrow/scanner/compile.ex:16-41 | no wanted row of a fragment that is pruned or opens is lost |
| `DatasetScan.SelectFragments` | lib/ex_arrow/scanner/partition.ex:15-27 | the fragments pruning keeps, in order, and the number it drops |
| `DatasetScan.PruningLosesNothing` | lib/ex_arrow/scanner/partition.ex:15-27 | dropping pruned fragments loses no row the scan keeps |
| `DatasetScan.OpenParquet` | lib/ex_arrow/scanner.ex:485-510 | a fragment opens exactly when its reader accepts the pushed filter; then it has the projected schema, its file's row groups, those selected that the statistics do not rule out, and batches holding exactly the rows its scan keeps, or one that fails exactly when the residual misses a column |
| `DatasetScan.SignaturesAgree` | lib/ex_arrow/scanner.ex:555-573 | two fragments have one signature exactly when the fields they read have the same names and types, where timestamps, and other types of one kind, are not told apart |
| `DatasetScan.AtomsTellTypes` | native/ex_arrow_native/src/ipc.rs:156-191 | two types have one atom exactly then |
| `DatasetScan.FailuresAreExact` | lib/ex_arrow/scanner.ex:485-573 | nothing fails exactly when every selected fragment's own scan succeeds and all have one schema |
| `DatasetScan.ScanDataset` | lib/ex_arrow/scanner.ex:199-246 | a whole scan ends without error exactly when every selected fragment opens, none misses a column of the residual and all have one schema; then it returns the rows kept of all discovered fragments in order, exactly the wanted rows when no conjunct is unchecked and every wanted row in any case, and its statistics account for every fragment and row group |
| `ScanTrace.NextInner` | lib/ex_arrow/scanner.ex:413-428 | done exactly when nothing is left; a batch is the first result left and the reader stands after it; after a read error a stream stands after it and an IPC file where it was |
| `ScanTrace.ErrorsNameTheFragment` | lib/ex_arrow/scanner.ex:625-629 | whatever goes wrong in a scan, the text of every read error contains its fragment's path |
| `ScanTrace.PrefixIsAddedOnce` | lib/ex_arrow/scanner.ex:625-627 | a text that names the path is kept, and any other is the end of the new one, after the path |
| `ScanTrace.PullTrace` | lib/ex_arrow/scanner.ex:384-428 | one pull takes one step along the trace; an IPC read error repeats, a Parquet read error is passed by |
| `ScanTrace.ErrorFreeTrace` | lib/ex_arrow/scanner.ex:367-454 | without errors the observations are the concatenation of the non-empty post-processed batches, then exhaustion |
| `ScanTrace.TracePrefix` | lib/ex_arrow/scanner.ex:367-454 | in any run the batches before the first error are a prefix of that concatenation |
| `Scanner.ScanAgent.constructor` | lib/ex_arrow/scanner.ex:227-246 | a new scan has everything to observe, no open reader, zero statistics and no stop event |
| `Scanner.ScanAgent.EnsureOpen` | lib/ex_arrow/scanner.ex:469-483 | opens the head fragment if none is open, with nothing observed; a failure leaves the scan stuck on that error |
| `Scanner.ScanAgent.OpenFragment` | lib/ex_arrow/scanner.ex:485-573 | a fragment is opened only under the accepted schema signature, and otherwise changes nothing |
| `Scanner.ScanAgent.CountFragment` | lib/ex_arrow/scanner.ex:575-583 | adds the row-group counts of a Parquet fragment and one fragment, and leaves the rows emitted alone |
| `Scanner.ScanAgent.TakeInnerBatch` | lib/ex_arrow/scanner.ex:384-411 | one pull: a batch, error or nothing is exactly the head of what was to be observed; the end of the reader leaves the remaining fragments' trace |
| `Scanner.ScanAgent.ClearCurrent` | lib/ex_arrow/scanner.ex:445-447 | at the end of a reader nothing is open and the books count the fragment as opened |
| `Scanner.ScanAgent.Deliver` | lib/ex_arrow/scanner.ex:395-408 | a non-empty post-processed batch is counted and returned, an empty one skipped, a post-processing error returned |
| `Scanner.ScanAgent.Advance` | lib/ex_arrow/scanner.ex:585-599 | drops exactly the finished fragment and reports whether it was the last |
| `Scanner.ScanAgent.FinishScan` | lib/ex_arrow/scanner.ex:601-623 | emits the stop event with the current statistics if none was emitted |
| `Scanner.ScanAgent.DoNext` | lib/ex_arrow/scanner.ex:367-382 | terminates; answers with the head of what was to be observed and leaves the rest; a batch comes from the last fragment opened; exhaustion is final; rows are counted; the stop event is emitted with the current statistics exactly at exhaustion or a failed open, and not at a read error |
| `Scanner.ScanAgent.HandleInner` | lib/ex_arrow/scanner.ex:430-443 | an answer, or another round on fewer fragments or fewer pulls with the same observations to come |
| `Scanner.ScanAgent.NextFragment` | lib/ex_arrow/scanner.ex:434-443 | drops exactly the finished fragment; answers that the scan is done, with the stop event emitted, exactly when it was the last |
| `Scanner.ScanAgent.Close` | lib/ex_arrow/scanner.ex:354-363 | after closing, exactly one stop event was emitted |
| `Scanner.ScanAgent.BooksMean` | lib/ex_arrow/scanner.ex:485-583 | between any two calls: the opened paths are those of a prefix of the fragments, all of one signature, their number and row-group counts are the statistics, and at most one stop event was emitted |
| `Scanner.ScanAgent.RowGroupsAddUp` | lib/ex_arrow/scanner.ex:575-583 | selected and skipped row groups add up to the row groups of the files opened so far exactly when no reader selected more than its file has |
| `Scanner.ScanAgent.Enumerate` | lib/ex_arrow/stream.ex:606-630 | enumeration returns the batches before the first error and that error, and the rows counted are theirs |
| `Scanner.ScanAll` | lib/ex_arrow/scanner.ex:367-454 | a whole scan returns a prefix of the concatenation of the non-empty post-processed batches; it reports no error exactly when every file opens with one schema and every batch is read and post-processed, and then returns all of it, with statistics that account for it |
| `CdiProtocol.StepKeepsInv` | native/ex_arrow_native/src/cdi.rs:109-136 | every atomic step of every call keeps ownership: one recorded taker for each pointer, a struct live exactly while the handle or its taker holds it |
| `CdiProtocol.RunsKeepInv` | native/ex_arrow_native/src/cdi.rs:42-71 | so does every interleaving |
| `CdiProtocol.OwnershipIsExclusive` | native/ex_arrow_native/src/cdi.rs:109-211 | in every interleaving: nothing is touched after being freed, each struct is freed and released at most once, each pointer is obtained by at most one call, and beside a successful import no call obtains either |
| `CdiProtocol.StructsAreThere` | native/ex_arrow_native/src/cdi.rs:123-126 | in every interleaving a step that reads or frees a struct finds it there |
| `CdiProtocol.AnswersFollow` | native/ex_arrow_native/src/cdi.rs:109-136 | every answer from the schedule alone: an import that got both pointers returns the batch exactly when its `from_ffi` succeeded and the error exactly when it failed, one that missed a pointer finds the handle consumed, the other calls complete |
| `CdiProtocol.AfterTheDrop` | native/ex_arrow_native/src/cdi.rs:55-71 | after the drop each struct was freed and released exactly once, unless and only unless a failed import kept its pointer |
| `CdiProtocol.ScheduleDecides` | native/ex_arrow_native/src/cdi.rs:109-115 | by the schedule alone: a struct is released exactly once unless, and only unless, the call whose swap gets its pointer is an import and the first swap of the other pointer is another call's |
| `CdiProtocol.OverlapLeaks` | native/ex_arrow_native/src/cdi.rs:110-118 | two overlapping calls after which nobody will ever free the schema |
| `CdiProtocol.InTurnReleasesExactlyOnce` | native/ex_arrow_native/src/cdi.rs:174-195 | when calls do not overlap, each struct is released exactly once |
| `AdbcCursor.RunsKeepInv` | native/ex_arrow_native/src/adbc.rs:307-334 | every interleaving keeps the claims in order and each claimed index with one call |
| `AdbcCursor.DeliversExactlyOnce` | native/ex_arrow_native/src/adbc.rs:307-334 | in every interleaving: claimed indices are distinct and without gaps, each call got the batch of its index, done is answered only when every batch is claimed |
| `AdbcCursor.ClaimsAreReadable` | native/ex_arrow_native/src/adbc.rs:307-334 | a claimed index is always in range, so no call gets stuck |
| `ColumnCodec.DecodeVarlenRecords` | native/ex_arrow_native/src/ipc.rs:788-836 | the loop returns the one list of that length whose packed form the buffer is, or the first error, accepts no other buffer, and never reads outside it |
| `ColumnCodec.PackOfRecords` | native/ex_arrow_native/src/ipc.rs:788-836 | a buffer the decoder accepts packs back to exactly its bytes |
| `ColumnCodec.VarlenRoundTrip` | lib/ex_arrow/record_batch.ex:562-572 | decoding the packed form of a list of binaries returns the list exactly when each is shorter than 2^32 bytes |
| `ColumnRoundTrip.CellPacks` | lib/ex_arrow/record_batch.ex:507-605 | a cell packs exactly when it is of the type and in range |
| `ColumnRoundTrip.PackableByType` | lib/ex_arrow/record_batch.ex:507-605 | the same type by type, with the ranges in numbers and text as encoded code points |
| `Utf8.ValidIsEncoded` | lib/ex_arrow/record_batch.ex:562-568 | bytes are valid text exactly when they are a sequence of encoded code points |
| `ColumnRoundTrip.ColumnPacks` | lib/ex_arrow/record_batch.ex:488-505 | a list packs exactly when all its cells do |
| `ColumnRoundTrip.FixedRoundTrip` | native/ex_arrow_native/src/ipc.rs:619-676 | a packed fixed-width column has length times width bytes and decodes to the same cells |
| `ColumnRoundTrip.FixedReencode` | native/ex_arrow_native/src/ipc.rs:619-676 | an accepted fixed-width buffer packs back to its bytes; a boolean one exactly when its bytes are 0 or 1 |
| `ColumnRoundTrip.ColumnSurvives` | native/ex_arrow_native/src/ipc.rs:642-781 | a list packs exactly when its cells are well typed, and then decodes to itself exactly when no length prefix and no 32-bit offset overflows |
| `ColumnRoundTrip.BuildColumnArray` | native/ex_arrow_native/src/ipc.rs:642-781 | an accepted buffer gives `length` well-typed cells that pack back to its bytes, booleans exactly when canonical; accepted are the fixed-width buffers of the right size and the variable-length ones some list packs to |
| `ColumnRoundTrip.RecordBatchFromColumnBinaries` | native/ex_arrow_native/src/ipc.rs:550-582 | every column in order under its name, or the error of the first column that fails |
| `ColumnRoundTrip.FromLists` | lib/ex_arrow/record_batch.ex:194-199 | a batch built from lists holds exactly those lists whenever it is built and no length prefix or offset overflows; the shape error is given exactly for no columns or unequal lengths, a packing error exactly for a cell that does not belong to its column |
| `ColumnNames.NameOrder` | lib/ex_arrow.ex:197-213 | for every column count, zero-padded names are ordered as strings exactly as their columns are as numbers, and are distinct |
| `ColumnNames.NameSpellsColumn` | lib/ex_arrow.ex:204-208 | a name is a `c` and digits that spell the number of its column, as many as the number of columns has |
| `ColumnNames.UnpaddedOrder` | lib/ex_arrow.ex:197-200 | without the padding this holds exactly up to ten columns |
| `Sorting.SortIsOrder` | lib/ex_arrow/nx.ex:274-279 | sorting distinct names gives the one increasing arrangement, whatever order they come in |
| `RankTwo.NoColumnIsOverwritten` | lib/ex_arrow.ex:206-210 | no column of the tensor is lost in the map of columns |
| `RankTwo.BatchOfTensor` | lib/ex_arrow/nx.ex:270-335 | however the map lists its entries, the batch holds the tensor's columns in numeric order |
| `RankTwo.TensorOfBatch` | lib/ex_arrow.ex:238-306 | however the batch arranges the columns, they come back stacked in numeric order |
| `RankTwo.TensorsOfBatch` | lib/ex_arrow/nx.ex:149-167 | the map of tensors holds every numeric column under its name with its elements, booleans as unsigned bytes, and leaves out exactly the other columns |
| `RankTwo.TensorTypes` | lib/ex_arrow/schema/mapper.ex:69-102 | every type has tensors but booleans, times, texts and binaries, and booleans have numeric columns |
| `RankTwo.RankTwoRoundTrip` | lib/ex_arrow.ex:197-306 | a tensor converted to a batch and back is itself exactly when it has two or more columns; one column comes back as rank 1 with the same elements |
| `TensorBatches.FromTensorsIsExact` | lib/ex_arrow/nx.ex:270-335 | for any tensors under distinct names: which error comes first, and otherwise one column for each tensor in the order of the names |
| `TensorBatches.ToNxIsExact` | lib/ex_arrow.ex:238-306 | for any batch of distinct names: no numeric column, one, several of different types or sizes, and otherwise the numeric columns stacked in the order of their names |
| `Glob.SegmentIsExact` | lib/ex_arrow/file_system.ex:195-209 | for all names: a literal pattern matches itself, `*` anything, and any other pattern exactly the names it becomes with each `*` replaced by characters other than newlines, one final newline aside |
| `Glob.PlainSegmentIsExact` | lib/ex_arrow/file_system.ex:195-209 | a segment without newlines matches exactly when it is the pattern with each `*` replaced by some characters |
| `Glob.NewlinesBreakSegments` | lib/ex_arrow/file_system.ex:197-206 | names with newlines for which it does not, in both directions |
| `Glob.GlobIsExact` | lib/ex_arrow/file_system.ex:174-193 | for all paths: accepted exactly when each `**` can be given a run of segments, possibly empty, and every other pattern segment exactly one segment it accepts |
| `Glob.PlainGlobIsExact` | lib/ex_arrow/file_system.ex:174-209 | the same for paths without newlines, with segments that fit in the plain sense |
| `Glob.LiteralPartsAreLongest` | lib/ex_arrow/dataset.ex:507-515 | the root is the longest prefix of the pattern whose segments have neither a `*` nor a `?` |
| `Glob.RootLeadsToMatches` | lib/ex_arrow/dataset.ex:507-515 | the literal root is a segment prefix of an accepted path exactly when the pattern starts with a literal segment or the path is absolute |
| `Glob.RelativeGlobHasNoRoot` | lib/ex_arrow/dataset.ex:507-515 | an accepted relative path that is not under the root |
| `GenStageProducer.NativeStream.Next` | lib/ex_arrow/gen_stage.ex:106-121 | a pull gives the next batch before the stream's end or error |
| `GenStageProducer.Producer.DoDispatch` | lib/ex_arrow/gen_stage.ex:101-123 | emits as many of the next batches as demanded and available; finishes, with one stop message, exactly when more was demanded |
| `GenStageProducer.Producer.Dispatch` | lib/ex_arrow/gen_stage.ex:94-99 | keeps: all emitted is the first min(demand, available) batches, an unfinished producer has no pending demand, a finished one sent one stop message |
| `GenStageProducer.Producer.HandleStop` | lib/ex_arrow/gen_stage.ex:137-137 | the stop message ends the producer and leaves no other behind |
| `GenStageProducer.Serve` | lib/ex_arrow/gen_stage.ex:94-123 | over any sequence of demands the events are exactly the first min(total demand, batches before end or error) batches, and the stop message is sent exactly when the demand exceeds them |
| `StatusParser.Find` | native/ex_arrow_native/src/flight_sql.rs:278-288 | the first occurrence of the prefix, or that there is none |
| `StatusParser.ExtractQuotedField` | native/ex_arrow_native/src/flight_sql.rs:286-307 | the text up to the closing quote with the known escapes read: of a printed message every character, the unrecoverable ones as they are written |
| `StatusParser.ParseTonicStatusDebug` | native/ex_arrow_native/src/flight_sql.rs:240-250 | of any printed status, whatever follows it, the entry of its code, and its message exactly when every character is recoverable |
| `StatusParser.TrimIgnoresBlanks` | native/ex_arrow_native/src/flight_sql.rs:246-246 | blanks around a code name do not matter |
| `StatusParser.StatusRoundTrip` | native/ex_arrow_native/src/flight_sql.rs:240-307 | a printed status followed by any text parses to its code's entry, and to its message exactly when no character is printed as an escape other than those of quote, backslash, newline and tab |
| `StatusParser.TablesAgree` | native/ex_arrow_native/src/flight_sql.rs:186-275 | the table by name and the table by code give the same number for every code and the same entry for every code but `Ok` |
| `StatusParser.OtherNamesAreUnknown` | native/ex_arrow_native/src/flight_sql.rs:254-275 | a name of no code counts as unknown |

## Left out

- Flight, Flight SQL and ADBC transport, TLS, runtimes, servers: network I/O over libraries that are not part of this model.
- File formats: Parquet and IPC decoding, compression, metadata, writers. A file is its batches, schema and statistics.
- Types without a model of their own (binary, decimal, duration, dictionary columns): a cell is its rank in its type's order, which is all that comparisons use.
- Floating-point arithmetic: cells that are compared are reals, without NaN or signed zero. A literal carries the outcome of the rounding the code performs on it, constrained by what IEEE rounding guarantees.
- CellPacks: a float cell is its encoding at the column's width, so the rounding of a double offered to a single-precision column is not modelled, and an integer offered to a float column stands as the float the code first converts it to.
- FromLists: the normalisation of column names and type names before packing is not modelled.
- Statistics that are not valid UTF-8: the lossy conversion of byte-array bounds is not modelled.
- Scan filters that are absent or legacy tuples, and pushed filters on IPC datasets, which the code discards.
- Term order of `NaiveDateTime` and `DateTime` scalars, which no partition value can be: `ScanDecides` requires that every comparison decided by pruning is ordered alike, and `TermOrderAgrees` is about numbers, booleans, texts and dates.
- Concurrent consumers of one scan: clearing the current fragment and advancing are separate updates, so one consumer is modelled. In `Scanner` a reader's results carry what post-processing makes of them; `DatasetScan` computes them by the post-processing of `FragmentScan`.
- External users of raw C Data Interface pointers; poisoned locks. `CdiProtocol` and `AdbcCursor` are state machines over atomic steps rather than classes, because their claims are about interleavings.
- `Enum.sort` is an insertion sort in `Sorting`: only order and stability matter.
- `Path.split` and `Path.join`: paths are sequences of segments. The regular expression of a segment is a predicate that follows the pattern.
- Tensor types without a column type, and tensors of rank other than 2, in `RankTwo`.
- The texts of error messages, except where a parser or a promise depends on them; telemetry other than the stop event.
- `GenStageProducer.Serve` drives a producer through its callbacks; the mailbox holds only stop messages. `ScanDataset` determines what every selected file holds before the scan starts; that files are opened one at a time is `DoNext`.
- Sort, take, project and concat kernels, Explorer and Broadway bridges, hive path parsing, option parsing: they would add only easy members.
