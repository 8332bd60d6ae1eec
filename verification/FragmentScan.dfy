/** A Parquet fragment scanned end to end: partition pruning, row-group pruning, the pushed filter evaluated
    by the reader and the residual evaluated on the batches read, against filtering every row once. */
module FragmentScan {
  import opened Wrappers
  import opened Arrow
  import opened Literals
  import opened ComputeExpr
  import opened EvaluatorAgreement
  import opened DatasetFilter
  import opened ScanFilter
  import opened RowSelection
  import opened ParquetRead
  import P = ParquetPruning
  import F = ParquetFilter

  /** The filter evaluates on the file's columns, pruning orders its values as the kernels do, and the file's
      statistics can be trusted. */
  predicate Readable(file: P.File, e: Expr, pv: map<string, Literal>) {
    && file.Valid() && Decoded(e) && BooleanFor(file.schema, Bind(e, pv)) && TermsOrderedAlike(e, pv)
    && (Compile(e, pv.Keys).pushed.Some? ==> P.StatisticsSound(file, Compile(e, pv.Keys).pushed.value))
  }

  function AllGroups(file: P.File): (groups: seq<nat>)
    ensures P.InRange(file, groups)
    ensures |groups| == |file.groups| && forall g :: 0 <= g < |groups| ==> groups[g] == g
  {
    seq(|file.groups|, i => i)
  }

  function FileRows(file: P.File): seq<RowId> {
    AllRows(file, AllGroups(file))
  }

  // ---- the reference ----------------------------------------------------------------------------------

  function WantedTable(file: P.File, e: Expr, pv: map<string, Literal>): Table
    requires file.Valid() && Decoded(e)
  {
    seq(|file.groups|, g requires 0 <= g < |file.groups| =>
      seq(file.groups[g].data.rows, i requires 0 <= i < file.groups[g].data.rows =>
        Wanted(Site(file.groups[g].data, i, pv), e)))
  }

  /** Every row of the fragment on which the filter, partition values bound, is true; in order. */
  function WantedRows(file: P.File, e: Expr, pv: map<string, Literal>): seq<RowId>
    requires file.Valid() && Decoded(e)
  {
    Select(FileRows(file), WantedTable(file, e, pv))
  }

  // ---- what pruning, pushed filter and residual decide together ---------------------------------------

  function ScanTable(file: P.File, e: Expr, pv: map<string, Literal>): Table
    requires file.Valid() && Decoded(e)
  {
    seq(|file.groups|, g requires 0 <= g < |file.groups| =>
      seq(file.groups[g].data.rows, i requires 0 <= i < file.groups[g].data.rows =>
        ScanKeeps(Site(file.groups[g].data, i, pv), e)))
  }

  function ScanRows(file: P.File, e: Expr, pv: map<string, Literal>): seq<RowId>
    requires file.Valid() && Decoded(e)
  {
    Select(FileRows(file), ScanTable(file, e, pv))
  }

  function ResidualTable(file: P.File, residual: Option<Expr>, pv: map<string, Literal>): Table
    requires file.Valid() && (residual.Some? ==> Decoded(residual.value))
  {
    seq(|file.groups|, g requires 0 <= g < |file.groups| =>
      seq(file.groups[g].data.rows, i requires 0 <= i < file.groups[g].data.rows =>
        ResidualKeeps(Site(file.groups[g].data, i, pv), residual)))
  }

  // ---- post-processing of a batch ------------------------------------------------------------------------

  /** The batch as a read with a `columns` option yields it. */
  function ProjectTo(b: Batch, columns: Option<seq<string>>): (p: Batch)
    requires b.Valid()
    ensures p.Valid() && p.rows == b.rows
  {
    if columns.None? then b else Project(b, columns.value)
  }

  /** `maybe_residual`: the mask of the rows of a batch that the residual keeps. */
  function Postprocess(b: Batch, residual: Option<Expr>, pv: map<string, Literal>): Result<Mask, EvalError>
    requires b.Valid() && (residual.Some? ==> Decoded(residual.value))
  {
    if residual.None? then Ok(seq(b.rows, i => Some(true))) else EvalToBool(b, Bind(residual.value, pv))
  }

  /** The columns read include every field of the residual that is not a partition field. */
  predicate ResidualInColumns(residual: Option<Expr>, pv: map<string, Literal>, columns: Option<seq<string>>) {
    residual.Some? && columns.Some? ==> FieldsIn(Bind(residual.value, pv), columns.value)
  }

  /** The residual evaluates on this schema. */
  predicate ResidualOk(schema: seq<Field>, residual: Option<Expr>, pv: map<string, Literal>) {
    residual.Some? ==> Decoded(residual.value) && BooleanFor(schema, Bind(residual.value, pv))
  }

  /** Post-processing succeeds exactly when the residual's fields were read. */
  lemma PostprocessSucceeds(b: Batch, residual: Option<Expr>, pv: map<string, Literal>, columns: Option<seq<string>>)
    requires b.Valid() && ResidualOk(b.schema, residual, pv)
    ensures Postprocess(ProjectTo(b, columns), residual, pv).Ok? <==> ResidualInColumns(residual, pv, columns)
  {
    if residual.Some? {
      var x := Bind(residual.value, pv);
      FilterMeaning(ProjectTo(b, columns), x);
      if columns.Some? {
        ProjectionIsExact(b, columns.value, x);
        if FieldsIn(x, columns.value) {
          ProjectedType(b, columns.value, x);
        }
      }
    }
  }

  /** The evaluator's mask on a projected batch says of each row what the residual says of it. */
  lemma PostprocessMeans(b: Batch, residual: Option<Expr>, pv: map<string, Literal>, columns: Option<seq<string>>,
                         i: nat)
    requires b.Valid() && ResidualOk(b.schema, residual, pv) && i < b.rows
    requires ResidualInColumns(residual, pv, columns)
    ensures Postprocess(ProjectTo(b, columns), residual, pv).Ok?
    ensures |Postprocess(ProjectTo(b, columns), residual, pv).value| == b.rows
    ensures Postprocess(ProjectTo(b, columns), residual, pv).value[i] == Some(true) <==>
            ResidualKeeps(Site(b, i, pv), residual)
  {
    PostprocessSucceeds(b, residual, pv, columns);
    if residual.Some? {
      var x := Bind(residual.value, pv);
      FilterMeaning(ProjectTo(b, columns), x);
      if columns.Some? {
        ProjectedValue(b, columns.value, i, x);
      }
    }
  }

  lemma SameRowKept(b: Batch, i: nat, c: Batch, k: nat, residual: Option<Expr>, pv: map<string, Literal>)
    requires b.Valid() && c.Valid() && i < b.rows && k < c.rows && SameRow(b, i, c, k)
    requires residual.Some? ==> Decoded(residual.value)
    ensures ResidualKeeps(Site(b, i, pv), residual) == ResidualKeeps(Site(c, k, pv), residual)
  {
    if residual.Some? {
      SameRowValue(b, i, c, k, Bind(residual.value, pv));
    }
  }

  /** One batch of rows read, projected and post-processed: the rows that stay. */
  function Emitted(file: P.File, ids: seq<RowId>, columns: Option<seq<string>>, residual: Option<Expr>,
                   pv: map<string, Literal>): Result<seq<RowId>, EvalError>
    requires file.Valid() && InFile(file, ids) && (residual.Some? ==> Decoded(residual.value))
  {
    var mask :- Postprocess(ProjectTo(TakeRows(file, ids), columns), residual, pv);
    if |mask| == |ids| then Ok(PickMask(ids, mask)) else Err(MaskLength)
  }

  lemma EmittedRows(file: P.File, ids: seq<RowId>, columns: Option<seq<string>>, residual: Option<Expr>,
                    pv: map<string, Literal>)
    requires file.Valid() && InFile(file, ids) && ResidualOk(file.schema, residual, pv)
    ensures Emitted(file, ids, columns, residual, pv).Err? <==> !ResidualInColumns(residual, pv, columns)
    ensures ResidualInColumns(residual, pv, columns) ==>
              Emitted(file, ids, columns, residual, pv) == Ok(Select(ids, ResidualTable(file, residual, pv)))
  {
    var b := TakeRows(file, ids);
    PostprocessSucceeds(b, residual, pv, columns);
    if ResidualInColumns(residual, pv, columns) {
      PostprocessLength(b, residual, pv, columns);
      var mask := Postprocess(ProjectTo(b, columns), residual, pv).value;
      forall k | 0 <= k < |ids|
        ensures mask[k] == Some(true) <==> Chosen(ResidualTable(file, residual, pv), ids[k])
      {
        PostprocessMeans(b, residual, pv, columns, k);
        TakenRow(file, ids, k);
        SameRowKept(b, k, file.groups[ids[k].group].data, ids[k].row, residual, pv);
      }
      PickIsSelect(ids, mask, ResidualTable(file, residual, pv));
    }
  }

  lemma PostprocessLength(b: Batch, residual: Option<Expr>, pv: map<string, Literal>, columns: Option<seq<string>>)
    requires b.Valid() && (residual.Some? ==> Decoded(residual.value))
    ensures Postprocess(ProjectTo(b, columns), residual, pv).Ok? ==>
              |Postprocess(ProjectTo(b, columns), residual, pv).value| == b.rows
  {
    if residual.Some? {
      FilterMeaning(ProjectTo(b, columns), Bind(residual.value, pv));
    }
  }

  // ---- a whole fragment ------------------------------------------------------------------------------------

  /** The rows the reader yields for the pushed filter. */
  function ReadRows(file: P.File, pushed: Option<FilterExpr>): seq<RowId>
    requires file.Valid()
  {
    RowsMatching(file, AllGroups(file), pushed)
  }

  lemma ReadRowsInFile(file: P.File, pushed: Option<FilterExpr>)
    requires file.Valid()
    ensures InFile(file, ReadRows(file, pushed))
  {
    var ids, table := FileRows(file), MeaningTable(file, pushed);
    AllRowsInFile(file, AllGroups(file));
    SelectedRows(ids, table);
    var read := ReadRows(file, pushed);
    forall k | 0 <= k < |read|
      ensures IsRow(file, read[k])
    {
      assert read[k] in read;
    }
  }

  /** The residual completes the pushed filter: together they keep what the scan keeps. */
  lemma ResidualCompletesScan(file: P.File, e: Expr, pv: map<string, Literal>)
    requires file.Valid() && Decoded(e) && MayMatch(e, pv)
    ensures Compile(e, pv.Keys).residual.Some? ==> Decoded(Compile(e, pv.Keys).residual.value)
    ensures Select(ReadRows(file, Compile(e, pv.Keys).pushed), ResidualTable(file, Compile(e, pv.Keys).residual, pv)) ==
            ScanRows(file, e, pv)
  {
    var c := Compile(e, pv.Keys);
    CompileDecodes(e, pv.Keys);
    AllRowsInFile(file, AllGroups(file));
    SelectTwice(FileRows(file), MeaningTable(file, c.pushed), ResidualTable(file, c.residual, pv),
                ScanTable(file, e, pv));
  }

  lemma PrunedFragmentIsEmpty(file: P.File, e: Expr, pv: map<string, Literal>)
    requires file.Valid() && Decoded(e) && !MayMatch(e, pv)
    ensures ScanRows(file, e, pv) == []
  {
    SelectNothing(FileRows(file), ScanTable(file, e, pv));
  }

  /** The fragment is pruned, or its reader accepts the pushed filter. */
  predicate PrunedOrAccepted(file: P.File, e: Expr, pv: map<string, Literal>)
    requires Decoded(e)
  {
    MayMatch(e, pv) ==> Accepted(file.schema, e, pv)
  }

  /** With no conjunct unchecked the scan keeps exactly the wanted rows, in order. */
  lemma CheckedScanIsExact(file: P.File, e: Expr, pv: map<string, Literal>)
    requires Readable(file, e, pv)
    ensures PrunedOrAccepted(file, e, pv) && Unchecked(e, pv.Keys) == [] ==>
              ScanRows(file, e, pv) == WantedRows(file, e, pv)
  {
    if PrunedOrAccepted(file, e, pv) && Unchecked(e, pv.Keys) == [] {
      var ids := FileRows(file);
      AllRowsInFile(file, AllGroups(file));
      forall k | 0 <= k < |ids|
        ensures Chosen(ScanTable(file, e, pv), ids[k]) == Chosen(WantedTable(file, e, pv), ids[k])
      {
        ScanDecides(Site(file.groups[ids[k].group].data, ids[k].row, pv), e);
      }
      SelectAlike(ids, ScanTable(file, e, pv), WantedTable(file, e, pv));
    }
  }

  /** In any case it loses no wanted row. */
  lemma WantedRowsAreScanned(file: P.File, e: Expr, pv: map<string, Literal>)
    requires Readable(file, e, pv)
    ensures PrunedOrAccepted(file, e, pv) ==> forall id :: id in WantedRows(file, e, pv) ==> id in ScanRows(file, e, pv)
  {
    if PrunedOrAccepted(file, e, pv) {
      var ids := FileRows(file);
      AllRowsInFile(file, AllGroups(file));
      SelectedRows(ids, ScanTable(file, e, pv));
      SelectedRows(ids, WantedTable(file, e, pv));
      forall id | id in WantedRows(file, e, pv)
        ensures id in ScanRows(file, e, pv)
      {
        WantedRowIsScanned(file, e, pv, id);
      }
    }
  }

  lemma WantedRowIsScanned(file: P.File, e: Expr, pv: map<string, Literal>, id: RowId)
    requires Readable(file, e, pv) && PrunedOrAccepted(file, e, pv) && Chosen(WantedTable(file, e, pv), id)
    ensures Chosen(ScanTable(file, e, pv), id)
  {
    ScanDecides(Site(file.groups[id.group].data, id.row, pv), e);
  }

  /** Batches post-processed one after another, cut in any way: what the residual keeps, or the failure of
      the first batch. */
  method PostprocessAll(file: P.File, ids: seq<RowId>, columns: Option<seq<string>>, residual: Option<Expr>,
                        pv: map<string, Literal>, cut: nat -> nat) returns (r: Result<seq<RowId>, EvalError>)
    requires file.Valid() && InFile(file, ids) && ResidualOk(file.schema, residual, pv)
    ensures r.Ok? <==> ids == [] || ResidualInColumns(residual, pv, columns)
    ensures r.Ok? ==> r.value == Select(ids, ResidualTable(file, residual, pv))
  {
    ghost var table := ResidualTable(file, residual, pv);
    var rows, lo := [], 0;
    while lo < |ids|
      invariant lo <= |ids|
      invariant lo > 0 ==> ResidualInColumns(residual, pv, columns)
      invariant rows == Select(ids[..lo], table)
    {
      var hi := BatchEnd(cut, lo, |ids|);
      var kept := Emitted(file, ids[lo..hi], columns, residual, pv);
      EmittedRows(file, ids[lo..hi], columns, residual, pv);
      if kept.Err? {
        return kept;
      }
      rows := rows + kept.value;
      NextChunk(ids, lo, hi, table);
      lo := hi;
    }
    assert ids[..lo] == ids;
    return Ok(rows);
  }

  /** Opening fails, or post-processing does. */
  datatype ScanFailure = OpenFailed(reading: P.ReadError) | PostFailed(evaluating: EvalError)

  /** The scan of the fragment fails: its reader refuses the pushed filter, or rows are read and the residual
      needs a column that was not. */
  predicate Fails(file: P.File, e: Expr, pv: map<string, Literal>, columns: Option<seq<string>>)
    requires file.Valid() && Decoded(e)
  {
    || !Accepted(file.schema, e, pv)
    || (ReadRows(file, Compile(e, pv.Keys).pushed) != [] &&
        !ResidualInColumns(Compile(e, pv.Keys).residual, pv, columns))
  }

  /** Scans a fragment with both evaluators. Unless it is pruned it fails exactly as above, at opening exactly
      when the pushed filter is refused; otherwise it returns exactly the rows the filter wants when every
      conjunct is checked somewhere, and never loses a wanted row. */
  method ScanFragment(file: P.File, e: Expr, pv: map<string, Literal>, columns: Option<seq<string>>, cut: nat -> nat)
    returns (r: Result<seq<RowId>, ScanFailure>)
    requires Readable(file, e, pv)
    ensures r.Err? <==> MayMatch(e, pv) && Fails(file, e, pv, columns)
    ensures r.Err? && r.error.OpenFailed? <==> MayMatch(e, pv) && !Accepted(file.schema, e, pv)
    ensures r.Ok? ==> r.value == ScanRows(file, e, pv)
    ensures r.Ok? && Unchecked(e, pv.Keys) == [] ==> r.value == WantedRows(file, e, pv)
    ensures r.Ok? ==> forall id :: id in WantedRows(file, e, pv) ==> id in r.value
  {
    CheckedScanIsExact(file, e, pv);
    WantedRowsAreScanned(file, e, pv);
    if !MayMatch(e, pv) {
      PrunedFragmentIsEmpty(file, e, pv);
      return Ok([]);
    }
    var c := Compile(e, pv.Keys);
    var read := OpenAndRead(file, e, pv, columns, cut);
    if read.Err? {
      return Err(OpenFailed(read.error));
    }
    ReadRowsInFile(file, c.pushed);
    ResidualCompletesScan(file, e, pv);
    if c.residual.Some? {
      ResidualEvaluates(file.schema, e, pv);
    }
    var kept := PostprocessAll(file, read.value, columns, c.residual, pv, cut);
    r := if kept.Ok? then Ok(kept.value) else Err(PostFailed(kept.error));
  }

  /** Opening a fragment and reading it to the end fails exactly when the pushed filter is refused. */
  method OpenAndRead(file: P.File, e: Expr, pv: map<string, Literal>, columns: Option<seq<string>>, cut: nat -> nat)
    returns (read: Result<seq<RowId>, P.ReadError>)
    requires Readable(file, e, pv)
    ensures read.Ok? <==> Accepted(file.schema, e, pv)
    ensures read.Err? ==> read.error.InvalidFilter?
    ensures read.Ok? ==> read.value == ReadRows(file, Compile(e, pv.Keys).pushed)
  {
    AcceptedIsValid(file.schema, e, pv);
    read := ReadFiltered(file, P.ReadOpts(columns, None, Compile(e, pv.Keys).pushed), cut);
  }

  /** The reader accepts the pushed filter exactly when it validates. */
  lemma AcceptedIsValid(schema: seq<Field>, e: Expr, pv: map<string, Literal>)
    requires Decoded(e)
    ensures var pushed := Compile(e, pv.Keys).pushed;
      && (pushed.Some? ==> F.Decoded(pushed.value))
      && (Accepted(schema, e, pv) <==> (pushed.Some? ==> F.ValidateFilterTypes(schema, pushed.value).None?))
  {
    if Compile(e, pv.Keys).pushed.Some? {
      CompiledFilterIsDecoded(e, pv.Keys);
      F.ValidationIsExact(schema, Compile(e, pv.Keys).pushed.value);
    }
  }
}
