/** A filtered Parquet read: the reader visits the selected row groups, cuts their rows into batches and
    evaluates the predicate on each batch's predicate columns (parquet.rs). */
module ParquetRead {
  import opened Wrappers
  import opened Arrow
  import opened Literals
  import opened ParquetFilter
  import opened ParquetPruning
  import opened RowSelection

  // ---- rows and batches of a file ----------------------------------------------------------------------

  function GroupRows(file: File, g: nat): (ids: seq<RowId>)
    requires g < |file.groups|
    ensures |ids| == file.groups[g].data.rows
  {
    seq(file.groups[g].data.rows, i requires 0 <= i < file.groups[g].data.rows => RowId(g, i))
  }

  function RowLists(file: File): (lists: seq<seq<RowId>>)
    ensures |lists| == |file.groups|
  {
    seq(|file.groups|, g requires 0 <= g < |file.groups| => GroupRows(file, g))
  }

  /** Every row of the listed groups, in order. */
  function AllRows(file: File, groups: seq<nat>): seq<RowId>
    requires InRange(file, groups)
  {
    Gather(groups, RowLists(file))
  }

  lemma {:induction false} AllRowsInFile(file: File, groups: seq<nat>)
    requires InRange(file, groups)
    ensures InFile(file, AllRows(file, groups))
  {
    if groups != [] {
      AllRowsInFile(file, groups[..|groups| - 1]);
    }
  }

  /** The rows of increasing groups, all of them and no others, each once and in order. */
  lemma {:induction false} RowsInOrder(file: File, groups: seq<nat>)
    requires InRange(file, groups) && forall i, j :: 0 <= i < j < |groups| ==> groups[i] < groups[j]
    ensures InOrder(AllRows(file, groups))
    ensures forall id :: id in AllRows(file, groups) <==> IsRow(file, id) && id.group in groups
  {
    if groups != [] {
      var n := |groups| - 1;
      RowsInOrder(file, groups[..n]);
      GroupInOrder(file, groups[n]);
      assert groups == groups[..n] + [groups[n]];
      forall id | id in AllRows(file, groups[..n])
        ensures id.group < groups[n]
      {
        var i :| 0 <= i < n && groups[..n][i] == id.group;
      }
    }
  }

  lemma GroupInOrder(file: File, g: nat)
    requires g < |file.groups|
    ensures InOrder(GroupRows(file, g))
    ensures forall id :: id in GroupRows(file, g) <==> IsRow(file, id) && id.group == g
  {
    forall id | IsRow(file, id) && id.group == g
      ensures id in GroupRows(file, g)
    {
      assert GroupRows(file, g)[id.row] == id;
    }
  }

  predicate InFile(file: File, ids: seq<RowId>) {
    forall k :: 0 <= k < |ids| ==> IsRow(file, ids[k])
  }

  predicate IsRow(file: File, id: RowId) {
    id.group < |file.groups| && id.row < file.groups[id.group].data.rows
  }

  /** A batch made of the listed rows, whichever groups they come from. */
  function TakeRows(file: File, ids: seq<RowId>): (b: Batch)
    requires file.Valid() && InFile(file, ids)
    ensures b.Valid() && b.rows == |ids| && b.schema == file.schema
  {
    Batch(|ids|, file.schema, seq(|file.schema|, j requires 0 <= j < |file.schema| =>
      Column(file.schema[j].dtype, seq(|ids|, i requires 0 <= i < |ids| =>
        file.groups[ids[i].group].data.columns[j].cells[ids[i].row]))))
  }

  lemma TakenRow(file: File, ids: seq<RowId>, i: nat)
    requires file.Valid() && InFile(file, ids) && i < |ids|
    ensures SameRow(TakeRows(file, ids), i, file.groups[ids[i].group].data, ids[i].row)
  {
  }

  // ---- the reference --------------------------------------------------------------------------------------

  /** The filter's meaning on every row of the file; without a filter every row is kept. */
  function MeaningTable(file: File, e: Option<FilterExpr>): Table
    requires file.Valid()
  {
    seq(|file.groups|, g requires 0 <= g < |file.groups| =>
      seq(file.groups[g].data.rows, i requires 0 <= i < file.groups[g].data.rows =>
        e.None? || Meaning(file.groups[g].data, i, e.value) == Some(true)))
  }

  /** Every row of the listed groups on which the filter means true, in order. */
  function RowsMatching(file: File, groups: seq<nat>, e: Option<FilterExpr>): seq<RowId>
    requires file.Valid() && InRange(file, groups)
  {
    Select(AllRows(file, groups), MeaningTable(file, e))
  }

  // ---- pruning leaves the rows alone ------------------------------------------------------------------------

  lemma PrunedRows(file: File, g: nat, e: FilterExpr)
    requires file.Valid() && StatisticsSound(file, e) && g < |file.groups| && !RowGroupMayMatch(file, g, e)
    ensures Select(GroupRows(file, g), MeaningTable(file, Some(e))) == []
  {
    var ids := GroupRows(file, g);
    forall k | 0 <= k < |ids|
      ensures !Chosen(MeaningTable(file, Some(e)), ids[k])
    {
      PrunedGroupHasNoMatch(file, g, e, k);
    }
    SelectNothing(ids, MeaningTable(file, Some(e)));
  }

  /** Dropping groups without rows changes neither the rows gathered nor their order. */
  lemma {:induction false} GatherRetained(groups: seq<nat>, keep: seq<bool>, lists: seq<seq<RowId>>)
    requires |keep| == |lists| && forall k :: 0 <= k < |groups| ==> groups[k] < |keep|
    requires forall g :: 0 <= g < |lists| && !keep[g] ==> lists[g] == []
    ensures Gather(Retain(groups, keep), lists) == Gather(groups, lists)
  {
    if groups != [] {
      var n := |groups| - 1;
      GatherRetained(groups[..n], keep, lists);
      var before := Retain(groups[..n], keep);
      if keep[groups[n]] {
        assert (before + [groups[n]])[..|before|] == before;
      } else {
        assert before + [] == before;
      }
    }
  }

  /** Nor does dropping the groups that the statistics rule out before filtering. */
  lemma PruningPreservesRows(file: File, groups: seq<nat>, e: FilterExpr)
    requires file.Valid() && StatisticsSound(file, e) && InRange(file, groups)
    ensures RowsMatching(file, Retain(groups, MayMatchTable(file, e)), Some(e)) ==
            RowsMatching(file, groups, Some(e))
  {
    var lists, table, keep := RowLists(file), MeaningTable(file, Some(e)), MayMatchTable(file, e);
    var picked := seq(|lists|, g requires 0 <= g < |lists| => Select(lists[g], table));
    forall g | 0 <= g < |lists| && !keep[g]
      ensures picked[g] == []
    {
      PrunedRows(file, g, e);
    }
    GatherRetained(groups, keep, picked);
    SelectGather(groups, lists, table, picked);
    SelectGather(Retain(groups, keep), lists, table, picked);
  }

  // ---- the reader -------------------------------------------------------------------------------------------

  /** Evaluation on a batch's predicate columns is the filter's verdict on each of its rows. */
  lemma BatchVerdicts(file: File, ids: seq<RowId>, columns: seq<string>, e: FilterExpr)
    requires file.Valid() && InFile(file, ids) && forall c :: c in FilterColumns(e) ==> c in columns
    ensures EvalSpec(Project(TakeRows(file, ids), columns), e) ==
            if FirstFault(file.schema, e).Some? then Err(FirstFault(file.schema, e).value)
            else Ok(MeaningMask(TakeRows(file, ids), e))
    ensures PickMask(ids, MeaningMask(TakeRows(file, ids), e)) == Select(ids, MeaningTable(file, Some(e)))
  {
    var batch := TakeRows(file, ids);
    ProjectionSuffices(batch, columns, e);
    forall k | 0 <= k < |ids|
      ensures MeaningMask(batch, e)[k] == Some(true) <==> Chosen(MeaningTable(file, Some(e)), ids[k])
    {
      TakenRow(file, ids, k);
      SameRowMeaning(batch, k, file.groups[ids[k].group].data, ids[k].row, e);
    }
    PickIsSelect(ids, MeaningMask(batch, e), MeaningTable(file, Some(e)));
  }

  /** One batch through `eval_filter_on_batch` and the filter kernel. */
  method FilterBatch(file: File, ids: seq<RowId>, columns: seq<string>, e: FilterExpr)
    returns (r: Result<seq<RowId>, EvalError>)
    requires file.Valid() && InFile(file, ids) && forall c :: c in FilterColumns(e) ==> c in columns
    ensures r == if FirstFault(file.schema, e).Some? then Err(FirstFault(file.schema, e).value)
                 else Ok(Select(ids, MeaningTable(file, Some(e))))
  {
    var mask := EvalFilterOnBatch(Project(TakeRows(file, ids), columns), e);
    BatchVerdicts(file, ids, columns, e);
    return if mask.Err? then Err(mask.error) else Ok(PickMask(ids, mask.value));
  }

  /** Reads rows cut into batches in any way: the rows on which the filter means true, or the error of
      evaluating it on the first batch. */
  method FilterInBatches(file: File, ids: seq<RowId>, columns: seq<string>, e: FilterExpr, cut: nat -> nat)
    returns (r: Result<seq<RowId>, EvalError>)
    requires file.Valid() && InFile(file, ids)
    requires forall c :: c in FilterColumns(e) ==> c in columns
    ensures r == if FirstFault(file.schema, e).Some? && ids != [] then Err(FirstFault(file.schema, e).value)
                 else Ok(Select(ids, MeaningTable(file, Some(e))))
  {
    ghost var table := MeaningTable(file, Some(e));
    var rows, lo := [], 0;
    while lo < |ids|
      invariant lo <= |ids|
      invariant lo > 0 ==> FirstFault(file.schema, e).None?
      invariant rows == Select(ids[..lo], table)
    {
      var hi := BatchEnd(cut, lo, |ids|);
      var kept := FilterBatch(file, ids[lo..hi], columns, e);
      if kept.Err? {
        return Err(kept.error);
      }
      rows := rows + kept.value;
      NextChunk(ids, lo, hi, table);
      lo := hi;
    }
    assert ids[..lo] == ids;
    return Ok(rows);
  }

  function AsRead(r: Result<seq<RowId>, EvalError>): Result<seq<RowId>, ReadError> {
    match r
    case Ok(rows) => Ok(rows)
    case Err(error) => Err(PredicateFailed(error))
  }

  lemma EveryRowMatches(file: File, groups: seq<nat>)
    requires file.Valid() && InRange(file, groups)
    ensures RowsMatching(file, groups, None) == AllRows(file, groups)
  {
    AllRowsInFile(file, groups);
    SelectEverything(AllRows(file, groups), MeaningTable(file, None));
  }

  /** Pushdown preserves meaning. With sound statistics a filtered read, however cut into batches, fails exactly
      when the filter does not validate or an index is out of range, and otherwise returns the rows that
      filtering every listed row group row by row returns, in the same order. */
  method ReadFiltered(file: File, opts: ReadOpts, cut: nat -> nat) returns (rows: Result<seq<RowId>, ReadError>)
    requires file.Valid()
    requires opts.filter.Some? ==> Decoded(opts.filter.value) && StatisticsSound(file, opts.filter.value)
    ensures rows.Ok? <==> (opts.filter.Some? ==> ValidateFilterTypes(file.schema, opts.filter.value).None?) &&
                          InRange(file, Listed(file, opts))
    ensures opts.filter.Some? && ValidateFilterTypes(file.schema, opts.filter.value).Some? ==>
              rows == Err(InvalidFilter(ValidateFilterTypes(file.schema, opts.filter.value).value))
    ensures rows.Ok? ==> rows.value == RowsMatching(file, Listed(file, opts), opts.filter)
  {
    var plan := ApplyReadOpts(file, opts);
    if plan.Err? {
      return Err(plan.error);
    }
    var ids := AllRows(file, plan.value.selected);
    AllRowsInFile(file, plan.value.selected);
    if opts.filter.None? {
      EveryRowMatches(file, Listed(file, opts));
      return Ok(ids);
    }
    ValidationIsExact(file.schema, opts.filter.value);
    PruningPreservesRows(file, Listed(file, opts), opts.filter.value);
    var filtered := FilterInBatches(file, ids, plan.value.predicateColumns, opts.filter.value, cut);
    return AsRead(filtered);
  }
}
