/** Row-group pruning from column statistics and the plan `apply_read_opts` makes of the read
    options (parquet.rs); pruning never changes the rows a filtered read returns. */
module ParquetPruning {
  import opened Wrappers
  import opened Arrow
  import opened Literals
  import opened ParquetFilter

  datatype PhysicalKind =
    | Int64Stats | Int32Stats | DoubleStats | FloatStats | BooleanStats | ByteArrayStats | OtherStats

  /** The minimum and maximum a column chunk records, each possibly absent. */
  datatype Statistics = Statistics(kind: PhysicalKind, min: Option<Cell>, max: Option<Cell>)

  /** A physical leaf column: its short name, its dotted path and the top-level field it belongs to. */
  datatype ParquetLeaf = ParquetLeaf(name: string, path: string, root: nat)

  datatype RowGroup = RowGroup(data: Batch, chunks: seq<Option<Statistics>>)

  datatype File = File(schema: seq<Field>, leaves: seq<ParquetLeaf>, groups: seq<RowGroup>) {
    predicate Valid() {
      forall g :: 0 <= g < |groups| ==> groups[g].data.Valid() && groups[g].data.schema == schema
    }
  }

  // ---- the code ---------------------------------------------------------------------------------

  function ParquetLeafIndex(leaves: seq<ParquetLeaf>, name: string): (r: Option<nat>)
    ensures r.Some? ==> r.value < |leaves|
  {
    if leaves == [] then None
    else if leaves[0].name == name || leaves[0].path == name then Some(0)
    else match ParquetLeafIndex(leaves[1..], name)
         case None => None
         case Some(k) => Some(k + 1)
  }

  predicate RowGroupMayMatch(file: File, g: nat, e: FilterExpr)
    requires g < |file.groups|
  {
    match e
    case And(xs) => forall k :: 0 <= k < |xs| ==> RowGroupMayMatch(file, g, xs[k])
    case Or(xs) => exists k :: 0 <= k < |xs| && RowGroupMayMatch(file, g, xs[k])
    case Leaf(op, col, value) =>
      match ChunkStatistics(file, g, col)
      case None => true
      case Some(stats) => StatsMayMatch(stats, op, value)
  }

  /** The statistics the lookup by leaf name finds, if every step of it finds something. */
  function ChunkStatistics(file: File, g: nat, col: string): Option<Statistics>
    requires g < |file.groups|
  {
    match ParquetLeafIndex(file.leaves, col)
    case None => None
    case Some(leaf) => if leaf < |file.groups[g].chunks| then file.groups[g].chunks[leaf] else None
  }

  /** The literal as a bound to compare with, when statistics of that kind can decide it. */
  function PrunableValue(kind: PhysicalKind, value: Literal): Option<Cell> {
    match (kind, value)
    case (Int64Stats, IntLit(v, _, _)) => Some(IntCell(v))
    case (Int32Stats, IntLit(v, _, _)) => Some(IntCell(v))
    case (DoubleStats, FloatLit(x, _)) => Some(RealCell(x))
    case (FloatStats, FloatLit(x, _)) => Some(RealCell(x))
    case (BooleanStats, BoolLit(b)) => Some(BoolCell(b))
    case (ByteArrayStats, Utf8Lit(s)) => Some(StrCell(s))
    case _ => None
  }

  predicate StatsMayMatch(stats: Statistics, op: CmpOp, value: Literal) {
    match PrunableValue(stats.kind, value)
    case None => true
    case Some(val) => stats.min.None? || stats.max.None? || RangeMayMatch(op, stats.min.value, stats.max.value, val)
  }

  /** The range test, the same on integers, floats, booleans and strings. */
  predicate RangeMayMatch(op: CmpOp, min: Cell, max: Cell, val: Cell) {
    match op
    case Eq => !CellLt(val, min) && !CellLt(max, val)
    case Ne => true
    case Gt => CellLt(val, max)
    case Gte => !CellLt(max, val)
    case Lt => CellLt(min, val)
    case Lte => !CellLt(val, min)
  }

  datatype ReadOpts = ReadOpts(columns: Option<seq<string>>, rowGroups: Option<seq<nat>>, filter: Option<FilterExpr>)

  datatype ReadError =
    | InvalidFilter(error: EvalError)
    | RowGroupOutOfRange(index: nat)
    | PredicateFailed(error: EvalError)

  /** The configured reader: row groups to visit, output projection, and the predicate with the
      columns it is given. */
  datatype ReadPlan = ReadPlan(
    selected: seq<nat>,
    total: nat,
    selectedCount: nat,
    skipped: nat,
    projection: Option<seq<string>>,
    predicateColumns: seq<string>,
    predicate_: Option<FilterExpr>)

  predicate InRange(file: File, groups: seq<nat>) {
    forall k :: 0 <= k < |groups| ==> groups[k] < |file.groups|
  }

  function Listed(file: File, opts: ReadOpts): (groups: seq<nat>)
    ensures opts.rowGroups.Some? ==> groups == opts.rowGroups.value
    ensures opts.rowGroups.None? ==> |groups| == |file.groups| && forall g :: 0 <= g < |groups| ==> groups[g] == g
  {
    if opts.rowGroups.Some? then opts.rowGroups.value else seq(|file.groups|, i => i)
  }

  /** The groups of a list that a keep-table keeps, in order. */
  function Retain(groups: seq<nat>, keep: seq<bool>): (kept: seq<nat>)
    requires forall k :: 0 <= k < |groups| ==> groups[k] < |keep|
    ensures forall k :: 0 <= k < |kept| ==> kept[k] < |keep| && keep[kept[k]]
    ensures |kept| <= |groups|
  {
    if groups == [] then []
    else
      var n := |groups| - 1;
      Retain(groups[..n], keep) + (if keep[groups[n]] then [groups[n]] else [])
  }

  function MayMatchTable(file: File, e: FilterExpr): (keep: seq<bool>)
    ensures |keep| == |file.groups|
  {
    seq(|file.groups|, g requires 0 <= g < |file.groups| => RowGroupMayMatch(file, g, e))
  }

  /** The groups a read visits: those listed, less those the statistics rule out. */
  function Selected(file: File, opts: ReadOpts): seq<nat>
    requires InRange(file, Listed(file, opts))
  {
    if opts.filter.None? then Listed(file, opts)
    else Retain(Listed(file, opts), MayMatchTable(file, opts.filter.value))
  }

  function SaturatingSub(a: nat, b: nat): (d: nat)
    ensures a >= b ==> b + d == a
    ensures a <= b ==> d == 0
  {
    if a >= b then a - b else 0
  }

  method FirstOutOfRange(file: File, groups: seq<nat>) returns (bad: Option<nat>)
    ensures bad.None? ==> InRange(file, groups)
    ensures bad.Some? ==> bad.value < |groups| && groups[bad.value] >= |file.groups|
    ensures bad.Some? ==> InRange(file, groups[..bad.value])
  {
    for k := 0 to |groups|
      invariant InRange(file, groups[..k])
    {
      if groups[k] >= |file.groups| {
        return Some(k);
      }
    }
    assert groups[..|groups|] == groups;
    return None;
  }

  /** `selected.retain(...)`. */
  method RetainMayMatch(file: File, groups: seq<nat>, e: FilterExpr) returns (kept: seq<nat>)
    requires InRange(file, groups)
    ensures kept == Retain(groups, MayMatchTable(file, e))
  {
    kept := [];
    for k := 0 to |groups|
      invariant kept == Retain(groups[..k], MayMatchTable(file, e))
    {
      assert groups[..k + 1][..k] == groups[..k];
      if RowGroupMayMatch(file, groups[k], e) {
        kept := kept + [groups[k]];
      }
    }
    assert groups[..|groups|] == groups;
  }

  method ApplyReadOpts(file: File, opts: ReadOpts) returns (r: Result<ReadPlan, ReadError>)
    requires file.Valid()
    // Validation of the filter comes first, then the first listed index past the end.
    ensures (r.Err? && r.error.InvalidFilter?) <==>
            (opts.filter.Some? && ValidateFilterTypes(file.schema, opts.filter.value).Some?)
    ensures r.Err? && r.error.InvalidFilter? ==>
              r.error.error == ValidateFilterTypes(file.schema, opts.filter.value).value
    ensures r.Err? && r.error.RowGroupOutOfRange? ==>
              exists k :: 0 <= k < |Listed(file, opts)| && InRange(file, Listed(file, opts)[..k]) &&
                          Listed(file, opts)[k] == r.error.index >= |file.groups|
    ensures r.Ok? <==> (opts.filter.Some? ==> ValidateFilterTypes(file.schema, opts.filter.value).None?) &&
                       InRange(file, Listed(file, opts))
    ensures r.Ok? ==>
      && r.value.predicate_ == opts.filter && r.value.projection == opts.columns
      && r.value.selected == Selected(file, opts)
      && r.value.selectedCount == |r.value.selected| && r.value.total == |file.groups|
      && (opts.filter.Some? ==> forall c :: c in r.value.predicateColumns <==> c in FilterColumns(opts.filter.value))
    // Row groups selected and skipped add up to the file's, unless a list repeats an index too often.
    ensures r.Ok? ==> r.value.skipped == SaturatingSub(r.value.total, r.value.selectedCount)
    ensures r.Ok? ==>
              (r.value.selectedCount + r.value.skipped == r.value.total <==> r.value.selectedCount <= r.value.total)
    ensures r.Ok? && opts.rowGroups.None? ==> r.value.selectedCount + r.value.skipped == r.value.total
  {
    var total := |file.groups|;
    if opts.filter.Some? {
      var fault := ValidateFilterTypes(file.schema, opts.filter.value);
      if fault.Some? {
        return Err(InvalidFilter(fault.value));
      }
    }
    var selected := Listed(file, opts);
    if opts.rowGroups.Some? {
      var bad := FirstOutOfRange(file, selected);
      if bad.Some? {
        return Err(RowGroupOutOfRange(selected[bad.value]));
      }
    }
    var predicateColumns := [];
    if opts.filter.Some? {
      selected := RetainMayMatch(file, selected, opts.filter.value);
      predicateColumns := CollectFilterColumns(opts.filter.value, []);
    }
    var selectedCount := |selected|;
    var skipped := SaturatingSub(total, selectedCount);
    r := Ok(ReadPlan(selected, total, selectedCount, skipped, opts.columns, predicateColumns, opts.filter));
  }

  // ---- when statistics can be trusted ------------------------------------------------------------------

  function PhysicalKindOf(t: DataType): PhysicalKind {
    match t
    case Int64 => Int64Stats
    case Int32 => Int32Stats
    case Float64 => DoubleStats
    case Float32 => FloatStats
    case Boolean => BooleanStats
    case Utf8 => ByteArrayStats
    case _ => OtherStats
  }

  /** The types a filter can name; all others fail validation. */
  predicate Filterable(t: DataType) {
    t.Int64? || t.Int32? || t.Float64? || t.Float32? || t.Boolean? || t.Utf8?
  }

  /** The statistics are of the column's physical type and bound each of its non-null cells. */
  predicate Describes(stats: Statistics, c: Column) {
    && stats.kind == PhysicalKindOf(c.dtype)
    && (stats.min.Some? && stats.max.Some? ==>
          forall i :: 0 <= i < |c.cells| && c.cells[i].Some? ==>
            && SameKind(c.cells[i].value, stats.min.value) && SameKind(c.cells[i].value, stats.max.value)
            && !CellLt(c.cells[i].value, stats.min.value) && !CellLt(stats.max.value, c.cells[i].value))
  }

  /** For every column the filter names, the statistics found by leaf name describe that column. */
  predicate StatisticsSound(file: File, e: FilterExpr)
    requires file.Valid()
  {
    forall c, g :: c in FilterColumns(e) && 0 <= g < |file.groups| ==> ColumnStatisticsSound(file, g, c)
  }

  predicate ColumnStatisticsSound(file: File, g: nat, name: string)
    requires file.Valid() && g < |file.groups|
  {
    match ColumnByName(file.groups[g].data, name)
    case None => true
    case Some(column) =>
      Filterable(column.dtype) && ChunkStatistics(file, g, name).Some? ==>
        Describes(ChunkStatistics(file, g, name).value, column)
  }

  // ---- pruning is sound ---------------------------------------------------------------------------------

  /** The range test is exact: a group is kept just when some value between the two bounds
      satisfies the comparison; only `Ne`, which is never pruned, is coarser. */
  lemma RangeTestIsExact(op: CmpOp, min: Cell, max: Cell, val: Cell)
    requires SameKind(min, max) && SameKind(max, val) && !CellLt(max, min) && op != Ne
    ensures RangeMayMatch(op, min, max, val) <==>
            exists c :: SameKind(c, min) && !CellLt(c, min) && !CellLt(max, c) && Compare(op, c, val)
  {
    CellOrder(min, max, val);
    CellOrder(max, min, val);
    CellOrder(val, val, val);
    if RangeMayMatch(op, min, max, val) {
      var c := if op.Eq? then val else if op.Gt? || op.Gte? then max else min;
      CellOrder(min, val, max);
      assert SameKind(c, min) && !CellLt(c, min) && !CellLt(max, c) && Compare(op, c, val);
    }
    forall c | SameKind(c, min) && !CellLt(c, min) && !CellLt(max, c) && Compare(op, c, val)
      ensures RangeMayMatch(op, min, max, val)
    {
      RangeTestKeepsMatches(op, min, max, val, c);
    }
  }

  // ---- and prunes what it can ----------------------------------------------------------------------------

  /** Statistics of these kinds decide comparisons with literals of these kinds, and with no others. */
  predicate Decides(kind: PhysicalKind, l: Literal) {
    match l
    case IntLit(_, _, _) => kind.Int64Stats? || kind.Int32Stats?
    case FloatLit(_, _) => kind.DoubleStats? || kind.FloatStats?
    case BoolLit(_) => kind.BooleanStats?
    case Utf8Lit(_) => kind.ByteArrayStats?
    case _ => false
  }

  /** The bounds are of the kind of cell the statistics are of, and in order. */
  predicate WellBounded(stats: Statistics) {
    stats.min.Some? && stats.max.Some? ==>
      && !CellLt(stats.max.value, stats.min.value) && SameKind(stats.min.value, stats.max.value)
      && match stats.kind
         case Int64Stats | Int32Stats => stats.min.value.IntCell?
         case DoubleStats | FloatStats => stats.min.value.RealCell?
         case BooleanStats => stats.min.value.BoolCell?
         case ByteArrayStats => stats.min.value.StrCell?
         case OtherStats => true
  }

  /** Some value within the bounds satisfies the comparison with the literal's value. */
  ghost predicate SomeValueFits(op: CmpOp, min: Cell, max: Cell, l: Literal)
    requires l.IntLit? || l.FloatLit? || l.BoolLit? || l.Utf8Lit?
  {
    exists c :: SameKind(c, min) && !CellLt(c, min) && !CellLt(max, c) && Compare(op, c, ExactCell(l, Utf8))
  }

  /** A leaf keeps a group: nothing is known of the column, or some value within the bounds fits. */
  ghost predicate LeafAdmits(file: File, g: nat, op: CmpOp, col: string, l: Literal)
    requires g < |file.groups|
  {
    match ChunkStatistics(file, g, col)
    case None => true
    case Some(stats) =>
      if op == Ne || stats.min.None? || stats.max.None? || !Decides(stats.kind, l) then true
      else SomeValueFits(op, stats.min.value, stats.max.value, l)
  }

  ghost predicate Admits(file: File, g: nat, e: FilterExpr)
    requires g < |file.groups|
  {
    match e
    case Leaf(op, col, l) => LeafAdmits(file, g, op, col, l)
    case And(xs) => forall k :: 0 <= k < |xs| ==> Admits(file, g, xs[k])
    case Or(xs) => exists k :: 0 <= k < |xs| && Admits(file, g, xs[k])
  }

  /** Pruning is as sharp as the bounds allow: a group is kept exactly when every conjunct, and some disjunct,
      has a value within its column's bounds. */
  lemma {:induction false} PruningIsSharp(file: File, g: nat, e: FilterExpr)
    requires g < |file.groups|
    requires forall k :: 0 <= k < |file.groups[g].chunks| && file.groups[g].chunks[k].Some? ==>
               WellBounded(file.groups[g].chunks[k].value)
    ensures RowGroupMayMatch(file, g, e) <==> Admits(file, g, e)
    decreases e
  {
    if e.Leaf? {
      LeafIsSharp(file, g, e.op, e.col, e.value);
    } else {
      forall k | 0 <= k < |e.children|
        ensures RowGroupMayMatch(file, g, e.children[k]) <==> Admits(file, g, e.children[k])
      {
        PruningIsSharp(file, g, e.children[k]);
      }
    }
  }

  lemma LeafIsSharp(file: File, g: nat, op: CmpOp, col: string, l: Literal)
    requires g < |file.groups|
    requires ChunkStatistics(file, g, col).Some? ==> WellBounded(ChunkStatistics(file, g, col).value)
    ensures RowGroupMayMatch(file, g, Leaf(op, col, l)) <==> LeafAdmits(file, g, op, col, l)
  {
    if ChunkStatistics(file, g, col).Some? {
      var stats := ChunkStatistics(file, g, col).value;
      if op != Ne && stats.min.Some? && stats.max.Some? && Decides(stats.kind, l) {
        RangeTestIsExact(op, stats.min.value, stats.max.value, ExactCell(l, Utf8));
      }
    }
  }

  lemma RangeTestKeepsMatches(op: CmpOp, min: Cell, max: Cell, val: Cell, c: Cell)
    requires SameKind(c, min) && SameKind(c, max) && SameKind(c, val)
    requires !CellLt(c, min) && !CellLt(max, c) && Compare(op, c, val)
    ensures RangeMayMatch(op, min, max, val)
  {
    CellOrder(val, c, max);
    CellOrder(min, c, val);
  }

  lemma LeafNeverPrunesAMatch(stats: Statistics, c: Column, op: CmpOp, value: Literal, row: nat)
    requires c.Valid() && Describes(stats, c) && row < |c.cells| && c.cells[row].Some?
    requires MakeScalar(value, c.dtype).Ok? && Compare(op, c.cells[row].value, MakeScalar(value, c.dtype).value)
    ensures StatsMayMatch(stats, op, value)
  {
    var val := PrunableValue(stats.kind, value);
    if val.Some? && stats.min.Some? && stats.max.Some? {
      assert MakeScalar(value, c.dtype).value == val.value;
      RangeTestKeepsMatches(op, stats.min.value, stats.max.value, val.value, c.cells[row].value);
    }
  }

  lemma {:induction false} PruningKeepsMatches(file: File, g: nat, e: FilterExpr, row: nat)
    requires file.Valid() && g < |file.groups| && row < file.groups[g].data.rows
    requires StatisticsSound(file, e) && Meaning(file.groups[g].data, row, e) == Some(true)
    ensures RowGroupMayMatch(file, g, e)
    decreases e
  {
    var data := file.groups[g].data;
    match e {
      case Leaf(op, col, value) =>
        assert ColumnStatisticsSound(file, g, col);
        if ChunkStatistics(file, g, col).Some? {
          LeafNeverPrunesAMatch(ChunkStatistics(file, g, col).value, ColumnByName(data, col).value, op, value, row);
        }
      case And(xs) =>
        forall k | 0 <= k < |xs|
          ensures RowGroupMayMatch(file, g, xs[k])
        {
          assert forall c :: c in FilterColumns(xs[k]) ==> c in FilterColumns(e);
          PruningKeepsMatches(file, g, xs[k], row);
        }
      case Or(xs) =>
        var k :| 0 <= k < |xs| && Holds(data, row, xs[k]);
        assert forall c :: c in FilterColumns(xs[k]) ==> c in FilterColumns(e);
        PruningKeepsMatches(file, g, xs[k], row);
    }
  }

  lemma PrunedGroupHasNoMatch(file: File, g: nat, e: FilterExpr, row: nat)
    requires file.Valid() && g < |file.groups| && StatisticsSound(file, e) && !RowGroupMayMatch(file, g, e)
    requires row < file.groups[g].data.rows
    ensures Meaning(file.groups[g].data, row, e) != Some(true)
  {
    if Meaning(file.groups[g].data, row, e) == Some(true) {
      PruningKeepsMatches(file, g, e, row);
    }
  }

  // ---- whose statistics the lookup finds -----------------------------------------------------------------

  /** Leaf `k` is the own leaf of the primitive top-level field `j`: its path is the field's name. */
  predicate OwnLeaf(file: File, j: nat, k: nat) {
    j < |file.schema| && k < |file.leaves| && file.leaves[k].root == j && file.leaves[k].path == file.schema[j].name
  }

  /** No leaf before `k` has the name as its short name or path. */
  predicate Unobstructed(leaves: seq<ParquetLeaf>, name: string, k: nat)
    requires k <= |leaves|
  {
    forall i :: 0 <= i < k ==> leaves[i].name != name && leaves[i].path != name
  }

  lemma {:induction false} LeafLookup(leaves: seq<ParquetLeaf>, name: string, k: nat)
    requires k < |leaves| && leaves[k].path == name
    ensures ParquetLeafIndex(leaves, name) == Some(k) <==> Unobstructed(leaves, name, k)
  {
    if k > 0 {
      LeafLookup(leaves[1..], name, k - 1);
      assert Unobstructed(leaves, name, k) <==>
             leaves[0].name != name && leaves[0].path != name && Unobstructed(leaves[1..], name, k - 1) by {
        assert forall i :: 1 <= i < k ==> leaves[i] == leaves[1..][i - 1];
      }
    }
  }

  /** The lookup of a top-level column finds that column's own leaf exactly when no earlier leaf has the
      column's name as its short name or path. */
  lemma LookupIsExact(file: File, j: nat, k: nat)
    requires OwnLeaf(file, j, k)
    ensures ParquetLeafIndex(file.leaves, file.schema[j].name) == Some(k) <==>
            Unobstructed(file.leaves, file.schema[j].name, k)
  {
    LeafLookup(file.leaves, file.schema[j].name, k);
  }

  /** As writers leave it: a column of a filterable type has its own leaf, whose statistics describe it. */
  ghost predicate WellWritten(file: File)
    requires file.Valid()
  {
    && (forall j :: 0 <= j < |file.schema| && Filterable(file.schema[j].dtype) ==>
          exists k: nat :: OwnLeaf(file, j, k))
    && (forall g, j: nat, k: nat ::
          0 <= g < |file.groups| && OwnLeaf(file, j, k) && k < |file.groups[g].chunks| &&
          file.groups[g].chunks[k].Some? ==>
            Describes(file.groups[g].chunks[k].value, file.groups[g].data.columns[j]))
  }

  /** No other leaf hides the own leaf of the column of that name. */
  ghost predicate InPlainSight(file: File, name: string) {
    forall j: nat, k: nat :: FieldIndex(file.schema, name) == Some(j) && OwnLeaf(file, j, k) ==>
      Unobstructed(file.leaves, name, k)
  }

  /** So pruning may trust the statistics of a file, nested or not, for columns in plain sight. */
  lemma PlainSightIsSound(file: File, e: FilterExpr)
    requires file.Valid() && WellWritten(file) && forall c :: c in FilterColumns(e) ==> InPlainSight(file, c)
    ensures StatisticsSound(file, e)
  {
    forall c, g | c in FilterColumns(e) && 0 <= g < |file.groups|
      ensures ColumnStatisticsSound(file, g, c)
    {
      if FieldIndex(file.schema, c).Some? && Filterable(file.schema[FieldIndex(file.schema, c).value].dtype) {
        var j := FieldIndex(file.schema, c).value;
        var k: nat :| OwnLeaf(file, j, k);
        LookupIsExact(file, j, k);
      }
    }
  }

  /** In a flat file with distinct names every column is in plain sight. */
  predicate Flat(file: File) {
    && |file.leaves| == |file.schema|
    && (forall j :: 0 <= j < |file.schema| ==>
          file.leaves[j].root == j && file.leaves[j].name == file.leaves[j].path == file.schema[j].name)
    && (forall i, j :: 0 <= i < j < |file.schema| ==> file.schema[i].name != file.schema[j].name)
  }

  lemma FlatFilesAreSound(file: File, e: FilterExpr)
    requires file.Valid() && WellWritten(file) && Flat(file)
    ensures StatisticsSound(file, e)
  {
    PlainSightIsSound(file, e);
  }

  /** A file with a struct column `s` holding a leaf `a`, before a plain column `a`; its one row has
      s.a = 0 and a = 5. */
  const NESTED_DATA := Batch(1, [Field("s", OtherType(StructKind, "")), Field("a", Int64)],
                             [Column(OtherType(StructKind, ""), [Some(OpaqueCell(0))]),
                              Column(Int64, [Some(IntCell(5))])])
  const NESTED_FILE := File(NESTED_DATA.schema, [ParquetLeaf("a", "s.a", 0), ParquetLeaf("a", "a", 1)],
                            [RowGroup(NESTED_DATA, [Some(Statistics(Int64Stats, Some(IntCell(0)), Some(IntCell(0)))),
                                                    Some(Statistics(Int64Stats, Some(IntCell(5)), Some(IntCell(5))))])])
  const A_IS_FIVE := Leaf(Eq, "a", IntLit(5, 5, 5))

  /** With a nested column the leaf lookup can find the wrong statistics: `a` names the leaf `s.a`
      first, and the only row group, whose row matches, is pruned. */
  lemma NestedLeafPrunesAMatch()
    ensures NESTED_FILE.Valid() && Meaning(NESTED_DATA, 0, A_IS_FIVE) == Some(true)
    ensures OwnLeaf(NESTED_FILE, 1, 1) && !Unobstructed(NESTED_FILE.leaves, "a", 1)
    ensures !RowGroupMayMatch(NESTED_FILE, 0, A_IS_FIVE)
  {
    assert NESTED_FILE.leaves[0].name == "a";
    var schema := NESTED_DATA.schema;
    assert schema[1..][0] == schema[1];
    assert FieldIndex(schema[1..], "a") == Some(0);
    assert ColumnByName(NESTED_DATA, "a") == Some(NESTED_DATA.columns[1]);
  }

  const OTHER_LEAVES := [ParquetLeaf("b", "s.b", 0), ParquetLeaf("c", "s.c", 0), ParquetLeaf("a", "a", 1)]

  /** With the struct's leaves called `b` and `c` the file is nested, not flat, and in plain sight. */
  lemma NestedFilesCanBeSound()
    ensures Unobstructed(OTHER_LEAVES, "a", 2) && ParquetLeafIndex(OTHER_LEAVES, "a") == Some(2)
  {
    LeafLookup(OTHER_LEAVES, "a", 2);
  }
}
