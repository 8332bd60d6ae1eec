/** A whole Parquet dataset scanned: `select_fragments` prunes by partition values, every selected fragment is
    opened, read and post-processed, and the scan concatenates what comes out (scanner.ex, partition.ex). */
module DatasetScan {
  import opened Wrappers
  import opened Arrow
  import opened Literals
  import opened ComputeExpr
  import opened DatasetFilter
  import opened ScanFilter
  import opened RowSelection
  import opened ParquetRead
  import opened FragmentScan
  import P = ParquetPruning
  import F = ParquetFilter
  import S = Scanner
  import T = ScanTrace

  /** A discovered fragment: its path, its partition values and its file. */
  datatype DataFragment = DataFragment(path: string, pv: map<string, Literal>, file: P.File)

  /** The columns to read, and how the readers cut rows into batches. */
  datatype Options = Options(columns: Option<seq<string>>, cut: nat -> nat)

  // ---- select_fragments ----------------------------------------------------------------------------------

  function Matching(dataset: seq<DataFragment>, e: Expr): seq<DataFragment>
    requires Decoded(e)
  {
    if dataset == [] then [] else MatchingOne(dataset[0], e) + Matching(dataset[1..], e)
  }

  function MatchingOne(frag: DataFragment, e: Expr): seq<DataFragment>
    requires Decoded(e)
  {
    if MayMatch(e, frag.pv) then [frag] else []
  }

  lemma NextMatching(kept: seq<DataFragment>, dataset: seq<DataFragment>, k: nat, e: Expr)
    requires Decoded(e) && k < |dataset|
    ensures kept + Matching(dataset[k..], e) == (kept + MatchingOne(dataset[k], e)) + Matching(dataset[k + 1..], e)
  {
    assert dataset[k..][1..] == dataset[k + 1..];
  }

  /** The fragments pruning keeps, in order, and how many it drops. */
  method SelectFragments(dataset: seq<DataFragment>, e: Expr) returns (kept: seq<DataFragment>, pruned: nat)
    requires Decoded(e)
    ensures kept == Matching(dataset, e) && |kept| + pruned == |dataset|
  {
    kept, pruned := [], 0;
    for k := 0 to |dataset|
      invariant kept + Matching(dataset[k..], e) == Matching(dataset, e)
      invariant |kept| + pruned == k
    {
      NextMatching(kept, dataset, k, e);
      if MayMatch(e, dataset[k].pv) {
        kept := kept + [dataset[k]];
      } else {
        assert kept + [] == kept;
        pruned := pruned + 1;
      }
    }
    assert kept + [] == kept;
  }

  // ---- one fragment ----------------------------------------------------------------------------------------

  /** `data_type_to_atom`. */
  function AtomOf(t: DataType): T.TypeAtom {
    match t
    case Int8 => T.Int8Atom
    case Int16 => T.Int16Atom
    case Int32 => T.Int32Atom
    case Int64 => T.Int64Atom
    case UInt8 => T.UInt8Atom
    case UInt16 => T.UInt16Atom
    case UInt32 => T.UInt32Atom
    case UInt64 => T.UInt64Atom
    case Float32 => T.Float32Atom
    case Float64 => T.Float64Atom
    case Utf8 => T.Utf8Atom
    case LargeUtf8 => T.LargeUtf8Atom
    case Boolean => T.BooleanAtom
    case Date32 => T.Date32Atom
    case Date64 => T.Date64Atom
    case Timestamp(_, _) => T.TimestampAtom
    case OtherType(kind, _) => AtomOfKind(kind)
  }

  function AtomOfKind(kind: OtherKind): T.TypeAtom {
    match kind
    case NullKind => T.NullAtom
    case Float16Kind => T.Float16Atom
    case BinaryKind => T.BinaryAtom
    case LargeBinaryKind => T.LargeBinaryAtom
    case ListKind => T.ListAtom
    case LargeListKind => T.LargeListAtom
    case StructKind => T.StructAtom
    case Time32Kind => T.Time32Atom
    case Time64Kind => T.Time64Atom
    case DurationKind => T.DurationAtom
    case Decimal128Kind => T.Decimal128Atom
    case Decimal256Kind => T.Decimal256Atom
    case DictionaryKind => T.DictionaryAtom
    case UnknownKind(_) => T.UnknownAtom
  }

  /** The fields a read with a `columns` option yields: those named, in the order of the file. */
  function FieldsNamed(schema: seq<Field>, names: seq<string>): seq<Field> {
    if schema == [] then []
    else (if schema[0].name in names then [schema[0]] else []) + FieldsNamed(schema[1..], names)
  }

  function ReadFields(file: P.File, columns: Option<seq<string>>): seq<Field> {
    if columns.None? then file.schema else FieldsNamed(file.schema, columns.value)
  }

  /** `schema_signature` of the reader, whose schema is the projected one. */
  function SignatureOf(file: P.File, columns: Option<seq<string>>): T.Signature
    requires file.Valid()
  {
    var schema := ProjectTo(TakeRows(file, []), columns).schema;
    seq(|schema|, j requires 0 <= j < |schema| => (schema[j].name, AtomOf(schema[j].dtype)))
  }

  lemma {:induction false} ProjectedFields(b: Batch, names: seq<string>)
    requires b.Valid()
    ensures Project(b, names).schema == FieldsNamed(b.schema, names)
    decreases |b.schema|
  {
    if b.schema != [] {
      ProjectedFields(Tail(b), names);
    }
  }

  /** Two types a signature does not tell apart: the same type, two timestamps, or two other types of one
      kind. */
  predicate SameAtom(t: DataType, u: DataType) {
    || t == u
    || (t.Timestamp? && u.Timestamp?)
    || (t.OtherType? && u.OtherType? && (t.kind == u.kind || (t.kind.UnknownKind? && u.kind.UnknownKind?)))
  }

  lemma AtomsTellTypes(t: DataType, u: DataType)
    ensures AtomOf(t) == AtomOf(u) <==> SameAtom(t, u)
  {
    if t.OtherType? && u.OtherType? {
      AtomsTellKinds(t.kind, u.kind);
    } else if t.OtherType? {
      KindsApart(t.kind, u);
    } else if u.OtherType? {
      KindsApart(u.kind, t);
    } else {
      AtomsTellModelled(t, u);
    }
  }

  lemma AtomsTellKinds(k: OtherKind, l: OtherKind)
    ensures AtomOfKind(k) == AtomOfKind(l) <==> k == l || (k.UnknownKind? && l.UnknownKind?)
  {
  }

  lemma KindsApart(k: OtherKind, t: DataType)
    requires !t.OtherType?
    ensures AtomOfKind(k) != AtomOf(t)
  {
  }

  lemma AtomsTellModelled(t: DataType, u: DataType)
    requires !t.OtherType? && !u.OtherType?
    ensures AtomOf(t) == AtomOf(u) <==> t == u || (t.Timestamp? && u.Timestamp?)
  {
  }

  /** Field by field the same name, and types that are not told apart. */
  predicate SameFields(a: seq<Field>, b: seq<Field>) {
    |a| == |b| && forall j :: 0 <= j < |a| ==> a[j].name == b[j].name && SameAtom(a[j].dtype, b[j].dtype)
  }

  /** Two fragments have one signature exactly when the fields read are the same so far. */
  lemma SignaturesAgree(f: P.File, g: P.File, columns: Option<seq<string>>)
    requires f.Valid() && g.Valid()
    ensures SignatureOf(f, columns) == SignatureOf(g, columns) <==>
            SameFields(ReadFields(f, columns), ReadFields(g, columns))
  {
    SignatureFields(f, columns);
    SignatureFields(g, columns);
    var a, b := ReadFields(f, columns), ReadFields(g, columns);
    forall j | 0 <= j < |a| && j < |b|
      ensures AtomOf(a[j].dtype) == AtomOf(b[j].dtype) <==> SameAtom(a[j].dtype, b[j].dtype)
    {
      AtomsTellTypes(a[j].dtype, b[j].dtype);
    }
    if SignatureOf(f, columns) == SignatureOf(g, columns) {
      assert forall j :: 0 <= j < |a| ==> SignatureOf(f, columns)[j] == SignatureOf(g, columns)[j];
    }
  }

  lemma SignatureFields(f: P.File, columns: Option<seq<string>>)
    requires f.Valid()
    ensures var fields := ReadFields(f, columns);
      |SignatureOf(f, columns)| == |fields| &&
      forall j :: 0 <= j < |fields| ==> SignatureOf(f, columns)[j] == (fields[j].name, AtomOf(fields[j].dtype))
  {
    if columns.Some? {
      ProjectedFields(TakeRows(f, []), columns.value);
    }
  }

  function ErrorText(error: EvalError): T.Message {
    match error
    case ColumnNotFound(name) => T.Text("column '" + name + "' not found")
    case _ => T.Text("expression cannot be evaluated")
  }

  function ReadErrorText(error: P.ReadError): T.Message {
    match error
    case InvalidFilter(fault) => ErrorText(fault)
    case PredicateFailed(fault) => ErrorText(fault)
    case RowGroupOutOfRange(_) => T.Text("row_group index out of range")
  }

  /** What the scan sees of one batch read: its post-processed rows. */
  function ItemOf(emitted: Result<seq<RowId>, EvalError>): T.Item<seq<RowId>> {
    match emitted
    case Ok(rows) => T.Processed(rows, |rows|)
    case Err(error) => T.PostError(ErrorText(error))
  }

  /** The rows of a reader's post-processed batches. */
  function ItemRows(items: seq<T.Item<seq<RowId>>>): seq<RowId> {
    if items == [] then []
    else
      var last := items[|items| - 1];
      ItemRows(items[..|items| - 1]) + if last.Processed? then last.out else []
  }

  /** Every batch is post-processed without error and counts its rows. */
  predicate Sized(items: seq<T.Item<seq<RowId>>>) {
    forall k :: 0 <= k < |items| ==> items[k].Processed? && items[k].rows == |items[k].out|
  }

  predicate Succeeds(frag: DataFragment, e: Expr, opts: Options)
    requires Decoded(e) && frag.file.Valid()
  {
    !Fails(frag.file, e, frag.pv, opts.columns)
  }

  /** The row groups of a fragment that the statistics do not rule out. */
  function GroupsKept(frag: DataFragment, e: Expr): (n: nat)
    requires Decoded(e)
    ensures n <= |frag.file.groups|
  {
    var pushed := Compile(e, frag.pv.Keys).pushed;
    if pushed.None? then |frag.file.groups|
    else |P.Retain(AllGroups(frag.file), P.MayMatchTable(frag.file, pushed.value))|
  }

  /** The file of a fragment whose reader accepts the filter: the projected schema, its row groups, those
      selected that the statistics do not rule out, and batches that hold the rows the fragment's scan keeps,
      or one that fails. */
  predicate Holds(content: T.FileContent<seq<RowId>>, frag: DataFragment, e: Expr, opts: Options)
    requires Readable(frag.file, e, frag.pv)
  {
    && content.OpenOk? && content.schema == Ok(SignatureOf(frag.file, opts.columns))
    && content.groupsTotal == |frag.file.groups| && content.groupsSelected == GroupsKept(frag, e)
    && (T.Clean(content.items) <==> Succeeds(frag, e, opts))
    && (Succeeds(frag, e, opts) ==>
          Sized(content.items) && ItemRows(content.items) == ScanRows(frag.file, e, frag.pv))
  }

  /** `f` is the fragment as the scan finds it: it opens exactly when its reader accepts the filter. */
  predicate Opens(f: T.Fragment<seq<RowId>>, frag: DataFragment, e: Expr, opts: Options)
    requires Readable(frag.file, e, frag.pv)
  {
    && f.path == frag.path && f.format.Parquet?
    && (if Accepted(frag.file.schema, e, frag.pv) then Holds(f.file, frag, e, opts) else f.file.OpenFailed?)
  }

  /** One batch projected and post-processed. */
  method ReadItem(file: P.File, ids: seq<RowId>, columns: Option<seq<string>>, residual: Option<Expr>,
                  pv: map<string, Literal>) returns (item: T.Item<seq<RowId>>)
    requires file.Valid() && InFile(file, ids) && ResidualOk(file.schema, residual, pv)
    ensures ResidualInColumns(residual, pv, columns) ==>
              item == KeptItem(Select(ids, ResidualTable(file, residual, pv)))
    ensures !ResidualInColumns(residual, pv, columns) ==> item.PostError?
  {
    EmittedRows(file, ids, columns, residual, pv);
    item := ItemOf(Emitted(file, ids, columns, residual, pv));
  }

  function KeptItem(rows: seq<RowId>): T.Item<seq<RowId>> {
    T.Processed(rows, |rows|)
  }

  lemma AppendItem(items: seq<T.Item<seq<RowId>>>, rows: seq<RowId>)
    ensures ItemRows(items + [KeptItem(rows)]) == ItemRows(items) + rows
    ensures Sized(items) ==> Sized(items + [KeptItem(rows)])
  {
    assert (items + [KeptItem(rows)])[..|items|] == items;
  }

  /** The reader's batches, each projected and post-processed. */
  method ReadItems(file: P.File, ids: seq<RowId>, columns: Option<seq<string>>, residual: Option<Expr>,
                   pv: map<string, Literal>, cut: nat -> nat) returns (items: seq<T.Item<seq<RowId>>>)
    requires file.Valid() && InFile(file, ids) && ResidualOk(file.schema, residual, pv)
    ensures T.Clean(items) <==> ids == [] || ResidualInColumns(residual, pv, columns)
    ensures T.Clean(items) ==> Sized(items) && ItemRows(items) == Select(ids, ResidualTable(file, residual, pv))
  {
    ghost var table := ResidualTable(file, residual, pv);
    var lo := 0;
    items := [];
    while lo < |ids|
      invariant lo <= |ids|
      invariant ResidualInColumns(residual, pv, columns) ==> Sized(items) && ItemRows(items) == Select(ids[..lo], table)
      invariant !ResidualInColumns(residual, pv, columns) && lo > 0 ==> !T.Clean(items)
      invariant lo == 0 ==> items == []
    {
      var hi := BatchEnd(cut, lo, |ids|);
      var item := ReadItem(file, ids[lo..hi], columns, residual, pv);
      NextChunk(ids, lo, hi, table);
      AppendItem(items, Select(ids[lo..hi], table));
      assert (items + [item])[|items|] == item;
      items := items + [item];
      lo := hi;
    }
    assert ids[..lo] == ids;
  }

  /** Opening a selected fragment: the read is planned, and what the reader will give is determined. */
  method OpenParquet(frag: DataFragment, e: Expr, opts: Options) returns (f: T.Fragment<seq<RowId>>)
    requires Readable(frag.file, e, frag.pv) && MayMatch(e, frag.pv)
    ensures Opens(f, frag, e, opts)
  {
    var plan := PlanRead(frag.file, e, frag.pv, opts.columns);
    if plan.Err? {
      return T.Fragment(frag.path, T.Parquet, T.OpenFailed(ReadErrorText(plan.error)));
    }
    var items := ReadContent(frag, e, opts);
    f := T.Fragment(frag.path, T.Parquet, T.OpenOk(Ok(SignatureOf(frag.file, opts.columns)), plan.value.total,
                                                   plan.value.selectedCount, items));
  }

  /** Everything the reader of an accepted fragment gives, post-processed. */
  method ReadContent(frag: DataFragment, e: Expr, opts: Options) returns (items: seq<T.Item<seq<RowId>>>)
    requires Readable(frag.file, e, frag.pv) && MayMatch(e, frag.pv) && Accepted(frag.file.schema, e, frag.pv)
    ensures T.Clean(items) <==> Succeeds(frag, e, opts)
    ensures Succeeds(frag, e, opts) ==> Sized(items) && ItemRows(items) == ScanRows(frag.file, e, frag.pv)
  {
    var file, c := frag.file, Compile(e, frag.pv.Keys);
    var read := OpenAndRead(file, e, frag.pv, opts.columns, opts.cut);
    ReadRowsInFile(file, c.pushed);
    ResidualCompletesScan(file, e, frag.pv);
    if c.residual.Some? {
      ResidualEvaluates(file.schema, e, frag.pv);
    }
    items := ReadItems(file, read.value, opts.columns, c.residual, frag.pv, opts.cut);
  }

  /** `apply_read_opts` with the options of a scan, which list no row groups. */
  method PlanRead(file: P.File, e: Expr, pv: map<string, Literal>, columns: Option<seq<string>>)
    returns (plan: Result<P.ReadPlan, P.ReadError>)
    requires Readable(file, e, pv)
    ensures plan.Ok? <==> Accepted(file.schema, e, pv)
    ensures plan.Ok? ==> plan.value.total == |file.groups|
    ensures plan.Ok? ==> plan.value.selectedCount == GroupsKept(DataFragment("", pv, file), e)
  {
    AcceptedIsValid(file.schema, e, pv);
    var opts := P.ReadOpts(columns, None, Compile(e, pv.Keys).pushed);
    assert P.Listed(file, opts) == AllGroups(file);
    plan := P.ApplyReadOpts(file, opts);
  }

  // ---- all fragments ---------------------------------------------------------------------------------------

  predicate AllReadable(dataset: seq<DataFragment>, e: Expr) {
    forall k :: 0 <= k < |dataset| ==> Readable(dataset[k].file, e, dataset[k].pv)
  }

  /** Rows by fragment, in the order of a dataset. */
  type DatasetRow = (string, RowId)

  function Tagged(path: string, ids: seq<RowId>): (rows: seq<DatasetRow>)
    ensures |rows| == |ids|
  {
    seq(|ids|, k requires 0 <= k < |ids| => (path, ids[k]))
  }

  lemma TaggedConcat(path: string, a: seq<RowId>, b: seq<RowId>)
    ensures Tagged(path, a + b) == Tagged(path, a) + Tagged(path, b)
  {
  }

  /** The reference: the rows of every discovered fragment on which the filter is true, in order. */
  function WantedOf(dataset: seq<DataFragment>, e: Expr): seq<DatasetRow>
    requires AllReadable(dataset, e)
  {
    if dataset == [] then []
    else Tagged(dataset[0].path, WantedRows(dataset[0].file, e, dataset[0].pv)) + WantedOf(dataset[1..], e)
  }

  function ScannedOf(dataset: seq<DataFragment>, e: Expr): seq<DatasetRow>
    requires AllReadable(dataset, e)
  {
    if dataset == [] then []
    else Tagged(dataset[0].path, ScanRows(dataset[0].file, e, dataset[0].pv)) + ScannedOf(dataset[1..], e)
  }

  /** The rows of the batches a scan returned. */
  function RowsOf(batches: seq<T.Outcome<seq<RowId>>>): seq<DatasetRow> {
    if batches == [] then [] else RowsOfOne(batches[0]) + RowsOf(batches[1..])
  }

  function RowsOfOne(batch: T.Outcome<seq<RowId>>): seq<DatasetRow> {
    if batch.Emit? then Tagged(batch.path, batch.out) else []
  }

  lemma RowsOfFirst(batch: T.Outcome<seq<RowId>>, rest: seq<T.Outcome<seq<RowId>>>)
    ensures RowsOf([batch] + rest) == RowsOfOne(batch) + RowsOf(rest)
  {
    assert ([batch] + rest)[1..] == rest;
  }

  lemma Reassociate<X>(a: seq<X>, b: seq<X>, c: seq<X>)
    ensures a + (b + c) == (a + b) + c
  {
  }

  lemma {:induction false} RowsOfConcat(a: seq<T.Outcome<seq<RowId>>>, b: seq<T.Outcome<seq<RowId>>>)
    ensures RowsOf(a + b) == RowsOf(a) + RowsOf(b)
  {
    if a == [] {
      assert a + b == b;
    } else {
      var tail := a[1..];
      Reassociate([a[0]], tail, b);
      assert a == [a[0]] + tail;
      RowsOfFirst(a[0], tail + b);
      RowsOfConcat(tail, b);
      Reassociate(RowsOfOne(a[0]), RowsOf(tail), RowsOf(b));
    }
  }

  lemma {:induction false} GoodRows(path: string, items: seq<T.Item<seq<RowId>>>)
    requires Sized(items)
    ensures T.Clean(items) && RowsOf(T.GoodBatches(path, items)) == Tagged(path, ItemRows(items))
  {
    if items != [] {
      GoodRows(path, items[1..]);
      FirstItem(items);
      TaggedConcat(path, items[0].out, ItemRows(items[1..]));
      RowsOfConcat(T.GoodBatch(path, items[0]), T.GoodBatches(path, items[1..]));
      OneBatch(path, items[0]);
    }
  }

  lemma OneBatch(path: string, item: T.Item<seq<RowId>>)
    requires item.Processed? && item.rows == |item.out|
    ensures RowsOf(T.GoodBatch(path, item)) == Tagged(path, item.out)
  {
  }

  lemma {:induction false} FirstItem(items: seq<T.Item<seq<RowId>>>)
    requires items != [] && items[0].Processed?
    ensures ItemRows(items) == items[0].out + ItemRows(items[1..])
    decreases |items|
  {
    var n := |items| - 1;
    if n > 0 {
      FirstItem(items[..n]);
      assert items[..n][1..] == items[1..][..n - 1];
    }
  }

  /** Pruned fragments hold no row the scan would keep. */
  lemma {:induction false} PruningLosesNothing(dataset: seq<DataFragment>, e: Expr)
    requires AllReadable(dataset, e) && Decoded(e)
    ensures AllReadable(Matching(dataset, e), e)
    ensures ScannedOf(Matching(dataset, e), e) == ScannedOf(dataset, e)
  {
    if dataset != [] {
      PruningLosesNothing(dataset[1..], e);
      if MayMatch(e, dataset[0].pv) {
        ScannedFirst(dataset[0], Matching(dataset[1..], e), e);
      } else {
        assert [] + Matching(dataset[1..], e) == Matching(dataset[1..], e);
        PrunedFragmentIsEmpty(dataset[0].file, e, dataset[0].pv);
      }
    }
  }

  lemma ScannedFirst(frag: DataFragment, rest: seq<DataFragment>, e: Expr)
    requires Readable(frag.file, e, frag.pv) && AllReadable(rest, e)
    ensures AllReadable([frag] + rest, e)
    ensures ScannedOf([frag] + rest, e) == Tagged(frag.path, ScanRows(frag.file, e, frag.pv)) + ScannedOf(rest, e)
  {
    assert ([frag] + rest)[1..] == rest;
  }

  predicate AllOpen(dataset: seq<DataFragment>, e: Expr)
    requires Decoded(e)
  {
    forall k :: 0 <= k < |dataset| ==> PrunedOrAccepted(dataset[k].file, e, dataset[k].pv)
  }

  lemma {:induction false} CheckedDatasetIsExact(dataset: seq<DataFragment>, e: Expr, keys: set<string>)
    requires Decoded(e) && AllReadable(dataset, e) && AllOpen(dataset, e) && Unchecked(e, keys) == []
    requires forall k :: 0 <= k < |dataset| ==> dataset[k].pv.Keys == keys
    ensures ScannedOf(dataset, e) == WantedOf(dataset, e)
  {
    if dataset != [] {
      CheckedScanIsExact(dataset[0].file, e, dataset[0].pv);
      CheckedDatasetIsExact(dataset[1..], e, keys);
    }
  }

  lemma {:induction false} WantedDatasetRows(dataset: seq<DataFragment>, e: Expr)
    requires Decoded(e) && AllReadable(dataset, e) && AllOpen(dataset, e)
    ensures forall r :: r in WantedOf(dataset, e) ==> r in ScannedOf(dataset, e)
  {
    if dataset != [] {
      WantedDatasetRows(dataset[1..], e);
      var frag := dataset[0];
      WantedRowsAreScanned(frag.file, e, frag.pv);
      TaggedRows(frag.path, WantedRows(frag.file, e, frag.pv), ScanRows(frag.file, e, frag.pv));
    }
  }

  lemma TaggedRows(path: string, some: seq<RowId>, more: seq<RowId>)
    requires forall id :: id in some ==> id in more
    ensures forall r :: r in Tagged(path, some) ==> r in Tagged(path, more)
  {
    forall r | r in Tagged(path, some)
      ensures r in Tagged(path, more)
    {
      assert r.1 in some;
      var k :| 0 <= k < |more| && more[k] == r.1;
      assert Tagged(path, more)[k] == r;
    }
  }

  predicate Found(frags: seq<T.Fragment<seq<RowId>>>, kept: seq<DataFragment>, e: Expr, opts: Options)
    requires AllReadable(kept, e)
  {
    |frags| == |kept| && forall k :: 0 <= k < |frags| ==> Opens(frags[k], kept[k], e, opts)
  }

  predicate AllSucceed(dataset: seq<DataFragment>, e: Expr, opts: Options)
    requires Decoded(e) && AllReadable(dataset, e)
  {
    forall k :: 0 <= k < |dataset| ==> Succeeds(dataset[k], e, opts)
  }

  /** All fragments read the same fields, as far as signatures tell them apart. */
  predicate OneSchema(dataset: seq<DataFragment>, opts: Options) {
    forall j, k :: 0 <= j < |dataset| && 0 <= k < |dataset| ==>
      SameFields(ReadFields(dataset[j].file, opts.columns), ReadFields(dataset[k].file, opts.columns))
  }

  lemma OneSignature(dataset: seq<DataFragment>, opts: Options)
    requires forall k :: 0 <= k < |dataset| ==> dataset[k].file.Valid()
    ensures OneSchema(dataset, opts) <==>
            forall j, k :: 0 <= j < |dataset| && 0 <= k < |dataset| ==>
              SignatureOf(dataset[j].file, opts.columns) == SignatureOf(dataset[k].file, opts.columns)
  {
    forall j, k | 0 <= j < |dataset| && 0 <= k < |dataset|
      ensures SignatureOf(dataset[j].file, opts.columns) == SignatureOf(dataset[k].file, opts.columns) <==>
              SameFields(ReadFields(dataset[j].file, opts.columns), ReadFields(dataset[k].file, opts.columns))
    {
      SignaturesAgree(dataset[j].file, dataset[k].file, opts.columns);
    }
  }

  lemma {:induction false} ConcatenatedRows(frags: seq<T.Fragment<seq<RowId>>>, kept: seq<DataFragment>, e: Expr,
                                            opts: Options)
    requires Decoded(e) && AllReadable(kept, e) && Found(frags, kept, e, opts) && AllSucceed(kept, e, opts)
    ensures RowsOf(T.Concatenation(frags)) == ScannedOf(kept, e)
    decreases |frags|
  {
    if frags != [] {
      var f, frag := frags[0], kept[0];
      assert Opens(f, frag, e, opts) && Succeeds(frag, e, opts);
      ConcatenatedRows(frags[1..], kept[1..], e, opts);
      GoodRows(f.path, f.file.items);
      RowsOfConcat(T.GoodBatches(f.path, f.file.items), T.Concatenation(frags[1..]));
    }
  }

  /** A fragment meets no error exactly when its own scan succeeds, and then it has its file's schema. */
  lemma FragmentFailure(f: T.Fragment<seq<RowId>>, frag: DataFragment, e: Expr, opts: Options)
    requires Readable(frag.file, e, frag.pv) && Opens(f, frag, e, opts)
    ensures f.file.OpenOk? && T.Clean(f.file.items) <==> Succeeds(frag, e, opts)
    ensures f.file.OpenOk? ==> f.file.schema == Ok(SignatureOf(frag.file, opts.columns))
  {
  }

  lemma SuccessIsErrorFree(frags: seq<T.Fragment<seq<RowId>>>, kept: seq<DataFragment>, e: Expr, opts: Options)
    requires Decoded(e) && AllReadable(kept, e) && Found(frags, kept, e, opts)
    requires AllSucceed(kept, e, opts) && OneSchema(kept, opts)
    ensures S.NothingFails(frags)
  {
    OneSignature(kept, opts);
    var sig := if kept == [] then [] else SignatureOf(kept[0].file, opts.columns);
    forall k | 0 <= k < |frags|
      ensures frags[k].file.OpenOk? && frags[k].file.schema == Ok(sig) && T.Clean(frags[k].file.items)
    {
      FragmentFailure(frags[k], kept[k], e, opts);
    }
    assert T.ErrorFree(sig, frags);
  }

  lemma ErrorFreeIsSuccess(frags: seq<T.Fragment<seq<RowId>>>, kept: seq<DataFragment>, e: Expr, opts: Options,
                           sig: T.Signature)
    requires Decoded(e) && AllReadable(kept, e) && Found(frags, kept, e, opts) && T.ErrorFree(sig, frags)
    ensures AllSucceed(kept, e, opts) && OneSchema(kept, opts)
  {
    forall k | 0 <= k < |kept|
      ensures Succeeds(kept[k], e, opts) && SignatureOf(kept[k].file, opts.columns) == sig
    {
      FragmentFailure(frags[k], kept[k], e, opts);
    }
    OneSignature(kept, opts);
  }

  /** Nothing fails exactly when every fragment's scan succeeds and all have one schema. */
  lemma FailuresAreExact(frags: seq<T.Fragment<seq<RowId>>>, kept: seq<DataFragment>, e: Expr, opts: Options)
    requires Decoded(e) && AllReadable(kept, e) && Found(frags, kept, e, opts)
    ensures S.NothingFails(frags) <==> AllSucceed(kept, e, opts) && OneSchema(kept, opts)
  {
    if AllSucceed(kept, e, opts) && OneSchema(kept, opts) {
      SuccessIsErrorFree(frags, kept, e, opts);
    }
    if S.NothingFails(frags) {
      var sig :| T.ErrorFree(sig, frags);
      ErrorFreeIsSuccess(frags, kept, e, opts, sig);
    }
  }

  /** The row groups of the files. */
  function GroupsOf(kept: seq<DataFragment>): nat {
    if kept == [] then 0 else GroupsOf(kept[..|kept| - 1]) + |kept[|kept| - 1].file.groups|
  }

  /** Those of them that the statistics do not rule out. */
  function GroupsKeptOf(kept: seq<DataFragment>, e: Expr): nat
    requires Decoded(e)
  {
    if kept == [] then 0 else GroupsKeptOf(kept[..|kept| - 1], e) + GroupsKept(kept[|kept| - 1], e)
  }

  lemma {:induction false} GroupTotals(frags: seq<T.Fragment<seq<RowId>>>, kept: seq<DataFragment>, e: Expr,
                                       opts: Options)
    requires Decoded(e) && AllReadable(kept, e) && Found(frags, kept, e, opts) && AllSucceed(kept, e, opts)
    ensures S.TotalGroups(frags) == GroupsOf(kept) && S.SelectedGroups(frags) == GroupsKeptOf(kept, e)
    ensures S.WithinTotals(frags)
    decreases |frags|
  {
    if frags != [] {
      var n := |frags| - 1;
      GroupTotals(frags[..n], kept[..n], e, opts);
      FragmentTotals(frags[n], kept[n], e, opts);
    }
  }

  lemma FragmentTotals(f: T.Fragment<seq<RowId>>, frag: DataFragment, e: Expr, opts: Options)
    requires Readable(frag.file, e, frag.pv) && Opens(f, frag, e, opts) && Succeeds(frag, e, opts)
    ensures S.TotalIn(f) == |frag.file.groups| && S.SelectedIn(f) == GroupsKept(frag, e) <= S.TotalIn(f)
  {
  }

  method OpenAll(kept: seq<DataFragment>, e: Expr, opts: Options) returns (frags: seq<T.Fragment<seq<RowId>>>)
    requires Decoded(e) && AllReadable(kept, e)
    requires forall k :: 0 <= k < |kept| ==> MayMatch(e, kept[k].pv)
    ensures Found(frags, kept, e, opts)
  {
    frags := [];
    for k := 0 to |kept|
      invariant Found(frags, kept[..k], e, opts)
    {
      var f := OpenParquet(kept[k], e, opts);
      OneMoreFound(frags, f, kept, k, e, opts);
      frags := frags + [f];
    }
    assert kept[..|kept|] == kept;
  }

  lemma OneMoreFound(frags: seq<T.Fragment<seq<RowId>>>, f: T.Fragment<seq<RowId>>, kept: seq<DataFragment>, k: nat,
                     e: Expr, opts: Options)
    requires AllReadable(kept, e) && k < |kept| && Found(frags, kept[..k], e, opts) && Opens(f, kept[k], e, opts)
    ensures Found(frags + [f], kept[..k + 1], e, opts)
  {
    forall j | 0 <= j < k + 1
      ensures Opens((frags + [f])[j], kept[..k + 1][j], e, opts)
    {
      if j < k {
        assert (frags + [f])[j] == frags[j] && kept[..k + 1][j] == kept[..k][j];
      } else {
        assert (frags + [f])[j] == f && kept[..k + 1][j] == kept[k];
      }
    }
  }

  lemma {:induction false} MatchingFragments(dataset: seq<DataFragment>, e: Expr)
    requires Decoded(e)
    ensures forall f :: f in Matching(dataset, e) <==> f in dataset && MayMatch(e, f.pv)
  {
    if dataset != [] {
      MatchingFragments(dataset[1..], e);
      assert dataset == [dataset[0]] + dataset[1..];
    }
  }

  /** If the selected fragments succeed, every discovered one is pruned or opens. */
  lemma SelectedOpen(dataset: seq<DataFragment>, e: Expr, opts: Options)
    requires Decoded(e) && AllReadable(dataset, e) && AllReadable(Matching(dataset, e), e)
    requires AllSucceed(Matching(dataset, e), e, opts)
    ensures AllOpen(dataset, e)
  {
    MatchingFragments(dataset, e);
    var kept := Matching(dataset, e);
    forall k | 0 <= k < |dataset| && MayMatch(e, dataset[k].pv)
      ensures Accepted(dataset[k].file.schema, e, dataset[k].pv)
    {
      assert dataset[k] in kept;
      var j :| 0 <= j < |kept| && kept[j] == dataset[k];
      assert Succeeds(kept[j], e, opts);
    }
  }

  /** A whole scan. It ends without error exactly when every selected fragment's reader accepts the pushed
      filter, none that reads rows misses a column of the residual, and all have one schema. Then it returns,
      in order, the rows that pruning, pushed filter and residual keep of all discovered fragments: exactly
      the wanted rows when no conjunct is unchecked, and every wanted row in any case. Its statistics account
      for every fragment and row group. */
  method ScanDataset(dataset: seq<DataFragment>, e: Expr, keys: set<string>, opts: Options)
    returns (report: S.ScanReport<seq<RowId>>, pruned: nat)
    requires Decoded(e) && AllReadable(dataset, e)
    requires forall k :: 0 <= k < |dataset| ==> dataset[k].pv.Keys == keys
    ensures AllReadable(Matching(dataset, e), e)
    ensures report.error.None? <==> AllSucceed(Matching(dataset, e), e, opts) && OneSchema(Matching(dataset, e), opts)
    ensures report.error.None? ==> RowsOf(report.batches) == ScannedOf(dataset, e)
    ensures report.error.None? && Unchecked(e, keys) == [] ==> RowsOf(report.batches) == WantedOf(dataset, e)
    ensures report.error.None? ==> forall r :: r in WantedOf(dataset, e) ==> r in RowsOf(report.batches)
    ensures report.error.None? ==> report.stats.fragmentsScanned + pruned == |dataset|
    ensures report.error.None? ==> report.stats.rowGroupsSelected == GroupsKeptOf(Matching(dataset, e), e)
    ensures report.error.None? ==> report.stats.rowGroupsSelected + report.stats.rowGroupsSkipped ==
                                   GroupsOf(Matching(dataset, e))
    ensures report.error.None? ==> report.stats.rowsEmitted == |RowsOf(report.batches)|
  {
    var kept;
    kept, pruned := SelectFragments(dataset, e);
    MatchingFragments(dataset, e);
    PruningLosesNothing(dataset, e);
    assert forall k :: 0 <= k < |kept| ==> kept[k] in kept;
    var frags := OpenAll(kept, e, opts);
    report := S.ScanAll(frags);
    FailuresAreExact(frags, kept, e, opts);
    if report.error.None? {
      ScannedRows(dataset, frags, e, keys, opts);
      CountedRows(frags, kept, e, opts);
      GroupTotals(frags, kept, e, opts);
      S.GroupsAddUp(frags);
    }
  }

  /** What a scan without error returns. */
  lemma ScannedRows(dataset: seq<DataFragment>, frags: seq<T.Fragment<seq<RowId>>>, e: Expr, keys: set<string>,
                    opts: Options)
    requires Decoded(e) && AllReadable(dataset, e) && AllReadable(Matching(dataset, e), e)
    requires forall k :: 0 <= k < |dataset| ==> dataset[k].pv.Keys == keys
    requires Found(frags, Matching(dataset, e), e, opts) && AllSucceed(Matching(dataset, e), e, opts)
    ensures RowsOf(T.Concatenation(frags)) == ScannedOf(dataset, e)
    ensures Unchecked(e, keys) == [] ==> ScannedOf(dataset, e) == WantedOf(dataset, e)
    ensures forall r :: r in WantedOf(dataset, e) ==> r in ScannedOf(dataset, e)
  {
    PruningLosesNothing(dataset, e);
    ConcatenatedRows(frags, Matching(dataset, e), e, opts);
    SelectedOpen(dataset, e, opts);
    WantedDatasetRows(dataset, e);
    if Unchecked(e, keys) == [] {
      CheckedDatasetIsExact(dataset, e, keys);
    }
  }

  /** Every batch counts its rows. */
  predicate Counted(batches: seq<T.Outcome<seq<RowId>>>) {
    forall k :: 0 <= k < |batches| && batches[k].Emit? ==> batches[k].rows == |batches[k].out|
  }

  lemma {:induction false} CountRows(batches: seq<T.Outcome<seq<RowId>>>)
    requires Counted(batches)
    ensures S.RowsIn(batches) == |RowsOf(batches)|
  {
    if batches != [] {
      CountRows(batches[1..]);
    }
  }

  lemma {:induction false} GoodAreCounted(path: string, items: seq<T.Item<seq<RowId>>>)
    requires Sized(items)
    ensures Counted(T.GoodBatches(path, items))
  {
    if items != [] {
      GoodAreCounted(path, items[1..]);
    }
  }

  lemma {:induction false} ConcatenationIsCounted(frags: seq<T.Fragment<seq<RowId>>>, kept: seq<DataFragment>, e: Expr,
                                                  opts: Options)
    requires Decoded(e) && AllReadable(kept, e) && Found(frags, kept, e, opts) && AllSucceed(kept, e, opts)
    ensures Counted(T.Concatenation(frags))
    decreases |frags|
  {
    if frags != [] {
      ConcatenationIsCounted(frags[1..], kept[1..], e, opts);
      assert Opens(frags[0], kept[0], e, opts) && Succeeds(kept[0], e, opts);
      GoodAreCounted(frags[0].path, frags[0].file.items);
    }
  }

  lemma CountedRows(frags: seq<T.Fragment<seq<RowId>>>, kept: seq<DataFragment>, e: Expr, opts: Options)
    requires Decoded(e) && AllReadable(kept, e) && Found(frags, kept, e, opts) && AllSucceed(kept, e, opts)
    ensures S.RowsIn(T.Concatenation(frags)) == |RowsOf(T.Concatenation(frags))|
  {
    ConcatenationIsCounted(frags, kept, e, opts);
    CountRows(T.Concatenation(frags));
  }
}
