/** Rank-2 tensors as record batches: one zero-padded column name per column, and back by sorting
    the names (`from_nx_rank2` and `to_nx` of ex_arrow.ex, `from_tensors` and `to_tensors` of nx.ex). */
module RankTwo {
  import opened Wrappers
  import opened LittleEndian
  import opened ColumnCodec
  import opened ColumnRoundTrip
  import opened ColumnNames
  import opened Sorting

  /** The tensor types that have a column type. */
  predicate IsNx(d: DType) {
    IsUnsigned(d) || d.S8? || d.S16? || d.S32? || d.S64? || IsFloat(d)
  }

  datatype Vector = Vector(dtype: DType, elems: seq<Cell>) {
    predicate Valid() {
      IsNx(dtype) && AllPackable(dtype, elems)
    }
  }

  datatype Tensor = Rank1(dtype: DType, elems: seq<Cell>) | Rank2(dtype: DType, cols: nat, rows: seq<seq<Cell>>)

  datatype Entry = Entry(name: string, vector: Vector)

  datatype NxError =
    | NotFound(name: string)
    | UnsupportedType
    | NoNumericColumns
    | MixedTypes
    | SizesDiffer
    | NoTensors
    | NotABinary
    | Native(decoding: DecodeError)

  // ---- tensors to a batch ------------------------------------------------------------------------------

  /** A rank-2 tensor has at least one column, full rows and elements of its type. */
  predicate IsMatrix(t: Tensor) {
    && t.Rank2? && IsNx(t.dtype) && t.cols >= 1
    && forall r :: 0 <= r < |t.rows| ==> |t.rows[r]| == t.cols && AllPackable(t.dtype, t.rows[r])
  }

  function ColumnOf(t: Tensor, c: nat): (cells: seq<Cell>)
    requires IsMatrix(t) && c < t.cols
    ensures |cells| == |t.rows| && AllPackable(t.dtype, cells)
  {
    seq(|t.rows|, r requires 0 <= r < |t.rows| => t.rows[r][c])
  }

  /** The map of the first `k` column tensors; a repeated name would overwrite its predecessor. */
  function ColumnTensors(t: Tensor, k: nat): map<string, Vector>
    requires IsMatrix(t) && k <= t.cols
  {
    if k == 0 then map[]
    else ColumnTensors(t, k - 1)[ColumnName(k - 1, t.cols) := Vector(t.dtype, ColumnOf(t, k - 1))]
  }

  /** The map's entries in some order: maps do not fix one. */
  predicate Lists(entries: seq<Entry>, m: map<string, Vector>) {
    && (forall i, j :: 0 <= i < j < |entries| ==> entries[i].name != entries[j].name)
    && (forall i :: 0 <= i < |entries| ==> entries[i].name in m && m[entries[i].name] == entries[i].vector)
    && (forall name :: name in m ==> exists i :: 0 <= i < |entries| && entries[i].name == name)
  }

  function EntryName(e: Entry): string { e.name }

  function Binaries(entries: seq<Entry>): Result<seq<seq<Byte>>, NxError> {
    if entries == [] then Ok([])
    else
      var first :- BinaryOf(entries[0].vector);
      var rest :- Binaries(entries[1..]);
      Ok([first] + rest)
  }

  /** `Nx.to_binary`, for a tensor whose type has a column type. */
  function BinaryOf(v: Vector): Result<seq<Byte>, NxError> {
    if !IsNx(v.dtype) then Err(UnsupportedType)
    else
      match PackColumn(v.dtype, v.elems)
      case Ok(bytes) => Ok(bytes)
      case Err(_) => Err(NotABinary)
  }

  function Names(entries: seq<Entry>): seq<string> {
    seq(|entries|, k requires 0 <= k < |entries| => entries[k].name)
  }

  function DTypes(entries: seq<Entry>): seq<DType> {
    seq(|entries|, k requires 0 <= k < |entries| => entries[k].vector.dtype)
  }

  /** `from_tensors`. */
  function FromTensors(entries: seq<Entry>): Result<seq<ListColumn>, NxError> {
    var sorted := SortBy(EntryName, entries);
    var binaries :- Binaries(sorted);
    if sorted == [] then Err(NoTensors)
    else if exists k :: 0 <= k < |sorted| && |sorted[k].vector.elems| != |sorted[0].vector.elems| then Err(SizesDiffer)
    else
      match NativeBatch(Names(sorted), binaries, DTypes(sorted), |sorted[0].vector.elems|)
      case Ok(batch) => Ok(batch)
      case Err(e) => Err(NxError.Native(e))
  }

  // ---- a batch to a tensor -----------------------------------------------------------------------------

  predicate Numeric(d: DType) { IsNx(d) || d.Bool? }

  /** Every type has tensors or numeric columns but times, texts and binaries; booleans have only columns. */
  lemma TensorTypes(d: DType)
    ensures IsNx(d) <==>
            !(d.Bool? || d.Date32? || d.Date64? || d.Utf8? || d.LargeUtf8? || d.Binary? || d.LargeBinary?
              || d.TimestampSeconds? || d.TimestampMillis? || d.TimestampMicros? || d.TimestampNanos?
              || d.DurationSeconds? || d.DurationMillis? || d.DurationMicros? || d.DurationNanos?)
    ensures Numeric(d) <==> IsNx(d) || d == Bool
  {
  }

  /** The tensor type of a column: booleans come out as unsigned bytes. */
  function NxType(d: DType): DType
    requires Numeric(d)
  {
    if d.Bool? then U8 else d
  }

  /** The elements of a column's tensor. */
  function NxElems(d: DType, cells: seq<Cell>): seq<Cell> {
    if d.Bool? then Bits(cells) else cells
  }

  function Bits(cells: seq<Cell>): (bits: seq<Cell>)
    ensures |bits| == |cells|
  {
    seq(|cells|, k requires 0 <= k < |cells| => IntTerm(if cells[k] == BoolTerm(true) then 1 else 0))
  }

  /** The position of the first column of that name. */
  function IndexOf(batch: seq<ListColumn>, name: string): (k: nat)
    ensures k <= |batch| && (k < |batch| ==> batch[k].name == name)
    ensures forall j :: 0 <= j < k ==> batch[j].name != name
  {
    if batch == [] || batch[0].name == name then 0 else 1 + IndexOf(batch[1..], name)
  }

  /** `column_to_tensor`: the column's buffer read as elements of the tensor type. */
  function ColumnToTensor(batch: seq<ListColumn>, name: string): Result<Vector, NxError> {
    var k := IndexOf(batch, name);
    if k == |batch| then Err(NotFound(name))
    else if !Numeric(batch[k].dtype) then Err(UnsupportedType)
    else
      var buffer := PackColumn(batch[k].dtype, batch[k].cells);
      var d := NxType(batch[k].dtype);
      if buffer.Err? || |buffer.value| != |batch[k].cells| * Width(d) then Err(NotABinary)
      else Ok(Vector(d, FixedCells(d, buffer.value, |batch[k].cells|)))
  }

  /** The tensors of the first `k` fields folded into a map, unsupported columns skipped. */
  function FoldTensors(names: seq<string>, columns: seq<Result<Vector, NxError>>, k: nat)
      : Result<map<string, Vector>, NxError>
    requires k <= |names| == |columns|
  {
    if k == 0 then Ok(map[])
    else
      var acc :- FoldTensors(names, columns, k - 1);
      PutTensor(acc, names[k - 1], columns[k - 1])
  }

  function PutTensor(acc: map<string, Vector>, name: string, column: Result<Vector, NxError>)
      : Result<map<string, Vector>, NxError>
  {
    match column
    case Ok(v) => Ok(acc[name := v])
    case Err(e) => if e.UnsupportedType? then Ok(acc) else Err(e)
  }

  /** `to_tensors`. */
  function ToTensors(batch: seq<ListColumn>): Result<map<string, Vector>, NxError> {
    FoldTensors(seq(|batch|, i requires 0 <= i < |batch| => batch[i].name),
                seq(|batch|, i requires 0 <= i < |batch| => ColumnToTensor(batch, batch[i].name)),
                |batch|)
  }

  function NumericNames(batch: seq<ListColumn>): seq<string> {
    if batch == [] then []
    else (if Numeric(batch[0].dtype) then [batch[0].name] else []) + NumericNames(batch[1..])
  }

  function Self(s: string): string { s }

  predicate Fetchable(columns: seq<string>, m: map<string, Vector>) {
    forall c :: 0 <= c < |columns| ==> columns[c] in m
  }

  /** `Nx.stack(axis: 1)`: element `[r][c]` is element `r` of the `c`-th column. */
  function Stack(columns: seq<string>, m: map<string, Vector>, rows: nat): (s: seq<seq<Cell>>)
    requires Fetchable(columns, m)
    requires forall c :: 0 <= c < |columns| ==> |m[columns[c]].elems| == rows
    ensures |s| == rows && forall r :: 0 <= r < rows ==> |s[r]| == |columns|
    ensures forall r, c :: 0 <= r < rows && 0 <= c < |columns| ==> s[r][c] == m[columns[c]].elems[r]
  {
    seq(rows, r requires 0 <= r < rows =>
      seq(|columns|, c requires 0 <= c < |columns| => m[columns[c]].elems[r]))
  }

  /** `to_nx`. */
  function ToNx(batch: seq<ListColumn>): Result<Tensor, NxError> {
    var columns := SortBy(Self, NumericNames(batch));
    if columns == [] then Err(NoNumericColumns)
    else if |columns| == 1 then
      var v :- ColumnToTensor(batch, columns[0]);
      Ok(Rank1(v.dtype, v.elems))
    else
      var m :- ToTensors(batch);
      if !Fetchable(columns, m) then Err(NotFound(columns[0]))
      else if exists c :: 0 <= c < |columns| && m[columns[c]].dtype != m[columns[0]].dtype then Err(MixedTypes)
      else if exists c :: 0 <= c < |columns| && |m[columns[c]].elems| != |m[columns[0]].elems| then Err(SizesDiffer)
      else Ok(Rank2(m[columns[0]].dtype, |columns|, Stack(columns, m, |m[columns[0]].elems|)))
  }

  // ---- the names keep the columns apart and in order ----------------------------------------------------

  /** The batch a tensor stands for: its columns in numeric order. */
  function ColumnsOf(t: Tensor): (columns: seq<ListColumn>)
    requires IsMatrix(t)
    ensures |columns| == t.cols
  {
    seq(t.cols, c requires 0 <= c < t.cols => ListColumn(ColumnName(c, t.cols), t.dtype, ColumnOf(t, c)))
  }

  function EntriesOf(t: Tensor): (entries: seq<Entry>)
    requires IsMatrix(t)
    ensures |entries| == t.cols
  {
    seq(t.cols, c requires 0 <= c < t.cols => Entry(ColumnName(c, t.cols), Vector(t.dtype, ColumnOf(t, c))))
  }

  function NamesOf(t: Tensor): (names: seq<string>)
    requires IsMatrix(t)
    ensures |names| == t.cols
  {
    seq(t.cols, c requires 0 <= c < t.cols => ColumnName(c, t.cols))
  }

  lemma {:induction false} NoColumnIsOverwritten(t: Tensor, k: nat, c: nat)
    requires IsMatrix(t) && c < k <= t.cols
    ensures ColumnName(c, t.cols) in ColumnTensors(t, k)
    ensures ColumnTensors(t, k)[ColumnName(c, t.cols)] == Vector(t.dtype, ColumnOf(t, c))
  {
    if c < k - 1 {
      NoColumnIsOverwritten(t, k - 1, c);
      NameOrder(c, k - 1, t.cols);
    }
  }

  lemma {:induction false} NameOfColumn(t: Tensor, k: nat, name: string) returns (c: nat)
    requires IsMatrix(t) && k <= t.cols && name in ColumnTensors(t, k)
    ensures c < k && name == ColumnName(c, t.cols)
  {
    if name == ColumnName(k - 1, t.cols) {
      c := k - 1;
    } else {
      c := NameOfColumn(t, k - 1, name);
    }
  }

  lemma NamesIncrease(t: Tensor)
    requires IsMatrix(t)
    ensures Increasing(Self, NamesOf(t)) && Increasing(EntryName, EntriesOf(t))
  {
    var names, entries := NamesOf(t), EntriesOf(t);
    forall i, j | 0 <= i < j < t.cols
      ensures Strings.StrLt(Self(names[i]), Self(names[j]))
      ensures Strings.StrLt(EntryName(entries[i]), EntryName(entries[j]))
    {
      NamesInOrder(t, i, j);
    }
  }

  lemma NamesInOrder(t: Tensor, i: nat, j: nat)
    requires IsMatrix(t) && i < j < t.cols
    ensures Strings.StrLt(NamesOf(t)[i], NamesOf(t)[j])
    ensures Strings.StrLt(EntriesOf(t)[i].name, EntriesOf(t)[j].name)
  {
    NameOrder(i, j, t.cols);
  }

  lemma EntriesSort(t: Tensor, entries: seq<Entry>)
    requires IsMatrix(t) && Lists(entries, ColumnTensors(t, t.cols))
    ensures SortBy(EntryName, entries) == EntriesOf(t)
  {
    NamesIncrease(t);
    var target := EntriesOf(t);
    forall e | e in entries ensures e in target {
      var c := NameOfColumn(t, t.cols, e.name);
      NoColumnIsOverwritten(t, t.cols, c);
      assert e == target[c];
    }
    forall e | e in target ensures e in entries {
      var c :| 0 <= c < t.cols && e == target[c];
      NoColumnIsOverwritten(t, t.cols, c);
      var i :| 0 <= i < |entries| && entries[i].name == e.name;
      assert entries[i] == e;
    }
    SortIsOrder(EntryName, entries, target);
  }

  // ---- tensor to batch -------------------------------------------------------------------------------------

  lemma {:induction false} BinariesMean(entries: seq<Entry>)
    requires forall k :: 0 <= k < |entries| ==> BinaryOf(entries[k].vector).Ok?
    ensures Binaries(entries).Ok? && |Binaries(entries).value| == |entries|
    ensures forall k :: 0 <= k < |entries| ==> Binaries(entries).value[k] == BinaryOf(entries[k].vector).value
  {
    if entries != [] {
      assert forall k :: 0 <= k < |entries[1..]| ==> entries[1..][k] == entries[k + 1];
      BinariesMean(entries[1..]);
    }
  }

  lemma BinaryBuilds(v: Vector)
    requires v.Valid()
    ensures BinaryOf(v).Ok? && BuildColumn(BinaryOf(v).value, v.dtype, |v.elems|) == Ok(v.elems)
  {
    FixedRoundTrip(v.dtype, v.elems);
  }

  lemma BatchOfTensor(t: Tensor, entries: seq<Entry>)
    requires IsMatrix(t) && Lists(entries, ColumnTensors(t, t.cols))
    ensures FromTensors(entries) == Ok(ColumnsOf(t))
  {
    EntriesSort(t, entries);
    var sorted, columns := EntriesOf(t), ColumnsOf(t);
    forall k | 0 <= k < t.cols
      ensures BinaryOf(sorted[k].vector).Ok?
      ensures BuildColumn(BinaryOf(sorted[k].vector).value, t.dtype, |t.rows|) == Ok(columns[k].cells)
    {
      BinaryBuilds(sorted[k].vector);
    }
    BinariesMean(sorted);
    var binaries := Binaries(sorted).value;
    BuiltColumns(Names(sorted), binaries, DTypes(sorted), |t.rows|, columns, 0);
  }

  // ---- batch to tensor -------------------------------------------------------------------------------------

  /** The tensor's columns in some order. */
  ghost predicate Arranges(batch: seq<ListColumn>, t: Tensor)
    requires IsMatrix(t)
  {
    && SameElements(batch, ColumnsOf(t))
    && forall i, j :: 0 <= i < j < |batch| ==> batch[i].name != batch[j].name
  }

  /** Columns of any types under distinct names. */
  predicate Readable(batch: seq<ListColumn>) {
    && (forall i :: 0 <= i < |batch| ==> AllPackable(batch[i].dtype, batch[i].cells))
    && (forall i, j :: 0 <= i < j < |batch| ==> batch[i].name != batch[j].name)
  }

  lemma OneBit(b: bool)
    ensures PackCell(U8, IntTerm(if b then 1 else 0)) == PackCell(Bool, BoolTerm(b))
  {
    var v: nat := if b then 1 else 0;
    assert EncodeLE(v, 1) == [v] + EncodeLE(0, 0) == [v];
  }

  /** The buffer of a boolean column is that of its bits as unsigned bytes. */
  lemma {:induction false} BooleanBuffer(cells: seq<Cell>)
    requires AllPackable(Bool, cells)
    ensures AllPackable(U8, Bits(cells)) && PackColumn(U8, Bits(cells)) == PackColumn(Bool, cells)
  {
    if cells != [] {
      SplitPackable(Bool, cells);
      BooleanBuffer(cells[1..]);
      assert Bits(cells)[1..] == Bits(cells[1..]);
      OneBit(cells[0].b);
      CellPacks(U8, Bits(cells)[0]);
      SplitPackable(U8, Bits(cells));
    } else {
      assert Bits(cells) == [];
    }
  }

  lemma ColumnIsFound(batch: seq<ListColumn>, k: nat)
    requires Readable(batch) && k < |batch|
    ensures ColumnToTensor(batch, batch[k].name) ==
            if Numeric(batch[k].dtype) then Ok(Vector(NxType(batch[k].dtype), NxElems(batch[k].dtype, batch[k].cells)))
            else Err(UnsupportedType)
  {
    var d, cells := batch[k].dtype, batch[k].cells;
    assert IndexOf(batch, batch[k].name) == k;
    if d.Bool? {
      BooleanBuffer(cells);
      FixedRoundTrip(U8, Bits(cells));
    } else if Numeric(d) {
      FixedRoundTrip(d, cells);
    }
  }

  lemma {:induction false} Folded(names: seq<string>, columns: seq<Result<Vector, NxError>>, k: nat)
    requires k <= |names| == |columns|
    requires forall i :: 0 <= i < |columns| ==> columns[i].Ok? || columns[i] == Err(UnsupportedType)
    requires forall i, j :: 0 <= i < j < |names| ==> names[i] != names[j]
    ensures FoldTensors(names, columns, k).Ok?
    ensures forall i :: 0 <= i < k && columns[i].Ok? ==>
              names[i] in FoldTensors(names, columns, k).value &&
              FoldTensors(names, columns, k).value[names[i]] == columns[i].value
    ensures forall i :: 0 <= i < |names| && (i >= k || columns[i].Err?) ==>
              names[i] !in FoldTensors(names, columns, k).value
  {
    if k > 0 {
      Folded(names, columns, k - 1);
    }
  }

  /** The map of tensors holds every numeric column with its elements, booleans as unsigned bytes, and
      leaves out the others. */
  lemma TensorsOfBatch(batch: seq<ListColumn>)
    requires Readable(batch)
    ensures ToTensors(batch).Ok?
    ensures forall i :: 0 <= i < |batch| ==>
              (batch[i].name in ToTensors(batch).value <==> Numeric(batch[i].dtype))
    ensures forall i :: 0 <= i < |batch| && Numeric(batch[i].dtype) ==>
              ToTensors(batch).value[batch[i].name] ==
              Vector(NxType(batch[i].dtype), NxElems(batch[i].dtype, batch[i].cells))
  {
    var names := seq(|batch|, i requires 0 <= i < |batch| => batch[i].name);
    var columns := seq(|batch|, i requires 0 <= i < |batch| => ColumnToTensor(batch, batch[i].name));
    forall i | 0 <= i < |batch|
      ensures columns[i].Ok? <==> Numeric(batch[i].dtype)
      ensures columns[i].Ok? ==>
                columns[i].value == Vector(NxType(batch[i].dtype), NxElems(batch[i].dtype, batch[i].cells))
      ensures columns[i].Err? ==> columns[i] == Err(UnsupportedType)
    {
      ColumnIsFound(batch, i);
    }
    Folded(names, columns, |batch|);
    forall i | 0 <= i < |batch|
      ensures batch[i].name in ToTensors(batch).value <==> Numeric(batch[i].dtype)
      ensures Numeric(batch[i].dtype) ==>
                ToTensors(batch).value[batch[i].name] ==
                Vector(NxType(batch[i].dtype), NxElems(batch[i].dtype, batch[i].cells))
    {
      assert names[i] == batch[i].name;
    }
  }

  lemma ColumnOfBatch(batch: seq<ListColumn>, t: Tensor, k: nat) returns (c: nat)
    requires IsMatrix(t) && Arranges(batch, t) && k < |batch|
    ensures c < t.cols && batch[k] == ColumnsOf(t)[c]
  {
    assert batch[k] in ColumnsOf(t);
    c :| 0 <= c < t.cols && ColumnsOf(t)[c] == batch[k];
  }

  lemma {:induction false} NumericNamesMean(batch: seq<ListColumn>)
    requires forall k :: 0 <= k < |batch| ==> Numeric(batch[k].dtype)
    ensures |NumericNames(batch)| == |batch| && forall k :: 0 <= k < |batch| ==> NumericNames(batch)[k] == batch[k].name
  {
    if batch != [] {
      assert forall k :: 0 <= k < |batch[1..]| ==> batch[1..][k] == batch[k + 1];
      NumericNamesMean(batch[1..]);
    }
  }

  lemma ColumnInBatch(batch: seq<ListColumn>, t: Tensor, c: nat) returns (k: nat)
    requires IsMatrix(t) && Arranges(batch, t) && c < t.cols
    ensures k < |batch| && batch[k] == ColumnsOf(t)[c]
  {
    assert ColumnsOf(t)[c] in batch;
    k :| 0 <= k < |batch| && batch[k] == ColumnsOf(t)[c];
  }

  lemma NamesSort(batch: seq<ListColumn>, t: Tensor)
    requires IsMatrix(t) && Arranges(batch, t)
    ensures SortBy(Self, NumericNames(batch)) == NamesOf(t)
  {
    forall k | 0 <= k < |batch| ensures Numeric(batch[k].dtype) && batch[k].name in NamesOf(t) {
      var c := ColumnOfBatch(batch, t, k);
      assert NamesOf(t)[c] == batch[k].name;
    }
    NumericNamesMean(batch);
    var names := NumericNames(batch);
    forall name | name in NamesOf(t) ensures name in names {
      var c :| 0 <= c < t.cols && NamesOf(t)[c] == name;
      var k := ColumnInBatch(batch, t, c);
      assert names[k] == name;
    }
    NamesIncrease(t);
    SortIsOrder(Self, names, NamesOf(t));
  }

  lemma BatchIsReadable(batch: seq<ListColumn>, t: Tensor)
    requires IsMatrix(t) && Arranges(batch, t)
    ensures Readable(batch)
  {
    forall k | 0 <= k < |batch| ensures AllPackable(batch[k].dtype, batch[k].cells) {
      var c := ColumnOfBatch(batch, t, k);
    }
  }

  lemma TensorOfBatch(batch: seq<ListColumn>, t: Tensor)
    requires IsMatrix(t) && Arranges(batch, t)
    ensures ToNx(batch) == Ok(if t.cols == 1 then Rank1(t.dtype, ColumnOf(t, 0)) else t)
  {
    NamesSort(batch, t);
    BatchIsReadable(batch, t);
    var names := NamesOf(t);
    if t.cols == 1 {
      var k := ColumnInBatch(batch, t, 0);
      ColumnIsFound(batch, k);
    } else {
      TensorsOfBatch(batch);
      var m := ToTensors(batch).value;
      forall c | 0 <= c < t.cols ensures names[c] in m && m[names[c]] == Vector(t.dtype, ColumnOf(t, c)) {
        var k := ColumnInBatch(batch, t, c);
      }
      StackedColumns(names, m, t);
    }
  }

  lemma StackedColumns(names: seq<string>, m: map<string, Vector>, t: Tensor)
    requires IsMatrix(t) && |names| == t.cols && Fetchable(names, m)
    requires forall c :: 0 <= c < t.cols ==> m[names[c]].elems == ColumnOf(t, c) && |m[names[c]].elems| == |t.rows|
    ensures Stack(names, m, |t.rows|) == t.rows
  {
    var stacked := Stack(names, m, |t.rows|);
    forall r | 0 <= r < |t.rows| ensures stacked[r] == t.rows[r] {
      assert forall c :: 0 <= c < t.cols ==> stacked[r][c] == ColumnOf(t, c)[r];
    }
  }

  // ---- the round trip ------------------------------------------------------------------------------------------

  /** However the map lists the columns and however the batch arranges its fields, every element comes
      back to its position; the tensor itself comes back exactly when it has two or more columns. */
  lemma RankTwoRoundTrip(t: Tensor, entries: seq<Entry>, batch: seq<ListColumn>)
    requires IsMatrix(t) && Lists(entries, ColumnTensors(t, t.cols))
    requires FromTensors(entries).Ok? ==> multiset(batch) == multiset(FromTensors(entries).value)
    ensures FromTensors(entries) == Ok(ColumnsOf(t))
    ensures ToNx(batch) == Ok(t) <==> t.cols >= 2
    ensures t.cols == 1 ==> ToNx(batch) == Ok(Rank1(t.dtype, ColumnOf(t, 0)))
  {
    BatchOfTensor(t, entries);
    Rearranged(batch, t);
    TensorOfBatch(batch, t);
  }

  lemma Rearranged(batch: seq<ListColumn>, t: Tensor)
    requires IsMatrix(t) && multiset(batch) == multiset(ColumnsOf(t))
    ensures Arranges(batch, t)
  {
    var columns := ColumnsOf(t);
    forall x ensures x in batch <==> x in columns {
      assert x in batch <==> x in multiset(batch);
      assert x in columns <==> x in multiset(columns);
    }
    forall i, j | 0 <= i < j < |batch| ensures batch[i].name != batch[j].name {
      if batch[i].name == batch[j].name {
        assert batch[i] in columns && batch[j] in columns;
        var c :| 0 <= c < t.cols && columns[c] == batch[i];
        var c' :| 0 <= c' < t.cols && columns[c'] == batch[j];
        NameOrder(c, c', t.cols);
        TwiceInMultiset(batch, i, j);
        OnceInMultiset(columns, c, t);
      }
    }
  }

  lemma TwiceInMultiset<T>(xs: seq<T>, i: nat, j: nat)
    requires i < j < |xs| && xs[i] == xs[j]
    ensures multiset(xs)[xs[i]] >= 2
  {
    assert xs == xs[..i] + [xs[i]] + xs[i + 1..j] + [xs[j]] + xs[j + 1..];
  }

  lemma OnceInMultiset(columns: seq<ListColumn>, c: nat, t: Tensor)
    requires IsMatrix(t) && columns == ColumnsOf(t) && c < t.cols
    ensures multiset(columns)[columns[c]] == 1
  {
    var before, after := columns[..c], columns[c + 1..];
    assert columns == before + [columns[c]] + after;
    forall i | 0 <= i < t.cols && i != c ensures columns[i] != columns[c] {
      NameOrder(i, c, t.cols);
    }
    assert columns[c] !in before && columns[c] !in after;
  }
}
