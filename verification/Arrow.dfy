/** Arrow data as this project sees it: typed columns of optional cells, record batches, and
    the library kernels that both predicate evaluators call, as small pure functions. */
module Arrow {
  import opened Wrappers
  import opened Strings

  type I64 = x: int | -0x8000_0000_0000_0000 <= x < 0x8000_0000_0000_0000
  type I32 = x: int | -0x8000_0000 <= x < 0x8000_0000

  predicate FitsI64(x: int) { -0x8000_0000_0000_0000 <= x < 0x8000_0000_0000_0000 }
  predicate FitsI32(x: int) { -0x8000_0000 <= x < 0x8000_0000 }

  datatype TimeUnit = Second | Millisecond | Microsecond | Nanosecond

  /** The kinds of type without a constructor of their own. */
  datatype OtherKind =
    | NullKind | Float16Kind
    | BinaryKind | LargeBinaryKind
    | ListKind | LargeListKind | StructKind
    | Time32Kind | Time64Kind | DurationKind
    | Decimal128Kind | Decimal256Kind | DictionaryKind
    | UnknownKind(nested: bool)

  /** Types without a constructor of their own are told apart by their kind and all further detail. */
  datatype DataType =
    | Int8 | Int16 | Int32 | Int64
    | UInt8 | UInt16 | UInt32 | UInt64
    | Float32 | Float64
    | Utf8 | LargeUtf8
    | Boolean
    | Date32 | Date64
    | Timestamp(unit: TimeUnit, tz: Option<string>)
    | OtherType(kind: OtherKind, detail: string)

  /** A non-null cell. Integers, dates and timestamps are counted in their column's unit; a cell of a type
      without a model of its own is its rank in that type's order. */
  datatype Cell =
    | IntCell(i: int) | RealCell(r: real) | StrCell(s: string) | BoolCell(b: bool) | OpaqueCell(rank: int)

  /** The range of the integer-valued data types, lower and upper bound included. */
  function IntRange(t: DataType): Option<(int, int)> {
    match t
    case Int8 => Some((-128, 127))
    case Int16 => Some((-32_768, 32_767))
    case Int32 | Date32 => Some((-0x8000_0000, 0x7fff_ffff))
    case Int64 | Date64 | Timestamp(_, _) => Some((-0x8000_0000_0000_0000, 0x7fff_ffff_ffff_ffff))
    case UInt8 => Some((0, 255))
    case UInt16 => Some((0, 65_535))
    case UInt32 => Some((0, 0xffff_ffff))
    case UInt64 => Some((0, 0xffff_ffff_ffff_ffff))
    case _ => None
  }

  predicate CellOf(c: Cell, t: DataType) {
    match t
    case Float32 | Float64 => c.RealCell?
    case Utf8 | LargeUtf8 => c.StrCell?
    case Boolean => c.BoolCell?
    case OtherType(_, _) => c.OpaqueCell?
    case _ => c.IntCell? && IntRange(t).value.0 <= c.i <= IntRange(t).value.1
  }

  datatype Field = Field(name: string, dtype: DataType)

  datatype Column = Column(dtype: DataType, cells: seq<Option<Cell>>) {
    predicate Valid() {
      forall i :: 0 <= i < |cells| && cells[i].Some? ==> CellOf(cells[i].value, dtype)
    }
  }

  datatype Batch = Batch(rows: nat, schema: seq<Field>, columns: seq<Column>) {
    predicate Valid() {
      && |schema| == |columns|
      && forall j :: 0 <= j < |columns| ==>
           columns[j].Valid() && columns[j].dtype == schema[j].dtype && |columns[j].cells| == rows
    }
  }

  /** The first field of that name, as `Schema::field_with_name` and `RecordBatch::column_by_name` find it. */
  function FieldIndex(schema: seq<Field>, name: string): (r: Option<nat>)
    ensures r.Some? ==> r.value < |schema| && schema[r.value].name == name
    ensures r.Some? ==> forall j :: 0 <= j < r.value ==> schema[j].name != name
    ensures r.None? ==> forall j :: 0 <= j < |schema| ==> schema[j].name != name
  {
    if schema == [] then None
    else if schema[0].name == name then Some(0)
    else match FieldIndex(schema[1..], name)
         case None =>
           assert forall j :: 0 < j < |schema| ==> schema[j] == schema[1..][j - 1];
           None
         case Some(k) => Some(k + 1)
  }

  /** Field `j` is the first of that name. */
  predicate NamedFirst(schema: seq<Field>, name: string, j: nat) {
    j < |schema| && schema[j].name == name && forall i :: 0 <= i < j ==> schema[i].name != name
  }

  function ColumnByName(b: Batch, name: string): (r: Option<Column>)
    requires b.Valid()
    ensures r.Some? ==> r.value.Valid() && |r.value.cells| == b.rows
    ensures r.Some? <==> exists j :: 0 <= j < |b.schema| && b.schema[j].name == name
    ensures forall j: nat :: NamedFirst(b.schema, name, j) ==> r == Some(b.columns[j])
  {
    match FieldIndex(b.schema, name)
    case None => None
    case Some(k) => Some(b.columns[k])
  }

  /** The cell of a named column at a row; `None` for a null cell or an absent column. */
  function CellAt(b: Batch, name: string, row: nat): Option<Cell>
    requires b.Valid() && row < b.rows
  {
    match ColumnByName(b, name)
    case None => None
    case Some(col) => col.cells[row]
  }

  // ---- parts of a batch ------------------------------------------------------------------

  function Tail(b: Batch): (t: Batch)
    requires b.Valid() && b.schema != []
    ensures t.Valid()
  {
    Batch(b.rows, b.schema[1..], b.columns[1..])
  }

  /** The batch restricted to the named columns, in schema order, as a Parquet projection yields it. */
  function Project(b: Batch, names: seq<string>): (p: Batch)
    requires b.Valid()
    ensures p.Valid() && p.rows == b.rows
    decreases |b.schema|
  {
    if b.schema == [] then b
    else
      var p := Project(Tail(b), names);
      if b.schema[0].name in names then Batch(b.rows, [b.schema[0]] + p.schema, [b.columns[0]] + p.columns) else p
  }

  /** A column is the first one, or one of the others. */
  lemma ColumnByCases(b: Batch, c: string)
    requires b.Valid() && b.schema != []
    ensures ColumnByName(b, c) == if b.schema[0].name == c then Some(b.columns[0]) else ColumnByName(Tail(b), c)
  {
  }

  lemma {:induction false} ProjectKeepsColumn(b: Batch, names: seq<string>, c: string)
    requires b.Valid() && c in names
    ensures ColumnByName(Project(b, names), c) == ColumnByName(b, c)
    decreases |b.schema|
  {
    if b.schema != [] {
      ProjectKeepsColumn(Tail(b), names, c);
      ColumnByCases(b, c);
      if b.schema[0].name in names {
        ColumnByCases(Project(b, names), c);
        assert Tail(Project(b, names)) == Project(Tail(b), names);
      }
    }
  }

  lemma {:induction false} ProjectDropsColumn(b: Batch, names: seq<string>, c: string)
    requires b.Valid() && c !in names
    ensures ColumnByName(Project(b, names), c) == None
    decreases |b.schema|
  {
    if b.schema != [] {
      ProjectDropsColumn(Tail(b), names, c);
      if b.schema[0].name in names {
        ColumnByCases(Project(b, names), c);
        assert Tail(Project(b, names)) == Project(Tail(b), names);
      }
    }
  }

  /** Row `i` of one batch and row `k` of another hold the same cells under the same schema. */
  predicate SameRow(b: Batch, i: nat, c: Batch, k: nat)
    requires b.Valid() && c.Valid() && i < b.rows && k < c.rows
  {
    && b.schema == c.schema
    && forall j :: 0 <= j < |b.columns| ==> b.columns[j].cells[i] == c.columns[j].cells[k]
  }

  // ---- comparison -----------------------------------------------------------------------

  datatype CmpOp = Eq | Ne | Gt | Gte | Lt | Lte

  /** The strict order of the comparison kernels, on two cells of one data type: false < true. */
  predicate CellLt(a: Cell, b: Cell) {
    match (a, b)
    case (IntCell(x), IntCell(y)) => x < y
    case (RealCell(x), RealCell(y)) => x < y
    case (StrCell(x), StrCell(y)) => StrLt(x, y)
    case (BoolCell(x), BoolCell(y)) => !x && y
    case (OpaqueCell(x), OpaqueCell(y)) => x < y
    case _ => false
  }

  predicate SameKind(a: Cell, b: Cell) {
    match (a, b)
    case (IntCell(_), IntCell(_)) => true
    case (RealCell(_), RealCell(_)) => true
    case (StrCell(_), StrCell(_)) => true
    case (BoolCell(_), BoolCell(_)) => true
    case (OpaqueCell(_), OpaqueCell(_)) => true
    case _ => false
  }

  predicate Compare(op: CmpOp, a: Cell, b: Cell) {
    match op
    case Eq => a == b
    case Ne => a != b
    case Gt => CellLt(b, a)
    case Gte => !CellLt(a, b)
    case Lt => CellLt(a, b)
    case Lte => !CellLt(b, a)
  }

  lemma CellOrder(a: Cell, b: Cell, c: Cell)
    requires SameKind(a, b) && SameKind(b, c)
    ensures !CellLt(a, a)
    ensures a == b || CellLt(a, b) || CellLt(b, a)
    ensures CellLt(a, b) ==> a != b && !CellLt(b, a)
    ensures CellLt(a, b) && CellLt(b, c) ==> CellLt(a, c)
    ensures CellLt(a, b) && !CellLt(c, b) ==> CellLt(a, c)
    ensures !CellLt(b, a) && CellLt(b, c) ==> CellLt(a, c)
    ensures !CellLt(b, a) && !CellLt(c, b) ==> !CellLt(c, a)
  {
    if a.StrCell? {
      var strs := {a.s, b.s, c.s};
      forall x, y, z | x in strs && y in strs && z in strs
        ensures !StrLt(x, x)
        ensures x == y || StrLt(x, y) || StrLt(y, x)
        ensures StrLt(x, y) && StrLt(y, z) ==> StrLt(x, z)
      {
        StrLtIrreflexive(x);
        StrLtTotal(x, y);
        if StrLt(x, y) && StrLt(y, z) {
          StrLtTransitive(x, y, z);
        }
      }
      assert a.s in strs && b.s in strs && c.s in strs;
    }
  }

  /** What it is for one cell to be less than another, kind by kind: texts are compared where they first
      differ, and false comes before true. */
  ghost predicate Less(a: Cell, b: Cell)
    requires SameKind(a, b)
  {
    match a
    case IntCell(x) => x < b.i
    case RealCell(x) => x < b.r
    case StrCell(x) => exists k: nat :: FirstDifference(x, b.s, k)
    case BoolCell(x) => x == false && b.b == true
    case OpaqueCell(x) => x < b.rank
  }

  /** A comparison by its outcomes. */
  predicate Outcome(op: CmpOp, less: bool, equal: bool, greater: bool) {
    match op
    case Eq => equal
    case Ne => less || greater
    case Gt => greater
    case Gte => equal || greater
    case Lt => less
    case Lte => less || equal
  }

  /** The comparison of two cells of one kind: exactly one of less, equal and greater, and the operator's
      reading of it. */
  lemma ComparisonMeans(op: CmpOp, a: Cell, b: Cell)
    requires SameKind(a, b)
    ensures Compare(op, a, b) <==> Outcome(op, Less(a, b), a == b, Less(b, a))
  {
    CellOrder(a, b, a);
    if a.StrCell? {
      StrLtByPosition(a.s, b.s);
      StrLtByPosition(b.s, a.s);
    }
  }

  // ---- boolean masks ----------------------------------------------------------------------

  /** A nullable boolean array. */
  type Mask = seq<Option<bool>>

  /** `arrow_arith::boolean::and`, cell by cell: null as soon as one side is null. */
  function And3(a: Option<bool>, b: Option<bool>): Option<bool> {
    if a.Some? && b.Some? then Some(a.value && b.value) else None
  }

  function Or3(a: Option<bool>, b: Option<bool>): Option<bool> {
    if a.Some? && b.Some? then Some(a.value || b.value) else None
  }

  function Not3(a: Option<bool>): Option<bool> {
    if a.Some? then Some(!a.value) else None
  }

  function AndMask(a: Mask, b: Mask): (m: Mask)
    requires |a| == |b|
  {
    seq(|a|, i requires 0 <= i < |a| => And3(a[i], b[i]))
  }

  function OrMask(a: Mask, b: Mask): (m: Mask)
    requires |a| == |b|
  {
    seq(|a|, i requires 0 <= i < |a| => Or3(a[i], b[i]))
  }

  function NotMask(a: Mask): (m: Mask) {
    seq(|a|, i requires 0 <= i < |a| => Not3(a[i]))
  }

  /** The filter kernel: the rows whose mask entry is a non-null true, in order. */
  function Kept(m: Mask): (rows: seq<nat>)
    ensures forall k :: k in rows ==> k < |m| && m[k] == Some(true)
    ensures forall i :: 0 <= i < |m| && m[i] == Some(true) ==> i in rows
    ensures forall a, b :: 0 <= a < b < |rows| ==> rows[a] < rows[b]
  {
    if m == [] then []
    else
      var n := |m| - 1;
      var before := Kept(m[..n]);
      assert forall a :: 0 <= a < |before| ==> before[a] in before;
      before + (if m[n] == Some(true) then [n] else [])
  }

  lemma {:induction false} KeptNothing(m: Mask)
    requires forall i :: 0 <= i < |m| ==> m[i] != Some(true)
    ensures Kept(m) == []
  {
    if m != [] {
      KeptNothing(m[..|m| - 1]);
    }
  }
}
