/** Columns and batches through the wire format: what packs, what it decodes to, and back. */
module ColumnRoundTrip {
  import opened Wrappers
  import opened LittleEndian
  import opened ColumnCodec
  import opened Utf8

  // ---- the native column builder (ipc.rs) --------------------------------------------------------

  function DecodeCell(d: DType, bytes: seq<Byte>): Cell
    requires bytes != []
  {
    if d.Bool? then BoolTerm(bytes[0] != 0)
    else if IsFloat(d) then FloatTerm(bytes)
    else if IsUnsigned(d) then IntTerm(DecodeLE(bytes))
    else IntTerm(DecodeSigned(bytes))
  }

  /** A buffer read as cells of one width. */
  function FixedCells(d: DType, bytes: seq<Byte>, length: nat): seq<Cell>
    requires !IsVarlen(d) && |bytes| == length * Width(d)
  {
    if length == 0 then []
    else
      NextCell(length, Width(d));
      [DecodeCell(d, bytes[..Width(d)])] + FixedCells(d, bytes[Width(d)..], length - 1)
  }

  lemma NextCell(length: nat, w: nat)
    requires length >= 1
    ensures length * w >= w && (length - 1) * w == length * w - w
  {
  }

  function Terms(elems: seq<seq<Byte>>): (cells: seq<Cell>)
    ensures |cells| == |elems|
  {
    seq(|elems|, i requires 0 <= i < |elems| => BinaryTerm(elems[i]))
  }

  predicate AllText(elems: seq<seq<Byte>>) {
    forall i :: 0 <= i < |elems| ==> ValidUtf8(elems[i])
  }

  const MAX_OFFSET := 0x7fff_ffff

  function TotalBytes(elems: seq<seq<Byte>>): nat {
    if elems == [] then 0 else |elems[0]| + TotalBytes(elems[1..])
  }

  /** The plain string and binary arrays have 32-bit offsets; building a longer one panics. */
  predicate FitsOffsets(d: DType, elems: seq<seq<Byte>>) {
    d.Utf8? || d.Binary? ==> TotalBytes(elems) <= MAX_OFFSET
  }

  /** The column a buffer stands for, or why it stands for none. */
  function BuildColumn(bytes: seq<Byte>, d: DType, length: nat): Result<seq<Cell>, DecodeError> {
    if IsVarlen(d) then
      var elems :- RecordsFrom(bytes, 0, 0, length);
      if IsText(d) && !AllText(elems) then Err(BadUtf8)
      else if !FitsOffsets(d, elems) then Err(OffsetOverflow)
      else Ok(Terms(elems))
    else if |bytes| != length * Width(d) then Err(LengthMismatch(length * Width(d), |bytes|))
    else Ok(FixedCells(d, bytes, length))
  }

  /** `build_column_array`. A buffer it accepts gives `length` cells of the type that pack back to the same
      bytes, booleans only if canonical; it accepts the fixed-width buffers of the right size and the
      variable-length ones that some list packs to. */
  method BuildColumnArray(bytes: seq<Byte>, d: DType, length: nat) returns (r: Result<seq<Cell>, DecodeError>)
    ensures r == BuildColumn(bytes, d, length)
    ensures r.Ok? ==> |r.value| == length && AllPackable(d, r.value) && FitsArrow(d, r.value)
    ensures r.Ok? ==> (PackColumn(d, r.value) == Ok(bytes) <==> Canonical(d, bytes))
    ensures !IsVarlen(d) ==> (r.Ok? <==> |bytes| == length * Width(d))
    ensures IsVarlen(d) ==> (r.Ok? <==> exists cells :: PacksTo(d, cells, length, bytes))
  {
    AcceptedBuffers(bytes, d, length);
    if IsVarlen(d) {
      var elems := DecodeVarlenRecords(bytes, length);
      if elems.Err? {
        return Err(elems.error);
      }
      if IsText(d) && !AllText(elems.value) {
        return Err(BadUtf8);
      }
      return if FitsOffsets(d, elems.value) then Ok(Terms(elems.value)) else Err(OffsetOverflow);
    }
    if |bytes| != length * Width(d) {
      return Err(LengthMismatch(length * Width(d), |bytes|));
    }
    return Ok(FixedCells(d, bytes, length));
  }

  datatype ListColumn = ListColumn(name: string, dtype: DType, cells: seq<Cell>) {
    function Packed(): Result<seq<Byte>, PackError> {
      PackColumn(dtype, cells)
    }
  }

  /** The columns from the `k`-th on, up to the first error. */
  function ColumnsFrom(names: seq<string>, binaries: seq<seq<Byte>>, dtypes: seq<DType>, length: nat, k: nat)
      : Result<seq<ListColumn>, DecodeError>
    requires |names| == |binaries| == |dtypes| && k <= |names|
    decreases |names| - k
  {
    if k == |names| then Ok([])
    else
      var cells :- BuildColumn(binaries[k], dtypes[k], length);
      var rest :- ColumnsFrom(names, binaries, dtypes, length, k + 1);
      Ok([ListColumn(names[k], dtypes[k], cells)] + rest)
  }

  function NativeBatch(names: seq<string>, binaries: seq<seq<Byte>>, dtypes: seq<DType>, length: nat)
      : Result<seq<ListColumn>, DecodeError>
  {
    if |names| != |binaries| || |names| != |dtypes| then Err(ListLengths)
    else if names == [] then Err(NoColumns)
    else ColumnsFrom(names, binaries, dtypes, length, 0)
  }

  lemma {:induction false} BuiltColumns(names: seq<string>, binaries: seq<seq<Byte>>, dtypes: seq<DType>, length: nat,
                                        columns: seq<ListColumn>, k: nat)
    requires |names| == |binaries| == |dtypes| == |columns| && k <= |names|
    requires forall j :: k <= j < |names| ==>
               columns[j].name == names[j] && columns[j].dtype == dtypes[j] &&
               BuildColumn(binaries[j], dtypes[j], length) == Ok(columns[j].cells)
    ensures ColumnsFrom(names, binaries, dtypes, length, k) == Ok(columns[k..])
    decreases |names| - k
  {
    if k < |names| {
      BuiltColumns(names, binaries, dtypes, length, columns, k + 1);
      assert columns[k..] == [columns[k]] + columns[k + 1..];
    } else {
      assert columns[k..] == [];
    }
  }

  lemma NextColumns(names: seq<string>, binaries: seq<seq<Byte>>, dtypes: seq<DType>, length: nat, k: nat)
    requires |names| == |binaries| == |dtypes| && k < |names|
    ensures BuildColumn(binaries[k], dtypes[k], length).Err? ==>
              ColumnsFrom(names, binaries, dtypes, length, k) ==
              Err(BuildColumn(binaries[k], dtypes[k], length).error)
    ensures BuildColumn(binaries[k], dtypes[k], length).Ok? &&
            ColumnsFrom(names, binaries, dtypes, length, k + 1).Err? ==>
              ColumnsFrom(names, binaries, dtypes, length, k) == ColumnsFrom(names, binaries, dtypes, length, k + 1)
  {
  }

  lemma {:induction false} FailedColumn(names: seq<string>, binaries: seq<seq<Byte>>, dtypes: seq<DType>, length: nat,
                                        k: nat, bad: nat)
    requires |names| == |binaries| == |dtypes| && k <= bad < |names|
    requires forall j :: k <= j < bad ==> BuildColumn(binaries[j], dtypes[j], length).Ok?
    requires BuildColumn(binaries[bad], dtypes[bad], length).Err?
    ensures ColumnsFrom(names, binaries, dtypes, length, k) ==
            Err(BuildColumn(binaries[bad], dtypes[bad], length).error)
    decreases bad - k
  {
    NextColumns(names, binaries, dtypes, length, k);
    if k < bad {
      FailedColumn(names, binaries, dtypes, length, k + 1, bad);
    }
  }

  /** `record_batch_from_column_binaries`: every column in order, or the first error. */
  method RecordBatchFromColumnBinaries(names: seq<string>, binaries: seq<seq<Byte>>, dtypes: seq<DType>, length: nat)
    returns (r: Result<seq<ListColumn>, DecodeError>)
    ensures r == NativeBatch(names, binaries, dtypes, length)
    ensures |names| != |binaries| || |names| != |dtypes| ==> r == Err(ListLengths)
    ensures |names| == |binaries| == |dtypes| == 0 ==> r == Err(NoColumns)
    ensures r.Ok? ==> |r.value| == |names| == |binaries| == |dtypes|
    ensures r.Ok? ==> forall k :: 0 <= k < |names| ==>
              && r.value[k].name == names[k] && r.value[k].dtype == dtypes[k]
              && BuildColumn(binaries[k], dtypes[k], length) == Ok(r.value[k].cells)
    ensures |names| == |binaries| == |dtypes| > 0 && r.Err? ==>
              exists k :: 0 <= k < |names| && BuildColumn(binaries[k], dtypes[k], length) == Err(r.error) &&
                          forall j :: 0 <= j < k ==> BuildColumn(binaries[j], dtypes[j], length).Ok?
  {
    if |names| != |binaries| || |names| != |dtypes| {
      return Err(ListLengths);
    }
    if names == [] {
      return Err(NoColumns);
    }
    var columns: seq<ListColumn> := [];
    for k := 0 to |names|
      invariant |columns| == k
      invariant forall j :: 0 <= j < k ==>
                  columns[j].name == names[j] && columns[j].dtype == dtypes[j] &&
                  BuildColumn(binaries[j], dtypes[j], length) == Ok(columns[j].cells)
    {
      var cells := BuildColumnArray(binaries[k], dtypes[k], length);
      if cells.Err? {
        FailedColumn(names, binaries, dtypes, length, 0, k);
        return Err(cells.error);
      }
      columns := columns + [ListColumn(names[k], dtypes[k], cells.value)];
    }
    BuiltColumns(names, binaries, dtypes, length, columns, 0);
    return Ok(columns);
  }

  // ---- what packs ------------------------------------------------------------------------------------

  /** The cell is of the column's type and in its range. */
  predicate Packable(d: DType, c: Cell) {
    match c
    case FloatTerm(raw) => IsFloat(d) && |raw| == Width(d)
    case IntTerm(v) =>
      !IsVarlen(d) && !d.Bool? && !IsFloat(d) &&
      (if IsUnsigned(d) then 0 <= v < Pow256(Width(d)) else FitsSigned(v, Width(d)))
    case BoolTerm(_) => d.Bool?
    case BinaryTerm(bytes) => IsVarlen(d) && (IsText(d) ==> ValidUtf8(bytes))
    case _ => false
  }

  /** What packs, type by type: integers of the type's range, floats of its width, booleans, encoded text for
      the text types and any bytes for the binary types. */
  ghost predicate BelongsTo(c: Cell, d: DType) {
    match d
    case S8 => c.IntTerm? && -0x80 <= c.i < 0x80
    case S16 => c.IntTerm? && -0x8000 <= c.i < 0x8000
    case S32 | Date32 => c.IntTerm? && -0x8000_0000 <= c.i < 0x8000_0000
    case U8 => c.IntTerm? && 0 <= c.i < 0x100
    case U16 => c.IntTerm? && 0 <= c.i < 0x1_0000
    case U32 => c.IntTerm? && 0 <= c.i < 0x1_0000_0000
    case U64 => c.IntTerm? && 0 <= c.i < 0x1_0000_0000_0000_0000
    case F32 => c.FloatTerm? && |c.raw| == 4
    case F64 => c.FloatTerm? && |c.raw| == 8
    case Bool => c.BoolTerm?
    case Utf8 | LargeUtf8 => c.BinaryTerm? && IsEncoded(c.bytes)
    case Binary | LargeBinary => c.BinaryTerm?
    case S64 | Date64 | TimestampSeconds | TimestampMillis | TimestampMicros | TimestampNanos
       | DurationSeconds | DurationMillis | DurationMicros | DurationNanos =>
      c.IntTerm? && -0x8000_0000_0000_0000 <= c.i < 0x8000_0000_0000_0000
  }

  lemma PackableByType(d: DType, c: Cell)
    ensures Packable(d, c) <==> BelongsTo(c, d)
    ensures PackCell(d, c).Ok? <==> BelongsTo(c, d)
  {
    CellPacks(d, c);
    match c {
      case IntTerm(v) => IntegerRanges(d, v);
      case BinaryTerm(bytes) => TextIsEncoded(d, bytes);
      case FloatTerm(raw) =>
      case BoolTerm(b) =>
      case NilTerm =>
      case CompositeTerm(id) =>
      case OtherTerm(id) =>
    }
  }

  lemma TextIsEncoded(d: DType, bytes: seq<Byte>)
    ensures Packable(d, BinaryTerm(bytes)) <==> BelongsTo(BinaryTerm(bytes), d)
  {
    ValidIsEncoded(bytes);
  }

  lemma IntegerRanges(d: DType, v: int)
    ensures Packable(d, IntTerm(v)) <==> BelongsTo(IntTerm(v), d)
  {
    PowersOf256();
  }

  lemma CellPacks(d: DType, c: Cell)
    ensures PackCell(d, c).Ok? <==> Packable(d, c)
  {
    PowersOf256();
  }

  lemma IntegerBytes(d: DType, v: int)
    requires !IsVarlen(d) && Packable(d, IntTerm(v))
    ensures PackCell(d, IntTerm(v)) == Ok(if IsUnsigned(d) then EncodeLE(v, Width(d)) else EncodeSigned(v, Width(d)))
  {
    PowersOf256();
  }

  lemma CellRoundTrip(d: DType, c: Cell)
    requires !IsVarlen(d) && Packable(d, c)
    ensures PackCell(d, c).Ok? && |PackCell(d, c).value| == Width(d) && DecodeCell(d, PackCell(d, c).value) == c
  {
    if c.IntTerm? {
      var v, w := c.i, Width(d);
      IntegerBytes(d, v);
      if IsUnsigned(d) {
        DecodeEncode(v, w);
      } else {
        SignedRoundTrip(v, w);
      }
    }
  }

  predicate AllPackable(d: DType, cells: seq<Cell>) {
    forall i :: 0 <= i < |cells| ==> Packable(d, cells[i])
  }

  lemma SplitPackable(d: DType, cells: seq<Cell>)
    requires cells != []
    ensures AllPackable(d, cells) <==> Packable(d, cells[0]) && AllPackable(d, cells[1..])
  {
    assert forall i :: 1 <= i < |cells| ==> cells[i] == cells[1..][i - 1];
  }

  lemma {:induction false} ColumnPacks(d: DType, cells: seq<Cell>)
    ensures PackColumn(d, cells).Ok? <==> AllPackable(d, cells)
  {
    if cells != [] {
      CellPacks(d, cells[0]);
      ColumnPacks(d, cells[1..]);
      SplitPackable(d, cells);
    }
  }

  // ---- fixed-width columns ------------------------------------------------------------------------------

  lemma {:induction false} FixedRoundTrip(d: DType, cells: seq<Cell>)
    requires !IsVarlen(d) && AllPackable(d, cells)
    ensures PackColumn(d, cells).Ok? && |PackColumn(d, cells).value| == |cells| * Width(d)
    ensures FixedCells(d, PackColumn(d, cells).value, |cells|) == cells
  {
    if cells != [] {
      SplitPackable(d, cells);
      FixedRoundTrip(d, cells[1..]);
      CellRoundTrip(d, cells[0]);
      FirstCell(d, PackCell(d, cells[0]).value, PackColumn(d, cells[1..]).value, |cells| - 1);
      assert [cells[0]] + cells[1..] == cells;
    }
  }

  lemma FirstCell(d: DType, chunk: seq<Byte>, rest: seq<Byte>, length: nat)
    requires !IsVarlen(d) && |chunk| == Width(d) && |rest| == length * Width(d)
    ensures |chunk + rest| == (length + 1) * Width(d)
    ensures FixedCells(d, chunk + rest, length + 1) == [DecodeCell(d, chunk)] + FixedCells(d, rest, length)
  {
    NextCell(length + 1, Width(d));
    assert (chunk + rest)[..Width(d)] == chunk && (chunk + rest)[Width(d)..] == rest;
  }

  /** A byte other than 0 and 1 reads as true but packs as 1. */
  predicate Canonical(d: DType, bytes: seq<Byte>) {
    d.Bool? ==> forall i :: 0 <= i < |bytes| ==> bytes[i] <= 1
  }

  lemma CellReencode(d: DType, chunk: seq<Byte>)
    requires !IsVarlen(d) && |chunk| == Width(d)
    ensures Packable(d, DecodeCell(d, chunk))
    ensures PackCell(d, DecodeCell(d, chunk)) == Ok(chunk) <==> Canonical(d, chunk)
  {
    if d.Bool? {
      assert chunk == [chunk[0]];
    } else if IsFloat(d) {
    } else if IsUnsigned(d) {
      EncodeDecode(chunk);
      IntegerBytes(d, DecodeLE(chunk));
    } else {
      SignedReencode(chunk);
      IntegerBytes(d, DecodeSigned(chunk));
    }
  }

  /** Whatever buffer the builder accepts packs back to the same bytes, booleans only if canonical. */
  lemma {:induction false} FixedReencode(d: DType, bytes: seq<Byte>, length: nat)
    requires !IsVarlen(d) && |bytes| == length * Width(d)
    ensures |FixedCells(d, bytes, length)| == length && AllPackable(d, FixedCells(d, bytes, length))
    ensures PackColumn(d, FixedCells(d, bytes, length)) == Ok(bytes) <==> Canonical(d, bytes)
    decreases length
  {
    if length > 0 {
      var w := Width(d);
      NextCell(length, w);
      var chunk, rest := bytes[..w], bytes[w..];
      assert bytes == chunk + rest;
      FixedReencode(d, rest, length - 1);
      CellReencode(d, chunk);
      var first, others := DecodeCell(d, chunk), FixedCells(d, rest, length - 1);
      FirstCell(d, chunk, rest, length - 1);
      assert FixedCells(d, bytes, length) == [first] + others;
      FirstPackable(d, first, others);
      PackedParts(d, first, others, chunk, rest);
      SplitCanonical(d, chunk, rest);
    }
  }

  lemma FirstPackable(d: DType, first: Cell, others: seq<Cell>)
    requires Packable(d, first) && AllPackable(d, others)
    ensures AllPackable(d, [first] + others)
  {
  }

  lemma PackedParts(d: DType, cell: Cell, cells: seq<Cell>, chunk: seq<Byte>, rest: seq<Byte>)
    requires !IsVarlen(d) && |chunk| == Width(d) && Packable(d, cell) && AllPackable(d, cells)
    ensures PackColumn(d, [cell] + cells) == Ok(chunk + rest) <==>
            PackCell(d, cell) == Ok(chunk) && PackColumn(d, cells) == Ok(rest)
  {
    CellWidth(d, cell);
    ColumnPacks(d, cells);
    assert ([cell] + cells)[1..] == cells;
    EqualParts(PackCell(d, cell).value, PackColumn(d, cells).value, chunk, rest);
  }

  lemma CellWidth(d: DType, c: Cell)
    requires !IsVarlen(d) && Packable(d, c)
    ensures PackCell(d, c).Ok? && |PackCell(d, c).value| == Width(d)
  {
    CellRoundTrip(d, c);
  }

  lemma SplitCanonical(d: DType, a: seq<Byte>, b: seq<Byte>)
    ensures Canonical(d, a + b) <==> Canonical(d, a) && Canonical(d, b)
  {
    assert forall i :: 0 <= i < |a| ==> (a + b)[i] == a[i];
    assert forall i :: 0 <= i < |b| ==> (a + b)[|a| + i] == b[i];
  }

  lemma EqualParts(a: seq<Byte>, b: seq<Byte>, c: seq<Byte>, d: seq<Byte>)
    requires |a| == |c|
    ensures a + b == c + d <==> a == c && b == d
  {
    assert (a + b)[..|a|] == a && (a + b)[|a|..] == b;
    assert (c + d)[..|c|] == c && (c + d)[|c|..] == d;
  }

  // ---- variable-length columns ------------------------------------------------------------------------------

  function BytesOf(cells: seq<Cell>): (elems: seq<seq<Byte>>)
    requires forall i :: 0 <= i < |cells| ==> cells[i].BinaryTerm?
    ensures |elems| == |cells| && forall i :: 0 <= i < |cells| ==> elems[i] == cells[i].bytes
  {
    seq(|cells|, i requires 0 <= i < |cells| => cells[i].bytes)
  }

  lemma {:induction false} VarlenPacks(d: DType, cells: seq<Cell>)
    requires IsVarlen(d) && AllPackable(d, cells)
    ensures PackColumn(d, cells) == Ok(PackRecords(BytesOf(cells)))
  {
    if cells != [] {
      VarlenPacks(d, cells[1..]);
      assert BytesOf(cells)[1..] == BytesOf(cells[1..]);
    }
  }

  // ---- both together ------------------------------------------------------------------------------------------

  /** Every element of a variable-length column fits its 32-bit length prefix, and all of them together the
      array's offsets. */
  predicate FitsArrow(d: DType, cells: seq<Cell>)
    requires AllPackable(d, cells)
  {
    IsVarlen(d) ==> AllShort(BytesOf(cells)) && (d.Utf8? || d.Binary? ==> TotalBytes(BytesOf(cells)) < 0x8000_0000)
  }

  /** The list is of that length, fits, and packs to those bytes. */
  predicate PacksTo(d: DType, cells: seq<Cell>, length: nat, bytes: seq<Byte>) {
    |cells| == length && AllPackable(d, cells) && FitsArrow(d, cells) && PackColumn(d, cells) == Ok(bytes)
  }

  /** What the builder accepts, and what accepted cells pack to. */
  lemma AcceptedBuffers(bytes: seq<Byte>, d: DType, length: nat)
    ensures var r := BuildColumn(bytes, d, length);
      r.Ok? ==> |r.value| == length && AllPackable(d, r.value) && FitsArrow(d, r.value) &&
                (PackColumn(d, r.value) == Ok(bytes) <==> Canonical(d, bytes))
    ensures IsVarlen(d) ==> (BuildColumn(bytes, d, length).Ok? <==> exists cells :: PacksTo(d, cells, length, bytes))
  {
    if IsVarlen(d) {
      AcceptedRecords(bytes, d, length);
      forall cells | PacksTo(d, cells, length, bytes)
        ensures BuildColumn(bytes, d, length).Ok?
      {
        ColumnSurvives(d, cells);
      }
    } else if |bytes| == length * Width(d) {
      FixedReencode(d, bytes, length);
    }
  }

  lemma AcceptedRecords(bytes: seq<Byte>, d: DType, length: nat)
    requires IsVarlen(d)
    ensures BuildColumn(bytes, d, length).Ok? ==> PacksTo(d, BuildColumn(bytes, d, length).value, length, bytes)
  {
    var r := BuildColumn(bytes, d, length);
    if r.Ok? {
      RecordsMeaning(bytes, length);
      var elems := RecordsFrom(bytes, 0, 0, length).value;
      assert BytesOf(r.value) == elems;
      VarlenPacks(d, r.value);
    }
  }

  /** A list packs exactly when every cell is of the type and in range; packed, it decodes to the
      same list exactly when no binary overflows its length prefix and all fit the array's offsets. */
  lemma ColumnSurvives(d: DType, cells: seq<Cell>)
    ensures PackColumn(d, cells).Ok? <==> AllPackable(d, cells)
    ensures PackColumn(d, cells).Ok? ==>
              (BuildColumn(PackColumn(d, cells).value, d, |cells|) == Ok(cells) <==> FitsArrow(d, cells))
  {
    ColumnPacks(d, cells);
    if AllPackable(d, cells) {
      if IsVarlen(d) {
        VarlenPacks(d, cells);
        VarlenRoundTrip(BytesOf(cells));
        if AllShort(BytesOf(cells)) {
          assert Terms(BytesOf(cells)) == cells;
          TextCells(d, cells);
        } else {
          LongColumnsDiffer(d, cells);
        }
      } else {
        FixedRoundTrip(d, cells);
      }
    }
  }

  lemma TextCells(d: DType, cells: seq<Cell>)
    requires IsVarlen(d) && AllPackable(d, cells)
    ensures IsText(d) ==> AllText(BytesOf(cells))
  {
    assert forall i :: 0 <= i < |cells| ==> Packable(d, cells[i]) && BytesOf(cells)[i] == cells[i].bytes;
  }

  lemma TermsOnlyOfTheirBytes(elems: seq<seq<Byte>>, cells: seq<Cell>)
    requires forall i :: 0 <= i < |cells| ==> cells[i].BinaryTerm?
    ensures Terms(elems) == cells ==> elems == BytesOf(cells)
  {
    if Terms(elems) == cells {
      assert forall i :: 0 <= i < |cells| ==> elems[i] == Terms(elems)[i].bytes;
    }
  }

  lemma LongColumnsDiffer(d: DType, cells: seq<Cell>)
    requires IsVarlen(d) && AllPackable(d, cells) && !AllShort(BytesOf(cells))
    ensures BuildColumn(PackRecords(BytesOf(cells)), d, |cells|) != Ok(cells)
  {
    VarlenRoundTrip(BytesOf(cells));
    var r := RecordsFrom(PackRecords(BytesOf(cells)), 0, 0, |cells|);
    if r.Ok? {
      TermsOnlyOfTheirBytes(r.value, cells);
    }
  }

  // ---- from_lists ------------------------------------------------------------------------------------------------

  predicate SameLengths(columns: seq<ListColumn>) {
    forall k :: 0 <= k < |columns| ==> |columns[k].cells| == |columns[0].cells|
  }

  datatype FromListsError = Shape | Pack(packing: PackError) | Native(decoding: DecodeError)

  /** `pack_from_lists`: the packed columns, or the first column's error. */
  function PackAll(columns: seq<ListColumn>): Result<seq<seq<Byte>>, PackError> {
    if columns == [] then Ok([])
    else
      var first :- columns[0].Packed();
      var rest :- PackAll(columns[1..]);
      Ok([first] + rest)
  }

  lemma {:induction false} PackAllColumns(columns: seq<ListColumn>)
    ensures PackAll(columns).Ok? <==> forall k :: 0 <= k < |columns| ==> columns[k].Packed().Ok?
    ensures PackAll(columns).Ok? ==> |PackAll(columns).value| == |columns|
    ensures PackAll(columns).Ok? ==>
              forall k :: 0 <= k < |columns| ==> columns[k].Packed() == Ok(PackAll(columns).value[k])
  {
    if columns != [] {
      PackAllColumns(columns[1..]);
      assert forall k :: 1 <= k < |columns| ==> columns[k] == columns[1..][k - 1];
    }
  }

  /** Each column's cells are of its type, in range and within the length prefix. */
  predicate Faithful(columns: seq<ListColumn>) {
    forall k :: 0 <= k < |columns| ==>
      AllPackable(columns[k].dtype, columns[k].cells) && FitsArrow(columns[k].dtype, columns[k].cells)
  }

  /** `from_lists`: a batch comes out unchanged whenever it can be represented at all. */
  method FromLists(columns: seq<ListColumn>) returns (r: Result<seq<ListColumn>, FromListsError>)
    ensures (columns == [] || !SameLengths(columns)) <==> r == Err(Shape)
    ensures columns != [] && SameLengths(columns) && Faithful(columns) ==> r == Ok(columns)
    ensures r.Err? && r.error.Pack? <==>
            columns != [] && SameLengths(columns) &&
            exists k :: 0 <= k < |columns| && !AllPackable(columns[k].dtype, columns[k].cells)
    ensures r.Ok? ==> forall k :: 0 <= k < |columns| ==> AllPackable(columns[k].dtype, columns[k].cells)
    ensures r.Ok? && (forall k :: 0 <= k < |columns| ==> FitsArrow(columns[k].dtype, columns[k].cells)) ==>
              r.value == columns
  {
    if columns == [] || !SameLengths(columns) {
      return Err(Shape);
    }
    PackAllColumns(columns);
    forall k | 0 <= k < |columns|
      ensures columns[k].Packed().Ok? <==> AllPackable(columns[k].dtype, columns[k].cells)
      ensures columns[k].Packed().Ok? && FitsArrow(columns[k].dtype, columns[k].cells) ==>
                BuildColumn(columns[k].Packed().value, columns[k].dtype, |columns[0].cells|) == Ok(columns[k].cells)
    {
      ColumnSurvives(columns[k].dtype, columns[k].cells);
    }
    var packed := PackAll(columns);
    if packed.Err? {
      return Err(Pack(packed.error));
    }
    var names := seq(|columns|, k requires 0 <= k < |columns| => columns[k].name);
    var dtypes := seq(|columns|, k requires 0 <= k < |columns| => columns[k].dtype);
    var built := RecordBatchFromColumnBinaries(names, packed.value, dtypes, |columns[0].cells|);
    if built.Err? {
      return Err(Native(built.error));
    }
    if forall k :: 0 <= k < |columns| ==> FitsArrow(columns[k].dtype, columns[k].cells) {
      assert built.value == columns;
    }
    return Ok(built.value);
  }
}
