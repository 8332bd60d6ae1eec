/** What `from_tensors` and `to_nx` answer for any tensors and any batch, errors included (nx.ex, ex_arrow.ex). */
module TensorBatches {
  import opened Wrappers
  import opened LittleEndian
  import opened ColumnCodec
  import opened ColumnRoundTrip
  import opened Sorting
  import opened RankTwo
  import Strings

  // ---- tensors to a batch --------------------------------------------------------------------------------

  predicate AllTyped(entries: seq<Entry>) {
    forall k :: 0 <= k < |entries| ==> IsNx(entries[k].vector.dtype)
  }

  predicate OneSize(entries: seq<Entry>) {
    forall j, k :: 0 <= j < |entries| && 0 <= k < |entries| ==>
      |entries[j].vector.elems| == |entries[k].vector.elems|
  }

  /** The elements of every tensor are of its type. */
  predicate WellFormed(entries: seq<Entry>) {
    forall k :: 0 <= k < |entries| ==> AllPackable(entries[k].vector.dtype, entries[k].vector.elems)
  }

  function ColumnFor(e: Entry): ListColumn {
    ListColumn(e.name, e.vector.dtype, e.vector.elems)
  }

  function ColumnsFor(entries: seq<Entry>): (columns: seq<ListColumn>)
    ensures |columns| == |entries|
  {
    seq(|entries|, k requires 0 <= k < |entries| => ColumnFor(entries[k]))
  }

  lemma {:induction false} UntypedFails(entries: seq<Entry>)
    requires WellFormed(entries) && !AllTyped(entries)
    ensures Binaries(entries) == Err(UnsupportedType)
  {
    ColumnPacks(entries[0].vector.dtype, entries[0].vector.elems);
    if IsNx(entries[0].vector.dtype) {
      assert forall k :: 0 <= k < |entries[1..]| ==> entries[1..][k] == entries[k + 1];
      UntypedFails(entries[1..]);
    }
  }

  lemma TypedBinaries(entries: seq<Entry>)
    requires WellFormed(entries) && AllTyped(entries)
    ensures Binaries(entries).Ok? && |Binaries(entries).value| == |entries|
    ensures forall k :: 0 <= k < |entries| ==>
              var e := entries[k];
              BuildColumn(Binaries(entries).value[k], e.vector.dtype, |e.vector.elems|) == Ok(e.vector.elems)
  {
    forall k | 0 <= k < |entries|
      ensures BinaryOf(entries[k].vector).Ok?
      ensures BuildColumn(BinaryOf(entries[k].vector).value, entries[k].vector.dtype, |entries[k].vector.elems|) ==
              Ok(entries[k].vector.elems)
    {
      BinaryBuilds(entries[k].vector);
    }
    BinariesMean(entries);
  }

  lemma TypedBuilds(sorted: seq<Entry>, binaries: seq<seq<Byte>>, length: nat)
    requires WellFormed(sorted) && AllTyped(sorted) && sorted != [] && Binaries(sorted) == Ok(binaries)
    requires forall k :: 0 <= k < |sorted| ==> |sorted[k].vector.elems| == length
    ensures NativeBatch(Names(sorted), binaries, DTypes(sorted), length) == Ok(ColumnsFor(sorted))
  {
    TypedBinaries(sorted);
    var columns := ColumnsFor(sorted);
    BuiltColumns(Names(sorted), binaries, DTypes(sorted), length, columns, 0);
    assert columns[0..] == columns;
  }

  /** The sorted entries are of types, sizes and elements as the entries are. */
  lemma SortedAlike(entries: seq<Entry>)
    requires Distinct(EntryName, entries) && WellFormed(entries)
    ensures var sorted := SortBy(EntryName, entries);
      && Increasing(EntryName, sorted) && SameElements(sorted, entries) && |sorted| == |entries|
      && WellFormed(sorted) && (AllTyped(sorted) <==> AllTyped(entries)) && (OneSize(sorted) <==> OneSize(entries))
  {
    Sorted(EntryName, entries);
    var sorted := SortBy(EntryName, entries);
    assert forall k :: 0 <= k < |sorted| ==> sorted[k] in entries;
    assert forall k :: 0 <= k < |entries| ==> entries[k] in sorted;
  }

  /** Tensors under distinct names. A type without a column type is refused first, then an empty map, then
      unequal sizes; otherwise the batch has one column for each tensor, in the order of the names. */
  lemma FromTensorsIsExact(entries: seq<Entry>)
    requires Distinct(EntryName, entries) && WellFormed(entries)
    ensures !AllTyped(entries) ==> FromTensors(entries) == Err(UnsupportedType)
    ensures entries == [] ==> FromTensors(entries) == Err(NoTensors)
    ensures AllTyped(entries) && !OneSize(entries) ==> FromTensors(entries) == Err(SizesDiffer)
    ensures entries != [] && AllTyped(entries) && OneSize(entries) ==>
              exists sorted :: Increasing(EntryName, sorted) && SameElements(sorted, entries) &&
                               FromTensors(entries) == Ok(ColumnsFor(sorted))
  {
    SortedAlike(entries);
    var sorted := SortBy(EntryName, entries);
    if !AllTyped(entries) {
      UntypedFails(sorted);
    } else {
      TypedBinaries(sorted);
      if sorted != [] && OneSize(sorted) {
        TypedBuilds(sorted, Binaries(sorted).value, |sorted[0].vector.elems|);
      }
    }
  }

  // ---- a batch to a tensor -------------------------------------------------------------------------------

  predicate IsNumericColumn(batch: seq<ListColumn>, k: int) {
    0 <= k < |batch| && Numeric(batch[k].dtype)
  }

  lemma {:induction false} NumericNamesDistinct(batch: seq<ListColumn>)
    requires forall i, j :: 0 <= i < j < |batch| ==> batch[i].name != batch[j].name
    ensures Distinct(Self, NumericNames(batch))
  {
    if batch != [] {
      var rest := batch[1..];
      assert forall k :: 0 <= k < |rest| ==> rest[k] == batch[k + 1];
      NumericNamesDistinct(rest);
      NumericNamesExact(rest);
      if Numeric(batch[0].dtype) {
        var names := NumericNames(rest);
        forall k | 0 <= k < |names|
          ensures names[k] != batch[0].name
        {
          assert names[k] in names;
        }
        DistinctFirst(batch[0].name, names);
      }
    }
  }

  lemma DistinctFirst(name: string, names: seq<string>)
    requires Distinct(Self, names) && forall k :: 0 <= k < |names| ==> names[k] != name
    ensures Distinct(Self, [name] + names)
  {
    var all := [name] + names;
    assert forall k :: 0 < k < |all| ==> all[k] == names[k - 1];
  }

  lemma {:induction false} NumericNamesExact(batch: seq<ListColumn>)
    requires forall i, j :: 0 <= i < j < |batch| ==> batch[i].name != batch[j].name
    ensures forall k :: IsNumericColumn(batch, k) ==> batch[k].name in NumericNames(batch)
    ensures forall name :: name in NumericNames(batch) ==>
              exists k :: IsNumericColumn(batch, k) && batch[k].name == name
  {
    if batch != [] {
      var rest := batch[1..];
      assert forall k :: 0 <= k < |rest| ==> rest[k] == batch[k + 1];
      NumericNamesExact(rest);
      forall k | IsNumericColumn(batch, k)
        ensures batch[k].name in NumericNames(batch)
      {
        assert k > 0 ==> IsNumericColumn(rest, k - 1);
      }
      forall name | name in NumericNames(batch)
        ensures exists k :: IsNumericColumn(batch, k) && batch[k].name == name
      {
        if name in NumericNames(rest) {
          var k :| IsNumericColumn(rest, k) && rest[k].name == name;
          assert IsNumericColumn(batch, k + 1);
        } else {
          assert IsNumericColumn(batch, 0);
        }
      }
    }
  }

  function TensorType(batch: seq<ListColumn>, k: int): DType
    requires IsNumericColumn(batch, k)
  {
    NxType(batch[k].dtype)
  }

  function Elements(batch: seq<ListColumn>, k: int): seq<Cell>
    requires IsNumericColumn(batch, k)
  {
    NxElems(batch[k].dtype, batch[k].cells)
  }

  ghost predicate OneType(batch: seq<ListColumn>) {
    forall j, k :: IsNumericColumn(batch, j) && IsNumericColumn(batch, k) ==>
      TensorType(batch, j) == TensorType(batch, k)
  }

  ghost predicate OneLength(batch: seq<ListColumn>) {
    forall j, k :: IsNumericColumn(batch, j) && IsNumericColumn(batch, k) ==>
      |Elements(batch, j)| == |Elements(batch, k)|
  }

  /** The tensor stacks the numeric columns in the order of their names. */
  ghost predicate Stacks(t: Tensor, batch: seq<ListColumn>, names: seq<string>) {
    && t.Rank2? && t.cols == |names| && Increasing(Self, names)
    && (forall name :: name in names <==> exists k :: IsNumericColumn(batch, k) && batch[k].name == name)
    && (forall k :: IsNumericColumn(batch, k) ==> t.dtype == TensorType(batch, k) && |t.rows| == |Elements(batch, k)|)
    && (forall r :: 0 <= r < |t.rows| ==> |t.rows[r]| == t.cols)
    && (forall c, k :: 0 <= c < t.cols && IsNumericColumn(batch, k) && batch[k].name == names[c] ==>
          HasColumn(t, c, Elements(batch, k)))
  }

  predicate HasColumn(t: Tensor, c: int, elems: seq<Cell>) {
    t.Rank2? && |t.rows| == |elems| &&
    forall r :: 0 <= r < |t.rows| ==> 0 <= c < |t.rows[r]| && t.rows[r][c] == elems[r]
  }

  /** The sorted names and the map, column by column. */
  lemma NamesAndTensors(batch: seq<ListColumn>)
    requires Readable(batch)
    ensures var names := SortBy(Self, NumericNames(batch));
      && Increasing(Self, names)
      && (forall name :: name in names <==> exists k :: IsNumericColumn(batch, k) && batch[k].name == name)
    ensures ToTensors(batch).Ok?
    ensures forall k :: IsNumericColumn(batch, k) ==>
              batch[k].name in ToTensors(batch).value &&
              ToTensors(batch).value[batch[k].name] == Vector(TensorType(batch, k), Elements(batch, k))
  {
    NumericNamesDistinct(batch);
    NumericNamesExact(batch);
    Sorted(Self, NumericNames(batch));
    TensorsOfBatch(batch);
  }

  lemma ColumnNamed(batch: seq<ListColumn>, names: seq<string>, c: nat) returns (k: int)
    requires Readable(batch) && names == SortBy(Self, NumericNames(batch)) && c < |names|
    ensures IsNumericColumn(batch, k) && batch[k].name == names[c]
  {
    NamesAndTensors(batch);
    assert names[c] in names;
    k :| IsNumericColumn(batch, k) && batch[k].name == names[c];
  }

  lemma PlaceOf(batch: seq<ListColumn>, names: seq<string>, k: int) returns (c: nat)
    requires Readable(batch) && names == SortBy(Self, NumericNames(batch)) && IsNumericColumn(batch, k)
    ensures c < |names| && names[c] == batch[k].name
  {
    NamesAndTensors(batch);
    assert batch[k].name in names;
    c :| 0 <= c < |names| && names[c] == batch[k].name;
  }

  /** A batch of distinct column names. Without numeric columns there is no tensor; one gives its elements;
      several of different types are refused, and of one type and size are stacked in the order of their
      names. */
  lemma ToNxIsExact(batch: seq<ListColumn>)
    requires Readable(batch)
    ensures (forall k :: !IsNumericColumn(batch, k)) ==> ToNx(batch) == Err(NoNumericColumns)
    ensures forall k :: IsNumericColumn(batch, k) && (forall j :: IsNumericColumn(batch, j) ==> j == k) ==>
              ToNx(batch) == Ok(Rank1(TensorType(batch, k), Elements(batch, k)))
    ensures Several(batch) && !OneType(batch) ==> ToNx(batch) == Err(MixedTypes)
    ensures Several(batch) && OneType(batch) && !OneLength(batch) ==> ToNx(batch) == Err(SizesDiffer)
    ensures Several(batch) && OneType(batch) && OneLength(batch) ==>
              ToNx(batch).Ok? && exists names :: Stacks(ToNx(batch).value, batch, names)
  {
    NamesAndTensors(batch);
    var names := SortBy(Self, NumericNames(batch));
    if names == [] {
      forall k
        ensures !IsNumericColumn(batch, k)
      {
        NoPlace(batch, names, k);
      }
    } else if |names| == 1 {
      OneTensor(batch, names);
    } else {
      SeveralNames(batch, names);
      SeveralTensors(batch, names);
    }
  }

  ghost predicate Several(batch: seq<ListColumn>) {
    exists j, k :: IsNumericColumn(batch, j) && IsNumericColumn(batch, k) && j != k
  }

  lemma NoPlace(batch: seq<ListColumn>, names: seq<string>, k: int)
    requires Readable(batch) && names == SortBy(Self, NumericNames(batch)) && names == []
    ensures !IsNumericColumn(batch, k)
  {
    NamesAndTensors(batch);
    if IsNumericColumn(batch, k) {
      var c := PlaceOf(batch, names, k);
    }
  }

  lemma OneTensor(batch: seq<ListColumn>, names: seq<string>)
    requires Readable(batch) && names == SortBy(Self, NumericNames(batch)) && |names| == 1
    ensures !Several(batch)
    ensures forall k :: IsNumericColumn(batch, k) ==> ToNx(batch) == Ok(Rank1(TensorType(batch, k), Elements(batch, k)))
    ensures exists k :: IsNumericColumn(batch, k)
  {
    var only := ColumnNamed(batch, names, 0);
    ColumnIsFound(batch, only);
    forall k | IsNumericColumn(batch, k)
      ensures k == only
    {
      var c := PlaceOf(batch, names, k);
    }
  }

  lemma SeveralNames(batch: seq<ListColumn>, names: seq<string>)
    requires Readable(batch) && names == SortBy(Self, NumericNames(batch)) && |names| > 1
    ensures Several(batch)
    ensures exists k :: IsNumericColumn(batch, k)
  {
    NamesAndTensors(batch);
    var j := ColumnNamed(batch, names, 0);
    var k := ColumnNamed(batch, names, 1);
    Strings.StrLtIrreflexive(names[0]);
    assert Strings.StrLt(Self(names[0]), Self(names[1]));
    assert j != k;
  }

  lemma SeveralTensors(batch: seq<ListColumn>, names: seq<string>)
    requires Readable(batch) && names == SortBy(Self, NumericNames(batch)) && |names| > 1
    ensures !OneType(batch) ==> ToNx(batch) == Err(MixedTypes)
    ensures OneType(batch) && !OneLength(batch) ==> ToNx(batch) == Err(SizesDiffer)
    ensures OneType(batch) && OneLength(batch) ==> ToNx(batch).Ok? && Stacks(ToNx(batch).value, batch, names)
  {
    NamesAndTensors(batch);
    var m := ToTensors(batch).value;
    forall c | 0 <= c < |names|
      ensures names[c] in m
    {
      var k := ColumnNamed(batch, names, c);
    }
    TypesByName(batch, names, m);
    LengthsByName(batch, names, m);
    if OneType(batch) && OneLength(batch) {
      var first := ColumnNamed(batch, names, 0);
      StackedByName(batch, names, m);
    }
  }

  predicate Tensors(batch: seq<ListColumn>, names: seq<string>, m: map<string, Vector>) {
    Readable(batch) && names == SortBy(Self, NumericNames(batch)) && names != [] &&
    ToTensors(batch) == Ok(m) && Fetchable(names, m)
  }

  lemma VectorOf(batch: seq<ListColumn>, names: seq<string>, m: map<string, Vector>, c: nat) returns (k: int)
    requires Tensors(batch, names, m) && c < |names|
    ensures IsNumericColumn(batch, k) && batch[k].name == names[c]
    ensures m[names[c]] == Vector(TensorType(batch, k), Elements(batch, k))
  {
    NamesAndTensors(batch);
    k := ColumnNamed(batch, names, c);
  }

  lemma TypesByName(batch: seq<ListColumn>, names: seq<string>, m: map<string, Vector>)
    requires Tensors(batch, names, m)
    ensures OneType(batch) <==> forall c :: 0 <= c < |names| ==> m[names[c]].dtype == m[names[0]].dtype
  {
    if OneType(batch) {
      forall c | 0 <= c < |names|
        ensures m[names[c]].dtype == m[names[0]].dtype
      {
        var i := VectorOf(batch, names, m, 0);
        var k := VectorOf(batch, names, m, c);
      }
    }
    if forall c :: 0 <= c < |names| ==> m[names[c]].dtype == m[names[0]].dtype {
      NamesAndTensors(batch);
      forall k | IsNumericColumn(batch, k)
        ensures TensorType(batch, k) == m[names[0]].dtype
      {
        var c := PlaceOf(batch, names, k);
      }
    }
  }

  lemma LengthsByName(batch: seq<ListColumn>, names: seq<string>, m: map<string, Vector>)
    requires Tensors(batch, names, m)
    ensures OneLength(batch) <==> forall c :: 0 <= c < |names| ==> |m[names[c]].elems| == |m[names[0]].elems|
  {
    if OneLength(batch) {
      forall c | 0 <= c < |names|
        ensures |m[names[c]].elems| == |m[names[0]].elems|
      {
        var i := VectorOf(batch, names, m, 0);
        var k := VectorOf(batch, names, m, c);
      }
    }
    if forall c :: 0 <= c < |names| ==> |m[names[c]].elems| == |m[names[0]].elems| {
      NamesAndTensors(batch);
      forall k | IsNumericColumn(batch, k)
        ensures |Elements(batch, k)| == |m[names[0]].elems|
      {
        var c := PlaceOf(batch, names, k);
      }
    }
  }

  lemma StackedByName(batch: seq<ListColumn>, names: seq<string>, m: map<string, Vector>)
    requires Tensors(batch, names, m) && OneType(batch) && OneLength(batch)
    requires forall c :: 0 <= c < |names| ==> |m[names[c]].elems| == |m[names[0]].elems|
    ensures var rows := |m[names[0]].elems|;
      Stacks(Rank2(m[names[0]].dtype, |names|, Stack(names, m, rows)), batch, names)
  {
    NamesAndTensors(batch);
    var first := VectorOf(batch, names, m, 0);
    var rows := |m[names[0]].elems|;
    var t := Rank2(m[names[0]].dtype, |names|, Stack(names, m, rows));
    forall c, k | 0 <= c < t.cols && IsNumericColumn(batch, k) && batch[k].name == names[c]
      ensures HasColumn(t, c, Elements(batch, k))
    {
      assert m[names[c]] == Vector(TensorType(batch, k), Elements(batch, k));
    }
  }
}
