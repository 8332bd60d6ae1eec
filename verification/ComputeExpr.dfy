/** The residual expression evaluator (compute.rs): typed values column by column, and a proof
    that it computes, at every row, the strict two-valued reading of the expression. */
module ComputeExpr {
  import opened Wrappers
  import opened Arrow
  import opened Literals

  datatype Op = CmpOp(cmp: Arrow.CmpOp) | AndOp | OrOp | NotOp

  datatype Expr = FieldRef(name: string) | Scalar(lit: Literal) | Call(op: Op, args: seq<Expr>)

  /** What `decode_expr` guarantees: `not` has one argument, every other operator two. */
  predicate Decoded(e: Expr) {
    e.Call? ==> |e.args| == (if e.op.NotOp? then 1 else 2) && forall k :: 0 <= k < |e.args| ==> Decoded(e.args[k])
  }

  datatype Value = Array(col: Column) | Lit(lit: Literal)

  // ---- the code --------------------------------------------------------------------------------

  function EvalValue(b: Batch, e: Expr): Result<Value, EvalError>
    requires b.Valid() && Decoded(e)
  {
    match e
    case FieldRef(name) =>
      (match ColumnByName(b, name)
       case None => Err(ColumnNotFound(name))
       case Some(col) => Ok(Array(col)))
    case Scalar(lit) => Ok(Lit(lit))
    case Call(AndOp, args) =>
      var l :- EvalValue(b, args[0]);
      var left :- ValueAsBool(l, b.rows);
      var r :- EvalValue(b, args[1]);
      var right :- ValueAsBool(r, b.rows);
      Ok(Array(MaskColumn(AndMask(left, right))))
    case Call(OrOp, args) =>
      var l :- EvalValue(b, args[0]);
      var left :- ValueAsBool(l, b.rows);
      var r :- EvalValue(b, args[1]);
      var right :- ValueAsBool(r, b.rows);
      Ok(Array(MaskColumn(OrMask(left, right))))
    case Call(NotOp, args) =>
      var v :- EvalValue(b, args[0]);
      var inner :- ValueAsBool(v, b.rows);
      Ok(Array(MaskColumn(NotMask(inner))))
    case Call(CmpOp(cmp), args) =>
      var l :- EvalValue(b, args[0]);
      var r :- EvalValue(b, args[1]);
      var mask :- EvalCmp(l, r, cmp, b.rows);
      Ok(Array(MaskColumn(mask)))
  }

  function EvalToBool(b: Batch, e: Expr): Result<Mask, EvalError>
    requires b.Valid() && Decoded(e)
  {
    var v :- EvalValue(b, e);
    ValueAsBool(v, b.rows)
  }

  function ValueAsBool(v: Value, len: nat): (r: Result<Mask, EvalError>)
    ensures r.Ok? ==> |r.value| == len
  {
    match v
    case Array(col) =>
      if col.dtype != Boolean then Err(NotBoolean)
      else if |col.cells| != len then Err(MaskLength)
      else Ok(seq(len, i requires 0 <= i < len =>
        if col.cells[i].None? then None else Some(col.cells[i].value == BoolCell(true))))
    case Lit(BoolLit(b)) => Ok(seq(len, i => Some(b)))
    case Lit(_) => Err(NotBoolean)
  }

  function MaskColumn(m: Mask): Column {
    Column(Boolean, seq(|m|, i requires 0 <= i < |m| => if m[i].None? then None else Some(BoolCell(m[i].value))))
  }

  function EvalCmp(left: Value, right: Value, op: Arrow.CmpOp, len: nat): Result<Mask, EvalError> {
    match (left, right)
    case (Array(l), Array(r)) =>
      if |l.cells| != |r.cells| then Err(ArrayLengths)
      else if l.dtype != r.dtype || IsNested(l.dtype) then Err(CannotCompare)
      else Ok(seq(|l.cells|, i requires 0 <= i < |l.cells| => CompareOptional(op, l.cells[i], r.cells[i])))
    case (Array(l), Lit(s)) =>
      var scalar :- MakeScalarArray(s, l.dtype);
      Ok(seq(|l.cells|, i requires 0 <= i < |l.cells| => CompareOptional(op, l.cells[i], Some(scalar))))
    case (Lit(s), Array(r)) =>
      var scalar :- MakeScalarArray(s, r.dtype);
      Ok(seq(|r.cells|, i requires 0 <= i < |r.cells| => CompareOptional(op, Some(scalar), r.cells[i])))
    case (Lit(l), Lit(r)) =>
      var flag :- LitCompare(op, l, r);
      Ok(seq(len, i => Some(flag)))
  }

  /** The comparison kernels refuse structs and lists. */
  predicate IsNested(t: DataType) {
    t.OtherType? && (t.kind.ListKind? || t.kind.LargeListKind? || t.kind.StructKind? || t.kind == UnknownKind(true))
  }

  /** All other types compare with themselves. */
  lemma NestedTypes(t: DataType)
    ensures IsNested(t) <==>
            t.OtherType? && t.kind !in {
              NullKind, Float16Kind, BinaryKind, LargeBinaryKind, Time32Kind, Time64Kind, DurationKind,
              Decimal128Kind, Decimal256Kind, DictionaryKind, UnknownKind(false)}
  {
  }

  function CompareOptional(op: Arrow.CmpOp, a: Option<Cell>, b: Option<Cell>): Option<bool> {
    if a.Some? && b.Some? then Some(Compare(op, a.value, b.value)) else None
  }

  // ---- the reference: static types, null rows, truth ---------------------------------------------

  datatype StaticType = ArrayOf(t: DataType) | LitOf(lit: Literal)

  /** The type an expression evaluates to against a schema, or the error evaluation reports. */
  function TypeOf(schema: seq<Field>, e: Expr): Result<StaticType, EvalError>
    requires Decoded(e)
  {
    match e
    case FieldRef(name) =>
      (match FieldIndex(schema, name)
       case None => Err(ColumnNotFound(name))
       case Some(k) => Ok(ArrayOf(schema[k].dtype)))
    case Scalar(lit) => Ok(LitOf(lit))
    case Call(NotOp, args) =>
      var t :- TypeOf(schema, args[0]);
      if IsBool(t) then Ok(ArrayOf(Boolean)) else Err(NotBoolean)
    case Call(CmpOp(_), args) =>
      var l :- TypeOf(schema, args[0]);
      var r :- TypeOf(schema, args[1]);
      (match CmpFault(l, r) case Some(err) => Err(err) case None => Ok(ArrayOf(Boolean)))
    case Call(_, args) =>
      var l :- TypeOf(schema, args[0]);
      if !IsBool(l) then Err(NotBoolean)
      else
        var r :- TypeOf(schema, args[1]);
        if IsBool(r) then Ok(ArrayOf(Boolean)) else Err(NotBoolean)
  }

  predicate IsBool(t: StaticType) {
    match t
    case ArrayOf(dt) => dt == Boolean
    case LitOf(lit) => lit.BoolLit?
  }

  function CmpFault(l: StaticType, r: StaticType): Option<EvalError> {
    match (l, r)
    case (ArrayOf(a), ArrayOf(b)) => if a != b || IsNested(a) then Some(CannotCompare) else None
    case (ArrayOf(a), LitOf(s)) => FaultOf(MakeScalarArray(s, a))
    case (LitOf(s), ArrayOf(b)) => FaultOf(MakeScalarArray(s, b))
    case (LitOf(x), LitOf(y)) => FaultOf(LitCompare(Eq, x, y))
  }

  function FaultOf<T>(r: Result<T, EvalError>): Option<EvalError> {
    if r.Err? then Some(r.error) else None
  }

  /** Some field the expression reads, anywhere, is null at this row. */
  predicate NullAt(b: Batch, row: nat, e: Expr)
    requires b.Valid() && row < b.rows
  {
    match e
    case FieldRef(name) => CellAt(b, name, row).None?
    case Scalar(_) => false
    case Call(_, args) => exists k :: 0 <= k < |args| && NullAt(b, row, args[k])
  }

  predicate IsTrue(c: Cell) { c == BoolCell(true) }

  /** The value of the expression at a row with no null in sight; connectives are two-valued. */
  function ValueAt(b: Batch, row: nat, e: Expr): Cell
    requires b.Valid() && row < b.rows && Decoded(e)
  {
    match e
    case FieldRef(name) => if CellAt(b, name, row).Some? then CellAt(b, name, row).value else BoolCell(false)
    case Scalar(lit) => BoolCell(lit.BoolLit? && lit.b)
    case Call(AndOp, args) => BoolCell(IsTrue(ValueAt(b, row, args[0])) && IsTrue(ValueAt(b, row, args[1])))
    case Call(OrOp, args) => BoolCell(IsTrue(ValueAt(b, row, args[0])) || IsTrue(ValueAt(b, row, args[1])))
    case Call(NotOp, args) => BoolCell(!IsTrue(ValueAt(b, row, args[0])))
    case Call(CmpOp(cmp), args) =>
      var l, r := args[0], args[1];
      if l.Scalar? && r.Scalar? then BoolCell(LitCompare(cmp, l.lit, r.lit) == Ok(true))
      else if l.Scalar? then BoolCell(Compare(cmp, Converted(b.schema, l.lit, r), ValueAt(b, row, r)))
      else if r.Scalar? then BoolCell(Compare(cmp, ValueAt(b, row, l), Converted(b.schema, r.lit, l)))
      else BoolCell(Compare(cmp, ValueAt(b, row, l), ValueAt(b, row, r)))
  }

  /** A literal in the data type of the expression it is compared with. */
  function Converted(schema: seq<Field>, lit: Literal, other: Expr): Cell
    requires Decoded(other)
  {
    match TypeOf(schema, other)
    case Ok(ArrayOf(t)) => (match MakeScalarArray(lit, t) case Ok(c) => c case Err(_) => BoolCell(false))
    case _ => BoolCell(false)
  }

  predicate Truth(b: Batch, row: nat, e: Expr)
    requires b.Valid() && row < b.rows && Decoded(e)
  {
    IsTrue(ValueAt(b, row, e))
  }

  /** The rows a filter by this expression keeps. */
  predicate Keeps(b: Batch, row: nat, e: Expr)
    requires b.Valid() && row < b.rows && Decoded(e)
  {
    !NullAt(b, row, e) && Truth(b, row, e)
  }

  // ---- the evaluator computes the reference --------------------------------------------------------

  function MeaningColumn(b: Batch, t: DataType, e: Expr): Column
    requires b.Valid() && Decoded(e)
  {
    Column(t, seq(b.rows, i requires 0 <= i < b.rows => if NullAt(b, i, e) then None else Some(ValueAt(b, i, e))))
  }

  function ValueSpec(b: Batch, e: Expr): Result<Value, EvalError>
    requires b.Valid() && Decoded(e)
  {
    match TypeOf(b.schema, e)
    case Err(err) => Err(err)
    case Ok(LitOf(lit)) => Ok(Lit(lit))
    case Ok(ArrayOf(t)) => Ok(Array(MeaningColumn(b, t, e)))
  }

  predicate Evaluates(b: Batch, e: Expr)
    requires b.Valid() && Decoded(e)
  {
    && EvalValue(b, e) == ValueSpec(b, e)
    && (TypeOf(b.schema, e).Ok? ==> (TypeOf(b.schema, e).value.LitOf? <==> e.Scalar?))
  }

  /** Evaluation returns the static type's error, or the meaning of the expression at each row. */
  lemma {:induction false} EvalValueMeaning(b: Batch, e: Expr)
    requires b.Valid() && Decoded(e)
    ensures Evaluates(b, e)
    decreases e
  {
    if e.FieldRef? {
      if FieldIndex(b.schema, e.name).Some? {
        var col := ColumnByName(b, e.name).value;
        assert MeaningColumn(b, col.dtype, e).cells == col.cells;
      }
    } else if e.Call? {
      EvalValueMeaning(b, e.args[0]);
      if e.op.NotOp? {
        NotMeaning(b, e);
      } else {
        EvalValueMeaning(b, e.args[1]);
        if e.op.AndOp? {
          AndMeaning(b, e);
        } else if e.op.OrOp? {
          OrMeaning(b, e);
        } else {
          CmpMeaning(b, e);
        }
      }
    }
  }

  /** The mask of a boolean expression, by the reference. */
  function TruthMask(b: Batch, e: Expr): (m: Mask)
    requires b.Valid() && Decoded(e)
    ensures |m| == b.rows
  {
    seq(b.rows, i requires 0 <= i < b.rows => if NullAt(b, i, e) then None else Some(Truth(b, i, e)))
  }

  lemma AsBoolMeaning(b: Batch, e: Expr)
    requires b.Valid() && Decoded(e) && Evaluates(b, e) && TypeOf(b.schema, e).Ok?
    ensures ValueAsBool(ValueSpec(b, e).value, b.rows) ==
            if IsBool(TypeOf(b.schema, e).value) then Ok(TruthMask(b, e)) else Err(NotBoolean)
  {
    var r := ValueAsBool(ValueSpec(b, e).value, b.rows);
    if r.Ok? {
      forall i | 0 <= i < b.rows
        ensures r.value[i] == TruthMask(b, e)[i]
      {
        if e.Scalar? {
          assert !NullAt(b, i, e);
        }
      }
      assert r.value == TruthMask(b, e);
    }
  }

  lemma NullAtArgs(b: Batch, row: nat, e: Expr)
    requires b.Valid() && row < b.rows && e.Call? && 1 <= |e.args| <= 2
    ensures NullAt(b, row, e) <==> NullAt(b, row, e.args[0]) || (|e.args| == 2 && NullAt(b, row, e.args[1]))
  {
  }

  lemma NotMeaning(b: Batch, e: Expr)
    requires b.Valid() && Decoded(e) && e.Call? && e.op.NotOp?
    requires Evaluates(b, e.args[0])
    ensures EvalValue(b, e) == ValueSpec(b, e)
  {
    var x := e.args[0];
    if TypeOf(b.schema, x).Ok? {
      AsBoolMeaning(b, x);
      assert MaskColumn(NotMask(TruthMask(b, x))).cells == MeaningColumn(b, Boolean, e).cells;
    }
  }

  lemma AndMeaning(b: Batch, e: Expr)
    requires b.Valid() && Decoded(e) && e.Call? && e.op.AndOp?
    requires Evaluates(b, e.args[0]) && Evaluates(b, e.args[1])
    ensures EvalValue(b, e) == ValueSpec(b, e)
  {
    var l, r := e.args[0], e.args[1];
    if TypeOf(b.schema, l).Ok? {
      AsBoolMeaning(b, l);
      if TypeOf(b.schema, r).Ok? {
        AsBoolMeaning(b, r);
        var m := AndMask(TruthMask(b, l), TruthMask(b, r));
        forall i | 0 <= i < b.rows
          ensures m[i] == TruthMask(b, e)[i]
        {
          NullAtArgs(b, i, e);
        }
        MaskIsMeaning(b, e, m);
      }
    }
  }

  lemma OrMeaning(b: Batch, e: Expr)
    requires b.Valid() && Decoded(e) && e.Call? && e.op.OrOp?
    requires Evaluates(b, e.args[0]) && Evaluates(b, e.args[1])
    ensures EvalValue(b, e) == ValueSpec(b, e)
  {
    var l, r := e.args[0], e.args[1];
    if TypeOf(b.schema, l).Ok? {
      AsBoolMeaning(b, l);
      if TypeOf(b.schema, r).Ok? {
        AsBoolMeaning(b, r);
        var m := OrMask(TruthMask(b, l), TruthMask(b, r));
        forall i | 0 <= i < b.rows
          ensures m[i] == TruthMask(b, e)[i]
        {
          NullAtArgs(b, i, e);
        }
        MaskIsMeaning(b, e, m);
      }
    }
  }

  lemma MaskIsMeaning(b: Batch, e: Expr, m: Mask)
    requires b.Valid() && Decoded(e) && e.Call? && m == TruthMask(b, e)
    ensures MaskColumn(m) == MeaningColumn(b, Boolean, e)
  {
    assert MaskColumn(m).cells == MeaningColumn(b, Boolean, e).cells;
  }

  lemma CmpMeaning(b: Batch, e: Expr)
    requires b.Valid() && Decoded(e) && e.Call? && e.op.CmpOp?
    requires Evaluates(b, e.args[0]) && Evaluates(b, e.args[1])
    ensures EvalValue(b, e) == ValueSpec(b, e)
  {
    var l, r := e.args[0], e.args[1];
    if TypeOf(b.schema, l).Ok? && TypeOf(b.schema, r).Ok? {
      var mask := EvalCmp(ValueSpec(b, l).value, ValueSpec(b, r).value, e.op.cmp, b.rows);
      assert mask.Ok? <==> CmpFault(TypeOf(b.schema, l).value, TypeOf(b.schema, r).value).None?;
      if mask.Ok? {
        forall i | 0 <= i < b.rows
          ensures mask.value[i] == TruthMask(b, e)[i]
        {
          CmpAt(b, e, i);
        }
        MaskIsMeaning(b, e, mask.value);
      }
    }
  }

  lemma CmpAt(b: Batch, e: Expr, row: nat)
    requires b.Valid() && row < b.rows && Decoded(e) && e.Call? && e.op.CmpOp?
    requires Evaluates(b, e.args[0]) && Evaluates(b, e.args[1])
    requires TypeOf(b.schema, e.args[0]).Ok? && TypeOf(b.schema, e.args[1]).Ok?
    requires EvalCmp(ValueSpec(b, e.args[0]).value, ValueSpec(b, e.args[1]).value, e.op.cmp, b.rows).Ok?
    ensures var mask := EvalCmp(ValueSpec(b, e.args[0]).value, ValueSpec(b, e.args[1]).value, e.op.cmp, b.rows).value;
      |mask| == b.rows && mask[row] == if NullAt(b, row, e) then None else Some(Truth(b, row, e))
  {
    NullAtArgs(b, row, e);
    var l, r := e.args[0], e.args[1];
    assert l.Scalar? ==> !NullAt(b, row, l);
    assert r.Scalar? ==> !NullAt(b, row, r);
  }

  /** Null semantics of a filter expression, on every batch: evaluation succeeds exactly when the
      expression is boolean for the schema; the mask has one entry a row, null exactly where some
      field read is null, and otherwise the two-valued truth; the filter keeps exactly the rows
      with no null that are true. */
  lemma FilterMeaning(b: Batch, e: Expr)
    requires b.Valid() && Decoded(e)
    ensures EvalToBool(b, e).Ok? <==> TypeOf(b.schema, e).Ok? && IsBool(TypeOf(b.schema, e).value)
    ensures EvalToBool(b, e).Ok? ==> var m := EvalToBool(b, e).value;
      && |m| == b.rows
      && (forall i :: 0 <= i < b.rows ==> (m[i].None? <==> NullAt(b, i, e)))
      && (forall i :: 0 <= i < b.rows && m[i].Some? ==> (m[i].value <==> Truth(b, i, e)))
      && (forall i :: 0 <= i < b.rows ==> (i in Kept(m) <==> Keeps(b, i, e)))
  {
    EvalValueMeaning(b, e);
    if TypeOf(b.schema, e).Ok? {
      AsBoolMeaning(b, e);
    }
  }

  // ---- only the row matters, and only the columns read ---------------------------------------------------

  /** Equal rows have equal values, whatever batches they come in. */
  lemma {:induction false} SameRowValue(b: Batch, i: nat, c: Batch, k: nat, e: Expr)
    requires b.Valid() && c.Valid() && i < b.rows && k < c.rows && SameRow(b, i, c, k) && Decoded(e)
    ensures NullAt(b, i, e) == NullAt(c, k, e) && ValueAt(b, i, e) == ValueAt(c, k, e)
    decreases e
  {
    if e.Call? {
      forall n | 0 <= n < |e.args|
        ensures NullAt(b, i, e.args[n]) == NullAt(c, k, e.args[n])
        ensures ValueAt(b, i, e.args[n]) == ValueAt(c, k, e.args[n])
      {
        SameRowValue(b, i, c, k, e.args[n]);
      }
    }
  }

  /** The fields an expression reads. */
  function Fields(e: Expr): set<string> {
    match e
    case FieldRef(name) => {name}
    case Scalar(_) => {}
    case Call(_, args) => set k, f | 0 <= k < |args| && f in Fields(args[k]) :: f
  }

  predicate FieldsIn(e: Expr, names: seq<string>) {
    forall f :: f in Fields(e) ==> f in names
  }

  lemma ArgumentFields(e: Expr, names: seq<string>)
    requires e.Call?
    ensures FieldsIn(e, names) <==> forall k :: 0 <= k < |e.args| ==> FieldsIn(e.args[k], names)
  {
    if forall k :: 0 <= k < |e.args| ==> FieldsIn(e.args[k], names) {
      forall f | f in Fields(e)
        ensures f in names
      {
        var k :| 0 <= k < |e.args| && f in Fields(e.args[k]);
        assert FieldsIn(e.args[k], names);
      }
    }
    if FieldsIn(e, names) {
      forall k, f | 0 <= k < |e.args| && f in Fields(e.args[k])
        ensures f in names
      {
        assert f in Fields(e);
      }
    }
  }

  /** A projection onto columns that include all fields read changes nothing. */
  lemma {:induction false} ProjectedType(b: Batch, names: seq<string>, e: Expr)
    requires b.Valid() && Decoded(e) && FieldsIn(e, names)
    ensures TypeOf(Project(b, names).schema, e) == TypeOf(b.schema, e)
    decreases e
  {
    match e {
      case FieldRef(name) => ProjectKeepsColumn(b, names, name);
      case Scalar(_) =>
      case Call(op, args) =>
        ArgumentFields(e, names);
        ProjectedType(b, names, args[0]);
        if |args| == 2 {
          ProjectedType(b, names, args[1]);
        }
    }
  }

  lemma {:induction false} ProjectedValue(b: Batch, names: seq<string>, row: nat, e: Expr)
    requires b.Valid() && row < b.rows && Decoded(e) && FieldsIn(e, names)
    ensures NullAt(Project(b, names), row, e) == NullAt(b, row, e)
    ensures ValueAt(Project(b, names), row, e) == ValueAt(b, row, e)
    decreases e
  {
    match e {
      case FieldRef(name) => ProjectKeepsColumn(b, names, name);
      case Scalar(_) =>
      case Call(op, args) =>
        ArgumentFields(e, names);
        NullAtArgs(b, row, e);
        NullAtArgs(Project(b, names), row, e);
        ProjectedValue(b, names, row, args[0]);
        ProjectedType(b, names, args[0]);
        if |args| == 2 {
          ProjectedValue(b, names, row, args[1]);
          ProjectedType(b, names, args[1]);
        }
    }
  }

  /** And one that misses a field makes evaluation fail: an expression that evaluates on all columns
      evaluates on a projection exactly when the projection includes every field it reads. */
  lemma {:induction false} ProjectionIsExact(b: Batch, names: seq<string>, e: Expr)
    requires b.Valid() && Decoded(e) && TypeOf(b.schema, e).Ok?
    ensures TypeOf(Project(b, names).schema, e).Ok? <==> FieldsIn(e, names)
    decreases e
  {
    match e {
      case FieldRef(name) =>
        if name in names {
          ProjectKeepsColumn(b, names, name);
        } else {
          ProjectDropsColumn(b, names, name);
        }
        assert FieldsIn(e, names) <==> name in names;
      case Scalar(_) =>
      case Call(op, args) =>
        ArgumentFields(e, names);
        ProjectionIsExact(b, names, args[0]);
        if |args| == 2 {
          ProjectionIsExact(b, names, args[1]);
        }
        if FieldsIn(e, names) {
          ProjectedType(b, names, e);
        }
    }
  }
}
