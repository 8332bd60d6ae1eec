/** The Parquet predicate and the residual expression are two evaluators of one language: a
    filter tree and any nesting of binary calls that stands for it give the same mask. */
module EvaluatorAgreement {
  import opened Wrappers
  import opened Arrow
  import opened Literals
  import F = ParquetFilter
  import E = ComputeExpr

  /** The comparison with its two sides exchanged (`flip_op` of expression.ex). */
  function Flip(op: CmpOp): CmpOp {
    match op
    case Eq => Eq
    case Ne => Ne
    case Gt => Lt
    case Gte => Lte
    case Lt => Gt
    case Lte => Gte
  }

  predicate LeafForm(e: E.Expr, op: CmpOp, col: string, value: Literal) {
    || e == E.Call(E.CmpOp(op), [E.FieldRef(col), E.Scalar(value)])
    || e == E.Call(E.CmpOp(Flip(op)), [E.Scalar(value), E.FieldRef(col)])
  }

  /** `e` stands for `f`: comparisons either way round, and each n-ary connective as any tree of
      binary calls over its children in order. */
  ghost predicate Translates(e: E.Expr, f: F.FilterExpr)
    decreases e, f
  {
    match f
    case Leaf(op, col, value) => LeafForm(e, op, col, value)
    case And(xs) => Nests(e, E.AndOp, xs)
    case Or(xs) => Nests(e, E.OrOp, xs)
  }

  ghost predicate Nests(e: E.Expr, op: E.Op, xs: seq<F.FilterExpr>)
    decreases e, xs
  {
    if |xs| == 1 then Translates(e, xs[0])
    else
      e.Call? && e.op == op && |e.args| == 2 &&
      exists k :: 0 < k < |xs| && Nests(e.args[0], op, xs[..k]) && Nests(e.args[1], op, xs[k..])
  }

  /** The expression evaluates to a boolean mask against the schema. */
  predicate BooleanFor(schema: seq<Field>, e: E.Expr)
    requires E.Decoded(e)
  {
    E.TypeOf(schema, e).Ok? && E.IsBool(E.TypeOf(schema, e).value)
  }

  // ---- one row -----------------------------------------------------------------------------------

  ghost predicate AgreesAt(b: Batch, row: nat, e: E.Expr, null_: bool, holds: bool)
    requires b.Valid() && row < b.rows && E.Decoded(e)
  {
    && E.NullAt(b, row, e) == null_
    && (!null_ ==> E.Truth(b, row, e) == holds)
  }

  lemma LeafAgrees(b: Batch, row: nat, e: E.Expr, f: F.FilterExpr)
    requires b.Valid() && row < b.rows && f.Leaf? && Translates(e, f) && E.Decoded(e)
    requires F.FirstFault(b.schema, f).None? && BooleanFor(b.schema, e)
    ensures AgreesAt(b, row, e, F.HasNullLeaf(b, row, f), F.Holds(b, row, f))
  {
    E.NullAtArgs(b, row, e);
    var t := b.schema[FieldIndex(b.schema, f.col).value].dtype;
    ScalarsAgree(f.value, t);
    var field, scalar := E.FieldRef(f.col), E.Scalar(f.value);
    assert !E.NullAt(b, row, scalar);
    assert E.TypeOf(b.schema, field) == Ok(E.ArrayOf(t));
    assert E.TypeOf(b.schema, scalar) == Ok(E.LitOf(f.value));
    assert E.Converted(b.schema, f.value, field) == MakeScalar(f.value, t).value;
    if CellAt(b, f.col, row).Some? {
      var c := CellAt(b, f.col, row).value;
      assert E.ValueAt(b, row, field) == c;
      if e.args[0] == field {
        assert E.ValueAt(b, row, e) == BoolCell(Compare(f.op, c, MakeScalar(f.value, t).value));
      } else {
        assert E.ValueAt(b, row, e) == BoolCell(Compare(Flip(f.op), MakeScalar(f.value, t).value, c));
      }
    }
  }

  lemma {:induction false} RowAgrees(b: Batch, row: nat, e: E.Expr, f: F.FilterExpr)
    requires b.Valid() && row < b.rows && Translates(e, f) && E.Decoded(e)
    requires F.FirstFault(b.schema, f).None? && BooleanFor(b.schema, e)
    ensures AgreesAt(b, row, e, F.HasNullLeaf(b, row, f), F.Holds(b, row, f))
    decreases e, f
  {
    if f.Leaf? {
      LeafAgrees(b, row, e, f);
    } else {
      F.NoFault(b.schema, f.children);
      NestingAgrees(b, row, e, if f.And? then E.AndOp else E.OrOp, f.children);
    }
  }

  predicate SomeNull(b: Batch, row: nat, xs: seq<F.FilterExpr>)
    requires b.Valid() && row < b.rows
  {
    exists k :: 0 <= k < |xs| && F.HasNullLeaf(b, row, xs[k])
  }

  /** The connective over the children: all of them for `and`, some of them for `or`. */
  predicate Joined(b: Batch, row: nat, op: E.Op, xs: seq<F.FilterExpr>)
    requires b.Valid() && row < b.rows
  {
    if op.AndOp? then forall k :: 0 <= k < |xs| ==> F.Holds(b, row, xs[k])
    else exists k :: 0 <= k < |xs| && F.Holds(b, row, xs[k])
  }

  lemma SplitChildren(b: Batch, row: nat, op: E.Op, xs: seq<F.FilterExpr>, k: nat)
    requires b.Valid() && row < b.rows && k <= |xs|
    ensures SomeNull(b, row, xs) <==> SomeNull(b, row, xs[..k]) || SomeNull(b, row, xs[k..])
    ensures Joined(b, row, op, xs) <==>
            if op.AndOp? then Joined(b, row, op, xs[..k]) && Joined(b, row, op, xs[k..])
            else Joined(b, row, op, xs[..k]) || Joined(b, row, op, xs[k..])
  {
    var l, r := xs[..k], xs[k..];
    assert forall j :: 0 <= j < |xs| ==> xs[j] == if j < k then l[j] else r[j - k];
    assert forall j :: 0 <= j < |l| ==> l[j] == xs[j];
    assert forall j :: 0 <= j < |r| ==> r[j] == xs[k + j];
  }

  predicate Faultless(schema: seq<Field>, xs: seq<F.FilterExpr>) {
    forall k :: 0 <= k < |xs| ==> F.FirstFault(schema, xs[k]).None?
  }

  /** A nesting of children that evaluate, which evaluates itself. */
  ghost predicate Nesting(schema: seq<Field>, e: E.Expr, op: E.Op, xs: seq<F.FilterExpr>) {
    && Nests(e, op, xs) && (op.AndOp? || op.OrOp?) && E.Decoded(e)
    && Faultless(schema, xs) && BooleanFor(schema, e)
  }

  /** Where a nesting of several children divides them, both sides are such nestings. */
  lemma NestParts(schema: seq<Field>, e: E.Expr, op: E.Op, xs: seq<F.FilterExpr>) returns (k: nat)
    requires |xs| != 1 && Nesting(schema, e, op, xs)
    ensures 0 < k < |xs| && e.Call? && e.op == op && |e.args| == 2
    ensures Nesting(schema, e.args[0], op, xs[..k]) && Nesting(schema, e.args[1], op, xs[k..])
  {
    k :| 0 < k < |xs| && Nests(e.args[0], op, xs[..k]) && Nests(e.args[1], op, xs[k..]);
  }

  lemma OneChild(b: Batch, row: nat, op: E.Op, xs: seq<F.FilterExpr>)
    requires b.Valid() && row < b.rows && |xs| == 1
    ensures SomeNull(b, row, xs) == F.HasNullLeaf(b, row, xs[0])
    ensures Joined(b, row, op, xs) == F.Holds(b, row, xs[0])
  {
  }

  lemma {:induction false} NestingAgrees(b: Batch, row: nat, e: E.Expr, op: E.Op, xs: seq<F.FilterExpr>)
    requires b.Valid() && row < b.rows && Nesting(b.schema, e, op, xs)
    ensures AgreesAt(b, row, e, SomeNull(b, row, xs), Joined(b, row, op, xs))
    decreases e, xs
  {
    if |xs| == 1 {
      RowAgrees(b, row, e, xs[0]);
      OneChild(b, row, op, xs);
    } else {
      var k := NestParts(b.schema, e, op, xs);
      NestingAgrees(b, row, e.args[0], op, xs[..k]);
      NestingAgrees(b, row, e.args[1], op, xs[k..]);
      JoinAgrees(b, row, e, xs, k);
    }
  }

  lemma JoinAgrees(b: Batch, row: nat, e: E.Expr, xs: seq<F.FilterExpr>, k: nat)
    requires b.Valid() && row < b.rows && k <= |xs|
    requires E.Decoded(e) && e.Call? && (e.op.AndOp? || e.op.OrOp?)
    requires AgreesAt(b, row, e.args[0], SomeNull(b, row, xs[..k]), Joined(b, row, e.op, xs[..k]))
    requires AgreesAt(b, row, e.args[1], SomeNull(b, row, xs[k..]), Joined(b, row, e.op, xs[k..]))
    ensures AgreesAt(b, row, e, SomeNull(b, row, xs), Joined(b, row, e.op, xs))
  {
    SplitChildren(b, row, e.op, xs, k);
    E.NullAtArgs(b, row, e);
  }

  // ---- whole masks, and when only one of the two evaluates --------------------------------------------

  /** The two evaluators agree, nulls included, on every batch where both succeed. */
  lemma EvaluatorsAgree(b: Batch, e: E.Expr, f: F.FilterExpr)
    requires b.Valid() && Translates(e, f) && E.Decoded(e)
    requires F.EvalSpec(b, f).Ok? && E.EvalToBool(b, e).Ok?
    ensures F.EvalSpec(b, f) == E.EvalToBool(b, e)
  {
    E.FilterMeaning(b, e);
    var m, n := F.EvalSpec(b, f).value, E.EvalToBool(b, e).value;
    forall i | 0 <= i < b.rows
      ensures m[i] == n[i]
    {
      RowAgrees(b, i, e, f);
    }
    assert m == n;
  }

  /** A comparison of an integer that is not a double with a Float64 column. */
  predicate Rounds(schema: seq<Field>, f: F.FilterExpr) {
    match f
    case Leaf(_, col, value) =>
      value.IntLit? && value.f64 != value.v &&
      FieldIndex(schema, col).Some? && schema[FieldIndex(schema, col).value].dtype.Float64?
    case And(xs) => exists k :: 0 <= k < |xs| && Rounds(schema, xs[k])
    case Or(xs) => exists k :: 0 <= k < |xs| && Rounds(schema, xs[k])
  }

  /** Where the Parquet evaluator succeeds, the expression evaluator fails exactly on such a comparison. */
  lemma {:induction false} OnlyRoundingDiffers(schema: seq<Field>, e: E.Expr, f: F.FilterExpr)
    requires Translates(e, f) && E.Decoded(e) && F.FirstFault(schema, f).None?
    ensures BooleanFor(schema, e) <==> !Rounds(schema, f)
    decreases e, f
  {
    if f.Leaf? {
      var k := FieldIndex(schema, f.col).value;
      ScalarsAgree(f.value, schema[k].dtype);
      var field, scalar := E.FieldRef(f.col), E.Scalar(f.value);
      assert e.args == [field, scalar] || e.args == [scalar, field];
      assert E.TypeOf(schema, field) == Ok(E.ArrayOf(schema[k].dtype));
      assert E.TypeOf(schema, scalar) == Ok(E.LitOf(f.value));
    } else {
      F.NoFault(schema, f.children);
      OnlyRoundingDiffersIn(schema, e, if f.And? then E.AndOp else E.OrOp, f.children);
    }
  }

  predicate SomeRounds(schema: seq<Field>, xs: seq<F.FilterExpr>) {
    exists k :: 0 <= k < |xs| && Rounds(schema, xs[k])
  }

  lemma SplitRounds(schema: seq<Field>, xs: seq<F.FilterExpr>, k: nat)
    requires k <= |xs|
    ensures SomeRounds(schema, xs) <==> SomeRounds(schema, xs[..k]) || SomeRounds(schema, xs[k..])
  {
    var l, r := xs[..k], xs[k..];
    assert forall j :: 0 <= j < |xs| ==> xs[j] == if j < k then l[j] else r[j - k];
    assert forall j :: 0 <= j < |l| ==> l[j] == xs[j];
    assert forall j :: 0 <= j < |r| ==> r[j] == xs[k + j];
  }

  lemma {:induction false} OnlyRoundingDiffersIn(schema: seq<Field>, e: E.Expr, op: E.Op, xs: seq<F.FilterExpr>)
    requires Nests(e, op, xs) && (op.AndOp? || op.OrOp?) && E.Decoded(e)
    requires forall k :: 0 <= k < |xs| ==> F.FirstFault(schema, xs[k]).None?
    ensures BooleanFor(schema, e) <==> !SomeRounds(schema, xs)
    decreases e, xs
  {
    if |xs| == 1 {
      OnlyRoundingDiffers(schema, e, xs[0]);
    } else {
      var k :| 0 < k < |xs| && Nests(e.args[0], op, xs[..k]) && Nests(e.args[1], op, xs[k..]);
      OnlyRoundingDiffersIn(schema, e.args[0], op, xs[..k]);
      OnlyRoundingDiffersIn(schema, e.args[1], op, xs[k..]);
      SplitRounds(schema, xs, k);
    }
  }

  // ---- and when only the expression evaluator does -------------------------------------------------------

  /** The literal and column types the Parquet predicate can compare. */
  predicate ParquetPair(l: Literal, t: DataType) {
    || (l.IntLit? && (t.Int64? || t.Int32? || t.Float64?))
    || (l.FloatLit? && (t.Float64? || t.Float32?))
    || (l.Utf8Lit? && t.Utf8?)
    || (l.BoolLit? && t.Boolean?)
  }

  /** Some comparison of the tree meets a column type outside these pairs. */
  predicate Refused(schema: seq<Field>, f: F.FilterExpr) {
    match f
    case Leaf(_, col, value) =>
      FieldIndex(schema, col).Some? && !ParquetPair(value, schema[FieldIndex(schema, col).value].dtype)
    case And(xs) => exists k :: 0 <= k < |xs| && Refused(schema, xs[k])
    case Or(xs) => exists k :: 0 <= k < |xs| && Refused(schema, xs[k])
  }

  /** Every comparison is one the expression evaluator can make. */
  predicate Convertible(schema: seq<Field>, f: F.FilterExpr) {
    match f
    case Leaf(_, col, value) =>
      FieldIndex(schema, col).Some? && MakeScalarArray(value, schema[FieldIndex(schema, col).value].dtype).Ok?
    case And(xs) => forall k :: 0 <= k < |xs| ==> Convertible(schema, xs[k])
    case Or(xs) => forall k :: 0 <= k < |xs| ==> Convertible(schema, xs[k])
  }

  /** Of what converts for the expression evaluator, the Parquet predicate refuses exactly the pairs it has
      no case for. */
  lemma PairsDecide(l: Literal, t: DataType)
    requires MakeScalarArray(l, t).Ok?
    ensures MakeScalar(l, t).Ok? <==> ParquetPair(l, t)
  {
  }

  lemma {:induction false} RefusalIsByType(schema: seq<Field>, f: F.FilterExpr)
    requires F.Decoded(f) && Convertible(schema, f)
    ensures F.FirstFault(schema, f).Some? <==> Refused(schema, f)
  {
    if f.Leaf? {
      PairsDecide(f.value, schema[FieldIndex(schema, f.col).value].dtype);
    } else {
      forall k | 0 <= k < |f.children|
        ensures F.FirstFault(schema, f.children[k]).Some? <==> Refused(schema, f.children[k])
      {
        RefusalIsByType(schema, f.children[k]);
      }
      F.NoFault(schema, f.children);
    }
  }

  lemma LeafConverts(schema: seq<Field>, e: E.Expr, f: F.FilterExpr)
    requires f.Leaf? && Translates(e, f) && E.Decoded(e) && BooleanFor(schema, e)
    ensures Convertible(schema, f)
  {
    var field, scalar := E.FieldRef(f.col), E.Scalar(f.value);
    assert e.args == [field, scalar] || e.args == [scalar, field];
    assert E.TypeOf(schema, scalar) == Ok(E.LitOf(f.value));
    assert E.TypeOf(schema, field).Ok?;
  }

  predicate AllConvertible(schema: seq<Field>, xs: seq<F.FilterExpr>) {
    forall k :: 0 <= k < |xs| ==> Convertible(schema, xs[k])
  }

  lemma {:induction false} EvaluableConverts(schema: seq<Field>, e: E.Expr, f: F.FilterExpr)
    requires Translates(e, f) && E.Decoded(e) && BooleanFor(schema, e)
    ensures Convertible(schema, f) && F.Decoded(f)
    decreases e, f
  {
    if f.Leaf? {
      LeafConverts(schema, e, f);
    } else {
      NestingConverts(schema, e, if f.And? then E.AndOp else E.OrOp, f.children);
    }
  }

  lemma {:induction false} NestingConverts(schema: seq<Field>, e: E.Expr, op: E.Op, xs: seq<F.FilterExpr>)
    requires Nests(e, op, xs) && (op.AndOp? || op.OrOp?) && E.Decoded(e) && BooleanFor(schema, e)
    ensures xs != [] && AllConvertible(schema, xs) && forall k :: 0 <= k < |xs| ==> F.Decoded(xs[k])
    decreases e, xs
  {
    if |xs| == 1 {
      EvaluableConverts(schema, e, xs[0]);
    } else {
      var k :| 0 < k < |xs| && Nests(e.args[0], op, xs[..k]) && Nests(e.args[1], op, xs[k..]);
      NestingConverts(schema, e.args[0], op, xs[..k]);
      NestingConverts(schema, e.args[1], op, xs[k..]);
      assert forall j :: 0 <= j < |xs| ==> xs[j] == if j < k then xs[..k][j] else xs[k..][j - k];
    }
  }

  /** Where the expression evaluator succeeds, the Parquet evaluator fails exactly if some comparison meets a
      column type outside the pairs it accepts. */
  lemma OnlyTypesDiffer(schema: seq<Field>, e: E.Expr, f: F.FilterExpr)
    requires Translates(e, f) && E.Decoded(e) && BooleanFor(schema, e)
    ensures F.FirstFault(schema, f).Some? <==> Refused(schema, f)
  {
    EvaluableConverts(schema, e, f);
    RefusalIsByType(schema, f);
  }
}
