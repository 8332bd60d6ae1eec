/** The Parquet reader's predicate: a filter tree, its check against a schema, and its
    evaluation on a batch, column by column, with null-propagating connectives (parquet.rs). */
module ParquetFilter {
  import opened Wrappers
  import opened Arrow
  import opened Literals
  import Strings

  /** `Leaf` stands for the six comparison constructors, which carry the same payload. */
  datatype FilterExpr =
    | Leaf(op: CmpOp, col: string, value: Literal)
    | And(children: seq<FilterExpr>)
    | Or(children: seq<FilterExpr>)

  /** What `decode_filter_expr` guarantees: no empty connective. */
  predicate Decoded(e: FilterExpr) {
    e.Leaf? || (e.children != [] && forall k :: 0 <= k < |e.children| ==> Decoded(e.children[k]))
  }

  // ---- the code ------------------------------------------------------------------------------

  /** The first error of a depth-first, left-to-right check of every comparison, if any. */
  function ValidateFilterTypes(schema: seq<Field>, e: FilterExpr): Option<EvalError>
    decreases e, 1
  {
    match e
    case Leaf(_, col, value) => LeafFault(schema, col, value)
    case And(xs) => ValidateAll(schema, xs)
    case Or(xs) => ValidateAll(schema, xs)
  }

  function ValidateAll(schema: seq<Field>, xs: seq<FilterExpr>): Option<EvalError>
    decreases xs, 0
  {
    if xs == [] then None
    else match ValidateFilterTypes(schema, xs[0])
         case Some(err) => Some(err)
         case None => ValidateAll(schema, xs[1..])
  }

  function LeafFault(schema: seq<Field>, col: string, value: Literal): Option<EvalError> {
    match FieldIndex(schema, col)
    case None => Some(ColumnNotFound(col))
    case Some(k) => match MakeScalar(value, schema[k].dtype)
                    case Err(err) => Some(err)
                    case Ok(_) => None
  }

  /** The comparison kernel against a scalar: null where the cell is null. */
  function EvalCmp(col: Column, op: CmpOp, value: Literal): Result<Mask, EvalError> {
    var scalar :- MakeScalar(value, col.dtype);
    Ok(seq(|col.cells|, i requires 0 <= i < |col.cells| =>
      if col.cells[i].None? then None else Some(Compare(op, col.cells[i].value, scalar))))
  }

  /** What evaluation must return: the mask of the row-at-a-time reading below, or the first error. */
  function EvalSpec(b: Batch, e: FilterExpr): Result<Mask, EvalError>
    requires b.Valid()
  {
    match FirstFault(b.schema, e)
    case Some(err) => Err(err)
    case None => Ok(MeaningMask(b, e))
  }

  /** `eval_filter_on_batch`: whole-column masks, folded by the strict connectives. */
  method EvalFilterOnBatch(b: Batch, e: FilterExpr) returns (r: Result<Mask, EvalError>)
    requires b.Valid()
    ensures r == EvalSpec(b, e)
    decreases e, 1
  {
    match e {
      case Leaf(op, col, value) =>
        var column := ColumnByName(b, col);
        if column.None? {
          return Err(ColumnNotFound(col));
        }
        r := EvalCmp(column.value, op, value);
        assert r.Ok? ==> r.value == MeaningMask(b, e);
      case And(children) =>
        r := EvalAnd(b, children);
      case Or(children) =>
        r := EvalOr(b, children);
    }
  }

  /** What the loops have folded: nothing before the first child, then the mask of the children so far. */
  ghost predicate Folded(b: Batch, e: FilterExpr, acc: Option<Mask>)
    requires b.Valid() && !e.Leaf?
  {
    acc == if e.children == [] then None else Some(MeaningMask(b, e))
  }

  ghost predicate Faultless(schema: seq<Field>, xs: seq<FilterExpr>) {
    forall k :: 0 <= k < |xs| ==> FirstFault(schema, xs[k]).None?
  }

  method EvalAnd(b: Batch, children: seq<FilterExpr>) returns (r: Result<Mask, EvalError>)
    requires b.Valid()
    ensures r == EvalSpec(b, And(children))
    decreases children, 0
  {
    var acc: Option<Mask> := None;
    for k := 0 to |children|
      invariant Faultless(b.schema, children[..k]) && Folded(b, And(children[..k]), acc)
    {
      var child := EvalFilterOnBatch(b, children[k]);
      if child.Err? {
        ChildFails(b, children, k);
        return child;
      }
      AndStep(b, children, k, acc);
      acc := if acc.None? then Some(child.value) else Some(AndMask(acc.value, child.value));
    }
    assert children[..|children|] == children;
    AllEvaluate(b, children);
    return if acc.None? then Err(EmptyAnd) else Ok(acc.value);
  }

  method EvalOr(b: Batch, children: seq<FilterExpr>) returns (r: Result<Mask, EvalError>)
    requires b.Valid()
    ensures r == EvalSpec(b, Or(children))
    decreases children, 0
  {
    var acc: Option<Mask> := None;
    for k := 0 to |children|
      invariant Faultless(b.schema, children[..k]) && Folded(b, Or(children[..k]), acc)
    {
      var child := EvalFilterOnBatch(b, children[k]);
      if child.Err? {
        ChildFails(b, children, k);
        return child;
      }
      OrStep(b, children, k, acc);
      acc := if acc.None? then Some(child.value) else Some(OrMask(acc.value, child.value));
    }
    assert children[..|children|] == children;
    AllEvaluate(b, children);
    return if acc.None? then Err(EmptyOr) else Ok(acc.value);
  }

  // ---- the reference: one row at a time, nulls apart from truth ---------------------------------

  /** Some comparison of the tree reads a null cell at this row. */
  predicate HasNullLeaf(b: Batch, row: nat, e: FilterExpr)
    requires b.Valid() && row < b.rows
  {
    match e
    case Leaf(_, col, _) => CellAt(b, col, row).None?
    case And(xs) => exists k :: 0 <= k < |xs| && HasNullLeaf(b, row, xs[k])
    case Or(xs) => exists k :: 0 <= k < |xs| && HasNullLeaf(b, row, xs[k])
  }

  /** The ordinary two-valued reading of the tree at a row. */
  predicate Holds(b: Batch, row: nat, e: FilterExpr)
    requires b.Valid() && row < b.rows
  {
    match e
    case Leaf(op, col, value) => LeafHolds(b, row, op, col, value)
    case And(xs) => forall k :: 0 <= k < |xs| ==> Holds(b, row, xs[k])
    case Or(xs) => exists k :: 0 <= k < |xs| && Holds(b, row, xs[k])
  }

  predicate LeafHolds(b: Batch, row: nat, op: CmpOp, col: string, value: Literal)
    requires b.Valid() && row < b.rows
  {
    match ColumnByName(b, col)
    case None => false
    case Some(column) =>
      column.cells[row].Some? && MakeScalar(value, column.dtype).Ok?
      && Compare(op, column.cells[row].value, MakeScalar(value, column.dtype).value)
  }

  /** A comparison at a row, spelled out: null where the first column of that name is, and otherwise the
      operator's reading of which of the cell and the converted literal comes first. */
  lemma LeafMeaning(b: Batch, row: nat, op: CmpOp, col: string, value: Literal, j: nat)
    requires b.Valid() && row < b.rows && NamedFirst(b.schema, col, j) && MakeScalar(value, b.schema[j].dtype).Ok?
    ensures b.columns[j].cells[row].None? ==> Meaning(b, row, Leaf(op, col, value)) == None
    ensures b.columns[j].cells[row].Some? ==>
              var c, x := b.columns[j].cells[row].value, MakeScalar(value, b.schema[j].dtype).value;
              SameKind(c, x) &&
              Meaning(b, row, Leaf(op, col, value)) == Some(Outcome(op, Less(c, x), c == x, Less(x, c)))
  {
    if b.columns[j].cells[row].Some? {
      ComparisonMeans(op, b.columns[j].cells[row].value, MakeScalar(value, b.schema[j].dtype).value);
    }
  }

  /** Text against text: `bob` comes after `alice` where they first differ. */
  lemma TextComparesByPosition(b: Batch, row: nat, col: string, text: string, literal: string, j: nat)
    requires b.Valid() && row < b.rows && NamedFirst(b.schema, col, j) && b.schema[j].dtype == Utf8
    requires b.columns[j].cells[row] == Some(StrCell(text))
    ensures Meaning(b, row, Leaf(Gt, col, Utf8Lit(literal))) ==
            Some(exists k: nat :: Strings.FirstDifference(literal, text, k))
  {
    LeafMeaning(b, row, Gt, col, Utf8Lit(literal), j);
  }

  function Meaning(b: Batch, row: nat, e: FilterExpr): Option<bool>
    requires b.Valid() && row < b.rows
  {
    if HasNullLeaf(b, row, e) then None else Some(Holds(b, row, e))
  }

  function MeaningMask(b: Batch, e: FilterExpr): (m: Mask)
    requires b.Valid()
  {
    seq(b.rows, i requires 0 <= i < b.rows => Meaning(b, i, e))
  }

  /** The error evaluation reports, if any: an empty connective is found only after its children. */
  function FirstFault(schema: seq<Field>, e: FilterExpr): Option<EvalError>
    decreases e, 1
  {
    match e
    case Leaf(_, col, value) => LeafFault(schema, col, value)
    case And(xs) => if xs == [] then Some(EmptyAnd) else FirstFaultOf(schema, xs)
    case Or(xs) => if xs == [] then Some(EmptyOr) else FirstFaultOf(schema, xs)
  }

  function FirstFaultOf(schema: seq<Field>, xs: seq<FilterExpr>): Option<EvalError>
    decreases xs, 0
  {
    if xs == [] then None
    else match FirstFault(schema, xs[0])
         case Some(err) => Some(err)
         case None => FirstFaultOf(schema, xs[1..])
  }

  // ---- proof of the evaluator -------------------------------------------------------------------

  lemma {:induction false} FirstFaultAt(schema: seq<Field>, xs: seq<FilterExpr>, k: nat)
    requires k < |xs| && forall j :: 0 <= j < k ==> FirstFault(schema, xs[j]).None?
    ensures FirstFault(schema, xs[k]).Some? ==> FirstFaultOf(schema, xs) == FirstFault(schema, xs[k])
  {
    if k > 0 {
      FirstFaultAt(schema, xs[1..], k - 1);
    }
  }

  lemma {:induction false} NoFault(schema: seq<Field>, xs: seq<FilterExpr>)
    ensures FirstFaultOf(schema, xs).None? <==> forall j :: 0 <= j < |xs| ==> FirstFault(schema, xs[j]).None?
  {
    if xs != [] {
      NoFault(schema, xs[1..]);
      assert forall j :: 1 <= j < |xs| ==> xs[j] == xs[1..][j - 1];
    }
  }

  lemma ChildFails(b: Batch, xs: seq<FilterExpr>, k: nat)
    requires b.Valid() && k < |xs| && FirstFault(b.schema, xs[k]).Some? && Faultless(b.schema, xs[..k])
    ensures EvalSpec(b, And(xs)) == EvalSpec(b, Or(xs)) == EvalSpec(b, xs[k])
  {
    assert forall j :: 0 <= j < k ==> xs[..k][j] == xs[j];
    FirstFaultAt(b.schema, xs, k);
  }

  lemma AllEvaluate(b: Batch, xs: seq<FilterExpr>)
    requires b.Valid() && Faultless(b.schema, xs)
    ensures EvalSpec(b, And(xs)) == if xs == [] then Err(EmptyAnd) else Ok(MeaningMask(b, And(xs)))
    ensures EvalSpec(b, Or(xs)) == if xs == [] then Err(EmptyOr) else Ok(MeaningMask(b, Or(xs)))
  {
    NoFault(b.schema, xs);
  }

  lemma OneMoreFaultless(schema: seq<Field>, xs: seq<FilterExpr>, k: nat)
    requires k < |xs| && Faultless(schema, xs[..k]) && FirstFault(schema, xs[k]).None?
    ensures Faultless(schema, xs[..k + 1])
  {
    assert forall j :: 0 <= j < k ==> xs[..k + 1][j] == xs[..k][j];
    assert xs[..k + 1][k] == xs[k];
  }

  lemma AndStep(b: Batch, xs: seq<FilterExpr>, k: nat, acc: Option<Mask>)
    requires b.Valid() && k < |xs| && Faultless(b.schema, xs[..k]) && FirstFault(b.schema, xs[k]).None?
    requires Folded(b, And(xs[..k]), acc)
    ensures Faultless(b.schema, xs[..k + 1])
    ensures Folded(b, And(xs[..k + 1]),
                   Some(if acc.None? then MeaningMask(b, xs[k]) else AndMask(acc.value, MeaningMask(b, xs[k]))))
  {
    OneMoreFaultless(b.schema, xs, k);
    var mask := MeaningMask(b, And(xs[..k + 1]));
    forall i | 0 <= i < b.rows
      ensures mask[i] ==
              if k == 0 then Meaning(b, i, xs[k]) else And3(Meaning(b, i, And(xs[..k])), Meaning(b, i, xs[k]))
    {
      PrefixNull(b, i, xs, k);
      PrefixAll(b, i, xs, k);
    }
    assert mask == if k == 0 then MeaningMask(b, xs[k]) else AndMask(acc.value, MeaningMask(b, xs[k]));
  }

  lemma OrStep(b: Batch, xs: seq<FilterExpr>, k: nat, acc: Option<Mask>)
    requires b.Valid() && k < |xs| && Faultless(b.schema, xs[..k]) && FirstFault(b.schema, xs[k]).None?
    requires Folded(b, Or(xs[..k]), acc)
    ensures Faultless(b.schema, xs[..k + 1])
    ensures Folded(b, Or(xs[..k + 1]),
                   Some(if acc.None? then MeaningMask(b, xs[k]) else OrMask(acc.value, MeaningMask(b, xs[k]))))
  {
    OneMoreFaultless(b.schema, xs, k);
    var mask := MeaningMask(b, Or(xs[..k + 1]));
    forall i | 0 <= i < b.rows
      ensures mask[i] ==
              if k == 0 then Meaning(b, i, xs[k]) else Or3(Meaning(b, i, Or(xs[..k])), Meaning(b, i, xs[k]))
    {
      PrefixNull(b, i, xs, k);
      PrefixSome(b, i, xs, k);
    }
    assert mask == if k == 0 then MeaningMask(b, xs[k]) else OrMask(acc.value, MeaningMask(b, xs[k]));
  }

  lemma PrefixAll(b: Batch, row: nat, xs: seq<FilterExpr>, k: nat)
    requires b.Valid() && row < b.rows && k < |xs|
    ensures Holds(b, row, And(xs[..k + 1])) <==> Holds(b, row, And(xs[..k])) && Holds(b, row, xs[k])
  {
    var longer, shorter := xs[..k + 1], xs[..k];
    assert longer[k] == xs[k];
    assert forall j :: 0 <= j < k ==> longer[j] == shorter[j];
  }

  lemma PrefixSome(b: Batch, row: nat, xs: seq<FilterExpr>, k: nat)
    requires b.Valid() && row < b.rows && k < |xs|
    ensures Holds(b, row, Or(xs[..k + 1])) <==> Holds(b, row, Or(xs[..k])) || Holds(b, row, xs[k])
  {
    var longer, shorter := xs[..k + 1], xs[..k];
    assert longer[k] == xs[k];
    assert forall j :: 0 <= j < k ==> longer[j] == shorter[j];
  }

  lemma PrefixNull(b: Batch, row: nat, xs: seq<FilterExpr>, k: nat)
    requires b.Valid() && row < b.rows && k < |xs|
    ensures HasNullLeaf(b, row, And(xs[..k + 1])) <==> HasNullLeaf(b, row, And(xs[..k])) || HasNullLeaf(b, row, xs[k])
    ensures HasNullLeaf(b, row, Or(xs[..k + 1])) <==> HasNullLeaf(b, row, Or(xs[..k])) || HasNullLeaf(b, row, xs[k])
  {
    assert xs[..k + 1][k] == xs[k];
    assert forall j :: 0 <= j < k ==> xs[..k + 1][j] == xs[..k][j];
  }

  // ---- type soundness ----------------------------------------------------------------------------

  /** On a decoded filter, evaluation fails exactly when validation against the schema does, with
      the same error: a validated filter never errors, on any batch of the schema. */
  lemma {:induction false} ValidationIsExact(schema: seq<Field>, e: FilterExpr)
    requires Decoded(e)
    ensures FirstFault(schema, e) == ValidateFilterTypes(schema, e)
    decreases e, 1
  {
    if !e.Leaf? {
      ValidationIsExactAll(schema, e.children);
    }
  }

  lemma {:induction false} ValidationIsExactAll(schema: seq<Field>, xs: seq<FilterExpr>)
    requires forall k :: 0 <= k < |xs| ==> Decoded(xs[k])
    ensures FirstFaultOf(schema, xs) == ValidateAll(schema, xs)
    decreases xs, 0
  {
    if xs != [] {
      ValidationIsExact(schema, xs[0]);
      ValidationIsExactAll(schema, xs[1..]);
    }
  }

  /** A filter that evaluates without error passes validation, decoded or not. */
  lemma {:induction false} FaultFreeIsValid(schema: seq<Field>, e: FilterExpr)
    requires FirstFault(schema, e).None?
    ensures ValidateFilterTypes(schema, e).None?
    decreases e, 1
  {
    if !e.Leaf? {
      FaultFreeIsValidAll(schema, e.children);
    }
  }

  lemma {:induction false} FaultFreeIsValidAll(schema: seq<Field>, xs: seq<FilterExpr>)
    requires FirstFaultOf(schema, xs).None?
    ensures ValidateAll(schema, xs).None?
    decreases xs, 0
  {
    if xs != [] {
      FaultFreeIsValid(schema, xs[0]);
      FaultFreeIsValidAll(schema, xs[1..]);
    }
  }

  // ---- the columns a filter reads ------------------------------------------------------------------

  function FilterColumns(e: FilterExpr): set<string> {
    match e
    case Leaf(_, col, _) => {col}
    case And(xs) => set k, c | 0 <= k < |xs| && c in FilterColumns(xs[k]) :: c
    case Or(xs) => set k, c | 0 <= k < |xs| && c in FilterColumns(xs[k]) :: c
  }

  predicate NoDuplicates(s: seq<string>) {
    forall a, b :: 0 <= a < b < |s| ==> s[a] != s[b]
  }

  /** `collect_filter_columns`: appends each column of the filter once, keeping what was there. */
  method CollectFilterColumns(e: FilterExpr, given: seq<string>) returns (out: seq<string>)
    requires NoDuplicates(given)
    ensures given <= out && NoDuplicates(out)
    ensures forall c :: c in out <==> c in given || c in FilterColumns(e)
    decreases e
  {
    out := given;
    match e {
      case Leaf(_, col, _) =>
        if col !in out {
          out := out + [col];
        }
      case And(xs) =>
        for k := 0 to |xs|
          invariant given <= out && NoDuplicates(out)
          invariant forall c :: c in out <==> c in given || exists j :: 0 <= j < k && c in FilterColumns(xs[j])
        {
          out := CollectFilterColumns(xs[k], out);
        }
      case Or(xs) =>
        for k := 0 to |xs|
          invariant given <= out && NoDuplicates(out)
          invariant forall c :: c in out <==> c in given || exists j :: 0 <= j < k && c in FilterColumns(xs[j])
        {
          out := CollectFilterColumns(xs[k], out);
        }
    }
  }

  lemma {:induction false} ProjectedFault(b: Batch, names: seq<string>, e: FilterExpr)
    requires b.Valid() && forall c :: c in FilterColumns(e) ==> c in names
    ensures FirstFault(Project(b, names).schema, e) == FirstFault(b.schema, e)
    decreases e, 1
  {
    if e.Leaf? {
      ProjectKeepsColumn(b, names, e.col);
    } else {
      ProjectedFaultOf(b, names, e.children);
    }
  }

  lemma {:induction false} ProjectedFaultOf(b: Batch, names: seq<string>, xs: seq<FilterExpr>)
    requires b.Valid() && forall k, c :: 0 <= k < |xs| && c in FilterColumns(xs[k]) ==> c in names
    ensures FirstFaultOf(Project(b, names).schema, xs) == FirstFaultOf(b.schema, xs)
    decreases xs, 0
  {
    if xs != [] {
      ProjectedFault(b, names, xs[0]);
      ProjectedFaultOf(b, names, xs[1..]);
    }
  }

  lemma {:induction false} ProjectedMeaning(b: Batch, names: seq<string>, row: nat, e: FilterExpr)
    requires b.Valid() && row < b.rows && forall c :: c in FilterColumns(e) ==> c in names
    ensures HasNullLeaf(Project(b, names), row, e) == HasNullLeaf(b, row, e)
    ensures Holds(Project(b, names), row, e) == Holds(b, row, e)
    decreases e
  {
    var p := Project(b, names);
    if e.Leaf? {
      ProjectKeepsColumn(b, names, e.col);
    } else {
      forall k | 0 <= k < |e.children|
        ensures HasNullLeaf(p, row, e.children[k]) == HasNullLeaf(b, row, e.children[k])
        ensures Holds(p, row, e.children[k]) == Holds(b, row, e.children[k])
      {
        ProjectedMeaning(b, names, row, e.children[k]);
      }
    }
  }

  /** The projection onto the collected columns loses nothing: same error, same mask. */
  lemma ProjectionSuffices(b: Batch, names: seq<string>, e: FilterExpr)
    requires b.Valid() && forall c :: c in FilterColumns(e) ==> c in names
    ensures FirstFault(Project(b, names).schema, e) == FirstFault(b.schema, e)
    ensures MeaningMask(Project(b, names), e) == MeaningMask(b, e)
  {
    ProjectedFault(b, names, e);
    forall i | 0 <= i < b.rows
      ensures Meaning(Project(b, names), i, e) == Meaning(b, i, e)
    {
      ProjectedMeaning(b, names, i, e);
    }
  }

  // ---- only the row matters, not the batch it comes in -----------------------------------------------

  /** Equal rows are decided alike: however rows are cut into batches makes no difference. */
  lemma {:induction false} SameRowMeaning(b: Batch, i: nat, c: Batch, k: nat, e: FilterExpr)
    requires b.Valid() && c.Valid() && i < b.rows && k < c.rows && SameRow(b, i, c, k)
    ensures HasNullLeaf(b, i, e) == HasNullLeaf(c, k, e)
    ensures Holds(b, i, e) == Holds(c, k, e)
    ensures Meaning(b, i, e) == Meaning(c, k, e)
    decreases e
  {
    if !e.Leaf? {
      forall n | 0 <= n < |e.children|
        ensures HasNullLeaf(b, i, e.children[n]) == HasNullLeaf(c, k, e.children[n])
        ensures Holds(b, i, e.children[n]) == Holds(c, k, e.children[n])
      {
        SameRowMeaning(b, i, c, k, e.children[n]);
      }
    }
  }
}
