/** How a dataset scan splits one filter expression three ways: partition pruning of whole
    fragments, a pushed Parquet filter, and a residual expression (expression.ex,
    scanner/compile.ex, scanner/partition.ex) - and what the three together decide. */
module DatasetFilter {
  import opened Wrappers
  import opened Arrow
  import opened Literals
  import opened ComputeExpr
  import opened EvaluatorAgreement
  import F = ParquetFilter
  import Calendar
  import Strings

  type FilterExpr = F.FilterExpr

  // ---- expression.ex: the pushable part and the residual -------------------------------------------

  datatype Split = Split(pushed: Option<FilterExpr>, residual: Option<Expr>)

  /** The Parquet filter takes plain scalars only. */
  predicate ParquetScalar(l: Literal) {
    l.IntLit? || l.FloatLit? || l.BoolLit? || l.Utf8Lit?
  }

  function PushableCompare(op: Arrow.CmpOp, l: Expr, r: Expr): Option<FilterExpr> {
    if l.FieldRef? && r.Scalar? && ParquetScalar(r.lit) then Some(F.Leaf(op, l.name, r.lit))
    else if l.Scalar? && r.FieldRef? && ParquetScalar(l.lit) then Some(F.Leaf(Flip(op), r.name, l.lit))
    else None
  }

  function SplitNode(e: Expr): Split
    requires Decoded(e)
  {
    match e
    case Call(CmpOp(op), args) =>
      var leaf := PushableCompare(op, args[0], args[1]);
      if leaf.Some? then Split(leaf, None) else Split(None, Some(e))
    case Call(AndOp, args) =>
      var l, r := SplitNode(args[0]), SplitNode(args[1]);
      Split(
        if l.pushed.None? then r.pushed else if r.pushed.None? then l.pushed
        else Some(F.And([l.pushed.value, r.pushed.value])),
        if l.residual.None? then r.residual else if r.residual.None? then l.residual
        else Some(Call(AndOp, [l.residual.value, r.residual.value])))
    case Call(OrOp, args) =>
      var l, r := SplitNode(args[0]), SplitNode(args[1]);
      if l.residual.None? && r.residual.None? && l.pushed.Some? && r.pushed.Some?
      then Split(Some(F.Or([l.pushed.value, r.pushed.value])), None)
      else Split(None, Some(e))
    case _ => Split(None, Some(e))
  }

  // ---- scanner/compile.ex: partition keys leave the pushed filter ------------------------------------

  /** `[] -> nil; [one] -> one; many -> {op, many}` for a two-child connective. */
  function StripPushed(f: FilterExpr, keys: set<string>): Option<FilterExpr>
    decreases f, 1
  {
    match f
    case Leaf(_, col, _) => if col in keys then None else Some(f)
    case And(xs) =>
      var kids := StripAll(xs, keys);
      if kids == [] then None else if |kids| == 1 then Some(kids[0]) else Some(F.And(kids))
    case Or(xs) =>
      if exists k :: 0 <= k < |xs| && ReferencesPartition(xs[k], keys) then None
      else
        var kids := StripAll(xs, keys);
        if kids == [] then None else if |kids| == 1 then Some(kids[0]) else Some(F.Or(kids))
  }

  function StripAll(xs: seq<FilterExpr>, keys: set<string>): seq<FilterExpr>
    decreases xs, 0
  {
    if xs == [] then []
    else match StripPushed(xs[0], keys)
         case None => StripAll(xs[1..], keys)
         case Some(kid) => [kid] + StripAll(xs[1..], keys)
  }

  predicate ReferencesPartition(f: FilterExpr, keys: set<string>) {
    match f
    case Leaf(_, col, _) => col in keys
    case And(xs) => exists k :: 0 <= k < |xs| && ReferencesPartition(xs[k], keys)
    case Or(xs) => exists k :: 0 <= k < |xs| && ReferencesPartition(xs[k], keys)
  }

  predicate PushedOnlyPartitions(f: FilterExpr, keys: set<string>) {
    match f
    case Leaf(_, col, _) => col in keys
    case And(xs) => forall k :: 0 <= k < |xs| ==> PushedOnlyPartitions(xs[k], keys)
    case Or(xs) => forall k :: 0 <= k < |xs| ==> PushedOnlyPartitions(xs[k], keys)
  }

  predicate PartitionOnly(e: Expr, keys: set<string>) {
    match e
    case FieldRef(name) => name in keys
    case Scalar(_) => true
    case Call(_, args) => forall k :: 0 <= k < |args| ==> PartitionOnly(args[k], keys)
  }

  function Strip(pushed: Option<FilterExpr>, keys: set<string>): Option<FilterExpr> {
    if pushed.None? then None else StripPushed(pushed.value, keys)
  }

  /** `Compile.compile/2`: the filter handed to Parquet and the expression left for each batch. */
  function Compile(e: Expr, keys: set<string>): Split
    requires Decoded(e)
  {
    var s := SplitNode(e);
    var pushed := Strip(s.pushed, keys);
    Split(pushed,
          if PartitionOnly(e, keys) then None
          else if s.residual.Some? then s.residual
          else if pushed.None? && s.pushed.Some? then
            (if PushedOnlyPartitions(s.pushed.value, keys) then None else Some(e))
          else if pushed.None? && s.pushed.None? then Some(e)
          else None)
  }

  /** `bind_partitions`: the fragment's partition values stand in for the partition fields. */
  function Bind(e: Expr, pv: map<string, Literal>): (b: Expr)
    ensures Decoded(e) ==> Decoded(b)
  {
    match e
    case FieldRef(name) => if name in pv then Scalar(pv[name]) else e
    case Scalar(_) => e
    case Call(op, args) => Call(op, seq(|args|, k requires 0 <= k < |args| => Bind(args[k], pv)))
  }

  // ---- scanner/partition.ex: three-valued pruning ----------------------------------------------------

  datatype Tri = True | False | Unknown | Known(lit: Literal)

  function PartitionEval(e: Expr, pv: map<string, Literal>): Tri
    requires Decoded(e)
  {
    match e
    case FieldRef(name) => if name in pv then Known(pv[name]) else Unknown
    case Scalar(lit) => Known(lit)
    case Call(CmpOp(op), args) =>
      var l, r := PartitionEval(args[0], pv), PartitionEval(args[1], pv);
      if l.Known? && r.Known? then (if TermCompare(op, l.lit, r.lit) then True else False) else Unknown
    case Call(AndOp, args) =>
      var l, r := PartitionEval(args[0], pv), PartitionEval(args[1], pv);
      if l.False? || r.False? then False else if l.True? && r.True? then True else Unknown
    case Call(OrOp, args) =>
      var l, r := PartitionEval(args[0], pv), PartitionEval(args[1], pv);
      if l.True? || r.True? then True else if l.False? && r.False? then False else Unknown
    case Call(NotOp, args) =>
      var x := PartitionEval(args[0], pv);
      if x.True? then False else if x.False? then True else Unknown
  }

  predicate MayMatch(e: Expr, pv: map<string, Literal>)
    requires Decoded(e)
  {
    PartitionEval(e, pv) != False
  }

  /** The operand has a value: it is a scalar, or a field the fragment has a partition value for. */
  predicate HasValue(e: Expr, pv: map<string, Literal>) {
    e.Scalar? || (e.FieldRef? && e.name in pv)
  }

  function ValueOf(e: Expr, pv: map<string, Literal>): Literal
    requires HasValue(e, pv)
  {
    if e.Scalar? then e.lit else pv[e.name]
  }

  /** The expression may come out as `verdict`, whatever its undecided parts turn out to be. */
  predicate MayBe(e: Expr, pv: map<string, Literal>, verdict: bool)
    requires Decoded(e)
  {
    e.Call? ==>
      match e.op
      case CmpOp(op) =>
        HasValue(e.args[0], pv) && HasValue(e.args[1], pv) ==>
          TermCompare(op, ValueOf(e.args[0], pv), ValueOf(e.args[1], pv)) == verdict
      case AndOp =>
        if verdict then MayBe(e.args[0], pv, true) && MayBe(e.args[1], pv, true)
        else MayBe(e.args[0], pv, false) || MayBe(e.args[1], pv, false)
      case OrOp =>
        if verdict then MayBe(e.args[0], pv, true) || MayBe(e.args[1], pv, true)
        else MayBe(e.args[0], pv, false) && MayBe(e.args[1], pv, false)
      case NotOp => MayBe(e.args[0], pv, !verdict)
  }

  /** A fragment is pruned exactly when the filter cannot come out true, and decided true exactly when it
      cannot come out false. */
  lemma {:induction false} VerdictIsExact(e: Expr, pv: map<string, Literal>)
    requires Decoded(e)
    ensures PartitionEval(e, pv) == False <==> !MayBe(e, pv, true)
    ensures PartitionEval(e, pv) == True <==> !MayBe(e, pv, false)
  {
    if e.Call? && !e.op.CmpOp? {
      VerdictIsExact(e.args[0], pv);
      if !e.op.NotOp? {
        VerdictIsExact(e.args[1], pv);
      }
    }
  }

  /** Elixir compares the partition values as terms: numbers by value, `false < true`, strings
      byte by byte, and two `Date` structs field by field in the order day, month, year. */
  predicate TermCompare(op: Arrow.CmpOp, a: Literal, b: Literal) {
    match op
    case Eq => TermEq(a, b)
    case Ne => !TermEq(a, b)
    case Gt => TermLt(b, a)
    case Gte => TermEq(a, b) || TermLt(b, a)
    case Lt => TermLt(a, b)
    case Lte => TermEq(a, b) || TermLt(a, b)
  }

  predicate TermEq(a: Literal, b: Literal) {
    if NumberOf(a).Some? && NumberOf(b).Some? then NumberOf(a) == NumberOf(b)
    else if a.Utf8Lit? && b.Utf8Lit? then a.s == b.s
    else if a.BoolLit? && b.BoolLit? then a.b == b.b
    else a == b
  }

  predicate TermLt(a: Literal, b: Literal) {
    if NumberOf(a).Some? && NumberOf(b).Some? then NumberOf(a).value < NumberOf(b).value
    else match (a, b)
         case (BoolLit(x), BoolLit(y)) => !x && y
         case (Utf8Lit(s), Utf8Lit(t)) => Strings.StrLt(s, t)
         case (Date32Lit(x), Date32Lit(y)) => Calendar.StructLt(Calendar.Civil(x), Calendar.Civil(y))
         case _ => TermRank(a) < TermRank(b)
  }

  /** Numbers come before atoms, atoms before maps (structs), maps before binaries. */
  function TermRank(l: Literal): nat {
    match l
    case IntLit(_, _, _) => 0
    case FloatLit(_, _) => 0
    case BoolLit(_) => 1
    case Utf8Lit(_) => 3
    case _ => 2
  }

  // ---- where term order is the kernels' order ---------------------------------------------------------

  /** The values a partition can have and a plain scalar can be; date-times are not modelled as terms. */
  predicate Orderable(l: Literal) {
    l.IntLit? || l.FloatLit? || l.BoolLit? || l.Utf8Lit? || l.Date32Lit?
  }

  predicate IsNumber(l: Literal) { l.IntLit? || l.FloatLit? }

  /** Values of different kinds are never equal, and come in the order numbers, booleans, dates, texts. */
  lemma KindsInOrder(a: Literal, b: Literal)
    requires Orderable(a) && Orderable(b) && !(IsNumber(a) && IsNumber(b))
    requires !(a.BoolLit? && b.BoolLit?) && !(a.Utf8Lit? && b.Utf8Lit?) && !(a.Date32Lit? && b.Date32Lit?)
    ensures !TermEq(a, b)
    ensures TermLt(a, b) <==>
            || IsNumber(a)
            || (a.BoolLit? && (b.Date32Lit? || b.Utf8Lit?))
            || (a.Date32Lit? && b.Utf8Lit?)
  {
  }

  predicate IsOrdering(op: Arrow.CmpOp) {
    op != Eq && op != Ne
  }

  /** Field by field from the day and in time, the two dates come in the same order. */
  predicate DatesOrderedAlike(x: int, y: int) {
    var a, b := Calendar.Civil(x), Calendar.Civil(y);
    Calendar.StructLt(a, b) <==> Calendar.Earlier(a, b)
  }

  /** Elixir decides this comparison as the kernels do: always, except for dates in different orders. */
  predicate OrderedAlike(op: Arrow.CmpOp, a: Literal, b: Literal) {
    && Orderable(a) && Orderable(b)
    && (a.Date32Lit? && b.Date32Lit? && IsOrdering(op) ==> DatesOrderedAlike(a.days, b.days))
  }

  lemma DateTermOrder(op: Arrow.CmpOp, a: Literal, b: Literal)
    requires a.Date32Lit? && b.Date32Lit?
    ensures LitCompare(op, a, b).Ok?
    ensures TermCompare(op, a, b) == LitCompare(op, a, b).value <==> OrderedAlike(op, a, b)
  {
    Calendar.CivilOrder(a.days, b.days);
    Calendar.CivilOrder(b.days, a.days);
    StructOrderIsTotal(Calendar.Civil(a.days), Calendar.Civil(b.days));
  }

  lemma StructOrderIsTotal(a: Calendar.Date, b: Calendar.Date)
    ensures a != b ==> (Calendar.StructLt(a, b) <==> !Calendar.StructLt(b, a))
    ensures a == b ==> !Calendar.StructLt(a, b)
  {
  }

  /** Term order agrees with the kernels' order exactly there, wherever the kernels can compare at all. */
  lemma TermOrderAgrees(op: Arrow.CmpOp, a: Literal, b: Literal)
    requires Orderable(a) && Orderable(b) && LitCompare(op, a, b).Ok?
    ensures TermCompare(op, a, b) == LitCompare(op, a, b).value <==> OrderedAlike(op, a, b)
  {
    if a.Date32Lit? {
      DateTermOrder(op, a, b);
    } else if a.Utf8Lit? {
      CellOrder(StrCell(a.s), StrCell(b.s), StrCell(a.s));
    }
  }

  const JANUARY_15 := Date32Lit(20_468)
  const FEBRUARY_1 := Date32Lit(20_485)

  /** Dates compared by field order: February 1st comes before January 15th, so a fragment of
      February 1st is pruned by `day > 2026-01-15`, although the comparison holds. */
  lemma DatePartitionsAreMisordered()
    ensures LitCompare(Gt, FEBRUARY_1, JANUARY_15) == Ok(true)
    ensures !MayMatch(Call(CmpOp(Gt), [FieldRef("day"), Scalar(JANUARY_15)]), map["day" := FEBRUARY_1])
  {
    Calendar.KnownDates();
    var args := [FieldRef("day"), Scalar(JANUARY_15)];
    assert PartitionEval(args[0], map["day" := FEBRUARY_1]) == Known(FEBRUARY_1);
    assert PartitionEval(args[1], map["day" := FEBRUARY_1]) == Known(JANUARY_15);
    assert !TermCompare(Gt, FEBRUARY_1, JANUARY_15);
  }

  /** Every struct comes after every number: the order of a date and an integer, taken as days, for which
      that is right. */
  predicate KindOrderRight(op: Arrow.CmpOp, days: int, v: int) {
    match op
    case Eq | Ne => v != days
    case Gt | Lte => v < days
    case Gte | Lt => v <= days
  }

  /** A date partition against an integer. On a date column the integer is a day count; on a partition the
      kind decides, rightly exactly under the condition above; and the bound expression does not evaluate. */
  lemma IntegerAgainstDatePartition(op: Arrow.CmpOp, date: Literal, l: Literal)
    requires date.Date32Lit? && l.IntLit? && MakeScalarArray(l, Date32).Ok?
    ensures TermCompare(op, date, l) == Compare(op, IntCell(date.days), MakeScalarArray(l, Date32).value) <==>
            KindOrderRight(op, date.days, l.v)
    ensures TermCompare(Flip(op), l, date) == TermCompare(op, date, l)
    ensures LitCompare(op, date, l) == Err(CannotCompare)
  {
  }
}
