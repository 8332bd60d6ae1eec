/** What a dataset filter is split into, told from its shape alone: its conjuncts, which of them can be pushed
    down, and which mention partition keys. */
module FilterShape {
  import opened Wrappers
  import opened Literals
  import opened ComputeExpr
  import opened EvaluatorAgreement
  import opened DatasetFilter
  import opened ScanFilter
  import F = ParquetFilter

  // ---- shapes ----------------------------------------------------------------------------------------------

  predicate PlainLiteral(e: Expr) {
    e.Scalar? && !e.lit.Date32Lit? && !e.lit.Date64Lit? && !e.lit.TimestampLit?
  }

  /** A tree of `and` and `or` over comparisons of one field with one number, text or boolean, either way
      round. */
  predicate Pushable(e: Expr) {
    e.Call? && |e.args| == 2 &&
    if e.op.CmpOp? then
      (e.args[0].FieldRef? && PlainLiteral(e.args[1])) || (PlainLiteral(e.args[0]) && e.args[1].FieldRef?)
    else (e.op.AndOp? || e.op.OrOp?) && Pushable(e.args[0]) && Pushable(e.args[1])
  }

  /** The expression as a list of conjuncts. */
  function Conjuncts(e: Expr): (cs: seq<Expr>)
    ensures cs != []
  {
    if e.Call? && e.op.AndOp? && |e.args| == 2 then Conjuncts(e.args[0]) + Conjuncts(e.args[1]) else [e]
  }

  function FilterConjuncts(f: FilterExpr): seq<FilterExpr>
    decreases f, 1
  {
    if f.And? then AllConjuncts(f.children) else [f]
  }

  function AllConjuncts(fs: seq<FilterExpr>): seq<FilterExpr>
    decreases fs, 0
  {
    if fs == [] then [] else FilterConjuncts(fs[0]) + AllConjuncts(fs[1..])
  }

  function Rest(residual: Option<Expr>): seq<Expr> {
    if residual.None? then [] else Conjuncts(residual.value)
  }

  function Parts(pushed: Option<FilterExpr>): seq<FilterExpr> {
    if pushed.None? then [] else FilterConjuncts(pushed.value)
  }

  function FilterOne<T>(x: T, keep: T -> bool): seq<T> {
    if keep(x) then [x] else []
  }

  function Filter<T>(xs: seq<T>, keep: T -> bool): seq<T> {
    if xs == [] then [] else FilterOne(xs[0], keep) + Filter(xs[1..], keep)
  }

  lemma FilterFirst<T>(x: T, xs: seq<T>, keep: T -> bool)
    ensures Filter([x] + xs, keep) == FilterOne(x, keep) + Filter(xs, keep)
  {
    assert ([x] + xs)[1..] == xs;
  }

  lemma Regroup<T>(a: seq<T>, b: seq<T>, c: seq<T>)
    ensures a + (b + c) == (a + b) + c
  {
  }

  lemma {:induction false} FilterConcat<T>(xs: seq<T>, ys: seq<T>, keep: T -> bool)
    ensures Filter(xs + ys, keep) == Filter(xs, keep) + Filter(ys, keep)
  {
    if xs == [] {
      assert xs + ys == ys;
    } else {
      var tail := xs[1..];
      Regroup([xs[0]], tail, ys);
      assert xs == [xs[0]] + tail;
      FilterFirst(xs[0], tail + ys, keep);
      FilterConcat(tail, ys, keep);
      Regroup(FilterOne(xs[0], keep), Filter(tail, keep), Filter(ys, keep));
    }
  }

  lemma FilterSingle<T>(x: T, keep: T -> bool)
    ensures Filter([x], keep) == FilterOne(x, keep)
  {
    assert FilterOne(x, keep) + [] == FilterOne(x, keep);
  }

  lemma {:induction false} FilterNothing<T>(xs: seq<T>, keep: T -> bool)
    requires forall k :: 0 <= k < |xs| ==> !keep(xs[k])
    ensures Filter(xs, keep) == []
  {
    if xs != [] {
      FilterNothing(xs[1..], keep);
    }
  }

  lemma {:induction false} FilterMeans<T>(xs: seq<T>, keep: T -> bool)
    ensures forall x :: x in Filter(xs, keep) <==> x in xs && keep(x)
    ensures |Filter(xs, keep)| <= |xs|
    ensures Filter(xs, keep) == xs <==> forall k :: 0 <= k < |xs| ==> keep(xs[k])
  {
    if xs != [] {
      FilterMeans(xs[1..], keep);
      assert xs == [xs[0]] + xs[1..];
      assert forall k :: 1 <= k < |xs| ==> xs[k] == xs[1..][k - 1];
    }
  }

  /** The filters stand for the expressions, one by one, and read the same fields. */
  ghost predicate Stand(cs: seq<Expr>, fs: seq<FilterExpr>) {
    |cs| == |fs| && forall k :: 0 <= k < |cs| ==> StandsFor(cs[k], fs[k])
  }

  ghost predicate StandsFor(c: Expr, f: FilterExpr) {
    Translates(c, f) && Fields(c) == F.FilterColumns(f)
  }

  lemma StandConcat(cs: seq<Expr>, ds: seq<Expr>, fs: seq<FilterExpr>, gs: seq<FilterExpr>)
    requires Stand(cs, fs) && Stand(ds, gs)
    ensures Stand(cs + ds, fs + gs)
  {
  }

  // ---- the split ----------------------------------------------------------------------------------------------

  /** Nothing is left over exactly from pushable expressions. */
  lemma {:induction false} SplitIsExact(e: Expr)
    requires Decoded(e)
    ensures SplitNode(e).residual.None? <==> Pushable(e)
    ensures SplitNode(e).residual.None? ==> SplitNode(e).pushed.Some?
  {
    if e.Call? && (e.op.AndOp? || e.op.OrOp?) {
      SplitIsExact(e.args[0]);
      SplitIsExact(e.args[1]);
    }
  }

  lemma PairFields(op: Op, l: Expr, r: Expr)
    ensures Fields(Call(op, [l, r])) == Fields(l) + Fields(r)
  {
    var e := Call(op, [l, r]);
    assert e.args[0] == l && e.args[1] == r;
  }

  lemma PairColumns(l: FilterExpr, r: FilterExpr)
    ensures F.FilterColumns(F.And([l, r])) == F.FilterColumns(l) + F.FilterColumns(r)
    ensures F.FilterColumns(F.Or([l, r])) == F.FilterColumns(l) + F.FilterColumns(r)
  {
    var xs := [l, r];
    assert xs[0] == l && xs[1] == r;
  }

  /** A fully pushed expression reads the fields of its filter. */
  lemma {:induction false} PushedFields(e: Expr)
    requires Decoded(e) && SplitNode(e).pushed.Some? && SplitNode(e).residual.None?
    ensures StandsFor(e, SplitNode(e).pushed.value)
  {
    SplitTranslates(e);
    SplitIsExact(e);
    assert e.args == [e.args[0], e.args[1]];
    PairFields(e.op, e.args[0], e.args[1]);
    if !e.op.CmpOp? {
      SplitIsExact(e.args[0]);
      SplitIsExact(e.args[1]);
      PushedFields(e.args[0]);
      PushedFields(e.args[1]);
      PairColumns(SplitNode(e.args[0]).pushed.value, SplitNode(e.args[1]).pushed.value);
    }
  }

  lemma PairConjuncts(l: FilterExpr, r: FilterExpr)
    ensures FilterConjuncts(F.And([l, r])) == FilterConjuncts(l) + FilterConjuncts(r)
  {
    var xs := [l, r];
    assert xs[1..] == [r] && AllConjuncts([r]) == FilterConjuncts(r) + AllConjuncts([]);
  }

  lemma JoinedParts(l: Option<FilterExpr>, r: Option<FilterExpr>)
    ensures Parts(JoinPushed(l, r)) == Parts(l) + Parts(r)
  {
    if l.Some? && r.Some? {
      PairConjuncts(l.value, r.value);
    }
  }

  /** Conjunct by conjunct: the pushable ones are pushed, and the others, as they are, are left over. */
  lemma {:induction false} SplitByConjuncts(e: Expr)
    requires Decoded(e)
    ensures Rest(SplitNode(e).residual) == Filter(Conjuncts(e), c => !Pushable(c))
    ensures Stand(Filter(Conjuncts(e), c => Pushable(c)), Parts(SplitNode(e).pushed))
  {
    SplitIsExact(e);
    if e.Call? && e.op.AndOp? {
      var l, r := e.args[0], e.args[1];
      SplitByConjuncts(l);
      SplitByConjuncts(r);
      FilterConcat(Conjuncts(l), Conjuncts(r), c => !Pushable(c));
      FilterConcat(Conjuncts(l), Conjuncts(r), c => Pushable(c));
      JoinedParts(SplitNode(l).pushed, SplitNode(r).pushed);
      StandConcat(Filter(Conjuncts(l), c => Pushable(c)), Filter(Conjuncts(r), c => Pushable(c)),
                  Parts(SplitNode(l).pushed), Parts(SplitNode(r).pushed));
      assert SplitNode(e).pushed == JoinPushed(SplitNode(l).pushed, SplitNode(r).pushed);
    } else {
      LoneConjunct(e);
    }
  }

  lemma LoneConjunct(e: Expr)
    requires Decoded(e) && !(e.Call? && e.op.AndOp?)
    ensures Rest(SplitNode(e).residual) == Filter(Conjuncts(e), c => !Pushable(c))
    ensures Stand(Filter(Conjuncts(e), c => Pushable(c)), Parts(SplitNode(e).pushed))
  {
    SplitIsExact(e);
    FilterSingle(e, c => Pushable(c));
    FilterSingle(e, c => !Pushable(c));
    if Pushable(e) {
      PushedFields(e);
      assert FilterConjuncts(SplitNode(e).pushed.value) == [SplitNode(e).pushed.value];
    } else {
      assert SplitNode(e) == Split(None, Some(e));
    }
  }

  // ---- stripping ------------------------------------------------------------------------------------------------

  predicate Mentions(f: FilterExpr, keys: set<string>) {
    exists k :: k in F.FilterColumns(f) && k in keys
  }

  lemma {:induction false} ReferencesAreMentions(f: FilterExpr, keys: set<string>)
    ensures ReferencesPartition(f, keys) <==> Mentions(f, keys)
  {
    if !f.Leaf? {
      forall k | 0 <= k < |f.children|
        ensures ReferencesPartition(f.children[k], keys) <==> Mentions(f.children[k], keys)
      {
        ReferencesAreMentions(f.children[k], keys);
      }
    }
  }

  lemma {:induction false} OnlyPartitionsAreKeys(f: FilterExpr, keys: set<string>)
    ensures PushedOnlyPartitions(f, keys) <==> F.FilterColumns(f) <= keys
  {
    if !f.Leaf? {
      forall k | 0 <= k < |f.children|
        ensures PushedOnlyPartitions(f.children[k], keys) <==> F.FilterColumns(f.children[k]) <= keys
      {
        OnlyPartitionsAreKeys(f.children[k], keys);
      }
    }
  }

  /** Stripping drops exactly the conjuncts that mention a partition key. */
  lemma {:induction false} StripByConjuncts(f: FilterExpr, keys: set<string>)
    requires Binary(f)
    ensures Parts(StripPushed(f, keys)) == Filter(FilterConjuncts(f), p => !Mentions(p, keys))
  {
    ReferencesAreMentions(f, keys);
    if f.And? {
      var l, r := f.children[0], f.children[1];
      assert f.children == [l, r];
      StripByConjuncts(l, keys);
      StripByConjuncts(r, keys);
      StripAnd(l, r, keys);
      JoinedParts(StripPushed(l, keys), StripPushed(r, keys));
      PairConjuncts(l, r);
      FilterConcat(FilterConjuncts(l), FilterConjuncts(r), p => !Mentions(p, keys));
    } else if f.Or? {
      OrStripped(f, keys);
    }
  }

  lemma OrStripped(f: FilterExpr, keys: set<string>)
    requires Binary(f) && f.Or?
    ensures StripPushed(f, keys) == if ReferencesPartition(f, keys) then None else Some(f)
  {
    if !ReferencesPartition(f, keys) {
      StripNothing(f, keys);
    }
  }

  predicate Touches(c: Expr, keys: set<string>) {
    exists k :: k in Fields(c) && k in keys
  }

  lemma {:induction false} StandFiltered(cs: seq<Expr>, fs: seq<FilterExpr>, keys: set<string>)
    requires Stand(cs, fs)
    ensures Stand(Filter(cs, c => !Touches(c, keys)), Filter(fs, f => !Mentions(f, keys)))
  {
    if cs != [] {
      assert StandsFor(cs[0], fs[0]);
      StandFiltered(cs[1..], fs[1..], keys);
      assert Touches(cs[0], keys) <==> Mentions(fs[0], keys);
    }
  }

  lemma {:induction false} FilterTwice(cs: seq<Expr>, keys: set<string>)
    ensures Filter(Filter(cs, c => Pushable(c)), c => !Touches(c, keys)) ==
            Filter(cs, c => Pushable(c) && !Touches(c, keys))
  {
    if cs != [] {
      FilterTwice(cs[1..], keys);
      var rest := Filter(cs[1..], c => Pushable(c));
      assert ([cs[0]] + rest)[1..] == rest && [] + rest == rest;
    }
  }

  // ---- compilation ----------------------------------------------------------------------------------------------

  lemma {:induction false} PartitionFields(e: Expr, keys: set<string>)
    ensures PartitionOnly(e, keys) <==> Fields(e) <= keys
  {
    if e.Call? {
      forall k | 0 <= k < |e.args|
        ensures PartitionOnly(e.args[k], keys) <==> Fields(e.args[k]) <= keys
      {
        PartitionFields(e.args[k], keys);
      }
    }
  }

  /** The pushable conjuncts that mention no partition key. */
  function ForParquet(e: Expr, keys: set<string>): seq<Expr> {
    Filter(Conjuncts(e), c => Pushable(c) && !Touches(c, keys))
  }

  function ForResidual(e: Expr): seq<Expr> {
    Filter(Conjuncts(e), c => !Pushable(c))
  }

  lemma PushedIsExact(e: Expr, keys: set<string>)
    requires Decoded(e)
    ensures Stand(ForParquet(e, keys), Parts(Compile(e, keys).pushed))
  {
    SplitTranslates(e);
    SplitByConjuncts(e);
    FilterTwice(Conjuncts(e), keys);
    StandFiltered(Filter(Conjuncts(e), c => Pushable(c)), Parts(SplitNode(e).pushed), keys);
    if SplitNode(e).pushed.Some? {
      StripByConjuncts(SplitNode(e).pushed.value, keys);
    }
  }

  lemma {:induction false} SomeConjunct(f: FilterExpr)
    requires Binary(f)
    ensures FilterConjuncts(f) != []
  {
    if f.And? {
      SomeConjunct(f.children[0]);
    }
  }

  /** What is compiled, from the shape of the filter. Parquet gets the pushable conjuncts without partition
      keys. The residual gets nothing of a filter over partition keys only; else the conjuncts that are not
      pushable, if any; else nothing if Parquet got something; else the whole filter. */
  lemma CompileIsExact(e: Expr, keys: set<string>)
    requires Decoded(e)
    ensures Stand(ForParquet(e, keys), Parts(Compile(e, keys).pushed))
    ensures ForParquet(e, keys) == [] <==> Compile(e, keys).pushed.None?
    ensures Fields(e) <= keys ==> Compile(e, keys).residual.None?
    ensures !(Fields(e) <= keys) && ForResidual(e) != [] ==> Rest(Compile(e, keys).residual) == ForResidual(e)
    ensures !(Fields(e) <= keys) && ForResidual(e) == [] && ForParquet(e, keys) != [] ==>
              Compile(e, keys).residual.None?
    ensures !(Fields(e) <= keys) && ForResidual(e) == [] && ForParquet(e, keys) == [] ==>
              Compile(e, keys).residual == Some(e)
  {
    PushedIsExact(e, keys);
    PartitionFields(e, keys);
    SplitTranslates(e);
    SplitByConjuncts(e);
    if Compile(e, keys).pushed.Some? {
      StrippedIsBinary(SplitNode(e).pushed.value, keys);
      SomeConjunct(Compile(e, keys).pushed.value);
    }
    if SplitNode(e).residual.None? {
      PushedFields(e);
      OnlyPartitionsAreKeys(SplitNode(e).pushed.value, keys);
    }
  }

  // ---- what is unchecked ------------------------------------------------------------------------------------------

  /** A pushable conjunct over partition keys and other columns: always a disjunction, or it would be two. */
  predicate Mixed(c: Expr, keys: set<string>) {
    Pushable(c) && Touches(c, keys) && !(Fields(c) <= keys)
  }

  lemma {:induction false} MixedConjuncts(e: Expr, keys: set<string>)
    requires Decoded(e)
    ensures MixedDisjuncts(e, keys) == Filter(Conjuncts(e), c => Mixed(c, keys))
  {
    SplitIsExact(e);
    if e.Call? && e.op.AndOp? {
      MixedConjuncts(e.args[0], keys);
      MixedConjuncts(e.args[1], keys);
      FilterConcat(Conjuncts(e.args[0]), Conjuncts(e.args[1]), c => Mixed(c, keys));
    } else if Pushable(e) {
      PushedFields(e);
      ReferencesAreMentions(SplitNode(e).pushed.value, keys);
      OnlyPartitionsAreKeys(SplitNode(e).pushed.value, keys);
      if e.op.CmpOp? {
        assert e.args == [e.args[0], e.args[1]];
        PairFields(e.op, e.args[0], e.args[1]);
      }
    }
  }

  /** The whole filter is left to the residual exactly when no conjunct is pushable, or all are and each
      mentions a partition key. */
  lemma WholeResidual(e: Expr, keys: set<string>)
    requires Decoded(e) && !(Fields(e) <= keys)
    ensures Compile(e, keys).residual == Some(e) <==>
            ForResidual(e) == Conjuncts(e) || (ForResidual(e) == [] && ForParquet(e, keys) == [])
  {
    CompileIsExact(e, keys);
    SplitByConjuncts(e);
    if ForResidual(e) == Conjuncts(e) {
      FilterMeans(Conjuncts(e), c => !Pushable(c));
      FilterNothing(Conjuncts(e), c => Pushable(c));
      SplitTranslates(e);
      if SplitNode(e).pushed.Some? {
        SomeConjunct(SplitNode(e).pushed.value);
      }
      NothingPushed(e, keys);
      PartitionFields(e, keys);
    }
  }

  /** Some field or scalar stands where a truth value is asked for, or some truth value is compared. */
  predicate HasBareOperand(e: Expr) {
    !e.Call? ||
    if e.op.CmpOp? then exists k :: 0 <= k < |e.args| && e.args[k].Call?
    else exists k :: 0 <= k < |e.args| && HasBareOperand(e.args[k])
  }

  lemma {:induction false} DecidableByShape(e: Expr)
    requires Decoded(e)
    ensures Decidable(e) <==> !HasBareOperand(e)
  {
    if e.Call? && !e.op.CmpOp? {
      forall k | 0 <= k < |e.args|
        ensures Decidable(e.args[k]) <==> !HasBareOperand(e.args[k])
      {
        DecidableByShape(e.args[k]);
      }
    }
  }

  /** The conjuncts that nothing checks, from the shape of the filter. */
  lemma UncheckedIsExact(e: Expr, keys: set<string>)
    requires Decoded(e)
    ensures Unchecked(e, keys) ==
            if Fields(e) <= keys then (if HasBareOperand(e) then [e] else [])
            else if ForResidual(e) == Conjuncts(e) || (ForResidual(e) == [] && ForParquet(e, keys) == []) then []
            else Filter(Conjuncts(e), c => Mixed(c, keys))
  {
    PartitionFields(e, keys);
    MixedConjuncts(e, keys);
    DecidableByShape(e);
    if !(Fields(e) <= keys) {
      WholeResidual(e, keys);
    }
  }
}
