/** What pruning, the pushed filter and the residual decide together, row by row: exactly the
    whole filter, except for the conjuncts that `Compile` leaves to none of the three. */
module ScanFilter {
  import opened Wrappers
  import opened Arrow
  import opened Literals
  import opened ComputeExpr
  import opened EvaluatorAgreement
  import opened DatasetFilter
  import F = ParquetFilter

  /** One row of one batch of a fragment with its partition values. */
  datatype Site = Site(b: Batch, row: nat, pv: map<string, Literal>) {
    predicate Valid() {
      b.Valid() && row < b.rows
    }
  }

  /** The reference: the whole filter, partition fields bound, evaluated on the row. */
  predicate Wanted(s: Site, e: Expr)
    requires s.Valid() && Decoded(e)
  {
    Keeps(s.b, s.row, Bind(e, s.pv))
  }

  predicate PushedKeeps(s: Site, pushed: Option<FilterExpr>)
    requires s.Valid()
  {
    pushed.None? || F.Meaning(s.b, s.row, pushed.value) == Some(true)
  }

  predicate ResidualKeeps(s: Site, residual: Option<Expr>)
    requires s.Valid() && (residual.Some? ==> Decoded(residual.value))
  {
    residual.None? || Wanted(s, residual.value)
  }

  /** What the scan does with the row. */
  predicate ScanKeeps(s: Site, e: Expr)
    requires s.Valid() && Decoded(e)
  {
    var c := Compile(e, s.pv.Keys);
    CompileDecodes(e, s.pv.Keys);
    MayMatch(e, s.pv) && PushedKeeps(s, c.pushed) && ResidualKeeps(s, c.residual)
  }

  /** The Parquet reader accepts the compiled filter for this schema. */
  predicate Accepted(schema: seq<Field>, e: Expr, pv: map<string, Literal>)
    requires Decoded(e)
  {
    PushedOk(schema, Compile(e, pv.Keys).pushed)
  }

  /** Every comparison that pruning decides compares values that Elixir orders as the kernels do. */
  predicate TermsOrderedAlike(e: Expr, pv: map<string, Literal>)
    requires Decoded(e)
  {
    e.Call? ==>
      if e.op.CmpOp? then
        var l, r := PartitionEval(e.args[0], pv), PartitionEval(e.args[1], pv);
        l.Known? && r.Known? ==> OrderedAlike(e.op.cmp, l.lit, r.lit)
      else forall k :: 0 <= k < |e.args| ==> TermsOrderedAlike(e.args[k], pv)
  }

  // ---- the conjuncts nobody checks ---------------------------------------------------------------------

  /** Only comparisons of fields and scalars under the connectives: pruning decides such an
      expression when all its fields are partition fields. */
  predicate Decidable(e: Expr)
    requires Decoded(e)
  {
    e.Call? &&
    if e.op.CmpOp? then !e.args[0].Call? && !e.args[1].Call?
    else forall k :: 0 <= k < |e.args| ==> Decidable(e.args[k])
  }

  /** Disjunctions that mix partition and data columns, found among the conjuncts. They are
      pushable, so they leave no residual; stripping then removes them from the pushed filter. */
  function MixedDisjuncts(e: Expr, keys: set<string>): seq<Expr>
    requires Decoded(e)
    ensures forall x :: x in MixedDisjuncts(e, keys) ==> Decoded(x)
  {
    match e
    case Call(AndOp, args) => MixedDisjuncts(args[0], keys) + MixedDisjuncts(args[1], keys)
    case Call(OrOp, _) =>
      var s := SplitNode(e);
      if s.pushed.Some? && ReferencesPartition(s.pushed.value, keys) && !PushedOnlyPartitions(s.pushed.value, keys)
      then [e] else []
    case _ => []
  }

  /** The conjuncts of the filter that neither pruning, nor Parquet, nor the residual checks. */
  function Unchecked(e: Expr, keys: set<string>): (xs: seq<Expr>)
    requires Decoded(e)
    ensures forall x :: x in xs ==> Decoded(x)
  {
    if PartitionOnly(e, keys) then (if Decidable(e) then [] else [e])
    else if Compile(e, keys).residual == Some(e) then []
    else MixedDisjuncts(e, keys)
  }

  predicate AllWanted(s: Site, xs: seq<Expr>)
    requires s.Valid() && forall x :: x in xs ==> Decoded(x)
  {
    forall k :: 0 <= k < |xs| ==> Wanted(s, xs[k])
  }

  // ---- shape of the split ---------------------------------------------------------------------------------

  /** Every connective has two children, as the splitter builds them. */
  predicate Binary(f: FilterExpr) {
    f.Leaf? || (|f.children| == 2 && Binary(f.children[0]) && Binary(f.children[1]))
  }

  /** A fully pushed expression stands for its filter; every split has a part to evaluate. */
  lemma {:induction false} SplitTranslates(e: Expr)
    requires Decoded(e)
    ensures var s := SplitNode(e);
      && (s.residual.Some? ==> Decoded(s.residual.value))
      && (s.pushed.Some? ==> Binary(s.pushed.value))
      && (s.pushed.Some? || s.residual.Some?)
      && (s.pushed.Some? && s.residual.None? ==> Translates(e, s.pushed.value))
  {
    if e.Call? && (e.op.AndOp? || e.op.OrOp?) {
      SplitTranslates(e.args[0]);
      SplitTranslates(e.args[1]);
      var s, l, r := SplitNode(e), SplitNode(e.args[0]), SplitNode(e.args[1]);
      if s.pushed.Some? && s.residual.None? {
        JoinNests(e, l.pushed.value, r.pushed.value);
      }
    } else if e.Call? && e.op.CmpOp? {
      assert e.args == [e.args[0], e.args[1]];
      assert Flip(Flip(e.op.cmp)) == e.op.cmp;
    }
  }

  lemma JoinNests(e: Expr, l: FilterExpr, r: FilterExpr)
    requires Decoded(e) && e.Call? && (e.op.AndOp? || e.op.OrOp?)
    requires Translates(e.args[0], l) && Translates(e.args[1], r)
    ensures Nests(e, e.op, [l, r])
  {
    assert [l, r][..1] == [l] && [l, r][1..] == [r];
    assert Nests(e.args[0], e.op, [l, r][..1]) && Nests(e.args[1], e.op, [l, r][1..]);
  }

  lemma CompileDecodes(e: Expr, keys: set<string>)
    requires Decoded(e)
    ensures Compile(e, keys).residual.Some? ==> Decoded(Compile(e, keys).residual.value)
  {
    SplitTranslates(e);
  }

  lemma {:induction false} StripNothing(f: FilterExpr, keys: set<string>)
    requires Binary(f) && !ReferencesPartition(f, keys)
    ensures StripPushed(f, keys) == Some(f)
  {
    if !f.Leaf? {
      StripNothing(f.children[0], keys);
      StripNothing(f.children[1], keys);
      StripPair(f.children, keys);
      assert StripAll(f.children, keys) == [f.children[0], f.children[1]] == f.children;
    }
  }

  lemma StripPair(xs: seq<FilterExpr>, keys: set<string>)
    requires |xs| == 2
    ensures StripAll(xs, keys) == Listed(StripPushed(xs[0], keys)) + Listed(StripPushed(xs[1], keys))
  {
    assert xs[1..] == [xs[1]];
    assert StripAll(xs[1..], keys) == Listed(StripPushed(xs[1], keys));
  }

  function Listed(x: Option<FilterExpr>): seq<FilterExpr> {
    if x.None? then [] else [x.value]
  }

  /** Stripping a two-child conjunction strips its children. */
  lemma StripAnd(l: FilterExpr, r: FilterExpr, keys: set<string>)
    ensures var a, b := StripPushed(l, keys), StripPushed(r, keys);
      StripPushed(F.And([l, r]), keys) ==
      if a.None? then b else if b.None? then a else Some(F.And([a.value, b.value]))
  {
    StripPair([l, r], keys);
    var a, b := StripPushed(l, keys), StripPushed(r, keys);
    assert StripAll([l, r], keys) == Listed(a) + Listed(b);
    assert a.None? && b.Some? ==> Listed(a) + Listed(b) == [b.value];
    assert a.Some? && b.Some? ==> Listed(a) + Listed(b) == [a.value, b.value];
  }

  // ---- binding ------------------------------------------------------------------------------------------

  lemma {:induction false} BindNothing(e: Expr, f: FilterExpr, pv: map<string, Literal>)
    requires Decoded(e) && SplitNode(e) == Split(Some(f), None) && !ReferencesPartition(f, pv.Keys)
    ensures Bind(e, pv) == e
  {
    if e.op.CmpOp? {
      assert Bind(e, pv).args == e.args;
    } else {
      SplitTranslates(e.args[0]);
      SplitTranslates(e.args[1]);
      var l, r := SplitNode(e.args[0]), SplitNode(e.args[1]);
      assert f.children[0] == l.pushed.value && f.children[1] == r.pushed.value;
      BindNothing(e.args[0], l.pushed.value, pv);
      BindNothing(e.args[1], r.pushed.value, pv);
      assert Bind(e, pv).args == e.args;
    }
  }

  lemma BindArgs(e: Expr, pv: map<string, Literal>)
    requires e.Call?
    ensures Bind(e, pv).Call? && Bind(e, pv).op == e.op && |Bind(e, pv).args| == |e.args|
    ensures forall k :: 0 <= k < |e.args| ==> Bind(e, pv).args[k] == Bind(e.args[k], pv)
  {
  }

  lemma BooleanArgs(schema: seq<Field>, x: Expr)
    requires Decoded(x) && x.Call? && !x.op.CmpOp? && BooleanFor(schema, x)
    ensures forall k :: 0 <= k < |x.args| ==> BooleanFor(schema, x.args[k])
  {
  }

  lemma WantedAnd(s: Site, e: Expr)
    requires s.Valid() && Decoded(e) && e.Call? && e.op.AndOp?
    ensures Wanted(s, e) <==> Wanted(s, e.args[0]) && Wanted(s, e.args[1])
  {
    BindArgs(e, s.pv);
    NullAtArgs(s.b, s.row, Bind(e, s.pv));
  }

  // ---- pruning ------------------------------------------------------------------------------------------

  lemma KnownIsBound(e: Expr, pv: map<string, Literal>)
    requires Decoded(e) && PartitionEval(e, pv).Known?
    ensures Bind(e, pv) == Scalar(PartitionEval(e, pv).lit)
  {
  }

  lemma LiteralComparison(s: Site, x: Expr, l: Literal, r: Literal)
    requires s.Valid() && Decoded(x) && x.Call? && x.op.CmpOp? && BooleanFor(s.b.schema, x)
    requires x.args[0] == Scalar(l) && x.args[1] == Scalar(r)
    ensures LitCompare(x.op.cmp, l, r).Ok? && !NullAt(s.b, s.row, x)
    ensures Truth(s.b, s.row, x) <==> LitCompare(x.op.cmp, l, r).value
  {
    var schema := s.b.schema;
    assert TypeOf(schema, x.args[0]) == Ok(LitOf(l)) && TypeOf(schema, x.args[1]) == Ok(LitOf(r));
    assert CmpFault(LitOf(l), LitOf(r)).None?;
    assert !NullAt(s.b, s.row, x.args[0]) && !NullAt(s.b, s.row, x.args[1]);
    NullAtArgs(s.b, s.row, x);
  }

  /** A comparison pruning decides: both operands are literals once bound, and its verdict is the kernel's
      exactly when Elixir orders them as the kernels do. */
  lemma PrunedComparison(s: Site, e: Expr)
    requires s.Valid() && Decoded(e) && e.Call? && e.op.CmpOp? && BooleanFor(s.b.schema, Bind(e, s.pv))
    requires PartitionEval(e.args[0], s.pv).Known? && PartitionEval(e.args[1], s.pv).Known?
    requires Orderable(PartitionEval(e.args[0], s.pv).lit) && Orderable(PartitionEval(e.args[1], s.pv).lit)
    ensures !NullAt(s.b, s.row, Bind(e, s.pv))
    ensures (Wanted(s, e) <==> MayMatch(e, s.pv)) <==> TermsOrderedAlike(e, s.pv)
    ensures TermsOrderedAlike(e, s.pv) ==> (Truth(s.b, s.row, Bind(e, s.pv)) <==> PartitionEval(e, s.pv) == True)
    ensures PartitionEval(e, s.pv).True? || PartitionEval(e, s.pv).False?
  {
    var l, r := PartitionEval(e.args[0], s.pv).lit, PartitionEval(e.args[1], s.pv).lit;
    KnownIsBound(e.args[0], s.pv);
    KnownIsBound(e.args[1], s.pv);
    BindArgs(e, s.pv);
    LiteralComparison(s, Bind(e, s.pv), l, r);
    TermOrderAgrees(e.op.cmp, l, r);
  }

  /** Pruning is sound: a verdict of false or true is the truth of every row without nulls. */
  lemma {:induction false} PruningIsSound(s: Site, e: Expr)
    requires s.Valid() && Decoded(e) && BooleanFor(s.b.schema, Bind(e, s.pv)) && TermsOrderedAlike(e, s.pv)
    requires !NullAt(s.b, s.row, Bind(e, s.pv))
    ensures PartitionEval(e, s.pv) == False ==> !Truth(s.b, s.row, Bind(e, s.pv))
    ensures PartitionEval(e, s.pv) == True ==> Truth(s.b, s.row, Bind(e, s.pv))
  {
    if e.Call? {
      var x := Bind(e, s.pv);
      BindArgs(e, s.pv);
      NullAtArgs(s.b, s.row, x);
      if e.op.CmpOp? {
        if PartitionEval(e.args[0], s.pv).Known? && PartitionEval(e.args[1], s.pv).Known? {
          PrunedComparison(s, e);
        }
      } else {
        BooleanArgs(s.b.schema, x);
        PruningIsSound(s, e.args[0]);
        if !e.op.NotOp? {
          PruningIsSound(s, e.args[1]);
        }
      }
    }
  }

  /** On a decidable expression over partition fields only, pruning is exact. */
  lemma {:induction false} PruningDecides(s: Site, e: Expr)
    requires s.Valid() && Decoded(e) && BooleanFor(s.b.schema, Bind(e, s.pv)) && TermsOrderedAlike(e, s.pv)
    requires PartitionOnly(e, s.pv.Keys) && Decidable(e)
    ensures PartitionEval(e, s.pv).True? || PartitionEval(e, s.pv).False?
    ensures !NullAt(s.b, s.row, Bind(e, s.pv))
    ensures Wanted(s, e) <==> MayMatch(e, s.pv)
  {
    var x := Bind(e, s.pv);
    BindArgs(e, s.pv);
    NullAtArgs(s.b, s.row, x);
    if e.op.CmpOp? {
      PrunedComparison(s, e);
    } else {
      BooleanArgs(s.b.schema, x);
      PruningDecides(s, e.args[0]);
      if !e.op.NotOp? {
        PruningDecides(s, e.args[1]);
      }
    }
  }

  // ---- the three parts together -----------------------------------------------------------------------

  predicate PushedOk(schema: seq<Field>, pushed: Option<FilterExpr>) {
    pushed.Some? ==> F.FirstFault(schema, pushed.value).None?
  }

  /** A fully pushed expression without partition fields: Parquet keeps the rows the filter wants. */
  lemma PushedDecides(s: Site, e: Expr)
    requires s.Valid() && Decoded(e) && BooleanFor(s.b.schema, Bind(e, s.pv))
    requires SplitNode(e).pushed.Some? && SplitNode(e).residual.None?
    requires !ReferencesPartition(SplitNode(e).pushed.value, s.pv.Keys)
    requires PushedOk(s.b.schema, Strip(SplitNode(e).pushed, s.pv.Keys))
    ensures Wanted(s, e) <==> PushedKeeps(s, Strip(SplitNode(e).pushed, s.pv.Keys))
  {
    var f := SplitNode(e).pushed.value;
    SplitTranslates(e);
    StripNothing(f, s.pv.Keys);
    BindNothing(e, f, s.pv);
    RowAgrees(s.b, s.row, e, f);
  }

  /** A fully pushed expression over partition fields only is one that pruning decides. */
  lemma {:induction false} PushedPartitionsDecidable(e: Expr, keys: set<string>)
    requires Decoded(e) && SplitNode(e).pushed.Some? && SplitNode(e).residual.None?
    requires PushedOnlyPartitions(SplitNode(e).pushed.value, keys)
    ensures PartitionOnly(e, keys) && Decidable(e)
    ensures ReferencesPartition(SplitNode(e).pushed.value, keys)
    ensures MixedDisjuncts(e, keys) == []
  {
    if !e.op.CmpOp? {
      SplitTranslates(e.args[0]);
      SplitTranslates(e.args[1]);
      var f := SplitNode(e).pushed.value;
      assert f.children[0] == SplitNode(e.args[0]).pushed.value;
      assert f.children[1] == SplitNode(e.args[1]).pushed.value;
      PushedPartitionsDecidable(e.args[0], keys);
      PushedPartitionsDecidable(e.args[1], keys);
    }
  }

  lemma {:induction false} NothingPushed(e: Expr, keys: set<string>)
    requires Decoded(e) && SplitNode(e).pushed.None?
    ensures SplitNode(e).residual == Some(e) && MixedDisjuncts(e, keys) == []
  {
    if e.Call? && e.op.AndOp? {
      NothingPushed(e.args[0], keys);
      NothingPushed(e.args[1], keys);
      assert e.args == [e.args[0], e.args[1]];
    }
  }

  function JoinPushed(l: Option<FilterExpr>, r: Option<FilterExpr>): Option<FilterExpr> {
    if l.None? then r else if r.None? then l else Some(F.And([l.value, r.value]))
  }

  lemma JoinedPushedKeeps(s: Site, a: FilterExpr, b: FilterExpr)
    requires s.Valid()
    ensures F.Meaning(s.b, s.row, F.And([a, b])) == Some(true) <==>
            F.Meaning(s.b, s.row, a) == Some(true) && F.Meaning(s.b, s.row, b) == Some(true)
    ensures F.FirstFault(s.b.schema, F.And([a, b])).None? ==>
            F.FirstFault(s.b.schema, a).None? && F.FirstFault(s.b.schema, b).None?
  {
    var xs := [a, b];
    F.NoFault(s.b.schema, xs);
    assert xs[0] == a && xs[1] == b;
  }

  lemma PushedAnd(s: Site, l: Option<FilterExpr>, r: Option<FilterExpr>)
    requires s.Valid()
    ensures var keys := s.pv.Keys;
      && (PushedKeeps(s, Strip(JoinPushed(l, r), keys)) <==>
          PushedKeeps(s, Strip(l, keys)) && PushedKeeps(s, Strip(r, keys)))
      && (PushedOk(s.b.schema, Strip(JoinPushed(l, r), keys)) ==>
          PushedOk(s.b.schema, Strip(l, keys)) && PushedOk(s.b.schema, Strip(r, keys)))
  {
    var keys := s.pv.Keys;
    if l.Some? && r.Some? {
      StripAnd(l.value, r.value, keys);
      if Strip(l, keys).Some? && Strip(r, keys).Some? {
        JoinedPushedKeeps(s, Strip(l, keys).value, Strip(r, keys).value);
      }
    }
  }

  lemma AllWantedConcat(s: Site, xs: seq<Expr>, ys: seq<Expr>)
    requires s.Valid() && (forall x :: x in xs ==> Decoded(x)) && (forall y :: y in ys ==> Decoded(y))
    ensures AllWanted(s, xs + ys) <==> AllWanted(s, xs) && AllWanted(s, ys)
  {
    assert forall k :: 0 <= k < |xs| ==> (xs + ys)[k] == xs[k];
    assert forall k :: 0 <= k < |ys| ==> (xs + ys)[|xs| + k] == ys[k];
  }

  /** A row is wanted exactly when the stripped pushed filter and the residual of the split keep
      it, and so do the mixed disjunctions. */
  predicate SplitExact(s: Site, e: Expr)
    requires s.Valid() && Decoded(e)
  {
    SplitTranslates(e);
    Wanted(s, e) <==>
    && PushedKeeps(s, Strip(SplitNode(e).pushed, s.pv.Keys))
    && ResidualKeeps(s, SplitNode(e).residual)
    && AllWanted(s, MixedDisjuncts(e, s.pv.Keys))
  }

  lemma ConjunctionExact(s: Site, e: Expr)
    requires s.Valid() && Decoded(e) && e.Call? && e.op.AndOp?
    requires SplitExact(s, e.args[0]) && SplitExact(s, e.args[1])
    ensures SplitExact(s, e)
  {
    var l, r := SplitNode(e.args[0]), SplitNode(e.args[1]);
    SplitTranslates(e);
    SplitTranslates(e.args[0]);
    SplitTranslates(e.args[1]);
    PushedAnd(s, l.pushed, r.pushed);
    WantedAnd(s, e);
    if l.residual.Some? && r.residual.Some? {
      WantedAnd(s, SplitNode(e).residual.value);
    }
    AllWantedConcat(s, MixedDisjuncts(e.args[0], s.pv.Keys), MixedDisjuncts(e.args[1], s.pv.Keys));
  }

  /** So it is in every fragment that pruning keeps and whose reader accepts the filter. */
  lemma SplitDecides(s: Site, e: Expr)
    requires s.Valid() && Decoded(e) && BooleanFor(s.b.schema, Bind(e, s.pv)) && TermsOrderedAlike(e, s.pv)
    requires MayMatch(e, s.pv)
    ensures PushedOk(s.b.schema, Strip(SplitNode(e).pushed, s.pv.Keys)) ==> SplitExact(s, e)
  {
    if PushedOk(s.b.schema, Strip(SplitNode(e).pushed, s.pv.Keys)) {
      AcceptedSplitDecides(s, e);
    }
  }

  lemma {:induction false} AcceptedSplitDecides(s: Site, e: Expr)
    requires s.Valid() && Decoded(e) && BooleanFor(s.b.schema, Bind(e, s.pv)) && TermsOrderedAlike(e, s.pv)
    requires MayMatch(e, s.pv) && PushedOk(s.b.schema, Strip(SplitNode(e).pushed, s.pv.Keys))
    ensures SplitExact(s, e)
  {
    var keys, split := s.pv.Keys, SplitNode(e);
    SplitTranslates(e);
    if split.pushed.None? {
      NothingPushed(e, keys);
    } else if e.op.AndOp? {
      BindArgs(e, s.pv);
      BooleanArgs(s.b.schema, Bind(e, s.pv));
      PushedAnd(s, SplitNode(e.args[0]).pushed, SplitNode(e.args[1]).pushed);
      AcceptedSplitDecides(s, e.args[0]);
      AcceptedSplitDecides(s, e.args[1]);
      ConjunctionExact(s, e);
    } else if !ReferencesPartition(split.pushed.value, keys) {
      PushedDecides(s, e);
    } else if PushedOnlyPartitions(split.pushed.value, keys) {
      PushedPartitionsDecidable(e, keys);
      PruningDecides(s, e);
      assert Strip(split.pushed, keys).None?;
    } else {
      assert MixedDisjuncts(e, keys) == [e];
      OneUnchecked(s, e);
    }
  }

  lemma {:induction false} PartitionOnlyIsStripped(e: Expr, keys: set<string>)
    requires Decoded(e) && PartitionOnly(e, keys) && SplitNode(e).pushed.Some?
    ensures Strip(SplitNode(e).pushed, keys).None? && ReferencesPartition(SplitNode(e).pushed.value, keys)
  {
    if !e.op.CmpOp? {
      var l, r := SplitNode(e.args[0]), SplitNode(e.args[1]);
      if l.pushed.Some? {
        PartitionOnlyIsStripped(e.args[0], keys);
      }
      if r.pushed.Some? {
        PartitionOnlyIsStripped(e.args[1], keys);
      }
      if l.pushed.Some? && r.pushed.Some? {
        StripAnd(l.pushed.value, r.pushed.value, keys);
        assert SplitNode(e).pushed.value.children[0] == l.pushed.value;
      }
    }
  }

  /** What a scan decides about a row of a fragment that it prunes or whose reader accepts the filter. The
      filter wants the row exactly when the scan keeps it and the row satisfies the conjuncts that nothing
      checks. */
  lemma ScanDecides(s: Site, e: Expr)
    requires s.Valid() && Decoded(e) && BooleanFor(s.b.schema, Bind(e, s.pv)) && TermsOrderedAlike(e, s.pv)
    ensures (MayMatch(e, s.pv) ==> Accepted(s.b.schema, e, s.pv)) ==>
              (Wanted(s, e) <==> ScanKeeps(s, e) && AllWanted(s, Unchecked(e, s.pv.Keys)))
  {
    if !MayMatch(e, s.pv) {
      PrunedRowIsUnwanted(s, e);
    } else if PartitionOnly(e, s.pv.Keys) {
      PartitionOnlyDecides(s, e);
    } else if Accepted(s.b.schema, e, s.pv) {
      AcceptedDecides(s, e);
    }
  }

  lemma PrunedRowIsUnwanted(s: Site, e: Expr)
    requires s.Valid() && Decoded(e) && BooleanFor(s.b.schema, Bind(e, s.pv)) && TermsOrderedAlike(e, s.pv)
    requires !MayMatch(e, s.pv)
    ensures !Wanted(s, e) && !ScanKeeps(s, e)
  {
    if !NullAt(s.b, s.row, Bind(e, s.pv)) {
      PruningIsSound(s, e);
    }
  }

  lemma PartitionOnlyDecides(s: Site, e: Expr)
    requires s.Valid() && Decoded(e) && BooleanFor(s.b.schema, Bind(e, s.pv)) && TermsOrderedAlike(e, s.pv)
    requires MayMatch(e, s.pv) && PartitionOnly(e, s.pv.Keys)
    ensures ScanKeeps(s, e) && (Wanted(s, e) <==> AllWanted(s, Unchecked(e, s.pv.Keys)))
  {
    if SplitNode(e).pushed.Some? {
      PartitionOnlyIsStripped(e, s.pv.Keys);
    }
    assert Compile(e, s.pv.Keys) == Split(None, None);
    if Decidable(e) {
      PruningDecides(s, e);
    } else {
      OneUnchecked(s, e);
    }
  }

  lemma AcceptedDecides(s: Site, e: Expr)
    requires s.Valid() && Decoded(e) && BooleanFor(s.b.schema, Bind(e, s.pv)) && TermsOrderedAlike(e, s.pv)
    requires MayMatch(e, s.pv) && !PartitionOnly(e, s.pv.Keys) && Accepted(s.b.schema, e, s.pv)
    ensures Wanted(s, e) <==> ScanKeeps(s, e) && AllWanted(s, Unchecked(e, s.pv.Keys))
  {
    SplitTranslates(e);
    CompiledParts(e, s.pv.Keys);
    AcceptedSplitDecides(s, e);
  }

  /** The compiled parts are those of the split, or the whole filter is left to the residual. */
  lemma CompiledParts(e: Expr, keys: set<string>)
    requires Decoded(e) && !PartitionOnly(e, keys)
    ensures Compile(e, keys).pushed == Strip(SplitNode(e).pushed, keys)
    ensures Compile(e, keys).residual == Some(e) || Compile(e, keys).residual == SplitNode(e).residual
  {
    SplitTranslates(e);
    if SplitNode(e).residual.None? && Strip(SplitNode(e).pushed, keys).None? &&
       PushedOnlyPartitions(SplitNode(e).pushed.value, keys) {
      PushedPartitionsDecidable(e, keys);
    }
  }

  lemma OneUnchecked(s: Site, e: Expr)
    requires s.Valid() && Decoded(e)
    ensures AllWanted(s, [e]) <==> Wanted(s, e)
  {
    assert [e][0] == e;
  }

  /** What is left for the residual evaluates wherever the whole filter does. */
  lemma {:induction false} SplitResidualEvaluates(schema: seq<Field>, e: Expr, pv: map<string, Literal>)
    requires Decoded(e) && BooleanFor(schema, Bind(e, pv)) && SplitNode(e).residual.Some?
    ensures Decoded(SplitNode(e).residual.value) && BooleanFor(schema, Bind(SplitNode(e).residual.value, pv))
  {
    SplitTranslates(e);
    if e.Call? && e.op.AndOp? {
      BindArgs(e, pv);
      BooleanArgs(schema, Bind(e, pv));
      var l, r := SplitNode(e.args[0]), SplitNode(e.args[1]);
      if l.residual.Some? {
        SplitResidualEvaluates(schema, e.args[0], pv);
      }
      if r.residual.Some? {
        SplitResidualEvaluates(schema, e.args[1], pv);
      }
      if l.residual.Some? && r.residual.Some? {
        BindArgs(SplitNode(e).residual.value, pv);
      }
    }
  }

  lemma ResidualEvaluates(schema: seq<Field>, e: Expr, pv: map<string, Literal>)
    requires Decoded(e) && BooleanFor(schema, Bind(e, pv)) && Compile(e, pv.Keys).residual.Some?
    ensures Decoded(Compile(e, pv.Keys).residual.value)
    ensures BooleanFor(schema, Bind(Compile(e, pv.Keys).residual.value, pv))
  {
    if SplitNode(e).residual.Some? {
      SplitResidualEvaluates(schema, e, pv);
    }
  }

  /** What is pushed has no empty connective. */
  lemma {:induction false} BinaryIsDecoded(f: FilterExpr)
    requires Binary(f)
    ensures F.Decoded(f)
  {
    if !f.Leaf? {
      BinaryIsDecoded(f.children[0]);
      BinaryIsDecoded(f.children[1]);
    }
  }

  lemma {:induction false} StrippedIsBinary(f: FilterExpr, keys: set<string>)
    requires Binary(f) && StripPushed(f, keys).Some?
    ensures Binary(StripPushed(f, keys).value)
  {
    if !f.Leaf? {
      StripPair(f.children, keys);
      if StripPushed(f.children[0], keys).Some? {
        StrippedIsBinary(f.children[0], keys);
      }
      if StripPushed(f.children[1], keys).Some? {
        StrippedIsBinary(f.children[1], keys);
      }
    }
  }

  lemma CompiledFilterIsDecoded(e: Expr, keys: set<string>)
    requires Decoded(e) && Compile(e, keys).pushed.Some?
    ensures F.Decoded(Compile(e, keys).pushed.value)
  {
    SplitTranslates(e);
    StrippedIsBinary(SplitNode(e).pushed.value, keys);
    BinaryIsDecoded(Compile(e, keys).pushed.value);
  }

  // ---- filters the reader refuses -----------------------------------------------------------------------

  /** What is pushed of a filter that evaluates are comparisons that evaluate. */
  lemma {:induction false} PushedConverts(schema: seq<Field>, e: Expr, pv: map<string, Literal>)
    requires Decoded(e) && BooleanFor(schema, Bind(e, pv)) && Strip(SplitNode(e).pushed, pv.Keys).Some?
    ensures Convertible(schema, Strip(SplitNode(e).pushed, pv.Keys).value)
  {
    SplitTranslates(e);
    if !e.op.AndOp? {
      FullyPushedConverts(schema, e, pv);
    } else {
      BindArgs(e, pv);
      BooleanArgs(schema, Bind(e, pv));
      var l, r := SplitNode(e.args[0]).pushed, SplitNode(e.args[1]).pushed;
      if Strip(l, pv.Keys).Some? {
        PushedConverts(schema, e.args[0], pv);
      }
      if Strip(r, pv.Keys).Some? {
        PushedConverts(schema, e.args[1], pv);
      }
      JoinConverts(schema, l, r, pv.Keys);
      assert SplitNode(e).pushed == JoinPushed(l, r);
    }
  }

  predicate PartConverts(schema: seq<Field>, f: Option<FilterExpr>) {
    f.Some? ==> Convertible(schema, f.value)
  }

  lemma JoinConverts(schema: seq<Field>, l: Option<FilterExpr>, r: Option<FilterExpr>, keys: set<string>)
    requires PartConverts(schema, Strip(l, keys)) && PartConverts(schema, Strip(r, keys))
    ensures PartConverts(schema, Strip(JoinPushed(l, r), keys))
  {
    if l.Some? && r.Some? {
      StripAnd(l.value, r.value, keys);
    }
  }

  lemma FullyPushedConverts(schema: seq<Field>, e: Expr, pv: map<string, Literal>)
    requires Decoded(e) && BooleanFor(schema, Bind(e, pv)) && e.Call? && !e.op.AndOp?
    requires Strip(SplitNode(e).pushed, pv.Keys).Some?
    ensures Convertible(schema, Strip(SplitNode(e).pushed, pv.Keys).value)
  {
    var f := SplitNode(e).pushed.value;
    SplitTranslates(e);
    assert !ReferencesPartition(f, pv.Keys);
    StripNothing(f, pv.Keys);
    BindNothing(e, f, pv);
    EvaluableConverts(schema, e, f);
  }

  /** Of a filter that evaluates, the reader refuses the pushed part exactly when some comparison in it meets
      a column type the Parquet predicate has no case for. */
  lemma RefusalIsExact(schema: seq<Field>, e: Expr, pv: map<string, Literal>)
    requires Decoded(e) && BooleanFor(schema, Bind(e, pv))
    ensures !Accepted(schema, e, pv) <==>
            Compile(e, pv.Keys).pushed.Some? && Refused(schema, Compile(e, pv.Keys).pushed.value)
  {
    if Compile(e, pv.Keys).pushed.Some? {
      CompiledFilterIsDecoded(e, pv.Keys);
      PushedConverts(schema, e, pv);
      RefusalIsByType(schema, Compile(e, pv.Keys).pushed.value);
    }
  }

  const SMALL := Call(CmpOp(Gt), [FieldRef("x"), Scalar(IntLit(5, 5, 5))])

  /** `x > 5` on a 16-bit integer, unsigned 32-bit integer or single-precision column: the expression
      evaluates and nothing of it is unchecked, but it is pushed whole, and the reader refuses it. */
  lemma SmallIntegersAreRefused(t: DataType)
    requires t == Int16 || t == UInt32 || t == Float32
    ensures Decoded(SMALL) && BooleanFor([Field("x", t)], Bind(SMALL, map[])) && TermsOrderedAlike(SMALL, map[])
    ensures Unchecked(SMALL, {}) == [] && !Accepted([Field("x", t)], SMALL, map[])
  {
    var schema, pv := [Field("x", t)], map[];
    assert TypeOf(schema, SMALL.args[0]) == Ok(ArrayOf(t));
    assert TypeOf(schema, SMALL.args[1]) == Ok(LitOf(IntLit(5, 5, 5)));
    BindArgs(SMALL, pv);
    assert Bind(SMALL, pv).args == SMALL.args;
    assert SplitNode(SMALL) == Split(Some(F.Leaf(Gt, "x", IntLit(5, 5, 5))), None);
    assert PartitionEval(SMALL.args[0], pv).Unknown?;
    assert !PartitionOnly(SMALL.args[0], {});
    RefusalIsExact(schema, SMALL, pv);
  }

  // ---- filters that a scan gets wrong -------------------------------------------------------------------

  const YEAR_2026 := Call(CmpOp(Eq), [FieldRef("year"), Scalar(IntLit(2026, 2026, 2026))])
  const PAID := Call(CmpOp(Gt), [FieldRef("amount"), Scalar(IntLit(0, 0, 0))])
  const SCORED := Call(CmpOp(Gt), [FieldRef("score"), Scalar(IntLit(1, 1, 1))])
  const YEAR_OR_PAID := Call(OrOp, [YEAR_2026, PAID])
  /** (year == 2026 or amount > 0) and score > 1, with `year` a partition key. */
  const MIXED_FILTER := Call(AndOp, [YEAR_OR_PAID, SCORED])

  /** A fragment of 2025 with one row: amount -1, score 5. */
  const UNPAID := Batch(1, [Field("amount", Int64), Field("score", Int64)],
                        [Column(Int64, [Some(IntCell(-1))]), Column(Int64, [Some(IntCell(5))])])
  const UNPAID_ROW := Site(UNPAID, 0, map["year" := IntLit(2025, 2025, 2025)])

  const YEAR_LEAF := F.Leaf(Eq, "year", IntLit(2026, 2026, 2026))
  const PAID_LEAF := F.Leaf(Gt, "amount", IntLit(0, 0, 0))
  const SCORED_LEAF := F.Leaf(Gt, "score", IntLit(1, 1, 1))
  const YEAR_OR_PAID_FILTER := F.Or([YEAR_LEAF, PAID_LEAF])

  lemma MixedDisjunction()
    ensures Decoded(YEAR_OR_PAID) && SplitNode(YEAR_OR_PAID) == Split(Some(YEAR_OR_PAID_FILTER), None)
    ensures StripPushed(YEAR_OR_PAID_FILTER, {"year"}) == None
    ensures MixedDisjuncts(YEAR_OR_PAID, {"year"}) == [YEAR_OR_PAID]
  {
    assert SplitNode(YEAR_2026) == Split(Some(YEAR_LEAF), None) && SplitNode(PAID) == Split(Some(PAID_LEAF), None);
    var kids := YEAR_OR_PAID_FILTER.children;
    assert ReferencesPartition(kids[0], {"year"}) && !PushedOnlyPartitions(kids[1], {"year"});
  }

  lemma MixedFilterSplit()
    ensures Decoded(MIXED_FILTER)
    ensures Compile(MIXED_FILTER, {"year"}) == Split(Some(SCORED_LEAF), None)
    ensures Unchecked(MIXED_FILTER, {"year"}) == [YEAR_OR_PAID]
  {
    MixedDisjunction();
    assert SplitNode(SCORED) == Split(Some(SCORED_LEAF), None);
    StripAnd(YEAR_OR_PAID_FILTER, SCORED_LEAF, {"year"});
    assert StripPushed(SCORED_LEAF, {"year"}) == Some(SCORED_LEAF);
    assert !PartitionOnly(SCORED.args[0], {"year"});
    assert !PartitionOnly(MIXED_FILTER.args[1], {"year"});
    assert MixedDisjuncts(SCORED, {"year"}) == [];
    assert MixedDisjuncts(MIXED_FILTER, {"year"}) == [YEAR_OR_PAID] + [];
  }

  lemma UnpaidCells()
    ensures UNPAID.Valid()
    ensures ColumnByName(UNPAID, "amount") == Some(UNPAID.columns[0])
    ensures ColumnByName(UNPAID, "score") == Some(UNPAID.columns[1])
    ensures TypeOf(UNPAID.schema, FieldRef("amount")) == Ok(ArrayOf(Int64))
  {
    assert UNPAID.schema[1..][0] == UNPAID.schema[1];
    assert FieldIndex(UNPAID.schema[1..], "score") == Some(0);
  }

  lemma MixedFilterMayMatch()
    ensures Decoded(MIXED_FILTER) && MayMatch(MIXED_FILTER, UNPAID_ROW.pv)
  {
    var pv := UNPAID_ROW.pv;
    assert PartitionEval(PAID.args[0], pv).Unknown? && PartitionEval(SCORED.args[0], pv).Unknown?;
    assert PartitionEval(YEAR_OR_PAID.args[1], pv).Unknown? && PartitionEval(MIXED_FILTER.args[1], pv).Unknown?;
    assert !PartitionEval(MIXED_FILTER.args[0], pv).False?;
  }

  lemma NotPaid()
    ensures UNPAID.Valid() && !Truth(UNPAID, 0, PAID)
  {
    UnpaidCells();
    assert Converted(UNPAID.schema, IntLit(0, 0, 0), FieldRef("amount")) == IntCell(0);
    assert ValueAt(UNPAID, 0, FieldRef("amount")) == IntCell(-1);
    assert ValueAt(UNPAID, 0, PAID) == BoolCell(Compare(Gt, IntCell(-1), IntCell(0)));
  }

  const NOT_THAT_YEAR := Call(CmpOp(Eq), [Scalar(IntLit(2025, 2025, 2025)), Scalar(IntLit(2026, 2026, 2026))])

  lemma NotThatYear()
    ensures UNPAID.Valid() && !Truth(UNPAID, 0, NOT_THAT_YEAR)
  {
    UnpaidCells();
    assert LitCompare(Eq, IntLit(2025, 2025, 2025), IntLit(2026, 2026, 2026)) == Ok(false);
  }

  lemma BoundDisjunction()
    ensures Bind(YEAR_OR_PAID, UNPAID_ROW.pv) == Call(OrOp, [NOT_THAT_YEAR, PAID])
  {
    var pv := UNPAID_ROW.pv;
    BindArgs(YEAR_OR_PAID, pv);
    BindArgs(YEAR_2026, pv);
    BindArgs(PAID, pv);
    assert Bind(YEAR_2026, pv).args == NOT_THAT_YEAR.args;
    assert Bind(PAID, pv).args == PAID.args;
    assert Bind(YEAR_OR_PAID, pv).args == [NOT_THAT_YEAR, PAID];
  }

  lemma UnpaidRowIsUnwanted()
    ensures UNPAID_ROW.Valid() && Decoded(YEAR_OR_PAID) && !Wanted(UNPAID_ROW, YEAR_OR_PAID)
  {
    BoundDisjunction();
    NotPaid();
    NotThatYear();
    NeitherHolds(UNPAID, 0, NOT_THAT_YEAR, PAID);
  }

  lemma NeitherHolds(b: Batch, row: nat, l: Expr, r: Expr)
    requires b.Valid() && row < b.rows && Decoded(l) && Decoded(r) && !Truth(b, row, l) && !Truth(b, row, r)
    ensures Decoded(Call(OrOp, [l, r])) && !Truth(b, row, Call(OrOp, [l, r]))
  {
    assert [l, r][0] == l && [l, r][1] == r;
  }

  /** The scan returns a row the filter rejects: the disjunction is checked nowhere. */
  lemma MixedDisjunctionIsLost()
    ensures UNPAID_ROW.Valid() && Decoded(MIXED_FILTER)
    ensures ScanKeeps(UNPAID_ROW, MIXED_FILTER) && !Wanted(UNPAID_ROW, MIXED_FILTER)
  {
    UnpaidRowIsKept();
    UnpaidRowIsUnwanted();
    WantedAnd(UNPAID_ROW, MIXED_FILTER);
  }

  lemma UnpaidRowIsKept()
    ensures UNPAID_ROW.Valid() && Decoded(MIXED_FILTER) && ScanKeeps(UNPAID_ROW, MIXED_FILTER)
  {
    UnpaidCells();
    MixedFilterSplit();
    MixedFilterMayMatch();
    assert UNPAID_ROW.pv.Keys == {"year"};
    assert PushedKeeps(UNPAID_ROW, Some(SCORED_LEAF));
  }

  /** A bare boolean partition field is never applied: fragments where it is false are returned whole. */
  lemma BarePartitionFieldIsLost(b: Batch, row: nat)
    requires b.Valid() && row < b.rows
    ensures var s := Site(b, row, map["flag" := BoolLit(false)]);
      ScanKeeps(s, FieldRef("flag")) && !Wanted(s, FieldRef("flag"))
  {
  }
}
