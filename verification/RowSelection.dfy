/** Lists of rows of a file and what selecting from them yields. */
module RowSelection {
  import opened Wrappers
  import opened Arrow

  /** A row by its place: row group and row within it. */
  datatype RowId = RowId(group: nat, row: nat)

  /** A verdict on every row: `keep[g][i]` on row `i` of group `g`. */
  type Table = seq<seq<bool>>

  predicate Chosen(keep: Table, id: RowId) {
    id.group < |keep| && id.row < |keep[id.group]| && keep[id.group][id.row]
  }

  /** The row itself if the table keeps it. */
  function SelectOne(id: RowId, keep: Table): seq<RowId> {
    if Chosen(keep, id) then [id] else []
  }

  /** The rows of a list that a table keeps, in order. */
  function Select(ids: seq<RowId>, keep: Table): seq<RowId> {
    if ids == [] then [] else SelectOne(ids[0], keep) + Select(ids[1..], keep)
  }

  lemma SelectCons(id: RowId, ids: seq<RowId>, keep: Table)
    ensures Select([id] + ids, keep) == SelectOne(id, keep) + Select(ids, keep)
  {
    assert ([id] + ids)[1..] == ids;
  }

  lemma {:induction false} SelectConcat(xs: seq<RowId>, ys: seq<RowId>, keep: Table)
    ensures Select(xs + ys, keep) == Select(xs, keep) + Select(ys, keep)
  {
    if xs == [] {
      assert xs + ys == ys;
    } else {
      var tail := xs[1..];
      Regroup([xs[0]], tail, ys);
      assert xs == [xs[0]] + tail;
      SelectCons(xs[0], tail + ys, keep);
      SelectConcat(tail, ys, keep);
      Regroup(SelectOne(xs[0], keep), Select(tail, keep), Select(ys, keep));
    }
  }

  lemma Regroup(a: seq<RowId>, b: seq<RowId>, c: seq<RowId>)
    ensures a + (b + c) == (a + b) + c
  {
  }

  /** Where the batch that begins at `lo` ends: at a cut point, or at the end of the list. Any cutting of a
      list into batches is one by such a function. */
  function BatchEnd(cut: nat -> nat, lo: nat, length: nat): (hi: nat)
    requires lo < length
    ensures lo < hi <= length
  {
    if lo < cut(lo) < length then cut(lo) else length
  }

  lemma NextChunk(ids: seq<RowId>, lo: nat, hi: nat, keep: Table)
    requires lo <= hi <= |ids|
    ensures Select(ids[..hi], keep) == Select(ids[..lo], keep) + Select(ids[lo..hi], keep)
  {
    assert ids[..hi] == ids[..lo] + ids[lo..hi];
    SelectConcat(ids[..lo], ids[lo..hi], keep);
  }

  lemma SelectLast(ids: seq<RowId>, keep: Table)
    requires ids != []
    ensures Select(ids, keep) == Select(ids[..|ids| - 1], keep) + SelectOne(ids[|ids| - 1], keep)
  {
    var last := ids[|ids| - 1];
    assert ids == ids[..|ids| - 1] + [last];
    SelectConcat(ids[..|ids| - 1], [last], keep);
    assert Select([last], keep) == SelectOne(last, keep) + [] == SelectOne(last, keep);
  }

  lemma {:induction false} SelectedRows(ids: seq<RowId>, keep: Table)
    ensures forall id :: id in Select(ids, keep) <==> id in ids && Chosen(keep, id)
  {
    if ids != [] {
      SelectedRows(ids[1..], keep);
      assert ids == [ids[0]] + ids[1..];
    }
  }

  /** Only the verdicts on the listed rows matter. */
  lemma {:induction false} SelectAlike(ids: seq<RowId>, a: Table, b: Table)
    requires forall k :: 0 <= k < |ids| ==> Chosen(a, ids[k]) == Chosen(b, ids[k])
    ensures Select(ids, a) == Select(ids, b)
  {
    if ids != [] {
      SelectAlike(ids[1..], a, b);
    }
  }

  lemma {:induction false} SelectNothing(ids: seq<RowId>, keep: Table)
    requires forall k :: 0 <= k < |ids| ==> !Chosen(keep, ids[k])
    ensures Select(ids, keep) == []
  {
    if ids != [] {
      SelectNothing(ids[1..], keep);
    }
  }

  lemma {:induction false} SelectEverything(ids: seq<RowId>, keep: Table)
    requires forall k :: 0 <= k < |ids| ==> Chosen(keep, ids[k])
    ensures Select(ids, keep) == ids
  {
    if ids != [] {
      SelectEverything(ids[1..], keep);
      assert ids == [ids[0]] + ids[1..];
    }
  }

  /** Selecting twice selects what both tables keep. */
  lemma {:induction false} SelectTwice(ids: seq<RowId>, a: Table, b: Table, both: Table)
    requires forall k :: 0 <= k < |ids| ==> (Chosen(both, ids[k]) <==> Chosen(a, ids[k]) && Chosen(b, ids[k]))
    ensures Select(Select(ids, a), b) == Select(ids, both)
  {
    if ids != [] {
      SelectTwice(ids[1..], a, b, both);
      if Chosen(a, ids[0]) {
        SelectCons(ids[0], Select(ids[1..], a), b);
      } else {
        assert [] + Select(ids[1..], a) == Select(ids[1..], a);
      }
    }
  }

  // ---- row groups --------------------------------------------------------------------------------------------

  /** The rows of the listed groups, group by group. */
  function Gather(groups: seq<nat>, lists: seq<seq<RowId>>): seq<RowId>
    requires forall k :: 0 <= k < |groups| ==> groups[k] < |lists|
  {
    if groups == [] then []
    else
      var n := |groups| - 1;
      Gather(groups[..n], lists) + lists[groups[n]]
  }

  /** Groups are visited in the order of the list, each for all its rows. */
  lemma {:induction false} GatherConcat(xs: seq<nat>, ys: seq<nat>, lists: seq<seq<RowId>>)
    requires forall k :: 0 <= k < |xs| ==> xs[k] < |lists|
    requires forall k :: 0 <= k < |ys| ==> ys[k] < |lists|
    ensures Gather(xs + ys, lists) == Gather(xs, lists) + Gather(ys, lists)
    ensures |ys| == 1 ==> Gather(ys, lists) == lists[ys[0]]
  {
    if ys == [] {
      assert xs + ys == xs;
    } else {
      var n := |ys| - 1;
      GatherConcat(xs, ys[..n], lists);
      assert (xs + ys)[..|xs| + n] == xs + ys[..n];
      Regroup(Gather(xs, lists), Gather(ys[..n], lists), lists[ys[n]]);
    }
  }

  lemma {:induction false} SelectGather(groups: seq<nat>, lists: seq<seq<RowId>>, keep: Table, picked: seq<seq<RowId>>)
    requires |picked| == |lists| && forall k :: 0 <= k < |groups| ==> groups[k] < |lists|
    requires forall g :: 0 <= g < |lists| ==> Select(lists[g], keep) == picked[g]
    ensures Select(Gather(groups, lists), keep) == Gather(groups, picked)
  {
    if groups != [] {
      var n := |groups| - 1;
      SelectGather(groups[..n], lists, keep, picked);
      SelectConcat(Gather(groups[..n], lists), lists[groups[n]], keep);
    }
  }

  /** One row comes before another: in an earlier group, or earlier in the same one. */
  predicate Precedes(a: RowId, b: RowId) {
    a.group < b.group || (a.group == b.group && a.row < b.row)
  }

  predicate InOrder(ids: seq<RowId>) {
    forall i, j :: 0 <= i < j < |ids| ==> Precedes(ids[i], ids[j])
  }

  // ---- through a mask --------------------------------------------------------------------------------------

  /** The rows a mask over a list keeps: the filter kernel. */
  function PickMask(ids: seq<RowId>, m: Mask): seq<RowId>
    requires |m| == |ids|
  {
    var places := Kept(m);
    KeptInRange(m);
    seq(|places|, k requires 0 <= k < |places| => ids[places[k]])
  }

  lemma KeptInRange(m: Mask)
    ensures forall k :: 0 <= k < |Kept(m)| ==> Kept(m)[k] < |m|
  {
    assert forall k :: 0 <= k < |Kept(m)| ==> Kept(m)[k] in Kept(m);
  }

  lemma PickLast(ids: seq<RowId>, m: Mask)
    requires |m| == |ids| > 0
    ensures PickMask(ids, m) ==
            PickMask(ids[..|ids| - 1], m[..|m| - 1]) + (if m[|m| - 1] == Some(true) then [ids[|ids| - 1]] else [])
  {
    KeptInRange(m[..|m| - 1]);
  }

  lemma {:induction false} PickIsSelect(ids: seq<RowId>, m: Mask, keep: Table)
    requires |m| == |ids|
    requires forall k :: 0 <= k < |ids| ==> (m[k] == Some(true) <==> Chosen(keep, ids[k]))
    ensures PickMask(ids, m) == Select(ids, keep)
  {
    if ids != [] {
      var n := |ids| - 1;
      PickIsSelect(ids[..n], m[..n], keep);
      PickLast(ids, m);
      SelectLast(ids, keep);
    }
  }
}
