/** The dataset scan as the Agent runs it (scanner.ex): a state updated step by step by
    `ensure_open`, `take_inner_batch`, `advance` and `finish_scan`, for a single consumer. */
module Scanner {
  import opened Wrappers
  import opened ScanTrace

  datatype Stats = Stats(fragmentsScanned: nat, rowGroupsSelected: nat, rowGroupsSkipped: nat, rowsEmitted: nat)

  datatype EnsureResult = IsOpen | NoneLeft | OpenError(error: ScanError)

  datatype TakeResult<Out> = Took(out: Out, rows: nat, path: string) | TakeError(error: ScanError) | Skip | Finished

  datatype NextResult<Out> = Batch(out: Out, rows: nat, path: string) | Error(error: ScanError) | Done

  // ---- sums over fragments and outcomes --------------------------------------------------------------

  function SelectedGroups<Out>(frags: seq<Fragment<Out>>): nat {
    if frags == [] then 0 else SelectedGroups(frags[..|frags| - 1]) + SelectedIn(frags[|frags| - 1])
  }

  function SkippedGroups<Out>(frags: seq<Fragment<Out>>): nat {
    if frags == [] then 0 else SkippedGroups(frags[..|frags| - 1]) + SkippedIn(frags[|frags| - 1])
  }

  /** The marks the first `count` selected fragments leave when they, and no others, are opened in
      order under one signature: their paths, newest first, and the three counters. */
  predicate Opened<Out>(selected: seq<Fragment<Out>>, count: nat, sig: Signature, paths: seq<string>,
                        scanned: int, groupsSelected: int, groupsSkipped: int)
    decreases count
  {
    if count == 0 then paths == [] && scanned == groupsSelected == groupsSkipped == 0
    else
      && count <= |selected| && paths != [] && paths[0] == selected[count - 1].path
      && selected[count - 1].file.OpenOk? && selected[count - 1].file.schema == Ok(sig)
      && Opened(selected, count - 1, sig, paths[1..], scanned - 1,
                groupsSelected - SelectedIn(selected[count - 1]), groupsSkipped - SkippedIn(selected[count - 1]))
  }

  /** Row groups are counted for Parquet fragments only. */
  function SelectedIn<Out>(frag: Fragment<Out>): nat {
    if frag.format.Parquet? && frag.file.OpenOk? then frag.file.groupsSelected else 0
  }

  function SkippedIn<Out>(frag: Fragment<Out>): nat {
    if frag.format.Parquet? && frag.file.OpenOk? then Skipped(frag.file) else 0
  }

  function TotalIn<Out>(frag: Fragment<Out>): nat {
    if frag.format.Parquet? && frag.file.OpenOk? then frag.file.groupsTotal else 0
  }

  /** `total.saturating_sub(selected)`. */
  function Skipped<Out>(file: FileContent<Out>): (d: nat)
    requires file.OpenOk?
    ensures file.groupsTotal >= file.groupsSelected ==> file.groupsSelected + d == file.groupsTotal
    ensures file.groupsTotal <= file.groupsSelected ==> d == 0
  {
    if file.groupsTotal >= file.groupsSelected then file.groupsTotal - file.groupsSelected else 0
  }

  /** Those marks spelled out. */
  lemma {:induction false} OpenedMeans<Out>(selected: seq<Fragment<Out>>, count: nat, sig: Signature,
                                            paths: seq<string>, scanned: int, groupsSelected: int, groupsSkipped: int)
    requires Opened(selected, count, sig, paths, scanned, groupsSelected, groupsSkipped)
    ensures count <= |selected| && scanned == count == |paths|
    ensures forall k :: 0 <= k < count ==> paths[count - 1 - k] == selected[k].path
    ensures forall k :: 0 <= k < count ==> selected[k].file.OpenOk? && selected[k].file.schema == Ok(sig)
    ensures groupsSelected == SelectedGroups(selected[..count]) && groupsSkipped == SkippedGroups(selected[..count])
    decreases count
  {
    if count > 0 {
      var last := selected[count - 1];
      OpenedMeans(selected, count - 1, sig, paths[1..], scanned - 1,
                  groupsSelected - SelectedIn(last), groupsSkipped - SkippedIn(last));
      assert selected[..count][..count - 1] == selected[..count - 1];
      forall k | 0 <= k < count
        ensures paths[count - 1 - k] == selected[k].path
      {
        if k < count - 1 {
          assert paths[count - 1 - k] == paths[1..][count - 2 - k];
        }
      }
    }
  }

  function TotalGroups<Out>(frags: seq<Fragment<Out>>): nat {
    if frags == [] then 0 else TotalGroups(frags[..|frags| - 1]) + TotalIn(frags[|frags| - 1])
  }

  /** Every Parquet reader selected at most as many row groups as its file has. */
  predicate WithinTotals<Out>(frags: seq<Fragment<Out>>) {
    forall k :: 0 <= k < |frags| ==> SelectedIn(frags[k]) <= TotalIn(frags[k])
  }

  lemma {:induction false} GroupsAddUp<Out>(frags: seq<Fragment<Out>>)
    ensures SelectedGroups(frags) + SkippedGroups(frags) >= TotalGroups(frags)
    ensures SelectedGroups(frags) + SkippedGroups(frags) == TotalGroups(frags) <==> WithinTotals(frags)
  {
    if frags != [] {
      var n := |frags| - 1;
      GroupsAddUp(frags[..n]);
      assert WithinTotals(frags) <==> WithinTotals(frags[..n]) && SelectedIn(frags[n]) <= TotalIn(frags[n]);
    }
  }

  class ScanAgent<Out> {
    const selected: seq<Fragment<Out>>

    var remaining: seq<Fragment<Out>>
    var currentInner: Option<Inner<Out>>
    var currentPath: Option<string>
    var currentFragment: Option<Fragment<Out>>
    var schemaSig: Option<Signature>
    var openedPaths: seq<string>
    var stats: Stats
    var scanFinished: bool
    /** The scan-stop events emitted so far, each with the statistics it carried. */
    var stopEvents: seq<Stats>

    /** Fragments the scan is done with. */
    function Passed(): nat
      reads this
      requires |remaining| <= |selected|
    {
      |selected| - |remaining|
    }

    ghost predicate Progress(count: nat)
      reads this
    {
      && |remaining| <= |selected| && remaining == selected[Passed()..]
      && (schemaSig.None? <==> count == 0)
      && Opened(selected, count, if schemaSig.None? then [] else schemaSig.value, openedPaths,
                stats.fragmentsScanned, stats.rowGroupsSelected, stats.rowGroupsSkipped)
    }

    /** The stop event is emitted once, when the scan is finished. */
    ghost predicate StoppedOnce()
      reads this
    {
      |stopEvents| == (if scanFinished then 1 else 0)
    }

    function OpenCount(): nat
      reads this
      requires |remaining| <= |selected|
    {
      Passed() + if currentInner.Some? then 1 else 0
    }

    /** Between two calls of `next`. */
    ghost predicate Valid()
      reads this
    {
      && |remaining| <= |selected|
      && (currentInner.Some? ==>
            remaining != [] && currentFragment == Some(remaining[0]) && currentPath == Some(remaining[0].path))
      && Progress(OpenCount()) && StoppedOnce()
    }

    /** Everything still to be observed. */
    ghost function Todo(): Trace<Out>
      reads this
      requires Valid()
    {
      if currentInner.None? then TraceOf(schemaSig, remaining) else TraceFrom(currentInner.value, schemaSig, remaining)
    }

    /** Decreases at every round of `DoNext` that does not move to another fragment. */
    ghost function Pulls(): nat
      reads this
    {
      if currentInner.Some? then |currentInner.value.Left()|
      else if remaining != [] && remaining[0].file.OpenOk? then |remaining[0].file.items| + 1
      else 0
    }

    constructor (selected: seq<Fragment<Out>>)
      ensures Valid() && this.selected == selected
      ensures Todo() == TraceOf(None, selected) && stopEvents == [] && stats == Stats(0, 0, 0, 0)
    {
      assert selected[0..] == selected;
      this.selected := selected;
      remaining, currentInner, currentPath, currentFragment := selected, None, None, None;
      schemaSig, openedPaths, stats := None, [], Stats(0, 0, 0, 0);
      scanFinished, stopEvents := false, [];
    }

    /** `ensure_open`: opens the head of `remaining` if nothing is open; a failure changes nothing. */
    method EnsureOpen() returns (r: EnsureResult)
      requires Valid()
      modifies `schemaSig, `stats, `currentInner, `currentPath, `currentFragment, `openedPaths
      ensures Valid() && Todo() == old(Todo()) && stats.rowsEmitted == old(stats.rowsEmitted)
      ensures r.IsOpen? <==> currentInner.Some?
      ensures r.NoneLeft? <==> old(currentInner).None? && remaining == []
      ensures r.IsOpen? ==> |currentInner.value.Left()| <= old(Pulls()) &&
                            (old(currentInner).None? ==> |currentInner.value.Left()| < old(Pulls()))
      ensures r.OpenError? ==> Todo() == Trace([], Stuck(r.error))
    {
      if currentInner.Some? {
        return IsOpen;
      }
      if remaining == [] {
        return NoneLeft;
      }
      r := OpenFragment(remaining[0]);
    }

    /** `open_fragment` and `accept_schema_sig`. */
    method OpenFragment(frag: Fragment<Out>) returns (r: EnsureResult)
      requires Valid() && currentInner.None? && remaining != [] && frag == remaining[0]
      modifies `schemaSig, `stats, `currentInner, `currentPath, `currentFragment, `openedPaths
      ensures Valid() && Todo() == old(Todo()) && stats.rowsEmitted == old(stats.rowsEmitted)
      ensures r.IsOpen? <==> currentInner.Some?
      ensures !r.NoneLeft?
      ensures r.IsOpen? ==> |currentInner.value.Left()| < old(Pulls())
      ensures r.OpenError? ==> Todo() == Trace([], Stuck(r.error))
    {
      var found := frag.file;
      if found.OpenFailed? {
        return OpenError(At(frag.path, found.message));
      }
      if found.schema.Err? {
        return OpenError(At(frag.path, found.schema.error));
      }
      var got := found.schema.value;
      if schemaSig.Some? && schemaSig.value != got {
        return OpenError(SchemaMismatch(frag.path, schemaSig.value, got));
      }
      Install(frag, found, got);
      return IsOpen;
    }

    /** The state update of a successful open. */
    method Install(frag: Fragment<Out>, found: FileContent<Out>, got: Signature)
      requires Valid() && currentInner.None? && remaining != [] && frag == remaining[0]
      requires found == frag.file && found.OpenOk? && found.schema == Ok(got)
      requires schemaSig.Some? ==> schemaSig.value == got
      modifies `schemaSig, `stats, `currentInner, `currentPath, `currentFragment, `openedPaths
      ensures Valid() && Todo() == old(Todo()) && stats.rowsEmitted == old(stats.rowsEmitted)
      ensures currentInner.Some? && |currentInner.value.Left()| < old(Pulls())
    {
      NoneOpened(selected, openedPaths, stats.fragmentsScanned, stats.rowGroupsSelected, stats.rowGroupsSkipped, got);
      assert ([frag.path] + openedPaths)[1..] == openedPaths;
      assert found.items[0..] == found.items;
      schemaSig := Some(got);
      CountFragment(found, frag.format);
      currentInner := Some(if frag.format.Parquet? then StreamInner(found.items) else IpcInner(found.items, 0));
      currentPath, currentFragment := Some(frag.path), Some(frag);
      openedPaths := [frag.path] + openedPaths;
    }

    /** `merge_parquet_stats`, for Parquet fragments, and the fragment count. */
    method CountFragment(found: FileContent<Out>, format: Format)
      requires found.OpenOk?
      modifies `stats
      ensures stats.rowsEmitted == old(stats).rowsEmitted && stats.fragmentsScanned == old(stats).fragmentsScanned + 1
      ensures stats.rowGroupsSelected ==
              old(stats).rowGroupsSelected + if format.Parquet? then found.groupsSelected else 0
      ensures stats.rowGroupsSkipped == old(stats).rowGroupsSkipped + if format.Parquet? then Skipped(found) else 0
    {
      if format.Parquet? {
        stats := stats.(rowGroupsSelected := stats.rowGroupsSelected + found.groupsSelected,
                        rowGroupsSkipped := stats.rowGroupsSkipped + Skipped(found));
      }
      stats := stats.(fragmentsScanned := stats.fragmentsScanned + 1);
    }

    /** `take_inner_batch`: one pull from the open reader, then post-processing. */
    method TakeInnerBatch() returns (r: TakeResult<Out>)
      requires Valid() && currentInner.Some?
      modifies `currentInner, `currentPath, `currentFragment, `stats
      ensures !r.Finished? ==> Valid() && currentInner.Some?
      ensures r.Skip? ==> Todo() == old(Todo()) && Pulls() < old(Pulls())
      ensures r.Took? ==> r.path == remaining[0].path && r.rows > 0 &&
                          old(Todo()) == Before([Emit(r.out, r.rows, r.path)], Todo())
      ensures r.TakeError? ==> old(Todo()) == Before([Fail(r.error)], Todo()) ||
                               Todo() == old(Todo()) == Trace([], Stuck(r.error))
      ensures stats == old(stats).(rowsEmitted := old(stats).rowsEmitted + if r.Took? then r.rows else 0)
      ensures r.Finished? ==> Progress(Passed() + 1) && StoppedOnce() && currentInner.None? &&
                              TraceOf(schemaSig, remaining[1..]) == old(Todo())
    {
      PullTrace(currentInner.value, schemaSig, remaining);
      var pulled := NextInner(currentInner.value);
      if pulled.InnerDone? {
        ClearCurrent();
        r := Finished;
      } else {
        r := TakeItem(pulled);
      }
    }

    method TakeItem(pulled: InnerResult<Out>) returns (r: TakeResult<Out>)
      requires Valid() && currentInner.Some? && pulled == NextInner(currentInner.value) && !pulled.InnerDone?
      modifies `currentInner, `stats
      ensures Valid() && currentInner.Some? && !r.Finished?
      ensures r.Skip? ==> Todo() == old(Todo()) && Pulls() < old(Pulls())
      ensures r.Took? ==> r.path == remaining[0].path && r.rows > 0 &&
                          old(Todo()) == Before([Emit(r.out, r.rows, r.path)], Todo())
      ensures r.TakeError? ==> old(Todo()) == Before([Fail(r.error)], Todo()) ||
                               Todo() == old(Todo()) == Trace([], Stuck(r.error))
      ensures stats == old(stats).(rowsEmitted := old(stats).rowsEmitted + if r.Took? then r.rows else 0)
    {
      PullTrace(currentInner.value, schemaSig, remaining);
      var frag := currentFragment.value;
      StepReader(pulled.after);
      if pulled.InnerError? {
        r := TakeError(At(frag.path, pulled.message));
      } else {
        r := Deliver(frag, pulled.item);
      }
    }

    /** `clear_current`, at the end of a reader. */
    method ClearCurrent()
      requires Valid() && currentInner.Some?
      modifies `currentInner, `currentPath, `currentFragment
      ensures currentInner.None? && currentPath.None? && currentFragment.None?
      ensures |remaining| <= |selected| && Progress(Passed() + 1) && StoppedOnce()
    {
      currentInner, currentPath, currentFragment := None, None, None;
    }

    /** The reader has moved on. */
    method StepReader(after: Inner<Out>)
      requires Valid() && currentInner.Some?
      modifies `currentInner
      ensures Valid() && currentInner == Some(after)
      ensures Todo() == TraceFrom(after, schemaSig, remaining)
    {
      currentInner := Some(after);
    }

    /** `postprocess`, then what is done with its result: an empty batch is skipped. */
    method Deliver(frag: Fragment<Out>, item: Item<Out>) returns (r: TakeResult<Out>)
      requires Valid() && currentInner.Some? && frag == remaining[0] && !item.ReadError?
      modifies `stats
      ensures Valid() && Todo() == old(Todo()) && !r.Finished?
      ensures r.Skip? ==> Observe(frag.path, item) == []
      ensures r.TakeError? ==> Observe(frag.path, item) == [Fail(r.error)]
      ensures r.Took? ==> r.path == frag.path && r.rows > 0 && Observe(frag.path, item) == [Emit(r.out, r.rows, r.path)]
      ensures stats == old(stats).(rowsEmitted := old(stats).rowsEmitted + if r.Took? then r.rows else 0)
    {
      match item {
        case PostError(message) =>
          r := TakeError(At(frag.path, message));
        case Processed(out, rows) =>
          if rows == 0 {
            return Skip;
          }
          stats := stats.(rowsEmitted := stats.rowsEmitted + rows);
          r := Took(out, rows, frag.path);
      }
    }

    /** `advance`: drops the fragment just finished. */
    method Advance() returns (done: bool)
      requires |remaining| <= |selected| && remaining != [] && currentInner.None?
      requires Progress(Passed() + 1) && StoppedOnce()
      modifies `remaining, `currentInner, `currentPath, `currentFragment
      ensures Valid() && currentInner.None? && remaining == old(remaining)[1..]
      ensures done <==> remaining == []
    {
      remaining := remaining[1..];
      currentInner, currentPath, currentFragment := None, None, None;
      return remaining == [];
    }

    /** `finish_scan`: the stop event, once. */
    method FinishScan()
      requires Valid()
      modifies `scanFinished, `stopEvents
      ensures Valid() && Todo() == old(Todo()) && scanFinished
      ensures stopEvents == if old(scanFinished) then old(stopEvents) else old(stopEvents) + [stats]
    {
      if !scanFinished {
        stopEvents := stopEvents + [stats];
        scanFinished := true;
      }
    }

    /** `stream_next`/`do_next`: one observation of the trace; empty batches and fragment ends are
        passed over. A batch comes from the last fragment opened, and exhaustion is final. */
    method DoNext() returns (r: NextResult<Out>)
      requires Valid()
      modifies this
      ensures Valid()
      ensures r == Reply(old(Todo())) && Todo() == Rest(old(Todo()))
      ensures r.Batch? ==> r.rows > 0 && currentInner.Some? && r.path == remaining[0].path
      ensures r.Done? ==> remaining == [] && currentInner.None? && scanFinished
      ensures stats.rowsEmitted == old(stats.rowsEmitted) + if r.Batch? then r.rows else 0
      ensures stopEvents == if scanFinished && !old(scanFinished) then old(stopEvents) + [stats] else old(stopEvents)
      ensures scanFinished <==> old(scanFinished) || r.Done? || (r.Error? && currentInner.None?)
      ensures r.Error? && currentInner.None? ==> TraceOf(schemaSig, remaining) == Trace([], Stuck(r.error))
      decreases |remaining|, Pulls()
    {
      var opening := EnsureOpen();
      match opening {
        case NoneLeft =>
          FinishScan();
          r := Done;
        case OpenError(error) =>
          FinishScan();
          r := Error(error);
        case IsOpen =>
          var answer := HandleInner();
          if answer.Some? {
            r := answer.value;
          } else {
            r := DoNext();
          }
      }
    }

    /** `take_inner_batch |> handle_inner_result`: an answer, or another round on a smaller rest. */
    method HandleInner() returns (r: Option<NextResult<Out>>)
      requires Valid() && currentInner.Some?
      modifies this
      ensures Valid()
      ensures r.Some? ==> r.value == Reply(old(Todo())) && Todo() == Rest(old(Todo()))
      ensures r.Some? && r.value.Batch? ==> r.value.rows > 0 && currentInner.Some? && r.value.path == remaining[0].path
      ensures r.Some? && r.value.Done? ==> remaining == [] && currentInner.None? && scanFinished
      ensures r.None? ==> Todo() == old(Todo())
      ensures r.None? ==>
                |remaining| < old(|remaining|) || (remaining == old(remaining) && Pulls() < old(Pulls()))
      ensures stats.rowsEmitted == old(stats.rowsEmitted) + if r.Some? && r.value.Batch? then r.value.rows else 0
      ensures r.Some? && r.value.Error? ==> currentInner.Some?
      ensures stopEvents == if scanFinished && !old(scanFinished) then old(stopEvents) + [stats] else old(stopEvents)
      ensures scanFinished <==> old(scanFinished) || (r.Some? && r.value.Done?)
    {
      var taken := TakeInnerBatch();
      match taken {
        case Took(out, rows, path) => r := Some(Batch(out, rows, path));
        case TakeError(error) => r := Some(Error(error));
        case Skip => r := None;
        case Finished => r := NextFragment();
      }
    }

    /** The end of a reader: on to the next fragment, or the end of the scan. */
    method NextFragment() returns (r: Option<NextResult<Out>>)
      requires |remaining| <= |selected| && remaining != [] && currentInner.None?
      requires Progress(Passed() + 1) && StoppedOnce()
      modifies `remaining, `currentInner, `currentPath, `currentFragment, `scanFinished, `stopEvents
      ensures Valid() && currentInner.None? && remaining == old(remaining)[1..]
      ensures r.Some? <==> remaining == []
      ensures r.Some? ==> r.value == Done && scanFinished
      ensures stopEvents == if scanFinished && !old(scanFinished) then old(stopEvents) + [stats] else old(stopEvents)
      ensures scanFinished <==> old(scanFinished) || r.Some?
    {
      var done := Advance();
      if done {
        FinishScan();
        r := Some(Done);
      } else {
        r := None;
      }
    }

    /** `stream_close`: closing emits the stop event if no end of the scan has. */
    method Close()
      requires Valid()
      modifies `scanFinished, `stopEvents
      ensures Valid() && |stopEvents| == 1
    {
      FinishScan();
    }

    /** The books of any state between two calls, spelled out. */
    lemma BooksMean()
      requires Valid()
      ensures OpenCount() == |openedPaths| == stats.fragmentsScanned <= |selected|
      ensures forall k :: 0 <= k < |openedPaths| ==> openedPaths[|openedPaths| - 1 - k] == selected[k].path
      ensures schemaSig.Some? ==> forall k :: 0 <= k < |openedPaths| ==>
                selected[k].file.OpenOk? && selected[k].file.schema == Ok(schemaSig.value)
      ensures stats.rowGroupsSelected == SelectedGroups(selected[..|openedPaths|])
      ensures stats.rowGroupsSkipped == SkippedGroups(selected[..|openedPaths|])
      ensures |stopEvents| <= 1
    {
      OpenedMeans(selected, OpenCount(), if schemaSig.None? then [] else schemaSig.value, openedPaths,
                  stats.fragmentsScanned, stats.rowGroupsSelected, stats.rowGroupsSkipped);
    }

    /** Selected and skipped row groups add up to the row groups of the files opened so far, exactly when
        no reader selected more than its file has. */
    lemma RowGroupsAddUp()
      requires Valid()
      ensures |openedPaths| <= |selected|
      ensures stats.rowGroupsSelected + stats.rowGroupsSkipped == TotalGroups(selected[..|openedPaths|]) <==>
              WithinTotals(selected[..|openedPaths|])
    {
      BooksMean();
      GroupsAddUp(selected[..|openedPaths|]);
    }

    lemma FinishedBooks()
      requires Valid() && remaining == [] && currentInner.None?
      ensures stats.fragmentsScanned == |selected|
      ensures stats.rowGroupsSelected == SelectedGroups(selected) && stats.rowGroupsSkipped == SkippedGroups(selected)
    {
      BooksMean();
      assert selected[..|selected|] == selected;
    }

    /** Enumerating the stream (`Enumerable.reduce`): pulls until exhaustion or the first error. */
    method Enumerate() returns (batches: seq<Outcome<Out>>, error: Option<ScanError>)
      requires Valid()
      modifies this
      ensures Valid() && batches == LeadingEmits(old(Todo()).items) && error == FirstError(old(Todo()))
      ensures error.None? ==> remaining == [] && currentInner.None? && scanFinished
      ensures stats.rowsEmitted == old(stats.rowsEmitted) + RowsIn(batches)
      decreases |Todo().items|
    {
      LeadingStep(Todo());
      var r := DoNext();
      match r {
        case Done =>
          return [], None;
        case Error(e) =>
          return [], Some(e);
        case Batch(out, rows, path) =>
          var rest;
          rest, error := Enumerate();
          batches := [Emit(out, rows, path)] + rest;
      }
    }
  }

  lemma LeadingStep<Out>(t: Trace<Out>)
    ensures t.items != [] && t.items[0].Emit? ==>
              && LeadingEmits(t.items) == [t.items[0]] + LeadingEmits(t.items[1..])
              && FirstError(t) == FirstError(Rest(t))
    ensures t.items == [] || t.items[0].Fail? ==> LeadingEmits(t.items) == []
  {
    var n := FirstFail(t.items);
    if t.items != [] && t.items[0].Emit? {
      assert t.items[..n] == [t.items[0]] + t.items[1..][..n - 1];
    }
  }

  /** What `next` answers, and what is left, at the head of a trace. */
  function Reply<Out>(t: Trace<Out>): NextResult<Out> {
    if t.items != [] then
      (match t.items[0]
       case Emit(out, rows, path) => Batch(out, rows, path)
       case Fail(error) => Error(error))
    else match t.terminal
         case Exhausted => Done
         case Stuck(error) => Error(error)
  }

  function Rest<Out>(t: Trace<Out>): Trace<Out> {
    if t.items != [] then Trace(t.items[1..], t.terminal) else t
  }

  function FirstError<Out>(t: Trace<Out>): Option<ScanError> {
    if FirstFail(t.items) < |t.items| then Some(t.items[FirstFail(t.items)].error)
    else if t.terminal.Stuck? then Some(t.terminal.error)
    else None
  }

  function RowsIn<Out>(items: seq<Outcome<Out>>): nat {
    if items == [] then 0 else (if items[0].Emit? then items[0].rows else 0) + RowsIn(items[1..])
  }

  datatype ScanReport<Out> = ScanReport(batches: seq<Outcome<Out>>, error: Option<ScanError>, stats: Stats)

  ghost predicate NothingFails<Out>(selected: seq<Fragment<Out>>) {
    exists sig :: ErrorFree(sig, selected)
  }

  /** A whole scan. Without errors it returns the concatenation of the non-empty post-processed
      batches of the selected fragments; in any case the batches it returns before the first error
      are a prefix of that. */
  method ScanAll<Out>(selected: seq<Fragment<Out>>) returns (r: ScanReport<Out>)
    ensures r.batches == LeadingEmits(TraceOf(None, selected).items) && r.error == FirstError(TraceOf(None, selected))
    ensures r.batches <= Concatenation(selected)
    ensures r.error.None? <==> NothingFails(selected)
    ensures r.error.None? ==> r.batches == Concatenation(selected)
    ensures r.stats.rowsEmitted == RowsIn(r.batches)
    ensures r.error.None? ==> r.stats.fragmentsScanned == |selected|
    ensures r.error.None? ==> r.stats.rowGroupsSelected == SelectedGroups(selected)
    ensures r.error.None? ==> r.stats.rowGroupsSkipped == SkippedGroups(selected)
  {
    var agent := new ScanAgent(selected);
    var batches, error := agent.Enumerate();
    TracePrefix(None, selected);
    if NothingFails(selected) {
      ghost var sig :| ErrorFree(sig, selected);
      ErrorFreeScan(sig, selected);
    }
    if error.None? {
      agent.FinishedBooks();
      OnlyErrorFree(None, selected);
    }
    r := ScanReport(batches, error, agent.stats);
  }

  lemma {:induction false} OnlyClean<Out>(path: string, items: seq<Item<Out>>, ipc: bool)
    requires Drained(path, items, ipc).terminal.Exhausted? && NoFail(Drained(path, items, ipc).items)
    ensures Clean(items)
  {
    if items != [] {
      var first, rest := Observe(path, items[0]), Drained(path, items[1..], ipc);
      assert Drained(path, items, ipc) == Before(first, rest);
      SplitNoFail(first, rest.items);
      OnlyClean(path, items[1..], ipc);
      ObservedError(path, items[0]);
    }
  }

  lemma ObservedError<Out>(path: string, item: Item<Out>)
    ensures NoFail(Observe(path, item)) <==> item.Processed?
  {
    assert !item.Processed? ==> Observe(path, item)[0].Fail?;
  }

  lemma SplitNoFail<Out>(a: seq<Outcome<Out>>, b: seq<Outcome<Out>>)
    ensures NoFail(a + b) <==> NoFail(a) && NoFail(b)
  {
    assert forall k :: 0 <= k < |a| ==> (a + b)[k] == a[k];
    assert forall k :: 0 <= k < |b| ==> (a + b)[|a| + k] == b[k];
  }

  lemma NoFirstError<Out>(t: Trace<Out>)
    ensures FirstError(t).None? <==> NoFail(t.items) && t.terminal.Exhausted?
  {
    if NoFail(t.items) {
      FirstFailUnique(t.items, |t.items|);
    }
  }

  /** A scan that reports no error met none: every file opened with one schema and every batch was read and
      post-processed. */
  lemma {:induction false} OnlyErrorFree<Out>(sig: Option<Signature>, frags: seq<Fragment<Out>>)
    requires FirstError(TraceOf(sig, frags)).None?
    ensures NothingFails(frags)
    ensures sig.Some? ==> ErrorFree(sig.value, frags)
    decreases |frags|
  {
    NoFirstError(TraceOf(sig, frags));
    if frags == [] {
      assert ErrorFree([], frags);
    } else {
      OpenedTrace(sig, frags);
      var path, all, ipc := frags[0].path, frags[0].file.items, frags[0].format.Ipc?;
      var got := frags[0].file.schema.value;
      SplitNoFail(Drained(path, all, ipc).items, TraceOf(Some(got), frags[1..]).items);
      OnlyClean(path, all, ipc);
      NoFirstError(TraceOf(Some(got), frags[1..]));
      OnlyErrorFree(Some(got), frags[1..]);
      ErrorFreeFirst(got, frags);
    }
  }

  lemma ErrorFreeFirst<Out>(sig: Signature, frags: seq<Fragment<Out>>)
    requires frags != [] && frags[0].file.OpenOk? && frags[0].file.schema == Ok(sig) && Clean(frags[0].file.items)
    requires ErrorFree(sig, frags[1..])
    ensures ErrorFree(sig, frags)
  {
    assert forall k :: 1 <= k < |frags| ==> frags[k] == frags[1..][k - 1];
  }

  lemma ErrorFreeScan<Out>(sig: Signature, selected: seq<Fragment<Out>>)
    requires ErrorFree(sig, selected)
    ensures LeadingEmits(TraceOf(None, selected).items) == Concatenation(selected)
    ensures FirstError(TraceOf(None, selected)) == None
  {
    ErrorFreeTrace(sig, None, selected);
    ConcatenationNeverFails(selected);
    FirstFailUnique(Concatenation(selected), |Concatenation(selected)|);
  }

  lemma {:induction false} ConcatenationNeverFails<Out>(frags: seq<Fragment<Out>>)
    ensures NoFail(Concatenation(frags))
  {
    if frags != [] {
      ConcatenationNeverFails(frags[1..]);
      if frags[0].file.OpenOk? {
        GoodBatchesNeverFail(frags[0].path, frags[0].file.items);
      }
    }
  }

  lemma {:induction false} GoodBatchesNeverFail<Out>(path: string, items: seq<Item<Out>>)
    ensures NoFail(GoodBatches(path, items))
  {
    if items != [] {
      GoodBatchesNeverFail(path, items[1..]);
    }
  }

  /** Before the first open any signature will do. */
  lemma NoneOpened<Out>(selected: seq<Fragment<Out>>, paths: seq<string>,
                        scanned: int, groupsSelected: int, groupsSkipped: int, sig: Signature)
    ensures Opened(selected, 0, [], paths, scanned, groupsSelected, groupsSkipped) ==>
            Opened(selected, 0, sig, paths, scanned, groupsSelected, groupsSkipped)
  {
  }
}
