/** What a dataset scan is supposed to yield: the observations of repeated `next` calls, as a
    function of the fragments and their files, and its reading as a concatenation of batches. */
module ScanTrace {
  import opened Wrappers

  datatype Format = Parquet | Ipc

  /** The atoms that name data types. */
  datatype TypeAtom =
    | NullAtom | BooleanAtom
    | Int8Atom | Int16Atom | Int32Atom | Int64Atom
    | UInt8Atom | UInt16Atom | UInt32Atom | UInt64Atom
    | Float16Atom | Float32Atom | Float64Atom
    | Utf8Atom | LargeUtf8Atom | BinaryAtom | LargeBinaryAtom
    | ListAtom | LargeListAtom | StructAtom
    | TimestampAtom | Date32Atom | Date64Atom
    | Time32Atom | Time64Atom | DurationAtom
    | Decimal128Atom | Decimal256Atom | DictionaryAtom
    | UnknownAtom

  /** A schema signature: field names and type atoms in order. */
  type Signature = seq<(string, TypeAtom)>

  /** An error as the native code gives it: a text, or some other term by the text it is shown as. */
  datatype Message = Text(text: string) | Term(shown: string)

  /** One result of a fragment's reader, with what post-processing (projection, then the residual
      filter with the fragment's partition values) makes of a batch that was read. */
  datatype Item<Out> = ReadError(message: Message) | PostError(message: Message) | Processed(out: Out, rows: nat)

  /** What opening a fragment's file finds: an error, or its schema, the number of its row groups and of
      those its reader selected, and the results the reader gives, one after another. */
  datatype FileContent<Out> =
    | OpenFailed(message: Message)
    | OpenOk(schema: Result<Signature, Message>, groupsTotal: nat, groupsSelected: nat, items: seq<Item<Out>>)

  /** A fragment together with its file. */
  datatype Fragment<Out> = Fragment(path: string, format: Format, file: FileContent<Out>)

  /** The open reader: a Parquet stream, which moves on at every pull, or an IPC file read by index. */
  datatype Inner<Out> = StreamInner(items: seq<Item<Out>>) | IpcInner(items: seq<Item<Out>>, index: nat) {
    /** The results still to come. */
    function Left(): seq<Item<Out>> {
      match this
      case StreamInner(xs) => xs
      case IpcInner(xs, i) => if i <= |xs| then xs[i..] else []
    }
  }

  datatype InnerResult<Out> =
    | InnerDone
    | InnerError(message: Message, after: Inner<Out>)
    | InnerBatch(item: Item<Out>, after: Inner<Out>)

  /** `next_inner`: an IPC read error leaves the index, a Parquet stream moves on regardless. */
  function NextInner<Out>(inner: Inner<Out>): (r: InnerResult<Out>)
    ensures r.InnerDone? <==> inner.Left() == []
    ensures r.InnerBatch? ==> !r.item.ReadError? && inner.Left() == [r.item] + r.after.Left()
    ensures r.InnerError? ==> inner.Left() != [] && inner.Left()[0] == ReadError(r.message)
    ensures r.InnerError? ==> r.after.Left() == if inner.StreamInner? then inner.Left()[1..] else inner.Left()
  {
    if inner.Left() == [] then InnerDone
    else
      var after := if inner.StreamInner? then StreamInner(inner.items[1..]) else IpcInner(inner.items, inner.index + 1);
      match inner.Left()[0]
      case ReadError(message) => InnerError(message, if inner.StreamInner? then after else inner)
      case item => InnerBatch(item, after)
  }

  /** An error of a read, kept with the fragment it belongs to, or a fragment of another schema. */
  datatype ScanError =
    | ReadFailed(path: string, text: string)
    | SchemaMismatch(path: string, expected: Signature, got: Signature)

  predicate Contains(s: string, part: string) {
    exists i :: 0 <= i <= |s| && part <= s[i..]
  }

  /** `prefix_path`: a text that does not name the fragment yet is prefixed with its path. */
  function PrefixPath(path: string, message: Message): string {
    match message
    case Text(text) => if Contains(text, path) then text else path + ": " + text
    case Term(shown) => path + ": " + shown
  }

  function At(path: string, message: Message): ScanError {
    ReadFailed(path, PrefixPath(path, message))
  }

  /** The prefix is added once: a text that names the path is kept, and any other text ends the new one. */
  lemma PrefixIsAddedOnce(path: string, text: string)
    ensures Contains(text, path) <==> PrefixPath(path, Text(text)) == text
    ensures !Contains(text, path) ==>
              |PrefixPath(path, Text(text))| == |path| + 2 + |text| &&
              path <= PrefixPath(path, Text(text)) && PrefixPath(path, Text(text))[|path| + 2..] == text
  {
  }

  lemma PrefixNamesThePath(path: string, message: Message)
    ensures Contains(PrefixPath(path, message), path)
  {
    var text := PrefixPath(path, message);
    if message.Term? || !Contains(message.text, path) {
      assert path <= text[0..];
    }
  }

  datatype Outcome<Out> = Emit(out: Out, rows: nat, path: string) | Fail(error: ScanError)

  /** How a scan answers once nothing more is to come: exhausted forever, or the same error forever. */
  datatype Terminal = Exhausted | Stuck(error: ScanError)

  datatype Trace<Out> = Trace(items: seq<Outcome<Out>>, terminal: Terminal)

  function Before<Out>(items: seq<Outcome<Out>>, t: Trace<Out>): Trace<Out> {
    Trace(items + t.items, t.terminal)
  }

  /** A drained reader, then the rest of the scan unless the reader is stuck. */
  function Joined<Out>(drained: Trace<Out>, rest: Trace<Out>): Trace<Out> {
    if drained.terminal.Stuck? then drained else Before(drained.items, rest)
  }

  /** What a consumer sees of one result: nothing of an empty batch. */
  function Observe<Out>(path: string, item: Item<Out>): seq<Outcome<Out>> {
    match item
    case ReadError(message) => [Fail(At(path, message))]
    case PostError(message) => [Fail(At(path, message))]
    case Processed(out, rows) => if rows == 0 then [] else [Emit(out, rows, path)]
  }

  /** A reader drained: an IPC read error repeats forever, a Parquet read error is passed by. */
  function Drained<Out>(path: string, items: seq<Item<Out>>, ipc: bool): Trace<Out> {
    if items == [] then Trace([], Exhausted)
    else if ipc && items[0].ReadError? then Trace([], Stuck(At(path, items[0].message)))
    else Before(Observe(path, items[0]), Drained(path, items[1..], ipc))
  }

  /** Opening a fragment against the signature accepted so far. */
  function TryOpen<Out>(sig: Option<Signature>, frag: Fragment<Out>): Result<(Inner<Out>, Signature), ScanError> {
    match frag.file
    case OpenFailed(message) => Err(At(frag.path, message))
    case OpenOk(Err(message), _, _, _) => Err(At(frag.path, message))
    case OpenOk(Ok(got), _, _, items) =>
      if sig.None? || sig.value == got then
        Ok((if frag.format.Parquet? then StreamInner(items) else IpcInner(items, 0), got))
      else Err(SchemaMismatch(frag.path, sig.value, got))
  }

  /** All observations of a scan of these fragments, none of them open yet. */
  function TraceOf<Out>(sig: Option<Signature>, frags: seq<Fragment<Out>>): Trace<Out>
    decreases |frags|
  {
    if frags == [] then Trace([], Exhausted)
    else match TryOpen(sig, frags[0])
         case Err(error) => Trace([], Stuck(error))
         case Ok((inner, got)) =>
           Joined(Drained(frags[0].path, inner.Left(), inner.IpcInner?), TraceOf(Some(got), frags[1..]))
  }

  /** The same with the first fragment open. */
  function TraceFrom<Out>(inner: Inner<Out>, sig: Option<Signature>, frags: seq<Fragment<Out>>): Trace<Out>
    requires frags != []
  {
    Joined(Drained(frags[0].path, inner.Left(), inner.IpcInner?), TraceOf(sig, frags[1..]))
  }

  // ---- steps along a trace -----------------------------------------------------------------------------

  lemma JoinedBefore<Out>(items: seq<Outcome<Out>>, drained: Trace<Out>, rest: Trace<Out>)
    ensures Joined(Before(items, drained), rest) == Before(items, Joined(drained, rest))
  {
    assert (items + drained.items) + rest.items == items + (drained.items + rest.items);
  }

  /** One pull takes one step along the trace. */
  lemma PullTrace<Out>(inner: Inner<Out>, sig: Option<Signature>, frags: seq<Fragment<Out>>)
    requires frags != []
    ensures NextInner(inner).InnerDone? ==> TraceFrom(inner, sig, frags) == TraceOf(sig, frags[1..])
    ensures NextInner(inner).InnerError? && inner.IpcInner? ==>
              && NextInner(inner).after == inner
              && TraceFrom(inner, sig, frags) == Trace([], Stuck(At(frags[0].path, NextInner(inner).message)))
    ensures NextInner(inner).InnerError? && inner.StreamInner? ==>
              TraceFrom(inner, sig, frags) ==
              Before([Fail(At(frags[0].path, NextInner(inner).message))], TraceFrom(NextInner(inner).after, sig, frags))
    ensures NextInner(inner).InnerBatch? ==>
              && |NextInner(inner).after.Left()| < |inner.Left()|
              && TraceFrom(inner, sig, frags) ==
                 Before(Observe(frags[0].path, NextInner(inner).item), TraceFrom(NextInner(inner).after, sig, frags))
  {
    var left := inner.Left();
    if left != [] {
      var pulled := NextInner(inner);
      if !pulled.InnerError? || inner.StreamInner? {
        assert pulled.after.Left() == left[1..];
        JoinedBefore(Observe(frags[0].path, left[0]), Drained(frags[0].path, left[1..], inner.IpcInner?),
                     TraceOf(sig, frags[1..]));
      }
    }
  }

  // ---- the reference -----------------------------------------------------------------------------------

  /** The batch a result yields, if it reads, post-processes and is not empty. */
  function GoodBatch<Out>(path: string, item: Item<Out>): seq<Outcome<Out>> {
    if item.Processed? && item.rows != 0 then [Emit(item.out, item.rows, path)] else []
  }

  function GoodBatches<Out>(path: string, items: seq<Item<Out>>): seq<Outcome<Out>> {
    if items == [] then [] else GoodBatch(path, items[0]) + GoodBatches(path, items[1..])
  }

  /** The concatenation, in fragment order, of the non-empty post-processed batches. */
  function Concatenation<Out>(frags: seq<Fragment<Out>>): seq<Outcome<Out>> {
    if frags == [] then []
    else
      (if frags[0].file.OpenOk? then GoodBatches(frags[0].path, frags[0].file.items) else []) +
      Concatenation(frags[1..])
  }

  /** Every file opens with one schema, every batch reads and post-processes. */
  predicate ErrorFree<Out>(sig: Signature, frags: seq<Fragment<Out>>) {
    forall k :: 0 <= k < |frags| ==>
      frags[k].file.OpenOk? && frags[k].file.schema == Ok(sig) && Clean(frags[k].file.items)
  }

  predicate Clean<Out>(items: seq<Item<Out>>) {
    forall i :: 0 <= i < |items| ==> items[i].Processed?
  }

  lemma {:induction false} CleanReader<Out>(path: string, items: seq<Item<Out>>, ipc: bool)
    requires Clean(items)
    ensures Drained(path, items, ipc) == Trace(GoodBatches(path, items), Exhausted)
  {
    if items != [] {
      CleanReader(path, items[1..], ipc);
    }
  }

  /** Without errors the scan yields exactly the concatenation, then is exhausted. */
  lemma {:induction false} ErrorFreeTrace<Out>(sig: Signature, accepted: Option<Signature>, frags: seq<Fragment<Out>>)
    requires ErrorFree(sig, frags) && (accepted.Some? ==> accepted.value == sig)
    ensures TraceOf(accepted, frags) == Trace(Concatenation(frags), Exhausted)
    decreases |frags|
  {
    if frags != [] {
      var items := frags[0].file.items;
      CleanReader(frags[0].path, items, frags[0].format.Ipc?);
      ErrorFreeTrace(sig, Some(sig), frags[1..]);
      assert items[0..] == items;
    }
  }

  lemma {:induction false} ReaderPrefix<Out>(path: string, items: seq<Item<Out>>, ipc: bool)
    ensures LeadingEmits(Drained(path, items, ipc).items) <= GoodBatches(path, items)
    ensures Drained(path, items, ipc).terminal.Exhausted? && NoFail(Drained(path, items, ipc).items) ==>
            Drained(path, items, ipc).items == GoodBatches(path, items)
  {
    if items != [] && !(ipc && items[0].ReadError?) {
      ReaderPrefix(path, items[1..], ipc);
      JoinPrefix(Observe(path, items[0]), Drained(path, items[1..], ipc).items,
                 GoodBatch(path, items[0]), GoodBatches(path, items[1..]));
    }
  }

  /** In any run, the batches before the first error are a prefix of the concatenation. */
  lemma {:induction false} TracePrefix<Out>(sig: Option<Signature>, frags: seq<Fragment<Out>>)
    ensures LeadingEmits(TraceOf(sig, frags).items) <= Concatenation(frags)
    decreases |frags|
  {
    if frags != [] && TryOpen(sig, frags[0]).Ok? {
      var path, all, ipc := frags[0].path, frags[0].file.items, frags[0].format.Ipc?;
      var got := frags[0].file.schema.value;
      OpenedTrace(sig, frags);
      ReaderPrefix(path, all, ipc);
      if Drained(path, all, ipc).terminal.Exhausted? {
        TracePrefix(Some(got), frags[1..]);
        JoinPrefix(Drained(path, all, ipc).items, TraceOf(Some(got), frags[1..]).items,
                   GoodBatches(path, all), Concatenation(frags[1..]));
      }
    }
  }

  // ---- errors name their fragment ------------------------------------------------------------------------

  /** A read error's text contains the path it is reported for. */
  predicate Named(error: ScanError) {
    error.ReadFailed? ==> Contains(error.text, error.path)
  }

  predicate AllNamed<Out>(t: Trace<Out>) {
    && (forall k :: 0 <= k < |t.items| && t.items[k].Fail? ==> Named(t.items[k].error))
    && (t.terminal.Stuck? ==> Named(t.terminal.error))
  }

  lemma {:induction false} DrainedIsNamed<Out>(path: string, items: seq<Item<Out>>, ipc: bool)
    ensures AllNamed(Drained(path, items, ipc))
  {
    if items != [] {
      if !items[0].Processed? {
        PrefixNamesThePath(path, items[0].message);
      }
      DrainedIsNamed(path, items[1..], ipc);
    }
  }

  /** Whatever goes wrong in a scan, the text of a read error names its fragment. */
  lemma {:induction false} ErrorsNameTheFragment<Out>(sig: Option<Signature>, frags: seq<Fragment<Out>>)
    ensures AllNamed(TraceOf(sig, frags))
    decreases |frags|
  {
    if frags != [] {
      match frags[0].file {
        case OpenFailed(message) => PrefixNamesThePath(frags[0].path, message);
        case OpenOk(Err(message), _, _, _) => PrefixNamesThePath(frags[0].path, message);
        case OpenOk(Ok(got), _, _, items) =>
          DrainedIsNamed(frags[0].path, items, frags[0].format.Ipc?);
          ErrorsNameTheFragment(Some(got), frags[1..]);
          if TryOpen(sig, frags[0]).Ok? {
            OpenedTrace(sig, frags);
          }
      }
    }
  }

  lemma OpenedTrace<Out>(sig: Option<Signature>, frags: seq<Fragment<Out>>)
    requires frags != [] && TryOpen(sig, frags[0]).Ok?
    ensures frags[0].file.OpenOk? && frags[0].file.schema.Ok?
    ensures TraceOf(sig, frags) == Joined(Drained(frags[0].path, frags[0].file.items, frags[0].format.Ipc?),
                                          TraceOf(Some(frags[0].file.schema.value), frags[1..]))
    ensures Concatenation(frags) == GoodBatches(frags[0].path, frags[0].file.items) + Concatenation(frags[1..])
  {
    var all := frags[0].file.items;
    assert all[0..] == all;
  }

  // ---- prefixes without errors ---------------------------------------------------------------------------

  predicate NoFail<Out>(items: seq<Outcome<Out>>) {
    forall k :: 0 <= k < |items| ==> items[k].Emit?
  }

  function FirstFail<Out>(items: seq<Outcome<Out>>): (n: nat)
    ensures n <= |items| && NoFail(items[..n]) && (n < |items| ==> items[n].Fail?)
  {
    if items == [] || items[0].Fail? then 0
    else
      var n := FirstFail(items[1..]) + 1;
      assert items[..n] == [items[0]] + items[1..][..n - 1];
      n
  }

  /** The batches before the first error. */
  function LeadingEmits<Out>(items: seq<Outcome<Out>>): (r: seq<Outcome<Out>>) {
    items[..FirstFail(items)]
  }

  lemma LeadingEmitsConcat<Out>(xs: seq<Outcome<Out>>, ys: seq<Outcome<Out>>)
    ensures LeadingEmits(xs + ys) == if NoFail(xs) then xs + LeadingEmits(ys) else LeadingEmits(xs)
  {
    var n, m, all := FirstFail(xs), FirstFail(ys), xs + ys;
    if NoFail(xs) {
      assert n == |xs|;
      FirstFailUnique(all, |xs| + m);
    } else {
      FirstFailUnique(all, n);
    }
  }

  lemma FirstFailUnique<Out>(items: seq<Outcome<Out>>, n: nat)
    requires n <= |items| && (forall k :: 0 <= k < n ==> items[k].Emit?) && (n < |items| ==> items[n].Fail?)
    ensures FirstFail(items) == n
  {
    var m := FirstFail(items);
    assert forall k :: 0 <= k < m ==> items[..m][k] == items[k];
  }

  lemma JoinPrefix<Out>(items: seq<Outcome<Out>>, rest: seq<Outcome<Out>>,
                        good: seq<Outcome<Out>>, goodRest: seq<Outcome<Out>>)
    requires LeadingEmits(items) <= good && (NoFail(items) ==> items == good) && LeadingEmits(rest) <= goodRest
    ensures LeadingEmits(items + rest) <= good + goodRest
    ensures NoFail(items + rest) <==> NoFail(items) && NoFail(rest)
  {
    LeadingEmitsConcat(items, rest);
    assert forall k :: 0 <= k < |items| ==> (items + rest)[k] == items[k];
    assert forall k :: 0 <= k < |rest| ==> (items + rest)[|items| + k] == rest[k];
  }
}
