/** Ownership of the two C structs behind a C Data Interface handle (cdi.rs), as a protocol: any
    number of imports and mark-consumed calls interleave one atomic step at a time, and the
    handle's drop comes last. */
module CdiProtocol {
  import opened Wrappers

  datatype Kind = Import | MarkConsumed | Drop

  datatype Outcome = Imported | FfiError | AlreadyConsumed | Completed

  /** The next step of a call. `take_raw` both reads and frees the array's box. */
  datatype Pc =
    | SwapSchema | SwapArray | NullCheck | TakeArray | FromFfi | DropSchema
    | FreeArray | FreeSchema
    | Returned(outcome: Outcome)

  /** A call with its two local pointers: true when the swap returned a non-null address. */
  datatype Call = Call(kind: Kind, pc: Pc, schemaRaw: bool, arrayRaw: bool, ok: bool)

  /** One heap-allocated struct: its box, how often the box was freed, and how often its contents
      were disposed of - released, or moved into an imported batch that releases them. */
  datatype Box = Box(live: bool, frees: nat, disposals: nat)

  /** `schemaPtr` and `arrayPtr` are the handle's atomics (true for non-null); `faults` counts
      accesses to a box that is not live. `schemaTaker` and `arrayTaker` are history: the last call
      whose swap returned that pointer. */
  datatype State = State(
    schemaPtr: bool, arrayPtr: bool,
    schema: Box, array_: Box,
    faults: nat,
    calls: map<nat, Call>,
    schemaTaker: Option<nat>, arrayTaker: Option<nat>)

  /** What `cdi_export` leaves. */
  const EXPORTED := State(true, true, Box(true, 0, 0), Box(true, 0, 0), 0, map[], None, None)

  datatype Action = Begin(id: nat, kind: Kind) | Step(id: nat, ok: bool)

  predicate AllReturned(s: State) {
    forall t :: t in s.calls ==> s.calls[t].pc.Returned?
  }

  predicate DropBegun(s: State) {
    exists t :: t in s.calls && s.calls[t].kind.Drop?
  }

  /** A call needs a reference to the handle; the drop runs when the last reference is gone. */
  predicate Enabled(s: State, a: Action) {
    match a
    case Begin(id, kind) => id !in s.calls && !DropBegun(s) && (kind.Drop? ==> AllReturned(s))
    case Step(id, _) => id in s.calls && !s.calls[id].pc.Returned?
  }

  /** The call after its next step. The outcome of `from_ffi` is the environment's choice. */
  function NextCall(s: State, c: Call, ok: bool): Call {
    match c.pc
    case SwapSchema => c.(schemaRaw := s.schemaPtr, pc := SwapArray)
    case SwapArray => c.(arrayRaw := s.arrayPtr, pc := if c.kind.Import? then NullCheck else FreeArray)
    case NullCheck => c.(pc := if c.arrayRaw && c.schemaRaw then TakeArray else Returned(AlreadyConsumed))
    case TakeArray => c.(pc := FromFfi)
    case FromFfi => c.(ok := ok, pc := DropSchema)
    case DropSchema => c.(pc := Returned(if c.ok then Imported else FfiError))
    case FreeArray => c.(pc := FreeSchema)
    case FreeSchema => c.(pc := Returned(Completed))
    case Returned(_) => c
  }

  /** Dropping a box frees it and releases its contents. */
  function Dropped(b: Box): Box {
    Box(false, b.frees + 1, b.disposals + 1)
  }

  function NextSchema(s: State, c: Call): Box {
    if c.pc.DropSchema? || (c.pc.FreeSchema? && c.schemaRaw) then Dropped(s.schema) else s.schema
  }

  function NextArray(s: State, c: Call): Box {
    match c.pc
    case TakeArray => s.array_.(live := false, frees := s.array_.frees + 1)
    case FromFfi => s.array_.(disposals := s.array_.disposals + 1)
    case FreeArray => if c.arrayRaw then Dropped(s.array_) else s.array_
    case _ => s.array_
  }

  /** The step reads or frees a box that is gone. */
  predicate Faulty(s: State, c: Call) {
    || ((c.pc.FromFfi? || c.pc.DropSchema? || (c.pc.FreeSchema? && c.schemaRaw)) && !s.schema.live)
    || ((c.pc.TakeArray? || (c.pc.FreeArray? && c.arrayRaw)) && !s.array_.live)
  }

  /** One atomic step of one call. */
  function Exec(s: State, a: Action): State
    requires Enabled(s, a)
  {
    match a
    case Begin(id, kind) => s.(calls := s.calls[id := Call(kind, SwapSchema, false, false, false)])
    case Step(id, ok) =>
      var c := s.calls[id];
      State(
        s.schemaPtr && !c.pc.SwapSchema?,
        s.arrayPtr && !c.pc.SwapArray?,
        NextSchema(s, c),
        NextArray(s, c),
        s.faults + (if Faulty(s, c) then 1 else 0),
        s.calls[id := NextCall(s, c, ok)],
        if c.pc.SwapSchema? && s.schemaPtr then Some(id) else s.schemaTaker,
        if c.pc.SwapArray? && s.arrayPtr then Some(id) else s.arrayTaker)
  }

  // ---- who owns what -------------------------------------------------------------------------------

  /** The call obtained the schema pointer and has not freed the box (a failed import never does). */
  predicate HoldsSchema(c: Call) {
    c.schemaRaw && c.pc != Returned(Imported) && c.pc != Returned(FfiError) && c.pc != Returned(Completed)
  }

  predicate HoldsArray(c: Call) {
    c.arrayRaw && (c.pc.NullCheck? || c.pc.TakeArray? || c.pc.FreeArray? || c.pc == Returned(AlreadyConsumed))
  }

  predicate CallOk(c: Call) {
    && (c.pc.SwapSchema? ==> !c.schemaRaw)
    && (c.pc.SwapSchema? || c.pc.SwapArray? ==> !c.arrayRaw)
    && (c.pc.NullCheck? || c.pc == Returned(AlreadyConsumed) ==> c.kind.Import?)
    && (c.pc == Returned(AlreadyConsumed) ==> !(c.schemaRaw && c.arrayRaw))
    && (c.pc.TakeArray? || c.pc.FromFfi? || c.pc.DropSchema? ||
        c.pc == Returned(Imported) || c.pc == Returned(FfiError) ==>
          c.kind.Import? && c.schemaRaw && c.arrayRaw)
    && (c.pc.FreeArray? || c.pc.FreeSchema? || c.pc == Returned(Completed) ==> !c.kind.Import?)
  }

  /** Only the recorded taker ever got the schema pointer, and the box is live exactly while the
      handle or the taker holds it. */
  predicate SchemaOwned(s: State) {
    && (s.schemaPtr <==> s.schemaTaker.None?)
    && (forall t :: t in s.calls ==> (s.calls[t].schemaRaw <==> s.schemaTaker == Some(t)))
    && (s.schemaTaker.Some? ==> s.schemaTaker.value in s.calls)
    && (s.schema.live <==> s.schemaTaker.None? || HoldsSchema(s.calls[s.schemaTaker.value]))
    && s.schema.frees == s.schema.disposals == (if s.schema.live then 0 else 1)
  }

  predicate ArrayOwned(s: State) {
    && (s.arrayPtr <==> s.arrayTaker.None?)
    && (forall t :: t in s.calls ==> (s.calls[t].arrayRaw <==> s.arrayTaker == Some(t)))
    && (s.arrayTaker.Some? ==> s.arrayTaker.value in s.calls)
    && (s.array_.live <==> s.arrayTaker.None? || HoldsArray(s.calls[s.arrayTaker.value]))
    && s.array_.frees == (if s.array_.live then 0 else 1)
    && s.array_.disposals == (if s.array_.live || s.calls[s.arrayTaker.value].pc.FromFfi? then 0 else 1)
  }

  /** Past a swap of its own, no call finds the pointer still in the handle. */
  predicate Swapped(s: State) {
    forall t :: t in s.calls ==>
      && (!s.calls[t].pc.SwapSchema? ==> !s.schemaPtr)
      && (!s.calls[t].pc.SwapSchema? && !s.calls[t].pc.SwapArray? ==> !s.arrayPtr)
  }

  predicate Inv(s: State) {
    && (forall t :: t in s.calls ==> CallOk(s.calls[t]))
    && SchemaOwned(s) && ArrayOwned(s) && Swapped(s) && s.faults == 0
  }

  // ---- every step keeps it -------------------------------------------------------------------------

  lemma StepKeepsCalls(s: State, a: Action)
    requires Inv(s) && Enabled(s, a)
    ensures forall t :: t in Exec(s, a).calls ==> CallOk(Exec(s, a).calls[t])
  {
    if a.Step? {
      NextCallOk(s, s.calls[a.id], a.ok);
    }
  }

  lemma NextCallOk(s: State, c: Call, ok: bool)
    requires CallOk(c)
    ensures CallOk(NextCall(s, c, ok))
  {
  }

  lemma StepKeepsSwapped(s: State, a: Action)
    requires Inv(s) && Enabled(s, a)
    ensures Swapped(Exec(s, a))
  {
  }

  lemma StepKeepsSchema(s: State, a: Action)
    requires Inv(s) && Enabled(s, a)
    ensures SchemaOwned(Exec(s, a))
  {
  }

  lemma StepKeepsArray(s: State, a: Action)
    requires Inv(s) && Enabled(s, a)
    ensures ArrayOwned(Exec(s, a))
  {
  }

  /** No step touches a freed box. */
  lemma StepTouchesLiveBoxes(s: State, a: Action)
    requires Inv(s) && Enabled(s, a)
    ensures Exec(s, a).faults == 0
  {
  }

  lemma StepKeepsInv(s: State, a: Action)
    requires Inv(s) && Enabled(s, a)
    ensures Inv(Exec(s, a))
  {
    StepKeepsCalls(s, a);
    StepKeepsSwapped(s, a);
    StepKeepsSchema(s, a);
    StepKeepsArray(s, a);
    StepTouchesLiveBoxes(s, a);
  }

  // ---- every interleaving --------------------------------------------------------------------------

  predicate Runs(s: State, actions: seq<Action>)
    decreases actions
  {
    actions == [] || (Enabled(s, actions[0]) && Runs(Exec(s, actions[0]), actions[1..]))
  }

  function After(s: State, actions: seq<Action>): State
    requires Runs(s, actions)
    decreases actions
  {
    if actions == [] then s else After(Exec(s, actions[0]), actions[1..])
  }

  lemma {:induction false} RunsKeepInv(s: State, actions: seq<Action>)
    requires Inv(s) && Runs(s, actions)
    ensures Inv(After(s, actions))
    decreases actions
  {
    if actions != [] {
      StepKeepsInv(s, actions[0]);
      RunsKeepInv(Exec(s, actions[0]), actions[1..]);
    }
  }

  /** Ownership, in every interleaving: no access to freed memory, each box freed and each content
      disposed of at most once, each pointer obtained by at most one call, and once an import has
      both no other call gets either. */
  lemma OwnershipIsExclusive(actions: seq<Action>)
    requires Runs(EXPORTED, actions)
    ensures var s := After(EXPORTED, actions);
      && s.faults == 0
      && s.schema.frees <= 1 && s.array_.frees <= 1 && s.schema.disposals <= 1 && s.array_.disposals <= 1
      && (forall t, u :: t in s.calls && u in s.calls && s.calls[t].schemaRaw && s.calls[u].schemaRaw ==> t == u)
      && (forall t, u :: t in s.calls && u in s.calls && s.calls[t].arrayRaw && s.calls[u].arrayRaw ==> t == u)
      && (forall t, u :: t in s.calls && u in s.calls && t != u && s.calls[t].pc == Returned(Imported) ==>
            !s.calls[u].schemaRaw && !s.calls[u].arrayRaw)
  {
    RunsKeepInv(EXPORTED, actions);
  }

  /** After the drop each struct has been freed and disposed of exactly once, unless - and only
      unless - a failed import kept its pointer. */
  lemma AfterTheDrop(actions: seq<Action>)
    requires Runs(EXPORTED, actions) && DropBegun(After(EXPORTED, actions)) && AllReturned(After(EXPORTED, actions))
    ensures var s := After(EXPORTED, actions);
      && ((s.schema.frees == 1 && s.schema.disposals == 1) <==>
          forall t :: t in s.calls && s.calls[t].pc == Returned(AlreadyConsumed) ==> !s.calls[t].schemaRaw)
      && ((s.array_.frees == 1 && s.array_.disposals == 1) <==>
          forall t :: t in s.calls && s.calls[t].pc == Returned(AlreadyConsumed) ==> !s.calls[t].arrayRaw)
  {
    RunsKeepInv(EXPORTED, actions);
    var s := After(EXPORTED, actions);
    var d :| d in s.calls && s.calls[d].kind.Drop?;
    assert !s.schemaPtr && !s.arrayPtr;
    var t, u := s.schemaTaker.value, s.arrayTaker.value;
    assert CallOk(s.calls[t]) && CallOk(s.calls[u]);
    var outcome := s.calls[t].pc.outcome;
    assert outcome.Imported? || outcome.FfiError? || outcome.Completed? || outcome.AlreadyConsumed?;
    assert HoldsSchema(s.calls[t]) <==> s.calls[t].pc == Returned(AlreadyConsumed);
  }

  // ---- read off the schedule ----------------------------------------------------------------------------

  /** The call whose swap of the schema pointer comes first: the first to take a step. */
  function FirstSwapper(actions: seq<Action>): Option<nat> {
    if actions == [] then None
    else if actions[0].Step? then Some(actions[0].id)
    else FirstSwapper(actions[1..])
  }

  /** The call whose swap of the array pointer comes first: the first to take a second step, given the calls
      that have taken one. */
  function SecondSwapper(actions: seq<Action>, swapped: set<nat>): Option<nat> {
    if actions == [] then None
    else
      match actions[0]
      case Begin(_, _) => SecondSwapper(actions[1..], swapped)
      case Step(id, _) => if id in swapped then Some(id) else SecondSwapper(actions[1..], swapped + {id})
  }

  function KindIn(actions: seq<Action>, id: nat): Option<Kind> {
    if actions == [] then None
    else if actions[0].Begin? && actions[0].id == id then Some(actions[0].kind)
    else KindIn(actions[1..], id)
  }

  ghost predicate HaveSwapped(s: State, swapped: set<nat>) {
    forall t :: t in swapped <==> t in s.calls && !s.calls[t].pc.SwapSchema?
  }

  lemma NextSwapped(s: State, a: Action, swapped: set<nat>)
    requires Inv(s) && Enabled(s, a) && HaveSwapped(s, swapped)
    ensures HaveSwapped(Exec(s, a), if a.Step? then swapped + {a.id} else swapped)
  {
  }

  lemma NextTakers(s: State, a: Action, swapped: set<nat>)
    requires Inv(s) && Enabled(s, a) && HaveSwapped(s, swapped)
    ensures Exec(s, a).schemaTaker ==
            if s.schemaTaker.Some? then s.schemaTaker else if a.Step? then Some(a.id) else None
    ensures Exec(s, a).arrayTaker ==
            if s.arrayTaker.Some? then s.arrayTaker else if a.Step? && a.id in swapped then Some(a.id) else None
  {
  }

  /** The takers of the two pointers are the first swappers. */
  lemma {:induction false} TakersFollow(s: State, actions: seq<Action>, swapped: set<nat>)
    requires Inv(s) && Runs(s, actions) && HaveSwapped(s, swapped)
    ensures After(s, actions).schemaTaker == if s.schemaTaker.Some? then s.schemaTaker else FirstSwapper(actions)
    ensures After(s, actions).arrayTaker ==
            if s.arrayTaker.Some? then s.arrayTaker else SecondSwapper(actions, swapped)
    decreases actions
  {
    if actions != [] {
      var a := actions[0];
      StepKeepsInv(s, a);
      NextSwapped(s, a, swapped);
      NextTakers(s, a, swapped);
      TakersFollow(Exec(s, a), actions[1..], if a.Step? then swapped + {a.id} else swapped);
    }
  }

  lemma {:induction false} KindsFollow(s: State, actions: seq<Action>, id: nat)
    requires Runs(s, actions) && id in After(s, actions).calls
    ensures Some(After(s, actions).calls[id].kind) ==
            if id in s.calls then Some(s.calls[id].kind) else KindIn(actions, id)
    decreases actions
  {
    if actions != [] {
      KindsFollow(Exec(s, actions[0]), actions[1..], id);
    }
  }

  /** Where a failed import keeps a pointer: it got this one and another call got the other. */
  lemma KeptPointers(s: State)
    requires Inv(s) && AllReturned(s) && s.schemaTaker.Some? && s.arrayTaker.Some?
    ensures var t, u := s.schemaTaker.value, s.arrayTaker.value;
      && t in s.calls && u in s.calls
      && (s.calls[t].pc == Returned(AlreadyConsumed) <==> s.calls[t].kind.Import? && t != u)
      && (s.calls[u].pc == Returned(AlreadyConsumed) <==> s.calls[u].kind.Import? && t != u)
  {
    var t, u := s.schemaTaker.value, s.arrayTaker.value;
    assert CallOk(s.calls[t]) && CallOk(s.calls[u]);
    ReturnedOutcome(s.calls[t]);
    ReturnedOutcome(s.calls[u]);
  }

  lemma ReturnedOutcome(c: Call)
    requires CallOk(c) && c.pc.Returned?
    ensures c.pc == Returned(AlreadyConsumed) <==> c.kind.Import? && !(c.schemaRaw && c.arrayRaw)
  {
    var outcome := c.pc.outcome;
    assert outcome.Imported? || outcome.FfiError? || outcome.Completed? || outcome.AlreadyConsumed?;
  }

  /** Exactly-once release decided by the schedule alone. Let one call be the first to swap the schema pointer
      and one the first to swap the array pointer. A struct is freed and disposed of exactly once unless, and
      only unless, the call that got its pointer is an import and the other pointer went to another call. */
  lemma ScheduleDecides(actions: seq<Action>)
    requires Runs(EXPORTED, actions) && DropBegun(After(EXPORTED, actions)) && AllReturned(After(EXPORTED, actions))
    ensures FirstSwapper(actions).Some? && SecondSwapper(actions, {}).Some?
    ensures var t, u := FirstSwapper(actions).value, SecondSwapper(actions, {}).value;
      var s := After(EXPORTED, actions);
      && (s.schema.frees == 1 && s.schema.disposals == 1 <==> !(KindIn(actions, t) == Some(Import) && t != u))
      && (s.array_.frees == 1 && s.array_.disposals == 1 <==> !(KindIn(actions, u) == Some(Import) && t != u))
  {
    RunsKeepInv(EXPORTED, actions);
    TakersFollow(EXPORTED, actions, {});
    var s := After(EXPORTED, actions);
    var d :| d in s.calls && s.calls[d].kind.Drop?;
    assert !s.schemaPtr && !s.arrayPtr;
    KeptPointers(s);
    var t, u := s.schemaTaker.value, s.arrayTaker.value;
    KindsFollow(EXPORTED, actions, t);
    KindsFollow(EXPORTED, actions, u);
    AfterTheDrop(actions);
  }

  // ---- what the calls answer ------------------------------------------------------------------------------

  /** The choice at the `n`-th step of a call. */
  function NthChoice(actions: seq<Action>, id: nat, n: nat): Option<bool> {
    if actions == [] then None
    else if actions[0].Step? && actions[0].id == id then
      if n <= 1 then Some(actions[0].ok) else NthChoice(actions[1..], id, n - 1)
    else NthChoice(actions[1..], id, n)
  }

  /** Which step from here on is the one of `from_ffi`, the fifth of an import; 0 once it is past. */
  function StepsToFfi(pc: Pc): nat {
    match pc
    case SwapSchema => 5
    case SwapArray => 4
    case NullCheck => 3
    case TakeArray => 2
    case FromFfi => 1
    case _ => 0
  }

  /** An import at this point that gets past the null check will return by the outcome of its `from_ffi`: by
      the choice made there, if it is still to come. */
  predicate AnswersBy(c: Call, choice: Option<bool>, answer: Pc) {
    && (StepsToFfi(c.pc) > 0 && answer != Returned(AlreadyConsumed) ==>
          choice.Some? && answer == Returned(if choice.value then Imported else FfiError))
    && (c.pc.DropSchema? ==> answer == Returned(if c.ok then Imported else FfiError))
    && (c.pc.Returned? ==> answer == c.pc)
  }

  lemma StepAnswers(s: State, c: Call, ok: bool, later: Option<bool>, answer: Pc)
    requires c.kind.Import? && CallOk(c) && !c.pc.Returned?
    requires AnswersBy(NextCall(s, c, ok), later, answer)
    ensures AnswersBy(c, if StepsToFfi(c.pc) <= 1 then Some(ok) else later, answer)
  {
  }

  lemma {:induction false} ImportAnswers(s: State, actions: seq<Action>, id: nat)
    requires Runs(s, actions) && id in s.calls && s.calls[id].kind.Import? && CallOk(s.calls[id])
    requires id in After(s, actions).calls && After(s, actions).calls[id].pc.Returned?
    ensures AnswersBy(s.calls[id], NthChoice(actions, id, StepsToFfi(s.calls[id].pc)), After(s, actions).calls[id].pc)
    decreases actions
  {
    if actions != [] {
      var a := actions[0];
      if a.Step? && a.id == id {
        var c := s.calls[id];
        NextCallOk(s, c, a.ok);
        ImportAnswers(Exec(s, a), actions[1..], id);
        var d := NextCall(s, c, a.ok);
        StepAnswers(s, c, a.ok, NthChoice(actions[1..], id, StepsToFfi(d.pc)), After(s, actions).calls[id].pc);
      } else {
        ImportAnswers(Exec(s, a), actions[1..], id);
      }
    }
  }

  /** The same from before the call begins. */
  lemma {:induction false} LaterImportAnswers(s: State, actions: seq<Action>, id: nat)
    requires Runs(s, actions) && id !in s.calls && id in After(s, actions).calls
    requires After(s, actions).calls[id].kind.Import? && After(s, actions).calls[id].pc.Returned?
    ensures After(s, actions).calls[id].pc != Returned(AlreadyConsumed) ==>
              NthChoice(actions, id, 5).Some? &&
              After(s, actions).calls[id].pc ==
              Returned(if NthChoice(actions, id, 5).value then Imported else FfiError)
    decreases actions
  {
    var a := actions[0];
    if a.Begin? && a.id == id {
      KindsFollow(Exec(s, a), actions[1..], id);
      ImportAnswers(Exec(s, a), actions[1..], id);
    } else {
      LaterImportAnswers(Exec(s, a), actions[1..], id);
    }
  }

  /** Every answer, from the schedule alone. An import that got both pointers returns the batch exactly when
      its `from_ffi` succeeded, and the error exactly when it failed; one that missed a pointer finds the
      handle consumed; the other calls complete. */
  lemma AnswersFollow(actions: seq<Action>, id: nat)
    requires Runs(EXPORTED, actions) && id in After(EXPORTED, actions).calls
    requires After(EXPORTED, actions).calls[id].pc.Returned?
    ensures KindIn(actions, id).Some?
    ensures var answer := After(EXPORTED, actions).calls[id].pc.outcome;
      if KindIn(actions, id) != Some(Import) then answer == Completed
      else if FirstSwapper(actions) == Some(id) && SecondSwapper(actions, {}) == Some(id) then
        NthChoice(actions, id, 5).Some? &&
        answer == if NthChoice(actions, id, 5).value then Imported else FfiError
      else answer == AlreadyConsumed
  {
    RunsKeepInv(EXPORTED, actions);
    TakersFollow(EXPORTED, actions, {});
    KindsFollow(EXPORTED, actions, id);
    var s := After(EXPORTED, actions);
    var c := s.calls[id];
    assert CallOk(c);
    ReturnedOutcome(c);
    assert c.schemaRaw <==> s.schemaTaker == Some(id);
    assert c.arrayRaw <==> s.arrayTaker == Some(id);
    if c.kind.Import? {
      LaterImportAnswers(EXPORTED, actions, id);
    }
  }

  /** No step that reads or frees a struct finds it gone. */
  lemma StructsAreThere(actions: seq<Action>, id: nat)
    requires Runs(EXPORTED, actions) && id in After(EXPORTED, actions).calls
    ensures var s := After(EXPORTED, actions); var c := s.calls[id];
      && (c.pc.TakeArray? || (c.pc.FreeArray? && c.arrayRaw) ==> s.array_.live)
      && (c.pc.FromFfi? || c.pc.DropSchema? || (c.pc.FreeSchema? && c.schemaRaw) ==> s.schema.live)
  {
    RunsKeepInv(EXPORTED, actions);
    assert CallOk(After(EXPORTED, actions).calls[id]);
  }

  // ---- overlapping calls can leak; calls in turn cannot -----------------------------------------------

  /** An import takes the schema, then a mark-consumed call finds only the array. */
  const SWAPS: seq<Action> := [
    Begin(0, Import), Step(0, true),
    Begin(1, MarkConsumed), Step(1, true), Step(1, true)]

  /** The import fails for want of the array and keeps the schema; the other call frees the array. */
  const RETURNS: seq<Action> := [Step(0, true), Step(0, true), Step(1, true), Step(1, true)]

  const OVERLAP := SWAPS + RETURNS

  /** Between the two: each call holds one of the two pointers. */
  const SHARED := State(
    false, false, Box(true, 0, 0), Box(true, 0, 0), 0,
    map[0 := Call(Import, SwapArray, true, false, false), 1 := Call(MarkConsumed, FreeArray, false, true, false)],
    Some(0), Some(1))

  lemma Prepend(s: State, a: Action, s': State, rest: seq<Action>)
    requires Enabled(s, a) && Exec(s, a) == s' && Runs(s', rest)
    ensures Runs(s, [a] + rest) && After(s, [a] + rest) == After(s', rest)
  {
    assert ([a] + rest)[1..] == rest;
  }

  lemma {:induction false} RunsConcat(s: State, first: seq<Action>, second: seq<Action>)
    requires Runs(s, first) && Runs(After(s, first), second)
    ensures Runs(s, first + second) && After(s, first + second) == After(After(s, first), second)
    decreases first
  {
    if first == [] {
      assert first + second == second;
    } else {
      RunsConcat(Exec(s, first[0]), first[1..], second);
      assert (first + second)[1..] == first[1..] + second;
    }
  }

  lemma SwapsShare()
    ensures Runs(EXPORTED, SWAPS) && After(EXPORTED, SWAPS) == SHARED
  {
    var s1 := Exec(EXPORTED, Begin(0, Import));
    var s2 := Exec(s1, Step(0, true));
    var s3 := Exec(s2, Begin(1, MarkConsumed));
    var s4 := Exec(s3, Step(1, true));
    Prepend(s4, Step(1, true), SHARED, []);
    Prepend(s3, Step(1, true), s4, SWAPS[4..]);
    Prepend(s2, Begin(1, MarkConsumed), s3, SWAPS[3..]);
    Prepend(s1, Step(0, true), s2, SWAPS[2..]);
    Prepend(EXPORTED, Begin(0, Import), s1, SWAPS[1..]);
  }

  predicate SchemaLeaked(s: State) {
    AllReturned(s) && !s.schemaPtr && !s.arrayPtr && s.schema.frees == 0 && s.array_.frees == 1
  }

  lemma ReturnsLeak()
    ensures Runs(SHARED, RETURNS) && SchemaLeaked(After(SHARED, RETURNS))
  {
    var s1 := Exec(SHARED, Step(0, true));
    var s2 := Exec(s1, Step(0, true));
    var s3 := Exec(s2, Step(1, true));
    var s4 := Exec(s3, Step(1, true));
    Prepend(s3, Step(1, true), s4, []);
    Prepend(s2, Step(1, true), s3, RETURNS[3..]);
    Prepend(s1, Step(0, true), s2, RETURNS[2..]);
    Prepend(SHARED, Step(0, true), s1, RETURNS[1..]);
  }

  /** All calls have returned, the handle is empty, and nobody will ever free the schema. */
  lemma OverlapLeaks()
    ensures Runs(EXPORTED, OVERLAP) && SchemaLeaked(After(EXPORTED, OVERLAP))
  {
    SwapsShare();
    ReturnsLeak();
    RunsConcat(EXPORTED, SWAPS, RETURNS);
  }

  /** Calls that do not overlap: one begins only when every earlier one has returned. */
  predicate RunsInTurn(s: State, actions: seq<Action>)
    decreases actions
  {
    actions == [] ||
    (Enabled(s, actions[0]) && (actions[0].Begin? ==> AllReturned(s)) && RunsInTurn(Exec(s, actions[0]), actions[1..]))
  }

  /** With calls in turn, both pointers leave the handle together: a call ends up with both or none. */
  predicate Paired(s: State) {
    && (AllReturned(s) ==> s.schemaPtr == s.arrayPtr)
    && (forall t, u :: t in s.calls && u in s.calls && !s.calls[t].pc.Returned? && !s.calls[u].pc.Returned? ==> t == u)
    && (forall t :: t in s.calls && s.calls[t].pc.SwapSchema? ==> s.schemaPtr == s.arrayPtr)
    && (forall t :: t in s.calls && s.calls[t].pc.SwapArray? ==> s.calls[t].schemaRaw == s.arrayPtr && !s.schemaPtr)
    && (forall t :: t in s.calls && !s.calls[t].pc.SwapSchema? && !s.calls[t].pc.SwapArray? ==>
          s.calls[t].schemaRaw == s.calls[t].arrayRaw)
  }

  lemma StepKeepsPaired(s: State, a: Action)
    requires Inv(s) && Paired(s) && Enabled(s, a) && (a.Begin? ==> AllReturned(s))
    ensures Paired(Exec(s, a))
  {
    StepKeepsSwapped(s, a);
    var s' := Exec(s, a);
    assert a.id in s'.calls;
    assert AllReturned(s') ==> s'.calls[a.id].pc.Returned? && !s'.schemaPtr && !s'.arrayPtr;
  }

  lemma {:induction false} TurnsKeepPaired(s: State, actions: seq<Action>)
    requires Inv(s) && Paired(s) && RunsInTurn(s, actions)
    ensures Runs(s, actions) && Inv(After(s, actions)) && Paired(After(s, actions))
    decreases actions
  {
    if actions != [] {
      StepKeepsInv(s, actions[0]);
      StepKeepsPaired(s, actions[0]);
      TurnsKeepPaired(Exec(s, actions[0]), actions[1..]);
    }
  }

  /** Without overlap each struct is freed, and its contents disposed of, exactly once. */
  lemma InTurnReleasesExactlyOnce(actions: seq<Action>)
    requires RunsInTurn(EXPORTED, actions)
    ensures Runs(EXPORTED, actions)
    ensures var s := After(EXPORTED, actions);
      DropBegun(s) && AllReturned(s) ==>
        s.schema.frees == s.schema.disposals == 1 && s.array_.frees == s.array_.disposals == 1
  {
    TurnsKeepPaired(EXPORTED, actions);
    var s := After(EXPORTED, actions);
    if DropBegun(s) && AllReturned(s) {
      AfterTheDrop(actions);
      forall t | t in s.calls && s.calls[t].pc == Returned(AlreadyConsumed)
        ensures !s.calls[t].schemaRaw && !s.calls[t].arrayRaw
      {
        assert CallOk(s.calls[t]);
      }
    }
  }
}
