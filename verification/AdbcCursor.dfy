/** The cursor of an ADBC result (adbc.rs), shared by any number of concurrent `next` calls: each
    call takes the batches lock, the index lock and the batches lock again, one after the other. */
module AdbcCursor {
  import opened Wrappers

  /** Where a call stands between two critical sections. */
  datatype Call<T> =
    | Started
    | KnowsLength(len: nat)
    | Claimed(index: nat)
    | Got(index: nat, batch: T)
    | GotDone

  /** The result and its calls. `claims` is history: the indices handed out, in order. */
  datatype State<T> = State(batches: seq<T>, index: nat, calls: map<nat, Call<T>>, claims: seq<nat>)

  datatype Action = Begin(id: nat) | Step(id: nat)

  predicate Enabled<T>(s: State<T>, a: Action) {
    match a
    case Begin(id) => id !in s.calls
    case Step(id) => id in s.calls && !s.calls[id].Got? && !s.calls[id].GotDone? &&
                     (s.calls[id].Claimed? ==> s.calls[id].index < |s.batches|)
  }

  /** One critical section of `adbc_stream_next`. */
  function Exec<T>(s: State<T>, a: Action): State<T>
    requires Enabled(s, a)
  {
    match a
    case Begin(id) => s.(calls := s.calls[id := Started])
    case Step(id) =>
      match s.calls[id]
      case Started => s.(calls := s.calls[id := KnowsLength(|s.batches|)])
      case KnowsLength(len) =>
        if s.index >= len then s.(calls := s.calls[id := GotDone])
        else s.(index := s.index + 1, claims := s.claims + [s.index], calls := s.calls[id := Claimed(s.index)])
      case Claimed(i) => s.(calls := s.calls[id := Got(i, s.batches[i])])
      case _ => s
  }

  /** The index a call holds, if it claimed one. */
  function ClaimOf<T>(c: Call<T>): Option<nat> {
    match c
    case Claimed(i) => Some(i)
    case Got(i, _) => Some(i)
    case _ => None
  }

  ghost predicate CallOk<T>(s: State<T>, c: Call<T>) {
    match c
    case Started => true
    case KnowsLength(len) => len == |s.batches|
    case Claimed(i) => i < s.index
    case Got(i, batch) => i < s.index && i < |s.batches| && batch == s.batches[i]
    case GotDone => s.index == |s.batches|
  }

  /** Indices are handed out 0, 1, 2, ... and each claimed index belongs to exactly one call. */
  ghost predicate Inv<T>(s: State<T>) {
    && s.index <= |s.batches|
    && s.claims == seq(s.index, i => i)
    && (forall t :: t in s.calls ==> CallOk(s, s.calls[t]))
    && Distinct(s)
    && (forall i :: 0 <= i < s.index ==> Held(s, i))
  }

  predicate Distinct<T>(s: State<T>) {
    forall t, u :: t in s.calls && u in s.calls && t != u && ClaimOf(s.calls[t]).Some? ==>
      ClaimOf(s.calls[t]) != ClaimOf(s.calls[u])
  }

  ghost predicate Held<T>(s: State<T>, i: nat) {
    exists t :: t in s.calls && ClaimOf(s.calls[t]) == Some(i)
  }

  function Opened<T>(batches: seq<T>): State<T> {
    State(batches, 0, map[], [])
  }

  lemma StepKeepsCalls<T>(s: State<T>, a: Action)
    requires Inv(s) && Enabled(s, a)
    ensures forall t :: t in Exec(s, a).calls ==> CallOk(Exec(s, a), Exec(s, a).calls[t])
  {
  }

  lemma StepKeepsDistinct<T>(s: State<T>, a: Action)
    requires Inv(s) && Enabled(s, a)
    ensures Distinct(Exec(s, a))
  {
    var s' := Exec(s, a);
    forall t, u | t in s'.calls && u in s'.calls && t != u && ClaimOf(s'.calls[t]).Some?
      ensures ClaimOf(s'.calls[t]) != ClaimOf(s'.calls[u])
    {
      assert t != a.id ==> CallOk(s, s.calls[t]);
      assert u != a.id ==> CallOk(s, s.calls[u]);
    }
  }

  lemma StepKeepsHeld<T>(s: State<T>, a: Action, i: nat)
    requires Inv(s) && Enabled(s, a) && i < Exec(s, a).index
    ensures Held(Exec(s, a), i)
  {
    var s' := Exec(s, a);
    if i < s.index {
      assert Held(s, i);
      var t :| t in s.calls && ClaimOf(s.calls[t]) == Some(i);
      assert t in s'.calls && ClaimOf(s'.calls[t]) == Some(i);
    } else {
      assert a.id in s'.calls && ClaimOf(s'.calls[a.id]) == Some(i);
    }
  }

  lemma StepKeepsInv<T>(s: State<T>, a: Action)
    requires Inv(s) && Enabled(s, a)
    ensures Inv(Exec(s, a)) && Exec(s, a).batches == s.batches
  {
    StepKeepsCalls(s, a);
    StepKeepsDistinct(s, a);
    forall i | 0 <= i < Exec(s, a).index
      ensures Held(Exec(s, a), i)
    {
      StepKeepsHeld(s, a, i);
    }
  }

  predicate Runs<T>(s: State<T>, actions: seq<Action>)
    decreases actions
  {
    actions == [] || (Enabled(s, actions[0]) && Runs(Exec(s, actions[0]), actions[1..]))
  }

  function After<T>(s: State<T>, actions: seq<Action>): State<T>
    requires Runs(s, actions)
    decreases actions
  {
    if actions == [] then s else After(Exec(s, actions[0]), actions[1..])
  }

  lemma {:induction false} RunsKeepInv<T>(s: State<T>, actions: seq<Action>)
    requires Inv(s) && Runs(s, actions)
    ensures Inv(After(s, actions)) && After(s, actions).batches == s.batches
    decreases actions
  {
    if actions != [] {
      StepKeepsInv(s, actions[0]);
      RunsKeepInv(Exec(s, actions[0]), actions[1..]);
    }
  }

  /** Exactly-once delivery, in every interleaving: the claimed indices are 0 to index - 1 without
      gaps, no two calls share one, a call that got a batch got the batch of its index, and done is
      answered only when every batch has been claimed. */
  lemma DeliversExactlyOnce<T>(batches: seq<T>, actions: seq<Action>)
    requires Runs(Opened(batches), actions)
    ensures var s := After(Opened(batches), actions);
      && s.index <= |batches| && s.claims == seq(s.index, i => i)
      && (forall i :: 0 <= i < s.index ==> Held(s, i))
      && Distinct(s)
      && (forall t :: t in s.calls && s.calls[t].Got? ==>
            s.calls[t].index < |batches| && s.calls[t].batch == batches[s.calls[t].index])
      && (forall t :: t in s.calls && s.calls[t].GotDone? ==> s.index == |batches|)
  {
    RunsKeepInv(Opened(batches), actions);
    var s := After(Opened(batches), actions);
    assert forall t :: t in s.calls ==> CallOk(s, s.calls[t]);
  }

  /** No call blocks or panics: the index it claimed is in range when it comes to read the batch. */
  lemma ClaimsAreReadable<T>(batches: seq<T>, actions: seq<Action>, id: nat)
    requires Runs(Opened(batches), actions) && id in After(Opened(batches), actions).calls
    ensures var s := After(Opened(batches), actions);
      s.calls[id].Got? || s.calls[id].GotDone? || Enabled(s, Step(id))
  {
    RunsKeepInv(Opened(batches), actions);
    var s := After(Opened(batches), actions);
    assert CallOk(s, s.calls[id]);
  }
}
