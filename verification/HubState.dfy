/**
 The state of the Hub client between two awaits, its invariant, and the steps that keep it. The fields `operations`,
 `pendings`, `head` and `store` are what the JavaScript runtime and the caller hold meanwhile.
 */
module HubState {
  import opened Wrappers
  import opened HubTrace

  type HubId = string

  /**
   Where an operation is that saves a credential or asks for drives. Between `Asking`, its checked query, and `Asked`,
   its dispatched one, it waits for its authorization. `Finished` is its settled promise.
   */
  datatype Stage =
    | Active
    | SaveQueued
    | SaveDone
    | SaveFailed
    | Asking(asked: Option<Cursor>, binding: Binding)
    | Asked(asked: Option<Cursor>, binding: Binding)
    | Finished(success: bool)

  /** `aborted` is the state of its combined signal; `waitingOn` the shared discovery it awaits. */
  datatype Operation = Operation(generation: nat, aborted: bool, waitingOn: Option<nat>, stage: Stage)

  /** The shared discovery promise: its request, its handlers in turn, and then its callers. */
  datatype Phase = Fetching | Rejecting | Handled(success: bool) | Settled(success: bool)

  datatype Pending = Pending(generation: nat, aborted: bool, waiters: nat, callers: set<nat>, phase: Phase)

  datatype Mutation = Save(operation: nat) | Clear(generation: nat)

  /** The mutation at the head of the chain: not started, called, or called and applied by the store. */
  datatype Head = Idle | Calling | Applied

  /** The signal of an operation fires: if it waits on a discovery, its promise rejects. */
  function Abort(o: Operation): Operation {
    o.(aborted := true, waitingOn := None, stage := if o.waitingOn.Some? then Finished(false) else o.stage)
  }

  function AbortOperations(operations: seq<Operation>): (r: seq<Operation>)
    ensures |r| == |operations|
    ensures forall i :: 0 <= i < |r| ==> r[i] == Abort(operations[i])
  {
    seq(|operations|, i requires 0 <= i < |operations| => Abort(operations[i]))
  }

  function AbortPendings(pendings: seq<Pending>): (r: seq<Pending>)
    ensures |r| == |pendings|
    ensures forall i :: 0 <= i < |r| ==> r[i] == pendings[i].(aborted := true, waiters := 0, callers := {})
  {
    seq(|pendings|, i requires 0 <= i < |pendings| => pendings[i].(aborted := true, waiters := 0, callers := {}))
  }

  /** Everything that the invariant speaks of. */
  datatype View = View(initial: Content, trace: seq<Event>, generation: nat, disposed: bool, store: Content,
                       bindings: map<Cursor, Binding>, operations: seq<Operation>, pendings: seq<Pending>,
                       recorded: Option<nat>, chain: seq<Mutation>, head: Head, expected: HubId,
                       discovery: Option<HubId>, discoveredBy: nat, ownerAborted: bool)

  /** An operation or shared request of an earlier generation has been aborted, and after disposal all have. */
  ghost predicate Sound(generation: nat, aborted: bool, current: nat, disposed: bool) {
    generation <= current && (generation < current || disposed ==> aborted)
  }

  ghost predicate OperationsInv(operations: seq<Operation>, pendings: seq<Pending>, current: nat, disposed: bool) {
    forall i :: 0 <= i < |operations| ==>
      var o := operations[i];
      && Sound(o.generation, o.aborted, current, disposed)
      && (o.waitingOn.Some? ==>
            && !o.aborted && o.waitingOn.value < |pendings| && i in pendings[o.waitingOn.value].callers)
  }

  /** What the trace says about an operation in this stage. */
  ghost predicate StageKnown(i: nat, generation: nat, stage: Stage, trace: seq<Event>) {
    match stage
    case Asking(asked, binding) => Checked(i, generation, asked, binding) in trace
    case Asked(asked, binding) => Dispatched(i, generation, asked, binding) in trace
    case SaveDone => Written(i, generation) in trace
    case _ => true
  }

  ghost predicate BeganInv(operations: seq<Operation>, trace: seq<Event>) {
    && (forall i :: 0 <= i < |operations| ==>
          && Began(i, operations[i].generation) in trace
          && StageKnown(i, operations[i].generation, operations[i].stage, trace))
    && forall i: nat, g :: Began(i, g) in trace ==> i < |operations|
  }

  /** Waiter counts are exact, and every waiting caller waits on this discovery only. */
  ghost predicate CallersInv(operations: seq<Operation>, pendings: seq<Pending>) {
    forall p :: 0 <= p < |pendings| ==>
      && pendings[p].waiters == |pendings[p].callers|
      && forall i <- pendings[p].callers :: i < |operations| && operations[i].waitingOn == Some(p)
  }

  /** At most one unaborted discovery is unsettled, and it is the recorded one, which always has a caller. */
  ghost predicate SingleFlight(pendings: seq<Pending>, recorded: Option<nat>, current: nat, disposed: bool) {
    && (recorded.Some? ==>
          && recorded.value < |pendings| && !disposed
          && var r := pendings[recorded.value];
             r.generation == current && !r.aborted && !r.phase.Settled? && r.waiters > 0)
    && forall p :: 0 <= p < |pendings| ==>
         && Sound(pendings[p].generation, pendings[p].aborted, current, disposed)
         && (!pendings[p].aborted && !pendings[p].phase.Settled? ==> recorded == Some(p))
  }

  /** What the trace says about the shared discoveries. */
  ghost predicate DiscoveriesInv(pendings: seq<Pending>, trace: seq<Event>) {
    && (forall p: nat :: Abandoned(p) in trace ==> p < |pendings| && pendings[p].aborted)
    && (forall p :: 0 <= p < |pendings| ==> DiscoveryStarted(p, pendings[p].generation) in trace)
    && forall p: nat, g :: DiscoveryStarted(p, g) in trace ==> p < |pendings|
  }

  /**
   The chain holds saves of known operations and clears of past logouts; a save in flight has been called, and is newer
   than every clear done.
   */
  ghost predicate ChainInv(operations: seq<Operation>, chain: seq<Mutation>, head: Head, store: Content,
                           trace: seq<Event>) {
    && (forall k :: 0 <= k < |chain| ==> match chain[k]
          case Save(op) => op < |operations|
          case Clear(g) => LoggedOut(g) in trace)
    && (head != Idle ==>
          && |chain| > 0
          && match chain[0]
             case Save(op) =>
               && operations[op].generation >= Cleared(trace)
               && SaveCalled(op, operations[op].generation) in trace
               && (head == Applied ==> Written(op, operations[op].generation) in trace)
             case Clear(_) => head == Applied ==> store == Empty)
  }

  /** What the trace says about the fields it determines. */
  ghost predicate TraceInv(initial: Content, trace: seq<Event>, current: nat, store: Content,
                           bindings: map<Cursor, Binding>) {
    && Lawful(initial, trace)
    && current == Generation(trace)
    && Cleared(trace) <= current
    && store == StoreOf(initial, trace)
    && bindings == BindingsOf(trace)
  }

  /** What is cached is the expected hub, as a discovery that started in the current session has found it. */
  ghost predicate CacheInv(expected: HubId, discovery: Option<HubId>, discoveredBy: nat, pendings: seq<Pending>,
                           current: nat, disposed: bool, trace: seq<Event>) {
    discovery.Some? ==>
      && discovery.value == expected && !disposed
      && discoveredBy < |pendings| && pendings[discoveredBy].generation == current
      && CacheWritten(discoveredBy, current) in trace
  }

  ghost predicate OwnerInv(ownerAborted: bool, operations: seq<Operation>) {
    ownerAborted ==> forall i :: 0 <= i < |operations| ==> operations[i].aborted
  }

  ghost predicate Consistent(v: View) {
    && TraceInv(v.initial, v.trace, v.generation, v.store, v.bindings)
    && BeganInv(v.operations, v.trace)
    && OperationsInv(v.operations, v.pendings, v.generation, v.disposed)
    && CallersInv(v.operations, v.pendings)
    && SingleFlight(v.pendings, v.recorded, v.generation, v.disposed)
    && DiscoveriesInv(v.pendings, v.trace)
    && ChainInv(v.operations, v.chain, v.head, v.store, v.trace)
    && CacheInv(v.expected, v.discovery, v.discoveredBy, v.pendings, v.generation, v.disposed, v.trace)
    && OwnerInv(v.ownerAborted, v.operations)
  }

  // ----- What single changes keep

  // A new operation.
  lemma NowBegun(operations: seq<Operation>, trace: seq<Event>, generation: nat)
    requires BeganInv(operations, trace)
    ensures BeganInv(operations + [Operation(generation, false, None, Active)],
                     trace + [Began(|operations|, generation)])
    ensures forall g :: Began(|operations|, g) !in trace
  {
    var more := operations + [Operation(generation, false, None, Active)];
    forall i | 0 <= i < |operations| ensures more[i] == operations[i] {}
  }

  // A new discovery.
  lemma NowStarted(pendings: seq<Pending>, trace: seq<Event>, generation: nat)
    requires DiscoveriesInv(pendings, trace)
    ensures DiscoveriesInv(pendings + [Pending(generation, false, 0, {}, Fetching)],
                           trace + [DiscoveryStarted(|pendings|, generation)])
    ensures forall g :: DiscoveryStarted(|pendings|, g) !in trace
  {
    var more := pendings + [Pending(generation, false, 0, {}, Fetching)];
    forall p | 0 <= p < |pendings| ensures more[p] == pendings[p] {}
  }

  // Changing anything but the generations of the operations leaves the trace's and the chain's view of them.
  lemma SameGenerations(operations: seq<Operation>, changed: seq<Operation>, chain: seq<Mutation>, head: Head,
                        store: Content, trace: seq<Event>)
    requires BeganInv(operations, trace) && ChainInv(operations, chain, head, store, trace)
    requires |changed| == |operations|
    requires forall i :: 0 <= i < |operations| ==> changed[i].generation == operations[i].generation
    requires forall i :: 0 <= i < |operations| ==>
               changed[i].stage == operations[i].stage || StageKnown(i, changed[i].generation, changed[i].stage, trace)
    ensures BeganInv(changed, trace) && ChainInv(changed, chain, head, store, trace)
  {
  }

  // Nor does an aborted operation come back.
  lemma StillAborted(ownerAborted: bool, operations: seq<Operation>, changed: seq<Operation>)
    requires OwnerInv(ownerAborted, operations) && |changed| == |operations|
    requires forall i :: 0 <= i < |operations| && operations[i].aborted ==> changed[i].aborted
    ensures OwnerInv(ownerAborted, changed)
  {
  }

  // The writer of the cache stays known.
  lemma StillCached(v: View, pendings: seq<Pending>)
    requires Consistent(v) && |v.pendings| <= |pendings|
    requires forall p :: 0 <= p < |v.pendings| ==> pendings[p].generation == v.pendings[p].generation
    ensures CacheInv(v.expected, v.discovery, v.discoveredBy, pendings, v.generation, v.disposed, v.trace)
    ensures forall e ::
              CacheInv(v.expected, v.discovery, v.discoveredBy, pendings, v.generation, v.disposed, v.trace + [e])
  {
    hide TraceInv, BeganInv, OperationsInv, CallersInv, SingleFlight, DiscoveriesInv, ChainInv, OwnerInv;
  }

  lemma NothingCached(v: View)
    ensures forall current, disposed, trace ::
              CacheInv(v.expected, None, v.discoveredBy, v.pendings, current, disposed, trace)
  {
  }

  /** A discovery with one more caller. */
  function Joining(pending: Pending, i: nat): Pending {
    pending.(waiters := pending.waiters + 1, callers := pending.callers + {i})
  }

  lemma Joined(operations: seq<Operation>, pendings: seq<Pending>, p: nat, i: nat, current: nat, disposed: bool)
    requires OperationsInv(operations, pendings, current, disposed) && CallersInv(operations, pendings)
    requires SingleFlight(pendings, Some(p), current, disposed)
    requires i < |operations| && !operations[i].aborted && operations[i].waitingOn.None?
    ensures var operations' := operations[i := operations[i].(waitingOn := Some(p))];
            var pendings' := pendings[p := Joining(pendings[p], i)];
            && OperationsInv(operations', pendings', current, disposed) && CallersInv(operations', pendings')
            && SingleFlight(pendings', Some(p), current, disposed)
  {
    assert i !in pendings[p].callers;
  }

  lemma Started(operations: seq<Operation>, pendings: seq<Pending>, i: nat, current: nat)
    requires OperationsInv(operations, pendings, current, false) && CallersInv(operations, pendings)
    requires SingleFlight(pendings, None, current, false)
    requires i < |operations| && !operations[i].aborted && operations[i].waitingOn.None?
    ensures var p := |pendings|;
            var operations' := operations[i := operations[i].(waitingOn := Some(p))];
            var started := pendings + [Pending(current, false, 0, {}, Fetching)];
            var pendings' := started[p := Joining(started[p], i)];
            && OperationsInv(operations', pendings', current, false) && CallersInv(operations', pendings')
            && SingleFlight(pendings', Some(p), current, false)
  {
  }

  /** A discovery without the caller `i`; the recorded one is aborted when its last caller leaves. */
  function Left(pending: Pending, i: nat, recorded: bool): Pending
    requires pending.waiters > 0
  {
    pending.(waiters := pending.waiters - 1, callers := pending.callers - {i},
             aborted := pending.aborted || (recorded && pending.waiters == 1))
  }

  lemma CallerLeft(operations: seq<Operation>, pendings: seq<Pending>, recorded: Option<nat>, p: nat, i: nat,
                 current: nat, disposed: bool)
    requires OperationsInv(operations, pendings, current, disposed) && CallersInv(operations, pendings)
    requires SingleFlight(pendings, recorded, current, disposed)
    requires i < |operations| && operations[i].waitingOn == Some(p)
    ensures p < |pendings| && i in pendings[p].callers && pendings[p].waiters > 0
    ensures var left := Left(pendings[p], i, recorded == Some(p));
            var operations', pendings' := operations[i := operations[i].(waitingOn := None)], pendings[p := left];
            var recorded' := if recorded == Some(p) && left.waiters == 0 then None else recorded;
            && OperationsInv(operations', pendings', current, disposed) && CallersInv(operations', pendings')
            && SingleFlight(pendings', recorded', current, disposed)
  {
  }

  lemma EverythingAborted(operations: seq<Operation>, pendings: seq<Pending>, current: nat, disposed: bool, next: nat,
                          end: bool)
    requires OperationsInv(operations, pendings, current, disposed) && CallersInv(operations, pendings)
    requires exists recorded :: SingleFlight(pendings, recorded, current, disposed)
    requires next >= current
    ensures var operations', pendings' := AbortOperations(operations), AbortPendings(pendings);
            && OperationsInv(operations', pendings', next, end) && CallersInv(operations', pendings')
            && SingleFlight(pendings', None, next, end)
  {
  }

  // Neither does a stage touch who waits on what.
  lemma SameWaiting(operations: seq<Operation>, changed: seq<Operation>, pendings: seq<Pending>, current: nat,
                    disposed: bool)
    requires OperationsInv(operations, pendings, current, disposed) && CallersInv(operations, pendings)
    requires |changed| == |operations|
    requires forall i :: 0 <= i < |operations| ==> changed[i] == operations[i].(stage := changed[i].stage)
    ensures OperationsInv(changed, pendings, current, disposed) && CallersInv(changed, pendings)
  {
  }

  lemma NowAborted(operations: seq<Operation>, pendings: seq<Pending>, i: nat, current: nat, disposed: bool)
    requires OperationsInv(operations, pendings, current, disposed) && CallersInv(operations, pendings)
    requires i < |operations| && operations[i].waitingOn.None?
    ensures var changed := operations[i := operations[i].(aborted := true)];
            OperationsInv(changed, pendings, current, disposed) && CallersInv(changed, pendings)
  {
  }

  lemma AbortedTwice(operations: seq<Operation>, pendings: seq<Pending>)
    ensures AbortOperations(AbortOperations(operations)) == AbortOperations(operations)
    ensures AbortPendings(AbortPendings(pendings)) == AbortPendings(pendings)
  {
  }

  lemma SameDiscoveries(pendings: seq<Pending>, changed: seq<Pending>, trace: seq<Event>)
    requires DiscoveriesInv(pendings, trace) && |pendings| == |changed|
    requires forall p :: 0 <= p < |pendings| ==>
               changed[p].generation == pendings[p].generation && (pendings[p].aborted ==> changed[p].aborted)
    ensures DiscoveriesInv(changed, trace)
  {
  }

  // The handlers of a discovery run; only one that is no longer recorded settles.
  lemma PhaseChanged(operations: seq<Operation>, pendings: seq<Pending>, recorded: Option<nat>, p: nat, phase: Phase,
                     current: nat, disposed: bool)
    requires OperationsInv(operations, pendings, current, disposed) && CallersInv(operations, pendings)
    requires SingleFlight(pendings, recorded, current, disposed)
    requires p < |pendings| && !pendings[p].phase.Settled?
    ensures var pendings' := pendings[p := pendings[p].(phase := phase)];
            && OperationsInv(operations, pendings', current, disposed) && CallersInv(operations, pendings')
            && (!phase.Settled? ==> SingleFlight(pendings', recorded, current, disposed))
            && (phase.Settled? && recorded == Some(p) ==> SingleFlight(pendings', None, current, disposed))
            && (phase.Settled? && recorded != Some(p) ==> SingleFlight(pendings', recorded, current, disposed))
  {
  }

  // An event leaves the view of the operations, the discoveries and the chain, unless it is about them.
  lemma Record(v: View, e: Event)
    requires Consistent(v) && Allowed(v.initial, v.trace, e)
    ensures var longer := v.trace + [e];
            && (!e.Began? ==> BeganInv(v.operations, longer))
            && (EndsSession(e) ==> TraceInv(v.initial, longer, v.generation + 1, v.store, map[]))
            && (e.BindingsCleared? ==> TraceInv(v.initial, longer, v.generation, v.store, map[]))
            && (e.Page? ==>
                  TraceInv(v.initial, longer, v.generation, v.store, v.bindings[e.cursor := e.binding]))
            && (e.Written? ==> TraceInv(v.initial, longer, v.generation, Credential(e.operation), v.bindings))
            && (e.Emptied? ==> TraceInv(v.initial, longer, v.generation, Empty, v.bindings))
            && (e.ClearSucceeded? && e.generation <= v.generation ==>
                  TraceInv(v.initial, longer, v.generation, v.store, v.bindings))
            && (IsNote(e) || e.Began? || e.DiscoveryStarted? || e.Abandoned? ==>
                  TraceInv(v.initial, longer, v.generation, v.store, v.bindings))
            && (!e.Abandoned? && !e.DiscoveryStarted? ==> DiscoveriesInv(v.pendings, longer))
            && (!e.ClearSucceeded? ==> ChainInv(v.operations, v.chain, v.head, v.store, longer))
            && CacheInv(v.expected, v.discovery, v.discoveredBy, v.pendings, v.generation, v.disposed, longer)
  {
    StillCached(v, v.pendings);
    hide CacheInv, OwnerInv, Allowed, Generation, Cleared, StoreOf, BindingsOf, Lawful, OperationsInv, CallersInv,
         SingleFlight;
    Push(v.initial, v.trace, e);
  }

  /** An event that only says what an operation or a discovery does. */
  predicate IsNote(e: Event) {
    e.SaveCalled? || e.Succeeded? || e.CacheWritten? || e.Checked? || e.Dispatched?
  }

  lemma Note(v: View, e: Event)
    requires Consistent(v) && Allowed(v.initial, v.trace, e) && IsNote(e)
    ensures Consistent(v.(trace := v.trace + [e]))
  {
    hide TraceInv, BeganInv, OperationsInv, CallersInv, SingleFlight, DiscoveriesInv, ChainInv, CacheInv, OwnerInv,
         Allowed;
    Record(v, e);
  }

  // ----- The steps

  lemma BeginStep(v: View)
    requires Consistent(v) && !v.disposed && !v.ownerAborted
    ensures Consistent(v.(operations := v.operations + [Operation(v.generation, false, None, Active)],
                          trace := v.trace + [Began(|v.operations|, v.generation)]))
  {
    NowBegun(v.operations, v.trace, v.generation);
    assert Allowed(v.initial, v.trace, Began(|v.operations|, v.generation));
    OneMore(v.operations, v.pendings, v.generation);
    assert OwnerInv(v.ownerAborted, v.operations + [Operation(v.generation, false, None, Active)]);
    hide TraceInv, BeganInv, OperationsInv, CallersInv, SingleFlight, DiscoveriesInv, ChainInv, CacheInv, OwnerInv,
         Allowed;
    var e := Began(|v.operations|, v.generation);
    Record(v, e);
    ChainGrows(v.operations, v.chain, v.head, v.store, v.trace + [e], v.generation);
  }

  lemma OneMore(operations: seq<Operation>, pendings: seq<Pending>, current: nat)
    requires OperationsInv(operations, pendings, current, false) && CallersInv(operations, pendings)
    ensures var more := operations + [Operation(current, false, None, Active)];
            OperationsInv(more, pendings, current, false) && CallersInv(more, pendings)
  {
  }

  lemma ChainGrows(operations: seq<Operation>, chain: seq<Mutation>, head: Head, store: Content, trace: seq<Event>,
                   current: nat)
    requires ChainInv(operations, chain, head, store, trace)
    ensures ChainInv(operations + [Operation(current, false, None, Active)], chain, head, store, trace)
  {
  }

  /** A discovery is recorded; it has no caller yet. */
  function Starting(v: View): View {
    v.(pendings := v.pendings + [Pending(v.generation, false, 0, {}, Fetching)], recorded := Some(|v.pendings|),
       trace := v.trace + [DiscoveryStarted(|v.pendings|, v.generation)])
  }

  /** The caller `i` waits for the recorded discovery. */
  function Waiting(v: View, i: nat): View
    requires i < |v.operations| && v.recorded.Some? && v.recorded.value < |v.pendings|
  {
    var p := v.recorded.value;
    v.(operations := v.operations[i := v.operations[i].(waitingOn := Some(p))],
       pendings := v.pendings[p := Joining(v.pendings[p], i)])
  }

  /** The caller `i` joins the recorded discovery, or starts one. */
  function Discovering(v: View, i: nat): View
    requires i < |v.operations| && (v.recorded.Some? ==> v.recorded.value < |v.pendings|)
  {
    Waiting(if v.recorded.Some? then v else Starting(v), i)
  }

  lemma JoinStep(v: View, i: nat)
    requires Consistent(v) && v.recorded.Some? && v.recorded.value < |v.pendings|
    requires i < |v.operations| && !v.operations[i].aborted && v.operations[i].waitingOn.None?
    ensures Consistent(Waiting(v, i))
  {
    hide TraceInv, BeganInv, OperationsInv, CallersInv, SingleFlight, DiscoveriesInv, ChainInv, CacheInv, OwnerInv;
    var w := Waiting(v, i);
    Joined(v.operations, v.pendings, v.recorded.value, i, v.generation, v.disposed);
    CallerKept(v, w);
  }

  lemma StartStep(v: View, i: nat)
    requires Consistent(v) && v.recorded.None? && !v.disposed
    requires i < |v.operations| && !v.operations[i].aborted && v.operations[i].waitingOn.None?
    ensures Consistent(Waiting(Starting(v), i))
  {
    NowStarted(v.pendings, v.trace, v.generation);
    assert Allowed(v.initial, v.trace, DiscoveryStarted(|v.pendings|, v.generation));
    hide TraceInv, BeganInv, OperationsInv, CallersInv, SingleFlight, DiscoveriesInv, ChainInv, CacheInv, OwnerInv,
         Allowed;
    Started(v.operations, v.pendings, i, v.generation);
    Record(v, DiscoveryStarted(|v.pendings|, v.generation));
    StillCached(v, Starting(v).pendings);
    CallerKept(Starting(v), Waiting(Starting(v), i));
  }

  // A new caller leaves what the trace says, and what is cached.
  lemma CallerKept(v: View, w: View)
    requires BeganInv(v.operations, v.trace) && ChainInv(v.operations, v.chain, v.head, v.store, v.trace)
    requires DiscoveriesInv(v.pendings, v.trace) && OwnerInv(v.ownerAborted, v.operations)
    requires CacheInv(v.expected, v.discovery, v.discoveredBy, v.pendings, v.generation, v.disposed, v.trace)
    requires |w.operations| == |v.operations| && |w.pendings| == |v.pendings|
    requires forall k :: 0 <= k < |v.operations| ==>
               w.operations[k] == v.operations[k].(waitingOn := w.operations[k].waitingOn)
    requires forall p :: 0 <= p < |v.pendings| ==>
               w.pendings[p].generation == v.pendings[p].generation && (v.pendings[p].aborted ==> w.pendings[p].aborted)
    ensures BeganInv(w.operations, v.trace) && ChainInv(w.operations, v.chain, v.head, v.store, v.trace)
    ensures DiscoveriesInv(w.pendings, v.trace) && OwnerInv(v.ownerAborted, w.operations)
    ensures CacheInv(v.expected, v.discovery, v.discoveredBy, w.pendings, v.generation, v.disposed, v.trace)
  {
    hide BeganInv, DiscoveriesInv, ChainInv, OwnerInv;
    SameGenerations(v.operations, w.operations, v.chain, v.head, v.store, v.trace);
    SameDiscoveries(v.pendings, w.pendings, v.trace);
    StillAborted(v.ownerAborted, v.operations, w.operations);
  }

  lemma DiscoverStep(v: View, i: nat)
    requires Consistent(v) && !v.disposed
    requires i < |v.operations| && !v.operations[i].aborted && v.operations[i].waitingOn.None?
    ensures v.recorded.Some? ==> v.recorded.value < |v.pendings|
    ensures Consistent(Discovering(v, i))
  {
    RecordedIsThere(v);
    hide Consistent, Starting, Waiting;
    DiscoveringIs(v, i);
    if v.recorded.Some? { JoinStep(v, i); } else { StartStep(v, i); }
  }

  lemma DiscoveringIs(v: View, i: nat)
    requires i < |v.operations| && (v.recorded.Some? ==> v.recorded.value < |v.pendings|)
    ensures v.recorded.Some? ==> Discovering(v, i) == Waiting(v, i)
    ensures v.recorded.None? ==>
              && |Starting(v).pendings| == |v.pendings| + 1 && Starting(v).recorded == Some(|v.pendings|)
              && Starting(v).operations == v.operations
              && Discovering(v, i) == Waiting(Starting(v), i)
  {
  }

  // A caller joins the recorded discovery, or is the first one of a new discovery.
  lemma DiscoveringMeans(v: View, i: nat)
    requires i < |v.operations| && (v.recorded.Some? ==> v.recorded.value < |v.pendings|)
    ensures var w := Discovering(v, i);
            && w.operations == v.operations[i := v.operations[i].(waitingOn := w.recorded)]
            && match v.recorded
               case None =>
                 && w.recorded == Some(|v.pendings|)
                 && w.pendings == v.pendings + [Pending(v.generation, false, 1, {i}, Fetching)]
                 && w.trace == v.trace + [DiscoveryStarted(|v.pendings|, v.generation)]
               case Some(p) =>
                 && w.recorded == Some(p) && w.trace == v.trace
                 && w.pendings == v.pendings[p := v.pendings[p].(waiters := v.pendings[p].waiters + 1,
                                                                  callers := v.pendings[p].callers + {i})]
  {
    if v.recorded.None? {
      assert {} + {i} == {i};
      assert (v.pendings + [Pending(v.generation, false, 0, {}, Fetching)])[|v.pendings| :=
             Pending(v.generation, false, 1, {i}, Fetching)] ==
             v.pendings + [Pending(v.generation, false, 1, {i}, Fetching)];
    }
  }

  lemma RecordedIsThere(v: View)
    requires Consistent(v)
    ensures v.recorded.Some? ==> v.recorded.value < |v.pendings|
  {
  }

  /** The caller `i` leaves the discovery `p`; the last one takes the recorded discovery down. */
  function Leaving(v: View, i: nat, p: nat): View
    requires i < |v.operations| && p < |v.pendings| && v.pendings[p].waiters > 0
  {
    var recorded := v.recorded == Some(p);
    var last := recorded && v.pendings[p].waiters == 1;
    v.(operations := v.operations[i := v.operations[i].(waitingOn := None)],
       pendings := v.pendings[p := Left(v.pendings[p], i, recorded)],
       recorded := if last then None else v.recorded,
       trace := v.trace + if last then [Abandoned(p)] else [])
  }

  lemma LeaveStep(v: View, i: nat, p: nat)
    requires Consistent(v) && i < |v.operations| && v.operations[i].waitingOn == Some(p)
    ensures p < |v.pendings| && v.pendings[p].waiters > 0
    ensures Consistent(Leaving(v, i, p))
  {
    CallerLeft(v.operations, v.pendings, v.recorded, p, i, v.generation, v.disposed);
    hide TraceInv, BeganInv, OperationsInv, CallersInv, SingleFlight, DiscoveriesInv, ChainInv, CacheInv, OwnerInv;
    var w := Leaving(v, i, p);
    SameGenerations(v.operations, w.operations, v.chain, v.head, v.store, v.trace);
    SameDiscoveries(v.pendings, w.pendings, v.trace);
    StillAborted(v.ownerAborted, v.operations, w.operations);
    StillCached(v, w.pendings);
    if v.recorded == Some(p) && v.pendings[p].waiters == 1 {
      Abandon(w.(trace := v.trace), p);
    } else {
      assert v.trace + [] == v.trace;
    }
  }

  // What the trace says after a discovery is abandoned.
  lemma Abandon(w: View, p: nat)
    requires TraceInv(w.initial, w.trace, w.generation, w.store, w.bindings) && BeganInv(w.operations, w.trace)
    requires DiscoveriesInv(w.pendings, w.trace) && ChainInv(w.operations, w.chain, w.head, w.store, w.trace)
    requires p < |w.pendings| && w.pendings[p].aborted
    ensures var longer := w.trace + [Abandoned(p)];
            && TraceInv(w.initial, longer, w.generation, w.store, w.bindings) && BeganInv(w.operations, longer)
            && DiscoveriesInv(w.pendings, longer) && ChainInv(w.operations, w.chain, w.head, w.store, longer)
  {
    assert DiscoveryStarted(p, w.pendings[p].generation) in w.trace;
    hide Generation, Cleared, StoreOf, BindingsOf, Lawful;
    Push(w.initial, w.trace, Abandoned(p));
  }

  // The live discovery is the recorded one; its answer goes into the cache, and clears the bindings.
  lemma CacheStep(v: View, p: nat)
    requires Consistent(v) && p < |v.pendings| && v.pendings[p].phase.Fetching?
    requires v.pendings[p].generation == v.generation && !v.disposed && !v.pendings[p].aborted
    ensures v.recorded == Some(p)
    ensures Consistent(v.(pendings := v.pendings[p := v.pendings[p].(phase := Handled(true))], bindings := map[],
                          trace := v.trace + [CacheWritten(p, v.generation), BindingsCleared],
                          discovery := Some(v.expected), discoveredBy := p))
  {
    assert Allowed(v.initial, v.trace, CacheWritten(p, v.generation));
    hide TraceInv, BeganInv, OperationsInv, CallersInv, DiscoveriesInv, ChainInv, OwnerInv, Allowed;
    var e := CacheWritten(p, v.generation);
    Note(v, e);
    var w := v.(trace := v.trace + [e], discovery := Some(v.expected), discoveredBy := p);
    assert e in w.trace;
    ForgetStep(w);
    assert v.trace + [e] + [BindingsCleared] == v.trace + [e, BindingsCleared];
    PhaseStep(w.(bindings := map[], trace := w.trace + [BindingsCleared]), p, Handled(true));
  }

  // Nothing is cached any more.
  lemma DropStep(v: View)
    requires Consistent(v)
    ensures Consistent(v.(discovery := None))
  {
    hide TraceInv, BeganInv, OperationsInv, CallersInv, SingleFlight, DiscoveriesInv, ChainInv, OwnerInv;
  }

  lemma ForgetStep(v: View)
    requires Consistent(v)
    ensures Consistent(v.(bindings := map[], trace := v.trace + [BindingsCleared]))
  {
    assert Allowed(v.initial, v.trace, BindingsCleared);
    hide TraceInv, BeganInv, OperationsInv, CallersInv, SingleFlight, DiscoveriesInv, ChainInv, CacheInv, OwnerInv,
         Allowed;
    Record(v, BindingsCleared);
  }

  // A handler of a discovery runs; one that settles is no longer recorded.
  lemma PhaseStep(v: View, p: nat, phase: Phase)
    requires Consistent(v) && p < |v.pendings| && !v.pendings[p].phase.Settled?
    ensures Consistent(v.(pendings := v.pendings[p := v.pendings[p].(phase := phase)],
                          recorded := if phase.Settled? && v.recorded == Some(p) then None else v.recorded))
  {
    hide TraceInv, BeganInv, OperationsInv, CallersInv, SingleFlight, DiscoveriesInv, ChainInv, CacheInv, OwnerInv;
    PhaseChanged(v.operations, v.pendings, v.recorded, p, phase, v.generation, v.disposed);
    SameDiscoveries(v.pendings, v.pendings[p := v.pendings[p].(phase := phase)], v.trace);
    StillCached(v, v.pendings[p := v.pendings[p].(phase := phase)]);
  }

  // An operation moves on.
  lemma StageStep(v: View, i: nat, stage: Stage)
    requires Consistent(v) && i < |v.operations| && StageKnown(i, v.operations[i].generation, stage, v.trace)
    ensures Consistent(v.(operations := v.operations[i := v.operations[i].(stage := stage)]))
  {
    hide TraceInv, BeganInv, OperationsInv, CallersInv, SingleFlight, DiscoveriesInv, ChainInv, CacheInv, OwnerInv,
         StageKnown;
    var changed := v.operations[i := v.operations[i].(stage := stage)];
    SameGenerations(v.operations, changed, v.chain, v.head, v.store, v.trace);
    StillAborted(v.ownerAborted, v.operations, changed);
    SameWaiting(v.operations, changed, v.pendings, v.generation, v.disposed);
  }

  // An operation notes what it does, and moves on.
  lemma NoteAndStage(v: View, e: Event, i: nat, stage: Stage)
    requires Consistent(v) && Allowed(v.initial, v.trace, e) && IsNote(e) && i < |v.operations|
    requires StageKnown(i, v.operations[i].generation, stage, v.trace + [e])
    ensures Consistent(v.(operations := v.operations[i := v.operations[i].(stage := stage)], trace := v.trace + [e]))
  {
    hide Consistent, Allowed, StageKnown;
    Note(v, e);
    StageStep(v.(trace := v.trace + [e]), i, stage);
  }

  // The signal of an operation fires; it has left its discovery.
  lemma SignalStep(v: View, i: nat)
    requires Consistent(v) && i < |v.operations| && v.operations[i].waitingOn.None?
    ensures Consistent(v.(operations := v.operations[i := v.operations[i].(aborted := true)]))
  {
    hide TraceInv, BeganInv, OperationsInv, CallersInv, SingleFlight, DiscoveriesInv, ChainInv, CacheInv, OwnerInv,
         StageKnown;
    var changed := v.operations[i := v.operations[i].(aborted := true)];
    SameGenerations(v.operations, changed, v.chain, v.head, v.store, v.trace);
    StillAborted(v.ownerAborted, v.operations, changed);
    NowAborted(v.operations, v.pendings, i, v.generation, v.disposed);
  }

  /** Everything is aborted, and a recorded discovery is abandoned. */
  function AllAborted(v: View): View {
    v.(operations := AbortOperations(v.operations), pendings := AbortPendings(v.pendings), recorded := None,
       trace := v.trace + if v.recorded.Some? then [Abandoned(v.recorded.value)] else [])
  }

  lemma AbortedStages(v: View)
    requires Consistent(v)
    ensures var changed := AbortOperations(v.operations);
            BeganInv(changed, v.trace) && ChainInv(changed, v.chain, v.head, v.store, v.trace)
    ensures DiscoveriesInv(AbortPendings(v.pendings), v.trace)
  {
    hide TraceInv, BeganInv, ChainInv, OperationsInv, CallersInv, SingleFlight, DiscoveriesInv;
    SameGenerations(v.operations, AbortOperations(v.operations), v.chain, v.head, v.store, v.trace);
    SameDiscoveries(v.pendings, AbortPendings(v.pendings), v.trace);
  }

  lemma AbortAllStep(v: View)
    requires Consistent(v)
    ensures Consistent(AllAborted(v))
  {
    RecordedIsThere(v);
    AbortedStages(v);
    StillCached(v, AbortPendings(v.pendings));
    StillAborted(v.ownerAborted, v.operations, AbortOperations(v.operations));
    hide TraceInv, BeganInv, OperationsInv, CallersInv, SingleFlight, DiscoveriesInv, ChainInv, CacheInv, OwnerInv;
    EverythingAborted(v.operations, v.pendings, v.generation, v.disposed, v.generation, v.disposed);
    var w := AllAborted(v);
    hide AbortOperations;
    if v.recorded.Some? {
      Abandon(w.(trace := v.trace), v.recorded.value);
    } else {
      assert v.trace + [] == v.trace;
    }
  }

  // The owner's signal has fired once everything is aborted.
  lemma OwnerStep(v: View)
    requires Consistent(v) && AbortOperations(v.operations) == v.operations
    ensures Consistent(v.(ownerAborted := true))
  {
    hide TraceInv, BeganInv, OperationsInv, CallersInv, SingleFlight, DiscoveriesInv, ChainInv, CacheInv;
  }

  /** The session ends after everything is aborted. */
  function Ended(v: View, end: bool): View {
    var e := if end then Disposed(v.generation + 1) else LoggedOut(v.generation + 1);
    var w := AllAborted(v);
    w.(trace := w.trace + [e], disposed := end, generation := v.generation + 1, bindings := map[], discovery := None)
  }

  lemma AbortedShape(v: View)
    ensures var w := AllAborted(v);
            && w.recorded.None? && w.generation == v.generation && w.disposed == v.disposed
            && AbortOperations(w.operations) == w.operations && AbortPendings(w.pendings) == w.pendings
  {
    AbortedTwice(v.operations, v.pendings);
  }

  lemma AbortedEnds(v: View, end: bool)
    requires Consistent(v) && v.recorded.None?
    requires AbortOperations(v.operations) == v.operations && AbortPendings(v.pendings) == v.pendings
    ensures var e := if end then Disposed(v.generation + 1) else LoggedOut(v.generation + 1);
            Consistent(v.(trace := v.trace + [e], disposed := end, generation := v.generation + 1, bindings := map[],
                          discovery := None))
  {
    var e := if end then Disposed(v.generation + 1) else LoggedOut(v.generation + 1);
    assert Allowed(v.initial, v.trace, e);
    NothingCached(v);
    hide TraceInv, BeganInv, OperationsInv, CallersInv, SingleFlight, DiscoveriesInv, ChainInv, CacheInv, OwnerInv,
         Allowed, AbortOperations, AbortPendings;
    EverythingAborted(v.operations, v.pendings, v.generation, v.disposed, v.generation + 1, end);
    Record(v, e);
  }

  // ----- The credential chain

  lemma EnqueueStep(v: View, mutation: Mutation)
    requires Consistent(v)
    requires match mutation
             case Save(op) => op < |v.operations|
             case Clear(g) => LoggedOut(g) in v.trace
    ensures Consistent(v.(chain := v.chain + [mutation]))
  {
    hide TraceInv, BeganInv, OperationsInv, CallersInv, SingleFlight, DiscoveriesInv;
  }

  lemma HeadExists(v: View)
    requires Consistent(v) && |v.chain| > 0
    ensures v.chain[0].Save? ==> v.chain[0].operation < |v.operations|
  {
  }

  lemma InFlight(v: View)
    requires Consistent(v) && v.head != Idle
    ensures |v.chain| > 0
  {
  }

  lemma ClearStep(v: View)
    requires Consistent(v) && v.head == Idle && |v.chain| > 0 && v.chain[0].Clear?
    ensures Consistent(v.(head := Calling))
  {
    hide TraceInv, BeganInv, OperationsInv, CallersInv, SingleFlight, DiscoveriesInv;
  }

  // A save of an operation of the current session is called; it is newer than every clear that has succeeded.
  lemma SaveStep(v: View)
    requires Consistent(v) && v.head == Idle && |v.chain| > 0 && v.chain[0].Save?
    requires v.chain[0].operation < |v.operations|
    requires v.operations[v.chain[0].operation].generation == v.generation
    ensures Consistent(v.(head := Calling, trace := v.trace + [SaveCalled(v.chain[0].operation, v.generation)]))
  {
    var op := v.chain[0].operation;
    assert Began(op, v.operations[op].generation) in v.trace;
    var e := SaveCalled(op, v.generation);
    Note(v, e);
    var w := v.(trace := v.trace + [e]);
    hide BeganInv, OperationsInv, CallersInv, SingleFlight, DiscoveriesInv, Lawful, StoreOf, BindingsOf, Cleared,
         Generation;
    assert e in w.trace && Cleared(w.trace) <= w.generation;
  }

  lemma Dequeue(v: View)
    requires Consistent(v) && |v.chain| > 0
    ensures Consistent(v.(chain := v.chain[1..], head := Idle))
  {
    hide TraceInv, BeganInv, OperationsInv, CallersInv, SingleFlight, DiscoveriesInv;
  }

  /** What the store does for the mutation at the head. */
  function Applying(v: View): View
    requires |v.chain| > 0 && (v.chain[0].Save? ==> v.chain[0].operation < |v.operations|)
  {
    match v.chain[0]
    case Clear(_) => v.(head := Applied, store := Empty, trace := v.trace + [Emptied])
    case Save(op) =>
      v.(head := Applied, store := Credential(op), trace := v.trace + [Written(op, v.operations[op].generation)])
  }

  lemma ApplyStep(v: View)
    requires Consistent(v) && v.head == Calling
    ensures |v.chain| > 0 && (v.chain[0].Save? ==> v.chain[0].operation < |v.operations|)
    ensures Consistent(Applying(v))
  {
    InFlight(v);
    HeadExists(v);
    var w := Applying(v);
    var e := Last(w.trace);
    assert Allowed(v.initial, v.trace, e);
    hide TraceInv, BeganInv, OperationsInv, CallersInv, SingleFlight, DiscoveriesInv, Allowed;
    Record(v, e);
    assert e in w.trace;
  }

  /** The promise of the mutation at the head settles. */
  function Settling(v: View, success: bool): View
    requires |v.chain| > 0 && (v.chain[0].Save? ==> v.chain[0].operation < |v.operations|)
  {
    var w := v.(chain := v.chain[1..], head := Idle);
    match v.chain[0]
    case Clear(g) => w.(trace := v.trace + if success then [ClearSucceeded(g)] else [])
    case Save(op) =>
      w.(operations := v.operations[op := v.operations[op].(stage := if success then SaveDone else SaveFailed)])
  }

  lemma SettleStep(v: View, success: bool)
    requires Consistent(v) && v.head != Idle && (success ==> v.head == Applied)
    ensures |v.chain| > 0 && (v.chain[0].Save? ==> v.chain[0].operation < |v.operations|)
    ensures Consistent(Settling(v, success))
  {
    InFlight(v);
    HeadExists(v);
    if v.chain[0].Clear? && success { ClearAllowed(v); }
    WrittenStage(v, success);
    Dequeue(v);
    hide TraceInv, BeganInv, OperationsInv, CallersInv, SingleFlight, DiscoveriesInv, ChainInv, CacheInv, OwnerInv,
         Allowed, StageKnown;
    var w := v.(chain := v.chain[1..], head := Idle);
    match v.chain[0]
    case Clear(g) =>
      assert v.trace + [] == v.trace;
      if success {
        Record(w, ClearSucceeded(g));
        StillIdle(w, ClearSucceeded(g));
      }
    case Save(op) => StageStep(w, op, if success then SaveDone else SaveFailed);
  }

  lemma WrittenStage(v: View, success: bool)
    requires Consistent(v) && v.head != Idle && (success ==> v.head == Applied)
    requires |v.chain| > 0 && (v.chain[0].Save? ==> v.chain[0].operation < |v.operations|)
    ensures v.chain[0].Save? ==>
              var op := v.chain[0].operation;
              StageKnown(op, v.operations[op].generation, if success then SaveDone else SaveFailed, v.trace)
  {
    hide TraceInv, BeganInv, OperationsInv, CallersInv, SingleFlight, DiscoveriesInv;
  }

  lemma StillIdle(v: View, e: Event)
    requires Consistent(v) && v.head == Idle
    ensures ChainInv(v.operations, v.chain, Idle, v.store, v.trace + [e])
  {
    hide TraceInv, BeganInv, OperationsInv, CallersInv, SingleFlight, DiscoveriesInv;
  }

  lemma ClearAllowed(v: View)
    requires Consistent(v) && v.head == Applied && |v.chain| > 0 && v.chain[0].Clear?
    ensures Allowed(v.initial, v.trace, ClearSucceeded(v.chain[0].generation))
    ensures v.chain[0].generation <= v.generation
  {
    hide BeganInv, OperationsInv, CallersInv, SingleFlight, DiscoveriesInv;
    var g := v.chain[0].generation;
    var k :| 0 <= k < |v.trace| && v.trace[k] == LoggedOut(g);
    AllowedAt(v.initial, v.trace, k);
    GenerationGrows(v.trace, k, k + 1);
    GenerationGrows(v.trace, k + 1, |v.trace|);
    assert Before(v.trace[..k + 1]) == v.trace[..k];
    assert v.trace[..|v.trace|] == v.trace;
  }

  // ----- Drives

  lemma PageStep(v: View, i: nat, cursor: Cursor)
    requires Consistent(v) && i < |v.operations| && v.operations[i].stage.Asked?
    requires v.operations[i].generation == v.generation
    ensures var binding := v.operations[i].stage.binding;
            Consistent(v.(operations := v.operations[i := v.operations[i].(stage := Finished(true))],
                          bindings := v.bindings[cursor := binding],
                          trace := v.trace + [Page(i, v.generation, cursor, binding)]))
  {
    var query := v.operations[i].stage;
    assert Dispatched(i, v.generation, query.asked, query.binding) in v.trace;
    var e := Page(i, v.generation, cursor, query.binding);
    assert Allowed(v.initial, v.trace, e);
    hide TraceInv, BeganInv, OperationsInv, CallersInv, SingleFlight, DiscoveriesInv, ChainInv, CacheInv, OwnerInv,
         Allowed;
    Record(v, e);
    StageStep(v.(bindings := v.bindings[cursor := query.binding], trace := v.trace + [e]), i, Finished(true));
  }

  lemma Bases(v: View, i: nat)
    requires Consistent(v) && i < |v.operations| && v.operations[i].generation == v.generation
    ensures v.operations[i].stage.SaveDone? ==> Allowed(v.initial, v.trace, Succeeded(i, v.generation))
    ensures v.operations[i].stage.Asking? ==>
              var query := v.operations[i].stage;
              Allowed(v.initial, v.trace, Dispatched(i, v.generation, query.asked, query.binding))
    ensures forall asked, binding :: Allowed(v.initial, v.trace, Checked(i, v.generation, asked, binding)) <==>
              !(asked.Some? && asked.value in v.bindings && v.bindings[asked.value] != binding)
  {
    assert Began(i, v.generation) in v.trace;
    assert StageKnown(i, v.generation, v.operations[i].stage, v.trace);
    hide OperationsInv, CallersInv, SingleFlight, DiscoveriesInv, ChainInv, CacheInv, OwnerInv;
  }

  /** An operation notes what it does, and moves on. */
  function Noting(v: View, i: nat, e: Event, stage: Stage): View
    requires i < |v.operations|
  {
    v.(operations := v.operations[i := v.operations[i].(stage := stage)], trace := v.trace + [e])
  }

  lemma CheckStep(v: View, i: nat, asked: Option<Cursor>, binding: Binding)
    requires Consistent(v) && i < |v.operations| && v.operations[i].generation == v.generation
    requires !(asked.Some? && asked.value in v.bindings && v.bindings[asked.value] != binding)
    ensures Consistent(Noting(v, i, Checked(i, v.generation, asked, binding), Asking(asked, binding)))
  {
    Bases(v, i);
    hide Consistent, Allowed;
    NoteAndStage(v, Checked(i, v.generation, asked, binding), i, Asking(asked, binding));
  }

  lemma DispatchStep(v: View, i: nat)
    requires Consistent(v) && i < |v.operations| && v.operations[i].generation == v.generation
    requires v.operations[i].stage.Asking?
    ensures var asked, binding := v.operations[i].stage.asked, v.operations[i].stage.binding;
            Consistent(Noting(v, i, Dispatched(i, v.generation, asked, binding), Asked(asked, binding)))
  {
    Bases(v, i);
    hide Consistent, Allowed;
    var asked, binding := v.operations[i].stage.asked, v.operations[i].stage.binding;
    NoteAndStage(v, Dispatched(i, v.generation, asked, binding), i, Asked(asked, binding));
  }

  lemma SucceedStep(v: View, i: nat)
    requires Consistent(v) && i < |v.operations| && v.operations[i].generation == v.generation
    requires v.operations[i].stage.SaveDone?
    ensures Consistent(Noting(v, i, Succeeded(i, v.generation), Finished(true)))
  {
    Bases(v, i);
    hide Consistent, Allowed;
    NoteAndStage(v, Succeeded(i, v.generation), i, Finished(true));
  }
}
