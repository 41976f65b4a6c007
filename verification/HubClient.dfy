/**
 `StaticHubClient`: sessions, single-flight discovery, the credential-mutation chain and the cursor bindings.
 Each method is one stretch of code between two awaits, so a run of the client is any sequence of calls.
 */
module HubClient {
  import opened Wrappers
  import opened HubTrace
  import opened HubState

  class StaticHubClient {
    const expectedHubId: HubId
    ghost const initialStore: Content

    var ownerAborted: bool
    var disposed: bool
    var sessionGeneration: nat
    var discovery: Option<HubId>
    var discoveryPending: Option<nat>
    var credentialMutation: seq<Mutation>
    var cursorBindings: map<Cursor, Binding>

    var operations: seq<Operation>
    var pendings: seq<Pending>
    var head: Head
    var store: Content
    ghost var trace: seq<Event>
    /** The discovery that wrote the cache. */
    ghost var discoveredBy: nat

    ghost function Now(): View
      reads this
    {
      View(initialStore, trace, sessionGeneration, disposed, store, cursorBindings, operations, pendings,
           discoveryPending, credentialMutation, head, expectedHubId, discovery, discoveredBy, ownerAborted)
    }

    /** The inductive invariant of every run. */
    ghost predicate Inv()
      reads this
    {
      Consistent(Now())
    }

    constructor (expectedHubId: HubId, initialStore: Content)
      ensures Inv() && trace == []
      ensures this.expectedHubId == expectedHubId && this.initialStore == initialStore
      ensures !ownerAborted && !disposed && sessionGeneration == 0 && operations == [] && pendings == []
      ensures discovery == None && discoveryPending == None && cursorBindings == map[]
      ensures credentialMutation == [] && head == Idle && store == initialStore
    {
      this.expectedHubId, this.initialStore := expectedHubId, initialStore;
      ownerAborted, disposed, sessionGeneration := false, false, 0;
      discovery, discoveryPending, credentialMutation, cursorBindings := None, None, [], map[];
      operations, pendings, head, store := [], [], Idle, initialStore;
      trace, discoveredBy := [], 0;
    }

    /** `#assertOperation` lets the operation go on. */
    predicate Live(operation: nat)
      requires operation < |operations|
      reads this
    {
      operations[operation].generation == sessionGeneration && !disposed && !operations[operation].aborted
    }

    /** `signalled` says that the caller's own signal has fired already. */
    method BeginOperation(signalled: bool) returns (operation: Option<nat>)
      requires Inv()
      modifies this`operations, this`trace
      ensures Inv()
      ensures operation.None? <==> disposed || ownerAborted || signalled
      ensures operation.None? ==> trace == old(trace) && operations == old(operations)
      ensures operation.Some? ==>
                && operation.value == |old(operations)|
                && operations == old(operations) + [Operation(sessionGeneration, false, None, Active)]
                && trace == old(trace) + [Began(operation.value, sessionGeneration)]
    {
      hide Consistent;
      if disposed || ownerAborted || signalled { return None; }
      BeginStep(Now());
      trace := trace + [Began(|operations|, sessionGeneration)];
      operation := Some(|operations|);
      operations := operations + [Operation(sessionGeneration, false, None, Active)];
    }

    /** `#discover`: joins the recorded discovery, or starts one; the caller waits on it either way. */
    method Discover(operation: nat)
      requires Inv() && operation < |operations| && Live(operation) && operations[operation].waitingOn.None?
      modifies this`operations, this`pendings, this`discoveryPending, this`trace
      ensures Inv()
      ensures old(discoveryPending).Some? ==> old(discoveryPending).value < |old(pendings)|
      ensures Now() == Discovering(old(Now()), operation)
      ensures operations == old(operations)[operation :=
                old(operations)[operation].(waitingOn := discoveryPending)]
      ensures match old(discoveryPending)
              case None =>
                && discoveryPending == Some(|old(pendings)|)
                && pendings == old(pendings) + [Pending(sessionGeneration, false, 1, {operation}, Fetching)]
                && trace == old(trace) + [DiscoveryStarted(|old(pendings)|, sessionGeneration)]
              case Some(p) =>
                && discoveryPending == Some(p) && trace == old(trace)
                && var shared := old(pendings)[p];
                   pendings == old(pendings)[p :=
                     shared.(waiters := shared.waiters + 1, callers := shared.callers + {operation})]
    {
      DiscoverStep(Now(), operation);
      DiscoveringIs(Now(), operation);
      DiscoveringMeans(Now(), operation);
      hide Consistent, Starting, Waiting, Discovering;
      if discoveryPending.None? { StartDiscovery(); }
      WaitForDiscovery(operation);
    }

    method StartDiscovery()
      modifies this`pendings, this`discoveryPending, this`trace
      ensures Now() == Starting(old(Now()))
    {
      trace := trace + [DiscoveryStarted(|pendings|, sessionGeneration)];
      pendings := pendings + [Pending(sessionGeneration, false, 0, {}, Fetching)];
      discoveryPending := Some(|pendings| - 1);
    }

    /** `#waitForDiscovery`, until it returns its promise. */
    method WaitForDiscovery(operation: nat)
      requires operation < |operations| && discoveryPending.Some? && discoveryPending.value < |pendings|
      modifies this`operations, this`pendings
      ensures Now() == Waiting(old(Now()), operation)
    {
      var p := discoveryPending.value;
      pendings := pendings[p := Joining(pendings[p], operation)];
      operations := operations[operation := operations[operation].(waitingOn := Some(p))];
    }

    /** The `finish` of a waiting caller: the last one to leave the recorded discovery detaches and aborts it. */
    method Finish(operation: nat)
      requires Inv() && operation < |operations| && operations[operation].waitingOn.Some?
      modifies this`operations, this`pendings, this`discoveryPending, this`trace
      ensures Inv()
      ensures var p := old(operations)[operation].waitingOn.value;
              && p < |old(pendings)| && old(pendings)[p].waiters > 0
              && Now() == Leaving(old(Now()), operation, p)
              && operations == old(operations)[operation := old(operations)[operation].(waitingOn := None)]
              && var shared := old(pendings)[p];
                 var last := old(discoveryPending) == Some(p) && shared.waiters == 1;
                 && pendings == old(pendings)[p :=
                      shared.(waiters := shared.waiters - 1, callers := shared.callers - {operation},
                              aborted := shared.aborted || last)]
                 && discoveryPending == (if last then None else old(discoveryPending))
                 && trace == old(trace) + (if last then [Abandoned(p)] else [])
    {
      hide Consistent;
      var p := operations[operation].waitingOn.value;
      LeaveStep(Now(), operation, p);
      var left := Left(pendings[p], operation, discoveryPending == Some(p));
      operations := operations[operation := operations[operation].(waitingOn := None)];
      pendings := pendings[p := left];
      if left.waiters == 0 && discoveryPending == Some(p) {
        discoveryPending := None;
        trace := trace + [Abandoned(p)];
      } else {
        assert trace + [] == trace;
      }
    }

    /** The handler of the shared request: only a live discovery of the expected hub enters the cache. */
    method DiscoveryFetched(p: nat, response: Option<HubId>)
      requires Inv() && p < |pendings| && pendings[p].phase.Fetching?
      modifies this`pendings, this`discovery, this`cursorBindings, this`trace, this`discoveredBy
      ensures Inv()
      ensures var shared := old(pendings)[p];
              var accepted := response == Some(expectedHubId) && shared.generation == sessionGeneration && !disposed
                  && !shared.aborted;
              && pendings == old(pendings)[p := shared.(phase := if accepted then Handled(true) else Rejecting)]
              && discovery == (if accepted then response else old(discovery))
              && cursorBindings == (if accepted then map[] else old(cursorBindings))
              && trace == old(trace) + (if accepted then [CacheWritten(p, sessionGeneration), BindingsCleared] else [])
              && (accepted ==> discoveryPending == Some(p))
    {
      hide Consistent;
      var shared := pendings[p];
      var accepted := response == Some(expectedHubId) && shared.generation == sessionGeneration && !disposed
                      && !shared.aborted;
      if accepted {
        CacheStep(Now(), p);
        trace := trace + [CacheWritten(p, sessionGeneration), BindingsCleared];
        discovery := response;
        discoveredBy := p;
        cursorBindings := map[];
      } else {
        PhaseStep(Now(), p, Rejecting);
        assert trace + [] == trace;
      }
      pendings := pendings[p := shared.(phase := if accepted then Handled(true) else Rejecting)];
    }

    /** The rejection handler: only the recorded discovery of the current session drops the cached one. */
    method DiscoveryRejected(p: nat)
      requires Inv() && p < |pendings| && pendings[p].phase.Rejecting?
      modifies this`pendings, this`discovery, this`cursorBindings, this`trace
      ensures Inv()
      ensures var mine := old(discoveryPending) == Some(p) && old(pendings)[p].generation == sessionGeneration
              && !disposed;
              && pendings == old(pendings)[p := old(pendings)[p].(phase := Handled(false))]
              && discovery == (if mine then None else old(discovery))
              && cursorBindings == (if mine then map[] else old(cursorBindings))
              && trace == old(trace) + (if mine then [BindingsCleared] else [])
    {
      hide Consistent;
      PhaseStep(Now(), p, Handled(false));
      var mine := discoveryPending == Some(p) && pendings[p].generation == sessionGeneration && !disposed;
      pendings := pendings[p := pendings[p].(phase := Handled(false))];
      if mine {
        DropStep(Now());
        discovery := None;
        ForgetStep(Now());
        cursorBindings := map[];
        trace := trace + [BindingsCleared];
      } else {
        assert trace + [] == trace;
      }
    }

    /** The final handler: the promise settles, and is no longer the recorded one. */
    method DiscoverySettled(p: nat)
      requires Inv() && p < |pendings| && pendings[p].phase.Handled?
      modifies this`pendings, this`discoveryPending
      ensures Inv()
      ensures pendings == old(pendings)[p := old(pendings)[p].(phase := Settled(old(pendings)[p].phase.success))]
      ensures discoveryPending == if old(discoveryPending) == Some(p) then None else old(discoveryPending)
    {
      hide Consistent;
      PhaseStep(Now(), p, Settled(pendings[p].phase.success));
      pendings := pendings[p := pendings[p].(phase := Settled(pendings[p].phase.success))];
      if discoveryPending == Some(p) { discoveryPending := None; }
    }

    /** The operation moves on, or its promise settles. */
    method SetStage(operation: nat, stage: Stage)
      requires Inv() && operation < |operations|
      requires StageKnown(operation, operations[operation].generation, stage, trace)
      modifies this`operations
      ensures Inv() && operations == old(operations)[operation := old(operations)[operation].(stage := stage)]
    {
      hide Consistent, StageKnown;
      StageStep(Now(), operation, stage);
      operations := operations[operation := operations[operation].(stage := stage)];
    }

    /** The settled discovery reaches one of its callers; it resolves for a live one, and the others end. */
    method SettleCaller(operation: nat) returns (resolved: bool)
      requires Inv() && operation < |operations| && operations[operation].waitingOn.Some?
      requires operations[operation].waitingOn.value < |pendings|
      requires pendings[operations[operation].waitingOn.value].phase.Settled?
      modifies this`operations, this`pendings, this`discoveryPending, this`trace
      ensures Inv()
      ensures var p := old(operations)[operation].waitingOn.value;
              && old(pendings)[p].waiters > 0
              && (resolved <==> old(pendings)[p].phase.success && old(Live(operation)))
              && var caller := old(operations)[operation];
                 && operations == old(operations)[operation :=
                      caller.(waitingOn := None, stage := if resolved then caller.stage else Finished(false))]
                 && pendings == old(pendings)[p :=
                      old(pendings)[p].(waiters := old(pendings)[p].waiters - 1,
                                        callers := old(pendings)[p].callers - {operation})]
      ensures discoveryPending == old(discoveryPending) && trace == old(trace)
    {
      SettledIsNotRecorded(operations[operation].waitingOn.value);
      hide Consistent, Left;
      resolved := pendings[operations[operation].waitingOn.value].phase.success && Live(operation);
      Finish(operation);
      assert old(trace) + [] == old(trace);
      if !resolved { SetStage(operation, Finished(false)); }
    }

    lemma SettledIsNotRecorded(p: nat)
      requires Inv() && p < |pendings| && pendings[p].phase.Settled?
      ensures discoveryPending != Some(p)
    {
    }

    /** The signal of one operation fires; a discovery that it waits on loses it, and the operation ends. */
    method AbortOperation(operation: nat)
      requires Inv() && operation < |operations|
      modifies this`operations, this`pendings, this`discoveryPending, this`trace
      ensures Inv()
      ensures var o := old(operations)[operation];
              operations == old(operations)[operation :=
                o.(aborted := true, waitingOn := None, stage := if o.waitingOn.Some? then Finished(false) else o.stage)]
      ensures match old(operations)[operation].waitingOn
              case None => pendings == old(pendings) && discoveryPending == old(discoveryPending) && trace == old(trace)
              case Some(p) =>
                && p < |old(pendings)| && old(pendings)[p].waiters > 0
                && var recorded := old(discoveryPending) == Some(p);
                   var last := recorded && old(pendings)[p].waiters == 1;
                   && pendings == old(pendings)[p :=
                        old(pendings)[p].(waiters := old(pendings)[p].waiters - 1,
                                          callers := old(pendings)[p].callers - {operation},
                                          aborted := old(pendings)[p].aborted || last)]
                   && discoveryPending == (if last then None else old(discoveryPending))
                   && trace == old(trace) + (if last then [Abandoned(p)] else [])
    {
      hide Consistent;
      if operations[operation].waitingOn.Some? {
        Finish(operation);
        SetStage(operation, Finished(false));
      }
      SignalStep(Now(), operation);
      operations := operations[operation := operations[operation].(aborted := true)];
    }

    /**
     The session's signal, or the owner's, fires: every operation and shared request is aborted and no caller waits.
     */
    method AbortSession()
      requires Inv()
      modifies this`operations, this`pendings, this`discoveryPending, this`trace
      ensures Inv()
      ensures Now() == AllAborted(old(Now()))
      ensures |operations| == |old(operations)|
      ensures forall i :: 0 <= i < |operations| ==>
                && operations[i].generation == old(operations)[i].generation && operations[i].aborted
                && operations[i].waitingOn.None?
                && operations[i].stage ==
                   if old(operations)[i].waitingOn.Some? then Finished(false) else old(operations)[i].stage
      ensures |pendings| == |old(pendings)| && discoveryPending.None?
      ensures forall p :: 0 <= p < |pendings| ==>
                && pendings[p].aborted && pendings[p].waiters == 0
                && pendings[p].generation == old(pendings)[p].generation && pendings[p].phase == old(pendings)[p].phase
      ensures trace == old(trace) + if old(discoveryPending).Some? then [Abandoned(old(discoveryPending).value)] else []
    {
      hide Consistent;
      AbortAllStep(Now());
      operations := AbortOperations(operations);
      pendings := AbortPendings(pendings);
      trace := trace + (if discoveryPending.Some? then [Abandoned(discoveryPending.value)] else []);
      discoveryPending := None;
    }

    method AbortOwner()
      requires Inv()
      modifies this`ownerAborted, this`operations, this`pendings, this`discoveryPending, this`trace
      ensures Inv() && Now() == AllAborted(old(Now())).(ownerAborted := true)
    {
      hide Consistent;
      AbortedShape(Now());
      AbortSession();
      OwnerStep(Now());
      ownerAborted := true;
    }

    /** The part of `logout` and `dispose` that ends the session. */
    method EndSession(end: bool)
      requires Inv() && !disposed
      modifies this`disposed, this`operations, this`pendings, this`discoveryPending, this`trace, this`sessionGeneration,
               this`cursorBindings, this`discovery
      ensures Inv() && Now() == Ended(old(Now()), end)
    {
      AbortedShape(Now());
      hide Consistent, AllAborted;
      AbortSession();
      AbortedEnds(Now(), end);
      trace := trace + [if end then Disposed(sessionGeneration + 1) else LoggedOut(sessionGeneration + 1)];
      disposed, sessionGeneration := end, sessionGeneration + 1;
      cursorBindings, discovery := map[], None;
    }

    /** `logout`: ends the session and puts a clear at the end of the chain; a disposed client refuses. */
    method Logout() returns (ok: bool)
      requires Inv()
      modifies this`disposed, this`operations, this`pendings, this`discoveryPending, this`trace, this`sessionGeneration,
               this`cursorBindings, this`discovery, this`credentialMutation
      ensures Inv() && (ok <==> !old(disposed))
      ensures !ok ==> Now() == old(Now())
      ensures ok ==>
                && Now() == Ended(old(Now()), false).(chain := old(credentialMutation) + [Clear(sessionGeneration)])
                && sessionGeneration == old(sessionGeneration) + 1 && !disposed
                && discovery.None? && discoveryPending.None? && cursorBindings == map[]
                && credentialMutation == old(credentialMutation) + [Clear(sessionGeneration)]
                && (forall i :: 0 <= i < |operations| ==> operations[i].aborted)
                && (forall p :: 0 <= p < |pendings| ==> pendings[p].aborted)
                && |trace| > 0 && Last(trace) == LoggedOut(sessionGeneration)
    {
      hide Consistent, AbortOperations, AbortPendings;
      if disposed { return false; }
      EndSession(false);
      Enqueue(Clear(sessionGeneration));
      return true;
    }

    /** Ends the session for good; a second call does nothing. */
    method Dispose()
      requires Inv()
      modifies this`disposed, this`operations, this`pendings, this`discoveryPending, this`trace, this`sessionGeneration,
               this`cursorBindings, this`discovery
      ensures Inv() && disposed
      ensures Now() == if old(disposed) then old(Now()) else Ended(old(Now()), true)
      ensures !old(disposed) ==>
                && sessionGeneration == old(sessionGeneration) + 1
                && discovery.None? && discoveryPending.None? && cursorBindings == map[]
                && (forall i :: 0 <= i < |operations| ==> operations[i].aborted)
                && (forall p :: 0 <= p < |pendings| ==> pendings[p].aborted)
                && |trace| > 0 && Last(trace) == Disposed(sessionGeneration)
    {
      hide Consistent, AbortOperations, AbortPendings;
      if !disposed { EndSession(true); }
    }

    method Enqueue(mutation: Mutation)
      requires Inv()
      requires match mutation
               case Save(op) => op < |operations|
               case Clear(g) => LoggedOut(g) in trace
      modifies this`credentialMutation
      ensures Inv() && credentialMutation == old(credentialMutation) + [mutation]
    {
      hide Consistent;
      EnqueueStep(Now(), mutation);
      credentialMutation := credentialMutation + [mutation];
    }

    /** A claim or rotation with a valid response: a live one queues its save, any other ends. */
    method QueueSave(operation: nat)
      requires Inv() && operation < |operations|
      requires operations[operation].waitingOn.None? && operations[operation].stage.Active?
      modifies this`operations, this`credentialMutation
      ensures Inv()
      ensures var queued := old(Live(operation));
              && operations == old(operations)[operation :=
                   old(operations)[operation].(stage := if queued then SaveQueued else Finished(false))]
              && credentialMutation == old(credentialMutation) + (if queued then [Save(operation)] else [])
    {
      hide Consistent;
      if !Live(operation) {
        SetStage(operation, Finished(false));
        assert credentialMutation + [] == credentialMutation;
        return;
      }
      SetStage(operation, SaveQueued);
      Enqueue(Save(operation));
    }

    /** The next mutation of the chain starts: a save asserts its operation first, and is skipped if that fails. */
    method StartMutation()
      requires Inv() && head == Idle && |credentialMutation| > 0
      modifies this`operations, this`credentialMutation, this`head, this`trace
      ensures Inv() && |operations| == |old(operations)|
      ensures var first := old(credentialMutation)[0];
              match first
              case Clear(_) =>
                && credentialMutation == old(credentialMutation) && head == Calling
                && trace == old(trace) && operations == old(operations)
              case Save(op) =>
                && op < |old(operations)|
                && if old(Live(op)) then
                     && credentialMutation == old(credentialMutation) && head == Calling
                     && operations == old(operations)
                     && trace == old(trace) + [SaveCalled(op, sessionGeneration)]
                   else
                     && credentialMutation == old(credentialMutation)[1..] && head == Idle && trace == old(trace)
                     && operations == old(operations)[op := old(operations)[op].(stage := SaveFailed)]
    {
      hide Consistent;
      HeadExists(Now());
      match credentialMutation[0]
      case Clear(_) =>
        ClearStep(Now());
        head := Calling;
      case Save(op) =>
        if Live(op) {
          SaveStep(Now());
          trace := trace + [SaveCalled(op, sessionGeneration)];
          head := Calling;
        } else {
          Dequeue(Now());
          credentialMutation := credentialMutation[1..];
          SetStage(op, SaveFailed);
        }
    }

    /** The store carries out the mutation that was called. */
    method ApplyMutation()
      requires Inv() && head == Calling
      modifies this`store, this`head, this`trace
      ensures Inv() && |old(credentialMutation)| > 0
      ensures old(credentialMutation)[0].Save? ==> old(credentialMutation)[0].operation < |old(operations)|
      ensures Now() == Applying(old(Now())) && head == Applied
      ensures match old(credentialMutation)[0]
              case Clear(_) => store == Empty && trace == old(trace) + [Emptied]
              case Save(op) =>
                store == Credential(op) && trace == old(trace) + [Written(op, old(operations)[op].generation)]
    {
      hide Consistent;
      ApplyStep(Now());
      match credentialMutation[0]
      case Clear(_) =>
        trace := trace + [Emptied];
        store := Empty;
        head := Applied;
      case Save(op) =>
        trace := trace + [Written(op, operations[op].generation)];
        store := Credential(op);
        head := Applied;
    }

    /** The promise of the mutation settles. A fulfilled one has been applied; a rejected one may have been. */
    method FinishMutation(success: bool)
      requires Inv() && head != Idle && (success ==> head == Applied)
      modifies this`operations, this`credentialMutation, this`head, this`trace
      ensures Inv() && |old(credentialMutation)| > 0
      ensures old(credentialMutation)[0].Save? ==> old(credentialMutation)[0].operation < |old(operations)|
      ensures Now() == Settling(old(Now()), success) && head == Idle
      ensures credentialMutation == old(credentialMutation)[1..]
      ensures match old(credentialMutation)[0]
              case Clear(g) =>
                operations == old(operations) && trace == old(trace) + if success then [ClearSucceeded(g)] else []
              case Save(op) =>
                && operations == old(operations)[op :=
                     old(operations)[op].(stage := if success then SaveDone else SaveFailed)]
                && trace == old(trace)
    {
      hide Consistent;
      SettleStep(Now(), success);
      var first := credentialMutation[0];
      credentialMutation := credentialMutation[1..];
      head := Idle;
      match first
      case Clear(g) =>
        trace := trace + (if success then [ClearSucceeded(g)] else []);
      case Save(op) =>
        operations := operations[op := operations[op].(stage := if success then SaveDone else SaveFailed)];
    }

    /** After the save: the operation succeeds only if it is still live. */
    method CompleteSave(operation: nat) returns (success: bool)
      requires Inv() && operation < |operations|
      requires operations[operation].stage.SaveDone? || operations[operation].stage.SaveFailed?
      modifies this`operations, this`trace
      ensures Inv()
      ensures success <==> old(operations)[operation].stage.SaveDone? && old(Live(operation))
      ensures operations == old(operations)[operation := old(operations)[operation].(stage := Finished(success))]
      ensures trace == old(trace) + (if success then [Succeeded(operation, sessionGeneration)] else [])
    {
      hide Consistent;
      success := operations[operation].stage.SaveDone? && Live(operation);
      if success {
        SucceedStep(Now(), operation);
        trace := trace + [Succeeded(operation, sessionGeneration)];
      } else {
        StageStep(Now(), operation, Finished(false));
        assert trace + [] == trace;
      }
      operations := operations[operation := operations[operation].(stage := Finished(success))];
    }

    /** The cursor is not recorded for another binding. */
    predicate MayAsk(asked: Option<Cursor>, binding: Binding)
      reads this`cursorBindings
    {
      asked.Some? && asked.value in cursorBindings ==> cursorBindings[asked.value] == binding
    }

    /**
     The check of `drives`: a live operation goes on with its query unless its cursor is recorded for another binding.
     */
    method CheckQuery(operation: nat, asked: Option<Cursor>, binding: Binding) returns (ok: bool)
      requires Inv() && operation < |operations|
      requires operations[operation].waitingOn.None? && operations[operation].stage.Active?
      modifies this`operations, this`trace
      ensures Inv() && (ok <==> old(Live(operation)) && MayAsk(asked, binding))
      ensures operations == old(operations)[operation :=
                old(operations)[operation].(stage := if ok then Asking(asked, binding) else Finished(false))]
      ensures trace == old(trace) + (if ok then [Checked(operation, sessionGeneration, asked, binding)] else [])
    {
      hide Consistent;
      ok := Live(operation)
            && !(asked.Some? && asked.value in cursorBindings && cursorBindings[asked.value] != binding);
      if ok {
        CheckStep(Now(), operation, asked, binding);
        trace := trace + [Checked(operation, sessionGeneration, asked, binding)];
      } else {
        StageStep(Now(), operation, Finished(false));
        assert trace + [] == trace;
      }
      var next := if ok then Asking(asked, binding) else Finished(false);
      operations := operations[operation := operations[operation].(stage := next)];
    }

    /** The query is authorized: it leaves if its operation is still live. */
    method DispatchQuery(operation: nat) returns (ok: bool)
      requires Inv() && operation < |operations| && operations[operation].stage.Asking?
      modifies this`operations, this`trace
      ensures Inv() && (ok <==> old(Live(operation)))
      ensures var query := old(operations)[operation].stage;
              && operations == old(operations)[operation := old(operations)[operation].(stage :=
                   if ok then Asked(query.asked, query.binding) else Finished(false))]
              && trace == old(trace) +
                   (if ok then [Dispatched(operation, sessionGeneration, query.asked, query.binding)] else [])
    {
      hide Consistent;
      ok := Live(operation);
      var query := operations[operation].stage;
      if ok {
        DispatchStep(Now(), operation);
        trace := trace + [Dispatched(operation, sessionGeneration, query.asked, query.binding)];
      } else {
        StageStep(Now(), operation, Finished(false));
        assert trace + [] == trace;
      }
      var next := if ok then Asked(query.asked, query.binding) else Finished(false);
      operations := operations[operation := operations[operation].(stage := next)];
    }

    /** A valid drives page has been decoded: a live operation records its next cursor for its own query. */
    method RecordPage(operation: nat, next: Option<Cursor>) returns (ok: bool)
      requires Inv() && operation < |operations| && operations[operation].stage.Asked?
      modifies this`operations, this`cursorBindings, this`trace
      ensures Inv() && (ok <==> old(Live(operation)))
      ensures operations == old(operations)[operation := old(operations)[operation].(stage := Finished(ok))]
      ensures var recorded, binding := ok && next.Some?, old(operations)[operation].stage.binding;
              && cursorBindings == (if recorded then old(cursorBindings)[next.value := binding]
                                    else old(cursorBindings))
              && trace == old(trace) + (if recorded then [Page(operation, sessionGeneration, next.value, binding)]
                                        else [])
    {
      hide Consistent;
      ok := Live(operation);
      var binding := operations[operation].stage.binding;
      if ok && next.Some? {
        PageStep(Now(), operation, next.value);
        trace := trace + [Page(operation, sessionGeneration, next.value, binding)];
        cursorBindings := cursorBindings[next.value := binding];
      } else {
        StageStep(Now(), operation, Finished(ok));
        assert trace + [] == trace;
      }
      operations := operations[operation := operations[operation].(stage := Finished(ok))];
    }
  }
}
