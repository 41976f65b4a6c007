/** Every run of the Hub client: any operations, in any order, interleaved at every await. */
module HubRuns {
  import opened Wrappers
  import opened HubTrace
  import opened HubState
  import opened HubClient

  /** One stretch of code between two awaits, or one step of the environment. */
  datatype Step =
    | Begin(signalled: bool)
    | AskDiscovery(operation: nat)
    | Respond(pending: nat, response: Option<HubId>)
    | RunRejection(pending: nat)
    | RunSettlement(pending: nat)
    | WakeCaller(operation: nat)
    | AbortOne(operation: nat)
    | AbortAll
    | LogOut
    | DisposeClient
    | ResponseToSave(operation: nat)
    | StartNext
    | ApplyNext
    | FinishNext(success: bool)
    | AfterSave(operation: nat)
    | QueryDrives(operation: nat, asked: Option<Cursor>, binding: Binding)
    | Authorized(operation: nat)
    | PageDecoded(operation: nat, next: Option<Cursor>)

  /** Takes a step if it is enabled; a step that is not does nothing. */
  method Take(client: StaticHubClient, step: Step)
    requires client.Inv()
    modifies client
    ensures client.Inv()
    // A step that is not enabled does nothing, and every other step is taken.
    ensures !old(Enabled(client, step)) ==> client.Now() == old(client.Now())
    ensures match step
            case Begin(signalled) =>
              !signalled && !old(client.disposed) && !old(client.ownerAborted) ==>
                client.operations == old(client.operations) + [Operation(client.sessionGeneration, false, None, Active)]
            case AskDiscovery(op) =>
              op < |old(client.operations)| && old(client.Live(op)) && old(client.operations)[op].waitingOn.None? ==>
                && op < |client.operations| && client.discoveryPending.Some?
                && client.operations[op].waitingOn == client.discoveryPending
            case Respond(p, response) =>
              p < |old(client.pendings)| && old(client.pendings)[p].phase == Fetching ==>
                p < |client.pendings| && client.pendings[p].phase in {Handled(true), Rejecting}
            case RunRejection(p) =>
              p < |old(client.pendings)| && old(client.pendings)[p].phase == Rejecting ==>
                p < |client.pendings| && client.pendings[p].phase == Handled(false)
            case RunSettlement(p) =>
              p < |old(client.pendings)| && old(client.pendings)[p].phase.Handled? ==>
                p < |client.pendings| && client.pendings[p].phase == Settled(old(client.pendings)[p].phase.success)
            case WakeCaller(op) =>
              (op < |old(client.operations)| && old(client.operations)[op].waitingOn.Some?
               && old(client.operations)[op].waitingOn.value < |old(client.pendings)|
               && old(client.pendings)[old(client.operations)[op].waitingOn.value].phase.Settled?) ==>
                op < |client.operations| && client.operations[op].waitingOn.None?
            case AbortOne(op) =>
              op < |old(client.operations)| ==> op < |client.operations| && client.operations[op].aborted
            case AbortAll =>
              client.ownerAborted && forall i :: 0 <= i < |client.operations| ==> client.operations[i].aborted
            case LogOut =>
              !old(client.disposed) ==>
                && client.sessionGeneration == old(client.sessionGeneration) + 1
                && |client.trace| > 0 && Last(client.trace) == LoggedOut(client.sessionGeneration)
            case DisposeClient =>
              client.disposed && client.sessionGeneration ==
              old(client.sessionGeneration) + if old(client.disposed) then 0 else 1
            case ResponseToSave(op) =>
              (op < |old(client.operations)| && old(client.operations)[op].waitingOn.None?
               && old(client.operations)[op].stage == Active) ==>
                && op < |client.operations|
                && client.operations[op].stage == if old(client.Live(op)) then SaveQueued else Finished(false)
            case StartNext =>
              old(client.head) == Idle && |old(client.credentialMutation)| > 0 ==>
                client.head == Calling || client.credentialMutation == old(client.credentialMutation)[1..]
            case ApplyNext => old(client.head) == Calling ==> client.head == Applied
            case FinishNext(success) =>
              old(client.head) == Applied || (old(client.head) == Calling && !success) ==>
                client.head == Idle && client.credentialMutation == old(client.credentialMutation)[1..]
            case AfterSave(op) =>
              op < |old(client.operations)| && old(client.operations)[op].stage in {SaveDone, SaveFailed} ==>
                && op < |client.operations|
                && client.operations[op].stage ==
                   Finished(old(client.operations)[op].stage == SaveDone && old(client.Live(op)))
            case QueryDrives(op, asked, binding) =>
              (op < |old(client.operations)| && old(client.operations)[op].waitingOn.None?
               && old(client.operations)[op].stage == Active) ==>
                && op < |client.operations|
                && client.operations[op].stage in {Asking(asked, binding), Finished(false)}
            case Authorized(op) =>
              op < |old(client.operations)| && old(client.operations)[op].stage.Asking? ==>
                && op < |client.operations|
                && (client.operations[op].stage.Asked? || client.operations[op].stage == Finished(false))
            case PageDecoded(op, next) =>
              op < |old(client.operations)| && old(client.operations)[op].stage.Asked? ==>
                op < |client.operations| && client.operations[op].stage == Finished(old(client.Live(op)))
  {
    hide StaticHubClient.Inv;
    if !Enabled(client, step) { return; }
    match step
    case Begin(signalled) => var operation := client.BeginOperation(signalled);
    case AskDiscovery(op) => client.Discover(op);
    case Respond(p, response) => client.DiscoveryFetched(p, response);
    case RunRejection(p) => client.DiscoveryRejected(p);
    case RunSettlement(p) => client.DiscoverySettled(p);
    case WakeCaller(op) => var resolved := client.SettleCaller(op);
    case AbortOne(op) => client.AbortOperation(op);
    case AbortAll => client.AbortOwner();
    case LogOut => var ok := client.Logout();
    case DisposeClient => client.Dispose();
    case ResponseToSave(op) => client.QueueSave(op);
    case StartNext => client.StartMutation();
    case ApplyNext => client.ApplyMutation();
    case FinishNext(success) => client.FinishMutation(success);
    case AfterSave(op) => var success := client.CompleteSave(op);
    case QueryDrives(op, asked, binding) => var ok := client.CheckQuery(op, asked, binding);
    case Authorized(op) => var ok := client.DispatchQuery(op);
    case PageDecoded(op, next) => var ok := client.RecordPage(op, next);
  }

  /** What the step needs of the state it is taken in. */
  predicate Enabled(client: StaticHubClient, step: Step)
    reads client
  {
    match step
    case AskDiscovery(op) =>
      op < |client.operations| && client.Live(op) && client.operations[op].waitingOn.None?
    case Respond(p, _) => p < |client.pendings| && client.pendings[p].phase.Fetching?
    case RunRejection(p) => p < |client.pendings| && client.pendings[p].phase.Rejecting?
    case RunSettlement(p) => p < |client.pendings| && client.pendings[p].phase.Handled?
    case WakeCaller(op) =>
      && op < |client.operations| && client.operations[op].waitingOn.Some?
      && client.operations[op].waitingOn.value < |client.pendings|
      && client.pendings[client.operations[op].waitingOn.value].phase.Settled?
    case AbortOne(op) => op < |client.operations|
    case ResponseToSave(op) =>
      op < |client.operations| && client.operations[op].waitingOn.None? && client.operations[op].stage.Active?
    case StartNext => client.head == Idle && |client.credentialMutation| > 0
    case ApplyNext => client.head == Calling
    case FinishNext(success) => client.head != Idle && (success ==> client.head == Applied)
    case AfterSave(op) =>
      op < |client.operations| && (client.operations[op].stage.SaveDone? || client.operations[op].stage.SaveFailed?)
    case QueryDrives(op, _, _) =>
      op < |client.operations| && client.operations[op].waitingOn.None? && client.operations[op].stage.Active?
    case Authorized(op) => op < |client.operations| && client.operations[op].stage.Asking?
    case PageDecoded(op, _) => op < |client.operations| && client.operations[op].stage.Asked?
    case _ => true
  }

  predicate InFlight(pending: Pending) {
    !pending.aborted && !pending.phase.Settled?
  }

  /**
   The safety of the discovery machinery, in the client's own fields. An unaborted discovery in flight is the recorded
   one, so there is at most one; it belongs to the current session and has callers, which are counted exactly. One
   without callers is detached and aborted. What is cached was fetched by a discovery of the current session.
   */
  ghost predicate DiscoverySafe(client: StaticHubClient)
    reads client
  {
    && (forall p :: 0 <= p < |client.pendings| && InFlight(client.pendings[p]) ==>
          && client.discoveryPending == Some(p)
          && client.pendings[p].generation == client.sessionGeneration && !client.disposed)
    && (client.discoveryPending.Some? ==>
          && client.discoveryPending.value < |client.pendings|
          && InFlight(client.pendings[client.discoveryPending.value]))
    && (forall p :: 0 <= p < |client.pendings| ==>
          client.pendings[p].waiters ==
          |set i | 0 <= i < |client.operations| && client.operations[i].waitingOn == Some(p)|)
    && (forall p :: 0 <= p < |client.pendings| && client.pendings[p].waiters == 0 ==>
          && client.discoveryPending != Some(p)
          && (client.pendings[p].aborted || client.pendings[p].phase.Settled?))
    && (client.discovery.Some? ==>
          && client.discovery.value == client.expectedHubId && !client.disposed
          && DiscoveryStarted(client.discoveredBy, client.sessionGeneration) in client.trace
          && CacheWritten(client.discoveredBy, client.sessionGeneration) in client.trace)
  }

  lemma DiscoveryIsSafe(client: StaticHubClient)
    requires client.Inv()
    ensures DiscoverySafe(client)
  {
    forall p | 0 <= p < |client.pendings|
      ensures client.pendings[p].waiters ==
              |set i | 0 <= i < |client.operations| && client.operations[i].waitingOn == Some(p)|
    {
      var waiting := set i | 0 <= i < |client.operations| && client.operations[i].waitingOn == Some(p);
      assert waiting == client.pendings[p].callers;
    }
  }

  /**
   Any run from a fresh client. Its trace is lawful, so that everything proved about lawful traces holds for it; the
   store and the bindings are what the trace says; and the discovery machinery is safe in the state it ends in.
   */
  method Run(expectedHubId: HubId, initialStore: Content, schedule: seq<Step>) returns (client: StaticHubClient)
    ensures client.Inv()
    ensures client.expectedHubId == expectedHubId && client.initialStore == initialStore
    ensures Lawful(initialStore, client.trace)
    ensures client.store == StoreOf(initialStore, client.trace)
    ensures client.cursorBindings == BindingsOf(client.trace)
    ensures client.sessionGeneration == Generation(client.trace)
    ensures DiscoverySafe(client)
  {
    client := new StaticHubClient(expectedHubId, initialStore);
    for i := 0 to |schedule|
      invariant client.Inv() && fresh(client)
      invariant client.expectedHubId == expectedHubId && client.initialStore == initialStore
    {
      Take(client, schedule[i]);
    }
    DiscoveryIsSafe(client);
  }

  /** A client with one operation that has discovered its hub, as it stands before the operation goes on. */
  method Discovered(expectedHubId: HubId, initialStore: Content) returns (client: StaticHubClient)
    ensures fresh(client) && client.Inv() && client.initialStore == initialStore
    ensures !client.disposed && !client.ownerAborted && client.sessionGeneration == 0 && client.cursorBindings == map[]
    ensures client.operations == [Operation(0, false, None, Active)]
    ensures client.trace == [Began(0, 0), DiscoveryStarted(0, 0), CacheWritten(0, 0), BindingsCleared]
  {
    hide StaticHubClient.Inv;
    client := new StaticHubClient(expectedHubId, initialStore);
    var first := client.BeginOperation(false);
    client.Discover(0);
    client.DiscoveryFetched(0, Some(expectedHubId));
    client.DiscoverySettled(0);
    var resolved := client.SettleCaller(0);
  }

  /** A second query, whose page records the cursor. */
  method PageOfAnother(client: StaticHubClient, cursor: Cursor, binding: Binding)
    requires client.Inv() && !client.disposed && !client.ownerAborted && |client.operations| == 1
    modifies client
    ensures client.Inv()
    ensures client.operations ==
            old(client.operations) + [Operation(client.sessionGeneration, false, None, Finished(true))]
    ensures client.sessionGeneration == old(client.sessionGeneration) && !client.disposed
    ensures var g := client.sessionGeneration;
            client.trace == old(client.trace) +
              [Began(1, g), Checked(1, g, None, binding), Dispatched(1, g, None, binding), Page(1, g, cursor, binding)]
  {
    hide StaticHubClient.Inv;
    var second := client.BeginOperation(false);
    var ok := client.CheckQuery(1, None, binding);
    ok := client.DispatchQuery(1);
    ok := client.RecordPage(1, Some(cursor));
  }

  /**
   A run in which a query leaves with a cursor that is recorded for another binding: the first operation passes its
   check, and a page of the second one records the cursor before the first is authorized.
   */
  method StaleDispatch(expectedHubId: HubId, initialStore: Content, cursor: Cursor, binding: Binding, other: Binding)
    returns (client: StaticHubClient)
    requires binding != other
    ensures client.Inv() && Lawful(initialStore, client.trace)
    ensures client.trace == [
              Began(0, 0), DiscoveryStarted(0, 0), CacheWritten(0, 0), BindingsCleared,
              Checked(0, 0, Some(cursor), binding),
              Began(1, 0), Checked(1, 0, None, other), Dispatched(1, 0, None, other), Page(1, 0, cursor, other),
              Dispatched(0, 0, Some(cursor), binding)]
    ensures BoundElsewhere(client.trace[..9], cursor, binding)
  {
    hide StaticHubClient.Inv, Lawful, BindingsOf;
    client := Discovered(expectedHubId, initialStore);
    var ok := client.CheckQuery(0, Some(cursor), binding);
    PageOfAnother(client, cursor, other);
    ok := client.DispatchQuery(0);
    RunIsLawful(client);
    PageStands(client.trace, 8, 9);
  }

  /** Any live operation whose save is the only mutation: it succeeds, and the store holds its credential. */
  method ClaimSucceeds(client: StaticHubClient, operation: nat)
    requires client.Inv() && operation < |client.operations| && client.operations[operation].stage == Active
    requires client.operations[operation].waitingOn.None? && !client.operations[operation].aborted && !client.disposed
    requires client.operations[operation].generation == client.sessionGeneration
    requires client.credentialMutation == [] && client.head == Idle
    modifies client
    ensures client.Inv() && client.store == Credential(operation) && client.credentialMutation == []
    ensures client.operations == old(client.operations)[operation :=
              old(client.operations)[operation].(stage := Finished(true))]
    ensures var g := client.sessionGeneration;
            && g == old(client.sessionGeneration)
            && client.trace == old(client.trace) +
                 [SaveCalled(operation, g), Written(operation, g), Succeeded(operation, g)]
  {
    hide StaticHubClient.Inv;
    client.QueueSave(operation);
    client.StartMutation();
    client.ApplyMutation();
    client.FinishMutation(true);
    var success := client.CompleteSave(operation);
  }

  /** If the store rejects the save, the operation fails, and the chain is free for the next mutation. */
  method ClaimFails(client: StaticHubClient, operation: nat)
    requires client.Inv() && operation < |client.operations| && client.operations[operation].stage == Active
    requires client.operations[operation].waitingOn.None? && !client.operations[operation].aborted && !client.disposed
    requires client.operations[operation].generation == client.sessionGeneration
    requires client.credentialMutation == [] && client.head == Idle
    modifies client
    ensures client.Inv() && client.store == old(client.store)
    ensures client.credentialMutation == [] && client.head == Idle
    ensures client.operations == old(client.operations)[operation :=
              old(client.operations)[operation].(stage := Finished(false))]
  {
    hide StaticHubClient.Inv;
    client.QueueSave(operation);
    client.StartMutation();
    client.FinishMutation(false);
    var success := client.CompleteSave(operation);
  }

  /** A logout whose clear is the only mutation empties the store. */
  method LogoutEmpties(client: StaticHubClient)
    requires client.Inv() && !client.disposed && client.credentialMutation == [] && client.head == Idle
    modifies client
    ensures client.Inv() && client.store == Empty && client.credentialMutation == []
    ensures var g := old(client.sessionGeneration) + 1;
            && client.sessionGeneration == g && |client.trace| >= 3
            && client.trace[|client.trace| - 3..] == [LoggedOut(g), Emptied, ClearSucceeded(g)]
  {
    hide StaticHubClient.Inv;
    var ok := client.Logout();
    client.StartMutation();
    client.ApplyMutation();
    client.FinishMutation(true);
  }

  lemma RunIsLawful(client: StaticHubClient)
    requires client.Inv()
    ensures Lawful(client.initialStore, client.trace)
  {
  }
}
