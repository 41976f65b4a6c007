/**
 What a run of the Hub client does, as a list of events, and what the order of these events says.
 A generation is the number of logouts and disposals so far; an operation belongs to the generation it began in.
 */
module HubTrace {
  import opened Utf16
  import opened Wrappers

  type Cursor = Text
  type Binding = Text

  /** What the credential store holds: nothing, something from before this client, or the credential of an operation. */
  datatype Content = Empty | Earlier | Credential(operation: nat)

  datatype Event =
    | Began(operation: nat, generation: nat)
    | LoggedOut(generation: nat)
    | Disposed(generation: nat)
    | SaveCalled(operation: nat, generation: nat)
    | Written(operation: nat, generation: nat)
    | Emptied
    | ClearSucceeded(generation: nat)
    | Succeeded(operation: nat, generation: nat)
    | DiscoveryStarted(pending: nat, generation: nat)
    | Abandoned(pending: nat)
    | CacheWritten(pending: nat, generation: nat)
    | BindingsCleared
    | Checked(operation: nat, generation: nat, asked: Option<Cursor>, binding: Binding)
    | Dispatched(operation: nat, generation: nat, asked: Option<Cursor>, binding: Binding)
    | Page(operation: nat, generation: nat, cursor: Cursor, binding: Binding)

  predicate EndsSession(e: Event) { e.LoggedOut? || e.Disposed? }

  /** A successful or failed discovery of the session clears the cursor bindings, and so does its end. */
  predicate ClearsBindings(e: Event) { e.BindingsCleared? || EndsSession(e) }

  ghost function Last(trace: seq<Event>): Event
    requires |trace| > 0
  {
    trace[|trace| - 1]
  }

  ghost function Before(trace: seq<Event>): seq<Event>
    requires |trace| > 0
  {
    trace[..|trace| - 1]
  }

  /** The current generation. */
  ghost function Generation(trace: seq<Event>): nat {
    if |trace| == 0 then 0 else Generation(Before(trace)) + (if EndsSession(Last(trace)) then 1 else 0)
  }

  /** The newest generation whose logout has cleared the store successfully. */
  ghost function Cleared(trace: seq<Event>): nat {
    if |trace| == 0 then 0
    else
      var earlier := Cleared(Before(trace));
      if Last(trace).ClearSucceeded? && Last(trace).generation > earlier then Last(trace).generation else earlier
  }

  ghost function StoreOf(initial: Content, trace: seq<Event>): Content {
    if |trace| == 0 then initial
    else match Last(trace)
      case Written(operation, _) => Credential(operation)
      case Emptied => Empty
      case _ => StoreOf(initial, Before(trace))
  }

  ghost function BindingsOf(trace: seq<Event>): map<Cursor, Binding> {
    if |trace| == 0 then map[]
    else if ClearsBindings(Last(trace)) then map[]
    else if Last(trace).Page? then BindingsOf(Before(trace))[Last(trace).cursor := Last(trace).binding]
    else BindingsOf(Before(trace))
  }

  /** The cursor is recorded for another binding. */
  ghost predicate BoundElsewhere(trace: seq<Event>, cursor: Cursor, binding: Binding) {
    cursor in BindingsOf(trace) && BindingsOf(trace)[cursor] != binding
  }

  /** What may happen next after `trace`. */
  ghost predicate Allowed(initial: Content, trace: seq<Event>, e: Event) {
    match e
    case Began(op, g) => g == Generation(trace) && forall h :: Began(op, h) !in trace
    case LoggedOut(g) => g == Generation(trace) + 1
    case Disposed(g) => g == Generation(trace) + 1
    case SaveCalled(op, g) => g == Generation(trace) && Began(op, g) in trace
    case Written(op, g) => g >= Cleared(trace) && SaveCalled(op, g) in trace
    case ClearSucceeded(g) => StoreOf(initial, trace) == Empty && LoggedOut(g) in trace
    case Succeeded(op, g) => g == Generation(trace) && Written(op, g) in trace
    case DiscoveryStarted(p, g) => g == Generation(trace) && forall h :: DiscoveryStarted(p, h) !in trace
    case Abandoned(p) => exists g :: DiscoveryStarted(p, g) in trace
    case CacheWritten(p, g) => g == Generation(trace) && DiscoveryStarted(p, g) in trace && Abandoned(p) !in trace
    case Checked(op, g, asked, binding) =>
      g == Generation(trace) && Began(op, g) in trace && (asked.Some? ==> !BoundElsewhere(trace, asked.value, binding))
    case Dispatched(op, g, asked, binding) => g == Generation(trace) && Checked(op, g, asked, binding) in trace
    case Page(op, g, _, binding) => g == Generation(trace) && exists asked :: Dispatched(op, g, asked, binding) in trace
    case _ => true
  }

  ghost predicate Lawful(initial: Content, trace: seq<Event>) {
    |trace| == 0 || (Lawful(initial, Before(trace)) && Allowed(initial, Before(trace), Last(trace)))
  }

  // One more event.
  lemma Push(initial: Content, trace: seq<Event>, e: Event)
    requires Lawful(initial, trace) && Allowed(initial, trace, e)
    ensures var longer := trace + [e];
            && Lawful(initial, longer)
            && Generation(longer) == Generation(trace) + (if EndsSession(e) then 1 else 0)
            && Cleared(longer) == (if e.ClearSucceeded? && e.generation > Cleared(trace) then e.generation
                                   else Cleared(trace))
            && StoreOf(initial, longer) ==
               (if e.Written? then Credential(e.operation) else if e.Emptied? then Empty else StoreOf(initial, trace))
            && BindingsOf(longer) ==
               (if ClearsBindings(e) then map[]
                else if e.Page? then BindingsOf(trace)[e.cursor := e.binding] else BindingsOf(trace))
            && forall x :: x in longer <==> x in trace || x == e
  {
    assert Before(trace + [e]) == trace && Last(trace + [e]) == e;
  }

  // Every event of a lawful trace was allowed where it happened.
  lemma {:induction false} AllowedAt(initial: Content, trace: seq<Event>, i: nat)
    requires Lawful(initial, trace) && i < |trace|
    ensures Lawful(initial, trace[..i]) && Allowed(initial, trace[..i], trace[i])
  {
    if i == |trace| - 1 {
    } else {
      AllowedAt(initial, Before(trace), i);
      assert Before(trace)[..i] == trace[..i];
    }
  }

  lemma {:induction false} GenerationGrows(trace: seq<Event>, i: nat, j: nat)
    requires i <= j <= |trace|
    ensures Generation(trace[..i]) <= Generation(trace[..j])
    ensures Generation(trace[..i]) == Generation(trace[..j]) ==> forall k :: i <= k < j ==> !EndsSession(trace[k])
  {
    if i < j {
      GenerationGrows(trace, i, j - 1);
      assert Before(trace[..j]) == trace[..j - 1];
    }
  }

  lemma {:induction false} ClearedGrows(trace: seq<Event>, i: nat, j: nat)
    requires i < j <= |trace| && trace[i].ClearSucceeded?
    ensures Cleared(trace[..j]) >= trace[i].generation
  {
    assert Before(trace[..j]) == trace[..j - 1];
    if i < j - 1 { ClearedGrows(trace, i, j - 1); }
  }

  /** Position `i` of the trace holds `e`. */
  ghost predicate At(trace: seq<Event>, i: nat, e: Event) {
    i < |trace| && trace[i] == e
  }

  /** The operation began before position `j`, and no logout or disposal came in between. */
  ghost predicate UninterruptedSince(trace: seq<Event>, operation: nat, j: nat) {
    exists b: nat, g ::
      && b < j <= |trace| && At(trace, b, Began(operation, g))
      && forall k :: b <= k < j ==> !EndsSession(trace[k])
  }

  lemma Uninterrupted(initial: Content, trace: seq<Event>, operation: nat, g: nat, j: nat)
    requires Lawful(initial, trace) && j <= |trace|
    requires Began(operation, g) in trace[..j] && g == Generation(trace[..j])
    ensures UninterruptedSince(trace, operation, j)
  {
    var b :| 0 <= b < j && trace[b] == Began(operation, g);
    AllowedAt(initial, trace, b);
    GenerationGrows(trace, b, j);
    assert At(trace, b, Began(operation, g));
  }

  // A queued save of an older generation never reaches the store: no logout or disposal lies between
  // the start of an operation and its call of `save`.
  lemma SaveIsCurrent(initial: Content, trace: seq<Event>, j: nat)
    requires Lawful(initial, trace) && j < |trace| && trace[j].SaveCalled?
    ensures UninterruptedSince(trace, trace[j].operation, j)
  {
    AllowedAt(initial, trace, j);
    Uninterrupted(initial, trace, trace[j].operation, trace[j].generation, j);
  }

  // What the store writes, it was asked to write by an operation of that generation.
  lemma WriteWasCalled(initial: Content, trace: seq<Event>, w: nat)
    requires Lawful(initial, trace) && w < |trace| && trace[w].Written?
    ensures exists c: nat :: c < w && At(trace, c, SaveCalled(trace[w].operation, trace[w].generation))
    ensures Began(trace[w].operation, trace[w].generation) in trace[..w]
  {
    AllowedAt(initial, trace, w);
    var op, g := trace[w].operation, trace[w].generation;
    var c :| 0 <= c < w && trace[..w][c] == SaveCalled(op, g);
    assert At(trace, c, SaveCalled(op, g));
    AllowedAt(initial, trace, c);
    var b :| 0 <= b < c && trace[..c][b] == Began(op, g);
    assert trace[..w][b] == Began(op, g);
  }

  // A claim or rotation that succeeds has had its credential written, and saw no logout and no disposal between its
  // start and its success.
  lemma SuccessIsCurrent(initial: Content, trace: seq<Event>, j: nat)
    requires Lawful(initial, trace) && j < |trace| && trace[j].Succeeded?
    ensures UninterruptedSince(trace, trace[j].operation, j)
    ensures exists w: nat :: w < j && At(trace, w, Written(trace[j].operation, trace[j].generation))
  {
    AllowedAt(initial, trace, j);
    var op, g := trace[j].operation, trace[j].generation;
    var w :| 0 <= w < j && trace[..j][w] == Written(op, g);
    assert At(trace, w, Written(op, g));
    WriteWasCalled(initial, trace, w);
    var b :| 0 <= b < w && trace[..w][b] == Began(op, g);
    assert trace[..j][b] == Began(op, g);
    Uninterrupted(initial, trace, op, g, j);
  }

  /** The credential of the operation was written at `w`, on a call of `save` up to which its session lasted. */
  ghost predicate SavedAt(trace: seq<Event>, operation: nat, g: nat, c: nat, w: nat) {
    && c < w && At(trace, c, SaveCalled(operation, g)) && At(trace, w, Written(operation, g))
    && UninterruptedSince(trace, operation, c)
  }

  // Every new credential in the store was written on a call of `save` by an operation whose session lasted till then.
  lemma {:induction false} StoredIsSaved(initial: Content, trace: seq<Event>)
    requires Lawful(initial, trace) && StoreOf(initial, trace).Credential? && StoreOf(initial, trace) != initial
    ensures exists g, c: nat, w: nat :: SavedAt(trace, StoreOf(initial, trace).operation, g, c, w)
  {
    var w := LastWrite(initial, trace);
    var op, g := trace[w].operation, trace[w].generation;
    WriteWasCalled(initial, trace, w);
    var c: nat :| c < w && At(trace, c, SaveCalled(op, g));
    SaveIsCurrent(initial, trace, c);
    assert At(trace, w, Written(op, g)) && SavedAt(trace, op, g, c, w);
  }

  lemma {:induction false} LastWrite(initial: Content, trace: seq<Event>) returns (w: nat)
    requires StoreOf(initial, trace).Credential? && StoreOf(initial, trace) != initial
    ensures w < |trace| && trace[w].Written? && trace[w].operation == StoreOf(initial, trace).operation
  {
    if Last(trace).Written? { w := |trace| - 1; } else { w := LastWrite(initial, Before(trace)); }
  }

  /** The operation began after the logout that opened generation `g`. */
  ghost predicate BegunAfterLogout(trace: seq<Event>, operation: nat, g: nat) {
    exists k: nat, b: nat, own :: k < b && At(trace, k, LoggedOut(g)) && At(trace, b, Began(operation, own))
  }

  /** The store is empty, or holds what an operation begun after the logout of generation `g` has saved after `i`. */
  ghost predicate EmptySince(initial: Content, trace: seq<Event>, i: nat, g: nat) {
    match StoreOf(initial, trace)
    case Empty => true
    case Earlier => false
    case Credential(operation) =>
      BegunAfterLogout(trace, operation, g) && exists j: nat, own :: i < j && At(trace, j, Written(operation, own))
  }

  // One more save: it is newer than the logout whose clear has succeeded.
  lemma WrittenSince(initial: Content, trace: seq<Event>, i: nat)
    requires Lawful(initial, trace) && i < |trace| - 1 && trace[i].ClearSucceeded? && Last(trace).Written?
    ensures EmptySince(initial, trace, i, trace[i].generation)
  {
    var g, last := trace[i].generation, |trace| - 1;
    var operation, own := Last(trace).operation, Last(trace).generation;
    AllowedAt(initial, trace, i);
    ClearedGrows(trace, i, last);
    WriteWasCalled(initial, trace, last);
    var b :| 0 <= b < last && trace[..last][b] == Began(operation, own);
    var k :| 0 <= k < i && trace[k] == LoggedOut(g);
    AllowedAt(initial, trace, b);
    AllowedAt(initial, trace, k);
    if b <= k { GenerationGrows(trace, b, k); }
    hide Allowed, Lawful, Cleared, Generation;
    assert At(trace, k, LoggedOut(g)) && At(trace, b, Began(operation, own));
    assert At(trace, last, Written(operation, own));
  }

  // Any other event but a clear leaves the store as it is.
  lemma StillEmptySince(initial: Content, trace: seq<Event>, i: nat, g: nat)
    requires |trace| > 0 && !Last(trace).Written? && !Last(trace).Emptied? && EmptySince(initial, Before(trace), i, g)
    ensures EmptySince(initial, trace, i, g)
  {
    var content := StoreOf(initial, trace);
    if content.Credential? {
      var operation := content.operation;
      var k: nat, b: nat, own :| k < b && At(Before(trace), k, LoggedOut(g))
        && At(Before(trace), b, Began(operation, own));
      assert At(trace, k, LoggedOut(g)) && At(trace, b, Began(operation, own));
      var j: nat, written :| i < j && At(Before(trace), j, Written(operation, written));
      assert At(trace, j, Written(operation, written));
    }
  }

  // Once a logout has cleared the store, the store stays empty until an operation that began after this logout
  // saves.
  lemma {:induction false} EmptyAfterLogout(initial: Content, trace: seq<Event>, i: nat)
    requires Lawful(initial, trace) && i < |trace| && trace[i].ClearSucceeded?
    ensures EmptySince(initial, trace, i, trace[i].generation)
  {
    if i == |trace| - 1 {
      AllowedAt(initial, trace, i);
      assert StoreOf(initial, trace) == StoreOf(initial, Before(trace));
    } else if Last(trace).Written? {
      WrittenSince(initial, trace, i);
    } else if !Last(trace).Emptied? {
      EmptyAfterLogout(initial, Before(trace), i);
      StillEmptySince(initial, trace, i, trace[i].generation);
    }
  }

  /** The discovery `p` started at position `s` in generation `g`. */
  ghost predicate StartedAt(trace: seq<Event>, s: nat, p: nat, g: nat) {
    At(trace, s, DiscoveryStarted(p, g))
  }

  // A discovery starts once.
  lemma StartsOnce(initial: Content, trace: seq<Event>, s: nat, t: nat, p: nat, g: nat, h: nat)
    requires Lawful(initial, trace) && StartedAt(trace, s, p, g) && StartedAt(trace, t, p, h)
    ensures s == t
  {
    if s < t { NoSecondStart(initial, trace, s, t, p, g, h); }
    if t < s { NoSecondStart(initial, trace, t, s, p, h, g); }
  }

  lemma NoSecondStart(initial: Content, trace: seq<Event>, s: nat, t: nat, p: nat, g: nat, h: nat)
    requires Lawful(initial, trace) && StartedAt(trace, s, p, g) && s < t < |trace|
    ensures !StartedAt(trace, t, p, h)
  {
    assert trace[..t][s] == DiscoveryStarted(p, g);
    AllowedAt(initial, trace, t);
  }

  // A discovery that writes the cache was started in the session that it writes for: no logout or disposal lies
  // between its start and its write, and it has not been abandoned.
  lemma CacheIsCurrent(initial: Content, trace: seq<Event>, j: nat)
    requires Lawful(initial, trace) && j < |trace| && trace[j].CacheWritten?
    ensures exists s: nat, g ::
              && s < j && StartedAt(trace, s, trace[j].pending, g)
              && forall k :: s <= k < j ==> !EndsSession(trace[k]) && trace[k] != Abandoned(trace[j].pending)
  {
    AllowedAt(initial, trace, j);
    var p, g := trace[j].pending, trace[j].generation;
    var s :| 0 <= s < j && trace[..j][s] == DiscoveryStarted(p, g);
    AllowedAt(initial, trace, s);
    GenerationGrows(trace, s, j);
    forall k | s <= k < j ensures trace[k] != Abandoned(p) { assert trace[..j][k] == trace[k]; }
    assert StartedAt(trace, s, p, g);
  }

  // A discovery that is abandoned, or whose session ends, never writes the cache afterwards.
  lemma StaleNeverWrites(initial: Content, trace: seq<Event>, s: nat, i: nat, j: nat, p: nat, g: nat)
    requires Lawful(initial, trace) && StartedAt(trace, s, p, g) && s < i < j < |trace|
    requires trace[i] == Abandoned(p) || EndsSession(trace[i])
    ensures !(trace[j].CacheWritten? && trace[j].pending == p)
  {
    if trace[j].CacheWritten? && trace[j].pending == p {
      CacheIsCurrent(initial, trace, j);
      var t: nat, h :| t < j && StartedAt(trace, t, p, h)
        && forall k :: t <= k < j ==> !EndsSession(trace[k]) && trace[k] != Abandoned(p);
      StartsOnce(initial, trace, s, t, p, g, h);
    }
  }

  // So an abandoned one does not, whenever it started.
  lemma {:induction false} AbandonedNeverWrites(initial: Content, trace: seq<Event>, i: nat, j: nat, p: nat)
    requires Lawful(initial, trace) && i < j < |trace| && trace[i] == Abandoned(p)
    ensures !(trace[j].CacheWritten? && trace[j].pending == p)
  {
    AllowedAt(initial, trace, i);
    var g :| DiscoveryStarted(p, g) in trace[..i];
    var s :| 0 <= s < i && trace[..i][s] == DiscoveryStarted(p, g);
    assert StartedAt(trace, s, p, g);
    StaleNeverWrites(initial, trace, s, i, j, p, g);
  }

  // ----- Cursors

  /** From `k` on, nothing before `j` has cleared the bindings or recorded the cursor again. */
  ghost predicate Untouched(trace: seq<Event>, k: nat, j: nat, cursor: Cursor)
    requires j <= |trace|
  {
    forall m :: k < m < j ==> !ClearsBindings(trace[m]) && !(trace[m].Page? && trace[m].cursor == cursor)
  }

  // A page that nothing has cleared or rebound since is what its cursor is recorded for.
  lemma {:induction false} PageStands(trace: seq<Event>, k: nat, j: nat)
    requires k < j <= |trace| && trace[k].Page? && Untouched(trace, k, j, trace[k].cursor)
    ensures trace[k].cursor in BindingsOf(trace[..j]) && BindingsOf(trace[..j])[trace[k].cursor] == trace[k].binding
  {
    assert Before(trace[..j]) == trace[..j - 1];
    if k < j - 1 { PageStands(trace, k, j - 1); }
  }

  // And every recorded cursor was recorded by such a page.
  lemma {:induction false} LastPage(trace: seq<Event>, j: nat, cursor: Cursor) returns (k: nat)
    requires j <= |trace| && cursor in BindingsOf(trace[..j])
    ensures k < j && trace[k].Page? && trace[k].cursor == cursor && Untouched(trace, k, j, cursor)
    ensures trace[k].binding == BindingsOf(trace[..j])[cursor]
  {
    assert Before(trace[..j]) == trace[..j - 1];
    if trace[j - 1].Page? && trace[j - 1].cursor == cursor {
      k := j - 1;
    } else {
      k := LastPage(trace, j - 1, cursor);
    }
  }

  // Every recorded cursor was set by a page of an operation of the current generation, and nothing has cleared the
  // bindings since.
  lemma BindingIsCurrent(initial: Content, trace: seq<Event>, cursor: Cursor)
    requires Lawful(initial, trace) && cursor in BindingsOf(trace)
    ensures exists k: nat, operation ::
              && At(trace, k, Page(operation, Generation(trace), cursor, BindingsOf(trace)[cursor]))
              && Untouched(trace, k, |trace|, cursor)
  {
    assert trace[..|trace|] == trace;
    var k := LastPage(trace, |trace|, cursor);
    AllowedAt(initial, trace, k);
    SameSession(trace, k, |trace|);
    assert At(trace, k, Page(trace[k].operation, Generation(trace), cursor, BindingsOf(trace)[cursor]));
  }

  lemma {:induction false} SameSession(trace: seq<Event>, i: nat, j: nat)
    requires i <= j <= |trace| && forall k :: i <= k < j ==> !EndsSession(trace[k])
    ensures Generation(trace[..i]) == Generation(trace[..j])
  {
    if i < j {
      assert Before(trace[..j]) == trace[..j - 1];
      SameSession(trace, i, j - 1);
    }
  }

  // While a cursor stands recorded for a binding, a query with this cursor passes its check for this binding only.
  lemma CheckedForItsBinding(initial: Content, trace: seq<Event>, k: nat, i: nat)
    requires Lawful(initial, trace) && k < i < |trace| && trace[k].Page? && trace[i].Checked?
    requires trace[i].asked == Some(trace[k].cursor) && Untouched(trace, k, i, trace[k].cursor)
    ensures trace[i].binding == trace[k].binding
  {
    AllowedAt(initial, trace, i);
    PageStands(trace, k, i);
  }

  // A query leaves only after its check, and no logout or disposal lies between the start of its operation, the
  // check and the dispatch.
  lemma DispatchIsChecked(initial: Content, trace: seq<Event>, j: nat)
    requires Lawful(initial, trace) && j < |trace| && trace[j].Dispatched?
    ensures var d := trace[j];
            && UninterruptedSince(trace, d.operation, j)
            && exists i: nat :: i < j && At(trace, i, Checked(d.operation, d.generation, d.asked, d.binding))
  {
    var d := trace[j];
    AllowedAt(initial, trace, j);
    var i :| 0 <= i < j && trace[..j][i] == Checked(d.operation, d.generation, d.asked, d.binding);
    assert At(trace, i, Checked(d.operation, d.generation, d.asked, d.binding));
    AllowedAt(initial, trace, i);
    var b :| 0 <= b < i && trace[..i][b] == Began(d.operation, d.generation);
    assert trace[..j][b] == Began(d.operation, d.generation);
    Uninterrupted(initial, trace, d.operation, d.generation, j);
  }

  /** The page at `k` recorded the cursor for another binding, and this stands until `j`. */
  ghost predicate Rebinds(trace: seq<Event>, k: nat, j: nat, cursor: Cursor, binding: Binding)
    requires j <= |trace|
  {
    && k < j && trace[k].Page? && trace[k].cursor == cursor && trace[k].binding != binding
    && Untouched(trace, k, j, cursor)
  }

  // A query leaves while its cursor is recorded for another binding exactly if a page has rebound the cursor between
  // its check and its dispatch.
  lemma StaleDispatchExactly(initial: Content, trace: seq<Event>, i: nat, j: nat, cursor: Cursor)
    requires Lawful(initial, trace) && i < j < |trace| && trace[j].Dispatched? && trace[j].asked == Some(cursor)
    requires trace[i] == Checked(trace[j].operation, trace[j].generation, Some(cursor), trace[j].binding)
    ensures BoundElsewhere(trace[..j], cursor, trace[j].binding) <==>
            exists k: nat :: i < k && Rebinds(trace, k, j, cursor, trace[j].binding)
  {
    var binding := trace[j].binding;
    if BoundElsewhere(trace[..j], cursor, binding) {
      var k := LastPage(trace, j, cursor);
      assert Rebinds(trace, k, j, cursor, binding);
      if k < i {
        PageStands(trace, k, i);
        AllowedAt(initial, trace, i);
      }
    }
    forall k: nat | i < k && Rebinds(trace, k, j, cursor, binding) ensures BoundElsewhere(trace[..j], cursor, binding) {
      PageStands(trace, k, j);
    }
  }
}
