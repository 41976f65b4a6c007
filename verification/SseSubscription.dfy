/**
 `subscribeToSse`: the reconnecting loop between a replaying server, a caller-owned checkpoint store and a consumer.
 The server holds one ordered log of events and resumes strictly after the id it is sent. Everything else the
 loop meets (refused requests, broken streams, a consumer that pulls or stops, failing saves, aborts) is read from
 a list of answers, one per await, so that a statement about all lists is a statement about all runs.
 */
module SseSubscription {
  import opened Utf16
  import opened Wrappers

  datatype LogEvent = LogEvent(id: Text, event: Text, data: Text)

  /** What the environment does at one await. A list that ends aborts the subscription. */
  datatype Answer =
    | LoadFails
    | Refuse
    | Terminal
    | Open
    | NextRetry(milliseconds: nat)
    | NextCheckpoint(id: Text)
    | NextEvent
    | StreamEnds
    | StreamFails
    | StreamLimit
    | MapperFails
    | Stop
    | SaveFails(stored: bool)
    | Reconnect(delay: nat)
    | GiveUp
    | BadDelay
    | Loaded
    | Mapped
    | Pulled
    | Saved
    | Slept
    | Abort

  /** How a subscription ends; an abort can come between a yield and its commit. */
  datatype Exit = Ended | Failed | Stopped | Aborted(yielded: bool) | BadCheckpoint | LimitExceeded | BadConfiguration

  function At(answers: seq<Answer>, t: nat): Answer {
    if t < |answers| then answers[t] else Abort
  }

  /** What the loop awaits; `Nothing` once it has ended. */
  datatype Await = Load | Response | Item | Map | Pull | Save | Policy | Sleep | Nothing

  /** The answer is one to this await; any other one stands for an abort. */
  predicate Suits(answer: Answer, await: Await) {
    match await
    case Load => answer.LoadFails? || answer.Loaded?
    case Response => answer.Refuse? || answer.Terminal? || answer.Open?
    case Item =>
      || answer.NextRetry? || answer.NextCheckpoint? || answer.NextEvent?
      || answer.StreamEnds? || answer.StreamFails? || answer.StreamLimit?
    case Map => answer.MapperFails? || answer.Mapped?
    case Pull => answer.Stop? || answer.Pulled?
    case Save => answer.SaveFails? || answer.Saved?
    case Policy => answer.Reconnect? || answer.GiveUp? || answer.BadDelay?
    case Sleep => answer.Slept?
    case Nothing => false
  }

  predicate UnsafeUnit(u: Unit) {
    u <= 31 || u == 127 || u > 255
  }

  /** At most 2048 units, none of them a control character or beyond one byte. */
  predicate ValidCheckpoint(value: Option<Text>) {
    value.Some? ==> |value.value| <= 2048 && forall u <- value.value :: !UnsafeUnit(u)
  }

  /** `normalizeCheckpoint`: an empty id is no checkpoint. */
  function Normalized(id: Text): Option<Text> {
    if id == [] then None else Some(id)
  }

  ghost predicate UniqueIds(log: seq<LogEvent>) {
    && (forall i :: 0 <= i < |log| ==> log[i].id != [])
    && (forall i, j :: 0 <= i < j < |log| ==> log[i].id != log[j].id)
  }

  function Find(log: seq<LogEvent>, id: Text, from: nat): (k: nat)
    requires from <= |log|
    ensures from <= k <= |log|
    ensures k < |log| ==> log[k].id == id
    ensures forall i :: from <= i < k ==> log[i].id != id
    decreases |log| - from
  {
    if from == |log| || log[from].id == id then from else Find(log, id, from + 1)
  }

  /**
   Where the server starts for a checkpoint: at the beginning without a `Last-Event-ID` header (which is sent only for
   a non-empty checkpoint), strictly after the named event otherwise, and nowhere for an id it does not hold.
   */
  function Resume(log: seq<LogEvent>, checkpoint: Option<Text>): (position: Option<nat>)
    ensures position.Some? ==> position.value <= |log|
  {
    if checkpoint.None? || checkpoint.value == [] then Some(0)
    else
      var k := Find(log, checkpoint.value, 0);
      if k == |log| then None else Some(k + 1)
  }

  /** The events of a stretch of the log that the mapper lets through, as it maps them. */
  function MapLog<T>(mapper: LogEvent -> Option<T>, log: seq<LogEvent>): seq<T> {
    if |log| == 0 then []
    else
      var last := mapper(log[|log| - 1]);
      MapLog(mapper, log[..|log| - 1]) + (if last.Some? then [last.value] else [])
  }

  lemma MapLogExtend<T>(mapper: LogEvent -> Option<T>, log: seq<LogEvent>, from: nat, to: nat)
    requires from <= to < |log|
    ensures MapLog(mapper, log[from..to + 1]) ==
            MapLog(mapper, log[from..to]) + (if mapper(log[to]).Some? then [mapper(log[to]).value] else [])
  {
    var longer := log[from..to + 1];
    assert longer[..|longer| - 1] == log[from..to];
  }

  // A checkpoint at an event of the log resumes right after it.
  lemma ResumeAfter(log: seq<LogEvent>, k: nat)
    requires UniqueIds(log) && k < |log|
    ensures Resume(log, Some(log[k].id)) == Some(k + 1)
  {
    assert log[k].id != [];
  }

  function Clamp(value: nat, minimum: nat, maximum: nat): nat {
    var raised := if value < minimum then minimum else value;
    if raised > maximum then maximum else raised
  }

  /** The latest retry hint of the current connection, among the answers read so far. */
  function Hint(answers: seq<Answer>): Option<nat> {
    if |answers| == 0 then None
    else match answers[|answers| - 1]
      case NextRetry(milliseconds) => Some(milliseconds)
      case Reconnect(_) => None
      case _ => Hint(answers[..|answers| - 1])
  }

  /**
   The delays to sleep: the policy's, unless the server gave a hint since the last reconnect, which is then clamped.
   */
  function Delays(answers: seq<Answer>, minimum: nat, maximum: nat): seq<nat> {
    if |answers| == 0 then []
    else
      var before := answers[..|answers| - 1];
      match answers[|answers| - 1]
      case Reconnect(delay) =>
        var hint := Hint(before);
        Delays(before, minimum, maximum) + [if hint.Some? then Clamp(hint.value, minimum, maximum) else delay]
      case _ => Delays(before, minimum, maximum)
  }

  /** How far the events among the answers read so far lead from where the server started. */
  function Passed(log: seq<LogEvent>, start: Option<nat>, answers: seq<Answer>): nat {
    if |answers| == 0 then start.GetOr(0)
    else
      var n := |answers| - 1;
      var position := Passed(log, start, answers[..n]);
      if n > 0 && answers[n - 1].NextEvent? && answers[n].Mapped? && position < |log| then position + 1 else position
  }

  /** Every checkpoint item that the server sends resumes where its stream is by then. */
  predicate Orderly(log: seq<LogEvent>, start: Option<nat>, answers: seq<Answer>) {
    |answers| == 0 || start.None? ||
    var before, last := answers[..|answers| - 1], answers[|answers| - 1];
    && Orderly(log, start, before)
    && (last.NextCheckpoint? ==> Resume(log, Normalized(last.id)) == Some(Passed(log, start, before)))
  }

  lemma {:induction false} OrderlyBefore(log: seq<LogEvent>, start: Option<nat>, answers: seq<Answer>, used: nat)
    requires used <= |answers| && Orderly(log, start, answers)
    ensures Orderly(log, start, answers[..used])
  {
    if used < |answers| && start.Some? {
      OrderlyBefore(log, start, answers[..|answers| - 1], used);
      assert answers[..|answers| - 1][..used] == answers[..used];
    } else {
      assert used < |answers| || answers[..used] == answers;
    }
  }

  lemma ClampBetween(value: nat, minimum: nat, maximum: nat)
    requires minimum <= maximum
    ensures minimum <= Clamp(value, minimum, maximum) <= maximum
    ensures minimum <= value <= maximum ==> Clamp(value, minimum, maximum) == value
    ensures value < minimum ==> Clamp(value, minimum, maximum) == minimum
    ensures value > maximum ==> Clamp(value, minimum, maximum) == maximum
  {
  }

  lemma {:induction false} NoHintIn(before: seq<Answer>, between: seq<Answer>, minimum: nat, maximum: nat)
    requires forall i :: 0 <= i < |between| ==> !between[i].NextRetry? && !between[i].Reconnect?
    ensures Hint(before + between) == Hint(before)
    ensures Delays(before + between, minimum, maximum) == Delays(before, minimum, maximum)
  {
    if |between| == 0 {
      assert before + between == before;
    } else {
      var n := |between| - 1;
      NoHintIn(before, between[..n], minimum, maximum);
      assert (before + between)[..|before| + n] == before + between[..n];
    }
  }

  // The last hint of a connection, brought between the bounds, is slept instead of the policy's delay.
  lemma HintIsSlept(before: seq<Answer>, hint: nat, between: seq<Answer>, delay: nat, minimum: nat, maximum: nat)
    requires forall i :: 0 <= i < |between| ==> !between[i].NextRetry? && !between[i].Reconnect?
    requires minimum <= maximum
    ensures Delays(before + [NextRetry(hint)] + between + [Reconnect(delay)], minimum, maximum) ==
            Delays(before, minimum, maximum) +
            [if hint < minimum then minimum else if hint > maximum then maximum else hint]
  {
    var hinted := before + [NextRetry(hint)];
    assert hinted[..|before|] == before;
    NoHintIn(hinted, between, minimum, maximum);
    assert (hinted + between + [Reconnect(delay)])[..|hinted + between|] == hinted + between;
    ClampBetween(hint, minimum, maximum);
  }

  // A hint counts for its connection only: without a new one the policy's delay is slept.
  lemma PolicyIsSlept(before: seq<Answer>, earlier: nat, between: seq<Answer>, delay: nat, minimum: nat, maximum: nat)
    requires forall i :: 0 <= i < |between| ==> !between[i].NextRetry? && !between[i].Reconnect?
    ensures Delays(between + [Reconnect(delay)], minimum, maximum) == [delay]
    ensures var reconnected := before + [Reconnect(earlier)];
            Delays(reconnected + between + [Reconnect(delay)], minimum, maximum) ==
            Delays(reconnected, minimum, maximum) + [delay]
  {
    var reconnected := before + [Reconnect(earlier)];
    assert reconnected[..|before|] == before;
    NoHintIn(reconnected, between, minimum, maximum);
    assert (reconnected + between + [Reconnect(delay)])[..|reconnected + between|] == reconnected + between;
    NoHintIn([], between, minimum, maximum);
    assert [] + between == between && (between + [Reconnect(delay)])[..|between|] == between;
  }

  class CheckpointStore {
    var saved: Option<Text>

    constructor (initial: Option<Text>)
      ensures saved == initial
    {
      saved := initial;
    }
  }

  /** The subscription ended after yielding an event and before committing it. */
  predicate Uncommitted(exit: Exit) {
    exit.Stopped? || (exit.Aborted? && exit.yielded)
  }

  /** What stays the same while a subscription runs: the server's log, the mapper, and the checkpoint loaded first. */
  datatype Setting<T> = Setting(log: seq<LogEvent>, mapper: LogEvent -> Option<T>, initial: Option<Text>) {
    function Start(): Option<nat> {
      Resume(log, initial)
    }
  }

  /** Between two items the loop, the store and the consumer agree on the position `reached`. */
  ghost predicate InStep<T>(s: Setting<T>, reached: nat, delivered: seq<T>, committed: Option<Text>,
                            checkpoint: Option<Text>) {
    match s.Start()
    case None => delivered == [] && committed == checkpoint == s.initial
    case Some(start) =>
      && start <= reached <= |s.log|
      && delivered == MapLog(s.mapper, s.log[start..reached])
      && Resume(s.log, committed) == Resume(s.log, checkpoint) == Some(reached)
  }

  /**
   What one subscription has done when it ends: it delivered the mapped log from where it started up to `reached`, and a
   new subscription from its checkpoint starts there; or one event before, exactly when the consumer left between the
   yield of that event and the next pull, or possibly when the last save failed.
   */
  ghost predicate Over<T>(s: Setting<T>, reached: nat, delivered: seq<T>, exit: Exit, checkpoint: Option<Text>) {
    match s.Start()
    case None => delivered == [] && checkpoint == s.initial
    case Some(start) =>
      && start <= reached <= |s.log|
      && delivered == MapLog(s.mapper, s.log[start..reached])
      && match Resume(s.log, checkpoint)
         case None => false
         case Some(p) =>
           && start <= p <= reached <= p + 1
           && (Uncommitted(exit) ==> p + 1 == reached && s.mapper(s.log[p]).Some?)
           && (!Uncommitted(exit) && !exit.BadCheckpoint? ==> p == reached)
  }

  /** The id of the event that the stream has passed last. */
  function PassedId<T>(s: Setting<T>, read: seq<Answer>): Text {
    var position := Passed(s.log, s.Start(), read);
    if 0 < position <= |s.log| then s.log[position - 1].id else []
  }

  function Saving(id: Text): Await {
    if ValidCheckpoint(Some(id)) then Save else Nothing
  }

  /** What the loop awaits after the answers read so far, as long as the server's checkpoint items are in order. */
  function Awaiting<T>(s: Setting<T>, read: seq<Answer>): Await {
    if |read| == 0 then Load
    else
      var position := Passed(s.log, s.Start(), read);
      match read[|read| - 1]
      case Loaded => if ValidCheckpoint(s.initial) then Response else Nothing
      case Slept => Response
      case Open => if s.Start().Some? then Item else Policy
      case NextRetry(_) => Item
      case Saved => Item
      case NextCheckpoint(id) => Saving(id)
      case NextEvent => if position < |s.log| then Map else Policy
      case Mapped =>
        if 0 < position <= |s.log| && s.mapper(s.log[position - 1]).Some? then Pull else Saving(PassedId(s, read))
      case Pulled => Saving(PassedId(s, read))
      case Refuse => Policy
      case StreamEnds => Policy
      case StreamFails => Policy
      case MapperFails => Policy
      case Reconnect(_) => Sleep
      case _ => Nothing
  }

  /** Every answer was one to what was awaited. */
  predicate AllSuit<T>(s: Setting<T>, read: seq<Answer>) {
    |read| == 0 ||
    var before := read[..|read| - 1];
    AllSuit(s, before) && Suits(read[|read| - 1], Awaiting(s, before))
  }

  lemma {:induction false} AllSuitAt<T>(s: Setting<T>, read: seq<Answer>, n: nat)
    requires AllSuit(s, read) && n < |read|
    ensures Suits(read[n], Awaiting(s, read[..n]))
  {
    hide Awaiting, Suits;
    if n < |read| - 1 {
      AllSuitAt(s, read[..|read| - 1], n);
      assert read[..|read| - 1][..n] == read[..n];
    }
  }

  // A commit comes only after the consumer has come back for more, or for an event that the mapper has dropped, or for
  // a checkpoint item; and the consumer is waited for exactly when an event has been yielded.
  lemma ConsumerFirst<T>(s: Setting<T>, read: seq<Answer>, n: nat)
    requires AllSuit(s, read) && 0 < n < |read|
    ensures read[n].Saved? || read[n].SaveFails? ==>
              || read[n - 1].Pulled? || read[n - 1].NextCheckpoint?
              || (read[n - 1].Mapped? &&
                  var p := Passed(s.log, s.Start(), read[..n]);
                  0 < p <= |s.log| ==> s.mapper(s.log[p - 1]).None?)
    ensures read[n].Pulled? || read[n].Stop? ==>
              && read[n - 1].Mapped?
              && var p := Passed(s.log, s.Start(), read[..n]);
                 0 < p <= |s.log| && s.mapper(s.log[p - 1]).Some?
  {
    AllSuitAt(s, read, n);
    assert read[..n][n - 1] == read[n - 1];
    hide Passed;
  }

  // A subscription is aborted only where an answer to what it awaits has not come.
  lemma AbortsOnlyThen<T>(s: Setting<T>, read: seq<Answer>, next: Answer, reached: nat, delivered: seq<T>, exit: Exit,
                          checkpoint: Option<Text>)
    requires Left(s, read, next, reached, delivered, exit, checkpoint)
    requires Orderly(s.log, s.Start(), read) && exit.Aborted?
    ensures read == [] ==> !next.LoadFails? && !next.Loaded?
    ensures |read| > 0 ==>
              var last := read[|read| - 1];
              && ((last.Loaded? && ValidCheckpoint(s.initial)) || last.Slept? ==>
                    !next.Refuse? && !next.Terminal? && !next.Open?)
              && ((last.Open? && s.Start().Some?) || last.NextRetry? || last.Saved? ==>
                    && !next.NextRetry? && !next.NextCheckpoint? && !next.NextEvent?
                    && !next.StreamEnds? && !next.StreamFails? && !next.StreamLimit?)
              && (last.NextEvent? && Passed(s.log, s.Start(), read) < |s.log| ==> !next.MapperFails? && !next.Mapped?)
              && (var p := Passed(s.log, s.Start(), read);
                  last.Mapped? && 0 < p <= |s.log| ==>
                    && (s.mapper(s.log[p - 1]).Some? ==> !next.Stop? && !next.Pulled?)
                    && (s.mapper(s.log[p - 1]).None? && ValidCheckpoint(Some(s.log[p - 1].id)) ==>
                          !next.SaveFails? && !next.Saved?))
              && (last.NextCheckpoint? && ValidCheckpoint(Some(last.id)) ==> !next.SaveFails? && !next.Saved?)
              && (last.Pulled? && ValidCheckpoint(Some(PassedId(s, read))) ==> !next.SaveFails? && !next.Saved?)
              && (last.Refuse? || last.StreamEnds? || last.StreamFails? || last.MapperFails? ==>
                    !next.Reconnect? && !next.GiveUp? && !next.BadDelay?)
              && (last.Reconnect? ==> !next.Slept?)
  {
    hide Over, AllSuit, ValidCheckpoint, Passed, Orderly;
  }

  // A subscription fails only where the policy is asked: not after a stream has been opened, unless the server does not
  // hold the checkpoint, and not after an event of the log.
  lemma FailsOnlyThen<T>(s: Setting<T>, read: seq<Answer>, next: Answer, reached: nat, delivered: seq<T>, exit: Exit,
                         checkpoint: Option<Text>)
    requires Left(s, read, next, reached, delivered, exit, checkpoint)
    requires Orderly(s.log, s.Start(), read) && exit.Failed?
    ensures |read| > 0 && next.GiveUp?
    ensures var last := read[|read| - 1];
            && (last.Open? ==> s.Start().None?)
            && (last.NextEvent? ==> Passed(s.log, s.Start(), read) >= |s.log|)
            && (last.Open? || last.NextEvent? || last.Refuse? || last.StreamEnds? || last.StreamFails?
                || last.MapperFails?)
  {
    hide Over, AllSuit, ValidCheckpoint, Passed, Orderly;
  }

  // What a subscription leaves behind: it has delivered the mapped log from where it started up to some event, and the
  // checkpoint in the store resumes there, or one event before if the consumer left, or perhaps if a save failed.
  lemma WhatIsLeft<T>(s: Setting<T>, read: seq<Answer>, next: Answer, reached: nat, delivered: seq<T>, exit: Exit,
                      checkpoint: Option<Text>, start: nat)
    requires Left(s, read, next, reached, delivered, exit, checkpoint) && Orderly(s.log, s.Start(), read)
    requires Resume(s.log, s.initial) == Some(start)
    ensures start <= reached <= |s.log| && delivered == MapLog(s.mapper, s.log[start..reached])
    ensures exit == Stopped || exit == Aborted(true) ==>
              reached > start && Resume(s.log, checkpoint) == Some(reached - 1) && s.mapper(s.log[reached - 1]).Some?
    ensures exit == BadCheckpoint ==>
              || Resume(s.log, checkpoint) == Some(reached)
              || (reached > start && Resume(s.log, checkpoint) == Some(reached - 1))
    ensures exit != Stopped && exit != Aborted(true) && exit != BadCheckpoint ==>
              Resume(s.log, checkpoint) == Some(reached)
  {
    hide MapLog, Resume, AllSuit, Awaiting, Orderly;
  }

  lemma SuitsNext<T>(s: Setting<T>, answers: seq<Answer>, used: nat)
    requires used < |answers| && AllSuit(s, answers[..used])
    requires Suits(answers[used], Awaiting(s, answers[..used]))
    ensures AllSuit(s, answers[..used + 1])
  {
    assert answers[..used + 1][..used] == answers[..used];
  }

  /**
   What `InStep` says, as long as the server's checkpoint items are in order; and every answer was one to what was
   awaited.
   */
  ghost predicate Following<T>(s: Setting<T>, read: seq<Answer>, reached: nat, delivered: seq<T>,
                               committed: Option<Text>, checkpoint: Option<Text>) {
    Orderly(s.log, s.Start(), read) ==>
      && InStep(s, reached, delivered, committed, checkpoint) && AllSuit(s, read)
      && (s.Start().Some? ==> reached == Passed(s.log, s.Start(), read))
  }

  /**
   What `Over` says, as long as the server's checkpoint items are in order; every answer was one to what was awaited;
   and the end is where it may be.
   */
  ghost predicate Left<T>(s: Setting<T>, read: seq<Answer>, next: Answer, reached: nat, delivered: seq<T>, exit: Exit,
                          checkpoint: Option<Text>) {
    Orderly(s.log, s.Start(), read) ==>
      Over(s, reached, delivered, exit, checkpoint) && AllSuit(s, read) && MayEnd(s, read, next, exit)
  }

  /** The answers between two points bring no event, no checkpoint and no reconnect. */
  ghost predicate Steady<T>(s: Setting<T>, minimum: nat, maximum: nat, before: seq<Answer>, after: seq<Answer>) {
    && Delays(after, minimum, maximum) == Delays(before, minimum, maximum)
    && Passed(s.log, s.Start(), after) == Passed(s.log, s.Start(), before)
    && (Orderly(s.log, s.Start(), after) <==> Orderly(s.log, s.Start(), before))
    && (Orderly(s.log, s.Start(), before) && AllSuit(s, before) ==> AllSuit(s, after))
  }

  /** ... and no hint either. */
  ghost predicate Quiet<T>(s: Setting<T>, minimum: nat, maximum: nat, before: seq<Answer>, after: seq<Answer>) {
    Steady(s, minimum, maximum, before, after) && Hint(after) == Hint(before)
  }

  predicate CompletesEvent(answers: seq<Answer>, used: nat)
    requires used < |answers|
  {
    used > 0 && answers[used - 1].NextEvent? && answers[used].Mapped?
  }

  // Reading one more answer.
  lemma NextAnswer<T>(s: Setting<T>, answers: seq<Answer>, used: nat, minimum: nat, maximum: nat)
    requires used < |answers|
    requires !CompletesEvent(answers, used) && !answers[used].NextCheckpoint? && !answers[used].Reconnect?
    requires Orderly(s.log, s.Start(), answers[..used]) ==> Suits(answers[used], Awaiting(s, answers[..used]))
    ensures var before, after, answer := answers[..used], answers[..used + 1], answers[used];
            && Steady(s, minimum, maximum, before, after)
            && Hint(after) == if answer.NextRetry? then Some(answer.milliseconds) else Hint(before)
  {
    assert answers[..used + 1][..used] == answers[..used];
    hide Awaiting, Suits, AllSuit;
    if Orderly(s.log, s.Start(), answers[..used]) && AllSuit(s, answers[..used]) { SuitsNext(s, answers, used); }
  }

  lemma QuietHere<T>(s: Setting<T>, minimum: nat, maximum: nat, read: seq<Answer>)
    ensures Quiet(s, minimum, maximum, read, read)
  {
  }

  lemma QuietOn<T>(s: Setting<T>, minimum: nat, maximum: nat, answers: seq<Answer>, read: nat, used: nat, next: nat)
    requires read <= |answers| && used <= |answers| && next <= |answers|
    requires Quiet(s, minimum, maximum, answers[..read], answers[..used])
    requires Quiet(s, minimum, maximum, answers[..used], answers[..next])
    ensures Quiet(s, minimum, maximum, answers[..read], answers[..next])
  {
  }

  /** An abort comes where an answer to what is awaited has not come, and a failure where the policy gives up. */
  ghost predicate MayEnd<T>(s: Setting<T>, read: seq<Answer>, next: Answer, exit: Exit) {
    Orderly(s.log, s.Start(), read) ==>
      && (exit.Aborted? ==> !Suits(next, Awaiting(s, read)))
      && (exit.Failed? ==> Awaiting(s, read) == Policy && next.GiveUp?)
  }

  lemma Goes<T>(s: Setting<T>, before: seq<Answer>, after: seq<Answer>, next: Answer, reached: nat, delivered: seq<T>,
                committed: Option<Text>, checkpoint: Option<Text>)
    requires Following(s, before, reached, delivered, committed, checkpoint)
    requires Passed(s.log, s.Start(), after) == Passed(s.log, s.Start(), before)
    requires Orderly(s.log, s.Start(), after) <==> Orderly(s.log, s.Start(), before)
    requires Orderly(s.log, s.Start(), before) && AllSuit(s, before) ==> AllSuit(s, after)
    ensures Following(s, after, reached, delivered, committed, checkpoint)
    ensures forall exit: Exit :: !Uncommitted(exit) && MayEnd(s, after, next, exit) ==>
              Left(s, after, next, reached, delivered, exit, checkpoint)
  {
    hide Suits, Awaiting, AllSuit;
  }

  // Following on over an answer that brings no event, no checkpoint and no reconnect.
  lemma ReadsOn<T>(s: Setting<T>, answers: seq<Answer>, used: nat, minimum: nat, maximum: nat, reached: nat,
                   delivered: seq<T>, committed: Option<Text>, checkpoint: Option<Text>)
    requires used < |answers| && !CompletesEvent(answers, used)
    requires !answers[used].NextCheckpoint? && !answers[used].Reconnect?
    requires Orderly(s.log, s.Start(), answers[..used]) ==> Suits(answers[used], Awaiting(s, answers[..used]))
    requires Following(s, answers[..used], reached, delivered, committed, checkpoint)
    ensures var before, after, next := answers[..used], answers[..used + 1], At(answers, used + 1);
            && Hint(after) == (if answers[used].NextRetry? then Some(answers[used].milliseconds) else Hint(before))
            && Delays(after, minimum, maximum) == Delays(before, minimum, maximum)
            && Following(s, after, reached, delivered, committed, checkpoint)
            && forall exit: Exit :: !Uncommitted(exit) && MayEnd(s, after, next, exit) ==>
                 Left(s, after, next, reached, delivered, exit, checkpoint)
  {
    NextAnswer(s, answers, used, minimum, maximum);
    Goes(s, answers[..used], answers[..used + 1], At(answers, used + 1), reached, delivered, committed, checkpoint);
    hide Suits, Awaiting, AllSuit;
  }

  lemma ReconnectsOn<T>(s: Setting<T>, answers: seq<Answer>, used: nat, minimum: nat, maximum: nat, reached: nat,
                        delivered: seq<T>, committed: Option<Text>, checkpoint: Option<Text>)
    requires used < |answers| && answers[used].Reconnect?
    requires Orderly(s.log, s.Start(), answers[..used]) ==> Suits(answers[used], Awaiting(s, answers[..used]))
    requires Following(s, answers[..used], reached, delivered, committed, checkpoint)
    ensures var before, after, next := answers[..used], answers[..used + 1], At(answers, used + 1);
            && Hint(after) == None
            && Delays(after, minimum, maximum) ==
               Delays(before, minimum, maximum) +
               [if Hint(before).Some? then Clamp(Hint(before).value, minimum, maximum) else answers[used].delay]
            && Following(s, after, reached, delivered, committed, checkpoint)
            && forall exit: Exit :: !Uncommitted(exit) && MayEnd(s, after, next, exit) ==>
                 Left(s, after, next, reached, delivered, exit, checkpoint)
  {
    assert answers[..used + 1][..used] == answers[..used];
    hide Suits, Awaiting, AllSuit;
    if Orderly(s.log, s.Start(), answers[..used]) && AllSuit(s, answers[..used]) { SuitsNext(s, answers, used); }
    Goes(s, answers[..used], answers[..used + 1], At(answers, used + 1), reached, delivered, committed, checkpoint);
  }

  // A stream opens where the checkpoint that was committed last resumes.
  lemma Opens<T>(s: Setting<T>, read: seq<Answer>, reached: nat, delivered: seq<T>, committed: Option<Text>,
                 checkpoint: Option<Text>, position: nat)
    requires Following(s, read, reached, delivered, committed, checkpoint)
    requires Resume(s.log, committed) == Some(position)
    ensures s.Start().Some? && position <= |s.log|
    ensures Following(s, read, position, delivered, committed, checkpoint)
  {
  }

  lemma NothingRead<T>(s: Setting<T>, minimum: nat, maximum: nat)
    ensures Hint([]) == None && Delays([], minimum, maximum) == []
    ensures Following(s, [], s.Start().GetOr(0), [], s.initial, s.initial)
  {
  }

  /** How an item's id, and before it perhaps the yield of its event, is settled. */
  predicate Settled(over: Option<Exit>, yielded: bool, id: Text, committed: Option<Text>, before: Option<Text>,
                    after: Option<Text>) {
    match over
    case None => committed == after == Normalized(id)
    case Some(exit) =>
      || (exit.BadCheckpoint? && (after == before || after == Normalized(id)))
      || (exit == Aborted(false) && !yielded && after == before)
      || (Uncommitted(exit) && yielded && after == before)
  }

  /** Where a subscription stands after an item, whether it is over or not. */
  ghost predicate Stands<T>(s: Setting<T>, read: seq<Answer>, next: Answer, over: Option<Exit>, reached: nat,
                            delivered: seq<T>, committed: Option<Text>, checkpoint: Option<Text>) {
    match over
    case None => Following(s, read, reached, delivered, committed, checkpoint)
    case Some(exit) => Left(s, read, next, reached, delivered, exit, checkpoint)
  }

  /** An abort while an item is settled comes instead of what is awaited. */
  ghost predicate AbortedWhile<T>(s: Setting<T>, read: seq<Answer>, next: Answer, over: Option<Exit>) {
    over.Some? ==> MayEnd(s, read, next, over.value)
  }

  // One more event of the log is delivered, and then committed or not.
  lemma OneEvent<T>(s: Setting<T>, reached: nat, delivered: seq<T>, committed: Option<Text>, before: Option<Text>,
                    over: Option<Exit>, next: Option<Text>, after: Option<Text>)
    requires UniqueIds(s.log) && s.Start().Some? && reached < |s.log|
    requires InStep(s, reached, delivered, committed, before)
    requires Settled(over, s.mapper(s.log[reached]).Some?, s.log[reached].id, next, before, after)
    ensures var mapped := s.mapper(s.log[reached]);
            var more := if mapped.Some? then delivered + [mapped.value] else delivered;
            match over
            case None => InStep(s, reached + 1, more, next, after)
            case Some(exit) => Over(s, if exit == Aborted(false) then reached else reached + 1, more, exit, after)
  {
    MapLogExtend(s.mapper, s.log, s.Start().value, reached);
    ResumeAfter(s.log, reached);
    assert delivered + [] == delivered;
    hide MapLog, Resume, UniqueIds;
  }

  // An event of the log, mapped and then settled.
  lemma EventSettled<T>(s: Setting<T>, answers: seq<Answer>, read: nat, used: nat, minimum: nat, maximum: nat,
                        reached: nat, delivered: seq<T>, committed: Option<Text>, before: Option<Text>,
                        over: Option<Exit>, next: Option<Text>, after: Option<Text>)
    requires read < |answers| && used <= |answers| && CompletesEvent(answers, read)
    requires UniqueIds(s.log) && s.Start().Some? && reached < |s.log|
    requires Following(s, answers[..read], reached, delivered, committed, before)
    requires Quiet(s, minimum, maximum, answers[..read + 1], answers[..used])
    requires Settled(over, s.mapper(s.log[reached]).Some?, s.log[reached].id, next, before, after)
    requires AbortedWhile(s, answers[..used], At(answers, used), over)
    ensures var mapped := s.mapper(s.log[reached]);
            var more := if mapped.Some? then delivered + [mapped.value] else delivered;
            Stands(s, answers[..used], At(answers, used), over,
                   if over == Some(Aborted(false)) then reached else reached + 1, more, next, after)
    ensures Hint(answers[..used]) == Hint(answers[..read])
    ensures Delays(answers[..used], minimum, maximum) == Delays(answers[..read], minimum, maximum)
  {
    assert answers[..read + 1][..read] == answers[..read];
    if Orderly(s.log, s.Start(), answers[..read]) {
      OneEvent(s, reached, delivered, committed, before, over, next, after);
      SuitsNext(s, answers, read);
    }
    hide InStep, Over, Settled, MapLog, Resume, UniqueIds, Suits, Awaiting, AllSuit;
  }

  // What is awaited once an event has been mapped.
  lemma EventAwaits<T>(s: Setting<T>, answers: seq<Answer>, read: nat, reached: nat, delivered: seq<T>,
                       committed: Option<Text>, checkpoint: Option<Text>)
    requires read < |answers| && CompletesEvent(answers, read) && s.Start().Some? && reached < |s.log|
    requires Following(s, answers[..read], reached, delivered, committed, checkpoint)
    ensures Orderly(s.log, s.Start(), answers[..read + 1]) ==>
              SettlesNext(s, answers[..read + 1], s.mapper(s.log[reached]).Some?, s.log[reached].id)
  {
    assert answers[..read + 1][..read] == answers[..read];
    hide InStep, AllSuit;
  }

  /** After these answers an item with this id is to be settled. */
  ghost predicate SettlesNext<T>(s: Setting<T>, read: seq<Answer>, yielded: bool, id: Text) {
    && Awaiting(s, read) == (if yielded then Pull else Saving(id))
    && (yielded ==> PassedId(s, read) == id)
  }

  // A checkpoint that resumes where the stream is moves nothing, committed or not.
  lemma OneCheckpoint<T>(s: Setting<T>, reached: nat, delivered: seq<T>, committed: Option<Text>, before: Option<Text>,
                         id: Text, over: Option<Exit>, next: Option<Text>, after: Option<Text>)
    requires InStep(s, reached, delivered, committed, before) && s.Start().Some?
    requires Resume(s.log, Normalized(id)) == Some(reached) && Settled(over, false, id, next, before, after)
    ensures match over
            case None => InStep(s, reached, delivered, next, after)
            case Some(exit) => Over(s, reached, delivered, exit, after)
  {
    hide MapLog, Resume, Normalized;
  }

  // A checkpoint item, settled.
  lemma CheckpointSettled<T>(s: Setting<T>, answers: seq<Answer>, read: nat, used: nat, minimum: nat, maximum: nat,
                             reached: nat, delivered: seq<T>, committed: Option<Text>, before: Option<Text>,
                             over: Option<Exit>, next: Option<Text>, after: Option<Text>)
    requires read < |answers| && used <= |answers| && answers[read].NextCheckpoint?
    requires s.Start().Some? && Awaiting(s, answers[..read]) == Item
    requires Following(s, answers[..read], reached, delivered, committed, before)
    requires Quiet(s, minimum, maximum, answers[..read + 1], answers[..used])
    requires Settled(over, false, answers[read].id, next, before, after)
    requires AbortedWhile(s, answers[..used], At(answers, used), over)
    ensures Stands(s, answers[..used], At(answers, used), over, reached, delivered, next, after)
    ensures Hint(answers[..used]) == Hint(answers[..read])
    ensures Delays(answers[..used], minimum, maximum) == Delays(answers[..read], minimum, maximum)
  {
    assert answers[..read + 1][..read] == answers[..read];
    if Orderly(s.log, s.Start(), answers[..read + 1]) {
      OneCheckpoint(s, reached, delivered, committed, before, answers[read].id, over, next, after);
      SuitsNext(s, answers, read);
    }
    hide MapLog, Resume, InStep, Over, Settled, Normalized, UniqueIds, Suits, Awaiting, AllSuit;
  }

  /** Saves the id of an item; without `ok` the subscription ends. */
  method Commit(store: CheckpointStore, id: Text, previous: Option<Text>, answer: Answer)
    returns (committed: Option<Text>, ok: bool)
    modifies store
    // At most 2048 units, each of one byte and none of them a control character.
    ensures ok <==> |id| <= 2048 && (forall u <- id :: 0x20 <= u <= 0xFF && u != 0x7F) && !answer.SaveFails?
    ensures var normalized := if id == [] then None else Some(id);
            if ok then committed == store.saved == normalized
            else store.saved == old(store.saved) || store.saved == normalized
  {
    committed := previous;
    if !ValidCheckpoint(Some(id)) { return committed, false; }
    committed := if |id| == 0 then None else Some(id);
    if answer.SaveFails? {
      if answer.stored { store.saved := committed; }
      return committed, false;
    }
    store.saved := committed;
    return committed, true;
  }

  /** Some id of the log or of a checkpoint item is none that a store may hold. */
  ghost predicate BadIds(log: seq<LogEvent>, answers: seq<Answer>) {
    || (exists i :: 0 <= i < |log| && !ValidCheckpoint(Some(log[i].id)))
    || (exists i :: 0 <= i < |answers| && answers[i].NextCheckpoint? && !ValidCheckpoint(Some(answers[i].id)))
  }

  lemma BadId(log: seq<LogEvent>, answers: seq<Answer>, id: Text, position: nat, answer: nat)
    requires (position < |log| && log[position].id == id) ||
             (answer < |answers| && answers[answer] == NextCheckpoint(id))
    ensures !ValidCheckpoint(Some(id)) ==> BadIds(log, answers)
  {
  }

  lemma ValidUnits(id: Text)
    ensures ValidCheckpoint(Some(id)) <==> |id| <= 2048 && (forall u <- id :: 0x20 <= u <= 0xFF && u != 0x7F)
  {
  }

  // What is awaited once the consumer has come back.
  lemma PulledAwaits<T>(s: Setting<T>, answers: seq<Answer>, read: nat, minimum: nat, maximum: nat, id: Text)
    requires read < |answers| && answers[read].Pulled?
    requires Quiet(s, minimum, maximum, answers[..read], answers[..read + 1])
    requires Orderly(s.log, s.Start(), answers[..read]) ==> SettlesNext(s, answers[..read], true, id)
    ensures Orderly(s.log, s.Start(), answers[..read + 1]) ==> Awaiting(s, answers[..read + 1]) == Saving(id)
  {
    hide AllSuit, ValidCheckpoint;
  }

  /** Waits for the consumer if an event has been yielded, and then saves the id if it is valid. */
  method Settle<T>(ghost s: Setting<T>, store: CheckpointStore, id: Text, previous: Option<Text>, yielded: bool,
                   answers: seq<Answer>, ghost minimum: nat, ghost maximum: nat, read: nat)
    returns (over: Option<Exit>, committed: Option<Text>, used: nat)
    requires 0 < read <= |answers| && (answers[read - 1].Mapped? || answers[read - 1].NextCheckpoint?)
    requires Orderly(s.log, s.Start(), answers[..read]) ==> SettlesNext(s, answers[..read], yielded, id)
    modifies store
    ensures read <= used <= |answers| && Quiet(s, minimum, maximum, answers[..read], answers[..used])
    ensures Settled(over, yielded, id, committed, old(store.saved), store.saved)
    ensures AbortedWhile(s, answers[..used], At(answers, used), over)
    ensures over.None? ==> answers[used - 1].Saved?
    ensures over.Some? ==>
              var last := answers[used - 1];
              && (last.Mapped? || last.Pulled? || last.NextCheckpoint? || last.Stop? || last.SaveFails?)
              && (over.value.Stopped? <==> last.Stop?)
              && (last.SaveFails? ==> over.value.BadCheckpoint?)
              && (over.value.BadCheckpoint? ==> last.SaveFails? || !ValidCheckpoint(Some(id)))
  {
    ValidUnits(id);
    hide Steady, Hint, ValidCheckpoint, Awaiting;
    over, committed, used := None, previous, read;
    QuietHere(s, minimum, maximum, answers[..read]);
    if yielded {
      var consumer := At(answers, used);
      if !Suits(consumer, Pull) { over := Some(Aborted(true)); return; }
      NextAnswer(s, answers, used, minimum, maximum);
      used := used + 1;
      if consumer.Stop? { over := Some(Stopped); return; }
      PulledAwaits(s, answers, read, minimum, maximum, id);
    }
    if !ValidCheckpoint(Some(id)) { over := Some(BadCheckpoint); return; }
    var saving := At(answers, used);
    if !Suits(saving, Save) { over := Some(Aborted(yielded)); return; }
    NextAnswer(s, answers, used, minimum, maximum);
    QuietOn(s, minimum, maximum, answers, read, used, used + 1);
    used := used + 1;
    var ok;
    committed, ok := Commit(store, id, committed, saving);
    if !ok { over := Some(BadCheckpoint); }
  }

  lemma ItemAwaited<T>(s: Setting<T>, read: seq<Answer>)
    requires |read| > 0 && s.Start().Some?
    ensures var last := read[|read| - 1];
            last.Open? || last.Saved? || last.NextRetry? ==> Awaiting(s, read) == Item
  {
  }

  lemma CheckpointAwaits<T>(s: Setting<T>, read: seq<Answer>, id: Text)
    requires |read| > 0 && read[|read| - 1] == NextCheckpoint(id)
    ensures SettlesNext(s, read, false, id)
  {
  }

  lemma NextEventAwaits<T>(s: Setting<T>, read: seq<Answer>, reached: nat, delivered: seq<T>, committed: Option<Text>,
                           checkpoint: Option<Text>)
    requires |read| > 0 && read[|read| - 1].NextEvent? && s.Start().Some?
    requires Following(s, read, reached, delivered, committed, checkpoint)
    ensures Orderly(s.log, s.Start(), read) ==> Awaiting(s, read) == if reached < |s.log| then Map else Policy
  {
  }

  ghost predicate PolicyAwaited<T>(s: Setting<T>, read: seq<Answer>) {
    Orderly(s.log, s.Start(), read) ==> Awaiting(s, read) == Policy
  }

  lemma StreamAwaits<T>(s: Setting<T>, read: seq<Answer>)
    requires |read| > 0
    ensures var last := read[|read| - 1];
            (last.StreamEnds? || last.StreamFails? || last.MapperFails? || last.Refuse?
             || (last.Open? && s.Start().None?)) ==>
              PolicyAwaited(s, read)
  {
  }

  lemma Unopened<T>(s: Setting<T>, read: seq<Answer>, reached: nat, delivered: seq<T>, committed: Option<Text>,
                    checkpoint: Option<Text>)
    requires |read| > 0 && read[|read| - 1].Open? && Resume(s.log, committed).None?
    requires Following(s, read, reached, delivered, committed, checkpoint)
    ensures PolicyAwaited(s, read)
  {
  }

  lemma ResponseAwaited<T>(s: Setting<T>, read: seq<Answer>)
    requires |read| > 0 && ValidCheckpoint(s.initial)
    ensures read[|read| - 1].Loaded? || read[|read| - 1].Slept? ==> Awaiting(s, read) == Response
  {
  }

  lemma LoadAwaited<T>(s: Setting<T>)
    ensures Awaiting(s, []) == Load
  {
  }

  lemma SleepAwaited<T>(s: Setting<T>, read: seq<Answer>)
    requires |read| > 0 && read[|read| - 1].Reconnect?
    ensures Awaiting(s, read) == Sleep
  {
  }

  /** How a stream is over after its last answer: only its own end is no failure. */
  predicate StreamOver(over: Option<Exit>, failed: bool, last: Answer, badIds: bool) {
    match over
    case None =>
      && (last.StreamEnds? || last.StreamFails? || last.MapperFails? || last.NextEvent?)
      && (failed <==> !last.StreamEnds?)
    case Some(exit) =>
      && !exit.Ended? && !exit.Failed? && !exit.BadConfiguration?
      && (exit.LimitExceeded? <==> last.StreamLimit?)
      && (exit.Stopped? <==> last.Stop?)
      && (last.SaveFails? ==> exit.BadCheckpoint?)
      && (exit.BadCheckpoint? ==> last.SaveFails? || badIds)
      && !last.StreamEnds? && !last.StreamFails? && !last.MapperFails?
      && !last.Terminal? && !last.Refuse? && !last.LoadFails?
  }

  /** The next event of the stream: it is mapped, yielded and committed; `failed` says that the stream ends instead. */
  method TakeEvent<T>(s: Setting<T>, store: CheckpointStore, answers: seq<Answer>, ghost minimum: nat,
                      ghost maximum: nat, position: nat, before: seq<T>, checkpoint: Option<Text>, read: nat)
    returns (over: Option<Exit>, failed: bool, reached: nat, delivered: seq<T>, committed: Option<Text>, used: nat)
    requires UniqueIds(s.log) && s.Start().Some? && position <= |s.log|
    requires 0 < read <= |answers| && answers[read - 1].NextEvent?
    requires Following(s, answers[..read], position, before, checkpoint, store.saved)
    modifies store
    ensures read <= used <= |answers| && Hint(answers[..used]) == Hint(answers[..read]) && reached <= |s.log|
    ensures Delays(answers[..used], minimum, maximum) == Delays(answers[..read], minimum, maximum)
    ensures Stands(s, answers[..used], At(answers, used), over, reached, delivered, committed, store.saved)
    ensures over.None? && !failed ==> answers[used - 1].Saved?
    ensures over.Some? || failed ==> StreamOver(over, failed, answers[used - 1], BadIds(s.log, answers))
    ensures over.None? && failed ==> PolicyAwaited(s, answers[..used])
    ensures over.Some? ==> !failed
  {
    hide BadIds, MapLog, Resume, UniqueIds, ValidCheckpoint, Delays, Hint, Normalized, Following, Left, Quiet, Awaiting,
         SettlesNext, AbortedWhile, AllSuit, Orderly, Passed;
    over, failed, reached, delivered, committed, used := None, false, position, before, checkpoint, read;
    Goes(s, answers[..used], answers[..used], At(answers, used), reached, delivered, committed, store.saved);
    NextEventAwaits(s, answers[..used], reached, delivered, committed, store.saved);
    if reached == |s.log| { failed := true; return; }
    var mapping := At(answers, used);
    if !Suits(mapping, Map) { over := Some(Aborted(false)); return; }
    used := used + 1;
    if mapping.MapperFails? {
      StreamAwaits(s, answers[..used]);
      ReadsOn(s, answers, read, minimum, maximum, reached, delivered, committed, store.saved);
      failed := true;
      return;
    }
    EventAwaits(s, answers, read, reached, delivered, committed, store.saved);
    var event := s.log[reached];
    var mapped := s.mapper(event);
    BadId(s.log, answers, event.id, position, |answers|);
    if mapped.Some? { delivered := delivered + [mapped.value]; }
    ghost var saved := store.saved;
    over, committed, used := Settle(s, store, event.id, committed, mapped.Some?, answers, minimum, maximum, used);
    EventSettled(s, answers, read, used, minimum, maximum, position, before, checkpoint, saved, over, committed,
                 store.saved);
    if over != Some(Aborted(false)) { reached := reached + 1; }
  }

  /** The items of one open stream; `over` says that the subscription ends. */
  method ReadStream<T>(s: Setting<T>, store: CheckpointStore, answers: seq<Answer>, ghost minimum: nat,
                       ghost maximum: nat, from: nat, before: seq<T>, checkpoint: Option<Text>, read: nat)
    returns (over: Option<Exit>, failed: bool, hint: Option<nat>, reached: nat, delivered: seq<T>,
             committed: Option<Text>, used: nat)
    requires UniqueIds(s.log) && s.Start().Some? && from <= |s.log|
    requires 0 < read <= |answers| && answers[read - 1].Open? && Hint(answers[..read]) == None
    requires Following(s, answers[..read], from, before, checkpoint, store.saved)
    modifies store
    ensures read <= used <= |answers| && hint == Hint(answers[..used])
    ensures Delays(answers[..used], minimum, maximum) == Delays(answers[..read], minimum, maximum)
    ensures read <= used && used > 0 && StreamOver(over, failed, answers[used - 1], BadIds(s.log, answers))
    ensures over.None? ==> PolicyAwaited(s, answers[..used])
    ensures Stands(s, answers[..used], At(answers, used), over, reached, delivered, committed, store.saved)
  {
    hide BadIds, MapLog, Resume, UniqueIds, ValidCheckpoint, Delays, Hint, Normalized, Following, Left, Quiet, Awaiting,
         SettlesNext, AbortedWhile, AllSuit, Orderly, Passed;
    reached, delivered, committed, used := from, before, checkpoint, read;
    over, failed, hint := None, false, None;
    while true
      invariant read <= used <= |answers| && reached <= |s.log| && over == None && !failed
      invariant hint == Hint(answers[..used])
      invariant var last := answers[used - 1];
                last.Open? || last.Saved? || last.NextRetry?
      invariant Delays(answers[..used], minimum, maximum) == Delays(answers[..read], minimum, maximum)
      invariant Following(s, answers[..used], reached, delivered, committed, store.saved)
      decreases |answers| - used
    {
      ItemAwaited(s, answers[..used]);
      Goes(s, answers[..used], answers[..used], At(answers, used), reached, delivered, committed, store.saved);
      var item := At(answers, used);
      if !Suits(item, Item) { over := Some(Aborted(false)); return; }
      if !item.NextCheckpoint? {
        ReadsOn(s, answers, used, minimum, maximum, reached, delivered, committed, store.saved);
      }
      ghost var first, saved := used, store.saved;
      used := used + 1;
      match item {
        case NextCheckpoint(id) =>
          ghost var previous := committed;
          BadId(s.log, answers, id, |s.log|, first);
          CheckpointAwaits(s, answers[..used], id);
          over, committed, used := Settle(s, store, id, committed, false, answers, minimum, maximum, used);
          CheckpointSettled(s, answers, first, used, minimum, maximum, reached, delivered, previous, saved, over,
                            committed, store.saved);
          if over.Some? { return; }
        case NextEvent =>
          over, failed, reached, delivered, committed, used :=
            TakeEvent(s, store, answers, minimum, maximum, reached, delivered, committed, used);
          if over.Some? || failed { return; }
        case NextRetry(milliseconds) =>
          hint := Some(milliseconds);
        case StreamEnds =>
          StreamAwaits(s, answers[..used]);
          return;
        case StreamFails =>
          StreamAwaits(s, answers[..used]);
          failed := true;
          return;
        case _ =>
          over := Some(LimitExceeded);
          return;
      }
    }
  }

  /** What the reconnect policy is told: the attempt, whether the connection failed, and the server's hint. */
  datatype ReconnectContext = ReconnectContext(attempt: nat, failed: bool, hint: Option<nat>)

  /** The attempts count up from one, and a hint overrides the policy's delay. */
  ghost predicate Told(contexts: seq<ReconnectContext>, sleeps: seq<nat>, minimum: nat, maximum: nat) {
    && |sleeps| <= |contexts| <= |sleeps| + 1
    && (forall k :: 0 <= k < |contexts| ==> contexts[k].attempt == k + 1)
    && forall k :: 0 <= k < |sleeps| && contexts[k].hint.Some? ==>
         sleeps[k] == Clamp(contexts[k].hint.value, minimum, maximum)
  }

  // The attempts count up from one, the policy is asked once for each delay and at most once more, and a hint overrides
  // the delay of the policy.
  lemma ToldInOrder(contexts: seq<ReconnectContext>, sleeps: seq<nat>, minimum: nat, maximum: nat, k: nat)
    requires Told(contexts, sleeps, minimum, maximum) && minimum <= maximum
    ensures |contexts| == |sleeps| || |contexts| == |sleeps| + 1
    ensures k < |contexts| ==> contexts[k].attempt == k + 1
    ensures k < |sleeps| && contexts[k].hint.Some? ==>
              var hint := contexts[k].hint.value;
              sleeps[k] == if hint < minimum then minimum else if hint > maximum then maximum else hint
  {
  }

  lemma NothingTold(minimum: nat, maximum: nat)
    ensures Told([], [], minimum, maximum)
  {
  }

  lemma ToldNext(contexts: seq<ReconnectContext>, sleeps: seq<nat>, minimum: nat, maximum: nat, failed: bool,
                 hint: Option<nat>, delay: nat)
    requires Told(contexts, sleeps, minimum, maximum) && |contexts| == |sleeps|
    requires hint.Some? ==> delay == Clamp(hint.value, minimum, maximum)
    ensures var more := contexts + [ReconnectContext(|contexts| + 1, failed, hint)];
            Told(more, sleeps, minimum, maximum) && Told(more, sleeps + [delay], minimum, maximum)
  {
  }

  /** How a subscription ends after a connection. */
  function Decision(policy: Answer, failed: bool, slept: bool): Exit {
    if slept then Aborted(false)
    else match policy
      case GiveUp => if failed then Failed else Ended
      case BadDelay => BadConfiguration
      case _ => Aborted(false)
  }

  /** One request, and the stream that it opens; `over` says that the subscription ends without asking the policy. */
  method Connect<T>(s: Setting<T>, store: CheckpointStore, answers: seq<Answer>, ghost minimum: nat,
                    ghost maximum: nat, from: nat, before: seq<T>, checkpoint: Option<Text>, read: nat)
    returns (over: Option<Exit>, failed: bool, hint: Option<nat>, reached: nat, delivered: seq<T>,
             committed: Option<Text>, used: nat)
    requires UniqueIds(s.log) && minimum <= maximum && ValidCheckpoint(s.initial)
    requires 0 < read <= |answers| && (answers[read - 1].Loaded? || answers[read - 1].Slept?)
    requires Hint(answers[..read]) == None
    requires Following(s, answers[..read], from, before, checkpoint, store.saved)
    modifies store
    ensures read <= used <= |answers| && hint == Hint(answers[..used])
    ensures Delays(answers[..used], minimum, maximum) == Delays(answers[..read], minimum, maximum)
    ensures Stands(s, answers[..used], At(answers, used), over, reached, delivered, committed, store.saved)
    ensures match over
            case None => used > read && ConnectionOver(failed, answers[used - 1]) && PolicyAwaited(s, answers[..used])
            case Some(exit) => Concludes(s.log, s.initial, answers, used, minimum, maximum, false, exit)
  {
    ResponseAwaited(s, answers[..read]);
    hide MapLog, Resume, UniqueIds, ValidCheckpoint, Delays, Hint, Following, Left, BadIds, Concludes, StreamOver,
         ConnectionOver, Awaiting, PolicyAwaited, Orderly, Passed, AllSuit;
    over, failed, hint, reached, delivered, committed, used := None, false, None, from, before, checkpoint, read;
    Goes(s, answers[..used], answers[..used], At(answers, used), reached, delivered, committed, store.saved);
    ConcludesUnasked(s.log, s.initial, answers, used, minimum, maximum, None, false);
    var response := At(answers, used);
    if !Suits(response, Response) { over := Some(Aborted(false)); return; }
    ReadsOn(s, answers, used, minimum, maximum, reached, delivered, committed, store.saved);
    used := used + 1;
    ConcludesUnasked(s.log, s.initial, answers, used, minimum, maximum, None, false);
    if response.Terminal? { over := Some(Ended); return; }
    var position := Resume(s.log, committed);
    if response.Open? && position.Some? {
      Opens(s, answers[..used], reached, delivered, committed, store.saved, position.value);
      over, failed, hint, reached, delivered, committed, used :=
        ReadStream(s, store, answers, minimum, maximum, position.value, delivered, committed, used);
      ConcludesUnasked(s.log, s.initial, answers, used, minimum, maximum, over, failed);
      EndOfStream(over, failed, answers[used - 1], BadIds(s.log, answers));
    } else {
      failed := true;
      NoStream(answers[used - 1]);
      StreamAwaits(s, answers[..used]);
      if response.Open? { Unopened(s, answers[..used], reached, delivered, committed, store.saved); }
    }
  }

  /** After a connection, the policy is asked; it has failed unless its stream came to its end. */
  predicate ConnectionOver(failed: bool, last: Answer) {
    && (last.StreamEnds? || last.StreamFails? || last.MapperFails? || last.NextEvent? || last.Refuse? || last.Open?)
    && (failed <==> !last.StreamEnds?)
  }

  lemma NoStream(last: Answer)
    requires last.Refuse? || last.Open?
    ensures ConnectionOver(true, last)
  {
  }

  /** Asks the policy after a connection, and sleeps the delay; `over` says that the subscription ends. */
  method DecideReconnect<T>(ghost s: Setting<T>, answers: seq<Answer>, minimum: nat, maximum: nat, failed: bool,
                            hint: Option<nat>, before: seq<nat>, told: seq<ReconnectContext>, read: nat,
                            ghost reached: nat, ghost delivered: seq<T>, ghost committed: Option<Text>,
                            ghost checkpoint: Option<Text>)
    returns (over: Option<Exit>, sleeps: seq<nat>, contexts: seq<ReconnectContext>, used: nat)
    requires 0 < read <= |answers| && hint == Hint(answers[..read])
    requires before == Delays(answers[..read], minimum, maximum)
    requires Told(told, before, minimum, maximum) && |told| == |before|
    requires Following(s, answers[..read], reached, delivered, committed, checkpoint)
    requires PolicyAwaited(s, answers[..read])
    ensures read <= used <= |answers| && sleeps == Delays(answers[..used], minimum, maximum)
    ensures Told(contexts, sleeps, minimum, maximum)
    ensures Stands(s, answers[..used], At(answers, used), over, reached, delivered, committed, checkpoint)
    ensures contexts == told + [ReconnectContext(|told| + 1, failed, hint)]
    ensures |sleeps| == |before| + (if used == read then 0 else 1) && (used > read ==> answers[read].Reconnect?)
    ensures match over
            case None => used == read + 2 && answers[read + 1].Slept? && Hint(answers[..used]) == None
            case Some(exit) =>
              used <= read + 1 && exit == Decision(At(answers, read), failed, used > read)
  {
    hide MapLog, Resume, UniqueIds, Delays, Hint, Told, Following, Left, Awaiting;
    over, sleeps, contexts, used := None, before, told, read;
    Goes(s, answers[..used], answers[..used], At(answers, used), reached, delivered, committed, checkpoint);
    var policy := At(answers, used);
    var delay := if hint.Some? then Clamp(hint.value, minimum, maximum)
                 else if policy.Reconnect? then policy.delay else 0;
    ToldNext(contexts, sleeps, minimum, maximum, failed, hint, delay);
    contexts := contexts + [ReconnectContext(|contexts| + 1, failed, hint)];
    if policy.BadDelay? { over := Some(BadConfiguration); return; }
    if policy.GiveUp? { over := Some(if failed then Failed else Ended); return; }
    if !policy.Reconnect? { over := Some(Aborted(false)); return; }
    ReconnectsOn(s, answers, used, minimum, maximum, reached, delivered, committed, checkpoint);
    sleeps := sleeps + [delay];
    used := used + 1;
    SleepAwaited(s, answers[..used]);
    var slept := At(answers, used);
    if !Suits(slept, Sleep) { over := Some(Aborted(false)); return; }
    ReadsOn(s, answers, used, minimum, maximum, reached, delivered, committed, checkpoint);
    used := used + 1;
  }

  /**
   The policy is asked at the answers `asked`, and answers the first `n` times with a delay. A connection has failed
   unless its stream came to its end.
   */
  ghost predicate Asked(answers: seq<Answer>, used: nat, contexts: seq<ReconnectContext>, asked: seq<nat>, n: nat) {
    && n <= |asked| == |contexts| && used <= |answers|
    && forall k :: 0 <= k < |asked| ==> AskedAt(answers, used, contexts[k], asked[k], k < n)
  }

  ghost predicate AskedAt(answers: seq<Answer>, used: nat, context: ReconnectContext, at: nat, delayed: bool) {
    && used <= |answers| && 0 < at <= used
    && context.hint == Hint(answers[..at]) && (context.failed <==> !answers[at - 1].StreamEnds?)
    && if delayed then at < used && answers[at].Reconnect? else at == used
  }

  /** How a subscription ends is read off its last answer, and off the policy's answer if that is asked then. */
  ghost predicate Concludes(log: seq<LogEvent>, initial: Option<Text>, answers: seq<Answer>, used: nat, minimum: nat,
                            maximum: nat, asked: bool, exit: Exit) {
    && used <= |answers| && (asked ==> used > 0)
    && var last, next := if used > 0 then answers[used - 1] else Abort, At(answers, used);
       && (exit.Ended? <==> last.Terminal? || (last.StreamEnds? && next.GiveUp?))
       && (exit.Failed? <==> asked && next.GiveUp? && !last.StreamEnds?)
       && (exit.BadConfiguration? <==> minimum > maximum || (asked && next.BadDelay?))
       && (exit.LimitExceeded? <==> last.StreamLimit?)
       && (exit.Stopped? <==> last.Stop?)
       && (last.LoadFails? || last.SaveFails? ==> exit.BadCheckpoint?)
       && (last.Refuse? || last.StreamEnds? || last.StreamFails? || last.MapperFails? ==> asked)
       && (asked ==> !last.Terminal? && !last.StreamLimit? && !last.Stop? && !last.LoadFails? && !last.SaveFails?)
       && (exit.BadCheckpoint? ==>
             || last.LoadFails? || last.SaveFails? || (used == 1 && !ValidCheckpoint(initial)) || BadIds(log, answers))
       && (minimum <= maximum && answers != [] && answers[0].Loaded? && !ValidCheckpoint(initial) ==>
             exit.BadCheckpoint?)
  }

  // A connection is told as failed exactly if its last answer is not the end of its stream, whatever else it was.
  lemma ToldAsFailed(answers: seq<Answer>, used: nat, contexts: seq<ReconnectContext>, asked: seq<nat>, n: nat, k: nat)
    requires Asked(answers, used, contexts, asked, n) && k < |asked|
    ensures 0 < asked[k] <= used <= |answers|
    ensures contexts[k].failed <==> answers[asked[k] - 1] != StreamEnds
    ensures contexts[k].hint == Hint(answers[..asked[k]])
    ensures if k < n then asked[k] < used && answers[asked[k]].Reconnect? else asked[k] == used
  {
  }

  // A subscription ends without an error exactly after a terminal answer, or when the policy gives up after the end of
  // a stream; it fails exactly when the policy gives up after anything else.
  lemma HowItEnds(log: seq<LogEvent>, initial: Option<Text>, answers: seq<Answer>, used: nat, minimum: nat,
                  maximum: nat, asked: bool, exit: Exit)
    requires Concludes(log, initial, answers, used, minimum, maximum, asked, exit) && used > 0
    ensures exit == Ended <==>
            || answers[used - 1] == Terminal
            || (answers[used - 1] == StreamEnds && used < |answers| && answers[used] == GiveUp)
    ensures exit == Failed <==>
            asked && used < |answers| && answers[used] == GiveUp && answers[used - 1] != StreamEnds
    ensures exit == BadConfiguration <==>
            minimum > maximum || (asked && used < |answers| && answers[used] == BadDelay)
    ensures exit == LimitExceeded <==> answers[used - 1] == StreamLimit
    ensures exit == Stopped <==> answers[used - 1] == Stop
    ensures answers[used - 1] in {Refuse, StreamEnds, StreamFails, MapperFails} ==> asked
    ensures answers[used - 1] == LoadFails || answers[used - 1].SaveFails? ==> exit == BadCheckpoint
  {
  }

  // Before any connection.
  lemma ConcludesAtOnce(log: seq<LogEvent>, initial: Option<Text>, answers: seq<Answer>, minimum: nat, maximum: nat)
    ensures minimum > maximum ==> Concludes(log, initial, answers, 0, minimum, maximum, false, BadConfiguration)
    ensures minimum <= maximum && !Suits(At(answers, 0), Load) ==>
              Concludes(log, initial, answers, 0, minimum, maximum, false, Aborted(false))
    ensures minimum <= maximum && answers != [] && Suits(answers[0], Load)
            && (answers[0].LoadFails? || !ValidCheckpoint(initial)) ==>
              Concludes(log, initial, answers, 1, minimum, maximum, false, BadCheckpoint)
  {
  }

  // Without asking the policy: no response, a terminal one, or in the middle of a stream.
  lemma ConcludesUnasked(log: seq<LogEvent>, initial: Option<Text>, answers: seq<Answer>, used: nat, minimum: nat,
                         maximum: nat, over: Option<Exit>, failed: bool)
    requires 0 < used <= |answers| && minimum <= maximum && ValidCheckpoint(initial)
    ensures answers[used - 1].Loaded? || answers[used - 1].Slept? ==>
              Concludes(log, initial, answers, used, minimum, maximum, false, Aborted(false))
    ensures answers[used - 1].Terminal? ==> Concludes(log, initial, answers, used, minimum, maximum, false, Ended)
    ensures over.Some? && StreamOver(over, failed, answers[used - 1], BadIds(log, answers)) ==>
              Concludes(log, initial, answers, used, minimum, maximum, false, over.value)
  {
    hide BadIds, ValidCheckpoint;
  }

  // After a connection: the policy gives up, or an abort comes.
  lemma ConcludesAsked(log: seq<LogEvent>, initial: Option<Text>, answers: seq<Answer>, read: nat, used: nat,
                       minimum: nat, maximum: nat, failed: bool, exit: Exit)
    requires 0 < read <= used <= |answers| && minimum <= maximum && ValidCheckpoint(initial) && used <= read + 1
    requires ConnectionOver(failed, answers[read - 1])
    requires used > read ==> answers[read].Reconnect?
    requires exit == Decision(At(answers, read), failed, used > read)
    ensures Concludes(log, initial, answers, used, minimum, maximum, used == read, exit)
  {
    hide BadIds, ValidCheckpoint;
  }

  lemma NobodyAsked(answers: seq<Answer>, used: nat)
    requires used <= |answers|
    ensures Asked(answers, used, [], [], 0)
  {
  }

  // While the policy has always answered with a delay.
  lemma AskedLater(answers: seq<Answer>, used: nat, contexts: seq<ReconnectContext>, asked: seq<nat>, n: nat,
                   later: nat)
    requires Asked(answers, used, contexts, asked, n) && n == |asked| && used <= later <= |answers|
    ensures Asked(answers, later, contexts, asked, n)
  {
    hide Hint;
    forall k | 0 <= k < n ensures AskedAt(answers, later, contexts[k], asked[k], true) {
      assert AskedAt(answers, used, contexts[k], asked[k], true);
    }
  }

  lemma AskedOnceMore(answers: seq<Answer>, used: nat, contexts: seq<ReconnectContext>, asked: seq<nat>, n: nat,
                      later: nat, context: ReconnectContext, delayed: bool)
    requires Asked(answers, used, contexts, asked, n) && n == |asked| && 0 < used <= later <= |answers|
    requires context.hint == Hint(answers[..used]) && (context.failed <==> !answers[used - 1].StreamEnds?)
    requires if delayed then used < later && answers[used].Reconnect? else later == used
    ensures Asked(answers, later, contexts + [context], asked + [used], if delayed then n + 1 else n)
  {
    AskedLater(answers, used, contexts, asked, n, later);
    hide Hint;
  }

  /** Before each connection: the policy has always answered with a delay. */
  ghost predicate Underway<T>(s: Setting<T>, answers: seq<Answer>, used: nat, minimum: nat, maximum: nat, reached: nat,
                              delivered: seq<T>, committed: Option<Text>, checkpoint: Option<Text>, sleeps: seq<nat>,
                              contexts: seq<ReconnectContext>, asked: seq<nat>) {
    && 0 < used <= |answers| && (answers[used - 1].Loaded? || answers[used - 1].Slept?)
    && Hint(answers[..used]) == None
    && sleeps == Delays(answers[..used], minimum, maximum) && Told(contexts, sleeps, minimum, maximum)
    && |contexts| == |sleeps| == |asked| && Asked(answers, used, contexts, asked, |sleeps|)
    && Following(s, answers[..used], reached, delivered, committed, checkpoint)
  }

  /** What is promised of a subscription that has ended. */
  ghost predicate Done<T>(s: Setting<T>, answers: seq<Answer>, used: nat, minimum: nat, maximum: nat, reached: nat,
                          delivered: seq<T>, exit: Exit, checkpoint: Option<Text>, sleeps: seq<nat>,
                          contexts: seq<ReconnectContext>, asked: seq<nat>) {
    && used <= |answers|
    && sleeps == Delays(answers[..used], minimum, maximum) && Told(contexts, sleeps, minimum, maximum)
    && |contexts| == |asked| && Asked(answers, used, contexts, asked, |sleeps|)
    && Left(s, answers[..used], At(answers, used), reached, delivered, exit, checkpoint)
    && Concludes(s.log, s.initial, answers, used, minimum, maximum, |contexts| > |sleeps|, exit)
  }

  /** One connection, and what the policy decides after it. */
  method Attempt<T>(s: Setting<T>, store: CheckpointStore, answers: seq<Answer>, minimum: nat, maximum: nat, from: nat,
                    before: seq<T>, checkpoint: Option<Text>, began: nat, slept: seq<nat>, told: seq<ReconnectContext>,
                    ghost askedBefore: seq<nat>)
    returns (over: Option<Exit>, reached: nat, delivered: seq<T>, committed: Option<Text>, used: nat, sleeps: seq<nat>,
             contexts: seq<ReconnectContext>, ghost asked: seq<nat>)
    requires UniqueIds(s.log) && minimum <= maximum && ValidCheckpoint(s.initial)
    requires Underway(s, answers, began, minimum, maximum, from, before, checkpoint, store.saved, slept, told,
                      askedBefore)
    modifies store
    ensures match over
            case None =>
              && began < used <= |answers|
              && Underway(s, answers, used, minimum, maximum, reached, delivered, committed, store.saved, sleeps,
                          contexts, asked)
            case Some(exit) =>
              Done(s, answers, used, minimum, maximum, reached, delivered, exit, store.saved, sleeps, contexts, asked)
  {
    hide MapLog, Resume, UniqueIds, ValidCheckpoint, Delays, Hint, Told, Following, Left, BadIds, Concludes, Asked,
         ConnectionOver, Awaiting, PolicyAwaited;
    sleeps, contexts, asked := slept, told, askedBefore;
    var failed, hint;
    over, failed, hint, reached, delivered, committed, used :=
      Connect(s, store, answers, minimum, maximum, from, before, checkpoint, began);
    AskedLater(answers, began, contexts, asked, |sleeps|, used);
    if over.Some? { return; }
    ghost var read := used;
    over, sleeps, contexts, used :=
      DecideReconnect(s, answers, minimum, maximum, failed, hint, sleeps, contexts, used, reached, delivered, committed,
                      store.saved);
    FailedIs(failed, answers[read - 1]);
    AskedOnceMore(answers, read, told, asked, |asked|, used, contexts[|told|], used > read);
    asked := asked + [read];
    if over.Some? { ConcludesAsked(s.log, s.initial, answers, read, used, minimum, maximum, failed, over.value); }
  }

  /**
   One subscription. Between reconnects the loop resumes from the checkpoint that it committed last; `reached` is the
   end of the stretch of the log that it delivered.
   */
  method SubscribeToSse<T>(log: seq<LogEvent>, mapper: LogEvent -> Option<T>, store: CheckpointStore,
                           answers: seq<Answer>, minimumRetry: nat, maximumRetry: nat)
    returns (delivered: seq<T>, exit: Exit, reached: nat, sleeps: seq<nat>, contexts: seq<ReconnectContext>, used: nat,
             ghost asked: seq<nat>)
    requires UniqueIds(log)
    modifies store
    ensures used <= |answers| && sleeps == Delays(answers[..used], minimumRetry, maximumRetry)
    ensures Told(contexts, sleeps, minimumRetry, maximumRetry)
    ensures |asked| == |contexts| && Asked(answers, used, contexts, asked, |sleeps|)
    ensures Concludes(log, old(store.saved), answers, used, minimumRetry, maximumRetry, |contexts| > |sleeps|, exit)
    ensures Left(Setting(log, mapper, old(store.saved)), answers[..used], At(answers, used), reached, delivered, exit,
                 store.saved)
  {
    NobodyAsked(answers, 0);
    ConcludesAtOnce(log, store.saved, answers, minimumRetry, maximumRetry);
    hide MapLog, Resume, UniqueIds, ValidCheckpoint, Delays, Hint, Told, Following, Left, BadIds, Concludes, Asked,
         ConnectionOver, Awaiting;
    asked := [];
    delivered, sleeps, contexts, used, reached := [], [], [], 0, 0;
    NothingTold(minimumRetry, maximumRetry);
    var s := Setting(log, mapper, store.saved);
    var start := s.Start();
    if start.Some? { reached := start.value; }
    NothingRead(s, minimumRetry, maximumRetry);
    assert answers[..0] == [];
    LoadAwaited(s);
    Goes(s, answers[..0], answers[..0], At(answers, 0), reached, delivered, store.saved, store.saved);
    if minimumRetry > maximumRetry { return delivered, BadConfiguration, reached, sleeps, contexts, used, asked; }
    var loading := At(answers, 0);
    if !Suits(loading, Load) { return delivered, Aborted(false), reached, sleeps, contexts, used, asked; }
    ReadsOn(s, answers, 0, minimumRetry, maximumRetry, reached, delivered, store.saved, store.saved);
    used := 1;
    if loading.LoadFails? { return delivered, BadCheckpoint, reached, sleeps, contexts, used, asked; }
    var committed := store.saved;
    if !ValidCheckpoint(committed) { return delivered, BadCheckpoint, reached, sleeps, contexts, used, asked; }
    while true
      invariant Underway(s, answers, used, minimumRetry, maximumRetry, reached, delivered, committed, store.saved,
                         sleeps, contexts, asked)
      decreases |answers| - used
    {
      ghost var more;
      var over;
      over, reached, delivered, committed, used, sleeps, contexts, more :=
        Attempt(s, store, answers, minimumRetry, maximumRetry, reached, delivered, committed, used, sleeps, contexts,
                asked);
      asked := more;
      if over.Some? { return delivered, over.value, reached, sleeps, contexts, used, asked; }
    }
  }

  lemma FailedIs(failed: bool, last: Answer)
    requires ConnectionOver(failed, last)
    ensures failed <==> !last.StreamEnds?
  {
  }

  lemma EndOfStream(over: Option<Exit>, failed: bool, last: Answer, badIds: bool)
    requires StreamOver(over, failed, last, badIds)
    ensures over.None? ==> ConnectionOver(failed, last)
  {
  }

  /**
   The first `n` of consecutive subscriptions on one store. The k-th starts at `points[k]`, delivers up to `ends[k]` and
   leaves the store at `points[k + 1]`: not before its own start, and at most one event before what it delivered.
   */
  ghost predicate Chained(points: seq<nat>, ends: seq<nat>, n: nat) {
    && n < |points| && n <= |ends|
    && forall k :: 0 <= k < n ==> points[k] <= points[k + 1] <= ends[k] <= points[k + 1] + 1
  }

  // Nothing is lost between subscriptions: every event before the last checkpoint was delivered by one of them.
  lemma {:induction false} NothingLost(points: seq<nat>, ends: seq<nat>, n: nat, i: nat) returns (k: nat)
    requires Chained(points, ends, n) && points[0] <= i < points[n]
    ensures k < n && points[k] <= i < ends[k]
  {
    if points[n - 1] <= i {
      k := n - 1;
    } else {
      k := NothingLost(points, ends, n - 1, i);
    }
  }

  /** The first `n` subscriptions delivered each its stretch. */
  ghost predicate InStretches<T>(log: seq<LogEvent>, mapper: LogEvent -> Option<T>, deliveries: seq<seq<T>>,
                                 points: seq<nat>, ends: seq<nat>, n: nat) {
    && Chained(points, ends, n) && n <= |deliveries|
    && forall k :: 0 <= k < n ==>
         points[k] <= ends[k] <= |log| && deliveries[k] == MapLog(mapper, log[points[k]..ends[k]])
  }

  /** In the first `n` runs the server's checkpoint items are in order. */
  ghost predicate OrderlyRuns(log: seq<LogEvent>, runs: seq<seq<Answer>>, points: seq<nat>, n: nat) {
    n <= |runs| && n <= |points| && forall k :: 0 <= k < n ==> Orderly(log, Some(points[k]), runs[k])
  }

  lemma OneMoreStretch<T>(log: seq<LogEvent>, mapper: LogEvent -> Option<T>, deliveries: seq<seq<T>>, points: seq<nat>,
                          ends: seq<nat>, n: nat, before: Option<Text>, after: Option<Text>,
                          delivered: seq<T>, exit: Exit, reached: nat)
    requires InStretches(log, mapper, deliveries, points, ends, n)
    requires |deliveries| == |ends| == n && |points| == n + 1 && Some(points[n]) == Resume(log, before)
    requires Over(Setting(log, mapper, before), reached, delivered, exit, after)
    ensures Resume(log, after).Some?
    ensures InStretches(log, mapper, deliveries + [delivered], points + [Resume(log, after).value], ends + [reached],
                        n + 1)
  {
    hide MapLog, Resume;
  }

  lemma StillInStretches<T>(log: seq<LogEvent>, mapper: LogEvent -> Option<T>, deliveries: seq<seq<T>>,
                            points: seq<nat>, ends: seq<nat>, n: nat, delivered: seq<T>, point: nat, end: nat)
    requires InStretches(log, mapper, deliveries, points, ends, n)
    ensures InStretches(log, mapper, deliveries + [delivered], points + [point], ends + [end], n)
  {
    hide MapLog;
  }

  lemma RunsOn(log: seq<LogEvent>, runs: seq<seq<Answer>>, points: seq<nat>, n: nat, point: nat)
    requires OrderlyRuns(log, runs, points, n)
    ensures OrderlyRuns(log, runs, points + [point], n)
    ensures n < |runs| && n < |points| && Orderly(log, Some(points[n]), runs[n]) ==>
              OrderlyRuns(log, runs, points + [point], n + 1)
  {
  }

  /**
   A consumer that subscribes again and again from its own store, each time for a run of its own. Up to the first run in
   which the server's checkpoint items are out of order, every subscription delivers its stretch of the mapped log, and
   repeats at most one event of the one before.
   */
  method SubscribeAgain<T>(log: seq<LogEvent>, mapper: LogEvent -> Option<T>, store: CheckpointStore,
                           runs: seq<seq<Answer>>, minimumRetry: nat, maximumRetry: nat)
    returns (deliveries: seq<seq<T>>, points: seq<nat>, ends: seq<nat>, ghost n: nat)
    requires UniqueIds(log) && Resume(log, store.saved).Some?
    modifies store
    ensures |deliveries| == |runs| == |ends| && |points| == |runs| + 1
    ensures Some(points[0]) == old(Resume(log, store.saved))
    ensures n <= |runs| && OrderlyRuns(log, runs, points, n)
    ensures n < |runs| ==> !Orderly(log, Some(points[n]), runs[n])
    ensures InStretches(log, mapper, deliveries, points, ends, n)
    ensures n == |runs| ==> Some(points[n]) == Resume(log, store.saved)
  {
    hide MapLog, Resume, UniqueIds, Over, Orderly;
    deliveries, ends, n := [], [], 0;
    points := [Resume(log, store.saved).value];
    assert InStretches(log, mapper, deliveries, points, ends, n);
    hide InStretches, OrderlyRuns;
    for i := 0 to |runs|
      invariant |deliveries| == i == |ends| && |points| == i + 1
      invariant Some(points[0]) == old(Resume(log, store.saved))
      invariant n <= i && OrderlyRuns(log, runs, points, n)
      invariant n < i ==> !Orderly(log, Some(points[n]), runs[n])
      invariant InStretches(log, mapper, deliveries, points, ends, n)
      invariant n == i ==> Some(points[n]) == Resume(log, store.saved)
    {
      ghost var before := store.saved;
      var delivered, exit, reached, sleeps, contexts, used, asked :=
        SubscribeToSse(log, mapper, store, runs[i], minimumRetry, maximumRetry);
      var point := Resume(log, store.saved).GetOr(0);
      RunsOn(log, runs, points, n, point);
      if n == i && Orderly(log, Some(points[i]), runs[i]) {
        OrderlyBefore(log, Some(points[i]), runs[i], used);
        OneMoreStretch(log, mapper, deliveries, points, ends, n, before, store.saved, delivered, exit, reached);
        n := n + 1;
      } else {
        StillInStretches(log, mapper, deliveries, points, ends, n, delivered, point, reached);
      }
      deliveries, points, ends := deliveries + [delivered], points + [point], ends + [reached];
    }
  }

  const MAX_TIMER := 2_147_483_647

  /** Every timer is one that native timers can take. */
  ghost predicate Native(timers: seq<nat>) {
    forall i :: 0 <= i < |timers| ==> 0 < timers[i] <= MAX_TIMER
  }

  // Native timers take up to 2^31 - 1 milliseconds, and overflow to almost nothing beyond.
  lemma NativeTimers(timers: seq<nat>)
    ensures MAX_TIMER == 2_147_483_647
    ensures Native(timers) <==> forall i :: 0 <= i < |timers| ==> 0 < timers[i] < 0x8000_0000
  {
  }

  /** The signal has not fired before or during the first `n` timers. */
  ghost predicate Undisturbed(firedBefore: nat -> bool, firesDuring: nat -> bool, n: nat) {
    forall i :: 0 <= i < n ==> !firedBefore(i) && !firesDuring(i)
  }

  lemma NextTimer(timers: seq<nat>, delay: nat, firedBefore: nat -> bool, firesDuring: nat -> bool)
    ensures Sum([]) == 0 && Native([]) && Undisturbed(firedBefore, firesDuring, 0)
    ensures Sum(timers + [delay]) == Sum(timers) + delay
    ensures Native(timers) && 0 < delay <= MAX_TIMER ==> Native(timers + [delay])
    ensures var n := |timers|;
            Undisturbed(firedBefore, firesDuring, n) && !firedBefore(n) && !firesDuring(n) ==>
              Undisturbed(firedBefore, firesDuring, n + 1)
  {
    assert (timers + [delay])[..|timers|] == timers;
  }

  /**
   Sleeps a delay in pieces that native timers can take, and records the timers that it starts. The signal has fired
   before the i-th timer starts if `firedBefore(i)`, and fires while it runs if `firesDuring(i)`.
   */
  method DefaultSleep(milliseconds: nat, firedBefore: nat -> bool, firesDuring: nat -> bool)
    returns (timers: seq<nat>, completed: bool)
    ensures Native(timers)
    ensures Sum(timers) <= milliseconds && (timers == [] || (|timers| - 1) * MAX_TIMER < milliseconds)
    ensures completed ==>
              Sum(timers) == milliseconds && !firedBefore(0) && Undisturbed(firedBefore, firesDuring, |timers|)
    ensures !completed ==>
              var n := |timers|;
              || (firedBefore(n) && Undisturbed(firedBefore, firesDuring, n))
              || (n > 0 && !firedBefore(n - 1) && firesDuring(n - 1) && Undisturbed(firedBefore, firesDuring, n - 1))
  {
    timers := [];
    NextTimer(timers, 0, firedBefore, firesDuring);
    hide Sum, Native, Undisturbed;
    if firedBefore(0) { return timers, false; }
    var remaining := milliseconds;
    while remaining > 0
      invariant 0 <= remaining <= milliseconds
      invariant Sum(timers) + remaining == milliseconds && Native(timers)
      invariant Undisturbed(firedBefore, firesDuring, |timers|)
      invariant remaining > 0 ==> |timers| * MAX_TIMER + remaining == milliseconds
      invariant timers == [] || (|timers| - 1) * MAX_TIMER < milliseconds
    {
      if firedBefore(|timers|) { return timers, false; }
      var delay := if remaining < MAX_TIMER then remaining else MAX_TIMER;
      NextTimer(timers, delay, firedBefore, firesDuring);
      timers := timers + [delay];
      if firesDuring(|timers| - 1) { return timers, false; }
      remaining := remaining - delay;
    }
    return timers, true;
  }

  function Sum(timers: seq<nat>): nat {
    if |timers| == 0 then 0 else Sum(timers[..|timers| - 1]) + timers[|timers| - 1]
  }
}
