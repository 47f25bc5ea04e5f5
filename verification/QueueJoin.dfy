/** When the join of `stop_threads` is sure to return: the stops after which every
    continuation ends the consumer thread, and those after which one may not. */
module QueueJoin {
  import opened Words
  import opened LogEntries
  import opened Ring
  import opened QueueSteps
  import opened QueueSafety
  import opened QueueRuns
  import opened QueueShutdown

  // The head stores there will be once the push in flight is done
  ghost function FinalHead(s: State): nat {
    |s.accepted| + PushInFlight(s)
  }

  // A head store the consumer may still load that equals its tail
  ghost predicate MayReadEmpty(k: Config, s: State)
    requires k.capacity >= 1
  {
    exists view :: s.headSeen <= view <= FinalHead(s) && view % k.capacity == s.tail
  }

  // Past its last look at is_running in the main loop but for one that may be
  // stale, with the spins used up
  ghost predicate MayReachSnapshot(k: Config, s: State)
    requires k.capacity >= 1
  {
    && s.spins >= SPIN_LIMIT
    && (|| s.consumer == Refused(FromLoop)
        || ((s.consumer.TakeTail? || s.consumer.TestEmpty?) && s.consumer.caller.FromLoop? && MayReadEmpty(k, s)))
  }

  /** The states in which a stop may leave the consumer thread waiting for ever. */
  ghost predicate AtRisk(k: Config, s: State)
    requires k.capacity >= 1
  {
    || s.consumer.Snapshot?
    || (HeadsForWait(s.consumer) && Awaited(s.consumer) % k.capacity == FinalHead(s) % k.capacity)
    || MayReachSnapshot(k, s)
  }

  // ---- Outside these states the thread ends, whatever happens ----

  lemma SafeProduce(k: Config, s: State, view: nat)
    requires Linked(k, s) && !s.running && !AtRisk(k, s)
    ensures !AtRisk(k, ProducerStep(k, s, view))
  {
    hide Next;
    var t := ProducerStep(k, s, view);
    assert FinalHead(t) == FinalHead(s);
    if MayReadEmpty(k, t) { assert MayReadEmpty(k, s); }
  }

  lemma SafeConsume(k: Config, s: State, view: nat, latest: bool)
    requires Linked(k, s) && !s.running && !AtRisk(k, s)
    ensures !AtRisk(k, ConsumerStep(k, s, view, latest))
  {
    hide Next;
    var t := ConsumerStep(k, s, view, latest);
    assert FinalHead(t) == FinalHead(s);
    if MayReachSnapshot(k, t) {
      if s.consumer.TestEmpty? && s.consumer.caller.FromLoop? {
        assert HeadView(s, view) ==> s.headSeen <= view <= FinalHead(s);
      }
      if MayReadEmpty(k, t) && t.tail == s.tail { assert MayReadEmpty(k, s); }
    }
  }

  lemma SafeStep(k: Config, s: State, a: Action)
    requires Linked(k, s) && !s.running && !AtRisk(k, s)
    ensures !Step(k, s, a).running && !AtRisk(k, Step(k, s, a))
  {
    hide Next;
    match a
    case Produce(view) => SafeProduce(k, s, view);
    case Consume(view, latest) => SafeConsume(k, s, view, latest);
    case SpuriousWake =>
      var t := Step(k, s, a);
      assert FinalHead(t) == FinalHead(s);
    case _ =>
  }

  // The consumer sleeps, or is about to, until the push in flight is published.
  ghost predicate AwaitsPush(k: Config, s: State)
    requires k.capacity >= 1
  {
    s.consumer.Blocked? || (s.consumer.Wait? && s.head == s.consumer.seen % k.capacity)
  }

  // A step of the push in flight, or a step of the consumer that gets it further
  ghost predicate IsMove(k: Config, s: State, a: Action)
    requires k.capacity >= 1
  {
    match a
    case Produce(_) => PushLeft(s.producer) > 0
    case Consume(view, _) =>
      && !s.consumer.Finished? && !AwaitsPush(k, s)
      && (s.consumer.TestEmpty? || s.consumer.Measure? || s.consumer.Snapshot? ==> HeadView(s, view))
    case _ => false
  }

  ghost function Moves(k: Config, s: State, acts: seq<Action>): nat
    requires k.capacity >= 1
    decreases |acts|
  {
    if acts == [] then 0
    else (if IsMove(k, s, acts[0]) then 1 else 0) + Moves(k, Step(k, s, acts[0]), acts[1..])
  }

  const MOST_MOVES: nat := 13

  ghost function Left(s: State): (n: nat)
    ensures n <= MOST_MOVES
  {
    PushLeft(s.producer) + ConsumerLeft(s.consumer)
  }

  lemma ProducerMove(k: Config, s: State, view: nat)
    requires Linked(k, s) && !s.running
    ensures Left(ProducerStep(k, s, view)) + (if PushLeft(s.producer) > 0 then 1 else 0) <= Left(s)
  {
    hide Next;
  }

  lemma ConsumerMove(k: Config, s: State, view: nat, latest: bool)
    requires Linked(k, s) && !s.running && !AtRisk(k, s)
    ensures Left(ConsumerStep(k, s, view, latest)) + (if IsMove(k, s, Consume(view, latest)) then 1 else 0) <= Left(s)
  {
    hide Next, MayReadEmpty;
    if s.consumer.Refused? || s.consumer.Snapshot? || s.consumer.Wait? {
      hide Shape;
    } else {
      hide AtRisk;
      PopMove(k, s, view, latest);
    }
  }

  // Inside a pop every step is a move.
  lemma PopMove(k: Config, s: State, view: nat, latest: bool)
    requires Linked(k, s) && !s.running
    requires !s.consumer.Refused? && !s.consumer.Snapshot? && !s.consumer.Wait?
    ensures Left(ConsumerStep(k, s, view, latest)) + (if IsMove(k, s, Consume(view, latest)) then 1 else 0) <= Left(s)
  {
    hide Next;
    match s.consumer
    case Enter(_) =>
    case TakeTail(_) =>
    case TestEmpty(_, _) =>
    case Confirm(_, _) =>
    case _ =>
  }

  lemma StepMoves(k: Config, s: State, a: Action)
    requires Linked(k, s) && !s.running && !AtRisk(k, s)
    ensures Left(Step(k, s, a)) + (if IsMove(k, s, a) then 1 else 0) <= Left(s)
  {
    hide ProducerStep, ConsumerStep, AtRisk;
    match a
    case Produce(view) => ProducerMove(k, s, view);
    case Consume(view, latest) => ConsumerMove(k, s, view, latest);
    case _ =>
  }

  // As long as the thread has not ended, there is a move.
  lemma SafeHasMove(k: Config, s: State)
    requires Linked(k, s) && !s.running && !AtRisk(k, s) && !s.consumer.Finished?
    ensures exists a :: IsMove(k, s, a)
  {
    hide MayReadEmpty;
    if AwaitsPush(k, s) {
      assert IsMove(k, s, Produce(0));
    } else {
      assert IsMove(k, s, Consume(|s.accepted|, true));
    }
  }

  /** Whatever a stopped queue that is not at risk does: there are at most 13
      moves, and one is possible until the consumer thread has ended. */
  lemma {:induction false} SafeStopEnds(k: Config, s: State, acts: seq<Action>)
    requires Linked(k, s) && !s.running && !AtRisk(k, s)
    ensures var t := Exec(k, s, acts);
            && Moves(k, s, acts) + Left(t) <= Left(s) <= MOST_MOVES
            && !AtRisk(k, t)
            && (t.consumer.Finished? || exists a :: IsMove(k, t, a))
    decreases |acts|
  {
    hide Step, IsMove, AtRisk, Left;
    if acts == [] {
      if !s.consumer.Finished? { SafeHasMove(k, s); }
      LeftIsBounded(s);
    } else {
      var t := Step(k, s, acts[0]);
      SafeStep(k, s, acts[0]);
      StepMoves(k, s, acts[0]);
      StepKeepsLinked(k, s, acts[0]);
      SafeStopEnds(k, t, acts[1..]);
      LeftIsBounded(s);
    }
  }

  lemma LeftIsBounded(s: State)
    ensures Left(s) <= MOST_MOVES
  {
  }

  // ---- And in each of them it may not ----

  lemma DoomedIsAtRisk(k: Config, s: State)
    requires Linked(k, s) && Doomed(k, s)
    ensures AtRisk(k, s)
  {
    hide MayReadEmpty;
  }

  // The push in flight, up to its publication
  lemma Published(k: Config, s: State) returns (acts: seq<Action>)
    requires Linked(k, s) && !s.running && AtRisk(k, s)
    ensures var t := Exec(k, s, acts); Linked(k, t) && !t.running && AtRisk(k, t) && PushInFlight(t) == 0
    decreases PushLeft(s.producer)
  {
    hide Next;
    if PushInFlight(s) == 0 {
      acts := [];
    } else {
      var t := Step(k, s, Produce(0));
      PublishingKeepsRisk(k, s);
      StepKeepsLinked(k, s, Produce(0));
      var rest := Published(k, t);
      acts := [Produce(0)] + rest;
      assert acts[1..] == rest;
    }
  }

  lemma PublishingKeepsRisk(k: Config, s: State)
    requires Linked(k, s) && !s.running && AtRisk(k, s) && PushInFlight(s) == 1
    ensures var t := Step(k, s, Produce(0)); !t.running && AtRisk(k, t) && PushLeft(t.producer) < PushLeft(s.producer)
  {
    hide Next;
    var t := Step(k, s, Produce(0));
    assert FinalHead(t) == FinalHead(s) && t.consumer == s.consumer && t.spins == s.spins;
    if MayReadEmpty(k, s) { assert MayReadEmpty(k, t); }
  }

  ghost function StepsToWait(c: Consumer): nat {
    match c
    case TakeTail(_) => 4
    case TestEmpty(_, _) => 3
    case Refused(_) => 2
    case Snapshot => 1
    case _ => 0
  }

  // The loads that lead the consumer to `head.wait`: a tail test that reads the
  // ring as empty, an old is_running, and then the newest head
  lemma GoesAstray(k: Config, s: State) returns (a: Action)
    requires Linked(k, s) && !s.running && AtRisk(k, s) && PushInFlight(s) == 0 && !HeadsForWait(s.consumer)
    ensures var t := Step(k, s, a);
            !t.running && AtRisk(k, t) && PushInFlight(t) == 0 && StepsToWait(t.consumer) < StepsToWait(s.consumer)
  {
    hide Next;
    match s.consumer
    case Snapshot =>
      a := Consume(|s.accepted|, true);
    case Refused(_) =>
      a := Consume(0, false);
    case TakeTail(_) =>
      a := Consume(0, true);
      assert MayReadEmpty(k, Step(k, s, a));
    case TestEmpty(_, _) =>
      var view :| s.headSeen <= view <= FinalHead(s) && view % k.capacity == s.tail;
      a := Consume(view, true);
  }

  lemma {:induction false} ReachesDoom(k: Config, s: State) returns (acts: seq<Action>)
    requires Linked(k, s) && !s.running && AtRisk(k, s) && PushInFlight(s) == 0
    ensures Doomed(k, Exec(k, s, acts))
    decreases if HeadsForWait(s.consumer) then 0 else StepsToWait(s.consumer)
  {
    hide Step, AtRisk;
    if HeadsForWait(s.consumer) {
      acts := [];
      WaiterIsDoomed(k, s);
    } else {
      var a := GoesAstray(k, s);
      StepKeepsLinked(k, s, a);
      var rest := ReachesDoom(k, Step(k, s, a));
      acts := [a] + rest;
      assert acts[1..] == rest;
    }
  }

  lemma WaiterIsDoomed(k: Config, s: State)
    requires Linked(k, s) && AtRisk(k, s) && PushInFlight(s) == 0 && HeadsForWait(s.consumer)
    ensures Doomed(k, s)
  {
  }

  lemma RiskIsReal(k: Config, s: State) returns (acts: seq<Action>)
    requires Linked(k, s) && !s.running && AtRisk(k, s)
    ensures NeverFinishes(k, Exec(k, s, acts))
  {
    hide AtRisk, Doomed, Step, NeverFinishes;
    var first := Published(k, s);
    var t := Exec(k, s, first);
    var rest := ReachesDoom(k, t);
    acts := first + rest;
    ExecAppend(k, s, first, rest);
    RunLinked(k, t, rest);
    StaysStopped(k, t, rest);
    StopIsExact(k, Exec(k, t, rest));
  }

  lemma {:induction false} StaysStopped(k: Config, s: State, acts: seq<Action>)
    requires k.capacity >= 1 && !s.running
    ensures !Exec(k, s, acts).running
  {
    ShutdownBound(k, s, acts);
  }

  lemma {:induction false} RiskIsExact(k: Config, s: State)
    requires Linked(k, s) && !s.running
    ensures AtRisk(k, s) <==> exists more :: NeverFinishes(k, Exec(k, s, more))
  {
    hide AtRisk, Exec, NeverFinishes, Step;
    if AtRisk(k, s) {
      var more := RiskIsReal(k, s);
    } else {
      forall more ensures !NeverFinishes(k, Exec(k, s, more)) {
        SafeStopEnds(k, s, more);
        RunLinked(k, s, more);
        StaysStopped(k, s, more);
        var t := Exec(k, s, more);
        if Doomed(k, t) { DoomedIsAtRisk(k, t); }
        StopIsExact(k, t);
      }
    }
  }

  // A run followed by `set_finished`
  function Stopped(k: Config, slots: seq<LogEntry>, acts: seq<Action>): State
    requires k.capacity >= 1
  {
    Exec(k, Start(slots), acts + [SetFinished])
  }

  lemma StopKeepsRisk(k: Config, s: State)
    requires k.capacity >= 1
    ensures AtRisk(k, s.(running := false)) <==> AtRisk(k, s)
  {
    assert FinalHead(s.(running := false)) == FinalHead(s);
    assert MayReadEmpty(k, s) <==> MayReadEmpty(k, s.(running := false));
  }

  lemma {:induction false} StopOfRun(k: Config, slots: seq<LogEntry>, acts: seq<Action>)
    requires k.Valid() && |slots| == k.capacity
    ensures var s := Exec(k, Start(slots), acts);
            && Stopped(k, slots, acts) == s.(running := false)
            && Linked(k, Stopped(k, slots, acts))
            && (AtRisk(k, Stopped(k, slots, acts)) <==> AtRisk(k, s))
  {
    hide AtRisk, Linked;
    var s := Exec(k, Start(slots), acts);
    StartLinked(k, slots);
    RunLinked(k, Start(slots), acts);
    ExecAppend(k, Start(slots), acts, [SetFinished]);
    assert [SetFinished][1..] == [] && Exec(k, s, [SetFinished]) == s.(running := false);
    StepKeepsLinked(k, s, SetFinished);
    StopKeepsRisk(k, s);
  }

  /** The join is sure to return exactly when the stop does not come in a state at
      risk.  For every run before the stop: in a state at risk, and in no other,
      some continuation leads to where no continuation ends the thread. */
  lemma {:induction false} SureJoinIsExact(k: Config, slots: seq<LogEntry>, acts: seq<Action>)
    requires k.Valid() && |slots| == k.capacity
    ensures AtRisk(k, Exec(k, Start(slots), acts)) <==>
              exists more :: NeverFinishes(k, Exec(k, Stopped(k, slots, acts), more))
  {
    hide AtRisk, Exec, NeverFinishes, Stopped;
    StopOfRun(k, slots, acts);
    RiskIsExact(k, Stopped(k, slots, acts));
  }

  /** And when it is sure, it is so within 13 moves of the consumer and of the push
      in flight, one of which is possible until the thread has ended. */
  lemma {:induction false} SureJoinIsBounded(k: Config, slots: seq<LogEntry>, acts: seq<Action>, more: seq<Action>)
    requires k.Valid() && |slots| == k.capacity && !AtRisk(k, Exec(k, Start(slots), acts))
    ensures var s := Stopped(k, slots, acts);
            && Moves(k, s, more) <= MOST_MOVES
            && (Exec(k, s, more).consumer.Finished? || exists a :: IsMove(k, Exec(k, s, more), a))
  {
    hide AtRisk, Exec, IsMove, Moves, Stopped;
    StopOfRun(k, slots, acts);
    SafeStopEnds(k, Stopped(k, slots, acts), more);
  }
}
