/** What `set_finished` brings about: how much can still happen after it, and
    the consumer thread that can no longer end. */
module QueueShutdown {
  import opened Words
  import opened LogEntries
  import opened Ring
  import opened QueueSteps
  import opened QueueSafety
  import opened QueueRuns
  import opened QueueBlocking

  // A push, or a pop, past its last look at is_running
  ghost function PushInFlight(s: State): nat {
    if s.producer.WriteSlot? || s.producer.Publish? then 1 else 0
  }

  ghost function PopInFlight(s: State): nat {
    if s.consumer.CopySlot? || s.consumer.Release? then 1 else 0
  }

  ghost predicate SameRing(s: State, t: State) {
    s.slots == t.slots && s.head == t.head && s.accepted == t.accepted
  }

  // t may follow s once the queue is stopped
  ghost predicate StoppedBefore(s: State, t: State) {
    && !t.running
    && (s.producer.Idle? ==> t.producer.Idle?)
    && |t.accepted| + PushInFlight(t) <= |s.accepted| + PushInFlight(s)
    && |t.popped| + PopInFlight(t) <= |s.popped| + PopInFlight(s)
    && (PushInFlight(s) == 0 ==> SameRing(s, t))
    && (PopInFlight(s) == 0 ==> s.tail == t.tail && s.popped == t.popped)
  }

  lemma StoppedStep(k: Config, s: State, a: Action)
    requires k.capacity >= 1 && !s.running
    ensures StoppedBefore(s, Step(k, s, a))
  {
    hide ProducerStep, ConsumerStep;
    match a
    case Produce(view) => StoppedProduce(k, s, view);
    case Consume(view, latest) => StoppedConsume(k, s, view, latest);
    case _ =>
  }

  lemma StoppedProduce(k: Config, s: State, view: nat)
    requires k.capacity >= 1 && !s.running
    ensures StoppedBefore(s, ProducerStep(k, s, view))
  {
    hide Next;
  }

  lemma StoppedConsume(k: Config, s: State, view: nat, latest: bool)
    requires k.capacity >= 1 && !s.running
    ensures StoppedBefore(s, ConsumerStep(k, s, view, latest))
  {
    hide Next;
    match s.consumer
    case Release(_, _, _) =>
    case CopySlot(_, _) =>
    case Refused(_) =>
    case _ =>
  }

  /** Once `set_finished` has stored false no push begins, and at most one more push
      and one more pop take effect; when neither is in flight, slots, head and tail
      are final. */
  lemma {:induction false} ShutdownBound(k: Config, s: State, acts: seq<Action>)
    requires k.capacity >= 1 && !s.running
    ensures StoppedBefore(s, Exec(k, s, acts))
    decreases |acts|
  {
    if acts != [] {
      StoppedStep(k, s, acts[0]);
      ShutdownBound(k, Step(k, s, acts[0]), acts[1..]);
    }
  }

  // ---- The loop after the main one ----

  // It is entered stopped, and does not get past its first look at is_running.
  ghost predicate DrainIsIdle(s: State) {
    Drains(s.consumer) ==> !s.running && (s.consumer.Enter? || s.consumer.Refused? || s.consumer.Finished?)
  }

  lemma DrainIsIdleStep(k: Config, s: State, a: Action)
    requires k.capacity >= 1 && DrainIsIdle(s)
    ensures DrainIsIdle(Step(k, s, a))
    ensures var t := Step(k, s, a);
            && (Drains(s.consumer) ==> t.popped == s.popped)
            && (t.consumer.Finished? && !s.consumer.Finished? ==> s.consumer == Refused(FromDrain))
  {
    hide Next;
    match a
    case Produce(view) => hide Drains;
    case Consume(view, latest) => DrainIsIdleConsume(k, s, view, latest);
    case _ =>
  }

  lemma DrainIsIdleConsume(k: Config, s: State, view: nat, latest: bool)
    requires k.capacity >= 1 && DrainIsIdle(s)
    ensures DrainIsIdle(ConsumerStep(k, s, view, latest))
    ensures var t := ConsumerStep(k, s, view, latest);
            && (Drains(s.consumer) ==> t.popped == s.popped)
            && (t.consumer.Finished? && !s.consumer.Finished? ==> s.consumer == Refused(FromDrain))
  {
    hide Next;
    match s.consumer
    case Refused(_) =>
    case Enter(_) =>
    case Confirm(_, _) =>
    case _ =>
  }

  lemma {:induction false} RunDrainIsIdle(k: Config, s: State, acts: seq<Action>)
    requires k.capacity >= 1 && DrainIsIdle(s)
    ensures DrainIsIdle(Exec(k, s, acts))
    decreases |acts|
  {
    hide Step, DrainIsIdle;
    if acts != [] {
      DrainIsIdleStep(k, s, acts[0]);
      RunDrainIsIdle(k, Step(k, s, acts[0]), acts[1..]);
    }
  }

  /** The loop after the main one is there to pop what the stop has left, but `pop`
      refuses once the queue is stopped: in no run does that loop pop anything, and
      the thread ends by the refusal of its first pop and in no other way. */
  lemma {:induction false} DrainPopsNothing(k: Config, slots: seq<LogEntry>, acts: seq<Action>, a: Action)
    requires k.capacity >= 1
    ensures var s := Exec(k, Start(slots), acts);
            var t := Step(k, s, a);
            && (Drains(s.consumer) ==> !s.running && t.popped == s.popped)
            && (t.consumer.Finished? && !s.consumer.Finished? ==> s.consumer == Refused(FromDrain))
  {
    hide Step;
    RunDrainIsIdle(k, Start(slots), acts);
    DrainIsIdleStep(k, Exec(k, Start(slots), acts), a);
  }

  // ---- Whether the consumer thread of a stopped queue can end ----

  // On its way from the pop before `head.wait` into it, or in it
  ghost predicate HeadsForWait(c: Consumer) {
    || c.Wait? || c.Blocked?
    || ((c.Enter? || c.TakeTail? || c.TestEmpty? || c.Confirm? || c.Refused?) && c.caller.BeforeWait?)
  }

  ghost function Awaited(c: Consumer): nat
    requires HeadsForWait(c)
  {
    if c.Wait? || c.Blocked? then c.seen else c.caller.seen
  }

  ghost predicate WaitsForHead(k: Config, s: State)
    requires k.capacity >= 1
  {
    || (HeadsForWait(s.consumer) && s.head == Awaited(s.consumer) % k.capacity)
    || (s.consumer.Snapshot? && s.headSeen == |s.accepted|)
  }

  // Bound to wait for a change of `head`, with no push left to change it
  ghost predicate Doomed(k: Config, s: State)
    requires k.capacity >= 1
  {
    PushInFlight(s) == 0 && WaitsForHead(k, s)
  }

  ghost predicate NeverFinishes(k: Config, s: State)
    requires k.capacity >= 1
  {
    forall more :: !Exec(k, s, more).consumer.Finished?
  }

  lemma DoomedStep(k: Config, s: State, a: Action)
    requires Linked(k, s) && !s.running && Doomed(k, s)
    ensures !Step(k, s, a).running && Doomed(k, Step(k, s, a))
  {
    hide Next;
    match a
    case Consume(view, latest) =>
      hide Shape;
    case _ =>
  }

  lemma {:induction false} DoomedForever(k: Config, s: State, acts: seq<Action>)
    requires Linked(k, s) && !s.running && Doomed(k, s)
    ensures Doomed(k, Exec(k, s, acts))
    decreases |acts|
  {
    hide Step, Doomed;
    if acts != [] {
      DoomedStep(k, s, acts[0]);
      StepKeepsLinked(k, s, acts[0]);
      DoomedForever(k, Step(k, s, acts[0]), acts[1..]);
    }
  }

  // The next step towards the end of the consumer thread
  ghost function Remedy(k: Config, s: State): Action
    requires k.capacity >= 1
  {
    if WaitsForHead(k, s) || s.consumer.Blocked? then Produce(0)
    else if s.consumer.Snapshot? && s.accepted != [] then Consume(|s.accepted| - 1, true)
    else Consume(|s.accepted|, true)
  }

  // Steps the push under way has left up to its notification
  ghost function PushLeft(p: Producer): nat {
    match p
    case WriteSlot(_, _) => 3
    case Publish(_, _) => 2
    case Notify => 1
    case _ => 0
  }

  // What a stopped consumer has left from the refusal of a pop on
  ghost function CallerLeft(c: Caller): nat {
    match c
    case FromDrain => 1
    case FromLoop => 4
    case BeforeWait(_) => 5
  }

  // A bound on the steps of a stopped consumer up to its end
  ghost function ConsumerLeft(c: Consumer): nat {
    match c
    case Finished => 0
    case Refused(caller) => CallerLeft(caller)
    case Enter(caller) => if caller.FromLoop? then 3 else CallerLeft(caller) + 1
    case Confirm(caller, _) => CallerLeft(caller) + 1
    case TestEmpty(caller, _) => CallerLeft(caller) + 2
    case Measure(caller) => CallerLeft(caller) + 2
    case TakeTail(caller) => CallerLeft(caller) + 3
    case CountPop(caller) => CallerLeft(caller) + 3
    case Release(caller, _, _) => CallerLeft(caller) + 4
    case CopySlot(caller, _) => CallerLeft(caller) + 5
    case Wait(_) => 4
    case Blocked(_) => 4
    case Snapshot => 9
  }

  ghost predicate Nearer(s: State, t: State) {
    || PushLeft(t.producer) < PushLeft(s.producer)
    || (PushLeft(t.producer) == PushLeft(s.producer) && ConsumerLeft(t.consumer) < ConsumerLeft(s.consumer))
  }

  // A push in flight changes the head the consumer waits for, or wakes it.
  lemma PushHelps(k: Config, s: State)
    requires Linked(k, s) && !s.running && !Doomed(k, s) && (WaitsForHead(k, s) || s.consumer.Blocked?)
    ensures var t := Step(k, s, Produce(0)); !t.running && !Doomed(k, t) && Nearer(s, t)
  {
    hide Next;
    if s.producer.Publish? { NextIs(s.head, k.capacity); }
  }

  // An older head store makes the consumer pass `head.wait`.
  lemma OldHeadHelps(k: Config, s: State)
    requires Linked(k, s) && !s.running && !WaitsForHead(k, s) && s.consumer.Snapshot?
    ensures s.accepted != []
    ensures var t := Step(k, s, Consume(|s.accepted| - 1, true)); !t.running && !Doomed(k, t) && Nearer(s, t)
  {
    hide Next;
    ModDistinct(|s.accepted| - 1, |s.accepted|, k.capacity);
  }

  lemma ConsumerGoesOn(k: Config, s: State)
    requires Linked(k, s) && !s.running && !WaitsForHead(k, s)
    requires !s.consumer.Snapshot? && !s.consumer.Blocked? && !s.consumer.Finished?
    ensures var t := Step(k, s, Consume(|s.accepted|, true)); !t.running && !Doomed(k, t) && Nearer(s, t)
  {
    hide Next;
  }

  lemma RemedyHelps(k: Config, s: State)
    requires Linked(k, s) && !s.running && !Doomed(k, s) && !s.consumer.Finished?
    ensures var t := Step(k, s, Remedy(k, s)); !t.running && !Doomed(k, t) && Nearer(s, t)
  {
    hide Step, Doomed;
    if WaitsForHead(k, s) || s.consumer.Blocked? {
      PushHelps(k, s);
    } else if s.consumer.Snapshot? {
      OldHeadHelps(k, s);
    } else {
      ConsumerGoesOn(k, s);
    }
  }

  lemma {:induction false} CanFinish(k: Config, s: State) returns (acts: seq<Action>)
    requires Linked(k, s) && !s.running && !Doomed(k, s)
    ensures Exec(k, s, acts).consumer.Finished?
    decreases PushLeft(s.producer), ConsumerLeft(s.consumer)
  {
    hide Step, Remedy, Doomed;
    if s.consumer.Finished? {
      acts := [];
    } else {
      var a := Remedy(k, s);
      RemedyHelps(k, s);
      StepKeepsLinked(k, s, a);
      var rest := CanFinish(k, Step(k, s, a));
      acts := [a] + rest;
      assert acts[1..] == rest;
    }
  }

  lemma StopIsExact(k: Config, s: State)
    requires Linked(k, s) && !s.running
    ensures NeverFinishes(k, s) <==> Doomed(k, s)
  {
    hide Exec;
    if Doomed(k, s) {
      forall more ensures !Exec(k, s, more).consumer.Finished? {
        DoomedForever(k, s, more);
      }
    } else {
      var acts := CanFinish(k, s);
    }
  }

  /** `set_finished` stores without notifying.  Whatever the run before it, the
      consumer thread can still end exactly when the stop does not find it bound
      to wait for the present head with no push past its last look at
      is_running; and if it does find it so, no continuation ends the thread. */
  lemma {:induction false} JoinIsExact(k: Config, slots: seq<LogEntry>, acts: seq<Action>)
    requires k.Valid() && |slots| == k.capacity
    ensures NeverFinishes(k, Exec(k, Start(slots), acts + [SetFinished])) <==> Doomed(k, Exec(k, Start(slots), acts))
  {
    hide NeverFinishes;
    var s := Exec(k, Start(slots), acts);
    StartLinked(k, slots);
    RunLinked(k, Start(slots), acts);
    ExecAppend(k, Start(slots), acts, [SetFinished]);
    assert [SetFinished][1..] == [] && Exec(k, s, [SetFinished]) == s.(running := false);
    StepKeepsLinked(k, s, SetFinished);
    StopIsExact(k, s.(running := false));
  }

  /** Such a stop is reached on an idle queue: no log ever arrives, the consumer
      goes to sleep, the engine stops, and the consumer thread never ends. */
  lemma StopMayNeverJoin(k: Config, slots: seq<LogEntry>) returns (acts: seq<Action>)
    requires k.Valid() && |slots| == k.capacity
    ensures forall a <- acts :: a.Consume?
    ensures NeverFinishes(k, Exec(k, Start(slots), acts + [SetFinished]))
  {
    hide Next, Step, Times;
    var a, s := Consume(0, true), Start(slots);
    StartGood(k, slots);
    SleepsAfter500(k, s);
    RepeatIsTimes(k, s, a, 2010);
    acts := seq(2010, _ => a);
    SmallMod(0, k.capacity);
    JoinIsExact(k, slots, acts);
  }
}
