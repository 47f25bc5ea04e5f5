/** The telemetry counters, shared by the queues of all threads. */
module EngineTelemetry {
  import opened Words
  import Ring
  import opened LogEntries
  import opened QueueSteps
  import opened QueueSafety
  import opened QueueRuns

  datatype Engine = Engine(queues: seq<State>, pushed: nat, eliminated: nat)

  datatype Event = Event(queue: nat, action: Action)

  function EngineStep(k: Config, g: Engine, v: Event): Engine
    requires k.capacity >= 1
  {
    if v.queue >= |g.queues| then g
    else
      var s := g.queues[v.queue];
      Engine(g.queues[v.queue := Step(k, s, v.action)],
             if v.action.Produce? && s.producer.CountPush? then WrapAdd(g.pushed, 1) else g.pushed,
             if v.action.Consume? && s.consumer.CountPop? then WrapAdd(g.eliminated, 1) else g.eliminated)
  }

  function EngineExec(k: Config, g: Engine, run: seq<Event>): Engine
    requires k.capacity >= 1
    decreases |run|
  {
    if run == [] then g else EngineExec(k, EngineStep(k, g, run[0]), run[1..])
  }

  // The entries of one queue whose push has been counted
  ghost function CountedPushes(s: State): int {
    |s.accepted| - if s.producer.Notify? || s.producer.CountPush? then 1 else 0
  }

  // And those whose pop has been
  ghost function CountedPops(s: State): int {
    |s.popped| - if s.consumer.CountPop? then 1 else 0
  }

  ghost function AllPushes(queues: seq<State>): int {
    if queues == [] then 0 else CountedPushes(queues[0]) + AllPushes(queues[1..])
  }

  ghost function AllPops(queues: seq<State>): int {
    if queues == [] then 0 else CountedPops(queues[0]) + AllPops(queues[1..])
  }

  lemma {:induction false} SumsUpdate(queues: seq<State>, i: nat, s: State)
    requires i < |queues|
    ensures AllPushes(queues[i := s]) == AllPushes(queues) - CountedPushes(queues[i]) + CountedPushes(s)
    ensures AllPops(queues[i := s]) == AllPops(queues) - CountedPops(queues[i]) + CountedPops(s)
  {
    hide CountedPushes, CountedPops;
    if i == 0 {
      assert queues[i := s][1..] == queues[1..];
    } else {
      SumsUpdate(queues[1..], i - 1, s);
      assert queues[i := s][1..] == queues[1..][i - 1 := s];
    }
  }

  lemma CountedProduce(k: Config, s: State, view: nat)
    requires k.capacity >= 1
    ensures var t := ProducerStep(k, s, view);
            && CountedPushes(t) == CountedPushes(s) + (if s.producer.CountPush? then 1 else 0)
            && CountedPops(t) == CountedPops(s)
  {
    hide Ring.Next;
    match s.producer
    case Publish(_, _) =>
    case Notify =>
    case CountPush =>
    case _ =>
  }

  lemma CountedConsume(k: Config, s: State, view: nat, latest: bool)
    requires k.capacity >= 1
    ensures var t := ConsumerStep(k, s, view, latest);
            && CountedPops(t) == CountedPops(s) + (if s.consumer.CountPop? then 1 else 0)
            && CountedPushes(t) == CountedPushes(s)
  {
    hide Ring.Next;
    match s.consumer
    case Release(_, _, _) =>
    case CountPop(_) =>
    case _ =>
  }

  lemma CountedStep(k: Config, s: State, a: Action)
    requires k.capacity >= 1
    ensures var t := Step(k, s, a);
            && CountedPushes(t) == CountedPushes(s) + (if a.Produce? && s.producer.CountPush? then 1 else 0)
            && CountedPops(t) == CountedPops(s) + (if a.Consume? && s.consumer.CountPop? then 1 else 0)
  {
    hide ProducerStep, ConsumerStep;
    match a
    case Produce(view) => CountedProduce(k, s, view);
    case Consume(view, latest) => CountedConsume(k, s, view, latest);
    case _ =>
  }

  // The two counters, each modulo 2^64
  ghost predicate CountersExact(g: Engine) {
    && g.pushed == AllPushes(g.queues) % 0x1_0000_0000_0000_0000
    && g.eliminated == AllPops(g.queues) % 0x1_0000_0000_0000_0000
  }

  lemma OneMoreCounted(counter: nat, n: int)
    requires counter == n % WORD
    ensures WrapAdd(counter, 1) == (n + 1) % WORD
  {
    assert n == WORD * (n / WORD) + counter;
    ModShift(counter + 1, WORD, n / WORD);
  }

  lemma StepCounts(k: Config, g: Engine, v: Event)
    requires k.capacity >= 1 && CountersExact(g)
    ensures CountersExact(EngineStep(k, g, v))
  {
    hide WrapAdd, Step, CountedPushes, CountedPops;
    if v.queue < |g.queues| {
      var s := g.queues[v.queue];
      CountedStep(k, s, v.action);
      SumsUpdate(g.queues, v.queue, Step(k, s, v.action));
      OneMoreCounted(g.pushed, AllPushes(g.queues));
      OneMoreCounted(g.eliminated, AllPops(g.queues));
    }
  }

  lemma {:induction false} RunCounts(k: Config, g: Engine, run: seq<Event>)
    requires k.capacity >= 1 && CountersExact(g)
    ensures CountersExact(EngineExec(k, g, run))
    decreases |run|
  {
    hide EngineStep, CountersExact;
    if run != [] {
      StepCounts(k, g, run[0]);
      RunCounts(k, EngineStep(k, g, run[0]), run[1..]);
    }
  }

  // What a run of the engine does to one queue
  function Of(run: seq<Event>, i: nat): seq<Action> {
    if run == [] then []
    else (if run[0].queue == i then [run[0].action] else []) + Of(run[1..], i)
  }

  lemma {:induction false} QueueOfEngine(k: Config, g: Engine, run: seq<Event>, i: nat)
    requires k.capacity >= 1 && i < |g.queues|
    ensures |EngineExec(k, g, run).queues| == |g.queues| && EngineExec(k, g, run).queues[i] == Exec(k, g.queues[i], Of(run, i))
    decreases |run|
  {
    if run != [] {
      QueueOfEngine(k, EngineStep(k, g, run[0]), run[1..], i);
      if run[0].queue == i {
        assert Of(run, i)[1..] == Of(run[1..], i);
      } else {
        assert Of(run, i) == Of(run[1..], i);
      }
    }
  }

  lemma {:induction false} NothingCounted(queues: seq<State>)
    requires forall s <- queues :: s == Start(s.slots)
    ensures AllPushes(queues) == 0 && AllPops(queues) == 0
  {
    if queues != [] {
      assert queues[0] in queues;
      NothingCounted(queues[1..]);
    }
  }

  // What head and tail show of the entries accepted and not popped
  ghost predicate IndicesAgree(k: Config, s: State) {
    && Shape(k, s)
    && Ring.Count(s.head, s.tail, k.capacity) == (|s.accepted| - |s.popped|) % k.capacity
    && (!s.overrun ==> Ring.Count(s.head, s.tail, k.capacity) == |s.accepted| - |s.popped|)
  }

  lemma {:induction false} IndicesOfRun(k: Config, slots: seq<LogEntry>, acts: seq<Action>)
    requires k.Valid() && |slots| == k.capacity
    ensures IndicesAgree(k, Exec(k, Start(slots), acts))
  {
    hide And, IsPow2;
    var s := Exec(k, Start(slots), acts);
    StartLinked(k, slots);
    RunLinked(k, Start(slots), acts);
    MaskedSub(s.head, s.tail, k.capacity);
    ModSub(|s.accepted|, |s.popped|, k.capacity);
    PoppedIsPrefix(k, slots, acts);
  }

  /** Conservation across all queues and interleavings, with or without overrun.
      Each counter is exact modulo 2^64: `pushed` counts the entries accepted, less
      the pushes that have stored the head but not yet been counted, and
      `eliminated` the entries popped, less the pops that have stored the tail but
      not yet been counted.  The indices of a queue show the entries accepted and
      not popped modulo the capacity, and exactly while it has not been overrun. */
  lemma {:induction false} TelemetryConservation(k: Config, queues: seq<State>, run: seq<Event>)
    requires k.Valid()
    requires forall s <- queues :: s == Start(s.slots) && |s.slots| == k.capacity
    ensures var r := EngineExec(k, Engine(queues, 0, 0), run);
            && CountersExact(r)
            && |r.queues| == |queues|
            && forall s <- r.queues :: IndicesAgree(k, s)
  {
    hide Exec, IndicesAgree;
    var g := Engine(queues, 0, 0);
    var r := EngineExec(k, g, run);
    NothingCounted(queues);
    SmallMod(0, WORD);
    RunCounts(k, g, run);
    EngineKeepsQueues(k, g, run);
    forall s <- r.queues ensures IndicesAgree(k, s) {
      var i :| 0 <= i < |r.queues| && r.queues[i] == s;
      QueueOfEngine(k, g, run, i);
      assert queues[i] in queues;
      IndicesOfRun(k, queues[i].slots, Of(run, i));
    }
  }

  lemma {:induction false} EngineKeepsQueues(k: Config, g: Engine, run: seq<Event>)
    requires k.capacity >= 1
    ensures |EngineExec(k, g, run).queues| == |g.queues|
    decreases |run|
  {
    if run != [] { EngineKeepsQueues(k, EngineStep(k, g, run[0]), run[1..]); }
  }
}
