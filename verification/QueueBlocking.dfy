/** The spin loop of the blocking profiles.  It tests `head == tail` instead of
    the full condition: on a full ring it is left at once, and on an empty one
    it is never left. */
module QueueBlocking {
  import opened Words
  import opened LogEntries
  import opened Ring
  import opened QueueSteps
  import opened QueueSafety
  import opened QueueRuns

  // The state after one pop with nothing in between that reads the head as it is
  function Popped(k: Config, s: State): State
    requires k.capacity >= 1 && |s.popped| < |s.accepted|
  {
    s.(tail := Next(s.tail, k.capacity), popped := s.popped + [s.accepted[|s.popped|]],
       headSeen := |s.accepted|, consumer := Enter(FromLoop))
  }

  lemma SeesEntry(k: Config, s: State, h: nat, n: nat)
    requires k.capacity >= 1 && s.consumer == Enter(FromLoop) && s.running && n >= 4
    requires HeadView(s, h) && s.tail != h % k.capacity
    ensures Times(k, s, Consume(h, true), n)
            == Times(k, s.(headSeen := h, consumer := CopySlot(FromLoop, s.tail)), Consume(h, true), n - 4)
  {
    var a := Consume(h, true);
    var s2 := s.(consumer := TestEmpty(FromLoop, s.tail));
    var s3 := s.(headSeen := h, consumer := Confirm(FromLoop, s.tail));
    assert Times(k, s, a, n) == Times(k, s2, a, n - 2);
    assert Times(k, s2, a, n - 2) == Times(k, s3, a, n - 3);
  }

  lemma {:induction false} UpToCopy(k: Config, s: State, n: nat)
    requires Good(k, s) && s.consumer == Enter(FromLoop) && s.running && |s.popped| < |s.accepted| && n >= 5
    ensures var a, e := Consume(|s.accepted|, true), s.accepted[|s.popped|];
            Times(k, s, a, n) == Times(k, s.(headSeen := |s.accepted|, consumer := Release(FromLoop, s.tail, e)), a, n - 5)
  {
    hide Next;
    var a, h, e := Consume(|s.accepted|, true), |s.accepted|, s.accepted[|s.popped|];
    ModDistinct(|s.popped|, h, k.capacity);
    assert s.slots[|s.popped| % k.capacity] == e;
    SeesEntry(k, s, h, n);
    var s4 := s.(headSeen := h, consumer := CopySlot(FromLoop, s.tail));
    assert Times(k, s4, a, n - 4) == Times(k, s.(headSeen := h, consumer := Release(FromLoop, s.tail, e)), a, n - 5);
  }

  lemma {:induction false} PopAloneOutcome(k: Config, s: State)
    requires Good(k, s) && s.consumer == Enter(FromLoop) && s.running && |s.popped| < |s.accepted|
    ensures Times(k, s, Consume(|s.accepted|, true), 8) == Popped(k, s)
  {
    hide Next, ConsumerStep, Filled;
    var e := s.accepted[|s.popped|];
    UpToCopy(k, s, 8);
    LeavesTheSlot(k, s.(headSeen := |s.accepted|, consumer := Release(FromLoop, s.tail, e)), e);
  }

  lemma {:induction false} LeavesTheSlot(k: Config, s: State, e: LogEntry)
    requires k.capacity >= 1 && s.consumer == Release(FromLoop, s.tail, e) && s.headSeen == |s.accepted|
    ensures Times(k, s, Consume(|s.accepted|, true), 3)
            == s.(tail := Next(s.tail, k.capacity), popped := s.popped + [e], consumer := Enter(FromLoop))
  {
    hide Next;
  }

  lemma {:induction false} ConsumingKeepsGood(k: Config, s: State, view: nat, n: nat)
    requires k.capacity >= 1 && Good(k, s)
    ensures Good(k, Times(k, s, Consume(view, true), n))
    decreases n
  {
    hide Good;
    if n > 0 {
      ConsumerKeepsGood(k, s, view, true);
      ConsumingKeepsGood(k, Step(k, s, Consume(view, true)), view, n - 1);
    }
  }

  /** The atomic steps of an undisturbed pop add up to the sequential pop. */
  lemma {:induction false} PopAloneIsSequential(k: Config, s: State)
    requires Good(k, s) && s.consumer == Enter(FromLoop) && s.running && |s.popped| < |s.accepted|
    ensures var t, e := Times(k, s, Consume(|s.accepted|, true), 8), s.accepted[|s.popped|];
            && t == Popped(k, s) && Good(k, t)
            && Held(s.slots, s.head, s.tail) == [e] + Held(t.slots, t.head, t.tail)
  {
    hide Next, Step;
    PopAloneOutcome(k, s);
    ConsumingKeepsGood(k, s, |s.accepted|, 8);
    HeldIsPending(k, s);
    HeldIsPending(k, Popped(k, s));
  }

  // A producer in its spin loop, with the queue empty and the tail seen as it is
  ghost predicate Stalled(k: Config, s: State) {
    && Good(k, s) && !s.overrun
    && s.producer.SpinFull?
    && |s.accepted| == |s.popped| == s.tailSeen
  }

  /** Such a producer spins for ever: the queue is empty, so the consumer has
      nothing to pop, and without a pop the tail never moves. */
  lemma {:induction false} StalledForever(k: Config, s: State, acts: seq<Action>)
    requires Stalled(k, s)
    ensures Stalled(k, Exec(k, s, acts))
    decreases |acts|
  {
    if acts != [] {
      StalledStep(k, s, acts[0]);
      StalledForever(k, Step(k, s, acts[0]), acts[1..]);
    }
  }

  lemma StalledStep(k: Config, s: State, a: Action)
    requires Stalled(k, s)
    ensures Stalled(k, Step(k, s, a))
  {
    hide Next;
    StepKeepsGood(k, s, a);
  }

  /** And only such a producer: any other spinning producer of a run without
      overrun has a continuation that takes it out of the loop. */
  lemma {:induction false} StalledIsExact(k: Config, s: State)
    requires Good(k, s) && !s.overrun && s.producer.SpinFull?
    ensures Stalled(k, s) <==> forall acts :: Exec(k, s, acts).producer.SpinFull?
  {
    hide Filled, Exec, Stalled;
    if Stalled(k, s) {
      forall acts ensures Exec(k, s, acts).producer.SpinFull? {
        StalledForever(k, s, acts);
        SpinsWhenStalled(k, Exec(k, s, acts));
      }
    } else {
      var acts := LeavesSpin(k, s);
    }
  }

  lemma SpinsWhenStalled(k: Config, s: State)
    requires Stalled(k, s)
    ensures s.producer.SpinFull?
  {
  }

  // One look at a tail store that differs from the head
  lemma LeavesSpin(k: Config, s: State) returns (acts: seq<Action>)
    requires Good(k, s) && !s.overrun && s.producer.SpinFull? && !Stalled(k, s)
    ensures !Exec(k, s, acts).producer.SpinFull?
  {
    hide Next, Filled;
    var view := if |s.popped| < |s.accepted| then |s.popped| else |s.popped| - 1;
    ModDistinct(view, |s.accepted|, k.capacity);
    acts := [Produce(view)];
    assert acts[1..] == [] && Exec(k, s, acts) == Step(k, s, acts[0]);
  }

  // ---- Which entries can bring a producer there ----

  ghost predicate NeverWaits(k: Config, acts: seq<Action>) {
    forall a <- acts :: a.Push? ==> !WaitsWhenFull(k.profile, a.entry)
  }

  ghost predicate Brisk(k: Config, p: Producer) {
    && !p.SpinFull?
    && (p.TakeHead? || p.TestFull? ==> !WaitsWhenFull(k.profile, p.e))
  }

  /** A run whose pushes do not wait on a full ring never enters the spin loop. */
  lemma {:induction false} RunNeverSpins(k: Config, s: State, acts: seq<Action>)
    requires k.capacity >= 1 && Brisk(k, s.producer) && NeverWaits(k, acts)
    ensures Brisk(k, Exec(k, s, acts).producer)
    decreases |acts|
  {
    hide Next;
    if acts != [] {
      assert acts[0] in acts;
      BriskStep(k, s, acts[0]);
      RunNeverSpins(k, Step(k, s, acts[0]), acts[1..]);
    }
  }

  /** By profile: the spin loop is never entered under `DropAll` and
      `PassCriticalDropElse`, nor under `DropNonCritical` without critical entries. */
  lemma {:induction false} NoSpinByProfile(k: Config, slots: seq<LogEntry>, acts: seq<Action>)
    requires k.capacity >= 1
    requires || k.profile in {DropAll, PassCriticalDropElse}
             || (k.profile == DropNonCritical && forall a <- acts :: a.Push? ==> a.entry.level != Critical)
    ensures !Exec(k, Start(slots), acts).producer.SpinFull?
  {
    RunNeverSpins(k, Start(slots), acts);
  }

  lemma BriskStep(k: Config, s: State, a: Action)
    requires k.capacity >= 1 && Brisk(k, s.producer) && (a.Push? ==> !WaitsWhenFull(k.profile, a.entry))
    ensures Brisk(k, Step(k, s, a).producer)
  {
    hide Next;
    if a.Consume? {
      hide ConsumerStep;
      ConsumerHistory(k, s, a.view, a.latest);
    }
  }

  lemma {:induction false} PopAll(k: Config, s: State) returns (acts: seq<Action>)
    requires Good(k, s) && !s.overrun && s.running && s.consumer == Enter(FromLoop)
    ensures forall a <- acts :: a.Consume?
    ensures var t := Exec(k, s, acts);
            Good(k, t) && !t.overrun && t.accepted == s.accepted && |t.popped| == |t.accepted| && t.producer == s.producer
    decreases |s.accepted| - |s.popped|
  {
    if |s.accepted| == |s.popped| {
      acts := [];
    } else {
      PopAloneIsSequential(k, s);
      var a := Consume(|s.accepted|, true);
      RepeatIsTimes(k, s, a, 8);
      var rest := PopAll(k, Popped(k, s));
      acts := seq(8, _ => a) + rest;
      ExecAppend(k, s, seq(8, _ => a), rest);
    }
  }

  // ---- Progress while the queue runs ----

  // Steps of calls under way: no new push, and no stop
  ghost predicate OnlySteps(acts: seq<Action>) {
    forall a <- acts :: a.Consume? || a.Produce?
  }

  // The next step of a consumer with something to pop, or the notification it sleeps for
  ghost function Nudge(s: State): Action {
    if s.consumer.Blocked? then Produce(0) else Consume(|s.accepted|, true)
  }

  // Steps up to the head of the main loop, with entries to pop
  ghost function StepsToLoop(c: Consumer): nat {
    match c
    case Enter(caller) => if caller.FromLoop? then 0 else 8
    case Measure(_) => 1
    case CountPop(_) => 2
    case Release(_, _, _) => 3
    case CopySlot(_, _) => 4
    case Confirm(_, _) => 5
    case TestEmpty(_, _) => 6
    case TakeTail(_) => 7
    case Snapshot => 9
    case Refused(caller) => if caller.FromLoop? then 10 else 2
    case Wait(_) => 1
    case Blocked(_) => 2
    case Finished => 0
  }

  lemma NudgeHelps(k: Config, s: State)
    requires Good(k, s) && !s.overrun && s.running && |s.popped| < |s.accepted| && s.consumer != Enter(FromLoop)
    ensures var t := Step(k, s, Nudge(s));
            t.running && !t.overrun && t.accepted == s.accepted && StepsToLoop(t.consumer) < StepsToLoop(s.consumer)
  {
    hide Next, Filled;
    ModDistinct(|s.popped|, |s.accepted|, k.capacity);
    match s.consumer
    case Refused(FromLoop) =>
    case Refused(BeforeWait(_)) =>
    case TestEmpty(_, _) =>
    case Blocked(_) =>
    case _ =>
  }

  /** Progress: from every state of a running queue without overrun, the consumer's
      steps, with the notification it may sleep for, can pop all that is accepted. */
  lemma {:induction false} CanPopAll(k: Config, s: State) returns (acts: seq<Action>)
    requires Good(k, s) && !s.overrun && s.running
    ensures OnlySteps(acts)
    ensures var t := Exec(k, s, acts); Good(k, t) && !t.overrun && t.popped == t.accepted == s.accepted
    decreases StepsToLoop(s.consumer)
  {
    hide Next, Step, Nudge, Filled;
    if |s.popped| == |s.accepted| {
      acts := [];
    } else if s.consumer == Enter(FromLoop) {
      acts := PopAll(k, s);
    } else {
      var a := Nudge(s);
      NudgeHelps(k, s);
      StepKeepsGood(k, s, a);
      var rest := CanPopAll(k, Step(k, s, a));
      acts := [a] + rest;
      assert acts[1..] == rest;
      NudgeIsAStep(s);
    }
  }

  lemma NudgeIsAStep(s: State)
    ensures Nudge(s).Consume? || Nudge(s).Produce?
  {
  }

  lemma {:induction false} RunCanPopAll(k: Config, slots: seq<LogEntry>, acts: seq<Action>)
    requires k.Valid() && |slots| == k.capacity
    ensures var s := Exec(k, Start(slots), acts);
            !s.overrun && s.running ==>
              exists more :: OnlySteps(more) && Exec(k, s, more).popped == s.accepted
  {
    hide Good;
    var s := Exec(k, Start(slots), acts);
    StartGood(k, slots);
    if !s.overrun && s.running {
      RunGood(k, Start(slots), acts);
      var more := CanPopAll(k, s);
    }
  }

  // ---- How the consumer goes to sleep ----

  // At the head of its loop, beside an empty queue
  ghost predicate Unoccupied(k: Config, s: State) {
    Good(k, s) && s.running && s.consumer == Enter(FromLoop) && |s.popped| == |s.accepted|
  }

  lemma {:induction false} FruitlessPop(k: Config, s: State)
    requires Unoccupied(k, s)
    ensures Times(k, s, Consume(|s.accepted|, true), 4)
            == if s.spins < 500 then s.(spins := s.spins + 1) else s.(consumer := Snapshot)
  {
    hide Next, Filled;
    var a := Consume(|s.accepted|, true);
    var s2 := s.(consumer := TestEmpty(FromLoop, s.tail));
    assert Times(k, s, a, 4) == Times(k, s2, a, 2);
    assert Step(k, s2, a) == s.(consumer := Refused(FromLoop));
  }

  lemma {:induction false} FruitlessPops(k: Config, s: State, n: nat)
    requires Unoccupied(k, s) && s.spins + n <= 500
    ensures Times(k, s, Consume(|s.accepted|, true), 4 * n) == s.(spins := s.spins + n)
    decreases n
  {
    if n > 0 {
      hide Times;
      var a := Consume(|s.accepted|, true);
      FruitlessPop(k, s);
      TimesAdd(k, s, a, 4, 4 * (n - 1));
      FruitlessPops(k, s.(spins := s.spins + 1), n - 1);
    } else {
      assert Times(k, s, Consume(|s.accepted|, true), 0) == s;
    }
  }

  // The load of the head, and the pop before the wait up to its tail test
  lemma {:induction false} LoadsHead(k: Config, s: State)
    requires k.capacity >= 1 && s.running && s.consumer == Snapshot && s.headSeen == |s.accepted|
    ensures Times(k, s, Consume(|s.accepted|, true), 3) == s.(consumer := TestEmpty(BeforeWait(|s.accepted|), s.tail))
  {
    hide Next;
    var a, h := Consume(|s.accepted|, true), |s.accepted|;
    assert Step(k, s, a) == s.(consumer := Enter(BeforeWait(h)));
    assert Times(k, s, a, 3) == Times(k, s.(consumer := Enter(BeforeWait(h))), a, 2);
  }

  // The tail test that fails, and the wait
  lemma {:induction false} Waits(k: Config, s: State, h: nat)
    requires k.capacity >= 1 && s.consumer == TestEmpty(BeforeWait(h), s.tail) && h == |s.accepted| == s.headSeen
    requires s.tail == s.head == h % k.capacity
    ensures Times(k, s, Consume(h, true), 3) == s.(consumer := Blocked(h))
  {
    hide Next;
    var a := Consume(h, true);
    assert Step(k, s, a) == s.(consumer := Refused(BeforeWait(h)));
    assert Times(k, s, a, 3) == Times(k, s.(consumer := Refused(BeforeWait(h))), a, 2);
  }

  lemma {:induction false} FallsAsleep(k: Config, s: State)
    requires Unoccupied(k, s.(consumer := Enter(FromLoop))) && s.consumer == Snapshot
    ensures Times(k, s, Consume(|s.accepted|, true), 6) == s.(consumer := Blocked(|s.accepted|))
  {
    hide Times, Filled, SleeperOk, ConsumerOk, ProducerOk;
    var h := |s.accepted|;
    LoadsHead(k, s);
    Waits(k, s.(consumer := TestEmpty(BeforeWait(h), s.tail)), h);
    TimesAdd(k, s, Consume(h, true), 3, 3);
  }

  /** Beside an empty queue a consumer makes 500 fruitless pops, one more to load
      the head it will wait for, and a last one before it sleeps. */
  lemma {:induction false} SleepsAfter500(k: Config, s: State)
    requires Unoccupied(k, s) && s.spins <= 500
    ensures forall n: nat :: n <= 500 - s.spins ==>
              Times(k, s, Consume(|s.accepted|, true), 4 * n) == s.(spins := s.spins + n)
    ensures Times(k, s, Consume(|s.accepted|, true), 4 * (500 - s.spins) + 4) == s.(spins := 500, consumer := Snapshot)
    ensures Times(k, s, Consume(|s.accepted|, true), 4 * (500 - s.spins) + 10)
            == s.(spins := 500, consumer := Blocked(|s.accepted|))
  {
    hide Times, Filled;
    var a, m := Consume(|s.accepted|, true), 500 - s.spins;
    forall n: nat | n <= m ensures Times(k, s, a, 4 * n) == s.(spins := s.spins + n) {
      FruitlessPops(k, s, n);
    }
    var t := s.(spins := 500);
    SpinsDoNotMatter(k, s, 500);
    FruitlessPop(k, t);
    TimesAdd(k, s, a, 4 * m, 4);
    FallsAsleep(k, t.(consumer := Snapshot));
    TimesAdd(k, s, a, 4 * m + 4, 6);
  }

  lemma SpinsDoNotMatter(k: Config, s: State, n: nat)
    requires Unoccupied(k, s)
    ensures Unoccupied(k, s.(spins := n))
  {
    assert Filled(k, s.(spins := n));
  }

  // On the way to sleep, or asleep
  ghost predicate GoesToSleep(c: Consumer) {
    || c.Snapshot? || c.Wait? || c.Blocked?
    || (!c.Finished? && c.caller.BeforeWait?)
  }

  // No wait without 500 fruitless pops since the last one
  ghost predicate SpunUp(s: State) {
    s.spins <= 500 && (GoesToSleep(s.consumer) ==> s.spins == 500)
  }

  /** In every run the consumer goes to sleep only after 500 fruitless pops, and
      begins to count anew when it wakes. */
  lemma {:induction false} SleepsOnlyAfter500(k: Config, s: State, acts: seq<Action>)
    requires k.capacity >= 1 && SpunUp(s)
    ensures SpunUp(Exec(k, s, acts))
    decreases |acts|
  {
    hide Step, SpunUp;
    if acts != [] {
      SpunUpStep(k, s, acts[0]);
      SleepsOnlyAfter500(k, Step(k, s, acts[0]), acts[1..]);
    }
  }

  lemma SpunUpStep(k: Config, s: State, a: Action)
    requires k.capacity >= 1 && SpunUp(s)
    ensures SpunUp(Step(k, s, a))
    ensures s.consumer.Wait? && Step(k, s, a).consumer == Enter(FromLoop) ==> Step(k, s, a).spins == 0
  {
    hide Next;
    match a
    case Consume(view, latest) => SpunUpConsume(k, s, view, latest);
    case _ =>
  }

  lemma SpunUpConsume(k: Config, s: State, view: nat, latest: bool)
    requires k.capacity >= 1 && SpunUp(s)
    ensures SpunUp(ConsumerStep(k, s, view, latest))
    ensures s.consumer.Wait? && ConsumerStep(k, s, view, latest).consumer == Enter(FromLoop)
            ==> ConsumerStep(k, s, view, latest).spins == 0
  {
    hide Next;
    match s.consumer
    case Refused(_) =>
    case Wait(_) =>
    case _ =>
  }

  // A push on a full ring, under a profile that waits
  lemma {:induction false} EntersSpin(k: Config, s: State, e: LogEntry)
    requires Good(k, s) && s.producer.Idle? && s.running && Next(s.head, k.capacity) == s.tail
    requires WaitsWhenFull(k.profile, e)
    ensures Exec(k, s, [Push(e), Produce(|s.popped|), Produce(|s.popped|)])
            == s.(producer := SpinFull(e, s.head), tailSeen := |s.popped|)
  {
    hide Next;
    var a := Produce(|s.popped|);
    var s1 := s.(producer := TakeHead(e));
    var s2 := s.(producer := TestFull(e, s.head));
    assert [Push(e), a, a][1..] == [a, a] && [a, a][1..] == [a] && [a][1..] == [];
    assert Step(k, s, Push(e)) == s1 && Step(k, s1, a) == s2;
    assert Exec(k, s, [Push(e), a, a]) == Exec(k, s1, [a, a]) == Exec(k, s2, [a]) == Step(k, s2, a);
  }

  /** And it gets there: the producer finds the ring full, the consumer empties
      it before the producer looks again, and both wait for each other. */
  lemma SpinMayNeverEnd(k: Config, slots: seq<LogEntry>, e: LogEntry) returns (acts: seq<Action>)
    requires k.Valid() && |slots| == k.capacity && WaitsWhenFull(k.profile, e)
    ensures OnlyPushes(acts, e) && Stalled(k, Exec(k, Start(slots), acts))
  {
    hide Next;
    var s := Start(slots);
    var fill := FillUp(k, slots, e, k.capacity - 1);
    var full := Exec(k, s, fill);
    HeldIsPending(k, full);
    FullTest(full.head, full.tail, k.capacity);
    var enter := [Push(e), Produce(|full.popped|), Produce(|full.popped|)];
    EntersSpin(k, full, e);
    RunGood(k, full, enter);
    ExecAppend(k, s, fill, enter);
    var spinning := Exec(k, full, enter);
    var pops := PopAll(k, spinning);
    ExecAppend(k, s, fill + enter, pops);
    LooksOnce(k, Exec(k, spinning, pops));
    var look := [Produce(|Exec(k, spinning, pops).popped|)];
    ExecAppend(k, s, fill + enter + pops, look);
    acts := fill + enter + pops + look;
  }

  /** Exactly the entries that wait on a full ring can spin for ever. */
  lemma {:induction false} SpinIsExact(k: Config, slots: seq<LogEntry>, e: LogEntry)
    requires k.Valid() && |slots| == k.capacity
    ensures k.profile == Block || (k.profile == DropNonCritical && e.level == Critical) <==>
              exists acts :: OnlyPushes(acts, e) && Stalled(k, Exec(k, Start(slots), acts))
  {
    hide Stalled;
    if WaitsWhenFull(k.profile, e) {
      var acts := SpinMayNeverEnd(k, slots, e);
    } else {
      forall acts | OnlyPushes(acts, e) ensures !Stalled(k, Exec(k, Start(slots), acts)) {
        RunNeverSpins(k, Start(slots), acts);
        if Stalled(k, Exec(k, Start(slots), acts)) { SpinsWhenStalled(k, Exec(k, Start(slots), acts)); }
      }
    }
  }

  lemma {:induction false} LooksOnce(k: Config, s: State)
    requires Good(k, s) && !s.overrun && s.producer.SpinFull? && |s.popped| == |s.accepted|
    ensures Stalled(k, Exec(k, s, [Produce(|s.popped|)]))
  {
    hide Next;
    var a := Produce(|s.popped|);
    assert [a][1..] == [] && Exec(k, s, [a]) == Step(k, s, a);
    StepKeepsGood(k, s, a);
  }
}
