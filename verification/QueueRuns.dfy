/** Theorems over every run of the queue, built on the step invariant. */
module QueueRuns {
  import opened Words
  import opened LogEntries
  import opened Ring
  import opened QueueSteps
  import opened QueueSafety

  // Once an entry has been published into a full ring, the run stays marked.
  lemma {:induction false} OverrunSticks(k: Config, s: State, acts: seq<Action>)
    requires k.capacity >= 1 && s.overrun
    ensures Exec(k, s, acts).overrun
    decreases |acts|
  {
    if acts != [] { OverrunSticks(k, Step(k, s, acts[0]), acts[1..]); }
  }

  lemma {:induction false} RunGood(k: Config, s: State, acts: seq<Action>)
    requires Good(k, s) && !Exec(k, s, acts).overrun
    ensures Good(k, Exec(k, s, acts))
    decreases |acts|
  {
    if acts != [] {
      var t := Step(k, s, acts[0]);
      if t.overrun { OverrunSticks(k, t, acts[1..]); }
      StepKeepsGood(k, s, acts[0]);
      RunGood(k, t, acts[1..]);
    }
  }

  // The indices and slots alone denote the accepted entries not yet popped.
  lemma HeldIsPending(k: Config, s: State)
    requires Good(k, s)
    ensures Count(s.head, s.tail, k.capacity) == |s.accepted| - |s.popped| < k.capacity
    ensures Held(s.slots, s.head, s.tail) == s.accepted[|s.popped|..]
  {
    var c, t, h := k.capacity, |s.popped|, |s.accepted|;
    MaskedSub(s.head, s.tail, c);
    CountOfCounters(h, t, c);
    forall i | 0 <= i < h - t
      ensures Held(s.slots, s.head, s.tail)[i] == s.accepted[t + i]
    {
      SlotOfCounter(t, i, c);
      assert s.slots[(t + i) % c] == s.accepted[t + i];
    }
  }

  lemma CountOfCounters(h: nat, t: nat, c: nat)
    requires IsRing(c, 0, 0) && t <= h < t + c
    ensures Count(h % c, t % c, c) == h - t
  {
    hide And, IsPow2;
    MaskedSub(h % c, t % c, c);
    ModSub(h, t, c);
    SmallMod(h - t, c);
  }

  lemma SlotOfCounter(t: nat, i: nat, c: nat)
    requires c >= 1 && i < c
    ensures Slot(t % c, i, c) == (t + i) % c
  {
    ModAddLeft(t, i, c);
    if t % c + i < c { SmallMod(t % c + i, c); } else { DivModUnique(t % c + i, c, 1, t % c + i - c); }
  }

  /** FIFO, no loss, no duplication: whatever the interleaving and however old
      the values each side reads, the popped entries are the oldest accepted
      ones in order, and the ring holds exactly the rest. */
  lemma {:induction false} PoppedIsPrefix(k: Config, slots: seq<LogEntry>, acts: seq<Action>)
    requires k.Valid() && |slots| == k.capacity
    ensures var s := Exec(k, Start(slots), acts);
            !s.overrun ==>
              && Shape(k, s)
              && s.accepted == s.popped + Held(s.slots, s.head, s.tail)
              && Count(s.head, s.tail, k.capacity) == |s.accepted| - |s.popped| <= k.capacity - 1
  {
    StartGood(k, slots);
    var s := Exec(k, Start(slots), acts);
    if !s.overrun {
      RunGood(k, Start(slots), acts);
      HeldIsPending(k, s);
    }
  }

  /** The producer never writes the slot the consumer is copying out. */
  lemma {:induction false} NoSlotConflict(k: Config, slots: seq<LogEntry>, acts: seq<Action>)
    requires k.Valid() && |slots| == k.capacity
    ensures var s := Exec(k, Start(slots), acts);
            !s.overrun && s.producer.WriteSlot? && s.consumer.CopySlot? ==> s.producer.h != s.consumer.t
  {
    StartGood(k, slots);
    var s := Exec(k, Start(slots), acts);
    if !s.overrun && s.producer.WriteSlot? && s.consumer.CopySlot? {
      RunGood(k, Start(slots), acts);
      ModDistinct(|s.popped|, |s.accepted|, k.capacity);
    }
  }

  /** No lost wakeup: while the queue runs, a consumer asleep with entries to pop
      means the producer has stored `head` and is about to notify. */
  lemma {:induction false} NoLostWakeup(k: Config, slots: seq<LogEntry>, acts: seq<Action>)
    requires k.Valid() && |slots| == k.capacity
    ensures var s := Exec(k, Start(slots), acts);
            !s.overrun && s.running && s.consumer.Blocked? && s.head != s.tail ==> s.producer.Notify?
  {
    StartGood(k, slots);
    var s := Exec(k, Start(slots), acts);
    if !s.overrun { RunGood(k, Start(slots), acts); }
  }

  /** While a consumer of a running queue waits on `head`, or is about to, it has
      popped every entry before the head it read, and `head` reads as that value
      again exactly while nothing has been accepted since: it cannot come back
      to it without a pop. */
  lemma {:induction false} HeadReturnsOnlyByPop(k: Config, slots: seq<LogEntry>, acts: seq<Action>)
    requires k.Valid() && |slots| == k.capacity
    ensures var s := Exec(k, Start(slots), acts);
            !s.overrun && s.running && (s.consumer.Wait? || s.consumer.Blocked?) ==>
              && s.consumer.seen == |s.popped|
              && (s.head == s.consumer.seen % k.capacity <==> |s.accepted| == s.consumer.seen)
  {
    StartGood(k, slots);
    var s := Exec(k, Start(slots), acts);
    if !s.overrun {
      RunGood(k, Start(slots), acts);
      if |s.popped| < |s.accepted| { ModDistinct(|s.popped|, |s.accepted|, k.capacity); }
    }
  }

  // ---- The loads of a run ----

  // a is a load by the consumer of the head store a.view
  ghost predicate LoadsHead(s: State, a: Action) {
    a.Consume? && (s.consumer.TestEmpty? || s.consumer.Measure? || s.consumer.Snapshot?) && HeadView(s, a.view)
  }

  // a is a load by the producer of the tail store a.view
  ghost predicate LoadsTail(s: State, a: Action) {
    a.Produce? && (s.producer.TestFull? || s.producer.SpinFull? || s.producer.Gauge?) && TailView(s, a.view)
  }

  lemma TailSeenGrows(k: Config, s: State, view: nat)
    requires k.capacity >= 1
    ensures var t := ProducerStep(k, s, view);
            s.headSeen == t.headSeen && s.tailSeen <= t.tailSeen && (LoadsTail(s, Produce(view)) ==> t.tailSeen == view)
  {
    hide Next;
    match s.producer
    case TestFull(_, _) =>
    case SpinFull(_, _) =>
    case Gauge =>
    case _ =>
  }

  lemma HeadSeenGrows(k: Config, s: State, view: nat, latest: bool)
    requires k.capacity >= 1
    ensures var t := ConsumerStep(k, s, view, latest);
            s.tailSeen == t.tailSeen && s.headSeen <= t.headSeen
            && (LoadsHead(s, Consume(view, latest)) ==> t.headSeen == view)
  {
    hide Next;
    match s.consumer
    case TestEmpty(_, _) =>
    case Measure(_) =>
    case Snapshot =>
    case Refused(_) =>
    case _ =>
  }

  lemma SeenGrows(k: Config, s: State, a: Action)
    requires k.capacity >= 1
    ensures var t := Step(k, s, a);
            && s.headSeen <= t.headSeen && s.tailSeen <= t.tailSeen
            && (LoadsHead(s, a) ==> t.headSeen == a.view)
            && (LoadsTail(s, a) ==> t.tailSeen == a.view)
  {
    hide ProducerStep, ConsumerStep;
    match a
    case Produce(view) => TailSeenGrows(k, s, view);
    case Consume(view, latest) => HeadSeenGrows(k, s, view, latest);
    case _ =>
  }

  lemma {:induction false} SeenGrowsInRun(k: Config, s: State, acts: seq<Action>)
    requires k.capacity >= 1
    ensures var t := Exec(k, s, acts); s.headSeen <= t.headSeen && s.tailSeen <= t.tailSeen
    decreases |acts|
  {
    hide Step;
    if acts != [] {
      SeenGrows(k, s, acts[0]);
      SeenGrowsInRun(k, Step(k, s, acts[0]), acts[1..]);
    }
  }

  /** The loads of one side never go back: a later one reads the same store of the
      other side's index as an earlier one, or a younger store. */
  lemma {:induction false} LoadsNeverGoBack(k: Config, s: State, a: Action, more: seq<Action>, b: Action)
    requires k.capacity >= 1
    ensures var t := Exec(k, Step(k, s, a), more);
            && (LoadsHead(s, a) && LoadsHead(t, b) ==> a.view <= b.view)
            && (LoadsTail(s, a) && LoadsTail(t, b) ==> a.view <= b.view)
  {
    hide Step;
    SeenGrows(k, s, a);
    SeenGrowsInRun(k, Step(k, s, a), more);
  }

  // ---- Only pushed entries, in the order of the calls ----

  ghost predicate IsSubsequence(a: seq<LogEntry>, b: seq<LogEntry>)
    decreases |b|
  {
    || a == []
    || (b != [] && IsSubsequence(a, b[..|b| - 1]))
    || (b != [] && a[|a| - 1] == b[|b| - 1] && IsSubsequence(a[..|a| - 1], b[..|b| - 1]))
  }

  lemma {:induction false} SubsequenceInit(a: seq<LogEntry>, b: seq<LogEntry>)
    requires a != [] && IsSubsequence(a, b)
    ensures IsSubsequence(a[..|a| - 1], b)
    decreases |b|
  {
    if IsSubsequence(a, b[..|b| - 1]) { SubsequenceInit(a, b[..|b| - 1]); }
  }

  /** What a subsequence is: its elements are found in b at growing positions. */
  lemma {:induction false} SubsequenceIsEmbedded(a: seq<LogEntry>, b: seq<LogEntry>) returns (at: seq<nat>)
    requires IsSubsequence(a, b)
    ensures |at| == |a|
    ensures forall i :: 0 <= i < |a| ==> at[i] < |b| && b[at[i]] == a[i]
    ensures forall i, j :: 0 <= i < j < |a| ==> at[i] < at[j]
    decreases |b|
  {
    if a == [] {
      at := [];
    } else if IsSubsequence(a, b[..|b| - 1]) {
      at := SubsequenceIsEmbedded(a, b[..|b| - 1]);
    } else {
      at := SubsequenceIsEmbedded(a[..|a| - 1], b[..|b| - 1]);
      at := at + [|b| - 1];
    }
  }

  // The entry of a push that has begun and is not yet published or given up
  ghost function Underway(p: Producer): seq<LogEntry> {
    match p
    case TakeHead(e) => [e]
    case TestFull(e, _) => [e]
    case SpinFull(e, _) => [e]
    case Recheck(e, _) => [e]
    case WriteSlot(e, _) => [e]
    case Publish(e, _) => [e]
    case _ => []
  }

  ghost function PushCalls(acts: seq<Action>): seq<LogEntry> {
    if acts == [] then []
    else
      var last := acts[|acts| - 1];
      PushCalls(acts[..|acts| - 1]) + if last.Push? then [last.entry] else []
  }

  lemma ProducerHistory(k: Config, s: State, view: nat)
    requires k.capacity >= 1
    ensures var t := ProducerStep(k, s, view);
            || (t.accepted == s.accepted && Underway(t.producer) == Underway(s.producer))
            || (t.accepted == s.accepted && Underway(t.producer) == [])
            || (t.accepted == s.accepted + Underway(s.producer) && Underway(t.producer) == [])
  {
    hide Next;
  }

  lemma ConsumerHistory(k: Config, s: State, view: nat, latest: bool)
    requires k.capacity >= 1
    ensures var t := ConsumerStep(k, s, view, latest);
            && t.accepted == s.accepted && t.producer == s.producer
            && t.tailSeen == s.tailSeen && t.overrun == s.overrun
  {
    hide Next;
  }

  lemma AtMostOneUnderway(p: Producer)
    ensures |Underway(p)| <= 1
  {
  }

  lemma StepOfHistory(k: Config, s: State, a: Action)
    requires k.capacity >= 1
    ensures var x, t := s.accepted + Underway(s.producer), Step(k, s, a);
            var y := t.accepted + Underway(t.producer);
            || y == x
            || (a.Push? && y == x + [a.entry])
            || (!a.Push? && x != [] && y == x[..|x| - 1])
  {
    var x, u := s.accepted, Underway(s.producer);
    AtMostOneUnderway(s.producer);
    if u != [] { assert (x + u)[..|x + u| - 1] == x; }
    match a
    case Produce(view) =>
      hide ProducerStep, Underway;
      ProducerHistory(k, s, view);
    case Consume(view, latest) =>
      hide ConsumerStep, Underway;
      ConsumerHistory(k, s, view, latest);
    case _ =>
  }

  /** In every run, with or without overrun, the accepted entries are entries
      pushed, each at most once and in the order of the push calls. */
  lemma {:induction false} OrderIsKept(k: Config, slots: seq<LogEntry>, acts: seq<Action>)
    requires k.capacity >= 1
    ensures var s := Exec(k, Start(slots), acts);
            IsSubsequence(s.accepted + Underway(s.producer), PushCalls(acts))
    decreases |acts|
  {
    hide Step, Underway;
    if acts == [] {
      assert Underway(Idle) == [] by { IdleIsNotUnderway(); }
    } else {
      var before, a := acts[..|acts| - 1], acts[|acts| - 1];
      OrderIsKept(k, slots, before);
      var s := Exec(k, Start(slots), before);
      assert acts == before + [a];
      ExecAppend(k, Start(slots), before, [a]);
      assert [a][1..] == [] && Exec(k, s, [a]) == Step(k, s, a);
      StepOfHistory(k, s, a);
      var x := s.accepted + Underway(s.producer);
      if a.Push? {
        assert PushCalls(acts)[..|PushCalls(acts)| - 1] == PushCalls(before);
        assert (x + [a.entry])[..|x|] == x;
      } else {
        assert PushCalls(acts) == PushCalls(before);
        if x != [] { SubsequenceInit(x, PushCalls(before)); }
      }
    }
  }

  lemma IdleIsNotUnderway()
    ensures Underway(Idle) == []
  {
  }

  // ---- When a full ring is written: exactly with the pushes WritesWhenFull allows ----

  ghost predicate Tame(k: Config, acts: seq<Action>) {
    forall a <- acts :: a.Push? ==> !WritesWhenFull(k.profile, a.entry)
  }

  ghost predicate TameEntry(k: Config, p: Producer) {
    match p
    case TakeHead(e) => !WritesWhenFull(k.profile, e)
    case TestFull(e, _) => !WritesWhenFull(k.profile, e)
    case SpinFull(_, _) => false
    case Recheck(e, _) => !WritesWhenFull(k.profile, e)
    case WriteSlot(e, _) => !WritesWhenFull(k.profile, e)
    case Publish(e, _) => !WritesWhenFull(k.profile, e)
    case _ => true
  }

  // Room as the producer knows it: judged by the oldest tail it may still rely on
  ghost predicate Roomy(k: Config, s: State) {
    && Good(k, s)
    && !s.overrun
    && TameEntry(k, s.producer)
    && |s.accepted| < s.tailSeen + k.capacity
    && (s.producer.Recheck? || s.producer.WriteSlot? || s.producer.Publish?
        ==> |s.accepted| + 1 < s.tailSeen + k.capacity)
  }

  lemma FullTestIsSafe(k: Config, s: State, view: nat)
    requires Roomy(k, s) && s.producer.TestFull?
    ensures Roomy(k, ProducerStep(k, s, view))
  {
    StepKeepsGood(k, s, Produce(view));
    NextOf(|s.accepted|, k.capacity);
    if TailView(s, view) && |s.accepted| + 1 == view + k.capacity {
      ModShift(view, k.capacity, 1);
    }
  }

  // Outside the full test the room the producer relies on stays.
  lemma OtherProduceKeepsRoom(k: Config, s: State, view: nat)
    requires Roomy(k, s) && !s.producer.TestFull?
    ensures !ProducerStep(k, s, view).overrun
    ensures Good(k, ProducerStep(k, s, view)) ==> Roomy(k, ProducerStep(k, s, view))
  {
    hide Next, Filled, SleeperOk, ConsumerOk, ProducerOk;
  }

  lemma StepKeepsRoomy(k: Config, s: State, a: Action)
    requires Roomy(k, s) && Tame(k, [a])
    ensures Roomy(k, Step(k, s, a))
  {
    assert a in [a];
    match a
    case Produce(view) =>
      if s.producer.TestFull? {
        FullTestIsSafe(k, s, view);
      } else {
        OtherProduceKeepsRoom(k, s, view);
        StepKeepsGood(k, s, a);
      }
    case Consume(view, latest) =>
      hide ConsumerStep, Good;
      ConsumerHistory(k, s, view, latest);
      StepKeepsGood(k, s, a);
    case _ =>
      StepKeepsGood(k, s, a);
  }

  lemma {:induction false} RunRoomy(k: Config, s: State, acts: seq<Action>)
    requires Roomy(k, s) && Tame(k, acts)
    ensures Roomy(k, Exec(k, s, acts))
    decreases |acts|
  {
    if acts != [] {
      assert acts[0] in acts;
      StepKeepsRoomy(k, s, acts[0]);
      RunRoomy(k, Step(k, s, acts[0]), acts[1..]);
    }
  }

  /** A ring is never written while full as long as no push is allowed to:
      always under `DropAll`, and under the two critical profiles while no
      critical entry is pushed. */
  lemma {:induction false} NoOverrunWhenTame(k: Config, slots: seq<LogEntry>, acts: seq<Action>)
    requires k.Valid() && |slots| == k.capacity && Tame(k, acts)
    ensures !Exec(k, Start(slots), acts).overrun
  {
    StartGood(k, slots);
    RunRoomy(k, Start(slots), acts);
  }

  /** By profile: a run never overruns under `DropAll`, and under the two critical
      profiles if it pushes no critical entry. */
  lemma {:induction false} NoOverrunByProfile(k: Config, slots: seq<LogEntry>, acts: seq<Action>)
    requires k.Valid() && |slots| == k.capacity
    requires k.profile == DropAll || (k.profile != Block && forall a <- acts :: a.Push? ==> a.entry.level != Critical)
    ensures !Exec(k, Start(slots), acts).overrun
  {
    NoOverrunWhenTame(k, slots, acts);
  }

  // The push under way in s is given up in t.
  ghost predicate GivenUp(s: State, t: State) {
    Underway(s.producer) != [] && Underway(t.producer) == [] && t.accepted == s.accepted
  }

  /** While the queue runs, a push that may not write a full ring is refused by
      one step only, its full test, and exactly when the tail store that test
      loads leaves capacity - 1 accepted entries unpopped. */
  lemma {:induction false} RefusedExactlyWhenFull(k: Config, slots: seq<LogEntry>, acts: seq<Action>, a: Action)
    requires k.Valid() && |slots| == k.capacity && Tame(k, acts)
    ensures var s := Exec(k, Start(slots), acts);
            s.running ==>
              (GivenUp(s, Step(k, s, a)) <==>
                 && a.Produce? && s.producer.TestFull? && TailView(s, a.view)
                 && |s.accepted| + 1 == a.view + k.capacity)
  {
    StartGood(k, slots);
    RunRoomy(k, Start(slots), acts);
    var s := Exec(k, Start(slots), acts);
    if a.Produce? && s.producer.TestFull? {
      RefusingTest(k, s, a.view);
    } else if s.running {
      OtherStepsGoOn(k, s, a);
    }
  }

  lemma RefusingTest(k: Config, s: State, view: nat)
    requires Roomy(k, s) && s.producer.TestFull?
    ensures GivenUp(s, ProducerStep(k, s, view)) <==> TailView(s, view) && |s.accepted| + 1 == view + k.capacity
  {
    hide Next, Filled;
    NextOf(|s.accepted|, k.capacity);
    if TailView(s, view) {
      if |s.accepted| + 1 == view + k.capacity {
        ModShift(view, k.capacity, 1);
      } else {
        ModDistinct(view, |s.accepted| + 1, k.capacity);
      }
    }
  }

  lemma OtherStepsGoOn(k: Config, s: State, a: Action)
    requires Roomy(k, s) && s.running && !(a.Produce? && s.producer.TestFull?)
    ensures !GivenUp(s, Step(k, s, a))
  {
    hide Next, Filled;
    if a.Consume? {
      hide ConsumerStep;
      ConsumerHistory(k, s, a.view, a.latest);
    }
  }

  // A push run to its end with nothing in between, reading the tail as it is
  function PushAlone(e: LogEntry, view: nat): seq<Action> {
    [Push(e)] + seq(9, _ => Produce(view))
  }

  lemma {:induction false} IdleTimes(k: Config, s: State, view: nat, n: nat)
    requires k.capacity >= 1 && s.producer.Idle?
    ensures Times(k, s, Produce(view), n) == s
    decreases n
  {
    if n > 0 { IdleTimes(k, s, view, n - 1); }
  }

  // The state in which a push that goes ahead leaves the queue
  function Pushed(k: Config, s: State, e: LogEntry, view: nat): State
    requires k.capacity >= 1 && s.head < |s.slots|
  {
    s.(slots := s.slots[s.head := e], head := Next(s.head, k.capacity), accepted := s.accepted + [e],
       overrun := s.overrun || |s.accepted| >= |s.popped| + k.capacity - 1,
       consumer := if s.consumer.Blocked? then Wait(s.consumer.seen) else s.consumer,
       tailSeen := view, producer := Idle)
  }

  lemma Writes(k: Config, s: State, e: LogEntry, view: nat, n: nat)
    requires Shape(k, s) && s.running && s.producer == Recheck(e, s.head) && n >= 2
    ensures Times(k, s, Produce(view), n)
            == Times(k, s.(slots := s.slots[s.head := e], producer := Publish(e, s.head)), Produce(view), n - 2)
  {
    hide Next;
    var s1 := s.(producer := WriteSlot(e, s.head));
    assert Times(k, s, Produce(view), n) == Times(k, s1, Produce(view), n - 1);
  }

  // From the published head to the end of the push
  lemma EndsPush(k: Config, s: State, e: LogEntry, view: nat)
    requires k.capacity >= 1 && s.head < |s.slots| && s.slots[s.head] == e
    requires s.producer == Publish(e, s.head) && TailView(s, view)
    ensures var a := Produce(view); Step(k, Step(k, Step(k, Step(k, s, a), a), a), a) == Pushed(k, s, e, view)
  {
    hide Next;
    assert s.slots[s.head := e] == s.slots;
    var a := Produce(view);
    var t := Step(k, s, a);
    assert Step(k, Step(k, t, a), a) == Pushed(k, s, e, view).(producer := Gauge, tailSeen := s.tailSeen);
  }

  lemma {:induction false} GoesAhead(k: Config, s: State, e: LogEntry, view: nat, n: nat)
    requires Shape(k, s) && s.running && s.producer == Recheck(e, s.head) && TailView(s, view) && n >= 6
    ensures Times(k, s, Produce(view), n) == Pushed(k, s, e, view)
  {
    Writes(k, s, e, view, n);
    hide Next, Step, Times;
    var a, s2 := Produce(view), s.(slots := s.slots[s.head := e], producer := Publish(e, s.head));
    EndsPush(k, s2, e, view);
    assert s2.slots[s.head := e] == s2.slots;
    TimesStep(k, s2, a, n - 2);
    TimesStep(k, Step(k, s2, a), a, n - 3);
    TimesStep(k, Step(k, Step(k, s2, a), a), a, n - 4);
    TimesStep(k, Step(k, Step(k, Step(k, s2, a), a), a), a, n - 5);
    IdleTimes(k, Pushed(k, s, e, view), view, n - 6);
  }

  function Tested(k: Config, s: State, e: LogEntry, view: nat): State
    requires k.capacity >= 1
  {
    s.(tailSeen := view, producer := AfterFullTest(k, e, s.head, s.tail))
  }

  lemma {:induction false} UpToFullTest(k: Config, s: State, e: LogEntry)
    requires Good(k, s) && s.producer.Idle? && s.running
    ensures Exec(k, s, PushAlone(e, |s.popped|)) == Times(k, Tested(k, s, e, |s.popped|), Produce(|s.popped|), 7)
  {
    var view := |s.popped|;
    var s1 := s.(producer := TakeHead(e));
    assert PushAlone(e, view)[1..] == seq(9, _ => Produce(view));
    RepeatIsTimes(k, s1, Produce(view), 9);
    assert Times(k, s1, Produce(view), 9) == Times(k, s1.(producer := TestFull(e, s.head)), Produce(view), 8);
  }

  lemma {:induction false} SpinIsLeftAtOnce(k: Config, s: State, e: LogEntry, view: nat)
    requires Shape(k, s) && s.producer == SpinFull(e, s.head) && TailView(s, view) && s.head != view % k.capacity
    ensures Times(k, s, Produce(view), 7) == Times(k, s.(tailSeen := view, producer := Recheck(e, s.head)), Produce(view), 6)
  {
  }

  lemma {:induction false} PushAloneOutcome(k: Config, s: State, e: LogEntry)
    requires Good(k, s) && s.producer.Idle? && s.running
    ensures Exec(k, s, PushAlone(e, |s.popped|)) ==
              if Next(s.head, k.capacity) == s.tail && !WritesWhenFull(k.profile, e) then s.(tailSeen := |s.popped|)
              else Pushed(k, s, e, |s.popped|)
  {
    hide Next, Times, Step, Filled, ConsumerOk, SleeperOk;
    var view := |s.popped|;
    var s3 := Tested(k, s, e, view);
    UpToFullTest(k, s, e);
    match s3.producer
    case Idle =>
      IdleTimes(k, s3, view, 7);
    case SpinFull(_, _) =>
      NextIs(s.head, k.capacity);
      SpinIsLeftAtOnce(k, s3, e, view);
      GoesAhead(k, s3.(producer := Recheck(e, s.head)), e, view, 6);
    case Recheck(_, _) =>
      GoesAhead(k, s3, e, view, 7);
  }

  /** The atomic steps of an undisturbed push add up to the sequential push. */
  lemma {:induction false} PushAloneIsSequential(k: Config, s: State, e: LogEntry)
    requires Good(k, s) && s.producer.Idle? && s.running
    ensures var t := Exec(k, s, PushAlone(e, |s.popped|));
            && t.producer.Idle? && t.running && Shape(k, t) && t.popped == s.popped
            && Held(t.slots, t.head, t.tail)
               == AfterPush(Held(s.slots, s.head, s.tail), k.capacity, k.profile, e)
            && (t.overrun <==> s.overrun || (Count(s.head, s.tail, k.capacity) == k.capacity - 1 && WritesWhenFull(k.profile, e)))
            && (t.overrun && !s.overrun ==> |t.accepted| == |t.popped| + k.capacity)
  {
    PushAloneOutcome(k, s, e);
    HeldIsPending(k, s);
    FullTest(s.head, s.tail, k.capacity);
    if Count(s.head, s.tail, k.capacity) < k.capacity - 1 {
      HeldPush(s.slots, s.head, s.tail, e);
    } else {
      HeldOverrun(s.slots, s.head, s.tail, e);
    }
  }

  // The only entry the run pushes is e.
  ghost predicate OnlyPushes(acts: seq<Action>, e: LogEntry) {
    forall a <- acts :: a.Push? ==> a.entry == e
  }

  lemma {:induction false} FillUp(k: Config, slots: seq<LogEntry>, e: LogEntry, n: nat) returns (acts: seq<Action>)
    requires k.Valid() && |slots| == k.capacity && n < k.capacity
    ensures OnlyPushes(acts, e)
    ensures var t := Exec(k, Start(slots), acts);
            && Good(k, t) && !t.overrun && t.producer.Idle? && t.running && t.consumer == Enter(FromLoop)
            && |t.popped| == 0 && |t.accepted| == n
  {
    StartGood(k, slots);
    if n == 0 {
      acts := [];
    } else {
      var before := FillUp(k, slots, e, n - 1);
      var s := Exec(k, Start(slots), before);
      var push := PushAlone(e, |s.popped|);
      acts := before + push;
      ExecAppend(k, Start(slots), before, push);
      HeldIsPending(k, s);
      FullTest(s.head, s.tail, k.capacity);
      PushAloneOutcome(k, s, e);
      RunGood(k, s, push);
    }
  }

  /** And no more than that: an entry the profile writes into a full ring is
      written into one by some run, after which the ring reads as empty while
      capacity accepted entries, that one last, have never been popped. */
  lemma OverrunIsReachable(k: Config, slots: seq<LogEntry>, e: LogEntry) returns (acts: seq<Action>)
    requires k.Valid() && |slots| == k.capacity && WritesWhenFull(k.profile, e)
    ensures OnlyPushes(acts, e)
    ensures var t := Exec(k, Start(slots), acts);
            && t.overrun && Shape(k, t)
            && Held(t.slots, t.head, t.tail) == []
            && |t.accepted| == |t.popped| + k.capacity && t.accepted[|t.accepted| - 1] == e
  {
    var fill := FillUp(k, slots, e, k.capacity - 1);
    var s := Exec(k, Start(slots), fill);
    var push := PushAlone(e, |s.popped|);
    acts := fill + push;
    ExecAppend(k, Start(slots), fill, push);
    HeldIsPending(k, s);
    FullTest(s.head, s.tail, k.capacity);
    PushAloneOutcome(k, s, e);
    PushAloneIsSequential(k, s, e);
  }

  /** Exactly the entries that the profile writes when full can overrun the ring. */
  lemma {:induction false} OverrunIsExact(k: Config, slots: seq<LogEntry>, e: LogEntry)
    requires k.Valid() && |slots| == k.capacity
    ensures k.profile == Block || (k.profile != DropAll && e.level == Critical) <==>
              exists acts :: OnlyPushes(acts, e) && Exec(k, Start(slots), acts).overrun
  {
    if WritesWhenFull(k.profile, e) {
      var acts := OverrunIsReachable(k, slots, e);
    } else {
      forall acts | OnlyPushes(acts, e) ensures !Exec(k, Start(slots), acts).overrun {
        NoOverrunWhenTame(k, slots, acts);
      }
    }
  }
}
