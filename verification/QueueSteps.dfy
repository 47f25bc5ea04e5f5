/** The log queue under concurrency: one producer thread in `push`, one consumer
    thread in the loop of the thread manager, one step per atomic operation.

    A run is any list of actions.  A load of the other side's index may return
    any value stored since the last one this side saw, so a load carries the
    number of the store it reads (`view`); an action that is not possible in a
    state leaves the state as it is.  `accepted` and `popped` are the histories
    of head stores and tail stores; their lengths are the unbounded counters
    behind `head` and `tail`.
  */
module QueueSteps {
  import opened Words
  import opened LogEntries
  import opened Ring

  datatype Config = Config(capacity: nat, profile: OverflowProfile) {
    ghost predicate Valid() {
      2 <= capacity < WORD && IsPow2(capacity)
    }
  }

  // What the producer does next; h is its local current_head
  datatype Producer =
    | Idle
    | TakeHead(e: LogEntry)
    | TestFull(e: LogEntry, h: nat)
    | SpinFull(e: LogEntry, h: nat)
    | Recheck(e: LogEntry, h: nat)
    | WriteSlot(e: LogEntry, h: nat)
    | Publish(e: LogEntry, h: nat)
    | Notify
    | CountPush
    | Gauge

  // Where in the consumer thread `pop` was called; BeforeWait holds the number
  // of the head store whose index is in `currenthead`
  datatype Caller = FromLoop | BeforeWait(seen: nat) | FromDrain

  // What the consumer does next; t is its local current_tail
  datatype Consumer =
    | Enter(caller: Caller)
    | TakeTail(caller: Caller)
    | TestEmpty(caller: Caller, t: nat)
    | Confirm(caller: Caller, t: nat)
    | CopySlot(caller: Caller, t: nat)
    | Release(caller: Caller, t: nat, out: LogEntry)
    | CountPop(caller: Caller)
    | Measure(caller: Caller)
    | Refused(caller: Caller)
    | Snapshot
    | Wait(seen: nat)
    | Blocked(seen: nat)
    | Finished

  const SPIN_LIMIT: nat := 500

  datatype State = State(
    slots: seq<LogEntry>, head: nat, tail: nat, running: bool,
    producer: Producer, consumer: Consumer, spins: nat,
    tailSeen: nat, headSeen: nat,
    accepted: seq<LogEntry>, popped: seq<LogEntry>, overrun: bool)

  datatype Action =
    | Push(entry: LogEntry)
    | Produce(view: nat)
    | Consume(view: nat, latest: bool)
    | SetFinished
    | SpuriousWake

  predicate ShapeOf(k: Config, p: Producer, c: Consumer) {
    && (p.TestFull? || p.SpinFull? || p.Recheck? || p.WriteSlot? || p.Publish? ==> p.h < k.capacity)
    && (c.TestEmpty? || c.Confirm? || c.CopySlot? || c.Release? ==> c.t < k.capacity)
  }

  ghost predicate Shape(k: Config, s: State) {
    && k.Valid()
    && |s.slots| == k.capacity
    && s.head < k.capacity
    && s.tail < k.capacity
    && ShapeOf(k, s.producer, s.consumer)
  }

  predicate TailView(s: State, view: nat) {
    s.tailSeen <= view <= |s.popped|
  }

  predicate HeadView(s: State, view: nat) {
    s.headSeen <= view <= |s.accepted|
  }

  // What `push` does after its full test, and after each round of its spin loop
  function AfterFullTest(k: Config, e: LogEntry, h: nat, loaded: nat): Producer
    requires k.capacity >= 1
  {
    if Next(h, k.capacity) != loaded then Recheck(e, h)
    else match k.profile
      case Block => SpinFull(e, h)
      case DropAll => Idle
      case DropNonCritical => if e.level.Critical? then SpinFull(e, h) else Idle
      case PassCriticalDropElse => if e.level.Critical? then Recheck(e, h) else Idle
  }

  function ProducerStep(k: Config, s: State, view: nat): State
    requires k.capacity >= 1
  {
    match s.producer
    case Idle => s
    case TakeHead(e) => s.(producer := TestFull(e, s.head))
    case TestFull(e, h) =>
      if !TailView(s, view) then s
      else s.(tailSeen := view, producer := AfterFullTest(k, e, h, view % k.capacity))
    case SpinFull(e, h) =>
      if !TailView(s, view) then s
      else if h == view % k.capacity then s.(tailSeen := view)
      else s.(tailSeen := view, producer := Recheck(e, h))
    case Recheck(e, h) => s.(producer := if s.running then WriteSlot(e, h) else Idle)
    case WriteSlot(e, h) =>
      if h >= |s.slots| then s else s.(slots := s.slots[h := e], producer := Publish(e, h))
    case Publish(e, h) =>
      s.(head := Next(h, k.capacity), accepted := s.accepted + [e], producer := Notify,
         overrun := s.overrun || |s.accepted| >= |s.popped| + k.capacity - 1)
    case Notify =>
      s.(producer := CountPush,
         consumer := if s.consumer.Blocked? then Wait(s.consumer.seen) else s.consumer)
    case CountPush => s.(producer := Gauge)
    case Gauge =>
      if !TailView(s, view) then s else s.(tailSeen := view, producer := Idle)
  }

  // Where a pop goes on that has read false from is_running: a later load in the
  // same thread reads false as well, so the loop is left at once
  function Halted(caller: Caller): Consumer {
    if caller.FromLoop? then Enter(FromDrain) else Refused(caller)
  }

  function ConsumerStep(k: Config, s: State, view: nat, latest: bool): State
    requires k.capacity >= 1
  {
    match s.consumer
    case Enter(caller) => s.(consumer := if s.running then TakeTail(caller) else Halted(caller))
    case TakeTail(caller) => s.(consumer := TestEmpty(caller, s.tail))
    case TestEmpty(caller, t) =>
      if !HeadView(s, view) then s
      else s.(headSeen := view, consumer := if t == view % k.capacity then Refused(caller) else Confirm(caller, t))
    case Confirm(caller, t) => s.(consumer := if s.running then CopySlot(caller, t) else Halted(caller))
    case CopySlot(caller, t) =>
      if t >= |s.slots| then s else s.(consumer := Release(caller, t, s.slots[t]))
    case Release(caller, t, out) =>
      s.(tail := Next(t, k.capacity), popped := s.popped + [out], consumer := CountPop(caller))
    case CountPop(caller) => s.(consumer := Measure(caller))
    case Measure(caller) =>
      if !HeadView(s, view) then s
      else s.(headSeen := view, consumer := Enter(if caller.FromDrain? then FromDrain else FromLoop))
    case Refused(FromLoop) =>
      // func_is_running is a relaxed load, here after a pop that read true: unless
      // `latest`, it may still read true
      if !s.running && latest then s.(consumer := Enter(FromDrain))
      else if s.spins < SPIN_LIMIT then s.(spins := s.spins + 1, consumer := Enter(FromLoop))
      else s.(consumer := Snapshot)
    case Refused(BeforeWait(seen)) => s.(consumer := Wait(seen))
    case Refused(FromDrain) => s.(consumer := Finished)
    case Snapshot =>
      if !HeadView(s, view) then s
      else s.(headSeen := view, consumer := Enter(BeforeWait(view)))
    case Wait(seen) =>
      if s.head == seen % k.capacity then s.(consumer := Blocked(seen))
      else s.(spins := 0, consumer := Enter(FromLoop))
    case Blocked(_) => s
    case Finished => s
  }

  function Step(k: Config, s: State, a: Action): State
    requires k.capacity >= 1
  {
    match a
    case Push(e) =>
      if s.producer.Idle? && s.running then s.(producer := TakeHead(e)) else s
    case Produce(view) => ProducerStep(k, s, view)
    case Consume(view, latest) => ConsumerStep(k, s, view, latest)
    case SetFinished => s.(running := false)
    case SpuriousWake =>
      if s.consumer.Blocked? then s.(consumer := Wait(s.consumer.seen)) else s
  }

  function Exec(k: Config, s: State, acts: seq<Action>): State
    requires k.capacity >= 1
    decreases |acts|
  {
    if acts == [] then s else Exec(k, Step(k, s, acts[0]), acts[1..])
  }

  // The same action n times over
  function Times(k: Config, s: State, a: Action, n: nat): State
    requires k.capacity >= 1
    decreases n
  {
    if n == 0 then s else Times(k, Step(k, s, a), a, n - 1)
  }

  function Start(slots: seq<LogEntry>): State {
    State(slots, 0, 0, true, Idle, Enter(FromLoop), 0, 0, 0, [], [], false)
  }

  lemma {:induction false} ExecAppend(k: Config, s: State, a: seq<Action>, b: seq<Action>)
    requires k.capacity >= 1
    ensures Exec(k, s, a + b) == Exec(k, Exec(k, s, a), b)
    decreases |a|
  {
    if a == [] {
      assert a + b == b;
    } else {
      ExecAppend(k, Step(k, s, a[0]), a[1..], b);
      assert (a + b)[1..] == a[1..] + b;
    }
  }

  lemma {:induction false} RepeatIsTimes(k: Config, s: State, a: Action, n: nat)
    requires k.capacity >= 1
    ensures Exec(k, s, seq(n, _ => a)) == Times(k, s, a, n)
    decreases n
  {
    if n > 0 {
      var acts := seq(n, _ => a);
      assert acts[1..] == seq(n - 1, _ => a);
      RepeatIsTimes(k, Step(k, s, a), a, n - 1);
    }
  }

  lemma TimesStep(k: Config, s: State, a: Action, n: nat)
    requires k.capacity >= 1 && n >= 1
    ensures Times(k, s, a, n) == Times(k, Step(k, s, a), a, n - 1)
  {
  }

  lemma {:induction false} TimesAdd(k: Config, s: State, a: Action, m: nat, n: nat)
    requires k.capacity >= 1
    ensures Times(k, s, a, m + n) == Times(k, Times(k, s, a, m), a, n)
    decreases m
  {
    if m > 0 { TimesAdd(k, Step(k, s, a), a, m - 1, n); }
  }
}

/** What holds in every state of every run. */
module QueueSafety {
  import opened Words
  import opened LogEntries
  import opened Ring
  import opened QueueSteps

  ghost predicate Indices(k: Config, s: State) {
    && |s.popped| <= |s.accepted| < |s.popped| + k.capacity
    && s.head == |s.accepted| % k.capacity
    && s.tail == |s.popped| % k.capacity
    && s.tailSeen <= |s.popped| <= s.headSeen <= |s.accepted|
  }

  // The slots between the counters hold the accepted entries not yet popped.
  ghost predicate Filled(k: Config, s: State)
    requires Shape(k, s)
  {
    forall i :: |s.popped| <= i < |s.accepted| ==> s.slots[i % k.capacity] == s.accepted[i]
  }

  ghost predicate HasHead(p: Producer) {
    p.TestFull? || p.SpinFull? || p.Recheck? || p.WriteSlot? || p.Publish?
  }

  ghost predicate ProducerOk(s: State) {
    && (HasHead(s.producer) ==> s.producer.h == s.head)
    && (s.producer.Publish? ==> s.head < |s.slots| && s.slots[s.head] == s.producer.e)
  }

  ghost predicate HasTail(c: Consumer) {
    c.TestEmpty? || c.Confirm? || c.CopySlot? || c.Release?
  }

  ghost predicate ConsumerOk(s: State) {
    var c, popped := s.consumer, |s.popped|;
    && (HasTail(c) ==> c.t == s.tail)
    && (c.Confirm? || c.CopySlot? || c.Release? ==> popped < s.headSeen)
    && (c.Release? ==> popped < |s.accepted| && c.out == s.accepted[popped])
    && ((c.Enter? || c.TakeTail? || HasTail(c)) && c.caller.BeforeWait? ==> popped <= c.caller.seen <= s.headSeen)
  }

  // In the loop after the main one, or past it
  ghost predicate Drains(c: Consumer) {
    c.Finished? || (!c.Snapshot? && !c.Wait? && !c.Blocked? && c.caller.FromDrain?)
  }

  // A consumer on its way to sleep, while the queue runs, has seen every entry popped.
  ghost predicate SleeperOk(s: State) {
    s.running ==>
      && !Drains(s.consumer)
      && (s.consumer.Refused? && s.consumer.caller.BeforeWait? ==> s.consumer.caller.seen == |s.popped|)
      && (s.consumer.Wait? || s.consumer.Blocked? ==> s.consumer.seen == |s.popped|)
      && (s.consumer.Blocked? ==> s.producer.Notify? || |s.accepted| == |s.popped|)
  }

  ghost predicate Good(k: Config, s: State) {
    && Shape(k, s)
    && Indices(k, s)
    && s.popped == s.accepted[..|s.popped|]
    && Filled(k, s)
    && ProducerOk(s)
    && ConsumerOk(s)
    && SleeperOk(s)
  }

  lemma StartGood(k: Config, slots: seq<LogEntry>)
    requires k.Valid() && |slots| == k.capacity
    ensures Good(k, Start(slots))
  {
  }

  lemma NextOf(i: nat, capacity: nat)
    requires IsRing(capacity, 0, 0)
    ensures Next(i % capacity, capacity) == (i + 1) % capacity
  {
    NextIs(i % capacity, capacity);
    ModAddLeft(i, 1, capacity);
    if i % capacity + 1 == capacity { DivModUnique(capacity, capacity, 1, 0); }
    else { SmallMod(i % capacity + 1, capacity); }
  }

  lemma ProducerShape(k: Config, s: State, view: nat)
    requires Shape(k, s)
    ensures Shape(k, ProducerStep(k, s, view))
  {
    hide Next;
    if s.producer.Publish? { NextIs(s.producer.h, k.capacity); }
  }

  lemma ConsumerShape(k: Config, s: State, view: nat, latest: bool)
    requires Shape(k, s)
    ensures Shape(k, ConsumerStep(k, s, view, latest))
  {
    hide Next;
    if s.consumer.Release? { NextIs(s.consumer.t, k.capacity); }
  }

  lemma WriteKeepsGood(k: Config, s: State, view: nat)
    requires Good(k, s) && s.producer.WriteSlot?
    ensures Good(k, ProducerStep(k, s, view))
  {
    hide Next;
    var c, h := k.capacity, |s.accepted|;
    forall i | |s.popped| <= i < h ensures i % c != s.head { ModDistinct(i, h, c); }
  }

  lemma PublishKeepsGood(k: Config, s: State, view: nat)
    requires Good(k, s) && s.producer.Publish? && !ProducerStep(k, s, view).overrun
    ensures Good(k, ProducerStep(k, s, view))
  {
    hide Next;
    var t, h := ProducerStep(k, s, view), |s.accepted|;
    ProducerShape(k, s, view);
    NextOf(h, k.capacity);
    assert Filled(k, t) by {
      forall i | |t.popped| <= i < |t.accepted| ensures t.slots[i % k.capacity] == t.accepted[i] {
        assert i < h ==> s.slots[i % k.capacity] == s.accepted[i];
      }
    }
  }

  lemma ReleaseKeepsGood(k: Config, s: State, view: nat, latest: bool)
    requires Good(k, s) && s.consumer.Release?
    ensures Good(k, ConsumerStep(k, s, view, latest))
  {
    hide Next;
    ConsumerShape(k, s, view, latest);
    NextOf(|s.popped|, k.capacity);
  }

  lemma TestEmptyKeepsGood(k: Config, s: State, view: nat, latest: bool)
    requires Good(k, s) && s.consumer.TestEmpty?
    ensures Good(k, ConsumerStep(k, s, view, latest))
  {
    hide Next;
    if HeadView(s, view) && |s.popped| < view { ModDistinct(|s.popped|, view, k.capacity); }
  }

  lemma WaitKeepsGood(k: Config, s: State, view: nat, latest: bool)
    requires Good(k, s) && s.consumer.Wait?
    ensures Good(k, ConsumerStep(k, s, view, latest))
  {
    hide Next;
    if |s.popped| < |s.accepted| { ModDistinct(|s.popped|, |s.accepted|, k.capacity); }
  }

  lemma CopyKeepsGood(k: Config, s: State, view: nat, latest: bool)
    requires Good(k, s) && s.consumer.CopySlot?
    ensures Good(k, ConsumerStep(k, s, view, latest))
  {
    hide Next;
    assert s.slots[|s.popped| % k.capacity] == s.accepted[|s.popped|];
  }

  lemma RefusedKeepsGood(k: Config, s: State, view: nat, latest: bool)
    requires Good(k, s) && (s.consumer.Refused? || s.consumer.Snapshot?)
    ensures Good(k, ConsumerStep(k, s, view, latest))
  {
    hide Next;
    var t := ConsumerStep(k, s, view, latest);
    assert Filled(k, t);
    hide Filled;
    match s.consumer
    case Refused(FromLoop) =>
    case Refused(BeforeWait(_)) =>
    case _ =>
  }

  lemma ProducerKeepsGood(k: Config, s: State, view: nat)
    requires Good(k, s) && !ProducerStep(k, s, view).overrun
    ensures Good(k, ProducerStep(k, s, view))
  {
    hide Next;
    match s.producer
    case WriteSlot(_, _) => WriteKeepsGood(k, s, view);
    case Publish(_, _) => PublishKeepsGood(k, s, view);
    case TestFull(_, _) =>
    case SpinFull(_, _) =>
    case _ =>
  }

  lemma ConsumerKeepsGood(k: Config, s: State, view: nat, latest: bool)
    requires Good(k, s)
    ensures Good(k, ConsumerStep(k, s, view, latest))
  {
    hide Next;
    match s.consumer
    case Release(_, _, _) => ReleaseKeepsGood(k, s, view, latest);
    case TestEmpty(_, _) => TestEmptyKeepsGood(k, s, view, latest);
    case Wait(_) => WaitKeepsGood(k, s, view, latest);
    case CopySlot(_, _) => CopyKeepsGood(k, s, view, latest);
    case Refused(_) => RefusedKeepsGood(k, s, view, latest);
    case Snapshot => RefusedKeepsGood(k, s, view, latest);
    case CountPop(_) =>
    case Measure(_) =>
    case Enter(_) =>
    case TakeTail(_) =>
    case Confirm(_, _) =>
    case Blocked(_) =>
    case Finished =>
  }

  lemma StepKeepsGood(k: Config, s: State, a: Action)
    requires Good(k, s) && !Step(k, s, a).overrun
    ensures Good(k, Step(k, s, a))
  {
    match a
    case Push(_) =>
    case Produce(view) => ProducerKeepsGood(k, s, view);
    case Consume(view, latest) => ConsumerKeepsGood(k, s, view, latest);
    case SetFinished =>
    case SpuriousWake =>
  }

  // What holds in every run, with or without overrun
  ghost predicate Linked(k: Config, s: State) {
    && Shape(k, s)
    && s.head == |s.accepted| % k.capacity
    && s.tail == |s.popped| % k.capacity
    && s.headSeen <= |s.accepted|
    && (HasHead(s.producer) ==> s.producer.h == s.head)
    && (HasTail(s.consumer) ==> s.consumer.t == s.tail)
    && (s.consumer.Blocked? && s.head != s.consumer.seen % k.capacity ==> s.producer.Notify?)
  }

  lemma ProducerKeepsLinked(k: Config, s: State, view: nat)
    requires Linked(k, s)
    ensures Linked(k, ProducerStep(k, s, view))
  {
    hide Next;
    match s.producer
    case Publish(_, _) =>
      PublishKeepsLinked(k, s, view);
    case Notify =>
    case TestFull(_, _) =>
    case SpinFull(_, _) =>
    case _ =>
  }

  lemma PublishKeepsLinked(k: Config, s: State, view: nat)
    requires Linked(k, s) && s.producer.Publish?
    ensures Linked(k, ProducerStep(k, s, view))
  {
    hide Next;
    ProducerShape(k, s, view);
    NextOf(|s.accepted|, k.capacity);
  }

  lemma ConsumerKeepsLinked(k: Config, s: State, view: nat, latest: bool)
    requires Linked(k, s)
    ensures Linked(k, ConsumerStep(k, s, view, latest))
  {
    hide Next;
    ConsumerShape(k, s, view, latest);
    if s.consumer.Release? {
      NextOf(|s.popped|, k.capacity);
    } else {
      ReadingKeepsLinked(k, s, view, latest);
    }
  }

  lemma ReadingKeepsLinked(k: Config, s: State, view: nat, latest: bool)
    requires Linked(k, s) && !s.consumer.Release?
    ensures Linked(k, ConsumerStep(k, s, view, latest))
  {
    hide Next;
    ConsumerShape(k, s, view, latest);
    hide Shape;
    match s.consumer
    case Refused(FromLoop) =>
    case Refused(BeforeWait(_)) =>
    case Refused(FromDrain) =>
    case TestEmpty(_, _) =>
    case _ =>
  }

  lemma {:induction false} RunLinked(k: Config, s: State, acts: seq<Action>)
    requires Linked(k, s)
    ensures Linked(k, Exec(k, s, acts))
    decreases |acts|
  {
    if acts != [] {
      StepKeepsLinked(k, s, acts[0]);
      RunLinked(k, Step(k, s, acts[0]), acts[1..]);
    }
  }

  lemma StepKeepsLinked(k: Config, s: State, a: Action)
    requires Linked(k, s)
    ensures Linked(k, Step(k, s, a))
  {
    hide ProducerStep, ConsumerStep;
    match a
    case Produce(view) => ProducerKeepsLinked(k, s, view);
    case Consume(view, latest) => ConsumerKeepsLinked(k, s, view, latest);
    case _ =>
  }

  lemma StartLinked(k: Config, slots: seq<LogEntry>)
    requires k.Valid() && |slots| == k.capacity
    ensures Linked(k, Start(slots))
  {
    SmallMod(0, k.capacity);
  }
}
