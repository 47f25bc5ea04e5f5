/** The stages put together: from printed lines on the wire, cut anywhere by
    TCP, to readable shared memory and a queue in order. */
module Pipeline {
  import opened Words
  import opened Framing
  import opened Sessions
  import opened LineParser
  import opened FastParser
  import opened SlabPools
  import opened LogEntries
  import opened Ingest
  import opened QueueSteps
  import opened QueueRuns

  // A line as it is sent: its text, framed either way, and the clock when it is parsed
  datatype Sent = Sent(line: Line, frame: Frame, now: nat)

  ghost predicate Sendable(size: nat, g: Geometry, m: Sent) {
    && ValidLine(m.line, m.now)
    && m.frame.payload == Print(m.line)
    && WellFormed(m.frame, MaxLog(size))
    && |Encode(m.frame)| + 1023 <= size
    && HEADER_SIZE + |m.line.message| <= g.slabSize
  }

  function Frames(ms: seq<Sent>): (fs: seq<Frame>)
    ensures |fs| == |ms| && forall i :: 0 <= i < |ms| ==> fs[i] == ms[i].frame
  {
    if ms == [] then [] else [ms[0].frame] + Frames(ms[1..])
  }

  // The parser calls for delivered frames, with the clock readings of the calls
  // and the places in their pages that the ring gives the payloads
  function CallsFor(fs: seq<Frame>, ms: seq<Sent>, avx2: bool): (cs: seq<Call>)
    requires |fs| == |ms|
    ensures |cs| == |ms|
    ensures forall i :: 0 <= i < |ms| ==> cs[i] == CallFor(fs, i, ms[i].now, avx2)
    decreases |fs|
  {
    if fs == [] then []
    else
      var n := |fs| - 1;
      assert forall i :: 0 <= i < n ==> fs[..n][..i] == fs[..i];
      CallsFor(fs[..n], ms[..n], avx2) + [CallFor(fs, n, ms[n].now, avx2)]
  }

  function CallFor(fs: seq<Frame>, i: nat, now: nat, avx2: bool): Call
    requires i < |fs|
  {
    Call(fs[i].payload, now, avx2, PayloadOffset(fs[..i], fs[i]))
  }

  // Whether the i-th payload comes to lie where, with AVX2, it takes the fast path
  predicate OnFastPath(fs: seq<Frame>, i: nat, avx2: bool)
    requires i < |fs|
  {
    avx2 && UsesFastPath(fs[i].payload, PayloadOffset(fs[..i], fs[i]))
  }

  ghost predicate OffFastPath(fs: seq<Frame>, avx2: bool) {
    forall i :: 0 <= i < |fs| ==> !OnFastPath(fs, i, avx2)
  }

  lemma PrintedIsLong(ln: Line)
    ensures |Print(ln)| >= 6
  {
  }

  /** The session hands over every frame sent, in order, whatever the cuts. */
  lemma {:induction false} AllFramesArrive(size: nat, g: Geometry, ms: seq<Sent>, chunks: seq<seq<Byte>>)
    requires 2048 <= size < UINT32 && forall m <- ms :: Sendable(size, g, m)
    requires Concat(chunks) == EncodeAll(Frames(ms))
    ensures Run(size, FRESH, chunks) == Session([], Frames(ms), false, true)
  {
    hide Sendable, WellFormed, Encode, Print, Run, Drain, ValidLine;
    var fs := Frames(ms);
    forall f <- fs ensures WellFormed(f, MaxLog(size)) && |Encode(f)| + 1023 <= size && |Encode(f)| >= 4 {
      var i :| 0 <= i < |fs| && fs[i] == f;
      assert ms[i] in ms;
      FrameOfSendable(size, g, ms[i]);
    }
    FramesArrive(size, fs, chunks);
    if fs != [] {
      assert fs[|fs| - 1] in fs;
      LastFrameLength(fs);
    }
    assert fs[..|fs|] == fs && fs[|fs|..] == [];
  }

  lemma FrameOfSendable(size: nat, g: Geometry, m: Sent)
    requires Sendable(size, g, m)
    ensures WellFormed(m.frame, MaxLog(size)) && |Encode(m.frame)| + 1023 <= size && |Encode(m.frame)| >= 4
  {
    PrintedIsLong(m.line);
  }

  lemma {:induction false} CallAt(size: nat, g: Geometry, ms: seq<Sent>, avx2: bool, i: nat, c: Call)
    requires i < |ms| && Sendable(size, g, ms[i]) && c == CallsFor(Frames(ms), ms, avx2)[i]
    ensures c.Defined() <==> !OnFastPath(Frames(ms), i, avx2)
    ensures c.Defined() ==> Posts(g, c) && LineTaken(c.Parsed()) == ms[i].line
  {
    hide Sendable, UsesFastPath, PayloadOffset, Posts, CurrentParser, LineTaken;
    CallOfSendable(size, g, ms[i], c);
  }

  // What the stream decides by itself: all its parser calls are defined exactly
  // when no payload takes the fast path.
  lemma {:induction false} CallsAreDefined(size: nat, g: Geometry, ms: seq<Sent>, avx2: bool)
    requires forall m <- ms :: Sendable(size, g, m)
    ensures OffFastPath(Frames(ms), avx2) <==> forall c <- CallsFor(Frames(ms), ms, avx2) :: c.Defined()
  {
    hide Sendable, OnFastPath, CallsFor, Posts, LineTaken;
    var fs := Frames(ms);
    var calls := CallsFor(fs, ms, avx2);
    forall i | 0 <= i < |ms| ensures calls[i].Defined() <==> !OnFastPath(fs, i, avx2) {
      assert ms[i] in ms;
      CallAt(size, g, ms, avx2, i, calls[i]);
    }
    if OffFastPath(fs, avx2) {
      forall c <- calls ensures c.Defined() {
        var i :| 0 <= i < |calls| && calls[i] == c;
      }
    } else {
      var i :| 0 <= i < |fs| && OnFastPath(fs, i, avx2);
      assert calls[i] in calls;
    }
  }

  // And then each line is taken as it was sent.
  ghost predicate TakenAs(g: Geometry, c: Call, ln: Line) {
    Posts(g, c) && LineTaken(c.Parsed()) == ln
  }

  lemma {:induction false} CallsAreTaken(size: nat, g: Geometry, ms: seq<Sent>, avx2: bool, calls: seq<Call>)
    requires (forall m <- ms :: Sendable(size, g, m)) && OffFastPath(Frames(ms), avx2)
    requires calls == CallsFor(Frames(ms), ms, avx2)
    ensures forall i :: 0 <= i < |ms| ==> TakenAs(g, calls[i], ms[i].line)
  {
    hide Sendable, OnFastPath, CallsFor, CurrentParser;
    forall i | 0 <= i < |ms| ensures TakenAs(g, calls[i], ms[i].line) {
      assert ms[i] in ms;
      CallAt(size, g, ms, avx2, i, calls[i]);
    }
  }

  lemma CallOfSendable(size: nat, g: Geometry, m: Sent, c: Call)
    requires Sendable(size, g, m) && c.raw == m.frame.payload && c.now == m.now
    ensures c.Defined() <==> !(c.avx2 && UsesFastPath(c.raw, c.pageOffset))
    ensures c.Defined() ==> Posts(g, c) && LineTaken(c.Parsed()) == m.line
  {
    hide ParseLine, CurrentParser, UsesFastPath, Print, ValidLine, WellFormed, Encode;
    PrintedIsParsed(m.line, m.now);
    CurrentParserIsExact(c.raw, c.now, c.avx2, c.pageOffset);
  }

  // Every one of the calls is taken, with the line that was sent.
  lemma {:induction false} AllArePosted(g: Geometry, s: Shelf, ms: seq<Sent>, calls: seq<Call>)
    requires s.Valid(g) && |calls| == |ms|
    requires forall i :: 0 <= i < |ms| ==> TakenAs(g, calls[i], ms[i].line)
    ensures var ps := Postings(g, s, calls);
            |ps| == |ms| && forall i :: 0 <= i < |ms| ==> ps[i].line == ms[i].line
    decreases |ms|
  {
    hide CurrentParser, EntryFor, Written;
    if ms != [] {
      AllArePosted(g, s, ms[..|ms| - 1], calls[..|ms| - 1]);
    }
  }

  function PushAll(q: seq<LogEntry>, capacity: nat, profile: OverflowProfile, es: seq<LogEntry>): seq<LogEntry>
    decreases |es|
  {
    if es == [] then q else PushAll(AfterPush(q, capacity, profile, es[0]), capacity, profile, es[1..])
  }

  // With nothing popped, `DropAll` keeps the oldest entries that fit.
  lemma {:induction false} DropAllKeepsOldest(q: seq<LogEntry>, capacity: nat, es: seq<LogEntry>)
    requires |q| < capacity
    ensures PushAll(q, capacity, DropAll, es)
            == q + es[..if |q| + |es| < capacity then |es| else capacity - 1 - |q|]
    decreases |es|
  {
    if es == [] {
      assert q + [] == q;
    } else {
      var next := AfterPush(q, capacity, DropAll, es[0]);
      DropAllKeepsOldest(next, capacity, es[1..]);
      var n := if |q| + |es| < capacity then |es| else capacity - 1 - |q|;
      if n > 0 { assert es[..n] == [es[0]] + es[1..][..n - 1]; }
    }
  }

  function EntriesOf(ps: seq<Posting>): (es: seq<LogEntry>)
    ensures |es| == |ps| && forall i :: 0 <= i < |ps| ==> es[i] == ps[i].entry
  {
    if ps == [] then [] else [ps[0].entry] + EntriesOf(ps[1..])
  }

  // All lines are posted in order and stay readable, and a `DropAll` queue that
  // nothing is popped from holds the oldest of their entries, as many as fit.
  ghost predicate AllArrive(g: Geometry, s: Shelf, capacity: nat, ms: seq<Sent>, calls: seq<Call>)
    requires s.Valid(g) && capacity >= 2
  {
    var ps, t := Postings(g, s, calls), WrittenAll(g, s, calls);
    && |ps| == |ms|
    && (forall i :: 0 <= i < |ms| ==>
          ps[i].line == ms[i].line && (Live(g, t, ps[i]) ==> Readable(t.memory, ps[i].entry, ms[i].line)))
    && PushAll([], capacity, DropAll, EntriesOf(ps))
       == EntriesOf(ps)[..if |ms| < capacity then |ms| else capacity - 1]
  }

  lemma TakenArrive(g: Geometry, s: Shelf, capacity: nat, ms: seq<Sent>, calls: seq<Call>)
    requires s.Valid(g) && capacity >= 2 && |calls| == |ms| && forall c <- calls :: c.Defined()
    requires forall i :: 0 <= i < |ms| ==> TakenAs(g, calls[i], ms[i].line)
    ensures AllArrive(g, s, capacity, ms, calls)
  {
    hide TakenAs, Readable, Live, Postings, WrittenAll, PushAll;
    AllArePosted(g, s, ms, calls);
    EntriesStayReadable(g, s, calls);
    var es := EntriesOf(Postings(g, s, calls));
    DropAllKeepsOldest([], capacity, es);
    var n := if |ms| < capacity then |ms| else capacity - 1;
    assert [] + es[..n] == es[..n];
  }

  /** End to end: valid lines, printed, framed and cut into reads of any size, off
      the fast path where there is one, are all handed over, and they arrive. */
  lemma {:induction false} EndToEnd(size: nat, g: Geometry, s: Shelf, capacity: nat, ms: seq<Sent>, avx2: bool, chunks: seq<seq<Byte>>)
    requires 2048 <= size < UINT32 && s.Valid(g) && capacity >= 2
    requires (forall m <- ms :: Sendable(size, g, m)) && OffFastPath(Frames(ms), avx2)
    requires Concat(chunks) == EncodeAll(Frames(ms))
    ensures Run(size, FRESH, chunks) == Session([], Frames(ms), false, true)
    ensures AllArrive(g, s, capacity, ms, CallsFor(Run(size, FRESH, chunks).delivered, ms, avx2))
  {
    hide Run, Sendable, OffFastPath, TakenAs, AllArrive, CallsFor;
    AllFramesArrive(size, g, ms, chunks);
    CallsAreDefined(size, g, ms, avx2);
    var calls := CallsFor(Frames(ms), ms, avx2);
    CallsAreTaken(size, g, ms, avx2, calls);
    TakenArrive(g, s, capacity, ms, calls);
  }

  // ---- With the consumer thread running ----

  lemma {:induction false} FrontOfSubsequence(a: seq<LogEntry>, n: nat, b: seq<LogEntry>)
    requires n <= |a| && IsSubsequence(a, b)
    ensures IsSubsequence(a[..n], b)
    decreases |a|
  {
    if n == |a| {
      assert a[..n] == a;
    } else {
      SubsequenceInit(a, b);
      FrontOfSubsequence(a[..|a| - 1], n, b);
      assert a[..|a| - 1][..n] == a[..n];
    }
  }

  // The network thread, its shared memory and the queue, with what has been posted
  datatype Joint = Joint(shelf: Shelf, queue: State, posted: seq<Posting>)

  // A parser call of the network thread, up to its push; or a step of the queue
  // that is not the beginning of a push
  datatype Event = Feed(call: Call) | Act(action: Action)

  ghost predicate Begins(g: Geometry, j: Joint, c: Call) {
    j.queue.producer.Idle? && Posts(g, c)
  }

  ghost function JointStep(g: Geometry, k: Config, j: Joint, v: Event): (t: Joint)
    requires j.shelf.Valid(g) && k.capacity >= 1
    ensures t.shelf.Valid(g)
  {
    match v
    case Feed(c) =>
      if !Begins(g, j, c) then j
      else
        var p := PostingOf(g, j.shelf, c);
        Joint(Written(g, j.shelf, c), Step(k, j.queue, Push(p.entry)), j.posted + [p])
    case Act(a) =>
      if a.Push? then j else j.(queue := Step(k, j.queue, a))
  }

  ghost function JointRun(g: Geometry, k: Config, j: Joint, run: seq<Event>): (t: Joint)
    requires j.shelf.Valid(g) && k.capacity >= 1
    ensures t.shelf.Valid(g)
    decreases |run|
  {
    if run == [] then j
    else JointStep(g, k, JointRun(g, k, j, run[..|run| - 1]), run[|run| - 1])
  }

  // What an event does to the queue
  ghost function ActsOf(g: Geometry, j: Joint, v: Event): seq<Action>
    requires j.shelf.Valid(g)
  {
    match v
    case Feed(c) => if Begins(g, j, c) then [Push(PostingOf(g, j.shelf, c).entry)] else []
    case Act(a) => if a.Push? then [] else [a]
  }

  ghost predicate AllWellPosted(g: Geometry, j: Joint)
    requires j.shelf.Valid(g)
  {
    forall p <- j.posted :: WellPosted(g, j.shelf, p)
  }

  // The queue has taken these actions, and the entries pushed are those posted.
  ghost predicate Follows(k: Config, slots: seq<LogEntry>, j: Joint, acts: seq<Action>)
    requires k.capacity >= 1
  {
    j.queue == Exec(k, Start(slots), acts) && PushCalls(acts) == EntriesOf(j.posted)
  }

  lemma StepFollows(g: Geometry, k: Config, slots: seq<LogEntry>, j: Joint, v: Event, acts: seq<Action>)
    requires j.shelf.Valid(g) && k.capacity >= 1 && Follows(k, slots, j, acts)
    ensures Follows(k, slots, JointStep(g, k, j, v), acts + ActsOf(g, j, v))
  {
    hide Step, Posts, PostingOf, Written;
    var more := ActsOf(g, j, v);
    ExecAppend(k, Start(slots), acts, more);
    if more == [] {
      assert acts + more == acts;
    } else {
      assert more[1..] == [] && Exec(k, j.queue, more) == Step(k, j.queue, more[0]);
      assert (acts + more)[..|acts + more| - 1] == acts;
    }
  }

  lemma StepKeepsPosted(g: Geometry, k: Config, j: Joint, v: Event)
    requires j.shelf.Valid(g) && k.capacity >= 1 && AllWellPosted(g, j)
    ensures AllWellPosted(g, JointStep(g, k, j, v))
  {
    hide Step, Posts, PostingOf, Written, WellPosted;
    var t := JointStep(g, k, j, v);
    if v.Feed? && Begins(g, j, v.call) {
      forall p <- t.posted ensures WellPosted(g, t.shelf, p) {
        if p in j.posted { CallKeeps(g, j.shelf, p, v.call); } else { CallKeepsNewest(g, j.shelf, v.call); }
      }
    }
  }

  lemma {:induction false} JointFollows(g: Geometry, s: Shelf, k: Config, slots: seq<LogEntry>, run: seq<Event>)
    returns (acts: seq<Action>)
    requires s.Valid(g) && k.capacity >= 1
    ensures var j := JointRun(g, k, Joint(s, Start(slots), []), run);
            Follows(k, slots, j, acts) && AllWellPosted(g, j)
    decreases |run|
  {
    hide JointStep, ActsOf;
    if run == [] {
      acts := [];
    } else {
      var before, v := run[..|run| - 1], run[|run| - 1];
      var j := JointRun(g, k, Joint(s, Start(slots), []), before);
      var done := JointFollows(g, s, k, slots, before);
      StepFollows(g, k, slots, j, v, done);
      StepKeepsPosted(g, k, j, v);
      acts := done + ActsOf(g, j, v);
    }
  }

  // What is popped are entries posted, in order and none twice.
  lemma PoppedArePosted(k: Config, slots: seq<LogEntry>, j: Joint, acts: seq<Action>)
    requires k.Valid() && |slots| == k.capacity && Follows(k, slots, j, acts) && !j.queue.overrun
    ensures IsSubsequence(j.queue.popped, EntriesOf(j.posted))
  {
    hide IsSubsequence, Exec, PushCalls;
    var all := j.queue.accepted + Underway(j.queue.producer);
    PoppedIsPrefix(k, slots, acts);
    OrderIsKept(k, slots, acts);
    assert all[..|j.queue.popped|] == j.queue.popped;
    FrontOfSubsequence(all, |j.queue.popped|, EntriesOf(j.posted));
  }

  // What the consumer has popped, and what the memory as it is now holds
  ghost predicate SeesPosted(g: Geometry, j: Joint)
    requires j.shelf.Valid(g)
  {
    && IsSubsequence(j.queue.popped, EntriesOf(j.posted))
    && forall p <- j.posted :: Live(g, j.shelf, p) ==> Readable(j.shelf.memory, p.entry, p.line)
  }

  lemma AllAreReadable(g: Geometry, j: Joint)
    requires j.shelf.Valid(g) && AllWellPosted(g, j)
    ensures forall p <- j.posted :: Live(g, j.shelf, p) ==> Readable(j.shelf.memory, p.entry, p.line)
  {
    hide Readable, WellPosted, Live;
    forall p <- j.posted | Live(g, j.shelf, p) ensures Readable(j.shelf.memory, p.entry, p.line) {
      PostedIsReadable(g, j.shelf, p);
    }
  }

  /** Both threads at once.  In every state of every interleaving of defined parser
      calls, which write the shared memory and begin pushes, with the steps of the
      queue, as long as the ring has not been overrun - under `DropAll` always -
      what has been popped are entries of posted lines, in order and none twice,
      and the memory as it is in that state holds the line of every posting, popped
      or not, until P rollovers after its own. */
  lemma {:induction false} ConsumerSeesPostedLines(g: Geometry, s: Shelf, k: Config, slots: seq<LogEntry>, run: seq<Event>)
    requires s.Valid(g) && k.Valid() && |slots| == k.capacity
    requires forall v <- run :: v.Feed? ==> v.call.Defined()
    ensures var j := JointRun(g, k, Joint(s, Start(slots), []), run);
            && (!j.queue.overrun ==> SeesPosted(g, j))
            && (k.profile.DropAll? ==> !j.queue.overrun)
  {
    hide JointRun, AllWellPosted, Exec, IsSubsequence, Readable, Live;
    var j := JointRun(g, k, Joint(s, Start(slots), []), run);
    var acts := JointFollows(g, s, k, slots, run);
    if k.profile.DropAll? { NoOverrunWhenTame(k, slots, acts); }
    if !j.queue.overrun {
      PoppedArePosted(k, slots, j, acts);
      AllAreReadable(g, j);
    }
  }
}
