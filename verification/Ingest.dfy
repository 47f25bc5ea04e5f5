/** From an accepted line to the log queue and the shared memory: the slab
    request, the packed header and message written into it, and the push. */
module Ingest {
  import opened Words
  import opened LineParser
  import opened FastParser
  import opened SlabPools
  import opened LogEntries
  import opened LogQueues

  // SharedLogEntryHeader, packed
  datatype Header = Header(timestamp: nat, logId: nat, messageLen: nat, messageOffset: nat,
                           relativeOffset: nat, level: nat)

  function Little(x: nat, n: nat): (b: seq<Byte>)
    ensures |b| == n
  {
    if n == 0 then [] else [x % 256] + Little(x / 256, n - 1)
  }

  function FromLittle(b: seq<Byte>): nat {
    if b == [] then 0 else b[0] + 256 * FromLittle(b[1..])
  }

  function Bytes(n: nat): nat {
    if n == 0 then 1 else 256 * Bytes(n - 1)
  }

  lemma {:induction false} LittleRoundTrip(x: nat, n: nat)
    requires x < Bytes(n)
    ensures FromLittle(Little(x, n)) == x
  {
    if n > 0 {
      LittleRoundTrip(x / 256, n - 1);
      assert Little(x, n)[1..] == Little(x / 256, n - 1);
    }
  }

  function HeaderBytes(h: Header): (b: seq<Byte>)
    ensures |b| == HEADER_SIZE
  {
    Little(h.timestamp, 8) + Little(h.logId, 4) + Little(h.messageLen, 4) + Little(h.messageOffset, 4)
    + Little(h.relativeOffset, 8) + Little(h.level, 1)
  }

  // What a reader of the shared memory finds at `at`
  function ReadHeader(memory: seq<Byte>, at: nat): Header
    requires at + HEADER_SIZE <= |memory|
  {
    Header(FromLittle(memory[at..at + 8]), FromLittle(memory[at + 8..at + 12]), FromLittle(memory[at + 12..at + 16]),
           FromLittle(memory[at + 16..at + 20]), FromLittle(memory[at + 20..at + 28]), FromLittle(memory[at + 28..at + 29]))
  }

  function LevelOf(n: nat): LogLevel {
    if n == 0 then Debug else if n == 1 then Info else if n == 2 then Warning else if n == 3 then Error else Critical
  }

  // The severities by their numbers on the wire
  ghost predicate Names(level: LogLevel, n: nat) {
    && (level == Debug <==> n == 0)
    && (level == Info <==> n == 1)
    && (level == Warning <==> n == 2)
    && (level == Error <==> n == 3)
    && (level == Critical <==> n == 4)
  }

  /** The entry of a line is Debug, Info, Warning, Error or Critical exactly if the
      line's level is 0, 1, 2, 3 or 4. */
  lemma EntryLevel(ln: Line, place: nat)
    requires ln.level <= 4
    ensures Names(EntryFor(ln, place).level, ln.level)
  {
  }

  // The header and the queue entry written for a line whose region begins at `place`
  function HeaderFor(ln: Line, place: nat): Header {
    Header(ln.time, ln.id, |ln.message| % UINT32, (place + HEADER_SIZE) % UINT32, place + HEADER_SIZE, ln.level)
  }

  function EntryFor(ln: Line, place: nat): LogEntry {
    LogEntry(ln.time, ln.id, (HEADER_SIZE + |ln.message|) % UINT32, (place + HEADER_SIZE) % UINT32, place, LevelOf(ln.level))
  }

  function Packed(ln: Line, place: nat): (b: seq<Byte>)
    ensures |b| == HEADER_SIZE + |ln.message|
  {
    HeaderBytes(HeaderFor(ln, place)) + ln.message
  }

  // What an entry promises about the shared memory
  ghost predicate Readable(memory: seq<Byte>, e: LogEntry, ln: Line) {
    && e.messageOffset == e.relativeOffset + HEADER_SIZE
    && e.messageLength == HEADER_SIZE + |ln.message|
    && e.relativeOffset + e.messageLength <= |memory|
    && ReadHeader(memory, e.relativeOffset)
       == Header(ln.time, ln.id, |ln.message|, e.messageOffset, e.messageOffset, ln.level)
    && memory[e.messageOffset..e.messageOffset + |ln.message|] == ln.message
    && e.timestamp == ln.time && e.logId == ln.id && Names(e.level, ln.level)
  }

  // n bytes from `at` on as a number, least significant first
  ghost function NumberAt(memory: seq<Byte>, at: nat, n: nat): nat
    requires at + n <= |memory|
    decreases n
  {
    if n == 0 then 0 else memory[at] as int + 256 * NumberAt(memory, at + 1, n - 1)
  }

  lemma {:induction false} FromLittleIsNumber(memory: seq<Byte>, at: nat, n: nat)
    requires at + n <= |memory|
    ensures FromLittle(memory[at..at + n]) == NumberAt(memory, at, n)
    decreases n
  {
    if n > 0 {
      assert memory[at..at + n][1..] == memory[at + 1..at + 1 + (n - 1)];
      FromLittleIsNumber(memory, at + 1, n - 1);
    }
  }

  /** The layout of the packed header: 8 bytes of timestamp, 4 of id, 4 of message
      length, 4 of message offset, 8 of relative offset and 1 of level, each least
      significant byte first. */
  lemma HeaderLayout(memory: seq<Byte>, at: nat)
    requires at + 29 <= |memory|
    ensures ReadHeader(memory, at)
            == Header(NumberAt(memory, at, 8), NumberAt(memory, at + 8, 4), NumberAt(memory, at + 12, 4),
                      NumberAt(memory, at + 16, 4), NumberAt(memory, at + 20, 8), NumberAt(memory, at + 28, 1))
  {
    hide FromLittle, NumberAt;
    FromLittleIsNumber(memory, at, 8);
    FromLittleIsNumber(memory, at + 8, 4);
    FromLittleIsNumber(memory, at + 12, 4);
    FromLittleIsNumber(memory, at + 16, 4);
    FromLittleIsNumber(memory, at + 20, 8);
    FromLittleIsNumber(memory, at + 28, 1);
  }

  ghost predicate StoredAt(memory: seq<Byte>, at: nat, b: seq<Byte>) {
    at + |b| <= |memory| && memory[at..at + |b|] == b
  }

  // What is stored in one piece is stored part by part.
  lemma StoredInParts(memory: seq<Byte>, at: nat, x: seq<Byte>, y: seq<Byte>)
    requires StoredAt(memory, at, x + y)
    ensures StoredAt(memory, at, x) && StoredAt(memory, at + |x|, y)
  {
    var b := memory[at..at + |x + y|];
    assert b == x + y && |x + y| == |x| + |y|;
    assert b[..|x|] == x && b[|x|..] == y;
    assert memory[at..at + |x|] == b[..|x|];
    assert memory[at + |x|..at + |x| + |y|] == b[|x|..];
  }

  // The six fields of a header that is stored at `at`
  lemma FieldsOfHeader(h: Header, memory: seq<Byte>, at: nat)
    requires StoredAt(memory, at, HeaderBytes(h))
    ensures StoredAt(memory, at, Little(h.timestamp, 8)) && StoredAt(memory, at + 8, Little(h.logId, 4))
    ensures StoredAt(memory, at + 12, Little(h.messageLen, 4)) && StoredAt(memory, at + 16, Little(h.messageOffset, 4))
    ensures StoredAt(memory, at + 20, Little(h.relativeOffset, 8)) && StoredAt(memory, at + 28, Little(h.level, 1))
  {
    hide Little, StoredAt;
    var a, b, c := Little(h.timestamp, 8), Little(h.logId, 4), Little(h.messageLen, 4);
    var d, e, f := Little(h.messageOffset, 4), Little(h.relativeOffset, 8), Little(h.level, 1);
    StoredInParts(memory, at, a + b + c + d + e, f);
    StoredInParts(memory, at, a + b + c + d, e);
    StoredInParts(memory, at, a + b + c, d);
    StoredInParts(memory, at, a + b, c);
    StoredInParts(memory, at, a, b);
  }

  lemma HeaderRoundTrip(h: Header, memory: seq<Byte>, at: nat)
    requires at + HEADER_SIZE <= |memory| && memory[at..at + HEADER_SIZE] == HeaderBytes(h)
    requires h.timestamp < WORD && h.logId < UINT32 && h.messageLen < UINT32 && h.messageOffset < UINT32
    requires h.relativeOffset < WORD && h.level < 256
    ensures ReadHeader(memory, at) == h
  {
    hide Little, FromLittle, HeaderBytes;
    FieldsOfHeader(h, memory, at);
    assert Bytes(1) == 256 && Bytes(4) == UINT32 && Bytes(8) == WORD;
    LittleRoundTrip(h.timestamp, 8);
    LittleRoundTrip(h.logId, 4);
    LittleRoundTrip(h.messageLen, 4);
    LittleRoundTrip(h.messageOffset, 4);
    LittleRoundTrip(h.relativeOffset, 8);
    LittleRoundTrip(h.level, 1);
  }

  // A block that is intact in memory can be read back through its entry.
  lemma IntactIsReadable(memory: seq<Byte>, ln: Line, place: nat)
    requires place + HEADER_SIZE < UINT32 && HEADER_SIZE + |ln.message| < UINT32
    requires StoredAt(memory, place, Packed(ln, place))
    requires ln.time < WORD && ValidLevel(ln.level) && ValidId(ln.id)
    ensures Readable(memory, EntryFor(ln, place), ln)
  {
    hide HeaderBytes, ReadHeader;
    SmallMod(|ln.message|, UINT32);
    SmallMod(HEADER_SIZE + |ln.message|, UINT32);
    SmallMod(place + HEADER_SIZE, UINT32);
    StoredInParts(memory, place, HeaderBytes(HeaderFor(ln, place)), ln.message);
    HeaderRoundTrip(HeaderFor(ln, place), memory, place);
  }

  // ---- A run of parser calls ----

  // A parser call: the payload, the clock, whether the machine has AVX2, and
  // where in its page the payload begins
  datatype Call = Call(raw: seq<Byte>, now: nat, avx2: bool, pageOffset: nat) {
    function Parsed(): Outcome {
      CurrentParser(raw, now, avx2, pageOffset)
    }

    // The call does not come to the reversed range of the fast path, after which
    // anything may happen.
    predicate Defined() {
      !Parsed().Reversed?
    }
  }

  // An accepted line, the slab epoch and place it was written in, and its queue entry
  datatype Posting = Posting(line: Line, epoch: nat, place: nat, entry: LogEntry) {
    // The place of the message and the length of the whole fit their 32-bit fields.
    predicate Addressable() {
      place + HEADER_SIZE < UINT32 && HEADER_SIZE + |line.message| < UINT32
    }

    ghost function Written(): Record {
      Record(epoch, place, Packed(line, entry.relativeOffset))
    }
  }

  predicate Posts(g: Geometry, c: Call) {
    Takes(c.Parsed()) && HEADER_SIZE + |LineTaken(c.Parsed()).message| <= g.slabSize
  }

  ghost function PlaceOf(g: Geometry, s: Shelf, ln: Line): nat
    requires s.Valid(g) && HEADER_SIZE + |ln.message| <= g.slabSize
  {
    GetNext(g, s.cursor, HEADER_SIZE + |ln.message|).place
  }

  // The 32-bit copy of the place, from which header and entry are made
  ghost function OffsetOf(g: Geometry, s: Shelf, ln: Line): nat
    requires s.Valid(g) && HEADER_SIZE + |ln.message| <= g.slabSize
  {
    GetNext(g, s.cursor, HEADER_SIZE + |ln.message|).outOffset
  }

  // The effect of one defined parser call on the shared memory
  ghost function Written(g: Geometry, s: Shelf, c: Call): (t: Shelf)
    requires s.Valid(g)
    ensures t.Valid(g)
  {
    if !Posts(g, c) then s
    else
      var ln := LineTaken(c.Parsed());
      Store(g, s, Packed(ln, OffsetOf(g, s, ln)))
  }

  ghost function PostingOf(g: Geometry, s: Shelf, c: Call): Posting
    requires s.Valid(g) && Posts(g, c)
  {
    var ln := LineTaken(c.Parsed());
    Posting(ln, Written(g, s, c).rollovers, PlaceOf(g, s, ln), EntryFor(ln, OffsetOf(g, s, ln)))
  }

  ghost function WrittenAll(g: Geometry, s: Shelf, calls: seq<Call>): (t: Shelf)
    requires s.Valid(g)
    ensures t.Valid(g)
    decreases |calls|
  {
    if calls == [] then s
    else Written(g, WrittenAll(g, s, calls[..|calls| - 1]), calls[|calls| - 1])
  }

  ghost function Postings(g: Geometry, s: Shelf, calls: seq<Call>): seq<Posting>
    requires s.Valid(g)
    decreases |calls|
  {
    if calls == [] then []
    else
      var before, last := calls[..|calls| - 1], calls[|calls| - 1];
      Postings(g, s, before) + if Posts(g, last) then [PostingOf(g, WrittenAll(g, s, before), last)] else []
  }

  ghost predicate WellPosted(g: Geometry, s: Shelf, p: Posting)
    requires s.Valid(g)
  {
    && p.line.time < WORD && ValidLevel(p.line.level) && ValidId(p.line.id)
    && p.entry == EntryFor(p.line, p.place % UINT32)
    && Keeps(g, s, p.Written())
  }

  lemma TakenIsValid(c: Call)
    requires Takes(c.Parsed())
    ensures ValidLine(LineTaken(c.Parsed()), c.now)
  {
    hide ParseLine, CurrentParser, UsesFastPath, ValidLine;
    CurrentParserIsExact(c.raw, c.now, c.avx2, c.pageOffset);
    AcceptedIsValid(c.raw, c.now);
  }

  lemma AcceptedIsValid(raw: seq<Byte>, now: nat)
    requires ParseLine(raw, now).Accepted?
    ensures ValidLine(ParseLine(raw, now).line, now)
  {
    var d1, d2, d3 := AcceptedIsSpelled(raw, now);
  }

  lemma CallKeeps(g: Geometry, s: Shelf, p: Posting, c: Call)
    requires s.Valid(g) && WellPosted(g, s, p)
    ensures WellPosted(g, Written(g, s, c), p)
  {
    hide Keeps, CurrentParser, Packed, Store;
    if Posts(g, c) {
      var ln := LineTaken(c.Parsed());
      StoreKeeps(g, s, p.Written(), Packed(ln, OffsetOf(g, s, ln)));
    }
  }

  lemma CallKeepsNewest(g: Geometry, s: Shelf, c: Call)
    requires s.Valid(g) && Posts(g, c)
    ensures WellPosted(g, Written(g, s, c), PostingOf(g, s, c))
  {
    hide Keeps, CurrentParser, Packed, Store;
    TakenIsValid(c);
    var ln := LineTaken(c.Parsed());
    GrantBounds(g, s, HEADER_SIZE + |ln.message|);
    StoreKeepsNewest(g, s, Packed(ln, OffsetOf(g, s, ln)));
  }

  lemma {:induction false} CallsAreKept(g: Geometry, s: Shelf, calls: seq<Call>)
    requires s.Valid(g)
    ensures forall p <- Postings(g, s, calls) :: WellPosted(g, WrittenAll(g, s, calls), p)
    decreases |calls|
  {
    hide WellPosted, Posts, Written, PostingOf;
    if calls != [] {
      var before, last := calls[..|calls| - 1], calls[|calls| - 1];
      CallsAreKept(g, s, before);
      var mid := WrittenAll(g, s, before);
      forall p <- Postings(g, s, calls) ensures WellPosted(g, WrittenAll(g, s, calls), p) {
        if p in Postings(g, s, before) { CallKeeps(g, mid, p, last); } else { CallKeepsNewest(g, mid, last); }
      }
    }
  }

  // Fewer than P rollovers old, and with a place that its entry can name
  ghost predicate Live(g: Geometry, s: Shelf, p: Posting)
    requires s.Valid(g)
  {
    s.rollovers < p.epoch + g.Cycle() && p.Addressable()
  }

  lemma PostedIsReadable(g: Geometry, s: Shelf, p: Posting)
    requires s.Valid(g) && WellPosted(g, s, p) && Live(g, s, p)
    ensures Readable(s.memory, p.entry, p.line)
  {
    SmallMod(p.place, UINT32);
    assert p.entry.relativeOffset == p.place;
    hide Readable, Packed, EntryFor;
    IntactIsReadable(s.memory, p.line, p.place);
  }

  // P slabs of less than 4 GiB in all make every posting addressable.
  lemma SmallCycleIsAddressable(g: Geometry, s: Shelf, p: Posting)
    requires s.Valid(g) && WellPosted(g, s, p) && g.Cycle() * g.slabSize < UINT32
    ensures p.Addressable()
  {
    hide EntryFor;
    MulMono(p.epoch % g.Cycle() + 1, g.Cycle(), g.slabSize);
  }

  /** Retention end to end: until P further slab rollovers, the shared memory an
      entry names holds exactly the header and the message of its own line. */
  lemma {:induction false} EntriesStayReadable(g: Geometry, s: Shelf, calls: seq<Call>)
    requires s.Valid(g) && forall c <- calls :: c.Defined()
    ensures var t := WrittenAll(g, s, calls);
            forall p <- Postings(g, s, calls) ::
              && (Live(g, t, p) ==> Readable(t.memory, p.entry, p.line))
              && (g.Cycle() * g.slabSize < UINT32 ==> p.Addressable())
  {
    hide Readable, WellPosted, Live, Postings, WrittenAll;
    CallsAreKept(g, s, calls);
    var t := WrittenAll(g, s, calls);
    forall p <- Postings(g, s, calls)
      ensures Live(g, t, p) ==> Readable(t.memory, p.entry, p.line)
      ensures g.Cycle() * g.slabSize < UINT32 ==> p.Addressable()
    {
      if Live(g, t, p) { PostedIsReadable(g, t, p); }
      if g.Cycle() * g.slabSize < UINT32 { SmallCycleIsAddressable(g, t, p); }
    }
  }

  // ---- The parser as it runs ----

  // Undefined: the fast path has come to a reversed range, and nothing is promised.
  datatype Problem =
    | NoProblem
    | BadLine(why: Reject)
    | BadFastLine(reason: FastReject)
    | Undefined
    | TooBigForSlab

  // The slab request for a line, and the header and message written into it
  method WriteLine(ln: Line, pool: SlabPool) returns (granted: bool, outOffset: nat)
    requires pool.Valid()
    modifies pool, pool.memory
    ensures pool.Valid()
    ensures granted <==> HEADER_SIZE + |ln.message| <= pool.geometry.slabSize
    ensures !granted ==> pool.Contents() == old(pool.Contents())
    ensures granted ==>
              && outOffset == OffsetOf(pool.geometry, old(pool.Contents()), ln)
              && pool.Contents() == Store(pool.geometry, old(pool.Contents()), Packed(ln, outOffset))
  {
    hide HeaderBytes, HeaderFor;
    ghost var before := pool.memory[..];
    var place: nat;
    granted, place, outOffset := pool.GetNextSlab(HEADER_SIZE + |ln.message|);
    if granted {
      var block := HeaderBytes(HeaderFor(ln, outOffset)) + ln.message;
      forall i | 0 <= i < |block| {
        pool.memory[place + i] := block[i];
      }
      assert pool.memory[..] == Overwrite(before, place, block);
    }
  }

  /** One call of the parser in use: a line that it refuses changes nothing, and
      one that it takes is written to the shared memory and then pushed.  Nothing
      is promised of an undefined call but that it is the one at a reversed range. */
  method ParseAndPush(c: Call, pool: SlabPool, queue: LogQueue) returns (problem: Problem)
    requires pool.Valid() && queue.Valid()
    modifies pool, pool.memory, queue`head, queue.logArray, queue.telemetry`pushedLogs
    ensures problem.Undefined? <==> !c.Defined()
    ensures problem.NoProblem? <==> Posts(pool.geometry, c)
    ensures problem.TooBigForSlab? <==> Takes(c.Parsed()) && !Posts(pool.geometry, c)
    ensures problem.BadLine? <==> c.Parsed().Fallback? && c.Parsed().parsed.Rejected?
    ensures problem.BadLine? ==> c.Parsed().parsed.why == problem.why
    ensures problem.BadFastLine? <==> c.Parsed().Refused?
    ensures problem.BadFastLine? ==> c.Parsed().why == problem.reason
    ensures !problem.Undefined? ==> pool.Valid() && queue.Valid() && queue.logArray == old(queue.logArray)
    ensures !problem.Undefined? ==> pool.Contents() == Written(pool.geometry, old(pool.Contents()), c)
    ensures !problem.Undefined? ==>
              queue.Contents() ==
                if problem.NoProblem? && queue.logArray != null && queue.isRunning
                then AfterPush(old(queue.Contents()), queue.Capacity(), queue.overflow,
                               PostingOf(pool.geometry, old(pool.Contents()), c).entry)
                else old(queue.Contents())
    ensures problem.NoProblem? && queue.logArray != null && queue.isRunning && old(|queue.Contents()|) + 1 == queue.Capacity() ==>
              queue.Contents() ==
                if queue.overflow == Block || (queue.overflow != DropAll && LineTaken(c.Parsed()).level == 4) then []
                else old(queue.Contents())
  {
    hide Store, Packed, CurrentParser, HeaderFor, AfterPush;
    var parsed := c.Parsed();
    match parsed {
      case Refused(why) =>
        return BadFastLine(why);
      case Reversed(_, _, _, _) =>
        return Undefined;
      case Fallback(Rejected(why)) =>
        return BadLine(why);
      case Fallback(Accepted(_)) =>
      case Done(_) =>
    }
    var ln := LineTaken(parsed);
    var granted, outOffset := WriteLine(ln, pool);
    if !granted {
      return TooBigForSlab;
    }
    TakenIsValid(c);
    EntryLevel(ln, outOffset);
    queue.Push(EntryFor(ln, outOffset));
    problem := NoProblem;
  }
}
