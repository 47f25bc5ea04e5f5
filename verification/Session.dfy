/** The read loop of one connection: reads of whatever size TCP delivers, the
    space check before each read, and the frame loop after it. */
module Sessions {
  import opened Words
  import opened Framing
  import opened MagicRings

  const MIN_SPACE: nat := 1024

  const PAGE: nat := 4096

  function HeaderLength(f: Frame): nat {
    if f.Binary? then 8 else 0
  }

  // Where in its page the payload of a frame lies, after those delivered before it
  function PayloadOffset(before: seq<Frame>, f: Frame): nat {
    (|EncodeAll(before)| + HeaderLength(f)) % PAGE
  }

  // What a connection has unread, what it has handed to the parser, whether it
  // has been told to disconnect, and whether a read is outstanding
  datatype Session = Session(buffer: seq<Byte>, delivered: seq<Frame>, closing: bool, reading: bool)

  function MaxLog(size: nat): nat {
    if size < 32 then 0 else size - 32
  }

  // process_stash
  function Process(size: nat, s: Session): Session {
    var d := Drain(s.buffer, MaxLog(size));
    s.(buffer := d.rest, delivered := s.delivered + d.frames, closing := s.closing || d.tooLong)
  }

  predicate Tight(size: nat, s: Session) {
    size < |s.buffer| + MIN_SPACE
  }

  // read_header, up to the start of the read
  function StartRead(size: nat, s: Session): Session {
    if !Tight(size, s) then s.(reading := true)
    else
      var p := Process(size, s);
      if Tight(size, p) then p.(closing := true, reading := false) else p.(reading := true)
  }

  // The completion of a read that brought `chunk`
  function OnRead(size: nat, s: Session, chunk: seq<Byte>): Session {
    StartRead(size, Process(size, s.(buffer := s.buffer + chunk)))
  }

  const FRESH: Session := Session([], [], false, true)

  function Run(size: nat, s: Session, chunks: seq<seq<Byte>>): Session
    decreases |chunks|
  {
    if chunks == [] then s else Run(size, OnRead(size, s, chunks[0]), chunks[1..])
  }

  // Chunks that the reads of a run can bring: each at most the space offered
  ghost predicate Fitting(size: nat, s: Session, chunks: seq<seq<Byte>>)
    decreases |chunks|
  {
    chunks == [] ||
    (s.reading && |s.buffer| + |chunks[0]| <= size && Fitting(size, OnRead(size, s, chunks[0]), chunks[1..]))
  }

  function Concat(chunks: seq<seq<Byte>>): seq<Byte> {
    if chunks == [] then [] else chunks[0] + Concat(chunks[1..])
  }

  // A stream whose frames, the unfinished last one included, fit the read loop
  ghost predicate Bounded(size: nat, q: seq<Byte>)
    decreases |q|
  {
    match NextFrame(q, MaxLog(size))
    case NeedMore => |q| + MIN_SPACE <= size
    case TooLong => false
    case Deliver(_, n) => 1 <= n <= |q| && n + MIN_SPACE <= size + 1 && Bounded(size, q[n..])
  }

  // An unfinished frame: more bytes may finish it, and then it was not yet all there.
  lemma {:induction false} PartialIsShort(size: nat, a: seq<Byte>, b: seq<Byte>)
    requires size >= 2048 && Bounded(size, a + b) && !NextFrame(a, MaxLog(size)).Deliver?
    ensures NextFrame(a, MaxLog(size)).NeedMore? && |a| + MIN_SPACE <= size
  {
    var maxLog := MaxLog(size);
    if |a| >= 4 {
      assert (a + b)[..4] == a[..4];
      if |a| >= 8 { assert (a + b)[4..8] == a[4..8]; }
      var v := NextFrame(a + b, maxLog);
      if LittleEndian(a[..4]) != NETWORK_MAGIC {
        assert forall k :: 0 <= k < |a| ==> (a + b)[k] == a[k] && a[k] != NEWLINE;
      }
    }
  }

  lemma {:induction false} BoundedPrefix(size: nat, a: seq<Byte>, b: seq<Byte>)
    requires size >= 2048 && Bounded(size, a + b)
    ensures var d := Drain(a, MaxLog(size));
            !d.tooLong && |d.rest| + MIN_SPACE <= size && Bounded(size, d.rest + b)
    decreases |a|
  {
    if NextFrame(a, MaxLog(size)).Deliver? {
      var n := NextFrame(a, MaxLog(size)).size;
      DeliveredIsEncoded(a, MaxLog(size));
      VerdictStands(a, b, MaxLog(size));
      assert (a + b)[n..] == a[n..] + b;
      BoundedPrefix(size, a[n..], b);
    } else {
      PartialIsShort(size, a, b);
    }
  }

  // A session between reads: drained, with room for the next one
  ghost predicate Settled(size: nat, s: Session) {
    && s.reading && !s.closing
    && |s.buffer| + MIN_SPACE <= size
    && Drain(s.buffer, MaxLog(size)) == Drained([], s.buffer, false)
  }

  lemma {:induction false} OneRead(size: nat, s: Session, chunk: seq<Byte>)
    requires Settled(size, s) && !OnRead(size, s, chunk).closing
    ensures var t, d := OnRead(size, s, chunk), Drain(s.buffer + chunk, MaxLog(size));
            && Settled(size, t) && !d.tooLong
            && t == Session(d.rest, s.delivered + d.frames, false, true)
  {
    DrainedIsDrained(s.buffer + chunk, MaxLog(size));
  }

  lemma {:induction false} ClosingSticks(size: nat, s: Session, chunks: seq<seq<Byte>>)
    requires s.closing
    ensures Run(size, s, chunks).closing
    decreases |chunks|
  {
    if chunks != [] { ClosingSticks(size, OnRead(size, s, chunks[0]), chunks[1..]); }
  }

  /** Chunk independence: however the bytes of a stream are cut into reads, if no
      disconnect fires then the parser gets the frames of one pass over the whole
      stream, in order, and the same bytes stay unread. */
  lemma {:induction false} ChunkIndependence(size: nat, s: Session, chunks: seq<seq<Byte>>)
    requires Settled(size, s) && !Run(size, s, chunks).closing
    ensures var t, d := Run(size, s, chunks), Drain(s.buffer + Concat(chunks), MaxLog(size));
            && Settled(size, t) && !d.tooLong
            && t == Session(d.rest, s.delivered + d.frames, false, true)
    decreases |chunks|
  {
    hide NextFrame, Drain, OnRead;
    if chunks == [] {
      assert s.buffer + Concat(chunks) == s.buffer;
      assert s.delivered + [] == s.delivered;
    } else {
      var c, more := chunks[0], Concat(chunks[1..]);
      var t, d := OnRead(size, s, c), Drain(s.buffer + c, MaxLog(size));
      if t.closing { ClosingSticks(size, t, chunks[1..]); }
      assert s.buffer + Concat(chunks) == s.buffer + c + more;
      OneRead(size, s, c);
      DrainResumes(s.buffer + c, more, MaxLog(size));
      ChunkIndependence(size, t, chunks[1..]);
      AfterTwice(s.delivered, d.frames, Drain(t.buffer + more, MaxLog(size)));
    }
  }

  lemma {:induction false} ReadKeepsBounded(size: nat, s: Session, chunk: seq<Byte>, more: seq<Byte>)
    requires size >= 2048 && Settled(size, s) && Bounded(size, s.buffer + chunk + more)
    ensures var t := OnRead(size, s, chunk); Settled(size, t) && Bounded(size, t.buffer + more)
  {
    BoundedPrefix(size, s.buffer + chunk, more);
    DrainedIsDrained(s.buffer + chunk, MaxLog(size));
  }

  /** No cut of a bounded stream makes a disconnect fire. */
  lemma {:induction false} BoundedStaysOpen(size: nat, s: Session, chunks: seq<seq<Byte>>)
    requires size >= 2048 && Settled(size, s) && Bounded(size, s.buffer + Concat(chunks))
    ensures !Run(size, s, chunks).closing
    decreases |chunks|
  {
    hide NextFrame, Drain, OnRead, Bounded;
    if chunks != [] {
      var c, more := chunks[0], Concat(chunks[1..]);
      assert s.buffer + Concat(chunks) == s.buffer + c + more;
      ReadKeepsBounded(size, s, c, more);
      BoundedStaysOpen(size, OnRead(size, s, c), chunks[1..]);
    }
  }

  // ---- Conservation ----

  // All the bytes a session has received
  ghost function Received(s: Session): seq<Byte> {
    EncodeAll(s.delivered) + s.buffer
  }

  lemma ProcessConserves(size: nat, s: Session)
    ensures Received(Process(size, s)) == Received(s)
  {
    hide Drain, Encode;
    var d := Drain(s.buffer, MaxLog(size));
    DrainConserves(s.buffer, MaxLog(size));
    EncodeAllAppend(s.delivered, d.frames);
  }

  lemma ReadConserves(size: nat, s: Session, chunk: seq<Byte>)
    ensures Received(OnRead(size, s, chunk)) == Received(s) + chunk
  {
    hide Process, EncodeAll;
    var r := s.(buffer := s.buffer + chunk);
    ProcessConserves(size, r);
    ProcessConserves(size, Process(size, r));
  }

  /** Conservation over every run, whether or not it ends in a disconnect: the
      frames handed over, encoded again, and the bytes left unread are together
      exactly the bytes received. */
  lemma {:induction false} RunConserves(size: nat, s: Session, chunks: seq<seq<Byte>>)
    ensures var t := Run(size, s, chunks);
            EncodeAll(t.delivered) + t.buffer == EncodeAll(s.delivered) + s.buffer + Concat(chunks)
    decreases |chunks|
  {
    hide OnRead, EncodeAll;
    if chunks != [] {
      ReadConserves(size, s, chunks[0]);
      RunConserves(size, OnRead(size, s, chunks[0]), chunks[1..]);
    }
  }

  /** Encoded frames of at most size - 1023 bytes each make a bounded stream. */
  lemma {:induction false} EncodedIsBounded(size: nat, fs: seq<Frame>)
    requires 2048 <= size < UINT32
    requires forall f <- fs :: WellFormed(f, MaxLog(size)) && |Encode(f)| + 1023 <= size
    ensures Bounded(size, EncodeAll(fs))
  {
    if |EncodeAll(fs)| >= 4 {
      EncodedIsDelivered(fs[0], EncodeAll(fs[1..]), MaxLog(size));
      assert EncodeAll(fs)[|Encode(fs[0])|..] == EncodeAll(fs[1..]);
      EncodedIsBounded(size, fs[1..]);
    }
  }

  /** End to end on the wire: frames sent and cut anywhere arrive in order, but
      for a last run of frames shorter than four bytes in all. */
  lemma {:induction false} FramesArrive(size: nat, fs: seq<Frame>, chunks: seq<seq<Byte>>)
    requires 2048 <= size < UINT32
    requires forall f <- fs :: WellFormed(f, MaxLog(size)) && |Encode(f)| + 1023 <= size
    requires Concat(chunks) == EncodeAll(fs)
    ensures Run(size, FRESH, chunks) == Session(EncodeAll(fs[Ready(fs)..]), fs[..Ready(fs)], false, true)
    ensures |EncodeAll(fs[Ready(fs)..])| < 4
  {
    EncodedIsBounded(size, fs);
    RoundTrip(fs, MaxLog(size));
    assert [] + Concat(chunks) == Concat(chunks);
    assert [] + fs[..Ready(fs)] == fs[..Ready(fs)];
    BoundedStaysOpen(size, FRESH, chunks);
    ChunkIndependence(size, FRESH, chunks);
  }

  // A proper front part of an encoded frame of at most maxLog bytes is no frame.
  lemma FrontIsPartial(f: Frame, n: nat, maxLog: nat)
    requires WellFormed(f, maxLog) && maxLog < UINT32 && 8 <= n < |Encode(f)| && n <= maxLog
    ensures NextFrame(Encode(f)[..n], maxLog) == NeedMore
  {
    var q := Encode(f);
    var a := q[..n];
    assert a[..4] == q[..4] && a[4..8] == q[4..8];
    SignatureIsMagic(q[..4]);
    match f
    case Binary(p) =>
      assert q[..4] == MAGIC && q[4..8] == BigEndianBytes(|p|);
      LengthField(|p|);
    case Text(line) =>
      assert q[..4] == line[..4];
      assert forall k :: 0 <= k < n ==> a[k] == line[k] && line[k] in line;
  }

  // One read for each frame
  ghost function Pieces(fs: seq<Frame>): (chunks: seq<seq<Byte>>)
    ensures |chunks| == |fs|
  {
    if fs == [] then [] else Pieces(fs[..|fs| - 1]) + [Encode(fs[|fs| - 1])]
  }

  lemma {:induction false} OneMoreChunk(size: nat, s: Session, chunks: seq<seq<Byte>>, c: seq<Byte>)
    ensures Concat(chunks + [c]) == Concat(chunks) + c
    ensures Run(size, s, chunks + [c]) == OnRead(size, Run(size, s, chunks), c)
    ensures var t := Run(size, s, chunks);
            Fitting(size, s, chunks + [c]) <==> Fitting(size, s, chunks) && t.reading && |t.buffer| + |c| <= size
    decreases |chunks|
  {
    hide OnRead;
    if chunks == [] {
      assert [] + [c] == [c] && [c][1..] == [];
      var t := OnRead(size, s, c);
      assert Run(size, t, []) == t && Fitting(size, t, []) && Concat([c]) == c + [] == c;
    } else {
      assert (chunks + [c])[1..] == chunks[1..] + [c];
      OneMoreChunk(size, OnRead(size, s, chunks[0]), chunks[1..], c);
    }
  }

  // Frames within the limit, read one by one, always fit.
  lemma {:induction false} PiecesFit(size: nat, fs: seq<Frame>)
    requires 2048 <= size < UINT32
    requires forall f <- fs :: WellFormed(f, MaxLog(size)) && |Encode(f)| + 1023 <= size
    ensures Fitting(size, FRESH, Pieces(fs)) && Concat(Pieces(fs)) == EncodeAll(fs)
  {
    hide NextFrame, Encode, WellFormed, Run, OnRead, Fitting;
    if fs == [] {
      assert Fitting(size, FRESH, []) by { NothingFits(size, FRESH); }
    } else {
      var init, last := fs[..|fs| - 1], fs[|fs| - 1];
      assert fs == init + [last] && last in fs;
      PiecesFit(size, init);
      FramesArrive(size, init, Pieces(init));
      OneMoreChunk(size, FRESH, Pieces(init), Encode(last));
      EncodeAllAppend(init, [last]);
      assert EncodeAll([last]) == Encode(last) + [] == Encode(last);
    }
  }

  lemma {:induction false} NothingFits(size: nat, s: Session)
    ensures Fitting(size, s, [])
  {
  }

  // An unfinished frame that fills the buffer up to the space check
  lemma {:induction false} TightCloses(size: nat, s: Session, chunk: seq<Byte>, rest: seq<Byte>)
    requires Drain(s.buffer + chunk, MaxLog(size)).rest == rest && size < |rest| + MIN_SPACE
    requires Drain(rest, MaxLog(size)) == Drained([], rest, false)
    ensures OnRead(size, s, chunk).closing
  {
    hide Drain;
  }

  // The first size - 1023 bytes of a frame leave too little space to read the rest.
  lemma {:induction false} FrontFillsBuffer(size: nat, s: Session, short: seq<Frame>, f: Frame)
    requires 2048 <= size < UINT32 && WellFormed(f, MaxLog(size)) && |Encode(f)| + 1023 > size
    requires s.buffer == EncodeAll(short) && forall g <- short :: WellFormed(g, MaxLog(size))
    ensures OnRead(size, s, Encode(f)[..size - 1023]).closing
  {
    hide NextFrame, Encode, WellFormed, Drain, OnRead;
    var a := Encode(f)[..size - 1023];
    FrontIsPartial(f, size - 1023, MaxLog(size));
    DrainStops(a, MaxLog(size));
    DrainEncodedList(short, a, MaxLog(size));
    TightCloses(size, s, a, a);
  }

  lemma BadFrameCloses(size: nat, fs: seq<Frame>, i: nat) returns (chunks: seq<seq<Byte>>)
    requires 2048 <= size < UINT32 && i < |fs| && forall f <- fs :: WellFormed(f, MaxLog(size))
    requires |Encode(fs[i])| + 1023 > size
    requires forall f <- fs[..i] :: |Encode(f)| + 1023 <= size
    ensures Fitting(size, FRESH, chunks) && Concat(chunks) <= EncodeAll(fs) && Run(size, FRESH, chunks).closing
  {
    hide NextFrame, Encode, WellFormed, Run, OnRead, Fitting, Pieces;
    var good, a := fs[..i], Encode(fs[i])[..size - 1023];
    PiecesFit(size, good);
    FramesArrive(size, good, Pieces(good));
    OneMoreChunk(size, FRESH, Pieces(good), a);
    FrontFillsBuffer(size, Run(size, FRESH, Pieces(good)), good[Ready(good)..], fs[i]);
    chunks := Pieces(good) + [a];
    assert fs == good + fs[i..];
    EncodeAllAppend(good, fs[i..]);
    assert EncodeAll(fs[i..]) == a + (Encode(fs[i])[size - 1023..] + EncodeAll(fs[i..][1..]));
  }

  /** The limit is exact: a stream of well-formed frames survives every way of
      cutting it exactly when each takes at most size - 1023 bytes.  Binary
      payloads from size - 1030 to size - 32 bytes pass the length check of the
      frame loop but not the space check of the read loop, if some read leaves
      size - 1023 bytes or more of the frame unread without completing it. */
  lemma {:induction false} StreamLimitIsExact(size: nat, fs: seq<Frame>)
    requires 2048 <= size < UINT32 && forall f <- fs :: WellFormed(f, size - 32)
    ensures (forall f <- fs :: |Encode(f)| + 1023 <= size) <==>
              forall chunks :: Fitting(size, FRESH, chunks) && Concat(chunks) <= EncodeAll(fs)
                ==> !Run(size, FRESH, chunks).closing
  {
    hide NextFrame, Encode, WellFormed, Run, Fitting, EncodeAll;
    if forall f <- fs :: |Encode(f)| + 1023 <= size {
      EncodedIsBounded(size, fs);
      forall chunks | Concat(chunks) <= EncodeAll(fs) ensures !Run(size, FRESH, chunks).closing {
        SurvivesPrefix(size, EncodeAll(fs), chunks);
      }
    } else {
      var i := FirstBad(size, fs);
      var chunks := BadFrameCloses(size, fs, i);
    }
  }

  lemma {:induction false} FirstBad(size: nat, fs: seq<Frame>) returns (i: nat)
    requires exists f <- fs :: |Encode(f)| + 1023 > size
    ensures i < |fs| && |Encode(fs[i])| + 1023 > size
    ensures forall f <- fs[..i] :: |Encode(f)| + 1023 <= size
  {
    hide Encode;
    if |Encode(fs[0])| + 1023 > size {
      i := 0;
    } else {
      var j := FirstBad(size, fs[1..]);
      i := j + 1;
      assert fs[..i] == [fs[0]] + fs[1..][..j];
    }
  }

  lemma {:induction false} SurvivesPrefix(size: nat, q: seq<Byte>, chunks: seq<seq<Byte>>)
    requires size >= 2048 && Bounded(size, q) && Concat(chunks) <= q
    ensures !Run(size, FRESH, chunks).closing
  {
    var a := Concat(chunks);
    assert q == a + q[|a|..];
    BoundedIsPrefixClosed(size, a, q[|a|..]);
    assert [] + a == a;
    BoundedStaysOpen(size, FRESH, chunks);
  }

  lemma {:induction false} BoundedIsPrefixClosed(size: nat, a: seq<Byte>, b: seq<Byte>)
    requires size >= 2048 && Bounded(size, a + b)
    ensures Bounded(size, a)
    decreases |a|
  {
    if NextFrame(a, MaxLog(size)).Deliver? {
      var n := NextFrame(a, MaxLog(size)).size;
      DeliveredIsEncoded(a, MaxLog(size));
      VerdictStands(a, b, MaxLog(size));
      assert (a + b)[n..] == a[n..] + b;
      BoundedIsPrefixClosed(size, a[n..], b);
    } else {
      PartialIsShort(size, a, b);
    }
  }

  class NetworkSession {
    const stash: MagicRingBuffer
    const maxLogSize: nat
    // The frames whose payload has been given to the parser
    var delivered: seq<Frame>
    var isClosing: bool
    var reading: bool

    ghost predicate Valid()
      reads this, stash, stash.physical
    {
      && stash.Valid() && maxLogSize == MaxLog(stash.size)
      && stash.tail == |EncodeAll(delivered)| % WORD
    }

    ghost function State(): Session
      reads this, stash, stash.physical
      requires Valid()
    {
      Session(stash.Contents(), delivered, isClosing, reading)
    }

    /** `maxSize` is the configured log size in MiB. */
    constructor (maxSize: nat)
      requires 1 <= maxSize < 4096
      ensures Valid() && fresh(stash) && fresh(stash.physical)
      ensures stash.size == BitFloor(maxSize * 1024 * 1024)
      ensures maxLogSize == stash.size - 32
      ensures State() == Session([], [], false, false)
    {
      var size := BitFloor(maxSize * 1024 * 1024);
      FloorOfMebibytes(maxSize);
      stash := new MagicRingBuffer(size);
      maxLogSize := size - 32;
      delivered, isClosing, reading := [], false, false;
    }

    static lemma {:induction false} FloorOfMebibytes(n: nat)
      requires 1 <= n < 4096
      ensures var c := BitFloor(n * 1024 * 1024);
              IsPow2(c) && 0x1_0000 <= c < UINT32 && c % 0x1_0000 == 0
    {
      PowersOfSession();
      hide IsPow2, BitFloor;
      Pow2Divides(0x1_0000, BitFloor(n * 1024 * 1024));
    }

    static lemma PowersOfSession()
      ensures IsPow2(PAGE) && IsPow2(0x1_0000)
    {
      Pow2Product(0x40, 0x40);
      Pow2Product(0x100, 0x100);
    }

    // The frame that q begins with, and its payload h bytes into it
    static lemma PayloadInFrame(q: seq<Byte>, maxLog: nat)
      requires NextFrame(q, maxLog).Deliver?
      ensures var f := NextFrame(q, maxLog).frame;
              var h := if f.Binary? then 8 else 0;
              && h + |f.payload| <= |Encode(f)| <= |q| && q[..|Encode(f)|] == Encode(f)
              && Encode(f)[h..h + |f.payload|] == f.payload
    {
      hide NextFrame;
      DeliveredIsEncoded(q, maxLog);
    }

    /** The mapping begins at a page, so the bytes consumed so far determine where
        in its page the next payload lies: h bytes into the encoded frame that the
        unread bytes begin with. */
    lemma PayloadPlace()
      requires Valid() && NextFrame(stash.Contents(), maxLogSize).Deliver?
      ensures var q, f := stash.Contents(), NextFrame(stash.Contents(), maxLogSize).frame;
              var h := if f.Binary? then 8 else 0;
              && h + |f.payload| <= |Encode(f)| <= |q| && q[..|Encode(f)|] == Encode(f)
              && Encode(f)[h..h + |f.payload|] == f.payload
              && (stash.Offset(stash.tail) + h) % 4096 == PayloadOffset(delivered, f)
    {
      hide NextFrame, And, IsPow2, EncodeAll, Encode, Window;
      PayloadInFrame(stash.Contents(), maxLogSize);
      PageDividesSize();
      OffsetInPage(|EncodeAll(delivered)|, stash.size, HeaderLength(NextFrame(stash.Contents(), maxLogSize).frame));
    }

    static lemma OffsetInPage(n: nat, size: nat, h: nat)
      requires IsPow2(size) && size <= WORD && size % PAGE == 0
      ensures (And(n % WORD, size - 1) + h) % PAGE == (n + h) % PAGE
    {
      hide And, IsPow2;
      MaskIsMod(n % WORD, size);
      WrapMod(n, size);
      ModMod(n, size, PAGE);
      ModAddLeft(n, h, PAGE);
      ModAddLeft(n % size, h, PAGE);
    }

    lemma PageDividesSize()
      requires Valid()
      ensures stash.size % PAGE == 0
    {
      PowersOfSession();
      Pow2Divides(PAGE, stash.size);
    }

    // The verdict of one turn of the frame loop, and the payload view it is about
    method Inspect(available: nat) returns (v: Verdict)
      requires Valid() && available == |stash.Contents()| >= 4
      ensures v == NextFrame(stash.Contents(), maxLogSize)
    {
      hide Window, And, WrapSub, WrapAdd, FindNewline, LittleEndian, ByteSwap, IsPow2, EncodeAll;
      ghost var q := stash.Contents();
      var signature := stash.Peek(0);
      if signature == NETWORK_MAGIC {
        if available < 8 { return NeedMore; }
        var field := stash.Peek(4);
        var logLen := ByteSwap(field);
        if logLen == 0 || logLen > maxLogSize { return TooLong; }
        SmallMod(8 + logLen, UINT32);
        var total := (8 + logLen) % UINT32;
        if available < total { return NeedMore; }
        var view := stash.GetView(total);
        assert view[8..] == q[8..total];
        return Deliver(Binary(view[8..]), total);
      }
      var view := stash.GetView(available);
      assert view == q;
      var found := FindNewline(view);
      if found == |view| {
        return if available > maxLogSize then TooLong else NeedMore;
      }
      return Deliver(Text(view[..found]), found + 1);
    }

    /** The frame loop.  Each turn consumes at least one byte and hands the
        parser one frame; what it leaves is what `Process` says. */
    method ProcessStash()
      requires Valid()
      modifies this`delivered, this`isClosing, stash`tail
      ensures Valid()
      ensures State() == Process(stash.size, old(State()))
    {
      hide NextFrame, Drain, Window, And, WrapSub, WrapAdd, EncodeAll;
      ghost var q, done, start := stash.Contents(), [], delivered;
      ghost var whole := Drain(q, maxLogSize);
      assert start == start + done && whole.After(done) == whole;
      var available := stash.GetBytesAvailable();
      while available >= 4
        invariant Valid() && q == stash.Contents() && available == |q|
        invariant delivered == start + done && isClosing == old(isClosing)
        invariant stash.tail == |EncodeAll(delivered)| % WORD
        invariant whole == Drain(q, maxLogSize).After(done)
        decreases available
      {
        var v := Inspect(available);
        match v {
          case NeedMore =>
            break;
          case TooLong =>
            DrainStops(q, maxLogSize);
            isClosing := true;
            return;
          case Deliver(frame, size) =>
            ghost var f, more := DrainStep(q, maxLogSize);
            AfterTwice(done, [f], Drain(more, maxLogSize));
            OneMoreDelivered(delivered, frame);
            delivered := delivered + [frame];
            stash.Consume(size);
            available := stash.GetBytesAvailable();
            assert start + (done + [f]) == start + done + [f];
            q, done := more, done + [f];
        }
      }
      DrainStops(q, maxLogSize);
    }

    static lemma {:induction false} OneMoreDelivered(before: seq<Frame>, f: Frame)
      ensures WrapAdd(|EncodeAll(before)| % WORD, |Encode(f)|) == |EncodeAll(before + [f])| % WORD
    {
      hide Encode;
      EncodeAllAppend(before, [f]);
      assert EncodeAll([f]) == Encode(f) + [] == Encode(f);
      ModAddLeft(|EncodeAll(before)|, |Encode(f)|, WORD);
    }

    /** The space check before a read; `space` is what the read may bring. */
    method ReadHeader() returns (space: nat)
      requires Valid()
      modifies this, stash`tail
      ensures Valid()
      ensures State() == StartRead(stash.size, old(State()))
      ensures reading ==> space == stash.size - |stash.Contents()| >= MIN_SPACE
    {
      space := stash.GetWriteSpace();
      if space < 1024 {
        ProcessStash();
        space := stash.GetWriteSpace();
        if space < 1024 {
          isClosing := true;
          reading := false;
          return;
        }
      }
      reading := true;
    }

    /** The completion of a read that brought `chunk`. */
    method ReadCompleted(chunk: seq<Byte>) returns (space: nat)
      requires Valid() && reading && |chunk| <= stash.size - |stash.Contents()|
      modifies this, stash, stash.physical
      ensures Valid()
      ensures State() == OnRead(stash.size, old(State()), chunk)
      ensures reading ==> space == stash.size - |stash.Contents()| >= MIN_SPACE
    {
      stash.Arrive(chunk);
      stash.CommitWrite(|chunk|);
      ProcessStash();
      space := ReadHeader();
    }
  }
}
