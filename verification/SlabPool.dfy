/** The shared-memory slab allocator: a bump pointer inside a slab, and a slab
    index that advances with `& (max_slabs - 1)` for any number of slabs.

    `P`, the largest power of two dividing `max_slabs`, is the true length of
    the slab rotation.  The module relates every run of requests to it.
  */
module SlabPools {
  import opened Words

  // sizeof(SharedLogEntryHeader), in front of every message
  const HEADER_SIZE: nat := 29

  const MEBIBYTE: nat := 1024 * 1024

  datatype Geometry = Geometry(slabSize: nat, maxSlabs: nat) {
    // There is a slab, and the mapped region has a 64-bit size.
    ghost predicate Valid() {
      maxSlabs >= 1 && slabSize * maxSlabs < WORD
    }

    ghost function Cycle(): (p: nat)
      requires maxSlabs >= 1
      ensures 1 <= p <= maxSlabs
    {
      LowPow2(maxSlabs)
    }
  }

  datatype Cursor = Cursor(index: nat, offset: nat)

  datatype Grant = Refused | Granted(cursor: Cursor, place: nat, outOffset: nat)

  // The arithmetic of one request for `needed` bytes
  function GetNext(g: Geometry, c: Cursor, needed: nat): Grant
    requires g.maxSlabs >= 1
  {
    if needed > g.slabSize then
      Refused
    else
      var at := if c.offset + needed > g.slabSize
                then Cursor(And(c.index + 1, g.maxSlabs - 1), 0) else c;
      var relative := at.index * g.slabSize + at.offset;
      Granted(at.(offset := at.offset + needed), relative, relative % UINT32)
  }

  // The allocator together with the bytes it hands out and a count of its rollovers
  datatype Shelf = Shelf(cursor: Cursor, rollovers: nat, memory: seq<Byte>) {
    ghost predicate Valid(g: Geometry) {
      && g.Valid()
      && cursor.index == rollovers % g.Cycle()
      && cursor.offset <= g.slabSize
      && |memory| == g.slabSize * g.maxSlabs
    }
  }

  datatype Record = Record(epoch: nat, place: nat, bytes: seq<Byte>)

  function Overwrite(memory: seq<Byte>, place: nat, bytes: seq<Byte>): (m: seq<Byte>)
    requires place + |bytes| <= |memory|
    ensures |m| == |memory|
  {
    memory[..place] + bytes + memory[place + |bytes|..]
  }

  function EpochAfter(g: Geometry, s: Shelf, needed: nat): nat {
    if s.cursor.offset + needed > g.slabSize then s.rollovers + 1 else s.rollovers
  }

  // `& (max_slabs - 1)` steps the slab index modulo P.
  lemma RolloverIndex(g: Geometry, s: Shelf)
    requires s.Valid(g)
    ensures And(s.cursor.index + 1, g.maxSlabs - 1) == (s.rollovers + 1) % g.Cycle()
  {
    MaskLowPart(s.cursor.index + 1, g.maxSlabs);
    ModAddLeft(s.rollovers, 1, g.Cycle());
  }

  // Slab i of the cycle lies inside the mapped region.
  lemma SlabInRange(g: Geometry, i: nat)
    requires g.Valid() && i < g.Cycle()
    ensures (i + 1) * g.slabSize == i * g.slabSize + g.slabSize
    ensures (i + 1) * g.slabSize <= g.slabSize * g.maxSlabs < WORD
  {
    MulMono(i + 1, g.maxSlabs, g.slabSize);
  }

  // Where the next granted region of `needed` bytes lies
  lemma GrantBounds(g: Geometry, s: Shelf, needed: nat)
    requires s.Valid(g) && needed <= g.slabSize
    ensures var r, i := GetNext(g, s.cursor, needed), EpochAfter(g, s, needed) % g.Cycle();
            && r.Granted?
            && r.cursor.index == i
            && needed <= r.cursor.offset <= g.slabSize
            && r.place == i * g.slabSize + (r.cursor.offset - needed)
            && r.outOffset == r.place % UINT32
            && r.place + needed <= (i + 1) * g.slabSize <= |s.memory|
  {
    hide And;
    if s.cursor.offset + needed > g.slabSize { RolloverIndex(g, s); }
    SlabInRange(g, EpochAfter(g, s, needed) % g.Cycle());
  }

  lemma MulMono(x: nat, y: nat, z: nat)
    requires x <= y
    ensures x * z <= y * z
  {
  }

  // A request followed by the write of the bytes it was made for
  ghost function Store(g: Geometry, s: Shelf, bytes: seq<Byte>): (t: Shelf)
    requires s.Valid(g)
    ensures t.Valid(g)
  {
    if |bytes| > g.slabSize then s
    else
      GrantBounds(g, s, |bytes|);
      var r := GetNext(g, s.cursor, |bytes|);
      Shelf(r.cursor, EpochAfter(g, s, |bytes|), Overwrite(s.memory, r.place, bytes))
  }

  ghost function RecordOf(g: Geometry, s: Shelf, bytes: seq<Byte>): Record
    requires s.Valid(g) && |bytes| <= g.slabSize
  {
    Record(Store(g, s, bytes).rollovers, GetNext(g, s.cursor, |bytes|).place, bytes)
  }

  ghost function StoreAll(g: Geometry, s: Shelf, run: seq<seq<Byte>>): (t: Shelf)
    requires s.Valid(g)
    ensures t.Valid(g)
    decreases |run|
  {
    if run == [] then s
    else Store(g, StoreAll(g, s, run[..|run| - 1]), run[|run| - 1])
  }

  // What a run was granted, in order; refused requests leave no record
  ghost function Records(g: Geometry, s: Shelf, run: seq<seq<Byte>>): seq<Record>
    requires s.Valid(g)
    decreases |run|
  {
    if run == [] then []
    else
      var before, last := run[..|run| - 1], run[|run| - 1];
      Records(g, s, before) +
      if |last| > g.slabSize then [] else [RecordOf(g, StoreAll(g, s, before), last)]
  }

  // The region of a record lies inside one slab, the one its epoch selects.
  ghost predicate InItsSlab(g: Geometry, r: Record)
    requires g.Valid()
  {
    && (r.epoch % g.Cycle()) * g.slabSize <= r.place
    && r.place + |r.bytes| <= (r.epoch % g.Cycle() + 1) * g.slabSize
    && r.place + |r.bytes| <= g.slabSize * g.maxSlabs
  }

  ghost predicate Retained(s: Shelf, r: Record) {
    r.place + |r.bytes| <= |s.memory| && s.memory[r.place..r.place + |r.bytes|] == r.bytes
  }

  ghost predicate Apart(r: Record, q: Record) {
    r.place + |r.bytes| <= q.place || q.place + |q.bytes| <= r.place
  }

  ghost predicate Keeps(g: Geometry, s: Shelf, r: Record)
    requires s.Valid(g)
  {
    && InItsSlab(g, r)
    && r.epoch <= s.rollovers
    && (r.epoch == s.rollovers ==> r.place + |r.bytes| <= s.cursor.index * g.slabSize + s.cursor.offset)
    && (s.rollovers < r.epoch + g.Cycle() ==> Retained(s, r))
  }

  // Fewer than P rollovers apart, a record is disjoint from the newest one.
  lemma NewestIsApart(g: Geometry, s: Shelf, r: Record, bytes: seq<Byte>)
    requires s.Valid(g) && |bytes| <= g.slabSize && Keeps(g, s, r)
    requires Store(g, s, bytes).rollovers < r.epoch + g.Cycle()
    ensures Apart(r, RecordOf(g, s, bytes))
  {
    GrantBounds(g, s, |bytes|);
    var p, e := g.Cycle(), Store(g, s, bytes).rollovers;
    if e != r.epoch {
      ModDistinct(r.epoch, e, p);
      var i, j := r.epoch % p, e % p;
      if i < j { MulMono(i + 1, j, g.slabSize); } else { MulMono(j + 1, i, g.slabSize); }
    }
  }

  lemma StoreKeeps(g: Geometry, s: Shelf, r: Record, bytes: seq<Byte>)
    requires s.Valid(g) && Keeps(g, s, r)
    ensures Keeps(g, Store(g, s, bytes), r)
  {
    hide And, Overwrite;
    if |bytes| <= g.slabSize {
      GrantBounds(g, s, |bytes|);
      if Store(g, s, bytes).rollovers < r.epoch + g.Cycle() {
        NewestIsApart(g, s, r, bytes);
        OverwriteKeeps(s.memory, RecordOf(g, s, bytes).place, bytes, r.place, |r.bytes|);
      }
    }
  }

  // What lies before or behind the bytes written stays as it was.
  lemma OverwriteKeeps(memory: seq<Byte>, place: nat, bytes: seq<Byte>, from: nat, n: nat)
    requires place + |bytes| <= |memory| && from + n <= |memory|
    requires from + n <= place || place + |bytes| <= from
    ensures Overwrite(memory, place, bytes)[from..from + n] == memory[from..from + n]
  {
  }

  lemma StoreKeepsNewest(g: Geometry, s: Shelf, bytes: seq<Byte>)
    requires s.Valid(g) && |bytes| <= g.slabSize
    ensures Keeps(g, Store(g, s, bytes), RecordOf(g, s, bytes))
  {
    GrantBounds(g, s, |bytes|);
  }

  /** Retention over every run: each record lies in the slab its epoch selects,
      and its bytes are intact until P further rollovers. */
  lemma {:induction false} RunRetains(g: Geometry, s: Shelf, run: seq<seq<Byte>>)
    requires s.Valid(g)
    ensures forall r <- Records(g, s, run) :: Keeps(g, StoreAll(g, s, run), r)
  {
    if run != [] {
      var before, last := run[..|run| - 1], run[|run| - 1];
      RunRetains(g, s, before);
      var mid := StoreAll(g, s, before);
      forall r <- Records(g, s, run) ensures Keeps(g, Store(g, mid, last), r) {
        if r in Records(g, s, before) {
          StoreKeeps(g, mid, r, last);
        } else {
          StoreKeepsNewest(g, mid, last);
        }
      }
    }
  }

  ghost predicate AllApart(g: Geometry, recs: seq<Record>)
    requires g.Valid()
  {
    forall i, j :: 0 <= i < j < |recs| && recs[j].epoch < recs[i].epoch + g.Cycle() ==> Apart(recs[i], recs[j])
  }

  /** Allocation safety over every run: two records fewer than P rollovers apart
      never overlap. */
  lemma {:induction false} RunIsApart(g: Geometry, s: Shelf, run: seq<seq<Byte>>)
    requires s.Valid(g)
    ensures AllApart(g, Records(g, s, run))
  {
    if run != [] {
      var before, last := run[..|run| - 1], run[|run| - 1];
      RunIsApart(g, s, before);
      RunRetains(g, s, before);
      var mid, kept := StoreAll(g, s, before), Records(g, s, before);
      if |last| > g.slabSize {
        assert Records(g, s, run) == kept;
      } else {
        var newest := RecordOf(g, mid, last);
        forall i | 0 <= i < |kept| && newest.epoch < kept[i].epoch + g.Cycle()
          ensures Apart(kept[i], newest)
        {
          assert kept[i] in kept;
          NewestIsApart(g, mid, kept[i], last);
        }
        assert Records(g, s, run) == kept + [newest];
      }
    }
  }

  /** After k rollovers the slab index is k mod P, in every state of every run;
      the rotation covers all the slabs exactly when their number is a power of two. */
  lemma {:induction false} RotationLength(g: Geometry, s: Shelf, run: seq<seq<Byte>>)
    requires s.Valid(g)
    ensures StoreAll(g, s, run).cursor.index == StoreAll(g, s, run).rollovers % g.Cycle()
    ensures g.Cycle() == g.maxSlabs <==> IsPow2(g.maxSlabs)
  {
    LowPow2IsAll(g.maxSlabs);
  }

  // ---- Where each record lies ----

  // The place the cursor stands at
  ghost function EndOf(g: Geometry, s: Shelf): nat {
    s.cursor.index * g.slabSize + s.cursor.offset
  }

  // The requests that a slab has room for, in order
  ghost function FittingRequests(g: Geometry, run: seq<seq<Byte>>): seq<seq<Byte>>
    decreases |run|
  {
    if run == [] then []
    else
      var before, last := run[..|run| - 1], run[|run| - 1];
      FittingRequests(g, before) + if |last| <= g.slabSize then [last] else []
  }

  // r is granted in a state with the cursor at `end` in slab `epoch` of the run:
  // directly there if its bytes fit into that slab, and else at the base of the next.
  ghost predicate Placed(g: Geometry, epoch: nat, end: nat, r: Record)
    requires g.Valid()
  {
    if end + |r.bytes| <= (epoch % g.Cycle() + 1) * g.slabSize
    then r.epoch == epoch && r.place == end
    else r.epoch == epoch + 1 && r.place == (r.epoch % g.Cycle()) * g.slabSize
  }

  lemma StoreIsPlaced(g: Geometry, s: Shelf, bytes: seq<Byte>)
    requires s.Valid(g) && |bytes| <= g.slabSize
    ensures var r, t := RecordOf(g, s, bytes), Store(g, s, bytes);
            && Placed(g, s.rollovers, EndOf(g, s), r)
            && t.rollovers == r.epoch && EndOf(g, t) == r.place + |bytes|
  {
    hide And;
    GrantBounds(g, s, |bytes|);
    SlabInRange(g, s.rollovers % g.Cycle());
  }

  ghost predicate InSequence(g: Geometry, s: Shelf, recs: seq<Record>)
    requires s.Valid(g)
  {
    && (recs != [] ==> Placed(g, s.rollovers, EndOf(g, s), recs[0]))
    && forall i :: 0 < i < |recs| ==>
         Placed(g, recs[i - 1].epoch, recs[i - 1].place + |recs[i - 1].bytes|, recs[i])
  }

  /** No gaps: over every run a record lies directly behind the one before it, in
      the same epoch, exactly if its bytes fit into the rest of that slab; else it
      is at the base of the next slab of the rotation, one epoch on.  The first
      record is placed like that against the cursor of the pool, and the records
      are of exactly the requests that a slab has room for. */
  lemma {:induction false} RunIsPlaced(g: Geometry, s: Shelf, run: seq<seq<Byte>>)
    requires s.Valid(g)
    ensures var recs := Records(g, s, run);
            && InSequence(g, s, recs)
            && |recs| == |FittingRequests(g, run)| && forall i :: 0 <= i < |recs| ==> recs[i].bytes == FittingRequests(g, run)[i]
    ensures LastIsAtCursor(g, s, run)
    decreases |run|
  {
    hide Placed, Store, RecordOf, EndOf;
    if run != [] {
      var before, last := run[..|run| - 1], run[|run| - 1];
      RunIsPlaced(g, s, before);
      if |last| <= g.slabSize {
        StoreIsPlaced(g, StoreAll(g, s, before), last);
        RecordOfBytes(g, StoreAll(g, s, before), last);
      } else {
        RefusedIsKept(g, StoreAll(g, s, before), last);
      }
    }
  }

  ghost predicate LastIsAtCursor(g: Geometry, s: Shelf, run: seq<seq<Byte>>)
    requires s.Valid(g)
  {
    var recs, t := Records(g, s, run), StoreAll(g, s, run);
    if recs == [] then t.rollovers == s.rollovers && EndOf(g, t) == EndOf(g, s)
    else
      var r := recs[|recs| - 1];
      t.rollovers == r.epoch && EndOf(g, t) == r.place + |r.bytes|
  }

  lemma RecordOfBytes(g: Geometry, s: Shelf, bytes: seq<Byte>)
    requires s.Valid(g) && |bytes| <= g.slabSize
    ensures RecordOf(g, s, bytes).bytes == bytes
  {
  }

  lemma RefusedIsKept(g: Geometry, s: Shelf, bytes: seq<Byte>)
    requires s.Valid(g) && |bytes| > g.slabSize
    ensures Store(g, s, bytes) == s
  {
  }

  /** The bound P is exact: the store that makes the P-th further rollover
      starts at the base of the record's own slab, so it runs over every record
      of that slab that begins within its length. */
  lemma ReusedAfterCycle(g: Geometry, s: Shelf, r: Record, bytes: seq<Byte>)
    requires s.Valid(g) && Keeps(g, s, r) && |bytes| <= g.slabSize
    requires s.rollovers < EpochAfter(g, s, |bytes|) == r.epoch + g.Cycle()
    ensures var base := (r.epoch % g.Cycle()) * g.slabSize;
            && RecordOf(g, s, bytes).place == base
            && (r.bytes != [] && r.place < base + |bytes| ==> !Apart(r, RecordOf(g, s, bytes)))
  {
    GrantBounds(g, s, |bytes|);
    ModShift(r.epoch, g.Cycle(), 1);
  }

  // Whole-slab writes, one per epoch
  lemma {:induction false} EverySlabOfTheCycleIsReached(g: Geometry, s: Shelf, bytes: seq<Byte>, k: nat)
    requires s.Valid(g) && s.rollovers == 0 && s.cursor.offset == 0
    requires |bytes| == g.slabSize >= 1
    ensures var t := StoreAll(g, s, seq(k + 1, _ => bytes));
            t.rollovers == k && t.cursor.index == k % g.Cycle() && t.cursor.offset == g.slabSize
  {
    var run := seq(k + 1, _ => bytes);
    assert run[..k] == seq(k, _ => bytes);
    if k > 0 { EverySlabOfTheCycleIsReached(g, s, bytes, k - 1); }
    var mid := StoreAll(g, s, run[..k]);
    assert StoreAll(g, s, run) == Store(g, mid, bytes);
    hide And, StoreAll;
    GrantBounds(g, mid, |bytes|);
  }

  /** Every region granted in any run lies within the first P slabs. */
  lemma {:induction false} OnlyTheCycleIsUsed(g: Geometry, s: Shelf, run: seq<seq<Byte>>)
    requires s.Valid(g)
    ensures forall r <- Records(g, s, run) :: r.place + |r.bytes| <= g.Cycle() * g.slabSize
  {
    RunRetains(g, s, run);
    forall r <- Records(g, s, run) ensures r.place + |r.bytes| <= g.Cycle() * g.slabSize {
      assert Keeps(g, StoreAll(g, s, run), r);
      MulMono(r.epoch % g.Cycle() + 1, g.Cycle(), g.slabSize);
    }
  }

  // No request for a header and a message, in any run of such requests, is given
  // a truncated offset.
  ghost predicate OffsetsAreExact(g: Geometry, s: Shelf)
    requires s.Valid(g)
  {
    forall run: seq<seq<Byte>>, needed: nat ::
      (forall b <- run :: |b| >= HEADER_SIZE) && HEADER_SIZE <= needed <= g.slabSize ==>
        var r := GetNext(g, StoreAll(g, s, run).cursor, needed); r.outOffset == r.place
  }

  lemma SmallCycleIsExact(g: Geometry, s: Shelf)
    requires s.Valid(g) && g.Cycle() * g.slabSize <= UINT32
    ensures OffsetsAreExact(g, s)
  {
    forall run: seq<seq<Byte>>, needed: nat | HEADER_SIZE <= needed <= g.slabSize
      ensures var r := GetNext(g, StoreAll(g, s, run).cursor, needed); r.outOffset == r.place
    {
      var mid := StoreAll(g, s, run);
      GrantBounds(g, mid, needed);
      MulMono(EpochAfter(g, mid, needed) % g.Cycle() + 1, g.Cycle(), g.slabSize);
      SmallMod(GetNext(g, mid.cursor, needed).place, UINT32);
    }
  }

  // The state after q whole slabs: slab q is next, from its base
  ghost predicate AtSlab(g: Geometry, s: Shelf, q: nat) {
    if q == 0 then s.rollovers == 0 && s.cursor.offset == 0
    else s.rollovers == q - 1 && s.cursor.offset == g.slabSize
  }

  lemma WholeSlabs(g: Geometry, s: Shelf, q: nat) returns (run: seq<seq<Byte>>)
    requires s.Valid(g) && AtSlab(g, s, 0) && g.slabSize >= HEADER_SIZE
    ensures forall b <- run :: |b| >= HEADER_SIZE
    ensures AtSlab(g, StoreAll(g, s, run), q)
  {
    var whole: seq<Byte> := seq(g.slabSize, _ => 0);
    run := seq(q, _ => whole);
    if q > 0 { EverySlabOfTheCycleIsReached(g, s, whole, q - 1); }
  }

  lemma NextInSlab(g: Geometry, s: Shelf, q: nat, needed: nat)
    requires s.Valid(g) && AtSlab(g, s, q) && q < g.Cycle() && 1 <= needed <= g.slabSize
    ensures var r := GetNext(g, s.cursor, needed);
            r.place == q * g.slabSize && r.cursor == Cursor(q, needed)
  {
    hide And;
    GrantBounds(g, s, needed);
    SmallMod(q, g.Cycle());
  }

  // The run that leads up to byte r of slab q
  lemma UpToPlace(g: Geometry, s: Shelf, q: nat, r: nat) returns (run: seq<seq<Byte>>)
    requires s.Valid(g) && AtSlab(g, s, 0) && q < g.Cycle()
    requires (r == 0 || HEADER_SIZE <= r) && r + HEADER_SIZE <= g.slabSize
    ensures forall b <- run :: |b| >= HEADER_SIZE
    ensures GetNext(g, StoreAll(g, s, run).cursor, HEADER_SIZE).place == q * g.slabSize + r
  {
    hide And;
    run := WholeSlabs(g, s, q);
    var mid := StoreAll(g, s, run);
    if r == 0 {
      NextInSlab(g, mid, q, HEADER_SIZE);
    } else {
      var part: seq<Byte> := seq(r, _ => 0);
      NextInSlab(g, mid, q, r);
      assert (run + [part])[..|run + [part]| - 1] == run;
      run := run + [part];
    }
  }

  lemma ReachesFourGigabytes(g: Geometry, s: Shelf) returns (run: seq<seq<Byte>>)
    requires s.Valid(g) && AtSlab(g, s, 0)
    requires g.slabSize % MEBIBYTE == 0 && g.Cycle() * g.slabSize > UINT32
    ensures g.slabSize >= HEADER_SIZE
    ensures forall b <- run :: |b| >= HEADER_SIZE
    ensures GetNext(g, StoreAll(g, s, run).cursor, HEADER_SIZE).place == UINT32
  {
    hide GetNext;
    SlabOfFourGigabytes(g.slabSize, g.Cycle());
    run := UpToPlace(g, s, UINT32 / g.slabSize, UINT32 % g.slabSize);
  }

  // 2^32 lies in slab q of the cycle, at a multiple of a MiB.
  lemma SlabOfFourGigabytes(slabSize: nat, cycle: nat)
    requires slabSize >= 1 && slabSize % MEBIBYTE == 0 && cycle * slabSize > UINT32
    ensures var q, r := UINT32 / slabSize, UINT32 % slabSize;
            && q < cycle && UINT32 == q * slabSize + r
            && (r == 0 || MEBIBYTE <= r) && r + MEBIBYTE <= slabSize
  {
    var q, r, m := UINT32 / slabSize, UINT32 % slabSize, slabSize / MEBIBYTE;
    if q >= cycle { MulMono(cycle, q, slabSize); }
    assert slabSize == MEBIBYTE * m;
    MulAssoc(MEBIBYTE, m, q);
    MulDist(MEBIBYTE, 4096, m * q);
    assert r == MEBIBYTE * (4096 - m * q);
    DivModUnique(r, MEBIBYTE, 4096 - m * q, 0);
    DivModUnique(slabSize - r, MEBIBYTE, m - (4096 - m * q), 0);
  }

  /** The 32-bit offsets of an empty pool are never truncated exactly when the P
      slabs in use take at most 4 GiB. */
  lemma OffsetLimitIsExact(g: Geometry, s: Shelf)
    requires s.Valid(g) && AtSlab(g, s, 0)
    requires g.slabSize % MEBIBYTE == 0
    ensures OffsetsAreExact(g, s) <==> g.Cycle() * g.slabSize <= UINT32
  {
    if g.Cycle() * g.slabSize <= UINT32 {
      SmallCycleIsExact(g, s);
    } else {
      var run := ReachesFourGigabytes(g, s);
      var r := GetNext(g, StoreAll(g, s, run).cursor, HEADER_SIZE);
      GrantBounds(g, StoreAll(g, s, run), HEADER_SIZE);
    }
  }

  // The default of ten slabs rotates over slabs 0 and 1 only.
  lemma {:induction false} DefaultConfigurationUsesTwoSlabs(slabSize: nat, s: Shelf, run: seq<seq<Byte>>)
    requires s.Valid(Geometry(slabSize, 10))
    ensures forall r <- Records(Geometry(slabSize, 10), s, run) :: r.place + |r.bytes| <= 2 * slabSize
  {
    assert Geometry(slabSize, 10).Cycle() == 2;
    OnlyTheCycleIsUsed(Geometry(slabSize, 10), s, run);
  }

  class SlabPool {
    const geometry: Geometry
    // The mapped region after the control block
    const memory: array<Byte>
    var writeIndex: nat
    var currentOffset: nat
    ghost var rollovers: nat

    ghost function Contents(): Shelf
      reads this, memory
    {
      Shelf(Cursor(writeIndex, currentOffset), rollovers, memory[..])
    }

    ghost predicate Valid()
      reads this, memory
    {
      Contents().Valid(geometry)
    }

    /** `size` is the slab size in MiB; every configuration is taken. */
    constructor (max: nat, size: nat)
      ensures geometry == Geometry((size * 1024 * 1024) % WORD, max)
      ensures writeIndex == 0 && currentOffset == 0 && rollovers == 0
      ensures fresh(memory) && memory.Length == (geometry.slabSize * max) % WORD
      ensures geometry.Valid() ==> Valid()
    {
      var slabSize := (size * 1024 * 1024) % WORD;
      geometry := Geometry(slabSize, max);
      memory := new Byte[(slabSize * max) % WORD](_ => 0);
      writeIndex, currentOffset, rollovers := 0, 0, 0;
      new;
      hide And;
      if geometry.Valid() {
        SmallMod(slabSize * max, WORD);
        SmallMod(0, geometry.Cycle());
      }
    }

    /** `place` is the position of the granted region in `memory`, and
        `outOffset` its 32-bit copy; a refused request changes nothing. */
    method GetNextSlab(needed: nat) returns (granted: bool, place: nat, outOffset: nat)
      requires Valid()
      modifies this`writeIndex, this`currentOffset, this`rollovers
      ensures Valid()
      ensures granted <==> needed <= geometry.slabSize
      ensures !granted ==> Contents() == old(Contents())
      ensures granted ==>
                && GetNext(geometry, old(Contents().cursor), needed)
                   == Granted(Contents().cursor, place, outOffset)
                && rollovers == EpochAfter(geometry, old(Contents()), needed)
                && outOffset == place % UINT32
                && place + needed <= memory.Length
      ensures granted && old(currentOffset) + needed <= geometry.slabSize ==>
                && rollovers == old(rollovers) && writeIndex == old(writeIndex)
                && place == writeIndex * geometry.slabSize + old(currentOffset)
                && currentOffset == old(currentOffset) + needed
      ensures granted && old(currentOffset) + needed > geometry.slabSize ==>
                && rollovers == old(rollovers) + 1 && writeIndex == rollovers % geometry.Cycle()
                && place == writeIndex * geometry.slabSize && currentOffset == needed
    {
      if needed > geometry.slabSize {
        return false, 0, 0;
      }
      GrantBounds(geometry, Contents(), needed);
      if currentOffset + needed > geometry.slabSize {
        writeIndex := And(writeIndex + 1, geometry.maxSlabs - 1);
        currentOffset := 0;
        rollovers := rollovers + 1;
      }
      place := writeIndex * geometry.slabSize + currentOffset;
      outOffset := place % UINT32;
      currentOffset := currentOffset + needed;
      granted := true;
    }
  }
}
