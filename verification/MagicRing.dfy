/** The mirrored byte ring: one physical buffer mapped twice in a row, so that
    byte i and byte i + size of the double window are the same byte. */
module MagicRings {
  import opened Words
  import opened Framing

  // The place in the physical buffer behind position i of the double window
  function Place(i: nat, size: nat): nat {
    if i < size then i else i - size
  }

  // n bytes of the double window from position `start`
  function Window(physical: seq<Byte>, start: nat, n: nat): (w: seq<Byte>)
    requires start + n <= 2 * |physical|
    ensures |w| == n
    ensures forall i :: 0 <= i < n ==> w[i] == physical[Place(start + i, |physical|)]
  {
    seq(n, i requires 0 <= i < n => physical[Place(start + i, |physical|)])
  }

  lemma WindowFrom(physical: seq<Byte>, start: nat, n: nat, k: nat)
    requires start < |physical| && k <= n <= |physical|
    ensures Window(physical, start, n)[k..] == Window(physical, Place(start + k, |physical|), n - k)
    ensures Window(physical, start, n)[..k] == Window(physical, start, k)
  {
  }

  lemma WindowSlice(physical: seq<Byte>, start: nat, n: nat, k: nat, m: nat)
    requires start < |physical| && k + m <= n <= |physical|
    ensures Window(physical, start, n)[k..k + m] == Window(physical, Place(start + k, |physical|), m)
  {
  }

  lemma PlaceIsMod(x: nat, size: nat)
    requires x < 2 * size
    ensures Place(x, size) == x % size
  {
    if x < size { SmallMod(x, size); } else { DivModUnique(x, size, 1, x - size); }
  }

  // Advancing a position by n with 64-bit wrap moves its offset by n round the mirror.
  lemma {:induction false} OffsetAdvance(position: nat, n: nat, size: nat)
    requires IsPow2(size) && size <= WORD && n <= size
    ensures And(position, size - 1) < size
    ensures And(WrapAdd(position, n), size - 1) == Place(And(position, size - 1) + n, size)
  {
    hide And, IsPow2, Place;
    MaskIsMod(position, size);
    MaskIsMod(WrapAdd(position, n), size);
    WrapMod(position + n, size);
    ModAddLeft(position, n, size);
    PlaceIsMod(position % size + n, size);
  }

  // Distances between wrapping positions
  lemma WrapForward(x: nat, y: nat)
    requires x < WORD && y < WORD
    ensures WrapAdd(y, WrapSub(x, y)) == x
  {
    WrapSubIs(x, y);
    WrapAddIs(y, WrapSub(x, y));
  }

  lemma WrapHeadMoves(x: nat, y: nat, n: nat)
    requires x < WORD && y < WORD && WrapSub(x, y) + n < WORD
    ensures WrapAdd(x, n) < WORD && WrapSub(WrapAdd(x, n), y) == WrapSub(x, y) + n
  {
    WrapSubIs(x, y);
    WrapAddIs(x, n);
    WrapSubIs(WrapAdd(x, n), y);
  }

  lemma WrapTailMoves(x: nat, y: nat, n: nat)
    requires x < WORD && y < WORD && n <= WrapSub(x, y)
    ensures WrapAdd(y, n) < WORD && WrapSub(x, WrapAdd(y, n)) == WrapSub(x, y) - n
  {
    WrapSubIs(x, y);
    WrapAddIs(y, n);
    WrapSubIs(x, WrapAdd(y, n));
  }

  class MagicRingBuffer {
    const size: nat
    const physical: array<Byte>
    // Cumulative 64-bit write and read positions; both may wrap
    var head: nat
    var tail: nat

    ghost predicate Valid()
      reads this, physical
    {
      && IsPow2(size) && 0x1_0000 <= size < UINT32
      && physical.Length == size
      && head < WORD && tail < WORD
      && WrapSub(head, tail) <= size
    }

    function Offset(position: nat): nat
      requires size >= 1
    {
      And(position, size - 1)
    }

    // The bytes committed and not yet consumed, oldest first
    ghost function Contents(): (q: seq<Byte>)
      reads this, physical
      requires Valid()
      ensures |q| == WrapSub(head, tail) <= size
    {
      Window(physical[..], Offset(tail), WrapSub(head, tail))
    }

    lemma Offsets()
      requires Valid()
      ensures Offset(head) < size && Offset(tail) < size
      ensures Offset(head) == Place(Offset(tail) + |Contents()|, size)
    {
      WrapForward(head, tail);
      OffsetAdvance(tail, WrapSub(head, tail), size);
      OffsetAdvance(head, 0, size);
    }

    /** Takes every positive multiple of 64 KiB; the original throws for other
        sizes.  Masking stands for the remainder when it is a power of two. */
    constructor (physicalSize: nat)
      requires physicalSize > 0 && physicalSize % 0x1_0000 == 0 && physicalSize < UINT32
      ensures size == physicalSize && fresh(physical) && physical.Length == size && head == tail == 0
      ensures IsPow2(physicalSize) ==> Valid() && Contents() == []
    {
      size := physicalSize;
      physical := new Byte[physicalSize](_ => 0);
      head, tail := 0, 0;
    }

    method GetWriteSpace() returns (space: nat)
      requires Valid()
      ensures space == size - |Contents()|
    {
      space := WrapSub(size, WrapSub(head, tail));
    }

    method GetBytesAvailable() returns (n: nat)
      requires Valid()
      ensures n == |Contents()|
    {
      n := WrapSub(head, tail);
    }

    /** The kernel's part of a read: bytes arrive in the double window, from the
        write pointer on, before they are committed. */
    method Arrive(chunk: seq<Byte>)
      requires Valid() && |chunk| <= size - |Contents()|
      modifies physical
      ensures Valid() && Contents() == old(Contents())
      ensures Offset(head) + |chunk| <= 2 * size && Window(physical[..], Offset(head), |chunk|) == chunk
    {
      Offsets();
      var start := And(head, size - 1);
      ghost var q := Contents();
      var i := 0;
      while i < |chunk|
        invariant 0 <= i <= |chunk|
        invariant Window(physical[..], start, i) == chunk[..i]
        invariant Contents() == q
      {
        ghost var before := physical[..];
        physical[Place(start + i, size)] := chunk[i];
        WriteBeyond(before, Offset(tail), |q|, i, chunk[i]);
        assert physical[..] == before[Place(start + i, size) := chunk[i]];
        assert chunk[..i + 1] == chunk[..i] + [chunk[i]];
        i := i + 1;
      }
    }

    /** Commits n arrived bytes: they join the end of the contents. */
    method CommitWrite(bytesWritten: nat)
      requires Valid() && bytesWritten <= size - |Contents()|
      requires Offset(head) + bytesWritten <= 2 * size
      modifies this`head
      ensures Valid()
      ensures Contents() == old(Contents() + Window(physical[..], Offset(head), bytesWritten))
    {
      hide And, WrapAdd, WrapSub;
      Offsets();
      WrapHeadMoves(head, tail, bytesWritten);
      WindowJoin(physical[..], Offset(tail), |Contents()|, bytesWritten);
      head := WrapAdd(head, bytesWritten);
    }

    method Consume(bytesConsumed: nat)
      requires Valid() && bytesConsumed <= |Contents()|
      modifies this`tail
      ensures Valid()
      ensures Contents() == old(Contents())[bytesConsumed..]
      ensures tail == WrapAdd(old(tail), bytesConsumed)
    {
      hide And, WrapAdd, WrapSub;
      OffsetAdvance(tail, bytesConsumed, size);
      WrapTailMoves(head, tail, bytesConsumed);
      WindowFrom(physical[..], Offset(tail), |Contents()|, bytesConsumed);
      tail := WrapAdd(tail, bytesConsumed);
    }

    /** A contiguous view of the oldest bytes; it never leaves the double window. */
    method GetView(len: nat) returns (view: seq<Byte>)
      requires Valid() && len <= |Contents()|
      ensures Offset(tail) + len <= 2 * size
      ensures view == Contents()[..len]
    {
      Offsets();
      var start := And(tail, size - 1);
      WindowFrom(physical[..], start, |Contents()|, len);
      view := Window(physical[..], start, len);
    }

    /** Four unread bytes as a native little-endian word. */
    method Peek(usize: nat) returns (word: nat)
      requires Valid() && usize + 4 <= |Contents()|
      ensures word == LittleEndian(Contents()[usize..usize + 4])
    {
      hide And, WrapAdd, WrapSub;
      OffsetAdvance(tail, usize, size);
      var start := And(WrapAdd(tail, usize), size - 1);
      WindowSlice(physical[..], Offset(tail), |Contents()|, usize, 4);
      word := LittleEndian(Window(physical[..], start, 4));
    }
  }

  // Writing behind the unread bytes leaves them and earlier arrivals alone.
  lemma WriteBeyond(physical: seq<Byte>, start: nat, n: nat, i: nat, b: Byte)
    requires start < |physical| && n + i < |physical|
    ensures var at := Place(start + n, |physical|);
            var after := physical[Place(at + i, |physical|) := b];
            && Window(after, start, n) == Window(physical, start, n)
            && Window(after, at, i) == Window(physical, at, i)
            && Window(after, at, i + 1) == Window(physical, at, i) + [b]
  {
  }

  lemma WindowJoin(physical: seq<Byte>, start: nat, n: nat, m: nat)
    requires start < |physical| && n + m <= |physical|
    ensures Window(physical, start, n + m)
            == Window(physical, start, n) + Window(physical, Place(start + n, |physical|), m)
  {
  }
}
