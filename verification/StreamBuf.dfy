/** asio's basic_streambuf: a growable FIFO of bytes between a get pointer and a
    put pointer, bounded by max_size. */
module StreamBufs {
  import opened Words

  const BUFFER_DELTA: nat := 128

  // int_type: a byte, or end of file
  datatype Character = Eof | Char(byte: Byte)

  function Min(a: nat, b: nat): nat {
    if a <= b then a else b
  }

  function Max(a: int, b: int): int {
    if a >= b then a else b
  }

  // The buffer after the unread bytes have been moved to its start
  function Shifted(b: seq<Byte>, gnext: nat, pnext: nat): (r: seq<Byte>)
    requires gnext <= pnext <= |b|
    ensures |r| == |b|
  {
    b[gnext..pnext] + b[pnext - gnext..]
  }

  lemma ShiftedFront(b: seq<Byte>, gnext: nat, pnext: nat)
    requires gnext <= pnext <= |b|
    ensures Shifted(b, gnext, pnext)[..pnext - gnext] == b[gnext..pnext]
    ensures gnext == 0 ==> Shifted(b, gnext, pnext) == b
  {
  }

  /** A `reserve` that throws has already moved the unread bytes but not the
      pointers.  What the streambuf holds survives that, whatever the bytes,
      exactly when nothing had been consumed or at least as much had been
      consumed as is left. */
  lemma ContentsSurviveThrow(gnext: nat, pnext: nat, length: nat)
    requires gnext <= pnext <= length
    ensures (forall b: seq<Byte> :: |b| == length ==> Shifted(b, gnext, pnext)[gnext..pnext] == b[gnext..pnext])
            <==> gnext == 0 || pnext - gnext <= gnext
  {
    if gnext == 0 || pnext - gnext <= gnext {
      forall b: seq<Byte> | |b| == length
        ensures Shifted(b, gnext, pnext)[gnext..pnext] == b[gnext..pnext]
      {
        OldPlaceSurvives(b, gnext, pnext);
      }
    } else {
      var b: seq<Byte> := seq(length, i => if i == gnext then 1 else 0);
      OldPlaceChanges(b, gnext, pnext);
    }
  }

  lemma OldPlaceSurvives(b: seq<Byte>, gnext: nat, pnext: nat)
    requires gnext <= pnext <= |b| && (gnext == 0 || pnext - gnext <= gnext)
    ensures Shifted(b, gnext, pnext)[gnext..pnext] == b[gnext..pnext]
  {
  }

  lemma OldPlaceChanges(b: seq<Byte>, gnext: nat, pnext: nat)
    requires 0 < gnext < pnext - gnext && pnext <= |b| && b[gnext] == 1 && b[2 * gnext] == 0
    ensures Shifted(b, gnext, pnext)[gnext..pnext] != b[gnext..pnext]
  {
    assert Shifted(b, gnext, pnext)[gnext] == b[2 * gnext];
    assert Shifted(b, gnext, pnext)[gnext..pnext][0] != b[gnext..pnext][0];
  }

  class BasicStreambuf {
    const maxSize: nat
    var buffer: array<Byte>
    // gptr, egptr, pptr and epptr as offsets; eback is always 0
    var gnext: nat
    var gend: nat
    var pnext: nat
    var pend: nat

    ghost predicate Valid()
      reads this, buffer
    {
      && gnext <= gend <= pnext <= pend <= maxSize
      && buffer.Length == (if pend == 0 then 1 else pend)
    }

    // The input sequence
    ghost function Contents(): (q: seq<Byte>)
      reads this, buffer
      requires Valid()
      ensures |q| == pnext - gnext <= maxSize
    {
      buffer[gnext..pnext]
    }

    // The output sequence already there
    ghost function Room(): (q: seq<Byte>)
      reads this, buffer
      requires Valid()
      ensures |q| == pend - pnext
    {
      buffer[pnext..pend]
    }

    constructor (maximumSize: nat)
      ensures Valid() && fresh(buffer) && maxSize == maximumSize
      ensures Contents() == [] && |Room()| == Min(maximumSize, 128)
    {
      maxSize := maximumSize;
      var end := Min(maximumSize, BUFFER_DELTA);
      buffer := new Byte[if end == 0 then 1 else end](_ => 0);
      gnext, gend, pnext, pend := 0, 0, 0, end;
    }

    // buffer_.resize((std::max)(end, 1)), of which the first `used` bytes matter
    method Resize(end: nat, used: nat)
      requires used <= buffer.Length && used <= end
      modifies this`buffer
      ensures fresh(buffer) && buffer.Length == (if end == 0 then 1 else end)
      ensures buffer[..used] == old(buffer[..used])
    {
      var grown := new Byte[if end == 0 then 1 else end](_ => 0);
      forall i | 0 <= i < used {
        grown[i] := buffer[i];
      }
      assert grown[..used] == buffer[..used];
      buffer := grown;
    }

    // memmove of the unread bytes to the start
    method Shift(from: nat, to: nat)
      requires from <= to <= buffer.Length
      modifies buffer
      ensures buffer[..] == Shifted(old(buffer[..]), from, to)
    {
      forall i | 0 <= i < to - from {
        buffer[i] := buffer[from + i];
      }
    }

    /** Makes room for n bytes.  `done` is false where the original throws
        length_error: exactly when the input sequence and n exceed max_size. */
    method Reserve(n: nat) returns (done: bool)
      requires Valid()
      modifies this`buffer, this`gnext, this`gend, this`pnext, this`pend, buffer
      ensures Valid() && (buffer == old(buffer) || fresh(buffer))
      ensures done <==> |old(Contents())| + n <= maxSize
      ensures done ==> Contents() == old(Contents()) && n <= |Room()|
      ensures done && n <= old(|Room()|) ==> |Room()| == old(|Room()|)
      ensures done && n > old(|Room()|) ==> |Room()| == Max(n, old(pend - |Contents()|))
      ensures !done ==> buffer == old(buffer) && buffer[..] == Shifted(old(buffer[..]), gnext, pnext)
      ensures !done ==> gnext == old(gnext) && gend == old(gend) && pnext == old(pnext) && pend == old(pend)
    {
      var g, p, e := gnext, pnext, pend;
      if n <= e - p {
        return true;
      }
      hide Shifted;
      ghost var q := Contents();
      ShiftedFront(buffer[..], g, p);
      if g > 0 {
        Shift(g, p);
        p := p - g;
      }
      assert buffer[..] == Shifted(old(buffer[..]), gnext, pnext);
      assert buffer[..p] == buffer[..][..p] == q;
      if n > e - p {
        if n <= maxSize && p <= maxSize - n {
          e := p + n;
          Resize(e, p);
        } else {
          return false;
        }
      }
      gnext, gend, pnext, pend := 0, p, p, e;
      done := true;
    }

    /** Offers n bytes to write to, from `start` on. */
    method Prepare(n: nat) returns (done: bool, start: nat)
      requires Valid()
      modifies this`buffer, this`gnext, this`gend, this`pnext, this`pend, buffer
      ensures Valid() && (buffer == old(buffer) || fresh(buffer))
      ensures done <==> |old(Contents())| + n <= maxSize
      ensures done ==> Contents() == old(Contents()) && start == pnext && start + n <= pend
      ensures !done ==> buffer == old(buffer) && buffer[..] == Shifted(old(buffer[..]), gnext, pnext)
      ensures !done ==> gnext == old(gnext) && gend == old(gend) && pnext == old(pnext) && pend == old(pend)
    {
      done := Reserve(n);
      start := pnext;
    }

    /** Appends the first n written bytes, or all there is room for. */
    method Commit(n: nat)
      requires Valid()
      modifies this`gend, this`pnext
      ensures Valid()
      ensures Contents() == old(Contents() + Room()[..Min(n, |Room()|)])
      ensures gend == pnext && Room() == old(Room()[Min(n, |Room()|)..])
    {
      var m := Min(n, pend - pnext);
      pnext := pnext + m;
      gend := pnext;
    }

    /** Removes the first n bytes, or all there are. */
    method Consume(n: nat)
      requires Valid()
      modifies this`gend, this`gnext
      ensures Valid()
      ensures Contents() == old(Contents()[Min(n, |Contents()|)..])
      ensures gend == pnext
    {
      if gend < pnext { gend := pnext; }
      var m := if gnext + n > pnext then pnext - gnext else n;
      gnext := gnext + m;
    }

    /** The oldest byte, left in place; `any` is false where the original
        returns end of file. */
    method Underflow() returns (any: bool, first: Byte)
      requires Valid()
      modifies this`gend
      ensures Valid() && Contents() == old(Contents())
      ensures any <==> Contents() != []
      ensures any ==> first == Contents()[0] && gend == pnext
    {
      if gnext < pnext {
        gend := pnext;
        return true, buffer[gnext];
      }
      return false, 0;
    }

    // *pptr() = c and pbump(1)
    method PutNext(c: Byte)
      requires Valid() && pnext < pend
      modifies this`pnext, buffer
      ensures Valid() && Contents() == old(Contents()) + [c]
    {
      buffer[pnext] := c;
      pnext := pnext + 1;
    }

    /** Appends one byte, or nothing for end of file; `done` is false where the
        original throws: only for a byte, when the input sequence is max_size
        long.  The byte goes inside the put area. */
    method Overflow(c: Character) returns (done: bool)
      requires Valid()
      modifies this`buffer, this`gnext, this`gend, this`pnext, this`pend, buffer
      ensures Valid() && (buffer == old(buffer) || fresh(buffer))
      ensures done <==> c.Eof? || |old(Contents())| < maxSize
      ensures Contents() == old(Contents()) + if done && c.Char? then [c.byte] else []
      ensures c.Eof? ==> unchanged(this) && unchanged(buffer)
    {
      hide Shifted;
      if c.Eof? {
        return true;
      }
      if pnext == pend {
        var size := pnext - gnext;
        if size < maxSize && maxSize - size < BUFFER_DELTA {
          done := Reserve(maxSize - size);
        } else {
          done := Reserve(BUFFER_DELTA);
        }
        if !done {
          ShiftedFront(old(buffer[..]), gnext, pnext);
          return;
        }
      }
      PutNext(c.byte);
      done := true;
    }
  }
}
