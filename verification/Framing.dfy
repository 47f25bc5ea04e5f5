/** The wire format: magic-prefixed binary frames mixed with newline-ended text.

    `NextFrame` is one turn of the frame loop on the unread bytes, `Drain` the
    whole loop, and `Encode` the format itself, which the two are proved against.
  */
module Framing {
  import opened Words

  datatype Frame = Binary(payload: seq<Byte>) | Text(payload: seq<Byte>)

  const MAGIC: seq<Byte> := [0xDE, 0xAD, 0xBE, 0xEF]
  // The magic number as a little-endian machine loads it from the wire
  const NETWORK_MAGIC: nat := 0xEFBEADDE
  const NEWLINE: Byte := 10

  function LittleEndian(b: seq<Byte>): nat
    requires |b| == 4
  {
    var b0: int, b1: int, b2: int, b3: int := b[0], b[1], b[2], b[3];
    b0 + 0x100 * b1 + 0x1_0000 * b2 + 0x100_0000 * b3
  }

  function Octet(x: nat, unit: nat): Byte
    requires unit >= 1
  {
    x / unit % 256
  }

  function BigEndianBytes(x: nat): (b: seq<Byte>)
    ensures |b| == 4
  {
    [Octet(x, 0x100_0000), Octet(x, 0x1_0000), Octet(x, 0x100), Octet(x, 1)]
  }

  // ntohl on a little-endian machine
  function ByteSwap(x: nat): nat {
    LittleEndian(BigEndianBytes(x))
  }

  lemma OctetsOfWord(b: seq<Byte>)
    requires |b| == 4
    ensures var x := LittleEndian(b);
            && Octet(x, 1) == b[0] && Octet(x, 0x100) == b[1]
            && Octet(x, 0x1_0000) == b[2] && Octet(x, 0x100_0000) == b[3]
  {
    var x := LittleEndian(b);
    var b1: int, b2: int, b3: int := b[1], b[2], b[3];
    assert x / 0x100 == b1 + 0x100 * b2 + 0x1_0000 * b3;
    assert x / 0x1_0000 == b2 + 0x100 * b3;
    assert x / 0x100_0000 == b3;
  }

  lemma SignatureIsMagic(b: seq<Byte>)
    requires |b| == 4
    ensures LittleEndian(b) == NETWORK_MAGIC <==> b == MAGIC
  {
    OctetsOfWord(b);
    OctetsOfWord(MAGIC);
    if LittleEndian(b) == NETWORK_MAGIC {
      assert LittleEndian(MAGIC) == NETWORK_MAGIC;
      assert b == [b[0], b[1], b[2], b[3]];
    }
  }

  // The length field read by peek and ntohl is the big-endian one.
  lemma LengthField(n: nat)
    requires n < UINT32
    ensures ByteSwap(LittleEndian(BigEndianBytes(n))) == n
  {
    var b := BigEndianBytes(n);
    OctetsOfWord(b);
    assert BigEndianBytes(LittleEndian(b)) == [b[3], b[2], b[1], b[0]];
    var x1, x2 := n / 0x100, n / 0x1_0000;
    assert n == 0x100 * x1 + b[3] && x1 / 0x100 == x2 && x2 / 0x100 == n / 0x100_0000;
  }

  lemma LengthBytes(b: seq<Byte>)
    requires |b| == 4
    ensures ByteSwap(LittleEndian(b)) < UINT32
    ensures BigEndianBytes(ByteSwap(LittleEndian(b))) == b
  {
    OctetsOfWord(b);
    var r := [b[3], b[2], b[1], b[0]];
    assert BigEndianBytes(LittleEndian(b)) == r;
    OctetsOfWord(r);
    assert BigEndianBytes(LittleEndian(r)) == b;
  }

  /** The length field is read most significant byte first. */
  lemma LengthIsBigEndian(b: seq<Byte>)
    requires |b| == 4
    ensures ByteSwap(LittleEndian(b)) == 0x100_0000 * (b[0] as int) + 0x1_0000 * (b[1] as int) + 0x100 * (b[2] as int) + b[3] as int
  {
    OctetsOfWord(b);
    assert BigEndianBytes(LittleEndian(b)) == [b[3], b[2], b[1], b[0]];
  }

  // Where memchr finds the first newline, or |q|
  function FindNewline(q: seq<Byte>): (i: nat)
    ensures i <= |q|
    ensures i < |q| ==> q[i] == NEWLINE
    ensures forall k :: 0 <= k < i ==> q[k] != NEWLINE
  {
    if q == [] || q[0] == NEWLINE then 0 else FindNewline(q[1..]) + 1
  }

  lemma {:induction false} FirstNewline(q: seq<Byte>, i: nat)
    requires i < |q| && q[i] == NEWLINE && forall k :: 0 <= k < i ==> q[k] != NEWLINE
    ensures FindNewline(q) == i
  {
  }

  datatype Verdict = NeedMore | TooLong | Deliver(frame: Frame, size: nat)

  function NextFrame(q: seq<Byte>, maxLog: nat): Verdict {
    if |q| < 4 then NeedMore
    else if LittleEndian(q[..4]) == NETWORK_MAGIC then
      if |q| < 8 then NeedMore
      else
        var n := ByteSwap(LittleEndian(q[4..8]));
        if n == 0 || n > maxLog then TooLong
        else if |q| < 8 + n then NeedMore
        else Deliver(Binary(q[8..8 + n]), 8 + n)
    else
      var i := FindNewline(q);
      if i < |q| then Deliver(Text(q[..i]), i + 1)
      else if |q| > maxLog then TooLong
      else NeedMore
  }

  ghost predicate BeginsWithMagic(q: seq<Byte>) {
    |q| >= 4 && q[0] == 0xDE && q[1] == 0xAD && q[2] == 0xBE && q[3] == 0xEF
  }

  // The length field of a header, most significant byte first
  ghost function LengthOf(q: seq<Byte>): nat
    requires |q| >= 8
  {
    0x100_0000 * (q[4] as int) + 0x1_0000 * (q[5] as int) + 0x100 * (q[6] as int) + q[7] as int
  }

  lemma MagicIsSignature(q: seq<Byte>)
    requires |q| >= 4
    ensures BeginsWithMagic(q) <==> LittleEndian(q[..4]) == NETWORK_MAGIC
  {
    SignatureIsMagic(q[..4]);
    assert q[..4] == [q[0], q[1], q[2], q[3]];
  }

  /** What a buffer that begins with DE AD BE EF gives, in numbers. */
  lemma BinaryVerdict(q: seq<Byte>, maxLog: nat)
    requires BeginsWithMagic(q)
    ensures |q| < 8 ==> NextFrame(q, maxLog) == NeedMore
    ensures |q| >= 8 ==>
              var n := LengthOf(q);
              NextFrame(q, maxLog) ==
                if n == 0 || n > maxLog then TooLong
                else if |q| < 8 + n then NeedMore
                else Deliver(Binary(q[8..8 + n]), 8 + n)
  {
    MagicIsSignature(q);
    if |q| >= 8 { LengthIsBigEndian(q[4..8]); }
  }

  /** What any other buffer gives: the text up to the first byte 10. */
  lemma TextVerdict(q: seq<Byte>, maxLog: nat)
    requires !BeginsWithMagic(q)
    ensures |q| < 4 ==> NextFrame(q, maxLog) == NeedMore
    ensures forall i :: 4 <= |q| && 0 <= i < |q| && q[i] == 10 && 10 !in q[..i]
              ==> NextFrame(q, maxLog) == Deliver(Text(q[..i]), i + 1)
    ensures |q| >= 4 && 10 !in q ==> NextFrame(q, maxLog) == if |q| > maxLog then TooLong else NeedMore
  {
    if |q| >= 4 {
      MagicIsSignature(q);
      forall i | 0 <= i < |q| && q[i] == 10 && 10 !in q[..i] ensures FindNewline(q) == i {
        assert forall k :: 0 <= k < i ==> q[k] in q[..i];
        FirstNewline(q, i);
      }
    }
  }

  /** A buffer is given up exactly for a header whose length is 0 or above the
      limit, and for more bytes than the limit without a newline. */
  lemma TooLongIsExact(q: seq<Byte>, maxLog: nat)
    ensures NextFrame(q, maxLog).TooLong? <==>
              || (BeginsWithMagic(q) && |q| >= 8 && (LengthOf(q) == 0 || LengthOf(q) > maxLog))
              || (!BeginsWithMagic(q) && |q| >= 4 && |q| > maxLog && 10 !in q)
  {
    hide NextFrame, LengthOf;
    if BeginsWithMagic(q) {
      BinaryVerdict(q, maxLog);
    } else {
      TextVerdict(q, maxLog);
      if 10 in q {
        var i := FirstTen(q);
        assert |q| >= 4 ==> NextFrame(q, maxLog) == Deliver(Text(q[..i]), i + 1);
      }
    }
  }

  lemma {:induction false} FirstTen(q: seq<Byte>) returns (i: nat)
    requires 10 in q
    ensures i < |q| && q[i] == 10 && 10 !in q[..i]
  {
    i := FindNewline(q);
  }

  datatype Drained = Drained(frames: seq<Frame>, rest: seq<Byte>, tooLong: bool) {
    function After(fs: seq<Frame>): Drained {
      Drained(fs + frames, rest, tooLong)
    }
  }

  lemma AfterTwice(fs: seq<Frame>, gs: seq<Frame>, d: Drained)
    ensures d.After(gs).After(fs) == d.After(fs + gs)
  {
    assert fs + (gs + d.frames) == (fs + gs) + d.frames;
  }

  function Drain(q: seq<Byte>, maxLog: nat): Drained
    decreases |q|
  {
    match NextFrame(q, maxLog)
    case NeedMore => Drained([], q, false)
    case TooLong => Drained([], q, true)
    case Deliver(f, n) =>
      Drain(q[n..], maxLog).After([f])
  }

  ghost predicate WellFormed(f: Frame, maxLog: nat) {
    match f
    case Binary(p) => 1 <= |p| <= maxLog
    case Text(line) => NEWLINE !in line && !(MAGIC <= line)
  }

  function Encode(f: Frame): seq<Byte> {
    match f
    case Binary(p) => MAGIC + BigEndianBytes(|p|) + p
    case Text(line) => line + [NEWLINE]
  }

  function EncodeAll(fs: seq<Frame>): seq<Byte> {
    if fs == [] then [] else Encode(fs[0]) + EncodeAll(fs[1..])
  }

  lemma {:induction false} EncodeAllAppend(fs: seq<Frame>, gs: seq<Frame>)
    ensures EncodeAll(fs + gs) == EncodeAll(fs) + EncodeAll(gs)
  {
    hide Encode;
    if fs == [] {
      assert [] + gs == gs;
    } else {
      assert (fs + gs)[1..] == fs[1..] + gs;
      EncodeAllAppend(fs[1..], gs);
    }
  }

  /** A delivered frame is well formed and accounts for exactly its own bytes. */
  lemma DeliveredIsEncoded(q: seq<Byte>, maxLog: nat)
    requires NextFrame(q, maxLog).Deliver?
    ensures var v := NextFrame(q, maxLog);
            1 <= v.size <= |q| && q[..v.size] == Encode(v.frame) && WellFormed(v.frame, maxLog)
  {
    SignatureIsMagic(q[..4]);
    var v := NextFrame(q, maxLog);
    if v.frame.Binary? {
      LengthBytes(q[4..8]);
      assert q[..v.size] == q[..4] + q[4..8] + q[8..v.size];
    } else {
      var line := v.frame.payload;
      assert |line| >= 4 ==> line[..4] == q[..4];
    }
  }

  /** An encoded frame at the front of at least four bytes is what is delivered. */
  lemma EncodedIsDelivered(f: Frame, more: seq<Byte>, maxLog: nat)
    requires WellFormed(f, maxLog) && maxLog < UINT32
    requires |Encode(f) + more| >= 4
    ensures NextFrame(Encode(f) + more, maxLog) == Deliver(f, |Encode(f)|)
  {
    var q := Encode(f) + more;
    SignatureIsMagic(q[..4]);
    match f
    case Binary(p) =>
      assert q[..4] == MAGIC && q[4..8] == BigEndianBytes(|p|) && q[8..8 + |p|] == p;
      LengthField(|p|);
    case Text(line) =>
      assert q[..|line|] == line && q[|line|] == NEWLINE;
      if |line| < 4 { assert q[..4][|line|] == NEWLINE; } else { assert q[..4] == line[..4]; }
      FirstNewline(q, |line|);
  }

  lemma {:induction false} DrainStops(q: seq<Byte>, maxLog: nat)
    requires |q| < 4 || !NextFrame(q, maxLog).Deliver?
    ensures Drain(q, maxLog) == Drained([], q, NextFrame(q, maxLog).TooLong?)
    ensures |q| < 4 ==> NextFrame(q, maxLog).NeedMore?
  {
  }

  // The loop takes one well-formed frame off the front and goes on.
  lemma DrainStep(q: seq<Byte>, maxLog: nat) returns (f: Frame, more: seq<Byte>)
    requires NextFrame(q, maxLog).Deliver?
    ensures NextFrame(q, maxLog) == Deliver(f, |Encode(f)|) && WellFormed(f, maxLog)
    ensures q == Encode(f) + more && |more| < |q| && more == q[|Encode(f)|..]
    ensures Drain(q, maxLog) == Drain(more, maxLog).After([f])
  {
    DeliveredIsEncoded(q, maxLog);
    var v := NextFrame(q, maxLog);
    f, more := v.frame, q[v.size..];
  }

  /** Conservation: the frames handed to the parser, re-encoded, and the bytes
      left unread are together exactly the bytes received. */
  lemma {:induction false} DrainConserves(q: seq<Byte>, maxLog: nat)
    ensures var d := Drain(q, maxLog);
            q == EncodeAll(d.frames) + d.rest && forall f <- d.frames :: WellFormed(f, maxLog)
    decreases |q|
  {
    hide NextFrame, Drain, Encode, WellFormed;
    if NextFrame(q, maxLog).Deliver? {
      var f, more := DrainStep(q, maxLog);
      DrainConserves(more, maxLog);
      assert ([f] + Drain(more, maxLog).frames)[1..] == Drain(more, maxLog).frames;
    } else {
      DrainStops(q, maxLog);
      assert q == [] + q;
    }
  }

  // How many frames of fs come out before fewer than four bytes are left
  ghost function Ready(fs: seq<Frame>): (n: nat)
    ensures n <= |fs|
  {
    if |EncodeAll(fs)| < 4 then 0 else 1 + Ready(fs[1..])
  }

  // Draining an encoded frame and what follows it
  lemma {:induction false} DrainEncoded(f: Frame, more: seq<Byte>, maxLog: nat)
    requires WellFormed(f, maxLog) && maxLog < UINT32
    requires |Encode(f) + more| >= 4
    ensures Drain(Encode(f) + more, maxLog) == Drain(more, maxLog).After([f])
  {
    hide NextFrame, Encode;
    EncodedIsDelivered(f, more, maxLog);
    assert (Encode(f) + more)[|Encode(f)|..] == more;
  }

  lemma {:induction false} DrainEncodedList(fs: seq<Frame>, more: seq<Byte>, maxLog: nat)
    requires maxLog < UINT32 && (forall f <- fs :: WellFormed(f, maxLog)) && |more| >= 4
    ensures Drain(EncodeAll(fs) + more, maxLog) == Drain(more, maxLog).After(fs)
  {
    hide NextFrame, Drain, Encode, WellFormed;
    if fs == [] {
      assert [] + more == more && [] + Drain(more, maxLog).frames == Drain(more, maxLog).frames;
    } else {
      assert EncodeAll(fs) + more == Encode(fs[0]) + (EncodeAll(fs[1..]) + more);
      DrainEncoded(fs[0], EncodeAll(fs[1..]) + more, maxLog);
      DrainEncodedList(fs[1..], more, maxLog);
      AfterTwice([fs[0]], fs[1..], Drain(more, maxLog));
      assert [fs[0]] + fs[1..] == fs;
    }
  }

  /** Round trip: draining an encoded list of frames gives the list back in
      order, except for a last run of frames shorter than four bytes in all. */
  lemma {:induction false} RoundTrip(fs: seq<Frame>, maxLog: nat)
    requires maxLog < UINT32 && forall f <- fs :: WellFormed(f, maxLog)
    ensures var n := Ready(fs);
            && Drain(EncodeAll(fs), maxLog) == Drained(fs[..n], EncodeAll(fs[n..]), false)
            && |EncodeAll(fs[n..])| < 4
  {
    hide NextFrame, Drain, Encode, WellFormed;
    if |EncodeAll(fs)| >= 4 {
      DrainEncoded(fs[0], EncodeAll(fs[1..]), maxLog);
      RoundTrip(fs[1..], maxLog);
      var n := Ready(fs[1..]);
      assert fs[..n + 1] == [fs[0]] + fs[1..][..n];
      assert fs[n + 1..] == fs[1..][n..];
    } else {
      DrainStops(EncodeAll(fs), maxLog);
      assert fs[0..] == fs;
    }
  }

  lemma {:induction false} LastFrameLength(fs: seq<Frame>)
    requires fs != []
    ensures |EncodeAll(fs)| >= |Encode(fs[|fs| - 1])|
    ensures Ready(fs) == |fs| <==> |Encode(fs[|fs| - 1])| >= 4
  {
    if |fs| > 1 {
      LastFrameLength(fs[1..]);
    } else {
      assert EncodeAll(fs[1..]) == [];
    }
  }

  /** Every frame is delivered exactly when there is none or the last one takes
      at least four bytes on the wire. */
  lemma {:induction false} AllDelivered(fs: seq<Frame>, maxLog: nat)
    requires maxLog < UINT32 && forall f <- fs :: WellFormed(f, maxLog)
    ensures Drain(EncodeAll(fs), maxLog).frames == fs <==> fs == [] || |Encode(fs[|fs| - 1])| >= 4
  {
    RoundTrip(fs, maxLog);
    if fs != [] {
      LastFrameLength(fs);
      assert fs[..|fs|] == fs;
    }
  }

  // More bytes do not change a verdict that was reached without them.
  lemma VerdictStands(a: seq<Byte>, b: seq<Byte>, maxLog: nat)
    requires NextFrame(a, maxLog).Deliver?
    ensures NextFrame(a + b, maxLog) == NextFrame(a, maxLog)
  {
    assert (a + b)[..4] == a[..4];
    var v := NextFrame(a, maxLog);
    if v.frame.Binary? {
      assert (a + b)[4..8] == a[4..8] && (a + b)[8..v.size] == a[8..v.size];
    } else {
      assert (a + b)[..v.size - 1] == a[..v.size - 1];
      FirstNewline(a + b, v.size - 1);
    }
  }

  lemma DrainStepWithMore(a: seq<Byte>, b: seq<Byte>, maxLog: nat) returns (f: Frame, more: seq<Byte>)
    requires NextFrame(a, maxLog).Deliver?
    ensures |more| < |a|
    ensures Drain(a, maxLog) == Drain(more, maxLog).After([f])
    ensures Drain(a + b, maxLog) == Drain(more + b, maxLog).After([f])
  {
    hide NextFrame, Drain, Encode;
    VerdictStands(a, b, maxLog);
    f, more := DrainStep(a, maxLog);
    var g, rest := DrainStep(a + b, maxLog);
    assert rest == more + b;
  }

  /** Draining may stop and resume: what is drained first, then what the rest
      gives with the bytes that follow, is what one pass gives. */
  lemma {:induction false} DrainResumes(a: seq<Byte>, b: seq<Byte>, maxLog: nat)
    requires !Drain(a, maxLog).tooLong
    ensures var d := Drain(a, maxLog); Drain(a + b, maxLog) == Drain(d.rest + b, maxLog).After(d.frames)
    decreases |a|
  {
    hide NextFrame, Drain;
    match NextFrame(a, maxLog)
    case TooLong =>
      DrainStops(a, maxLog);
    case NeedMore =>
      DrainStops(a, maxLog);
      assert Drain(a + b, maxLog).frames == [] + Drain(a + b, maxLog).frames;
    case Deliver(_, _) =>
      var f, more := DrainStepWithMore(a, b, maxLog);
      DrainResumes(more, b, maxLog);
      var d := Drain(more, maxLog);
      AfterTwice([f], d.frames, Drain(d.rest + b, maxLog));
  }

  // Nothing more comes out of a drained buffer.
  lemma {:induction false} DrainedIsDrained(q: seq<Byte>, maxLog: nat)
    ensures var d := Drain(q, maxLog); Drain(d.rest, maxLog) == Drained([], d.rest, d.tooLong)
    decreases |q|
  {
    hide NextFrame, Drain;
    if NextFrame(q, maxLog).Deliver? {
      var f, more := DrainStep(q, maxLog);
      DrainedIsDrained(more, maxLog);
    } else {
      DrainStops(q, maxLog);
    }
  }
}
