/** Circular storage of a power-of-two capacity, read through `head` and `tail`
    indices as the log queue does.  `Held` is the sequence the indices denote. */
module Ring {
  import opened Words

  ghost predicate IsRing(capacity: nat, head: nat, tail: nat) {
    && 2 <= capacity < WORD
    && IsPow2(capacity)
    && head < capacity
    && tail < capacity
  }

  // (index + 1) & CapacityMask
  function Next(index: nat, capacity: nat): nat
    requires capacity >= 1
  {
    And(WrapAdd(index, 1), capacity - 1)
  }

  // (head - tail) & CapacityMask, in unsigned 64-bit arithmetic
  function Count(head: nat, tail: nat, capacity: nat): nat
    requires tail < WORD && capacity >= 1
  {
    And(WrapSub(head, tail), capacity - 1)
  }

  lemma NextIs(index: nat, capacity: nat)
    requires IsRing(capacity, index, index)
    ensures Next(index, capacity) == (if index + 1 == capacity then 0 else index + 1)
  {
    SmallMod(index + 1, WORD);
    MaskIsMod(index + 1, capacity);
    if index + 1 == capacity { DivModUnique(index + 1, capacity, 1, 0); } else { SmallMod(index + 1, capacity); }
  }

  lemma CountIs(head: nat, tail: nat, capacity: nat)
    requires IsRing(capacity, head, tail)
    ensures Count(head, tail, capacity) == (if tail <= head then head - tail else head + capacity - tail)
  {
    hide And, IsPow2;
    MaskedSub(head, tail, capacity);
    if tail <= head { SmallMod(head - tail, capacity); }
    else { DivModUnique(head - tail, capacity, -1, head + capacity - tail); }
  }

  // The place of the i-th held entry
  function Slot(tail: nat, i: nat, capacity: nat): nat {
    if tail + i < capacity then tail + i else tail + i - capacity
  }

  ghost function Held<T>(slots: seq<T>, head: nat, tail: nat): (q: seq<T>)
    requires IsRing(|slots|, head, tail)
    ensures |q| == Count(head, tail, |slots|) < |slots|
  {
    CountIs(head, tail, |slots|);
    seq(Count(head, tail, |slots|), i requires 0 <= i < |slots| => slots[Slot(tail, i, |slots|)])
  }

  // The full test of `push` fires exactly when capacity - 1 entries are held.
  lemma FullTest(head: nat, tail: nat, capacity: nat)
    requires IsRing(capacity, head, tail)
    ensures Next(head, capacity) == tail <==> Count(head, tail, capacity) == capacity - 1
    ensures head == tail <==> Count(head, tail, capacity) == 0
  {
    NextIs(head, capacity);
    CountIs(head, tail, capacity);
  }

  lemma HeldPush<T>(slots: seq<T>, head: nat, tail: nat, e: T)
    requires IsRing(|slots|, head, tail) && Count(head, tail, |slots|) < |slots| - 1
    ensures IsRing(|slots|, Next(head, |slots|), tail)
    ensures Held(slots[head := e], Next(head, |slots|), tail) == Held(slots, head, tail) + [e]
  {
    var c, n := |slots|, Count(head, tail, |slots|);
    NextIs(head, c);
    CountIs(head, tail, c);
    CountIs(Next(head, c), tail, c);
    assert Count(Next(head, c), tail, c) == n + 1;
  }

  // Publishing into a full ring makes the indices meet: nothing is held.
  lemma HeldOverrun<T>(slots: seq<T>, head: nat, tail: nat, e: T)
    requires IsRing(|slots|, head, tail) && Count(head, tail, |slots|) == |slots| - 1
    ensures IsRing(|slots|, Next(head, |slots|), tail)
    ensures Held(slots[head := e], Next(head, |slots|), tail) == []
  {
    FullTest(head, tail, |slots|);
    CountIs(tail, tail, |slots|);
  }

  lemma HeldPop<T>(slots: seq<T>, head: nat, tail: nat)
    requires IsRing(|slots|, head, tail) && head != tail
    ensures IsRing(|slots|, head, Next(tail, |slots|))
    ensures [slots[tail]] + Held(slots, head, Next(tail, |slots|)) == Held(slots, head, tail)
  {
    var c, t := |slots|, Next(tail, |slots|);
    NextIs(tail, c);
    CountIs(head, tail, c);
    CountIs(head, t, c);
    assert Held(slots, head, tail)[0] == slots[tail];
  }
}
