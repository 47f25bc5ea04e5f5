/** The log queue: one producer, one consumer, four overflow profiles. */
module LogEntries {
  datatype LogLevel = Debug | Info | Warning | Error | Critical

  datatype OverflowProfile = Block | DropAll | DropNonCritical | PassCriticalDropElse

  datatype LogEntry = LogEntry(timestamp: nat, logId: nat, messageLength: nat, messageOffset: nat,
                               relativeOffset: nat, level: LogLevel)

  const ENTRY_SIZE: nat := 29

  // Whether a push that has found the ring full goes on to write all the same
  predicate WritesWhenFull(profile: OverflowProfile, e: LogEntry) {
    match profile
    case Block => true
    case DropAll => false
    case DropNonCritical => e.level.Critical?
    case PassCriticalDropElse => e.level.Critical?
  }

  // Whether such a push first spins on the tail
  predicate WaitsWhenFull(profile: OverflowProfile, e: LogEntry) {
    profile.Block? || (profile.DropNonCritical? && e.level.Critical?)
  }

  /** What the queue holds after a push that nothing interleaves with. */
  function AfterPush(q: seq<LogEntry>, capacity: nat, profile: OverflowProfile, e: LogEntry): seq<LogEntry>
  {
    if |q| + 1 < capacity then q + [e]
    else if WritesWhenFull(profile, e) then []
    else q
  }

  /** A full ring by profile: `Block` writes every entry, `DropAll` none, and the two
      critical profiles the critical ones; and what is written empties the ring. */
  lemma FullRingByProfile(q: seq<LogEntry>, capacity: nat, profile: OverflowProfile, e: LogEntry)
    requires |q| + 1 == capacity >= 2
    ensures AfterPush(q, capacity, profile, e) == [] <==>
              || profile == Block
              || (profile in {DropNonCritical, PassCriticalDropElse} && e.level == Critical)
    ensures AfterPush(q, capacity, profile, e) == q <==>
              || profile == DropAll
              || (profile in {DropNonCritical, PassCriticalDropElse} && e.level != Critical)
  {
  }
}

module LogQueues {
  import opened Words
  import opened LogEntries
  import opened Ring

  class Telemetry {
    var pushedLogs: nat
    var eliminatedLogs: nat

    constructor ()
      ensures pushedLogs == 0 && eliminatedLogs == 0
    {
      pushedLogs, eliminatedLogs := 0, 0;
    }

    method RegisterPushed()
      modifies this`pushedLogs
      ensures pushedLogs == WrapAdd(old(pushedLogs), 1)
    {
      pushedLogs := WrapAdd(pushedLogs, 1);
    }

    method RegisterEliminated()
      modifies this`eliminatedLogs
      ensures eliminatedLogs == WrapAdd(old(eliminatedLogs), 1)
    {
      eliminatedLogs := WrapAdd(eliminatedLogs, 1);
    }
  }

  class LogQueue {
    var logArray: array?<LogEntry>
    var head: nat
    var tail: nat
    var isRunning: bool
    var capacityMask: nat
    const overflow: OverflowProfile
    const telemetry: Telemetry

    ghost predicate Valid()
      reads this, logArray
    {
      if logArray == null then head == tail == 0
      else logArray.Length == capacityMask + 1 && IsRing(logArray.Length, head, tail)
    }

    ghost function Contents(): seq<LogEntry>
      reads this, logArray
      requires Valid()
    {
      if logArray == null then [] else Held(logArray[..], head, tail)
    }

    ghost function Capacity(): nat
      reads this
    {
      if logArray == null then 0 else capacityMask + 1
    }

    /** A shared memory that is not mapped, or too little memory, leaves the queue
        without storage; otherwise the capacity is the least power of two that
        holds the raw slots. */
    constructor (usableRam: nat, mapped: bool, profile: OverflowProfile, telemetry: Telemetry)
      ensures Valid() && isRunning && Contents() == []
      ensures overflow == profile && this.telemetry == telemetry
      ensures logArray != null ==> fresh(logArray)
      ensures var bytes := (usableRam * 1048576) % 0x1_0000_0000_0000_0000;
              && (logArray == null <==> !mapped || bytes < 58)
              && (logArray != null ==> IsPow2(Capacity()) && bytes / 29 <= Capacity() < 2 * (bytes / 29))
    {
      overflow := profile;
      this.telemetry := telemetry;
      head, tail, isRunning, capacityMask, logArray := 0, 0, true, 0, null;
      new;
      if !mapped {
        return;
      }
      var maxCapacity := (usableRam * 1024 * 1024) % WORD;
      var rawSlots := maxCapacity / ENTRY_SIZE;
      if rawSlots < 2 {
        return;
      }
      var optimizedCapacity := BitCeil(rawSlots);
      capacityMask := optimizedCapacity - 1;
      logArray := new LogEntry[optimizedCapacity](_ => LogEntry(0, 0, 0, 0, 0, Debug));
      FullTest(0, 0, optimizedCapacity);
    }

    /** One push run to its end with no other thread in between.  The spin loops
        of `Block` and `DropNonCritical` test `head == tail`, which is false on a
        full ring, so they are left at once and the write goes ahead. */
    method Push(logLine: LogEntry)
      requires Valid()
      modifies this`head, logArray, telemetry`pushedLogs
      ensures Valid() && logArray == old(logArray)
      ensures logArray == null || !isRunning ==>
                Contents() == old(Contents()) && telemetry.pushedLogs == old(telemetry.pushedLogs)
      ensures logArray != null && isRunning ==>
                && Contents() == AfterPush(old(Contents()), Capacity(), overflow, logLine)
                && telemetry.pushedLogs ==
                     if old(|Contents()|) + 1 < Capacity() || WritesWhenFull(overflow, logLine)
                     then WrapAdd(old(telemetry.pushedLogs), 1) else old(telemetry.pushedLogs)
      ensures logArray != null && isRunning && old(|Contents()|) + 1 < Capacity() ==>
                Contents() == old(Contents()) + [logLine]
      ensures logArray != null && isRunning && old(|Contents()|) + 1 == Capacity() ==>
                Contents() ==
                  if overflow == Block || (overflow != DropAll && logLine.level == Critical) then []
                  else old(Contents())
    {
      hide And, WrapAdd, IsPow2;
      if logArray == null { return; }
      if !isRunning { return; }

      var currentHead := head;
      var nextHead := And(WrapAdd(currentHead, 1), capacityMask);
      FullTest(head, tail, capacityMask + 1);

      if nextHead == tail {
        match overflow {
          case Block =>
            assert currentHead != tail;
          case DropAll =>
            return;
          case DropNonCritical =>
            if logLine.level != Critical { return; }
            assert currentHead != tail;
          case PassCriticalDropElse =>
            if logLine.level != Critical { return; }
        }
        HeldOverrun(logArray[..], head, tail, logLine);
      } else {
        HeldPush(logArray[..], head, tail, logLine);
      }

      logArray[currentHead] := logLine;
      head := nextHead;
      telemetry.RegisterPushed();
      assert logArray[..] == old(logArray[..])[currentHead := logLine];
    }

    method SetFinished()
      modifies this`isRunning
      ensures !isRunning
    {
      isRunning := false;
    }

    method Pop() returns (popped: bool, outLog: LogEntry)
      requires Valid()
      modifies this`tail, telemetry`eliminatedLogs
      ensures Valid()
      ensures popped <==> isRunning && old(Contents()) != []
      ensures popped ==> old(Contents()) == [outLog] + Contents()
      ensures !popped ==> Contents() == old(Contents())
      ensures telemetry.eliminatedLogs ==
                if popped then WrapAdd(old(telemetry.eliminatedLogs), 1) else old(telemetry.eliminatedLogs)
    {
      hide And, WrapAdd, IsPow2;
      popped, outLog := false, LogEntry(0, 0, 0, 0, 0, Debug);
      if !isRunning { return; }

      var currentTail := tail;
      if currentTail == head {
        if logArray != null { FullTest(head, tail, capacityMask + 1); }
        return;
      }
      FullTest(head, tail, capacityMask + 1);
      HeldPop(logArray[..], head, tail);

      outLog := logArray[currentTail];
      tail := And(WrapAdd(currentTail, 1), capacityMask);
      telemetry.RegisterEliminated();
      popped := true;
    }
  }
}
