/**
 The shell-command FIFO of lidbg_uevent.c: length-framed records in a byte queue, whose room is checked
 without the lock that guards the insertion.  Writers and readers are interleaved in atomic steps.
 */
module UeventFifo {
  import opened Common

  const SHELL_LINES := 300
  const PER_SHELL_SIZE := 256
  const FIFO_SIZE := SHELL_LINES * PER_SHELL_SIZE + SHELL_LINES * 4

  type Command = seq<byte>

  // ----- Records -------------------------------------------------------------------------------

  /** A u32 in memory. */
  function U32Bytes(n: nat): (s: seq<byte>)
    requires n < 0x1_0000_0000
    ensures |s| == 4
  {
    var n1 := n / 256;
    var n2 := n1 / 256;
    [(n % 256) as byte, (n1 % 256) as byte, (n2 % 256) as byte, (n2 / 256) as byte]
  }

  function U32Value(s: seq<byte>): (n: nat)
    requires |s| == 4
    ensures n < 0x1_0000_0000
  {
    s[0] as nat + 256 * (s[1] as nat + 256 * (s[2] as nat + 256 * s[3] as nat))
  }

  function Record(c: Command): (r: seq<byte>)
    requires |c| < PER_SHELL_SIZE
    ensures |r| == 4 + |c|
  {
    U32Bytes(|c|) + c
  }

  predicate Short(cs: seq<Command>) {
    forall i :: 0 <= i < |cs| ==> |cs[i]| < PER_SHELL_SIZE
  }

  function Records(cs: seq<Command>): seq<byte>
    requires Short(cs)
  {
    if cs == [] then [] else Record(cs[0]) + Records(cs[1..])
  }

  function Room(cs: seq<Command>): nat {
    if cs == [] then 0 else 4 + |cs[0]| + Room(cs[1..])
  }

  lemma {:induction false} RecordsRoom(cs: seq<Command>)
    requires Short(cs)
    ensures |Records(cs)| == Room(cs)
  {
    if cs != [] {
      RecordsRoom(cs[1..]);
    }
  }

  lemma {:induction false} RecordsAppend(cs: seq<Command>, c: Command)
    requires Short(cs) && |c| < PER_SHELL_SIZE
    ensures Records(cs + [c]) == Records(cs) + Record(c)
    ensures Room(cs + [c]) == Room(cs) + 4 + |c|
  {
    if cs == [] {
      assert [c][1..] == [];
    } else {
      assert (cs + [c])[1..] == cs[1..] + [c];
      RecordsAppend(cs[1..], c);
    }
  }

  lemma {:induction false} RoomRemove(cs: seq<Command>, k: nat)
    requires k < |cs|
    ensures Room(cs) == Room(cs[..k] + cs[k + 1..]) + 4 + |cs[k]|
  {
    if k == 0 {
      assert cs[..0] + cs[1..] == cs[1..];
    } else {
      assert (cs[..k] + cs[k + 1..])[1..] == cs[1..][..k - 1] + cs[1..][k..];
      RoomRemove(cs[1..], k - 1);
    }
  }

  lemma {:induction false} RoomBound(cs: seq<Command>)
    requires Short(cs)
    ensures Room(cs) <= (4 + PER_SHELL_SIZE - 1) * |cs|
  {
    if cs != [] {
      RoomBound(cs[1..]);
    }
  }

  // ----- The byte queue ------------------------------------------------------------------------

  /** kfifo_in copies as much as there is room for. */
  function KfifoIn(queue: seq<byte>, data: seq<byte>, capacity: nat): seq<byte> {
    if |queue| + |data| <= capacity then queue + data
    else if |queue| <= capacity then queue + data[..capacity - |queue|]
    else queue
  }

  /** kfifo_out takes as much as there is. */
  function KfifoOut(queue: seq<byte>, n: nat): (seq<byte>, seq<byte>) {
    if n <= |queue| then (queue[..n], queue[n..]) else (queue, [])
  }

  /** The locked part of a write. */
  function InsertRecord(queue: seq<byte>, c: Command, capacity: nat): seq<byte>
    requires |c| < PER_SHELL_SIZE
  {
    KfifoIn(KfifoIn(queue, U32Bytes(|c|), capacity), c, capacity)
  }

  /** The locked part of a read: the bytes handed to the reader, if any, and the queue left. */
  function TakeRecord(queue: seq<byte>): (Option<Command>, seq<byte>) {
    var (head, rest) := KfifoOut(queue, 4);
    if |head| != 4 then (None, rest)
    else
      var (body, left) := KfifoOut(rest, U32Value(head));
      (Some(body), left)
  }

  predicate HasRoom(queue: seq<byte>, c: Command, capacity: nat) {
    |queue| < capacity && |queue| < FIFO_SIZE - |c| * 2
  }

  /** When a writer need not wait: twice its command must still fit, whatever size the queue really has. */
  lemma RoomForTwice(queue: seq<byte>, c: Command, capacity: nat)
    requires |c| < 256
    ensures HasRoom(queue, c, capacity) <==> |queue| < capacity && |queue| + 2 * |c| < 300 * 256 + 300 * 4
    ensures capacity > 0 ==> HasRoom([], c, capacity)
    ensures HasRoom(queue, c, capacity) ==> |queue| + |Record(c)| <= FIFO_SIZE + 3 - |c|
  {
  }

  lemma U32RoundTrip(n: nat)
    requires n < 0x1_0000_0000
    ensures U32Value(U32Bytes(n)) == n
  {
  }

  /** What goes in stands behind what was there, cut off only where the queue is full. */
  lemma InFillsUp(queue: seq<byte>, data: seq<byte>, capacity: nat)
    ensures var r := KfifoIn(queue, data, capacity);
      && queue <= r <= queue + data
      && (|queue| <= capacity ==> |r| <= capacity && (|r| == capacity || r == queue + data))
  {
  }

  /** What comes out and what is left make up the queue, and less comes out only if nothing is left. */
  lemma OutSplits(queue: seq<byte>, n: nat)
    ensures var (data, left) := KfifoOut(queue, n);
      data + left == queue && |data| <= n && (|data| == n || left == [])
  {
  }

  lemma OutExact(a: seq<byte>, b: seq<byte>)
    ensures KfifoOut(a + b, |a|) == (a, b)
  {
  }

  /** A reader takes exactly the first of the whole records. */
  lemma TakeFirstRecord(cs: seq<Command>)
    requires Short(cs) && cs != []
    ensures TakeRecord(Records(cs)) == (Some(cs[0]), Records(cs[1..]))
  {
    hide U32Bytes, U32Value, KfifoOut;
    var head, c, rest := U32Bytes(|cs[0]|), cs[0], Records(cs[1..]);
    U32RoundTrip(|c|);
    assert Records(cs) == head + (c + rest);
    OutExact(head, c + rest);
    OutExact(c, rest);
  }

  // ----- Interleavings -------------------------------------------------------------------------

  /**
   pending are the commands whose writers have passed the space check and wait for the lock; accepted and
   delivered are the histories of insertions and of reads.
   */
  datatype System = System(queue: seq<byte>, pending: seq<Command>, accepted: seq<Command>, delivered: seq<Command>)

  datatype Step =
    | PassCheck(c: Command)
    | Insert(k: nat)
    | Read

  const START := System([], [], [], [])

  predicate Enabled(s: System, step: Step, capacity: nat, writers: nat) {
    match step
    case PassCheck(c) => |c| < PER_SHELL_SIZE && |s.pending| < writers && HasRoom(s.queue, c, capacity)
    case Insert(k) => k < |s.pending| && |s.pending[k]| < PER_SHELL_SIZE
    case Read => true
  }

  function Do(s: System, step: Step, capacity: nat, writers: nat): System
    requires Enabled(s, step, capacity, writers)
  {
    match step
    case PassCheck(c) => s.(pending := s.pending + [c])
    case Insert(k) =>
      System(InsertRecord(s.queue, s.pending[k], capacity), s.pending[..k] + s.pending[k + 1..],
             s.accepted + [s.pending[k]], s.delivered)
    case Read =>
      if s.queue == [] then s
      else
        var (body, left) := TakeRecord(s.queue);
        s.(queue := left, delivered := s.delivered + if body.Some? then [body.value] else [])
  }

  /** The system after a sequence of steps, if each was possible in its turn. */
  function Exec(steps: seq<Step>, capacity: nat, writers: nat): Option<System> {
    if steps == [] then Some(START)
    else
      match Exec(steps[..|steps| - 1], capacity, writers)
      case None => None
      case Some(s) =>
        if Enabled(s, steps[|steps| - 1], capacity, writers)
        then Some(Do(s, steps[|steps| - 1], capacity, writers))
        else None
  }

  /** The queue holds whole records of the accepted commands not yet delivered, and reads came in order. */
  ghost predicate Framed(s: System) {
    && Short(s.accepted)
    && |s.delivered| <= |s.accepted|
    && s.delivered == s.accepted[..|s.delivered|]
    && s.queue == Records(s.accepted[|s.delivered|..])
  }

  ghost predicate AlwaysFramed(capacity: nat, writers: nat) {
    forall steps: seq<Step> :: Exec(steps, capacity, writers).Some? ==> Framed(Exec(steps, capacity, writers).value)
  }

  /** The most that the queue and the writers behind the check can come to. */
  function NeededCapacity(writers: nat): nat
    requires writers >= 1
  {
    FIFO_SIZE + 3 + (4 + PER_SHELL_SIZE - 1) * (writers - 1)
  }

  ghost predicate Bounded(s: System, writers: nat)
    requires writers >= 1
  {
    && Framed(s)
    && Short(s.pending) && |s.pending| <= writers
    && |s.queue| + Room(s.pending) <= NeededCapacity(writers)
  }

  lemma PassKeepsBounded(s: System, c: Command, capacity: nat, writers: nat)
    requires writers >= 1 && Bounded(s, writers) && Enabled(s, PassCheck(c), capacity, writers)
    ensures Bounded(Do(s, PassCheck(c), capacity, writers), writers)
  {
    RoomBound(s.pending);
    RecordsAppend(s.pending, c);
  }

  /** A record for which there is room goes in whole. */
  lemma InsertWhole(queue: seq<byte>, c: Command, capacity: nat)
    requires |c| < PER_SHELL_SIZE && |queue| + 4 + |c| <= capacity
    ensures InsertRecord(queue, c, capacity) == queue + Record(c)
  {
    hide U32Bytes;
    assert queue + U32Bytes(|c|) + c == queue + (U32Bytes(|c|) + c);
  }

  lemma InsertKeepsBounded(s: System, k: nat, capacity: nat, writers: nat)
    requires writers >= 1 && capacity >= NeededCapacity(writers)
    requires Bounded(s, writers) && Enabled(s, Insert(k), capacity, writers)
    ensures Bounded(Do(s, Insert(k), capacity, writers), writers)
  {
    hide Records, Record, Room, InsertRecord;
    var s', c := Do(s, Insert(k), capacity, writers), s.pending[k];
    var waiting := s.accepted[|s.delivered|..];
    RoomRemove(s.pending, k);
    InsertWhole(s.queue, c, capacity);
    RecordsAppend(waiting, c);
    assert s'.accepted[|s.delivered|..] == waiting + [c];
    assert s'.accepted[..|s.delivered|] == s.accepted[..|s.delivered|];
  }

  lemma ReadKeepsBounded(s: System, capacity: nat, writers: nat)
    requires writers >= 1 && Bounded(s, writers)
    ensures Bounded(Do(s, Read, capacity, writers), writers)
  {
    hide TakeRecord, Room;
    var s' := Do(s, Read, capacity, writers);
    var waiting := s.accepted[|s.delivered|..];
    if waiting != [] {
      TakeFirstRecord(waiting);
      RecordsRoom(waiting);
      assert s'.accepted[..|s'.delivered|] == s.accepted[..|s.delivered|] + [waiting[0]];
      assert s'.accepted[|s'.delivered|..] == waiting[1..];
    }
  }

  lemma StepKeepsBounded(s: System, step: Step, capacity: nat, writers: nat)
    requires writers >= 1 && capacity >= NeededCapacity(writers)
    requires Bounded(s, writers) && Enabled(s, step, capacity, writers)
    ensures Bounded(Do(s, step, capacity, writers), writers)
  {
    hide Bounded, Do;
    match step
    case PassCheck(c) => PassKeepsBounded(s, c, capacity, writers);
    case Insert(k) => InsertKeepsBounded(s, k, capacity, writers);
    case Read => ReadKeepsBounded(s, capacity, writers);
  }

  lemma {:induction false} ExecBounded(steps: seq<Step>, capacity: nat, writers: nat)
    requires writers >= 1 && capacity >= NeededCapacity(writers)
    requires Exec(steps, capacity, writers).Some?
    ensures Bounded(Exec(steps, capacity, writers).value, writers)
  {
    if steps != [] {
      var before := steps[..|steps| - 1];
      ExecBounded(before, capacity, writers);
      StepKeepsBounded(Exec(before, capacity, writers).value, steps[|steps| - 1], capacity, writers);
    }
  }

  // ----- Too small a queue ---------------------------------------------------------------------

  lemma ExecStep(steps: seq<Step>, step: Step, capacity: nat, writers: nat)
    requires Exec(steps, capacity, writers).Some?
    requires Enabled(Exec(steps, capacity, writers).value, step, capacity, writers)
    ensures Exec(steps + [step], capacity, writers)
         == Some(Do(Exec(steps, capacity, writers).value, step, capacity, writers))
  {
    assert (steps + [step])[..|steps|] == steps;
  }

  function Zeros(n: nat): Command {
    seq(n, _ => 0)
  }

  function Longest(n: nat): (cs: seq<Command>)
    ensures |cs| == n && Short(cs) && Room(cs) == (4 + PER_SHELL_SIZE - 1) * n
  {
    if n == 0 then [] else [Zeros(PER_SHELL_SIZE - 1)] + Longest(n - 1)
  }

  lemma {:induction false} LongestAppend(n: nat)
    ensures Longest(n + 1) == Longest(n) + [Zeros(PER_SHELL_SIZE - 1)]
  {
    if n > 0 {
      LongestAppend(n - 1);
    }
  }

  /** n writers of the longest command can pass the check on an empty queue. */
  lemma {:induction false} ManyPass(n: nat, capacity: nat, writers: nat) returns (steps: seq<Step>)
    requires capacity >= 1 && n <= writers
    ensures Exec(steps, capacity, writers) == Some(System([], Longest(n), [], []))
  {
    if n == 0 {
      steps := [];
    } else {
      steps := ManyPass(n - 1, capacity, writers);
      LongestAppend(n - 1);
      ExecStep(steps, PassCheck(Zeros(PER_SHELL_SIZE - 1)), capacity, writers);
      steps := steps + [PassCheck(Zeros(PER_SHELL_SIZE - 1))];
    }
  }

  /** One more writer passes the check and inserts at once. */
  lemma PassAndInsert(steps: seq<Step>, c: Command, capacity: nat, writers: nat) returns (steps': seq<Step>)
    requires Exec(steps, capacity, writers).Some? && |c| < PER_SHELL_SIZE
    requires var s := Exec(steps, capacity, writers).value;
      |s.pending| < writers && HasRoom(s.queue, c, capacity)
    ensures var s := Exec(steps, capacity, writers).value;
      Exec(steps', capacity, writers)
      == Some(System(InsertRecord(s.queue, c, capacity), s.pending, s.accepted + [c], s.delivered))
  {
    hide InsertRecord, Exec, HasRoom;
    var s := Exec(steps, capacity, writers).value;
    ExecStep(steps, PassCheck(c), capacity, writers);
    var steps1 := steps + [PassCheck(c)];
    ExecStep(steps1, Insert(|s.pending|), capacity, writers);
    steps' := steps1 + [Insert(|s.pending|)];
    assert (s.pending + [c])[..|s.pending|] + (s.pending + [c])[|s.pending| + 1..] == s.pending;
  }

  /** Short commands can fill the queue to any length that leaves a byte free. */
  lemma {:induction false} Fill(length: nat, capacity: nat, writers: nat)
      returns (steps: seq<Step>, accepted: seq<Command>)
    requires 4 <= length < capacity && length < FIFO_SIZE && writers >= 1
    ensures Short(accepted) && Room(accepted) == length
    ensures Exec(steps, capacity, writers)
         == Some(System(Records(accepted), Longest(writers - 1), accepted, []))
  {
    var c;
    if length < 8 {
      steps := ManyPass(writers - 1, capacity, writers);
      accepted, c := [], Zeros(length - 4);
    } else {
      steps, accepted := Fill(length - 4, capacity, writers);
      c := [];
    }
    RecordsRoom(accepted);
    RecordsAppend(accepted, c);
    assert InsertRecord(Records(accepted), c, capacity) == Records(accepted) + Record(c);
    steps := PassAndInsert(steps, c, capacity, writers);
    accepted := accepted + [c];
  }

  ghost predicate NothingRead(s: System, capacity: nat) {
    Short(s.pending) && Short(s.accepted) && |s.queue| <= capacity && s.delivered == []
  }

  lemma InsertFirst(s: System, capacity: nat, writers: nat)
    requires s.pending != [] && NothingRead(s, capacity)
    ensures Enabled(s, Insert(0), capacity, writers)
    ensures var s' := Do(s, Insert(0), capacity, writers);
      && NothingRead(s', capacity) && |s'.pending| == |s.pending| - 1
      && Room(s'.accepted) + Room(s'.pending) == Room(s.accepted) + Room(s.pending)
  {
    hide U32Bytes, Records;
    RecordsAppend(s.accepted, s.pending[0]);
    RoomRemove(s.pending, 0);
  }

  /** Every waiting writer gets its turn, whether its record fits or not. */
  lemma {:induction false} Drain(steps: seq<Step>, capacity: nat, writers: nat) returns (steps': seq<Step>)
    requires Exec(steps, capacity, writers).Some? && NothingRead(Exec(steps, capacity, writers).value, capacity)
    ensures Exec(steps', capacity, writers).Some? && NothingRead(Exec(steps', capacity, writers).value, capacity)
    ensures var s, s' := Exec(steps, capacity, writers).value, Exec(steps', capacity, writers).value;
      Room(s'.accepted) == Room(s.accepted) + Room(s.pending)
    decreases |Exec(steps, capacity, writers).value.pending|
  {
    hide Exec, Do, Enabled;
    var s := Exec(steps, capacity, writers).value;
    if s.pending == [] {
      steps' := steps;
    } else {
      InsertFirst(s, capacity, writers);
      ExecStep(steps, Insert(0), capacity, writers);
      steps' := Drain(steps + [Insert(0)], capacity, writers);
    }
  }

  /** A run that puts more into the queue than it holds. */
  lemma Overrun(capacity: nat, writers: nat) returns (steps: seq<Step>)
    requires writers >= 1 && 1 <= capacity < NeededCapacity(writers)
    ensures Exec(steps, capacity, writers).Some? && !Framed(Exec(steps, capacity, writers).value)
  {
    var accepted: seq<Command>;
    if capacity <= 4 {
      steps := ManyPass(0, capacity, writers);
      steps := PassAndInsert(steps, Zeros(1), capacity, writers);
      accepted := [Zeros(1)];
      assert [] + [Zeros(1)] == accepted;
      RecordsAppend([], Zeros(1));
    } else {
      var length := if capacity < FIFO_SIZE then capacity - 1 else FIFO_SIZE - 1;
      steps, accepted := Fill(length, capacity, writers);
      RecordsRoom(accepted);
      RecordsAppend(accepted, []);
      steps := PassAndInsert(steps, [], capacity, writers);
      steps := Drain(steps, capacity, writers);
    }
    var s := Exec(steps, capacity, writers).value;
    assert s.accepted[0..] == s.accepted;
    RecordsRoom(s.accepted);
  }

  /**
   Exactly how large the queue must be: with up to so many writers between the check and the lock, and any
   number of readers, every accepted command is read back whole, once and in order, if and only if the queue
   can hold NeededCapacity.
   */
  lemma FramingIffCapacity(capacity: nat, writers: nat)
    requires writers >= 1 && capacity >= 1
    ensures AlwaysFramed(capacity, writers) <==> capacity >= NeededCapacity(writers)
  {
    if capacity >= NeededCapacity(writers) {
      forall steps: seq<Step> | Exec(steps, capacity, writers).Some?
        ensures Framed(Exec(steps, capacity, writers).value)
      {
        ExecBounded(steps, capacity, writers);
      }
    } else {
      var steps := Overrun(capacity, writers);
    }
  }

  /**
   kfifo_alloc makes FIFO_SIZE a power of two.  Rounded up, the queue carries 205 such writers and no more;
   rounded down, not even one.
   */
  lemma RoundedCapacities(writers: nat)
    requires writers >= 1
    ensures AlwaysFramed(0x2_0000, writers) <==> writers <= 205
    ensures !AlwaysFramed(0x1_0000, writers)
    ensures 0x1_0000 <= FIFO_SIZE <= 0x2_0000
  {
    FramingIffCapacity(0x2_0000, writers);
    FramingIffCapacity(0x1_0000, writers);
  }

  // ----- The driver itself ---------------------------------------------------------------------

  class CmdFifo {
    var queue: seq<byte>
    var shellCount: int
    const capacity: nat

    constructor (capacity: nat)
      ensures queue == [] && shellCount == 0 && this.capacity == capacity
    {
      this.capacity := capacity;
      queue, shellCount := [], 0;
    }

    /** The condition under which a writer stops waiting; it is read without the lock. */
    method SpaceCheck(cmd: Command) returns (pass: bool)
      requires |cmd| < PER_SHELL_SIZE
      ensures pass == HasRoom(queue, cmd, capacity)
      ensures !pass <==> |queue| >= capacity || |queue| + 2 * |cmd| >= 78_000
    {
      var full := |queue| >= capacity;
      pass := !(full || |queue| >= FIFO_SIZE - |cmd| * 2);
    }

    method In(data: seq<byte>)
      modifies this`queue
      ensures queue == KfifoIn(old(queue), data, capacity)
    {
      var room := if |queue| <= capacity then capacity - |queue| else 0;
      var n := if |data| <= room then |data| else room;
      queue := queue + data[..n];
    }

    method Out(n: nat) returns (data: seq<byte>)
      modifies this`queue
      ensures (data, queue) == KfifoOut(old(queue), n)
    {
      var k := if n <= |queue| then n else |queue|;
      assert queue[..|queue|] == queue && queue[|queue|..] == [];
      data := queue[..k];
      queue := queue[k..];
    }

    /** The locked insertion of lidbg_uevent_shell. */
    method InsertLocked(cmd: Command)
      requires |cmd| < PER_SHELL_SIZE
      modifies this
      ensures queue == InsertRecord(old(queue), cmd, capacity) && shellCount == old(shellCount) + 1
    {
      In(U32Bytes(|cmd|));
      In(cmd);
      shellCount := shellCount + 1;
    }

    /** The locked part of lidbg_uevent_read; None is a return of 0 without data. */
    method ReadLocked() returns (r: Option<Command>)
      modifies this
      ensures (r, queue) == TakeRecord(old(queue))
      ensures shellCount == old(shellCount) - if r.Some? then 1 else 0
    {
      var head := Out(4);
      if |head| != 4 {
        return None;
      }
      var body := Out(U32Value(head));
      shellCount := shellCount - 1;
      return Some(body);
    }
  }
}
