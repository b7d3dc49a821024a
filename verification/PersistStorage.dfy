/**
 The two on-disk copies of the field table, written in alternation, and what a power failure can leave.
 A device write reaches the medium for certain at the next fsync; until then each one may be lost.
 */
module PersistStorage {
  import opened Common
  import opened FieldTable

  /** What the magic number says a copy holds: nothing valid, or a table. */
  datatype Image = Blank | Stored(table: Table)

  datatype Copies = Copies(first: Image, second: Image)

  datatype Slot = First | Second

  datatype DevOp = Write(slot: Slot, image: Image) | Fsync

  function At(c: Copies, slot: Slot): Image {
    if slot.First? then c.first else c.second
  }

  /** The copies as the running program reads them back after a sequence of operations. */
  function View(start: Copies, ops: seq<DevOp>): Copies {
    if ops == [] then start
    else
      var before := View(start, ops[..|ops| - 1]);
      match ops[|ops| - 1]
      case Write(First, image) => before.(first := image)
      case Write(Second, image) => before.(second := image)
      case Fsync => before
  }

  /** The images that a power failure after these operations can leave in a slot. */
  function Possible(start: Copies, ops: seq<DevOp>, slot: Slot): set<Image> {
    if ops == [] then {At(start, slot)}
    else
      var before := ops[..|ops| - 1];
      match ops[|ops| - 1]
      case Write(s, image) => Possible(start, before, slot) + if s == slot then {image} else {}
      case Fsync => {At(View(start, before), slot)}
  }

  predicate CrashImage(start: Copies, ops: seq<DevOp>, left: Copies) {
    left.first in Possible(start, ops, First) && left.second in Possible(start, ops, Second)
  }

  /** load_persistent_data takes the first copy whose magic is valid, else an empty table. */
  function Load(c: Copies): Table {
    if c.first.Stored? then c.first.table
    else if c.second.Stored? then c.second.table
    else []
  }

  predicate HasValidCopy(c: Copies) {
    c.first.Stored? || c.second.Stored?
  }

  /** The device operations of save_persistent_data: write the new copy, sync, erase the other, sync. */
  function SaveOps(c: Copies, t: Table): seq<DevOp> {
    if c.first.Stored?
    then [Write(Second, Stored(t)), Fsync, Write(First, Blank), Fsync]
    else [Write(First, Stored(t)), Fsync, Write(Second, Blank), Fsync]
  }

  lemma ViewNothing(start: Copies)
    ensures View(start, []) == start && forall slot :: Possible(start, [], slot) == {At(start, slot)}
  {
  }

  lemma ViewSteps(start: Copies, ops: seq<DevOp>, op: DevOp)
    ensures View(start, ops + [op]) == match op
                                       case Write(First, image) => View(start, ops).(first := image)
                                       case Write(Second, image) => View(start, ops).(second := image)
                                       case Fsync => View(start, ops)
    ensures forall slot ::
        Possible(start, ops + [op], slot) == match op
                                             case Write(s, image) =>
                                               Possible(start, ops, slot) + if s == slot then {image} else {}
                                             case Fsync => {At(View(start, ops), slot)}
  {
    assert (ops + [op])[..|ops|] == ops;
  }

  /** The copies after a completed save, and what a failure can leave after each of its four operations. */
  lemma SavePrefix(c: Copies, t: Table, k: nat, left: Copies)
    requires k <= 4
    ensures View(c, SaveOps(c, t)) == if c.first.Stored? then Copies(Blank, Stored(t)) else Copies(Stored(t), Blank)
    ensures CrashImage(c, SaveOps(c, t)[..k], left) ==>
        var target := if c.first.Stored? then Second else First;
        var other := if c.first.Stored? then First else Second;
        && (At(left, target) == Stored(t) || (k <= 1 && At(left, target) == At(c, target)))
        && ((k <= 3 && At(left, other) == At(c, other)) || (k >= 3 && At(left, other) == Blank))
  {
    hide View, Possible;
    ViewNothing(c);
    var ops := SaveOps(c, t);
    var p1 := [] + [ops[0]];
    var p2 := p1 + [ops[1]];
    var p3 := p2 + [ops[2]];
    var p4 := p3 + [ops[3]];
    ViewSteps(c, [], ops[0]);
    ViewSteps(c, p1, ops[1]);
    ViewSteps(c, p2, ops[2]);
    ViewSteps(c, p3, ops[3]);
    assert p4 == ops;
    assert ops[..k] == if k == 0 then [] else if k == 1 then p1 else if k == 2 then p2 else if k == 3 then p3 else p4;
  }

  /**
   A power failure at any point of a save leaves copies that load as the table from before or the new one;
   once the first sync is behind and the old copy erased, only as the new one.
   */
  lemma SaveIsCrashAtomic(c: Copies, t: Table, k: nat, left: Copies)
    requires k <= 4 && CrashImage(c, SaveOps(c, t)[..k], left)
    ensures Load(left) == Load(c) || Load(left) == t
    ensures k == 4 ==> Load(left) == t
    ensures k == 4 ==> left in {Copies(Blank, Stored(t)), Copies(Stored(t), Blank)}
    ensures k == 0 ==> left == c
    ensures HasValidCopy(c) || k >= 2 ==> HasValidCopy(left)
  {
    SavePrefix(c, t, k, left);
  }

  /**
   Which table it is when power is lost in the middle: while the first copy is valid the old one counts until
   that copy is erased; otherwise the new one as soon as it has reached the disk.
   */
  lemma LostPowerLoads(c: Copies, t: Table, k: nat, left: Copies)
    requires k <= 4 && CrashImage(c, SaveOps(c, t)[..k], left)
    ensures c.first.Stored? ==> Load(left) == if left.first.Stored? then c.first.table else t
    ensures c.first.Stored? && k <= 2 ==> Load(left) == c.first.table
    ensures c.first.Blank? && left.first.Stored? ==> Load(left) == t == left.first.table
    ensures c.first.Blank? && left.first.Blank? ==>
      k <= 1 && Load(left) == if c.second.Stored? then c.second.table else []
  {
    SavePrefix(c, t, k, left);
  }

  /** Of two valid copies, as a power loss can leave them, the first counts; with none the table is empty. */
  lemma FirstCopyCounts(t: Table, u: Table)
    ensures Load(Copies(Stored(t), Stored(u))) == t && Load(Copies(Stored(t), Blank)) == t
    ensures Load(Copies(Blank, Stored(u))) == u && Load(Copies(Blank, Blank)) == []
  {
  }

  /** Nothing before a sync can be lost any more: the earlier history only counts through its view. */
  lemma {:induction false} SyncedHistory(start: Copies, synced: seq<DevOp>, ops: seq<DevOp>)
    requires synced == [] || synced[|synced| - 1] == Fsync
    ensures View(start, synced + ops) == View(View(start, synced), ops)
    ensures forall slot :: Possible(start, synced + ops, slot) == Possible(View(start, synced), ops, slot)
  {
    if ops == [] {
      assert synced + ops == synced;
      if synced != [] {
        assert View(start, synced) == View(start, synced[..|synced| - 1]);
      }
    } else {
      var last := ops[|ops| - 1];
      var before := ops[..|ops| - 1];
      SyncedHistory(start, synced, before);
      assert synced + ops == (synced + before) + [last];
      assert ops == before + [last];
      ViewSteps(start, synced + before, last);
      ViewSteps(View(start, synced), before, last);
    }
  }

  // ----- Runs with power failures --------------------------------------------------------------

  /** Between calls: the table in memory, and the synced copies. */
  datatype State = State(mem: Table, disk: Copies)

  /** A setfield call that returned, or one cut short after some of its device operations. */
  datatype Event =
    | Returned(field: string, value: string)
    | PowerLost(field: string, value: string, steps: nat, left: Copies)

  /** The device operations a call performs on an encrypted device. */
  function CallOps(s: State, f: string, v: string, max: nat): seq<DevOp> {
    var r := SetField(s.mem, f, v, max);
    if r.rc == SetOk then SaveOps(s.disk, r.table) else []
  }

  ghost predicate Step(s: State, e: Event, s': State, max: nat) {
    match e
    case Returned(f, v) =>
      s' == State(SetField(s.mem, f, v, max).table, View(s.disk, CallOps(s, f, v, max)))
    case PowerLost(f, v, k, left) =>
      && k <= |CallOps(s, f, v, max)|
      && CrashImage(s.disk, CallOps(s, f, v, max)[..k], left)
      && s' == State(Load(left), left)
  }

  ghost predicate IsRun(states: seq<State>, events: seq<Event>, max: nat) {
    && |states| == |events| + 1
    && forall i :: 0 <= i < |events| ==> Step(states[i], events[i], states[i + 1], max)
  }

  ghost predicate Inv(s: State, max: nat) {
    Good(s.mem, max) && Load(s.disk) == s.mem
  }

  /** One event keeps memory and disk in agreement and moves the table all the way or not at all. */
  lemma StepIsAtomic(s: State, e: Event, s': State, max: nat)
    requires Inv(s, max) && Step(s, e, s', max)
    ensures Inv(s', max)
    ensures s'.mem == s.mem || s'.mem == SetField(s.mem, e.field, e.value, max).table
    ensures e.Returned? ==> s'.mem == SetField(s.mem, e.field, e.value, max).table
    ensures HasValidCopy(s.disk) ==> HasValidCopy(s'.disk)
  {
    var r := SetField(s.mem, e.field, e.value, max);
    SetFieldOutcome(s.mem, e.field, e.value, max);
    SavePrefix(s.disk, r.table, 4, s.disk);
    if e.PowerLost? {
      if r.rc == SetOk {
        SaveIsCrashAtomic(s.disk, r.table, e.steps, e.left);
      } else {
        assert CallOps(s, e.field, e.value, max)[..e.steps] == [];
      }
    }
  }

  lemma {:induction false} RunKeepsInv(states: seq<State>, events: seq<Event>, max: nat, i: nat)
    requires IsRun(states, events, max) && Inv(states[0], max) && i < |states|
    ensures Inv(states[i], max)
    ensures HasValidCopy(states[0].disk) ==> HasValidCopy(states[i].disk)
  {
    if i > 0 {
      RunKeepsInv(states, events, max, i - 1);
      StepIsAtomic(states[i - 1], events[i - 1], states[i], max);
    }
  }

  /**
   Crash atomicity over whole runs: every event, complete or cut short, leaves each field reading either
   entirely as before or entirely as after the call, and a valid copy, once there, is never lost.  After the
   call the written field reads as the new value if and only if its keys fit, and an unrelated field as before
   if and only if no cut key hits it with another value.
   */
  lemma RunsAreAtomic(states: seq<State>, events: seq<Event>, max: nat, i: nat, g: string)
    requires IsRun(states, events, max) && Inv(states[0], max) && i < |events|
    ensures var s, s', e := states[i], states[i + 1], events[i];
      var after := SetField(s.mem, e.field, e.value, max);
      && Load(s'.disk) == s'.mem
      && (s'.mem == s.mem || s'.mem == after.table)
      && FieldValue(s'.mem, g) in {FieldValue(s.mem, g), FieldValue(after.table, g)}
      && (after.rc != SetOk ==> s'.mem == s.mem)
      && (after.rc == SetOk ==> (FieldValue(after.table, e.field) == Some(e.value) <==> KeysFit(e.field, e.value)))
      && (after.rc == SetOk && Unrelated(e.field, g) ==>
            (FieldValue(after.table, g) == FieldValue(s.mem, g)
             <==> CutKeyHarmless(s.mem, e.field, e.value, g)))
      && (Unrelated(e.field, g) && !HitByCutKey(e.field, e.value, g)
          ==> FieldValue(s'.mem, g) == FieldValue(s.mem, g))
      && (HasValidCopy(s.disk) ==> HasValidCopy(s'.disk))
  {
    hide SetField, FieldValue, KeysFit, HitByCutKey, Unrelated;
    var s, e := states[i], events[i];
    RunKeepsInv(states, events, max, i);
    StepIsAtomic(s, e, states[i + 1], max);
    SetFieldOutcome(s.mem, e.field, e.value, max);
    if SetField(s.mem, e.field, e.value, max).rc == SetOk {
      SetThenGet(s.mem, e.field, e.value, max);
      if Unrelated(e.field, g) {
        SetKeepsOtherFields(s.mem, e.field, e.value, max, g);
      }
    }
  }
}
